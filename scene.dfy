/** The state that `mounted()` in assets/js/hooks/three_scene.js keeps in
    its closure, and the code that changes it: the two LiveView event
    handlers and one pass of the `animate` loop (cells, then frame rate). */
module Scene {
  import opened Wrappers
  import opened KeyCodec
  import opened CellGrid
  import opened Telemetry

  class ThreeScene {
    var cellsWidth: int
    var cellsHeight: int
    var allCellObjectMap: map<string, Cell>
    /** How many cell meshes have been added to the scene so far. */
    var meshesInScene: nat
    const fps: FpsCounter

    /** Every cell sits under the key of its own coordinates, inside the
        current grid, so every key decodes to numbers. */
    ghost predicate Valid()
      reads this
    {
      && (forall k :: k in allCellObjectMap ==> InGrid(k, allCellObjectMap[k], cellsWidth, cellsHeight))
      && AllKeysDecode(allCellObjectMap)
    }

    /** `mounted()` up to the first frame: no grid yet, and the frame-rate
        window opened at the clock reading `now`. */
    constructor (now: real)
      ensures Valid()
      ensures cellsWidth == 0 && cellsHeight == 0 && allCellObjectMap == map[]
      ensures meshesInScene == 0
      ensures fresh(fps) && fps.State() == FpsState(0, now)
    {
      cellsWidth := 0;
      cellsHeight := 0;
      allCellObjectMap := map[];
      meshesInScene := 0;
      fps := new FpsCounter(now);
    }

    /** The `sendCellCount` handler: record the size and replace the whole
        dictionary by a fresh w-by-h grid. The new meshes are added to the
        scene; the old ones are not taken out of it. */
    method SendCellCount(w: int, h: int)
      modifies this
      ensures Valid()
      ensures cellsWidth == w && cellsHeight == h
      ensures IsCubeMap(allCellObjectMap, w, h)
      ensures |allCellObjectMap| == Clamp(w) * Clamp(h)
      ensures meshesInScene == old(meshesInScene) + |allCellObjectMap|
    {
      cellsWidth := w;
      cellsHeight := h;
      var cells := CreateCubeMap(cellsWidth, cellsHeight);
      allCellObjectMap := cells;
      meshesInScene := meshesInScene + |cells|;
      InGridKeysDecode(allCellObjectMap, w, h);
    }

    /** The `sendCellAliveMap` handler: copy the snapshot's flag into every
        cell whose key the snapshot has; add and remove nothing. */
    method SendCellAliveMap(snapshot: map<string, bool>)
      requires Valid()
      modifies this
      ensures Valid()
      ensures allCellObjectMap == MergeAlive(old(allCellObjectMap), snapshot)
      ensures cellsWidth == old(cellsWidth) && cellsHeight == old(cellsHeight)
      ensures meshesInScene == old(meshesInScene)
    {
      allCellObjectMap := MergeAliveness(allCellObjectMap, snapshot);
      GridPreserved(old(allCellObjectMap), allCellObjectMap, cellsWidth, cellsHeight);
    }

    /** The cell loop of `animate`: advance every hue, recolour every
        material, and lift a live cell to the pyramid height of the
        coordinates decoded from its key, or drop a dead one to 0. */
    method AnimateCells()
      requires Valid()
      modifies this
      ensures Valid()
      ensures allCellObjectMap == FrameUpdate(old(allCellObjectMap), cellsWidth, cellsHeight)
      ensures cellsWidth == old(cellsWidth) && cellsHeight == old(cellsHeight)
      ensures meshesInScene == old(meshesInScene)
    {
      allCellObjectMap := AnimateAll(allCellObjectMap, cellsWidth, cellsHeight);
      GridPreserved(old(allCellObjectMap), allCellObjectMap, cellsWidth, cellsHeight);
    }

    /** One pass of `animate` at clock reading `now`: the cell loop, then
        `sendNowFps`; the result is the `updateFps` payload, if any. */
    method Animate(now: real) returns (emitted: Option<real>)
      requires Valid()
      modifies this, fps
      ensures Valid()
      ensures allCellObjectMap == FrameUpdate(old(allCellObjectMap), cellsWidth, cellsHeight)
      ensures cellsWidth == old(cellsWidth) && cellsHeight == old(cellsHeight)
      ensures meshesInScene == old(meshesInScene)
      ensures (fps.State(), emitted) == FpsStep(old(fps.State()), now)
    {
      AnimateCells();
      emitted := fps.SendNowFps(now);
    }
  }
}
