/** The cell dictionary behind the scene (`allCellObjectMap` in
    assets/js/hooks/three_scene.js): one entry per grid coordinate, keyed by
    `cellKey(x, y)`. This module holds the cell record, the grid build
    (`createCubeMap`), the aliveness merge of `sendCellAliveMap` and the
    per-cell step of `animate`, each as the function or method the rest of
    the model is stated against. All JavaScript numbers are exact reals. */
module CellGrid {
  import opened KeyCodec

  datatype Vec3 = Vec3(x: real, y: real, z: real)

  /** The part of a cell's MeshStandardMaterial that the code changes: the
      colour as set by `setHSL(hue, saturation, lightness)`, and the opacity. */
  datatype Material = Material(hue: real, saturation: real, lightness: real, opacity: real)

  /** A cell's mesh (`cell.shape`) with its `userData` bag. */
  datatype Shape = Shape(
    material: Material,
    position: Vec3,
    currentHue: real,
    timer: real,
    cellX: int,
    cellY: int)

  /** One entry of the cell dictionary. */
  datatype Cell = Cell(alive: bool, shape: Shape)

  /** The hue added to every cell on every frame. */
  const HueStep: real := 0.002

  function Abs(r: real): real {
    if r < 0.0 then -r else r
  }

  function Clamp(n: int): nat {
    if n < 0 then 0 else n
  }

  // ---- material ----

  /** `updateCellMaterialColor(material, h, alive)`. */
  function UpdateCellMaterialColor(h: real, alive: bool): Material
  {
    Material(h, 0.95, if alive then 0.7 else 0.5, if alive then 0.9 else 0.5)
  }

  /** Saturation is fixed; lightness and opacity depend on aliveness alone,
      are higher for a live cell, and each of them tells the two states apart. */
  lemma MaterialByAliveness(h: real, alive: bool)
    ensures UpdateCellMaterialColor(h, alive).hue == h
    ensures UpdateCellMaterialColor(h, alive).saturation == 0.95
    ensures UpdateCellMaterialColor(h, alive).lightness == if alive then 0.7 else 0.5
    ensures UpdateCellMaterialColor(h, alive).opacity == if alive then 0.9 else 0.5
    ensures UpdateCellMaterialColor(h, alive).lightness > 0.6 <==> alive
    ensures UpdateCellMaterialColor(h, alive).opacity > 0.6 <==> alive
  {
  }

  // ---- grid build ----

  /** The cell that `createCubeMap(scene, w, h)` stores under `cellKey(x, y)`:
      alive, hue and timer 0, centred on the origin, material as the
      constructor's call to updateCellMaterialColor(material, 0, true) sets it. */
  function NewCell(x: int, y: int, w: int, h: int): Cell
  {
    Cell(true, Shape(
      UpdateCellMaterialColor(0.0, true),
      Vec3(x as real - w as real / 2.0, 0.0, y as real - h as real / 2.0),
      0.0, 0.0, x, y))
  }

  /** `key` is the key of the cell's own coordinates, which lie in the grid. */
  ghost predicate InGrid(key: string, c: Cell, w: int, h: int) {
    && key == CellKey(c.shape.cellX, c.shape.cellY)
    && 0 <= c.shape.cellX < w
    && 0 <= c.shape.cellY < h
  }

  /** `cells` is a freshly built w-by-h grid: every coordinate of the grid
      has its new cell under its key, and there is nothing else. */
  ghost predicate IsCubeMap(cells: map<string, Cell>, w: int, h: int) {
    && (forall x, y :: 0 <= x < w && 0 <= y < h ==>
          CellKey(x, y) in cells && cells[CellKey(x, y)] == NewCell(x, y, w, h))
    && (forall k :: k in cells ==>
          InGrid(k, cells[k], w, h) && cells[k] == NewCell(cells[k].shape.cellX, cells[k].shape.cellY, w, h))
  }

  /** Rows 0..rows-1 and, of row `rows`, columns 0..cols-1 are built, and
      nothing else is in `cells`. */
  ghost predicate BuiltUpTo(cells: map<string, Cell>, w: int, h: int, rows: int, cols: int) {
    && (forall i, j :: 0 <= i < w && 0 <= j < h && (j < rows || (j == rows && i < cols)) ==>
          CellKey(i, j) in cells && cells[CellKey(i, j)] == NewCell(i, j, w, h))
    && (forall k :: k in cells ==>
          && InGrid(k, cells[k], w, h)
          && (cells[k].shape.cellY < rows || (cells[k].shape.cellY == rows && cells[k].shape.cellX < cols))
          && cells[k] == NewCell(cells[k].shape.cellX, cells[k].shape.cellY, w, h))
  }

  /** Adding column x of row y to a grid built up to it. */
  lemma BuiltStep(cells: map<string, Cell>, w: int, h: int, y: int, x: int)
    requires 0 <= x < w && 0 <= y < h && BuiltUpTo(cells, w, h, y, x)
    ensures CellKey(x, y) !in cells
    ensures BuiltUpTo(cells[CellKey(x, y) := NewCell(x, y, w, h)], w, h, y, x + 1)
  {
    var key := CellKey(x, y);
    assert key !in cells by {
      if key in cells {
        CellKeyInjective(x, y, cells[key].shape.cellX, cells[key].shape.cellY);
      }
    }
  }

  /** A complete row is the start of the next one. */
  lemma RowDone(cells: map<string, Cell>, w: int, h: int, y: int)
    requires BuiltUpTo(cells, w, h, y, Clamp(w))
    ensures BuiltUpTo(cells, w, h, y + 1, 0)
  {
  }

  /** All rows built is a fresh grid. */
  lemma AllRowsDone(cells: map<string, Cell>, w: int, h: int)
    requires BuiltUpTo(cells, w, h, Clamp(h), 0)
    ensures IsCubeMap(cells, w, h)
  {
  }

  /** The inner loop of `createCubeMap`: row y, columns x = 0..w-1. */
  method AddRow(cells: map<string, Cell>, w: int, h: int, y: int) returns (row: map<string, Cell>)
    requires 0 <= y < h && BuiltUpTo(cells, w, h, y, 0)
    ensures BuiltUpTo(row, w, h, y + 1, 0)
    ensures |row| == |cells| + Clamp(w)
  {
    row := cells;
    var x := 0;
    while x < w
      invariant 0 <= x <= Clamp(w)
      invariant BuiltUpTo(row, w, h, y, x)
      invariant |row| == |cells| + x
    {
      BuiltStep(row, w, h, y, x);
      row := row[CellKey(x, y) := NewCell(x, y, w, h)];
      x := x + 1;
    }
    RowDone(row, w, h, y);
  }

  /** The number of cells in `rows` complete rows of width w. */
  function RowsSize(w: int, rows: nat): nat {
    if rows == 0 then 0 else RowsSize(w, rows - 1) + Clamp(w)
  }

  lemma {:induction false} RowsSizeIsProduct(w: int, rows: nat)
    ensures RowsSize(w, rows) == Clamp(w) * rows
  {
    if rows > 0 {
      RowsSizeIsProduct(w, rows - 1);
    }
  }

  /** `createCubeMap(scene, w, h)`: rows y = 0..h-1, columns x = 0..w-1. */
  method CreateCubeMap(w: int, h: int) returns (cells: map<string, Cell>)
    ensures IsCubeMap(cells, w, h)
    ensures |cells| == Clamp(w) * Clamp(h)
    ensures forall k :: k in cells ==>
      && cells[k].alive
      && cells[k].shape.currentHue == 0.0 && cells[k].shape.timer == 0.0
      && cells[k].shape.position.y == 0.0
  {
    cells := map[];
    var y := 0;
    while y < h
      invariant 0 <= y <= Clamp(h)
      invariant BuiltUpTo(cells, w, h, y, 0)
      invariant |cells| == RowsSize(w, y)
    {
      cells := AddRow(cells, w, h, y);
      y := y + 1;
    }
    assert y == Clamp(h);
    RowsSizeIsProduct(w, y);
    AllRowsDone(cells, w, h);
    assert forall k :: k in cells ==> cells[k] == NewCell(cells[k].shape.cellX, cells[k].shape.cellY, w, h);
  }

  /** Two maps that are both freshly built w-by-h grids are equal: the build
      leaves nothing to chance, and in particular nothing of an earlier grid. */
  lemma CubeMapUnique(m1: map<string, Cell>, m2: map<string, Cell>, w: int, h: int)
    requires IsCubeMap(m1, w, h) && IsCubeMap(m2, w, h)
    ensures m1 == m2
  {
    forall k | k in m1 ensures k in m2 && m1[k] == m2[k] {
      assert InGrid(k, m1[k], w, h);
    }
    forall k | k in m2 ensures k in m1 {
      assert InGrid(k, m2[k], w, h);
    }
  }

  // ---- aliveness merge ----

  /** The cell dictionary after `sendCellAliveMap` with the given snapshot. */
  function MergeAlive(cells: map<string, Cell>, snapshot: map<string, bool>): (r: map<string, Cell>)
    ensures r.Keys == cells.Keys
  {
    map k | k in cells :: if k in snapshot then cells[k].(alive := snapshot[k]) else cells[k]
  }

  /** The merge per key: a key in the snapshot gets the snapshot's flag, any
      other key keeps its cell; the mesh of every cell is left alone. */
  lemma MergeCell(cells: map<string, Cell>, snapshot: map<string, bool>, k: string)
    requires k in cells
    ensures MergeAlive(cells, snapshot)[k].shape == cells[k].shape
    ensures k in snapshot ==> MergeAlive(cells, snapshot)[k].alive == snapshot[k]
    ensures k !in snapshot ==> MergeAlive(cells, snapshot)[k] == cells[k]
  {
  }

  /** The loop of the `sendCellAliveMap` handler over the dictionary. */
  method MergeAliveness(cells: map<string, Cell>, snapshot: map<string, bool>) returns (merged: map<string, Cell>)
    ensures merged == MergeAlive(cells, snapshot)
  {
    merged := cells;
    var remaining := cells.Keys;
    while remaining != {}
      invariant remaining <= cells.Keys && merged.Keys == cells.Keys
      invariant forall k :: k in merged ==>
        merged[k] == if k in remaining then cells[k] else MergeAlive(cells, snapshot)[k]
      decreases remaining
    {
      var key :| key in remaining;
      var cell := merged[key];
      if key in snapshot {
        cell := cell.(alive := snapshot[key]);
      }
      merged := merged[key := cell];
      remaining := remaining - {key};
    }
  }

  /** A snapshot applied twice has the effect of applying it once. */
  lemma MergeIdempotent(cells: map<string, Cell>, snapshot: map<string, bool>)
    ensures MergeAlive(MergeAlive(cells, snapshot), snapshot) == MergeAlive(cells, snapshot)
  {
  }

  /** Two snapshots in a row act as their union, the later one winning. */
  lemma MergeTwice(cells: map<string, Cell>, s1: map<string, bool>, s2: map<string, bool>)
    ensures MergeAlive(MergeAlive(cells, s1), s2) == MergeAlive(cells, s1 + s2)
  {
  }

  /** Merging into the empty dictionary (no sendCellCount yet) and merging an
      empty snapshot change nothing. */
  lemma MergeNoOp(cells: map<string, Cell>, snapshot: map<string, bool>)
    ensures MergeAlive(map[], snapshot) == map[]
    ensures MergeAlive(cells, map[]) == cells
  {
  }

  /** A fresh 4-by-4 grid, then a snapshot killing "0,0" and "2,2": exactly
      those two cells are dead, the other fourteen stay alive, and there are
      still sixteen cells. */
  lemma MergeScenario(cells: map<string, Cell>)
    requires IsCubeMap(cells, 4, 4) && |cells| == 16
    ensures var r := MergeAlive(cells, map["0,0" := false, "2,2" := false]);
      && |r| == 16 && "0,0" in r && "2,2" in r
      && forall k :: k in r ==> (!r[k].alive <==> k == "0,0" || k == "2,2")
  {
    assert CellKey(0, 0) == "0,0";
    assert CellKey(2, 2) == "2,2";
    var r := MergeAlive(cells, map["0,0" := false, "2,2" := false]);
    assert |r| == |r.Keys| == |cells.Keys|;
  }

  // ---- per-frame update ----

  /** The "pyramid" elevation of the cell at (x, y) in a w-by-h grid:
      (h/2 - (|x - w/2| + |y - h/2|)) / 2.5. */
  function Pyramid(x: int, y: int, w: int, h: int): real {
    (h as real / 2.0 - (Abs(x as real - w as real / 2.0) + Abs(y as real - h as real / 2.0))) / 2.5
  }

  /** The pyramid peaks at (w/2, h/2), the scene origin, at h/2/2.5, and
      only there. */
  lemma PyramidPeak(x: int, y: int, w: int, h: int)
    ensures Pyramid(x, y, w, h) <= h as real / 2.0 / 2.5
    ensures Pyramid(x, y, w, h) == h as real / 2.0 / 2.5 <==> 2 * x == w && 2 * y == h
  {
  }

  /** The pyramid is symmetric about (w/2, h/2), the scene origin; that point
      is half a cell off the middle of the cells 0..w-1, 0..h-1. */
  lemma PyramidSymmetric(x: int, y: int, w: int, h: int)
    ensures Pyramid(w - x, h - y, w, h) == Pyramid(x, y, w, h)
  {
  }

  ghost predicate AllKeysDecode(cells: map<string, Cell>) {
    forall k :: k in cells ==> DecodesToNumbers(k)
  }

  /** What one pass of `animate` does to the cell stored under `key` in a
      cellsWidth-by-cellsHeight grid: the hue moves on by HueStep, the material
      follows hue and aliveness, and the height is the pyramid at the
      coordinates decoded from the key for a live cell, 0 for a dead one. */
  function AnimateCell(key: string, cell: Cell, w: int, h: int): Cell
    requires DecodesToNumbers(key)
  {
    var hue := cell.shape.currentHue + HueStep;
    var keyPos := GetXYFromKey(key);
    var posY := if cell.alive then Pyramid(keyPos.x.value, keyPos.y.value, w, h) else 0.0;
    cell.(shape := cell.shape.(
      currentHue := hue,
      material := UpdateCellMaterialColor(hue, cell.alive),
      position := cell.shape.position.(y := posY)))
  }

  /** One frame over the whole dictionary. */
  function FrameUpdate(cells: map<string, Cell>, w: int, h: int): (r: map<string, Cell>)
    requires AllKeysDecode(cells)
    ensures r.Keys == cells.Keys
    ensures forall k :: k in r ==>
      && r[k].alive == cells[k].alive
      && r[k].shape.currentHue == cells[k].shape.currentHue + HueStep
      && r[k].shape.position.x == cells[k].shape.position.x
      && r[k].shape.position.z == cells[k].shape.position.z
      && r[k].shape.cellX == cells[k].shape.cellX
      && r[k].shape.cellY == cells[k].shape.cellY
      && r[k].shape.timer == cells[k].shape.timer
  {
    map k | k in cells :: AnimateCell(k, cells[k], w, h)
  }

  /** After one frame, the cell at key `cellKey(x, y)` stands at the pyramid
      height of (x, y) if alive and at 0 if dead, and its material follows
      its new hue and its aliveness. */
  lemma FrameHeight(cells: map<string, Cell>, w: int, h: int, x: int, y: int)
    requires AllKeysDecode(cells) && CellKey(x, y) in cells
    ensures var c := FrameUpdate(cells, w, h)[CellKey(x, y)];
      && c.shape.position.y == (if c.alive then Pyramid(x, y, w, h) else 0.0)
      && c.shape.material == UpdateCellMaterialColor(c.shape.currentHue, c.alive)
  {
    CodecRoundTrip(x, y);
  }

  /** The cell loop of `animate` over the dictionary of a w-by-h grid. */
  method AnimateAll(cells: map<string, Cell>, w: int, h: int) returns (next: map<string, Cell>)
    requires AllKeysDecode(cells)
    ensures next == FrameUpdate(cells, w, h)
  {
    next := cells;
    var remaining := cells.Keys;
    while remaining != {}
      invariant remaining <= cells.Keys && next.Keys == cells.Keys
      invariant forall k :: k in next ==>
        next[k] == if k in remaining then cells[k] else AnimateCell(k, cells[k], w, h)
      decreases remaining
    {
      var key :| key in remaining;
      var cell := next[key];
      var shape := cell.shape;
      var currentHue := shape.currentHue + HueStep;
      var material := UpdateCellMaterialColor(currentHue, cell.alive);
      var posY: real;
      if cell.alive {
        var keyPos := GetXYFromKey(key);
        var distance := Abs(keyPos.x.value as real - w as real / 2.0) + Abs(keyPos.y.value as real - h as real / 2.0);
        posY := (h as real / 2.0 - distance) / 2.5;
      } else {
        posY := 0.0;
      }
      var position := shape.position.(y := posY);
      next := next[key := cell.(shape := shape.(currentHue := currentHue, material := material, position := position))];
      remaining := remaining - {key};
    }
  }

  /** `n` frames in a row without any event in between. */
  function Frames(cells: map<string, Cell>, w: int, h: int, n: nat): (r: map<string, Cell>)
    requires AllKeysDecode(cells)
    ensures r.Keys == cells.Keys
  {
    if n == 0 then cells else FrameUpdate(Frames(cells, w, h, n - 1), w, h)
  }

  /** Over n frames every hue grows by exactly n * HueStep (so it strictly
      increases from frame to frame) while aliveness and coordinates stay put. */
  lemma {:induction false} FramesHue(cells: map<string, Cell>, w: int, h: int, n: nat)
    requires AllKeysDecode(cells)
    ensures forall k :: k in cells ==>
      && Frames(cells, w, h, n)[k].shape.currentHue == cells[k].shape.currentHue + n as real * HueStep
      && Frames(cells, w, h, n)[k].alive == cells[k].alive
      && Frames(cells, w, h, n)[k].shape.cellX == cells[k].shape.cellX
      && Frames(cells, w, h, n)[k].shape.cellY == cells[k].shape.cellY
  {
    if n > 0 {
      FramesHue(cells, w, h, n - 1);
    }
  }

  /** Every key of a well-placed dictionary decodes to numbers. */
  lemma InGridKeysDecode(cells: map<string, Cell>, w: int, h: int)
    requires forall k :: k in cells ==> InGrid(k, cells[k], w, h)
    ensures AllKeysDecode(cells)
  {
    forall k | k in cells ensures DecodesToNumbers(k) {
      CodecRoundTrip(cells[k].shape.cellX, cells[k].shape.cellY);
    }
  }

  /** A dictionary with the same keys and the same coordinates in every
      cell stays well placed. */
  lemma GridPreserved(before: map<string, Cell>, after: map<string, Cell>, w: int, h: int)
    requires forall k :: k in before ==> InGrid(k, before[k], w, h)
    requires AllKeysDecode(before)
    requires after.Keys == before.Keys
    requires forall k :: k in after ==>
      after[k].shape.cellX == before[k].shape.cellX && after[k].shape.cellY == before[k].shape.cellY
    ensures forall k :: k in after ==> InGrid(k, after[k], w, h)
    ensures AllKeysDecode(after)
  {
    forall k | k in after ensures InGrid(k, after[k], w, h) {
      assert InGrid(k, before[k], w, h);
    }
  }
}
