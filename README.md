# Cell-grid bookkeeping of the LiveView Life Game scene

This project models, in Dafny, the bookkeeping behind the Three.js scene
of the Life Game hook (`assets/js/hooks/three_scene.js`). It covers:

- the string key `"x,y"` under which each cell is stored, and its decoder;
- the grid build of the `sendCellCount` event;
- the aliveness merge of the `sendCellAliveMap` event;
- the per-cell step of the animation loop (hue, material, pyramid height);
- the frame-rate reporter that pushes `updateFps` once per second.

Modules, leaf first:

- `Wrappers` (wrappers.dfy): `Option`, the value of a frame that may or
  may not report.
- `KeyCodec` (key_codec.dfy): `cellKey` and `getXYFromKey`, plus the
  JavaScript they use. That is an integer printed in a template literal,
  `split(",")` and `parseInt`, whose NaN result is the `NaN` case of `JsInt`.
- `CellGrid` (cell_grid.dfy): the cell record and its mesh's `userData`.
  It also holds the grid build `CreateCubeMap`, the merge `MergeAliveness`
  and one animation pass `AnimateAll`. Each is a loop proved against a
  specification (`IsCubeMap`, `MergeAlive`, `FrameUpdate`), and the lemmas
  about those specifications are here too.
- `Telemetry` (telemetry.dfy): `sendNowFps`. `FpsStep` is the
  specification, `FpsCounter` holds the two closure variables, and the
  lemmas are about sequences of calls.
- `Scene` (scene.dfy): the closure state of `mounted()` as class
  `ThreeScene`, with both event handlers and one pass of `animate`. Its
  invariant `Valid` says that every cell is stored under the key of its
  own coordinates, inside the current grid.

JavaScript numbers are Dafny `real`s. All the arithmetic involved is
rational, so every formula is exact. Time is the parameter `now`, in
milliseconds. The value pushed to LiveView is the method's result.

Two behaviours of the code are modelled as written:

- `sendCellCount` only replaces the dictionary and never removes a mesh
  from the scene (three_scene.js:164-168). So `ThreeScene.SendCellCount`
  promises only that the scene's mesh count grows by the new grid's size.
- `animate` passes the growing `currentHue` straight to `setHSL`
  (three_scene.js:228-229), so the model stores the hue unwrapped.

## Model

| member | source | states |
|---|---|---|
| KeyCodec.CellKey | assets/js/hooks/three_scene.js:121 | no contract of its own; see CodecRoundTrip and CellKeyInjective |
| KeyCodec.GetXYFromKey | assets/js/hooks/three_scene.js:124-132 | no contract of its own; see CodecRoundTrip, DecodeFallback, DecodeIgnoresExtraParts and DecodeMalformedKeys |
| KeyCodec.IntToDecimal | assets/js/hooks/three_scene.js:121 | the text of an integer is non-empty, holds no ',' and starts with '-' exactly when the integer is negative |
| KeyCodec.Split | assets/js/hooks/three_scene.js:125 | `split` yields at least one part and no part contains the separator |
| KeyCodec.JoinSplit | assets/js/hooks/three_scene.js:125 | gluing the parts back with the separator gives the original text |
| KeyCodec.SplitSinglePart | assets/js/hooks/three_scene.js:125-126 | exactly one part iff the separator is absent, and then that part is the whole text |
| KeyCodec.DigitPrefix | assets/js/hooks/three_scene.js:129-130 | the digits parseInt reads are the longest all-digit prefix |
| KeyCodec.ParseInt | assets/js/hooks/three_scene.js:129-130 | parseInt is NaN iff the character after the optional sign is missing or is not a digit; see ParseIntReadsLeadingNumber |
| KeyCodec.ParseIntReadsLeadingNumber | assets/js/hooks/three_scene.js:129-130 | parseInt reads '+' or '-' or no sign, then a digit run, and ignores the text after the run, so a key like "3a,4" decodes to (3, 4) |
| KeyCodec.ParseIntOfDecimal | assets/js/hooks/three_scene.js:129-130 | parseInt reads back every printed integer exactly |
| KeyCodec.CodecRoundTrip | assets/js/hooks/three_scene.js:121-131 | a cell key splits into the two numerals, and decoding it gives back (x, y) for every integer pair |
| KeyCodec.CellKeyInjective | assets/js/hooks/three_scene.js:121 | two cell keys are equal iff their coordinates are |
| KeyCodec.DecodeFallback | assets/js/hooks/three_scene.js:124-128 | fewer than two parts iff there is no ',', and such a key decodes to (0, 0) |
| KeyCodec.DecodeIgnoresExtraParts | assets/js/hooks/three_scene.js:125-131 | from the third part on, nothing affects the result, and the first two parts are parsed |
| KeyCodec.DecodeMalformedKeys | assets/js/hooks/three_scene.js:124-131 | "bad-key" decodes to (0, 0), and "," decodes to (NaN, NaN) |
| CellGrid.UpdateCellMaterialColor | assets/js/hooks/three_scene.js:86-91 | no contract of its own; see MaterialByAliveness |
| CellGrid.NewCell | assets/js/hooks/three_scene.js:142-152 | no contract of its own; see CreateCubeMap, which states the fields of every new cell |
| CellGrid.Pyramid | assets/js/hooks/three_scene.js:233-234 | no contract of its own; see PyramidPeak, PyramidSymmetric and FrameHeight |
| CellGrid.AnimateCell | assets/js/hooks/three_scene.js:225-238 | no contract of its own; see FrameUpdate, FrameHeight and AnimateAll |
| CellGrid.MaterialByAliveness | assets/js/hooks/three_scene.js:86-91 | the hue passes through; saturation is 0.95; lightness 0.7/0.5 and opacity 0.9/0.5 for alive/dead; each tells the two states apart |
| CellGrid.CreateCubeMap | assets/js/hooks/three_scene.js:135-159 | the result is exactly the w-by-h grid of new cells: alive, hue 0, timer 0, at (x - w/2, 0, y - h/2) under cellKey(x, y); it has w*h entries (0 for a negative size) |
| CellGrid.AddRow | assets/js/hooks/three_scene.js:141-156 | the inner loop adds row y's w new cells, each under a key not yet present |
| CellGrid.CubeMapUnique | assets/js/hooks/three_scene.js:139-158 | two freshly built grids of the same size are equal, so nothing of an earlier grid is left |
| CellGrid.MergeAlive | assets/js/hooks/three_scene.js:174-183 | the merge leaves the key set unchanged |
| CellGrid.MergeAliveness | assets/js/hooks/three_scene.js:174-183 | the handler's loop computes exactly that merge |
| CellGrid.MergeCell | assets/js/hooks/three_scene.js:178-181 | a key in the snapshot gets the snapshot's flag; any other cell is untouched; no mesh changes |
| CellGrid.MergeIdempotent | assets/js/hooks/three_scene.js:174-183 | applying a snapshot twice is the same as once |
| CellGrid.MergeTwice | assets/js/hooks/three_scene.js:174-183 | two snapshots in a row act as their union, the later one winning |
| CellGrid.MergeNoOp | assets/js/hooks/three_scene.js:174-183 | merging into an empty dictionary, or merging an empty snapshot, changes nothing |
| CellGrid.MergeScenario | assets/js/hooks/three_scene.js:171-184 | on a fresh 4x4 grid, killing "0,0" and "2,2" leaves exactly those two dead, 14 alive, 16 cells |
| CellGrid.PyramidPeak | assets/js/hooks/three_scene.js:233-234 | the height is at most cellsHeight/2/2.5, with equality iff the cell is at (w/2, h/2), the scene origin |
| CellGrid.PyramidSymmetric | assets/js/hooks/three_scene.js:233-234 | the height is symmetric about (w/2, h/2), the scene origin; that point is half a cell off the middle of the cells, so it does not map the grid onto itself |
| CellGrid.FrameUpdate | assets/js/hooks/three_scene.js:223-240 | a frame adds exactly HueStep to every hue; it keeps the keys, the aliveness, the coordinates, the timer and the horizontal position |
| CellGrid.AnimateAll | assets/js/hooks/three_scene.js:223-240 | the cell loop computes exactly that frame |
| CellGrid.FrameHeight | assets/js/hooks/three_scene.js:229-238 | after a frame, the cell under cellKey(x, y) is at the pyramid height of (x, y) if alive and at 0 if dead; its material follows its new hue and aliveness |
| CellGrid.FramesHue | assets/js/hooks/three_scene.js:228 | after n frames every hue has grown by n*0.002, so it rises strictly; aliveness and coordinates are unchanged |
| CellGrid.GridPreserved | assets/js/hooks/three_scene.js:174-183 | a pass that keeps keys and coordinates keeps every cell under its own key inside the grid |
| Telemetry.MathRound | assets/js/hooks/three_scene.js:197 | Math.round gives the integer r with x - 0.5 < r <= x + 0.5 |
| Telemetry.RoundTo2 | assets/js/hooks/three_scene.js:197 | the rounded rate is within 0.005 of the true rate and is a whole number of hundredths |
| Telemetry.FpsStep | assets/js/hooks/three_scene.js:191-204 | a call reports iff now >= prevTime + 1000; a report is a whole number of hundredths within 0.005 of frames*1000/elapsed, counting this frame, and resets the state to (0, now); otherwise frames goes up by one and prevTime stays |
| Telemetry.FpsExample | assets/js/hooks/three_scene.js:195-202 | 120 frames over 2000 ms report 60 and reset the window |
| Telemetry.EmissionsAfterWindow | assets/js/hooks/three_scene.js:194-203 | over any run of calls, every report comes at least 1000 ms after the start of the window open at the first call |
| Telemetry.EmissionsSpaced | assets/js/hooks/three_scene.js:194-203 | over any run of calls, any two reports are at least 1000 ms apart, whatever the clock does in between |
| Telemetry.FpsCounter.constructor | assets/js/hooks/three_scene.js:188-189 | the counter starts with no frames and its window opened at `now` |
| Telemetry.FpsCounter.SendNowFps | assets/js/hooks/three_scene.js:191-204 | the method's new state and result are those of FpsStep |
| Scene.ThreeScene.constructor | assets/js/hooks/three_scene.js:9-11 | the state starts as a 0x0 grid, an empty dictionary and an empty scene |
| Scene.ThreeScene.SendCellCount | assets/js/hooks/three_scene.js:164-168 | stores w and h and replaces the dictionary by exactly the fresh w-by-h grid (w*h cells); the scene gains that many meshes and loses none |
| Scene.ThreeScene.SendCellAliveMap | assets/js/hooks/three_scene.js:171-184 | the dictionary becomes the merge of the snapshot into it; the sizes and the scene are unchanged |
| Scene.ThreeScene.AnimateCells | assets/js/hooks/three_scene.js:223-240 | the dictionary becomes one frame of it at the current grid size, and the invariant is kept |
| Scene.ThreeScene.Animate | assets/js/hooks/three_scene.js:220-245 | one pass of `animate` is that frame, followed by one `sendNowFps` step at `now` |

## Left out

- Scene, camera, renderer, lights, resize handler and grid/axes helpers (three_scene.js:16-81): one-shot calls into Three.js with no logic of their own.
- Mesh, geometry, edge and material construction (three_scene.js:95-102, 106, 113-114, 136-138): a cell's mesh is the `Shape` record. Only the fields the code reads or changes later are kept: material colour and opacity, position, and `userData`. Roughness, metalness, transparency and the wireframe are not modelled.
- Cells as shared objects: a cell and its mesh are values in the dictionary, not objects updated in place. Aliasing between the dictionary and the scene's child list is not modelled. The scene is only a count of added cell meshes.
- Camera orbit `animateCamera` (three_scene.js:207-216): floating-point trigonometry and `lookAt`.
- Frame scheduling with `requestAnimationFrame` / `cancelAnimationFrame` (three_scene.js:221, 249, 252-255) and `renderer.render` (line 247): one call of `Animate` is one frame. `destroyed()` is not modelled.
- LiveView wiring (`handleEvent`, `pushEvent`) and the clocks (`performance.now`, `THREE.Clock`): the handlers are methods, the time is a parameter and the pushed payload is a result.
- The inside of `THREE.Color.setHSL`, including how it wraps the hue: the material records the hue it was given.
- IEEE-754 doubles: every number is an exact real. In JavaScript, 0.002 added n times is not exactly n*0.002, and the pyramid and rate formulas round.
- KeyCodec.ParseInt: only decimal text with an optional sign is modelled. Leading whitespace and the "0x" hexadecimal prefix that parseInt also accepts are not.
- KeyCodec.IntToDecimal: only the plain numeral of an integer is modelled. JavaScript prints a number of magnitude 1e21 or more in exponent form.
- Grid sizes are integers: a fractional `size.w` would give ceil(w) columns and fractional positions, which the model does not cover.
- The undeclared global `aliveMap` (three_scene.js:172): a scoping quirk, modelled as the handler's parameter.
- Snapshot values are booleans: JavaScript would store whatever value the payload holds.
