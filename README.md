# SimCity grid and building automaton in Dafny

This project models the simulation core of a small browser city builder:

- **Building automaton** (`src/buildings.js`, module `Buildings`). A table of
  constructors for the four building kinds `residential`, `commercial`,
  `industrial` and `road`.
  - Each constructor returns a record with an `id`, an `updated` flag and, for
    the three growable kinds, a `height` of 1.
  - Each record has an `update` closure. A growable record gains one storey
    when a random draw is below 0.01 and it is under its cap. The caps are 5,
    5 and 2. A road's `update` only clears `updated`.
  - `buildingFactory` looks a kind name up in the table.
- **Tile grid** (`src/components/City.js`, module `Grid`).
  - `City` builds `size` columns of `size` tiles. Every tile is a new grass
    tile that knows its own coordinates and has no building.
  - `City.update` walks the columns in order and calls `update` on each
    building it finds.

The records are mutable objects, so a building is the class
`Buildings.Building` with the fields `id`, `height` and `updated`.
`Building.View()` reads those fields as a `State` value. `Step(state, r)` is
the pure specification of one `update` call with draw `r`. `Run` folds `Step`
over a sequence of draws and stands for repeated updates. The lemmas about
`Step` and `Run` state what the automaton promises. `Building.Update` is
proved to implement `Step`. `City.Update` is proved to apply `Step` exactly
once to every building on the grid. `VisitOrder` lists the tiles whose
building `update()` calls, in call order, and the lemmas about it show that
this is every occupied tile, once each, column by column.

`Math.random()` is not modelled. Each call's value is a parameter: `r` for one
building, and `draw(x, y)` for the building at tile `(x, y)` in a city update.

The growth chance is 0.01. Residential and commercial buildings stop at
height 5, industrial buildings at height 2. A `size` of zero or less gives an
empty grid without an error.

## Model

| member | source | states |
|---|---|---|
| `Buildings.Table` | src/buildings.js:1-56 | The table's keys are exactly the four kind names, and each kind's own name maps to that kind. |
| `Buildings.Cap` | src/buildings.js:7-44 | The cap of every growable kind is between 1, the height a record starts at, and 5. |
| `Buildings.Initial` | src/buildings.js:2-55 | The record built for kind `k` has `id == k` and `updated == true`. It is well formed: a growable kind has height 1 (within `1..cap`) and a road has no height. |
| `Buildings.Building.constructor` | src/buildings.js:2-55 | `buildings[k]()` yields a new record whose fields are exactly `Initial(k)`. |
| `Buildings.Step` | src/buildings.js:7-53 | One update never changes `id`. It keeps a well-formed record well formed. It never adds or removes the height. Height never decreases and rises by at most 1. A growable record's `updated`, once true, stays true. A road always ends with `updated == false`. |
| `Buildings.Building.Update` | src/buildings.js:7-53 | The record's new fields are `Step(old fields, r)`. Only `height` and `updated` may change. |
| `Buildings.GrowableStep` | src/buildings.js:7-14 | Spells out `Step`'s growable case: for a well-formed growable record, the height rises by exactly 1 and `updated` becomes true when `r < 0.01` and the height is below the cap. Otherwise the record is unchanged. |
| `Buildings.RoadStepIdempotent` | src/buildings.js:51-53 | Spells out `Step`'s road case: a road's update only clears `updated`, and a second update changes nothing more. |
| `Buildings.RunPreservesWellFormed` | src/buildings.js:7-44 | After any number of updates, a well-formed record is still well formed (`1 <= height <= cap` for its kind) and has the same `id`. |
| `Buildings.ConstructedStaysBounded` | src/buildings.js:2-44 | A building built by the table keeps its kind and stays within `1 <= height <= cap` after any sequence of updates. The cap is 5 for residential and commercial and 2 for industrial. |
| `Buildings.RunMonotone` | src/buildings.js:7-44 | Over `n` updates the height never decreases and grows by at most `n`. |
| `Buildings.GrowableStaysUpdated` | src/buildings.js:7-14 | No sequence of updates clears a growable record's `updated` flag once it is true. |
| `Buildings.RunReachesCap` | src/buildings.js:7-44 | A growable record given at least `cap - height` draws, all below 0.01, ends exactly at its cap. |
| `Buildings.RoadRunSettles` | src/buildings.js:47-54 | After one or more updates a road equals its initial record with `updated == false`. |
| `Buildings.BuildingFactory` | src/buildings.js:58-65 | Returns a kind exactly when the name is one of the four keys, and that kind's name is the argument. For any other string it returns nothing (the intended `undefined`). |
| `Buildings.FactoryFindsEveryKind` | src/buildings.js:58-65 | Every kind is found under its own name and under no other name. |
| `Buildings.BuildingFactoryAsWritten` | src/buildings.js:58-65 | The lookup as written finds a constructor exactly when the corrected one does. It returns `undefined` only for names that are neither kinds nor keys inherited from `Object.prototype`. |
| `Buildings.InheritedKeyEscapesFactory` | src/buildings.js:59-60 | `"toString"` is not a kind, yet the written lookup returns the inherited member rather than `undefined`. |
| `Grid.CreateTile` | src/components/City.js:32-39 | `createTile(x, y)` yields a tile with those coordinates, terrain `"grass"` and no building. |
| `Grid.City.constructor` | src/components/City.js:3-8 | `size` is the argument. The grid has `max(size, 0)` columns of `max(size, 0)` tiles. The tile at `data[x][y]` is `createTile(x, y)`: it has coordinates `(x, y)`, is grass, and has no building. |
| `Grid.City.Initialize` | src/components/City.js:10-19 | Appends `max(size, 0)` new columns of `max(size, 0)` grass tiles without buildings. The `y`-th tile of the `x`-th new column has coordinates `(x, y)`. Columns already present are kept. |
| `Grid.UpdateColumn` | src/components/City.js:23-25 | The inner loop: steps every building of the column once, with its own draw, and changes no other object. The ghost result is the column's occupied rows in the order met. |
| `Grid.City.Update` | src/components/City.js:21-27 | The grid and every tile's building reference are unchanged. Each building's new state is `Step` of its old state, applied once. So no building changes kind, well-formed buildings stay well formed, and no height rises by more than 1. The ghost result, the tiles whose building was updated in call order, is `VisitOrder(data)`. |
| `Grid.VisitOrder` | src/components/City.js:21-27 | The order in which `update()` calls buildings: every listed position is an occupied tile, every occupied tile is listed, and the list strictly increases column by column, then row by row. |
| `Grid.RowsBeforeSound` | src/components/City.js:23-24 | Every row the inner loop meets a building on, up to row `y`, is in that column, below `y`, and occupied. |
| `Grid.RowsBeforeComplete` | src/components/City.js:23-24 | Every occupied row below `y` of the column is met. |
| `Grid.RowsBeforeSorted` | src/components/City.js:23-24 | The inner loop meets the rows in strictly increasing order. |
| `Grid.CellsBeforeSound` | src/components/City.js:22-26 | Every tile updated during the first `x` columns lies in one of them and holds a building. |
| `Grid.CellsBeforeComplete` | src/components/City.js:22-26 | Every occupied tile of the first `x` columns is updated during them. |
| `Grid.CellsBeforeSorted` | src/components/City.js:22-26 | The tiles are updated in strictly increasing column-major order. |
| `Grid.VisitOrderExact` | src/components/City.js:21-27 | A position is in the order of `update()` exactly when it is an occupied tile. The order strictly increases column by column, then row by row, so no tile is updated twice. |
## Left out

- `Math.random()`: each draw is a parameter, and the probability distribution is not modelled. `City.Update` gives each tile its own draw `draw(x, y)`. The source takes draws from one stream in visit order, and a road's update takes no draw at all.
- The `update` closure stored on each record: modelled as one `Building.Update` method that dispatches on `id`.
- `buildingFactory` returns the constructor function. The model returns the `Kind` that selects it.
- `console.warn` in `buildingFactory`: a logging side effect only.
- `Grid.City.Update`: requires that no building object stands on two tiles. The source would update a shared building once per tile it stands on, and the model does not cover that case.
- `Grid.UpdateColumn`: requires, for the same reason, that no building object stands on two tiles of the column.
- Tiles are values (the datatype `Tile`), not objects, and the city's `size` is a constant. In JavaScript a tile is a mutable object that other code could reach and reassign, but no code in this core writes to a tile or to `size` after construction. A building is still an object shared by reference.
- `City` takes an integer `size`. The source loops also accept non-integer or `NaN` sizes, which are not modelled.
- Camera control (`src/components/Camera.js`), scene creation and rendering (`src/components/Scene.js`, `src/scene.js`), the mesh factory (`src/assets.js`), the ticking and counting React component (`src/components/Game.js`) and the layout (`src/App.js`): rendering, input and UI glue, outside this core.
- No code in this core places or removes buildings, so the model has no operation for it.

## Findings

| source | as written | input that shows it | evidently intended | confidence | as-written member | corrected member |
|---|---|---|---|---|---|---|
| src/buildings.js:59 | `type in buildings` is also true for keys inherited from `Object.prototype`. For those keys the factory returns an inherited member, with no warning. | `buildingFactory("toString")` returns `Object.prototype.toString`, not `undefined` | Only the four own keys of the table are found. Every other string warns and gives `undefined`. | high; not executed | `Buildings.BuildingFactoryAsWritten`, `Buildings.InheritedKeyEscapesFactory` | `Buildings.BuildingFactory` |
