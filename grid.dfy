/**
 * The tile grid of `src/components/City.js`: a `size` by `size` array of
 * columns of tiles, built once by `initialize`, and `update`, which drives the
 * growth automaton of every building standing on a tile.
 */
module Grid {
  import opened Buildings

  /** Number of columns, and of tiles per column, that the loops of a City produce. */
  function Side(size: int): nat {
    if size <= 0 then 0 else size
  }

  /** Column-major order: `a` is visited before `b` by the nested loops. */
  predicate Precedes(a: (int, int), b: (int, int)) {
    a.0 < b.0 || (a.0 == b.0 && a.1 < b.1)
  }

  /** A tile record. */
  datatype Tile = Tile(x: int, y: int, terrainId: string, building: Building?)

  /** `createTile(x, y)`: a grass tile at `(x, y)` without a building. */
  function CreateTile(x: int, y: int): (t: Tile)
    ensures t.x == x && t.y == y && t.terrainId == "grass" && t.building == null
  {
    Tile(x, y, "grass", null)
  }

  /** `(x, y)` indexes a tile of the grid `g`. */
  predicate InBounds(g: seq<seq<Tile>>, x: int, y: int) {
    0 <= x < |g| && 0 <= y < |g[x]|
  }

  /** The tile at `(x, y)` exists and holds a building. */
  predicate Occupied(g: seq<seq<Tile>>, x: int, y: int) {
    InBounds(g, x, y) && g[x][y].building != null
  }

  /** The buildings standing on the tiles of one column. */
  ghost function BuildingsOf(col: seq<Tile>): set<Building> {
    set y | 0 <= y < |col| && col[y].building != null :: col[y].building
  }

  /** The buildings standing anywhere on the grid `g`. */
  ghost function AllBuildings(g: seq<seq<Tile>>): set<Building> {
    set x, y | 0 <= x < |g| && 0 <= y < |g[x]| && g[x][y].building != null :: g[x][y].building
  }

  /** No building object stands on two tiles of the column `col`. */
  ghost predicate DistinctIn(col: seq<Tile>) {
    forall j1, j2 ::
      0 <= j1 < |col| && 0 <= j2 < |col| && col[j1].building != null &&
      col[j1].building == col[j2].building
      ==> j1 == j2
  }

  /** No building object stands on two tiles of the grid `g`. */
  ghost predicate Distinct(g: seq<seq<Tile>>) {
    forall x1, y1, x2, y2 ::
      Occupied(g, x1, y1) && InBounds(g, x2, y2) &&
      g[x1][y1].building == g[x2][y2].building
      ==> x1 == x2 && y1 == y2
  }

  /** Distinctness on the grid gives it in each column, and keeps columns apart. */
  lemma DistinctColumn(g: seq<seq<Tile>>, x: int)
    requires Distinct(g) && 0 <= x < |g|
    ensures DistinctIn(g[x])
    ensures BuildingsOf(g[x]) <= AllBuildings(g)
    ensures forall i, j :: Occupied(g, i, j) && i != x ==> g[i][j].building !in BuildingsOf(g[x])
  {
    forall j1, j2 | 0 <= j1 < |g[x]| && 0 <= j2 < |g[x]| && g[x][j1].building != null &&
      g[x][j1].building == g[x][j2].building
      ensures j1 == j2
    {
      assert Occupied(g, x, j1) && InBounds(g, x, j2);
    }
  }

  /** The occupied tiles `(x, j)` with `j < y` of the column `col` at `x`, top to bottom. */
  function RowsBefore(col: seq<Tile>, x: int, y: nat): seq<(int, int)>
    requires y <= |col|
  {
    if y == 0 then [] else RowsBefore(col, x, y - 1) + (if col[y - 1].building != null then [(x, y - 1)] else [])
  }

  /** The occupied tiles of the first `x` columns of `g`, in column-major order. */
  function CellsBefore(g: seq<seq<Tile>>, x: nat): seq<(int, int)>
    requires x <= |g|
  {
    if x == 0 then [] else CellsBefore(g, x - 1) + RowsBefore(g[x - 1], x - 1, |g[x - 1]|)
  }

  lemma CellsBeforeNext(g: seq<seq<Tile>>, x: nat)
    requires x < |g|
    ensures CellsBefore(g, x + 1) == CellsBefore(g, x) + RowsBefore(g[x], x, |g[x]|)
  {
  }


  /** Every row listed for a column is an occupied row below `y` of that column. */
  lemma {:induction false} RowsBeforeSound(col: seq<Tile>, x: int, y: nat)
    requires y <= |col|
    ensures forall k :: 0 <= k < |RowsBefore(col, x, y)| ==>
      RowsBefore(col, x, y)[k].0 == x && 0 <= RowsBefore(col, x, y)[k].1 < y &&
      col[RowsBefore(col, x, y)[k].1].building != null
  {
    if y > 0 {
      RowsBeforeSound(col, x, y - 1);
      var prev, rows := RowsBefore(col, x, y - 1), RowsBefore(col, x, y);
      forall k | 0 <= k < |rows|
        ensures rows[k].0 == x && 0 <= rows[k].1 < y && col[rows[k].1].building != null
      {
        if k < |prev| {
          assert rows[k] == prev[k];
        } else {
          assert rows[k] == (x, y - 1);
        }
      }
    }
  }

  /** Every occupied row below `y` of a column is listed. */
  lemma {:induction false} RowsBeforeComplete(col: seq<Tile>, x: int, y: nat)
    requires y <= |col|
    ensures forall j :: 0 <= j < y && col[j].building != null ==> (x, j) in RowsBefore(col, x, y)
  {
    if y > 0 {
      RowsBeforeComplete(col, x, y - 1);
      var prev, rows := RowsBefore(col, x, y - 1), RowsBefore(col, x, y);
      forall j | 0 <= j < y && col[j].building != null
        ensures (x, j) in rows
      {
        if j < y - 1 {
          assert (x, j) in prev;
        } else {
          assert rows[|rows| - 1] == (x, j);
        }
      }
    }
  }

  /** The rows listed for a column strictly increase. */
  lemma {:induction false} RowsBeforeSorted(col: seq<Tile>, x: int, y: nat)
    requires y <= |col|
    ensures forall k1, k2 :: 0 <= k1 < k2 < |RowsBefore(col, x, y)| ==>
      RowsBefore(col, x, y)[k1].1 < RowsBefore(col, x, y)[k2].1
  {
    if y > 0 {
      RowsBeforeSorted(col, x, y - 1);
      RowsBeforeSound(col, x, y - 1);
      var prev, rows := RowsBefore(col, x, y - 1), RowsBefore(col, x, y);
      forall k1, k2 | 0 <= k1 < k2 < |rows|
        ensures rows[k1].1 < rows[k2].1
      {
        assert rows[k1] == prev[k1];
        if k2 < |prev| {
          assert rows[k2] == prev[k2];
        } else {
          assert rows[k2] == (x, y - 1);
        }
      }
    }
  }

  /** Every cell listed for the first `x` columns is an occupied tile of one of them. */
  lemma {:induction false} CellsBeforeSound(g: seq<seq<Tile>>, x: nat)
    requires x <= |g|
    ensures forall k :: 0 <= k < |CellsBefore(g, x)| ==>
      CellsBefore(g, x)[k].0 < x && Occupied(g, CellsBefore(g, x)[k].0, CellsBefore(g, x)[k].1)
  {
    if x > 0 {
      var col := g[x - 1];
      CellsBeforeSound(g, x - 1);
      RowsBeforeSound(col, x - 1, |col|);
      var prev, rows, cells := CellsBefore(g, x - 1), RowsBefore(col, x - 1, |col|), CellsBefore(g, x);
      forall k | 0 <= k < |cells|
        ensures cells[k].0 < x && Occupied(g, cells[k].0, cells[k].1)
      {
        if k < |prev| {
          assert cells[k] == prev[k];
        } else {
          assert cells[k] == rows[k - |prev|];
        }
      }
    }
  }

  /** Every occupied tile of the first `x` columns is listed. */
  lemma {:induction false} CellsBeforeComplete(g: seq<seq<Tile>>, x: nat)
    requires x <= |g|
    ensures forall i, j :: i < x && Occupied(g, i, j) ==> (i, j) in CellsBefore(g, x)
  {
    if x > 0 {
      var col := g[x - 1];
      CellsBeforeComplete(g, x - 1);
      RowsBeforeComplete(col, x - 1, |col|);
      var prev, rows, cells := CellsBefore(g, x - 1), RowsBefore(col, x - 1, |col|), CellsBefore(g, x);
      assert cells == prev + rows;
      forall i, j | i < x && Occupied(g, i, j)
        ensures (i, j) in cells
      {
        if i < x - 1 {
          assert (i, j) in prev;
        } else {
          assert 0 <= j < |col| && col[j].building != null;
          assert (i, j) in rows;
        }
      }
    }
  }

  /** The cells listed for the first `x` columns strictly increase in column-major order. */
  lemma {:induction false} CellsBeforeSorted(g: seq<seq<Tile>>, x: nat)
    requires x <= |g|
    ensures forall k1, k2 :: 0 <= k1 < k2 < |CellsBefore(g, x)| ==>
      Precedes(CellsBefore(g, x)[k1], CellsBefore(g, x)[k2])
  {
    if x > 0 {
      var col := g[x - 1];
      CellsBeforeSorted(g, x - 1);
      CellsBeforeSound(g, x - 1);
      RowsBeforeSound(col, x - 1, |col|);
      RowsBeforeSorted(col, x - 1, |col|);
      var prev, rows, cells := CellsBefore(g, x - 1), RowsBefore(col, x - 1, |col|), CellsBefore(g, x);
      forall k1, k2 | 0 <= k1 < k2 < |cells|
        ensures Precedes(cells[k1], cells[k2])
      {
        if k2 < |prev| {
          assert cells[k1] == prev[k1] && cells[k2] == prev[k2];
        } else if k1 < |prev| {
          assert cells[k1] == prev[k1] && cells[k2] == rows[k2 - |prev|];
        } else {
          assert cells[k1] == rows[k1 - |prev|] && cells[k2] == rows[k2 - |prev|];
        }
      }
    }
  }

  /**
   * The tiles whose building the nested loops of `update()` call, in call
   * order: exactly the occupied tiles, strictly increasing column by column.
   */
  function VisitOrder(g: seq<seq<Tile>>): (order: seq<(int, int)>)
    ensures forall k :: 0 <= k < |order| ==> Occupied(g, order[k].0, order[k].1)
    ensures forall i, j :: Occupied(g, i, j) ==> (i, j) in order
    ensures forall k1, k2 :: 0 <= k1 < k2 < |order| ==> Precedes(order[k1], order[k2])
  {
    CellsBeforeSound(g, |g|);
    CellsBeforeComplete(g, |g|);
    CellsBeforeSorted(g, |g|);
    CellsBefore(g, |g|)
  }

  /**
   * `update()` reaches every occupied tile exactly once and nothing else:
   * the visit order lists exactly the occupied tiles, strictly increasing in
   * column-major order, hence without repetition.
   */
  lemma VisitOrderExact(g: seq<seq<Tile>>)
    ensures forall p :: p in VisitOrder(g) <==> Occupied(g, p.0, p.1)
    ensures forall k1, k2 :: 0 <= k1 < k2 < |VisitOrder(g)| ==> Precedes(VisitOrder(g)[k1], VisitOrder(g)[k2])
    ensures forall k1, k2 :: 0 <= k1 < k2 < |VisitOrder(g)| ==> VisitOrder(g)[k1] != VisitOrder(g)[k2]
  {
    var order := VisitOrder(g);
    forall p | p in order
      ensures Occupied(g, p.0, p.1)
    {
      var k :| 0 <= k < |order| && order[k] == p;
    }
  }

  /**
   * The inner loop of `update()` on column `x`: runs the `update` of every
   * building in `col`, top to bottom, with the draw `draw(x, y)` for row `y`.
   * The ghost result lists the occupied rows in the order they are met.
   */
  method UpdateColumn(col: seq<Tile>, x: int, size: int, draw: (int, int) -> real)
    returns (ghost rows: seq<(int, int)>)
    requires |col| == Side(size) && DistinctIn(col)
    modifies BuildingsOf(col)
    ensures forall j :: 0 <= j < |col| && col[j].building != null ==>
      col[j].building.View() == Step(old(col[j].building.View()), draw(x, j))
    ensures rows == RowsBefore(col, x, |col|)
  {
    rows := [];
    var y := 0;
    while y < size
      invariant 0 <= y <= |col|
      invariant forall j :: 0 <= j < |col| && col[j].building != null ==>
        col[j].building.View() ==
          if j < y then Step(old(col[j].building.View()), draw(x, j)) else old(col[j].building.View())
      invariant rows == RowsBefore(col, x, y)
    {
      var b := col[y].building;
      if b != null {
        b.Update(draw(x, y));
        rows := rows + [(x, y)];
      }
      y := y + 1;
    }
  }

  class City {
    const size: int
    /** `data[x][y]` is the tile at column `x`, row `y`. */
    var data: seq<seq<Tile>>

    /** The square shape, with every tile carrying its own coordinates. */
    ghost predicate Valid()
      reads this
    {
      |data| == Side(size) &&
      forall x :: 0 <= x < |data| ==>
        |data[x]| == Side(size) &&
        forall y :: 0 <= y < |data[x]| ==> data[x][y].x == x && data[x][y].y == y
    }

    /** `new City(size)`; a `size` of zero or less gives an empty grid. */
    constructor(size: int)
      ensures this.size == size && Valid()
      ensures forall x, y :: InBounds(data, x, y) ==> data[x][y] == CreateTile(x, y)
    {
      this.size := size;
      data := [];
      new;
      Initialize();
    }

    /**
     * `initialize()`: appends `size` columns of `size` new tiles, tile
     * `(x, y)` at position `y` of the `x`-th new column.
     */
    method Initialize()
      modifies this`data
      ensures |data| == |old(data)| + Side(size) && data[..|old(data)|] == old(data)
      ensures forall x :: |old(data)| <= x < |data| ==> |data[x]| == Side(size)
      ensures forall x, y :: |old(data)| <= x < |data| && 0 <= y < |data[x]| ==>
        data[x][y] == CreateTile(x - |old(data)|, y)
    {
      ghost var n := |data|;
      var x := 0;
      while x < size
        invariant 0 <= x <= Side(size)
        invariant |data| == n + x && data[..n] == old(data)
        invariant forall i :: n <= i < |data| ==> |data[i]| == Side(size)
        invariant forall i, j :: n <= i < |data| && 0 <= j < |data[i]| ==> data[i][j] == CreateTile(i - n, j)
      {
        var column: seq<Tile> := [];
        var y := 0;
        while y < size
          invariant 0 <= y <= size
          invariant |column| == y
          invariant forall j :: 0 <= j < y ==> column[j] == CreateTile(x, j)
        {
          var tile := CreateTile(x, y);
          column := column + [tile];
          y := y + 1;
        }
        data := data + [column];
        assert data[n + x] == column;
        x := x + 1;
      }
    }

    /**
     * `update()`: visits the tiles in column-major order and runs the `update`
     * of every building found, with the draw `draw(x, y)` for the building at
     * `(x, y)`. The ghost result lists the visited occupied tiles in order.
     */
    method Update(draw: (int, int) -> real) returns (ghost visited: seq<(int, int)>)
      requires Valid() && Distinct(data)
      modifies AllBuildings(data)
      ensures data == old(data)
      ensures forall x, y :: Occupied(data, x, y) ==>
        data[x][y].building.View() == Step(old(data[x][y].building.View()), draw(x, y))
      ensures forall x, y :: Occupied(data, x, y) ==>
        var before, after := old(data[x][y].building.View()), data[x][y].building.View();
        after.id == before.id &&
        (WellFormed(before) ==> WellFormed(after)) &&
        (before.height.Some? ==>
          after.height.Some? && before.height.value <= after.height.value <= before.height.value + 1)
      ensures visited == VisitOrder(data)
    {
      var cols: seq<seq<Tile>> := data;
      visited := [];
      var x := 0;
      while x < size
        invariant 0 <= x <= |cols| == Side(size)
        invariant forall i, j :: Occupied(cols, i, j) ==>
          cols[i][j].building.View() ==
            if i < x then Step(old(cols[i][j].building.View()), draw(i, j)) else old(cols[i][j].building.View())
        invariant visited == CellsBefore(cols, x)
      {
        DistinctColumn(cols, x);
        var rows := UpdateColumn(cols[x], x, size, draw);
        CellsBeforeNext(cols, x);
        visited := visited + rows;
        x := x + 1;
      }
    }
  }
}
