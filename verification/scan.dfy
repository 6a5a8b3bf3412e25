/** The cell scan: every cell is clipped out of the mesh in X-outer, Y-inner order and
    the non-empty sections are numbered 1, 2, ... in the order they are found. Whether the
    mesh meets a clipping box is the geometry kernel's business and enters as `isEmpty`. */
module Scan {
  import opened Geometry
  import opened Grids
  import opened Naming
  import opened Outcome

  /** `a` is visited before `b` when X is the outer loop and Y the inner one. */
  predicate Before(a: Cell, b: Cell) {
    a.i < b.i || (a.i == b.i && a.j < b.j)
  }

  predicate ScanOrdered(cells: seq<Cell>) {
    forall s, t :: 0 <= s < t < |cells| ==> Before(cells[s], cells[t])
  }

  /** One saved section: its part number, its cell, and the box that clipped it out of the
      mesh (the section solid itself belongs to the geometry kernel). */
  datatype Part = Part(number: nat, cell: Cell, clip: Box)

  /** The parts' cells are in scan order. */
  predicate PartsOrdered(parts: seq<Part>) {
    ScanOrdered(CellsOf(parts))
  }

  /** Some part was cut from cell `c`. */
  ghost predicate Emitted(parts: seq<Part>, c: Cell) {
    exists t :: 0 <= t < |parts| && parts[t].cell == c
  }

  /** Cells `(i, 0), ..., (i, j - 1)`: the first `j` visits of the inner loop at `i`. */
  function Row(i: int, j: int): (cells: seq<Cell>)
    ensures |cells| == if j <= 0 then 0 else j
    ensures forall t :: 0 <= t < |cells| ==> cells[t] == Cell(i, t)
    decreases j
  {
    if j <= 0 then [] else Row(i, j - 1) + [Cell(i, j - 1)]
  }

  /** The cells of an `nx` by `ny` grid in the order `for i in range(nx): for j in range(ny)`
      visits them: in increasing `Before` order, all inside the grid, `nx * ny` of them, and
      none when either count is not positive. */
  function CellOrder(nx: int, ny: int): (cells: seq<Cell>)
    ensures |cells| == if nx <= 0 || ny <= 0 then 0 else nx * ny
    ensures forall t :: 0 <= t < |cells| ==> InGrid(cells[t], nx, ny)
    ensures ScanOrdered(cells)
    decreases nx
  {
    if nx <= 0 then [] else CellOrder(nx - 1, ny) + Row(nx - 1, ny)
  }

  /** Every cell of the grid is visited. */
  lemma {:induction false} CellOrderComplete(nx: int, ny: int, c: Cell)
    requires InGrid(c, nx, ny)
    ensures c in CellOrder(nx, ny)
    decreases nx
  {
    var prefix := CellOrder(nx - 1, ny);
    var row := Row(nx - 1, ny);
    assert CellOrder(nx, ny) == prefix + row;
    if c.i == nx - 1 {
      assert row[c.j] == c;
    } else {
      CellOrderComplete(nx - 1, ny, c);
    }
  }

  /** Every visited cell has its cut pairs in the grid. */
  predicate AllIndexed(g: Grid, cells: seq<Cell>) {
    forall t :: 0 <= t < |cells| ==> g.Indexes(cells[t])
  }

  /** Visits `cells` in order with the next free part number `next`: an empty section is
      skipped without using a number, a non-empty one becomes the next part. */
  function Number(g: Grid, cells: seq<Cell>, isEmpty: Box -> bool, next: nat): (parts: seq<Part>)
    requires AllIndexed(g, cells)
    ensures |parts| <= |cells|
    decreases |cells|
  {
    if |cells| == 0 then []
    else
      var clip := CellBox(g, cells[0]);
      if isEmpty(clip) then Number(g, cells[1..], isEmpty, next)
      else [Part(next, cells[0], clip)] + Number(g, cells[1..], isEmpty, next + 1)
  }

  /** The parts are numbered consecutively from `next`, each comes from a visited cell whose
      section is non-empty and carries that cell's clipping box, and every visited cell with a
      non-empty section yields one. */
  lemma {:induction false} NumberSound(g: Grid, cells: seq<Cell>, isEmpty: Box -> bool, next: nat)
    requires AllIndexed(g, cells)
    ensures forall t :: 0 <= t < |Number(g, cells, isEmpty, next)| ==>
      Number(g, cells, isEmpty, next)[t].number == next + t
    ensures forall t :: 0 <= t < |Number(g, cells, isEmpty, next)| ==>
      var p := Number(g, cells, isEmpty, next)[t];
      p.cell in cells && g.Indexes(p.cell) && p.clip == CellBox(g, p.cell) && !isEmpty(p.clip)
    ensures forall k :: 0 <= k < |cells| && !isEmpty(CellBox(g, cells[k])) ==>
      Emitted(Number(g, cells, isEmpty, next), cells[k])
    decreases |cells|
  {
    if |cells| > 0 {
      var rest := cells[1..];
      assert forall k :: 1 <= k < |cells| ==> cells[k] == rest[k - 1];
      var parts := Number(g, cells, isEmpty, next);
      if isEmpty(CellBox(g, cells[0])) {
        NumberSound(g, rest, isEmpty, next);
      } else {
        NumberSound(g, rest, isEmpty, next + 1);
        var tail := Number(g, rest, isEmpty, next + 1);
        assert parts == [Part(next, cells[0], CellBox(g, cells[0]))] + tail;
        assert forall t :: 0 <= t < |tail| ==> parts[t + 1] == tail[t];
        assert Emitted(parts, cells[0]) by { assert parts[0].cell == cells[0]; }
      }
    }
  }

  /** Numbering keeps the visiting order: parts found in scan order stay in scan order. */
  lemma {:induction false} NumberOrdered(g: Grid, cells: seq<Cell>, isEmpty: Box -> bool, next: nat)
    requires AllIndexed(g, cells)
    requires ScanOrdered(cells)
    ensures PartsOrdered(Number(g, cells, isEmpty, next))
    decreases |cells|
  {
    if |cells| > 0 {
      var rest := cells[1..];
      assert ScanOrdered(rest) by {
        forall s, t | 0 <= s < t < |rest| ensures Before(rest[s], rest[t]) {
          assert rest[s] == cells[s + 1] && rest[t] == cells[t + 1];
        }
      }
      if !isEmpty(CellBox(g, cells[0])) {
        NumberOrdered(g, rest, isEmpty, next + 1);
        NumberSound(g, rest, isEmpty, next + 1);
        var tail := Number(g, rest, isEmpty, next + 1);
        var parts := Number(g, cells, isEmpty, next);
        assert parts == [parts[0]] + tail;
        forall t | 0 <= t < |tail|
          ensures Before(cells[0], tail[t].cell)
        {
          var k :| 0 <= k < |rest| && rest[k] == tail[t].cell;
          assert cells[k + 1] == rest[k];
        }
      } else {
        NumberOrdered(g, rest, isEmpty, next);
      }
    }
  }

  /** What the scan of an `nx` by `ny` grid must produce: parts numbered 1, 2, ... without
      gaps, each cut from a grid cell whose section is non-empty, in scan order, and one for
      every such cell. */
  ghost predicate IsScanOf(parts: seq<Part>, g: Grid, nx: int, ny: int, isEmpty: Box -> bool)
    requires nx < |g.xs| && ny < |g.ys|
  {
    && (forall t :: 0 <= t < |parts| ==> parts[t].number == t + 1)
    && (forall t :: 0 <= t < |parts| ==>
          InGrid(parts[t].cell, nx, ny) && parts[t].clip == CellBox(g, parts[t].cell) && !isEmpty(parts[t].clip))
    && PartsOrdered(parts)
    && (forall c :: InGrid(c, nx, ny) && !isEmpty(CellBox(g, c)) ==> Emitted(parts, c))
  }

  /** The double loop over the grid with part numbers starting at 1; it yields at most
      one part per cell. */
  function ScanGrid(g: Grid, nx: int, ny: int, isEmpty: Box -> bool): (parts: seq<Part>)
    requires nx < |g.xs| && ny < |g.ys|
    ensures IsScanOf(parts, g, nx, ny, isEmpty)
    ensures |parts| <= if nx <= 0 || ny <= 0 then 0 else nx * ny
  {
    var cells := CellOrder(nx, ny);
    forall c | InGrid(c, nx, ny) ensures c in cells {
      CellOrderComplete(nx, ny, c);
    }
    NumberSound(g, cells, isEmpty, 1);
    NumberOrdered(g, cells, isEmpty, 1);
    Number(g, cells, isEmpty, 1)
  }

  /** Sequences of cells in strictly increasing scan order with the same members are equal. */
  lemma {:induction false} OrderedCellsUnique(a: seq<Cell>, b: seq<Cell>)
    requires ScanOrdered(a) && ScanOrdered(b)
    requires forall c :: c in a <==> c in b
    ensures a == b
    decreases |a|
  {
    if |a| != 0 || |b| != 0 {
      assert |a| > 0 && |b| > 0 by {
        assert |a| > 0 ==> a[0] in a;
        assert |b| > 0 ==> b[0] in b;
      }
      assert a[0] == b[0] by {
        assert a[0] in b && b[0] in a;
      }
      var a', b' := a[1..], b[1..];
      forall c
        ensures c in a' <==> c in b'
      {
        if c in a' {
          var s :| 1 <= s < |a| && a[s] == c;
          assert Before(a[0], c);
          assert c in b by { assert c in a; }
          var t :| 0 <= t < |b| && b[t] == c;
          assert c == b'[t - 1];
        }
        if c in b' {
          var t :| 1 <= t < |b| && b[t] == c;
          assert Before(b[0], c);
          assert c in a by { assert c in b; }
          var s :| 0 <= s < |a| && a[s] == c;
          assert c == a'[s - 1];
        }
      }
      assert ScanOrdered(a') by {
        forall s, t | 0 <= s < t < |a'| ensures Before(a'[s], a'[t]) {
          assert a'[s] == a[s + 1] && a'[t] == a[t + 1];
        }
      }
      assert ScanOrdered(b') by {
        forall s, t | 0 <= s < t < |b'| ensures Before(b'[s], b'[t]) {
          assert b'[s] == b[s + 1] && b'[t] == b[t + 1];
        }
      }
      OrderedCellsUnique(a', b');
      assert a == [a[0]] + a' && b == [b[0]] + b';
    }
  }

  function CellsOf(parts: seq<Part>): (cells: seq<Cell>)
    ensures |cells| == |parts|
    ensures forall t :: 0 <= t < |parts| ==> cells[t] == parts[t].cell
  {
    seq(|parts|, t requires 0 <= t < |parts| => parts[t].cell)
  }

  /** The scan's result is determined by the grid and the emptiness of each cell's section:
      two part lists that both meet `IsScanOf` are the same list. */
  lemma ScanIsUnique(p: seq<Part>, q: seq<Part>, g: Grid, nx: int, ny: int, isEmpty: Box -> bool)
    requires nx < |g.xs| && ny < |g.ys|
    requires IsScanOf(p, g, nx, ny, isEmpty) && IsScanOf(q, g, nx, ny, isEmpty)
    ensures p == q
  {
    var a, b := CellsOf(p), CellsOf(q);
    forall c
      ensures c in a <==> c in b
    {
      if c in a {
        var t :| 0 <= t < |a| && a[t] == c;
        assert p[t].cell == c;
        assert Emitted(q, c);
        var u :| 0 <= u < |q| && q[u].cell == c;
        assert b[u] == c;
      }
      if c in b {
        var u :| 0 <= u < |b| && b[u] == c;
        assert q[u].cell == c;
        assert Emitted(p, c);
        var t :| 0 <= t < |p| && p[t].cell == c;
        assert a[t] == c;
      }
    }
    OrderedCellsUnique(a, b);
    assert |p| == |q|;
    forall t | 0 <= t < |p|
      ensures p[t] == q[t]
    {
      assert a[t] == b[t];
    }
  }

  /** Appending one cell to the visit list appends at most one part, numbered after the
      parts found so far. */
  lemma {:induction false} NumberSnoc(g: Grid, cells: seq<Cell>, c: Cell, isEmpty: Box -> bool, next: nat)
    requires AllIndexed(g, cells)
    requires g.Indexes(c)
    ensures Number(g, cells + [c], isEmpty, next) ==
      Number(g, cells, isEmpty, next)
      + (if isEmpty(CellBox(g, c)) then []
         else [Part(next + |Number(g, cells, isEmpty, next)|, c, CellBox(g, c))])
    decreases |cells|
  {
    var all := cells + [c];
    assert AllIndexed(g, all);
    var box := CellBox(g, c);
    if |cells| == 0 {
      assert all == [c];
      assert all[1..] == [];
    } else {
      var rest := cells[1..];
      var box0 := CellBox(g, cells[0]);
      assert all[0] == cells[0];
      assert all[1..] == rest + [c];
      if isEmpty(box0) {
        NumberSnoc(g, rest, c, isEmpty, next);
        assert Number(g, all, isEmpty, next) == Number(g, rest + [c], isEmpty, next);
        assert Number(g, cells, isEmpty, next) == Number(g, rest, isEmpty, next);
      } else {
        NumberSnoc(g, rest, c, isEmpty, next + 1);
        var head := [Part(next, cells[0], box0)];
        assert Number(g, all, isEmpty, next) == head + Number(g, rest + [c], isEmpty, next + 1);
        assert Number(g, cells, isEmpty, next) == head + Number(g, rest, isEmpty, next + 1);
        var found := Number(g, rest, isEmpty, next + 1);
        var last := if isEmpty(box) then [] else [Part(next + 1 + |found|, c, box)];
        assert head + (found + last) == (head + found) + last;
      }
    }
  }

  /** Visits are indexed exactly when each part of them is. */
  lemma IndexedAppend(g: Grid, a: seq<Cell>, b: seq<Cell>)
    ensures AllIndexed(g, a + b) <==> AllIndexed(g, a) && AllIndexed(g, b)
  {
    if AllIndexed(g, a) && AllIndexed(g, b) {
      forall t | 0 <= t < |a + b| ensures g.Indexes((a + b)[t]) {
        if t >= |a| { assert (a + b)[t] == b[t - |a|]; }
      }
    }
    if AllIndexed(g, a + b) {
      forall t | 0 <= t < |a| ensures g.Indexes(a[t]) {
        assert (a + b)[t] == a[t];
      }
      forall t | 0 <= t < |b| ensures g.Indexes(b[t]) {
        assert (a + b)[|a| + t] == b[t];
      }
    }
  }

  /** One step of the inner loop: the section of `cell` is saved as part `partNumber`
      unless it is empty, and the number advances only when it is saved. */
  method VisitCell(g: Grid, visited: seq<Cell>, cell: Cell, isEmpty: Box -> bool, found: seq<Part>, partNumber: nat)
    returns (parts: seq<Part>, nextNumber: nat)
    requires AllIndexed(g, visited) && g.Indexes(cell)
    requires found == Number(g, visited, isEmpty, 1)
    requires partNumber == |found| + 1
    ensures AllIndexed(g, visited + [cell])
    ensures parts == Number(g, visited + [cell], isEmpty, 1)
    ensures nextNumber == |parts| + 1
  {
    IndexedAppend(g, visited, [cell]);
    NumberSnoc(g, visited, cell, isEmpty, 1);
    var clip := CellBox(g, cell);
    parts, nextNumber := found, partNumber;
    if !isEmpty(clip) {
      parts := parts + [Part(partNumber, cell, clip)];
      nextNumber := partNumber + 1;
    }
  }

  /** The inner loop of `split_stl_into_grid` at X index `i`: visits `(i, 0), ..., (i, ny - 1)`
      after the cells `done` of the earlier rows. */
  method ScanRow(g: Grid, i: int, ny: int, isEmpty: Box -> bool, done: seq<Cell>, found: seq<Part>)
    returns (parts: seq<Part>)
    requires 0 <= i && i + 1 < |g.xs| && ny < |g.ys|
    requires AllIndexed(g, done)
    requires found == Number(g, done, isEmpty, 1)
    ensures AllIndexed(g, done + Row(i, ny))
    ensures parts == Number(g, done + Row(i, ny), isEmpty, 1)
  {
    parts := found;
    var partNumber := |found| + 1;
    var j := 0;
    assert done + Row(i, j) == done;
    while j < ny
      invariant 0 <= j && (j <= ny || j == 0)
      invariant AllIndexed(g, done + Row(i, j))
      invariant parts == Number(g, done + Row(i, j), isEmpty, 1)
      invariant partNumber == |parts| + 1
    {
      assert done + Row(i, j + 1) == done + Row(i, j) + [Cell(i, j)];
      parts, partNumber := VisitCell(g, done + Row(i, j), Cell(i, j), isEmpty, parts, partNumber);
      j := j + 1;
    }
    assert Row(i, j) == Row(i, ny);
  }

  /** The visits of the first `i` rows all have their cut pairs when the grid has `i` rows
      (none are visited when `i` is not positive). */
  lemma CellOrderIndexed(g: Grid, i: int, ny: int)
    requires (i <= 0 || i < |g.xs|) && ny < |g.ys|
    ensures AllIndexed(g, CellOrder(i, ny))
  {
  }

  /** The nested loops of `split_stl_into_grid`, X outer and Y inner, with the part number
      starting at 1: they compute the scan. */
  method ScanCells(g: Grid, nx: int, ny: int, isEmpty: Box -> bool) returns (parts: seq<Part>)
    requires nx < |g.xs| && ny < |g.ys|
    ensures parts == ScanGrid(g, nx, ny, isEmpty)
  {
    parts := [];
    var i := 0;
    while i < nx
      invariant 0 <= i && (i <= nx || i == 0)
      invariant parts == Number(g, CellOrder(i, ny), isEmpty, 1)
    {
      CellOrderIndexed(g, i, ny);
      parts := ScanRow(g, i, ny, isEmpty, CellOrder(i, ny), parts);
      assert CellOrder(i + 1, ny) == CellOrder(i, ny) + Row(i, ny);
      i := i + 1;
    }
    assert CellOrder(i, ny) == CellOrder(nx, ny);
  }

  /** The file written for each part, `<prefix>_splt-NN.stl`: each name reads back as its
      part's number, so parts with different numbers never share a file. */
  function FileNames(prefix: string, parts: seq<Part>): (names: seq<string>)
    ensures |names| == |parts|
    ensures forall t :: 0 <= t < |parts| ==> ParsePartName(prefix, names[t]) == Some(parts[t].number)
    ensures forall s, t :: 0 <= s < |parts| && 0 <= t < |parts| && parts[s].number != parts[t].number ==>
      names[s] != names[t]
  {
    var names := seq(|parts|, t requires 0 <= t < |parts| => PartName(prefix, parts[t].number));
    forall t | 0 <= t < |parts| ensures ParsePartName(prefix, names[t]) == Some(parts[t].number) {
      PartNameRoundTrip(prefix, parts[t].number);
    }
    names
  }
}
