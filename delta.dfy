/** The delta computation: which cells of the live grid differ from a user's last-seen copy. */
module Delta {
  import opened Grid

  /** One reported cell: its coordinates and its current colour. */
  datatype Change = Change(x: int, y: int, color: Color)

  /** `a` is reported before `b`: rows (`y`) outer, columns (`x`) inner. */
  predicate Precedes(a: Change, b: Change)
  {
    a.y < b.y || (a.y == b.y && a.x < b.x)
  }

  /** Strictly increasing in scan order; in particular no cell is reported twice. */
  predicate Ordered(d: seq<Change>)
  {
    forall i, j :: 0 <= i < j < |d| ==> Precedes(d[i], d[j])
  }

  /** Cell `(x, y)` exists in both grids and its colours differ. */
  predicate Differs(cur: Pixels, seen: Pixels, x: int, y: int)
  {
    0 <= x < |cur| && 0 <= x < |seen| && 0 <= y < |cur[x]| && 0 <= y < |seen[x]|
    && cur[x][y] != seen[x][y]
  }

  /** `c` names a cell of the grid that differs from `seen`, with its colour in `cur`. */
  predicate Reports(cur: Pixels, seen: Pixels, nx: nat, ny: nat, c: Change)
    requires IsGrid(cur, nx, ny) && IsGrid(seen, nx, ny)
  {
    InBounds(c.x, c.y, nx, ny) && cur[c.x][c.y] != seen[c.x][c.y] && c.color == cur[c.x][c.y]
  }

  /** Two ordered lists, every entry of the first before every entry of the second,
      concatenate to an ordered list. */
  lemma OrderedConcat(a: seq<Change>, b: seq<Change>)
    requires Ordered(a) && Ordered(b)
    requires forall c, d :: c in a && d in b ==> Precedes(c, d)
    ensures Ordered(a + b)
  {
  }

  /** What the scan appends at cell `(x, y)`: the cell with its current colour if it differs. */
  function Cell(cur: Pixels, seen: Pixels, x: int, y: int): seq<Change>
  {
    if Differs(cur, seen, x, y) then [Change(x, y, cur[x][y])] else []
  }

  /** The changes of row `y` among the columns `0 .. n-1`, in increasing `x`. */
  function RowChanges(cur: Pixels, seen: Pixels, y: int, n: nat): seq<Change>
    decreases n
  {
    if n == 0 then [] else RowChanges(cur, seen, y, n - 1) + Cell(cur, seen, n - 1, y)
  }

  /** The changes of rows `0 .. m-1` over the columns `0 .. nx-1`, row after row. */
  function Rows(cur: Pixels, seen: Pixels, nx: nat, m: nat): seq<Change>
    decreases m
  {
    if m == 0 then [] else Rows(cur, seen, nx, m - 1) + RowChanges(cur, seen, m - 1, nx)
  }

  /** The delta of `cur` against the last-seen copy `seen`, in the handler's scan order. */
  function Changes(cur: Pixels, seen: Pixels, nx: nat, ny: nat): seq<Change>
  {
    Rows(cur, seen, nx, ny)
  }

  /** Every change of row `y` lies in that row, left of column `n`. */
  lemma {:induction false} RowChangesWithin(cur: Pixels, seen: Pixels, y: int, n: nat)
    ensures forall c :: c in RowChanges(cur, seen, y, n) ==> c.y == y && 0 <= c.x < n
    decreases n
  {
    if n > 0 {
      var prefix := RowChanges(cur, seen, y, n - 1);
      var last := Cell(cur, seen, n - 1, y);
      assert RowChanges(cur, seen, y, n) == prefix + last;
      RowChangesWithin(cur, seen, y, n - 1);
      forall c: Change | c in prefix + last
        ensures c.y == y && 0 <= c.x < n
      {
        if c !in prefix {
          assert c in last;
        }
      }
    }
  }

  /** A row's changes are exactly its differing cells left of column `n`, each with its
      current colour. */
  lemma {:induction false} RowChangesMembers(cur: Pixels, seen: Pixels, y: int, n: nat)
    ensures forall c :: c in RowChanges(cur, seen, y, n) <==>
      c.y == y && 0 <= c.x < n && Differs(cur, seen, c.x, c.y) && c.color == cur[c.x][c.y]
    decreases n
  {
    if n > 0 {
      var prefix := RowChanges(cur, seen, y, n - 1);
      var last := Cell(cur, seen, n - 1, y);
      assert RowChanges(cur, seen, y, n) == prefix + last;
      RowChangesMembers(cur, seen, y, n - 1);
      forall c: Change
        ensures c in prefix + last <==>
          c.y == y && 0 <= c.x < n && Differs(cur, seen, c.x, c.y) && c.color == cur[c.x][c.y]
      {
        if c.x == n - 1 {
          assert c !in prefix;
        } else {
          assert c !in last;
        }
      }
    }
  }

  /** A row's changes come in increasing `x`. */
  lemma {:induction false} RowChangesOrdered(cur: Pixels, seen: Pixels, y: int, n: nat)
    ensures Ordered(RowChanges(cur, seen, y, n))
    decreases n
  {
    if n > 0 {
      var prefix := RowChanges(cur, seen, y, n - 1);
      var last := Cell(cur, seen, n - 1, y);
      assert Ordered(prefix + last) by {
        RowChangesOrdered(cur, seen, y, n - 1);
        RowChangesWithin(cur, seen, y, n - 1);
        OrderedConcat(prefix, last);
      }
      assert RowChanges(cur, seen, y, n) == prefix + last;
    }
  }

  /** Every change of the first `m` rows lies above row `m`. */
  lemma {:induction false} RowsWithin(cur: Pixels, seen: Pixels, nx: nat, m: nat)
    ensures forall c :: c in Rows(cur, seen, nx, m) ==> 0 <= c.y < m
    decreases m
  {
    if m > 0 {
      var prefix := Rows(cur, seen, nx, m - 1);
      var row := RowChanges(cur, seen, m - 1, nx);
      assert Rows(cur, seen, nx, m) == prefix + row;
      RowsWithin(cur, seen, nx, m - 1);
      RowChangesWithin(cur, seen, m - 1, nx);
      forall c: Change | c in prefix + row
        ensures 0 <= c.y < m
      {
        if c !in prefix {
          assert c in row;
        }
      }
    }
  }

  /** The first `m` rows' changes are exactly the differing cells above row `m`, each with
      its current colour. */
  lemma {:induction false} RowsMembers(cur: Pixels, seen: Pixels, nx: nat, m: nat)
    ensures forall c :: c in Rows(cur, seen, nx, m) <==>
      0 <= c.y < m && 0 <= c.x < nx && Differs(cur, seen, c.x, c.y) && c.color == cur[c.x][c.y]
    decreases m
  {
    if m > 0 {
      var prefix := Rows(cur, seen, nx, m - 1);
      var row := RowChanges(cur, seen, m - 1, nx);
      assert Rows(cur, seen, nx, m) == prefix + row;
      RowsMembers(cur, seen, nx, m - 1);
      RowChangesMembers(cur, seen, m - 1, nx);
      forall c: Change
        ensures c in prefix + row <==>
          0 <= c.y < m && 0 <= c.x < nx && Differs(cur, seen, c.x, c.y) && c.color == cur[c.x][c.y]
      {
        if c.y == m - 1 {
          assert c !in prefix;
        } else {
          assert c !in row;
        }
      }
    }
  }

  /** The first `m` rows' changes come in scan order. */
  lemma {:induction false} RowsOrdered(cur: Pixels, seen: Pixels, nx: nat, m: nat)
    ensures Ordered(Rows(cur, seen, nx, m))
    decreases m
  {
    if m > 0 {
      var prefix := Rows(cur, seen, nx, m - 1);
      var row := RowChanges(cur, seen, m - 1, nx);
      assert Ordered(prefix + row) by {
        RowsOrdered(cur, seen, nx, m - 1);
        RowsWithin(cur, seen, nx, m - 1);
        RowChangesOrdered(cur, seen, m - 1, nx);
        RowChangesWithin(cur, seen, m - 1, nx);
        OrderedConcat(prefix, row);
      }
      assert Rows(cur, seen, nx, m) == prefix + row;
    }
  }

  /** The delta holds exactly the cells that differ from the copy, each with its current
      colour, each once, in `y`-outer / `x`-inner order. */
  lemma ChangesExact(cur: Pixels, seen: Pixels, nx: nat, ny: nat)
    requires IsGrid(cur, nx, ny) && IsGrid(seen, nx, ny)
    ensures forall c :: c in Changes(cur, seen, nx, ny) <==> Reports(cur, seen, nx, ny, c)
    ensures Ordered(Changes(cur, seen, nx, ny))
  {
    RowsMembers(cur, seen, nx, ny);
    RowsOrdered(cur, seen, nx, ny);
  }

  /** The nested scan of the delta handler: `y` outer, `x` inner, appending each differing cell. */
  method Scan(cur: Pixels, seen: Pixels, nx: nat, ny: nat) returns (d: seq<Change>)
    requires IsGrid(cur, nx, ny) && IsGrid(seen, nx, ny)
    ensures d == Changes(cur, seen, nx, ny)
  {
    d := [];
    for y := 0 to ny
      invariant d == Rows(cur, seen, nx, y)
    {
      ghost var done := d;
      for x := 0 to nx
        invariant d == done + RowChanges(cur, seen, y, x)
      {
        ghost var row := RowChanges(cur, seen, y, x);
        assert RowChanges(cur, seen, y, x + 1) == row + Cell(cur, seen, x, y);
        if cur[x][y] != seen[x][y] {
          d := d + [Change(x, y, cur[x][y])];
          assert d == done + (row + [Change(x, y, cur[x][y])]);
        } else {
          assert row + [] == row;
        }
      }
      assert Rows(cur, seen, nx, y + 1) == done + RowChanges(cur, seen, y, nx);
    }
  }

  /** A row with no differing cell reports nothing. */
  lemma {:induction false} RowChangesOfSynced(g: Pixels, y: int, n: nat)
    ensures |RowChanges(g, g, y, n)| == 0
    decreases n
  {
    if n > 0 {
      var prefix := RowChanges(g, g, y, n - 1);
      RowChangesOfSynced(g, y, n - 1);
      assert RowChanges(g, g, y, n) == prefix + Cell(g, g, n - 1, y);
    }
  }

  /** Rows with no differing cell report nothing. */
  lemma {:induction false} RowsOfSynced(g: Pixels, nx: nat, m: nat)
    ensures |Rows(g, g, nx, m)| == 0
    decreases m
  {
    if m > 0 {
      var prefix := Rows(g, g, nx, m - 1);
      var row := RowChanges(g, g, m - 1, nx);
      RowsOfSynced(g, nx, m - 1);
      RowChangesOfSynced(g, m - 1, nx);
      assert Rows(g, g, nx, m) == prefix + row;
    }
  }

  /** Once the copy equals the grid there is nothing to report: a second poll is empty. */
  lemma ChangesOfSynced(g: Pixels, nx: nat, ny: nat)
    ensures Changes(g, g, nx, ny) == []
  {
    RowsOfSynced(g, nx, ny);
  }

  /** An ordered delta never reports the same cell twice in its first two entries. */
  lemma OrderedHeadsDiffer(r: seq<Change>)
    requires Ordered(r) && |r| >= 2
    ensures r[0] != r[1]
  {
  }

  /** One write after a poll is reported exactly once, with the new colour, unless it
      left the cell as it was. */
  lemma ChangesAfterPaint(g: Pixels, nx: nat, ny: nat, x: int, y: int, c: Color)
    requires IsGrid(g, nx, ny) && InBounds(x, y, nx, ny)
    ensures Changes(Paint(g, nx, ny, x, y, c), g, nx, ny) == if c == g[x][y] then [] else [Change(x, y, c)]
  {
    var h := Paint(g, nx, ny, x, y, c);
    if c == g[x][y] {
      assert h[x] == g[x];
      assert h == g;
      ChangesOfSynced(g, nx, ny);
    } else {
      var r := Changes(h, g, nx, ny);
      ChangesExact(h, g, nx, ny);
      forall k | 0 <= k < |r|
        ensures r[k] == Change(x, y, c)
      {
        assert r[k] in r;
      }
      assert Change(x, y, c) in r;
      if |r| >= 2 {
        OrderedHeadsDiffer(r);
        assert false;
      }
      assert r == [Change(x, y, c)];
    }
  }
}
