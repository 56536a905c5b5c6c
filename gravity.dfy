/** Gravity after a clear: each column's remaining blocks fall to the bottom
    of the board with no gaps, keeping their bottom-to-top order. */
module Gravity {
  import opened Types
  import opened Board

  /** The blocks of column `c`, in grid order. */
  function ColumnOf(g: seq<Block>, c: int): (r: seq<Block>)
    ensures |r| <= |g|
  {
    if g == [] then []
    else (if g[0].col == c then [g[0]] else []) + ColumnOf(g[1..], c)
  }

  /** The column holds exactly the blocks of the grid in that column. */
  lemma {:induction false} ColumnOfMembers(g: seq<Block>, c: int)
    ensures forall b :: b in ColumnOf(g, c) <==> b in g && b.col == c
  {
    if g != [] {
      ColumnOfMembers(g[1..], c);
      assert g == [g[0]] + g[1..];
    }
  }

  /** Bottom-most first: rows never increase along the sequence. */
  ghost predicate RowsDescending(s: seq<Block>) {
    forall i, j :: 0 <= i < j < |s| ==> s[i].row >= s[j].row
  }

  /** Inserts `b` before the first block that is not below it, so that among
      equal rows the earlier block stays first (the sort is stable). */
  function InsertByRow(b: Block, s: seq<Block>): (r: seq<Block>)
    ensures |r| == |s| + 1
  {
    if s == [] || b.row >= s[0].row then [b] + s
    else
      assert s == [s[0]] + s[1..];
      [s[0]] + InsertByRow(b, s[1..])
  }

  /** The column sorted bottom-most first, that is by row in descending order. */
  function SortByRowDesc(s: seq<Block>): (r: seq<Block>)
    ensures |r| == |s|
  {
    if s == [] then []
    else
      assert s == [s[0]] + s[1..];
      InsertByRow(s[0], SortByRowDesc(s[1..]))
  }

  /** Insertion adds exactly the one block. */
  lemma {:induction false} InsertByRowPermutes(b: Block, s: seq<Block>)
    ensures multiset(InsertByRow(b, s)) == multiset(s) + multiset{b}
  {
    if s != [] && b.row < s[0].row {
      InsertByRowPermutes(b, s[1..]);
      assert s == [s[0]] + s[1..];
    }
  }

  /** The sort is a permutation of the column. */
  lemma {:induction false} SortPermutes(s: seq<Block>)
    ensures multiset(SortByRowDesc(s)) == multiset(s)
  {
    if s != [] {
      SortPermutes(s[1..]);
      InsertByRowPermutes(s[0], SortByRowDesc(s[1..]));
      assert s == [s[0]] + s[1..];
    }
  }

  /** The `i`-th block sits on row `rows - 1 - i`: bottom-up with no gap. */
  ghost predicate Compact(rows: int, s: seq<Block>) {
    forall i :: 0 <= i < |s| ==> s[i].row == rows - 1 - i
  }

  /** The `idx`-th block of a sorted column goes to row `rows - 1 - idx`. */
  function Stack(rows: int, s: seq<Block>): seq<Block> {
    seq(|s|, i requires 0 <= i < |s| => s[i].(row := rows - 1 - i))
  }

  /** The grid built by the first `n` iterations of the per-column loop. */
  function GravityUpTo(g: seq<Block>, rows: int, n: nat): seq<Block> {
    if n == 0 then []
    else GravityUpTo(g, rows, n - 1) + Stack(rows, SortByRowDesc(ColumnOf(g, n - 1)))
  }

  /** The grid after gravity: columns 0 to `cols - 1`, each compacted. */
  function AfterGravity(cfg: Config, g: seq<Block>): seq<Block> {
    GravityUpTo(g, cfg.rows, cfg.cols)
  }

  /** The per-column gravity loop of match evaluation: for each column, its
      blocks sorted bottom-to-top are pushed onto the new grid. */
  method ApplyGravity(cfg: Config, remaining: seq<Block>) returns (newGrid: seq<Block>)
    ensures newGrid == AfterGravity(cfg, remaining)
  {
    newGrid := [];
    for c := 0 to cfg.cols
      invariant newGrid == GravityUpTo(remaining, cfg.rows, c)
    {
      var colBlocks := SortByRowDesc(ColumnOf(remaining, c));
      newGrid := PushColumn(cfg.rows, colBlocks, newGrid);
      GravityUpToNext(remaining, cfg.rows, c);
    }
  }

  /** The inner loop: the `idx`-th block of the sorted column is pushed with
      row `rows - 1 - idx`. */
  method PushColumn(rows: int, colBlocks: seq<Block>, grid: seq<Block>) returns (newGrid: seq<Block>)
    ensures newGrid == grid + Stack(rows, colBlocks)
  {
    newGrid := grid;
    for idx := 0 to |colBlocks|
      invariant newGrid == grid + Stack(rows, colBlocks[..idx])
    {
      StackSnoc(rows, colBlocks, idx);
      newGrid := newGrid + [colBlocks[idx].(row := rows - 1 - idx)];
    }
    assert colBlocks[..|colBlocks|] == colBlocks;
  }

  lemma StackSnoc(rows: int, s: seq<Block>, idx: nat)
    requires idx < |s|
    ensures Stack(rows, s[..idx + 1]) == Stack(rows, s[..idx]) + [s[idx].(row := rows - 1 - idx)]
  {
  }

  lemma GravityUpToNext(g: seq<Block>, rows: int, c: nat)
    ensures GravityUpTo(g, rows, c + 1) == GravityUpTo(g, rows, c) + Stack(rows, SortByRowDesc(ColumnOf(g, c)))
  {
  }

  // Sorting

  lemma InsertByRowMembers(b: Block, s: seq<Block>)
    ensures forall x :: x in InsertByRow(b, s) ==> x == b || x in s
  {
    var r := InsertByRow(b, s);
    InsertByRowPermutes(b, s);
    forall x | x in r ensures x == b || x in s {
      assert x in multiset(r);
    }
  }

  lemma {:induction false} InsertKeepsDescending(b: Block, s: seq<Block>)
    requires RowsDescending(s)
    ensures RowsDescending(InsertByRow(b, s))
  {
    if s == [] || b.row >= s[0].row {
    } else {
      var t := InsertByRow(b, s[1..]);
      var r := [s[0]] + t;
      assert InsertByRow(b, s) == r;
      InsertKeepsDescending(b, s[1..]);
      InsertByRowMembers(b, s[1..]);
      forall k | 0 <= k < |t| ensures s[0].row >= t[k].row {
        assert t[k] in t;
        if t[k] != b {
          var j :| 0 <= j < |s[1..]| && s[1..][j] == t[k];
          assert s[j + 1] == t[k];
        }
      }
      forall i, j | 0 <= i < j < |r| ensures r[i].row >= r[j].row {
        if i == 0 {
          assert r[j] == t[j - 1];
        } else {
          assert r[i] == t[i - 1] && r[j] == t[j - 1];
        }
      }
    }
  }

  /** The sort puts every column bottom-most first. */
  lemma {:induction false} SortIsDescending(s: seq<Block>)
    ensures RowsDescending(SortByRowDesc(s))
  {
    if s != [] {
      SortIsDescending(s[1..]);
      InsertKeepsDescending(s[0], SortByRowDesc(s[1..]));
    }
  }

  /** A column already ordered bottom-most first is left as it is. */
  lemma {:induction false} SortFixesDescending(s: seq<Block>)
    requires RowsDescending(s)
    ensures SortByRowDesc(s) == s
  {
    if s != [] {
      SortFixesDescending(s[1..]);
      assert s == [s[0]] + s[1..];
    }
  }

  lemma {:induction false} InsertKeepsDistinct<K>(b: Block, s: seq<Block>, key: Block -> K)
    requires DistinctBy(s, key)
    requires forall y :: y in s ==> key(b) != key(y)
    ensures DistinctBy(InsertByRow(b, s), key)
  {
    if s == [] || b.row >= s[0].row {
      DistinctConcat([b], s, key);
    } else {
      DistinctTail(s, key);
      InsertKeepsDistinct(b, s[1..], key);
      var t := InsertByRow(b, s[1..]);
      InsertByRowMembers(b, s[1..]);
      forall y | y in t ensures key(s[0]) != key(y) {
        if y != b {
          assert y in s[1..];
        }
      }
      DistinctConcat([s[0]], t, key);
    }
  }

  lemma {:induction false} SortKeepsDistinct<K>(s: seq<Block>, key: Block -> K)
    requires DistinctBy(s, key)
    ensures DistinctBy(SortByRowDesc(s), key)
  {
    if s != [] {
      DistinctTail(s, key);
      SortKeepsDistinct(s[1..], key);
      var t := SortByRowDesc(s[1..]);
      SortPermutes(s[1..]);
      forall y | y in t ensures key(s[0]) != key(y) {
        assert y in multiset(t);
      }
      InsertKeepsDistinct(s[0], t, key);
    }
  }

  lemma {:induction false} ColumnKeepsDistinct<K>(g: seq<Block>, c: int, key: Block -> K)
    requires DistinctBy(g, key)
    ensures DistinctBy(ColumnOf(g, c), key)
  {
    if g != [] {
      DistinctTail(g, key);
      ColumnKeepsDistinct(g[1..], c, key);
      ColumnOfMembers(g[1..], c);
      DistinctConcat(if g[0].col == c then [g[0]] else [], ColumnOf(g[1..], c), key);
    }
  }

  // Columns of the result

  lemma {:induction false} ColumnOfConcat(a: seq<Block>, b: seq<Block>, c: int)
    ensures ColumnOf(a + b, c) == ColumnOf(a, c) + ColumnOf(b, c)
  {
    if a == [] {
      assert a + b == b;
    } else {
      var head := if a[0].col == c then [a[0]] else [];
      assert (a + b)[0] == a[0] && (a + b)[1..] == a[1..] + b;
      ColumnOfConcat(a[1..], b, c);
      calc {
        ColumnOf(a + b, c);
        head + ColumnOf(a[1..] + b, c);
        head + (ColumnOf(a[1..], c) + ColumnOf(b, c));
        (head + ColumnOf(a[1..], c)) + ColumnOf(b, c);
      }
    }
  }

  lemma {:induction false} ColumnOfUniform(s: seq<Block>, d: int, c: int)
    requires forall x :: x in s ==> x.col == d
    ensures ColumnOf(s, c) == if c == d then s else []
  {
    if s != [] {
      assert s[0] in s;
      ColumnOfUniform(s[1..], d, c);
      assert s == [s[0]] + s[1..];
    }
  }

  /** Every block of the compacted column `c` is a block of column `c` of the grid. */
  lemma StackedFromColumn(g: seq<Block>, rows: int, c: int)
    ensures forall x :: x in SortByRowDesc(ColumnOf(g, c)) ==> x in g && x.col == c
    ensures forall x :: x in Stack(rows, SortByRowDesc(ColumnOf(g, c))) ==> x.col == c
  {
    var s := SortByRowDesc(ColumnOf(g, c));
    SortPermutes(ColumnOf(g, c));
    ColumnOfMembers(g, c);
    forall x | x in s ensures x in g && x.col == c {
      assert x in multiset(s);
    }
    forall x | x in Stack(rows, s) ensures x.col == c {
      var i :| 0 <= i < |s| && Stack(rows, s)[i] == x;
      assert s[i] in s;
    }
  }

  lemma {:induction false} ColumnOfGravityUpTo(g: seq<Block>, rows: int, n: nat, c: int)
    ensures ColumnOf(GravityUpTo(g, rows, n), c) ==
      if 0 <= c < n then Stack(rows, SortByRowDesc(ColumnOf(g, c))) else []
  {
    if n > 0 {
      var m: nat :| m + 1 == n;
      var a := GravityUpTo(g, rows, m);
      var b := Stack(rows, SortByRowDesc(ColumnOf(g, m)));
      ColumnOfGravityUpTo(g, rows, m, c);
      assert GravityUpTo(g, rows, n) == a + b;
      StackedFromColumn(g, rows, m);
      ColumnOfUniform(b, m, c);
      ColumnOfConcat(a, b, c);
    }
  }

  /** Column by column, gravity keeps the block count, stacks the column on
      rows `rows - 1` down to `rows - k` with no gap, and keeps the blocks in
      their bottom-to-top order with ids and values unchanged. */
  lemma GravitySettlesColumn(cfg: Config, g: seq<Block>, c: int)
    requires 0 <= c < cfg.cols
    ensures var before := ColumnOf(g, c);
      var order := SortByRowDesc(before);
      var after := ColumnOf(AfterGravity(cfg, g), c);
      && |after| == |before|
      && multiset(order) == multiset(before)
      && RowsDescending(order)
      && (forall i :: 0 <= i < |after| ==> after[i] == order[i].(row := cfg.rows - 1 - i))
  {
    ColumnOfGravityUpTo(g, cfg.rows, cfg.cols, c);
    SortIsDescending(ColumnOf(g, c));
    SortPermutes(ColumnOf(g, c));
  }

  lemma StackIsDescending(rows: int, s: seq<Block>)
    ensures RowsDescending(Stack(rows, s))
    ensures Stack(rows, Stack(rows, s)) == Stack(rows, s)
  {
  }

  lemma {:induction false} GravityUpToOfGravity(cfg: Config, g: seq<Block>, n: nat)
    requires n <= cfg.cols
    ensures GravityUpTo(AfterGravity(cfg, g), cfg.rows, n) == GravityUpTo(g, cfg.rows, n)
  {
    if n > 0 {
      var m: nat :| m + 1 == n;
      var h := AfterGravity(cfg, g);
      GravityUpToOfGravity(cfg, g, m);
      var s := SortByRowDesc(ColumnOf(g, m));
      var t := Stack(cfg.rows, s);
      assert SortByRowDesc(ColumnOf(h, m)) == t by {
        ColumnOfGravityUpTo(g, cfg.rows, cfg.cols, m);
        StackIsDescending(cfg.rows, s);
        SortFixesDescending(t);
      }
      assert Stack(cfg.rows, t) == t by {
        StackIsDescending(cfg.rows, s);
      }
      SameColumnsStep(h, g, cfg.rows, m);
    }
  }

  lemma SameColumnsStep(h: seq<Block>, g: seq<Block>, rows: int, m: nat)
    requires GravityUpTo(h, rows, m) == GravityUpTo(g, rows, m)
    requires Stack(rows, SortByRowDesc(ColumnOf(h, m))) == Stack(rows, SortByRowDesc(ColumnOf(g, m)))
    ensures GravityUpTo(h, rows, m + 1) == GravityUpTo(g, rows, m + 1)
  {
  }

  /** Gravity is idempotent: a grid it has compacted is left unchanged. */
  lemma GravityIdempotent(cfg: Config, g: seq<Block>)
    ensures AfterGravity(cfg, AfterGravity(cfg, g)) == AfterGravity(cfg, g)
  {
    GravityUpToOfGravity(cfg, g, cfg.cols);
  }

  /** A column whose blocks already sit bottom-up on rows `rows - 1`,
      `rows - 2`, ... with no gap is left exactly as it is. */
  lemma GravityKeepsCompactedColumn(cfg: Config, g: seq<Block>, c: int)
    requires 0 <= c < cfg.cols
    requires Compact(cfg.rows, ColumnOf(g, c))
    ensures ColumnOf(AfterGravity(cfg, g), c) == ColumnOf(g, c)
  {
    var col := ColumnOf(g, c);
    assert Stack(cfg.rows, col) == col by {
      forall i | 0 <= i < |col| ensures Stack(cfg.rows, col)[i] == col[i] {
        assert col[i].row == cfg.rows - 1 - i;
      }
    }
    StackIsDescending(cfg.rows, col);
    SortFixesDescending(col);
    ColumnOfGravityUpTo(g, cfg.rows, cfg.cols, c);
  }

  // Well-formedness and block count

  lemma {:induction false} DescendingBound(s: seq<Block>, rows: int, i: nat)
    requires RowsDescending(s) && DistinctBy(s, RowOf)
    requires forall x :: x in s ==> x.row < rows
    requires i < |s|
    ensures s[i].row <= rows - 1 - i
  {
    if i == 0 {
      assert s[0] in s;
    } else {
      DescendingBound(s, rows, i - 1);
      assert RowOf(s[i - 1]) != RowOf(s[i]);
    }
  }

  /** The sorted column `c` of a well-formed grid: blocks of that column of
      the grid, bottom-most first, with unique rows and ids. */
  lemma SortedColumnFacts(cfg: Config, g: seq<Block>, c: int)
    requires WellFormed(cfg, g)
    ensures var s := SortByRowDesc(ColumnOf(g, c));
      && RowsDescending(s) && DistinctBy(s, RowOf) && DistinctBy(s, IdOf)
      && (forall x :: x in s ==> x in g && x.col == c)
  {
    var col := ColumnOf(g, c);
    StackedFromColumn(g, cfg.rows, c);
    ColumnKeepsDistinct(g, c, PosOf);
    ColumnKeepsDistinct(g, c, IdOf);
    assert DistinctBy(col, RowOf) by {
      ColumnOfMembers(g, c);
      forall i, j | 0 <= i < j < |col| ensures RowOf(col[i]) != RowOf(col[j]) {
        assert col[i] in col && col[j] in col;
        assert PosOf(col[i]) != PosOf(col[j]);
      }
    }
    SortKeepsDistinct(col, RowOf);
    SortKeepsDistinct(col, IdOf);
    SortIsDescending(col);
  }

  /** Stacking such a column gives blocks on the board at unique positions,
      each a block of the grid with only its row changed, and never raised. */
  lemma StackOfColumn(cfg: Config, g: seq<Block>, s: seq<Block>, c: int)
    requires WellFormed(cfg, g) && 0 <= c < cfg.cols
    requires RowsDescending(s) && DistinctBy(s, RowOf) && DistinctBy(s, IdOf)
    requires forall x :: x in s ==> x in g && x.col == c
    ensures var b := Stack(cfg.rows, s);
      && WellFormed(cfg, b)
      && (forall x :: x in b ==> x.col == c)
      && (forall x :: x in b ==> exists y :: y in g && x == y.(row := x.row) && x.row >= y.row)
  {
    var b := Stack(cfg.rows, s);
    forall i | 0 <= i < |s| ensures 0 <= s[i].row <= cfg.rows - 1 - i {
      assert s[i] in s;
      DescendingBound(s, cfg.rows, i);
    }
    forall x | x in b
      ensures 0 <= x.row < cfg.rows && x.col == c && MIN_VALUE <= x.value <= MAX_VALUE
      ensures exists y :: y in g && x == y.(row := x.row) && x.row >= y.row
    {
      var i :| 0 <= i < |b| && b[i] == x;
      assert s[i] in s;
    }
    assert DistinctBy(b, PosOf) by {
      forall i, j | 0 <= i < j < |b| ensures PosOf(b[i]) != PosOf(b[j]) {
        assert b[i].row == cfg.rows - 1 - i;
      }
    }
    assert DistinctBy(b, IdOf) by {
      forall i, j | 0 <= i < j < |b| ensures IdOf(b[i]) != IdOf(b[j]) {
        assert IdOf(s[i]) != IdOf(s[j]);
      }
    }
  }

  /** The compacted column `c` of a well-formed grid lies on the board, with
      unique positions and ids, and each of its blocks is a block of column
      `c` of the grid that has fallen (or stayed) with id, value and column unchanged. */
  lemma StackedColumnWellFormed(cfg: Config, g: seq<Block>, c: int)
    requires WellFormed(cfg, g) && 0 <= c < cfg.cols
    ensures var b := Stack(cfg.rows, SortByRowDesc(ColumnOf(g, c)));
      && WellFormed(cfg, b)
      && (forall x :: x in b ==> x.col == c)
      && (forall x :: x in b ==> exists y :: y in g && x == y.(row := x.row) && x.row >= y.row)
  {
    SortedColumnFacts(cfg, g, c);
    StackOfColumn(cfg, g, SortByRowDesc(ColumnOf(g, c)), c);
  }

  /** Appending the compacted column `m` to the compacted columns below `m`
      keeps the grid well-formed: the two parts lie in different columns, and
      their blocks come from different blocks of the grid, whose ids differ. */
  lemma AppendColumnWellFormed(cfg: Config, g: seq<Block>, a: seq<Block>, b: seq<Block>, m: int, ab: seq<Block>)
    requires ab == a + b
    requires WellFormed(cfg, g) && WellFormed(cfg, a) && WellFormed(cfg, b)
    requires forall x :: x in a ==> x.col < m
    requires forall x :: x in b ==> x.col == m
    requires forall x :: x in a ==> exists y :: y in g && x == y.(row := x.row) && x.row >= y.row
    requires forall x :: x in b ==> exists y :: y in g && x == y.(row := x.row) && x.row >= y.row
    ensures WellFormed(cfg, ab)
  {
    forall i, j | 0 <= i < j < |ab|
      ensures ab[i].row != ab[j].row || ab[i].col != ab[j].col
      ensures ab[i].id != ab[j].id
    {
      if j < |a| {
        assert ab[i] == a[i] && ab[j] == a[j];
      } else if i >= |a| {
        assert ab[i] == b[i - |a|] && ab[j] == b[j - |a|];
      } else {
        var x, z := ab[i], ab[j];
        assert x == a[i] && z == b[j - |a|];
        assert x in a && z in b;
        var y1 :| y1 in g && x == y1.(row := x.row) && x.row >= y1.row;
        var y2 :| y2 in g && z == y2.(row := z.row) && z.row >= y2.row;
        var k1 :| 0 <= k1 < |g| && g[k1] == y1;
        var k2 :| 0 <= k2 < |g| && g[k2] == y2;
        assert y1.col < m == y2.col;
        assert k1 < k2 || k2 < k1;
      }
    }
  }

  /** After the first `n` columns are compacted, every block is a block of
      one of those columns of the grid that has fallen (or stayed) with id,
      value and column unchanged. */
  lemma {:induction false} GravityUpToProvenance(cfg: Config, g: seq<Block>, n: nat)
    requires WellFormed(cfg, g) && n <= cfg.cols
    ensures forall x: Block :: x in GravityUpTo(g, cfg.rows, n) ==>
      && x.col < n
      && exists y :: y in g && x == y.(row := x.row) && x.row >= y.row
  {
    if n > 0 {
      var m: nat :| m + 1 == n;
      var a := GravityUpTo(g, cfg.rows, m);
      var b := Stack(cfg.rows, SortByRowDesc(ColumnOf(g, m)));
      assert GravityUpTo(g, cfg.rows, n) == a + b;
      GravityUpToProvenance(cfg, g, m);
      StackedColumnWellFormed(cfg, g, m);
      forall x: Block | x in a + b
        ensures x.col < n
        ensures exists y :: y in g && x == y.(row := x.row) && x.row >= y.row
      {
        if x !in a {
          assert x in b;
        }
      }
    }
  }

  /** After the first `n` columns are compacted the grid is well-formed. */
  lemma {:induction false} GravityUpToWellFormed(cfg: Config, g: seq<Block>, n: nat)
    requires WellFormed(cfg, g) && n <= cfg.cols
    ensures WellFormed(cfg, GravityUpTo(g, cfg.rows, n))
  {
    if n > 0 {
      var m: nat :| m + 1 == n;
      var a := GravityUpTo(g, cfg.rows, m);
      var b := Stack(cfg.rows, SortByRowDesc(ColumnOf(g, m)));
      GravityUpToWellFormed(cfg, g, m);
      GravityUpToProvenance(cfg, g, m);
      StackedColumnWellFormed(cfg, g, m);
      AppendColumnWellFormed(cfg, g, a, b, m, GravityUpTo(g, cfg.rows, n));
    }
  }

  /** Gravity keeps a well-formed grid well-formed, and every block after it
      is a block of the grid that has fallen (or stayed) with id, value and
      column unchanged. */
  lemma GravityKeepsWellFormed(cfg: Config, g: seq<Block>)
    requires WellFormed(cfg, g)
    ensures WellFormed(cfg, AfterGravity(cfg, g))
    ensures forall x :: x in AfterGravity(cfg, g) ==>
      exists y :: y in g && x == y.(row := x.row) && x.row >= y.row
  {
    GravityUpToWellFormed(cfg, g, cfg.cols);
    GravityUpToProvenance(cfg, g, cfg.cols);
  }

  /** The number of blocks in columns 0 to `n - 1`. */
  function CountBelow(g: seq<Block>, n: int): nat {
    if g == [] then 0
    else (if 0 <= g[0].col < n then 1 else 0) + CountBelow(g[1..], n)
  }

  lemma {:induction false} CountStep(g: seq<Block>, n: nat)
    requires n > 0
    ensures CountBelow(g, n) == CountBelow(g, n - 1) + |ColumnOf(g, n - 1)|
  {
    if g != [] {
      CountStep(g[1..], n);
    }
  }

  lemma {:induction false} CountAll(g: seq<Block>, cols: nat)
    requires forall x :: x in g ==> 0 <= x.col < cols
    ensures CountBelow(g, cols) == |g|
  {
    if g != [] {
      assert g[0] in g;
      CountAll(g[1..], cols);
    }
  }

  lemma {:induction false} GravityUpToCount(g: seq<Block>, rows: int, n: nat)
    ensures |GravityUpTo(g, rows, n)| == CountBelow(g, n)
  {
    if n > 0 {
      GravityUpToCount(g, rows, n - 1);
      CountStep(g, n);
      var column := ColumnOf(g, n - 1);
      var stacked := Stack(rows, SortByRowDesc(column));
      assert |stacked| == |column|;
      assert GravityUpTo(g, rows, n) == GravityUpTo(g, rows, n - 1) + stacked;
      assert |GravityUpTo(g, rows, n)| == CountBelow(g, n - 1) + |column|;
    } else {
      CountZero(g);
      assert GravityUpTo(g, rows, n) == [];
    }
  }

  lemma {:induction false} CountZero(g: seq<Block>)
    ensures CountBelow(g, 0) == 0
  {
    if g != [] {
      CountZero(g[1..]);
    }
  }

  /** Gravity keeps the number of blocks on a board whose columns are in range. */
  lemma GravityKeepsCount(cfg: Config, g: seq<Block>)
    requires forall x :: x in g ==> 0 <= x.col < cfg.cols
    ensures |AfterGravity(cfg, g)| == |g|
  {
    GravityUpToCount(g, cfg.rows, cfg.cols);
    CountAll(g, cfg.cols);
  }
}
