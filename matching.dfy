/** Match evaluation: the sum of the selected blocks, their removal, and the
    difficulty range the next target is drawn from. */
module Matching {
  import opened Types
  import opened Board
  import opened Selection

  /** The grid blocks whose id is selected, in grid order. */
  function Selected(g: seq<Block>, sel: seq<nat>): (r: seq<Block>)
    ensures |r| <= |g|
  {
    if g == [] then []
    else (if g[0].id in sel then [g[0]] else []) + Selected(g[1..], sel)
  }

  /** The selected blocks are exactly the grid blocks whose id is selected. */
  lemma {:induction false} SelectedMembers(g: seq<Block>, sel: seq<nat>)
    ensures forall b :: b in Selected(g, sel) <==> b in g && b.id in sel
  {
    if g != [] {
      SelectedMembers(g[1..], sel);
      assert g == [g[0]] + g[1..];
    }
  }

  /** The grid blocks whose id is not selected, in grid order. */
  function Remaining(g: seq<Block>, sel: seq<nat>): (r: seq<Block>)
    ensures |r| <= |g|
  {
    if g == [] then []
    else (if g[0].id in sel then [] else [g[0]]) + Remaining(g[1..], sel)
  }

  /** The remaining blocks are exactly the grid blocks whose id is not selected. */
  lemma {:induction false} RemainingMembers(g: seq<Block>, sel: seq<nat>)
    ensures forall b :: b in Remaining(g, sel) <==> b in g && b.id !in sel
  {
    if g != [] {
      RemainingMembers(g[1..], sel);
      assert g == [g[0]] + g[1..];
    }
  }

  /** The sum of the values of the blocks, zero for none. */
  function Total(bs: seq<Block>): int {
    if bs == [] then 0 else bs[0].value + Total(bs[1..])
  }

  /** The current sum: values of the grid blocks whose id is selected. */
  function CurrentSum(g: seq<Block>, sel: seq<nat>): int {
    Total(Selected(g, sel))
  }

  lemma {:induction false} TotalConcat(a: seq<Block>, b: seq<Block>)
    ensures Total(a + b) == Total(a) + Total(b)
  {
    if a == [] {
      assert a + b == b;
    } else {
      assert (a + b)[1..] == a[1..] + b;
      TotalConcat(a[1..], b);
    }
  }

  /** The sum takes the first grid block into account, then the rest. */
  lemma SumStep(g: seq<Block>, sel: seq<nat>)
    requires g != []
    ensures CurrentSum(g, sel) == (if g[0].id in sel then g[0].value else 0) + CurrentSum(g[1..], sel)
    ensures Total(Remaining(g, sel)) == (if g[0].id in sel then 0 else g[0].value) + Total(Remaining(g[1..], sel))
  {
    var head := if g[0].id in sel then [g[0]] else [];
    TotalConcat(head, Selected(g[1..], sel));
    var rhead := if g[0].id in sel then [] else [g[0]];
    TotalConcat(rhead, Remaining(g[1..], sel));
  }

  /** Only which grid ids are selected matters: order, duplicates and ids
      with no block on the grid change neither the sum nor the remainder. */
  lemma {:induction false} OnlyPresentIdsMatter(g: seq<Block>, s1: seq<nat>, s2: seq<nat>)
    requires forall b :: b in g ==> (b.id in s1 <==> b.id in s2)
    ensures Selected(g, s1) == Selected(g, s2)
    ensures CurrentSum(g, s1) == CurrentSum(g, s2)
    ensures Remaining(g, s1) == Remaining(g, s2)
  {
    if g != [] {
      assert g[0] in g;
      OnlyPresentIdsMatter(g[1..], s1, s2);
      SumStep(g, s1);
      SumStep(g, s2);
    }
  }

  /** A selected id with no block on the grid contributes nothing. */
  lemma AbsentIdContributesNothing(g: seq<Block>, sel: seq<nat>, id: nat)
    requires forall b :: b in g ==> b.id != id
    ensures CurrentSum(g, sel + [id]) == CurrentSum(g, sel)
  {
    OnlyPresentIdsMatter(g, sel + [id], sel);
  }

  /** The selected and the remaining blocks split the grid: their counts and
      their sums add up to those of the whole grid. */
  lemma {:induction false} SelectionSplitsGrid(g: seq<Block>, sel: seq<nat>)
    ensures |Selected(g, sel)| + |Remaining(g, sel)| == |g|
    ensures CurrentSum(g, sel) + Total(Remaining(g, sel)) == Total(g)
  {
    if g != [] {
      SelectionSplitsGrid(g[1..], sel);
      SumStep(g, sel);
    }
  }

  /** With values in [1,9], the sum lies between the number of selected
      blocks and nine times that number. */
  lemma {:induction false} SumBounds(g: seq<Block>, sel: seq<nat>)
    requires forall b :: b in g ==> MIN_VALUE <= b.value <= MAX_VALUE
    ensures var n := |Selected(g, sel)|;
      n * MIN_VALUE <= CurrentSum(g, sel) <= n * MAX_VALUE
  {
    if g != [] {
      assert g[0] in g;
      SumBounds(g[1..], sel);
      SumStep(g, sel);
    }
  }

  /** Adding a grid block's id to the selection raises the sum by exactly its
      value, when ids on the grid are unique. */
  lemma {:induction false} SelectingAddsValue(g: seq<Block>, s1: seq<nat>, s2: seq<nat>, b: Block)
    requires DistinctBy(g, IdOf) && b in g && b.id !in s1
    requires forall x :: x in s2 <==> x in s1 || x == b.id
    ensures CurrentSum(g, s2) == CurrentSum(g, s1) + b.value
  {
    SumStep(g, s1);
    SumStep(g, s2);
    DistinctTail(g, IdOf);
    if g[0] == b {
      forall x | x in g[1..] ensures (x.id in s1 <==> x.id in s2) {
        assert IdOf(g[0]) != IdOf(x);
      }
      OnlyPresentIdsMatter(g[1..], s1, s2);
    } else {
      assert b in g[1..];
      assert IdOf(g[0]) != IdOf(b);
      SelectingAddsValue(g[1..], s1, s2, b);
    }
  }

  /** A click on a grid block changes the sum by exactly that block's value:
      up when it becomes selected, down when it is deselected. */
  lemma ToggleChangesSum(g: seq<Block>, sel: seq<nat>, b: Block)
    requires DistinctBy(g, IdOf) && b in g
    ensures CurrentSum(g, Toggle(sel, b.id)) ==
      if b.id in sel then CurrentSum(g, sel) - b.value else CurrentSum(g, sel) + b.value
  {
    if b.id in sel {
      SelectingAddsValue(g, Toggle(sel, b.id), sel, b);
    } else {
      SelectingAddsValue(g, sel, Toggle(sel, b.id), b);
    }
  }

  /** Removing the selected blocks keeps the grid well-formed. */
  lemma {:induction false} RemovalKeepsWellFormed(cfg: Config, g: seq<Block>, sel: seq<nat>)
    requires WellFormed(cfg, g)
    ensures WellFormed(cfg, Remaining(g, sel))
  {
    RemainingMembers(g, sel);
    FilterKeepsDistinct(g, sel, PosOf);
    FilterKeepsDistinct(g, sel, IdOf);
  }

  lemma {:induction false} FilterKeepsDistinct<K>(g: seq<Block>, sel: seq<nat>, key: Block -> K)
    requires DistinctBy(g, key)
    ensures DistinctBy(Remaining(g, sel), key)
  {
    if g != [] {
      DistinctTail(g, key);
      FilterKeepsDistinct(g[1..], sel, key);
      var rest := Remaining(g[1..], sel);
      RemainingMembers(g[1..], sel);
      DistinctConcat(if g[0].id in sel then [] else [g[0]], rest, key);
    }
  }

  /** With nothing on the grid selected, the sum is zero and nothing is removed. */
  lemma {:induction false} NothingSelected(g: seq<Block>, sel: seq<nat>)
    requires forall b :: b in g ==> b.id !in sel
    ensures Selected(g, sel) == [] && CurrentSum(g, sel) == 0
    ensures Remaining(g, sel) == g
  {
    if g != [] {
      assert g[0] in g;
      NothingSelected(g[1..], sel);
      assert g == [g[0]] + g[1..];
    }
  }

  /** When the selection holds no duplicate and only ids of blocks on a grid
      with unique ids, exactly one block is removed per selected id: the
      score awarded per selected id is the score per removed block. */
  lemma {:induction false} SelectedCount(g: seq<Block>, sel: seq<nat>)
    requires DistinctBy(g, IdOf) && NoDup(sel)
    requires forall id :: id in sel ==> id in IdSet(g)
    ensures |Selected(g, sel)| == |sel|
  {
    if g == [] {
      assert IdSet(g) == {};
      EmptyWithoutMembers(sel);
    } else {
      DistinctTail(g, IdOf);
      var id0 := g[0].id;
      forall id | id in sel && id != id0 ensures id in IdSet(g[1..]) {
        var b :| b in g && b.id == id;
        if b != g[0] {
          assert b in g[1..];
        }
      }
      if id0 in sel {
        var rest := Without(sel, id0);
        WithoutKeepsNoDup(sel, id0);
        WithoutOnce(sel, id0);
        forall b | b in g[1..] ensures (b.id in sel <==> b.id in rest) {
          assert IdOf(g[0]) != IdOf(b);
        }
        OnlyPresentIdsMatter(g[1..], sel, rest);
        SelectedCount(g[1..], rest);
      } else {
        SelectedCount(g[1..], sel);
      }
    }
  }

  lemma {:induction false} SelectedConcat(a: seq<Block>, b: seq<Block>, sel: seq<nat>)
    ensures Selected(a + b, sel) == Selected(a, sel) + Selected(b, sel)
  {
    if a == [] {
      assert a + b == b;
    } else {
      var head := if a[0].id in sel then [a[0]] else [];
      assert (a + b)[0] == a[0] && (a + b)[1..] == a[1..] + b;
      SelectedConcat(a[1..], b, sel);
      calc {
        Selected(a + b, sel);
        head + Selected(a[1..] + b, sel);
        head + (Selected(a[1..], sel) + Selected(b, sel));
        (head + Selected(a[1..], sel)) + Selected(b, sel);
      }
    }
  }

  lemma {:induction false} SumOfShiftUp(g: seq<Block>, sel: seq<nat>)
    ensures CurrentSum(ShiftUp(g), sel) == CurrentSum(g, sel)
  {
    if g != [] {
      assert ShiftUp(g)[1..] == ShiftUp(g[1..]);
      SumOfShiftUp(g[1..], sel);
      SumStep(ShiftUp(g), sel);
      SumStep(g, sel);
    }
  }

  /** A row injection leaves the sum of a selection of blocks already on the
      board unchanged: the shift keeps ids and values, and the new blocks
      carry fresh ids. */
  lemma SumAfterInjection(cfg: Config, g: seq<Block>, pool: int, values: seq<int>, firstId: nat, sel: seq<nat>)
    requires |values| >= cfg.cols
    requires forall id :: id in sel ==> id < firstId
    ensures CurrentSum(Injected(cfg, g, pool, values, firstId), sel) == CurrentSum(g, sel)
  {
    if !HasTopRow(g) {
      var row := BottomRow(cfg, Placed(pool, cfg.cols), values, firstId);
      SelectedConcat(ShiftUp(g), row, sel);
      TotalConcat(Selected(ShiftUp(g), sel), Selected(row, sel));
      SumOfShiftUp(g, sel);
      NothingSelected(row, sel);
    }
  }

  /** The difficulty multiplier: one step per 500 points. */
  function Multiplier(score: nat): nat {
    score / SCORE_PER_LEVEL
  }

  /** The lower and upper bound of the next target. */
  function TargetLow(cfg: Config, score: nat): int {
    cfg.targetMin + Multiplier(score) * 5
  }

  function TargetHigh(cfg: Config, score: nat): int {
    cfg.targetMax + Multiplier(score) * 10
  }

  /** The range is never empty, its lower bound is positive, and at score 0
      it is the base range [TARGET_MIN, TARGET_MAX] of session start. */
  lemma TargetRangeSound(cfg: Config, score: nat)
    requires ValidConfig(cfg)
    ensures 0 < cfg.targetMin <= TargetLow(cfg, score) <= TargetHigh(cfg, score)
    ensures TargetLow(cfg, 0) == cfg.targetMin && TargetHigh(cfg, 0) == cfg.targetMax
  {
  }

  /** Both bounds, and the width of the range, are non-decreasing in the score. */
  lemma TargetRangeMonotone(cfg: Config, s1: nat, s2: nat)
    requires s1 <= s2
    ensures TargetLow(cfg, s1) <= TargetLow(cfg, s2)
    ensures TargetHigh(cfg, s1) <= TargetHigh(cfg, s2)
    ensures TargetHigh(cfg, s1) - TargetLow(cfg, s1) <= TargetHigh(cfg, s2) - TargetLow(cfg, s2)
  {
    assert Multiplier(s1) <= Multiplier(s2);
  }
}
