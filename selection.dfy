/** The player's selection: an ordered list of block ids toggled by clicks. */
module Selection {

  predicate NoDup(s: seq<nat>) {
    forall i, j :: 0 <= i < j < |s| ==> s[i] != s[j]
  }

  /** The selection with every occurrence of `id` removed, order kept. */
  function Without(sel: seq<nat>, id: nat): (r: seq<nat>)
    ensures forall x :: x in r <==> x in sel && x != id
    ensures multiset(r) == multiset(sel)[id := 0]
    ensures |r| <= |sel|
  {
    if sel == [] then []
    else
      assert sel == [sel[0]] + sel[1..];
      (if sel[0] == id then [] else [sel[0]]) + Without(sel[1..], id)
  }

  /** A click on block `id`: deselect it when it is selected, otherwise append it. */
  function Toggle(sel: seq<nat>, id: nat): (r: seq<nat>)
    ensures id in sel ==> id !in r && multiset(r) == multiset(sel)[id := 0]
    ensures id !in sel ==> |r| == |sel| + 1 && r[|sel|] == id && r[..|sel|] == sel
  {
    if id in sel then Without(sel, id) else sel + [id]
  }

  /** After a click on `id`, the selection holds the other ids it held, and
      `id` exactly when it did not hold it before. */
  lemma ToggleMembers(sel: seq<nat>, id: nat, x: nat)
    ensures x in Toggle(sel, id) <==> (x in sel && x != id) || (x == id && id !in sel)
  {
    if id !in sel {
      assert Toggle(sel, id) == sel + [id];
    }
  }

  lemma EmptyWithoutMembers(sel: seq<nat>)
    ensures (forall x :: x !in sel) ==> sel == []
  {
    if sel != [] {
      assert sel[0] in sel;
    }
  }

  /** Deselecting an id held once shortens the selection by one. */
  lemma {:induction false} WithoutOnce(sel: seq<nat>, id: nat)
    requires NoDup(sel) && id in sel
    ensures |Without(sel, id)| == |sel| - 1
  {
    if sel[0] == id {
      assert id !in sel[1..];
      WithoutAbsent(sel[1..], id);
    } else {
      WithoutOnce(sel[1..], id);
    }
  }

  lemma {:induction false} WithoutAbsent(sel: seq<nat>, id: nat)
    requires id !in sel
    ensures Without(sel, id) == sel
  {
    if sel != [] {
      WithoutAbsent(sel[1..], id);
    }
  }

  lemma {:induction false} WithoutKeepsOrder(a: seq<nat>, b: seq<nat>, id: nat)
    ensures Without(a + b, id) == Without(a, id) + Without(b, id)
  {
    if a == [] {
      assert a + b == b;
    } else {
      assert (a + b)[1..] == a[1..] + b;
      WithoutKeepsOrder(a[1..], b, id);
    }
  }

  /** Clicking an unselected id twice restores the selection exactly. */
  lemma ToggleTwiceRestores(sel: seq<nat>, id: nat)
    requires id !in sel
    ensures Toggle(Toggle(sel, id), id) == sel
  {
    WithoutKeepsOrder(sel, [id], id);
    WithoutAbsent(sel, id);
  }

  /** Clicking a selected id twice, in a selection without duplicates, gives
      back the same ids with `id` moved to the end. */
  lemma ToggleTwiceMovesToEnd(sel: seq<nat>, id: nat)
    requires id in sel && NoDup(sel)
    ensures var r := Toggle(Toggle(sel, id), id);
      multiset(r) == multiset(sel) && r[|r| - 1] == id
  {
    var w := Without(sel, id);
    assert id !in w;
    assert Toggle(Toggle(sel, id), id) == w + [id];
    NoDupOnce(sel, id);
  }

  lemma {:induction false} NoDupOnce(sel: seq<nat>, id: nat)
    requires id in sel && NoDup(sel)
    ensures multiset(sel)[id] == 1
  {
    assert sel == [sel[0]] + sel[1..];
    if sel[0] == id {
      assert id !in sel[1..];
    } else {
      NoDupOnce(sel[1..], id);
    }
  }

  /** Toggling never introduces a duplicate id. */
  lemma {:induction false} ToggleKeepsNoDup(sel: seq<nat>, id: nat)
    requires NoDup(sel)
    ensures NoDup(Toggle(sel, id))
  {
    if id in sel {
      WithoutKeepsNoDup(sel, id);
    }
  }

  lemma {:induction false} WithoutKeepsNoDup(sel: seq<nat>, id: nat)
    requires NoDup(sel)
    ensures NoDup(Without(sel, id))
  {
    if sel != [] {
      WithoutKeepsNoDup(sel[1..], id);
      var rest := Without(sel[1..], id);
      assert sel[0] !in sel[1..];
      assert sel[0] !in rest;
    }
  }
}
