/**
 * The scenarios of tests/diff.test.ts, derived from the general facts
 * about the script: one appended row is one insert at its position, one
 * dropped row is one delete at its position, and a replaced row is the
 * delete of the old row followed by the insert of the new one at the same
 * index.
 */
module Scenarios {
  import opened Types
  import opened EditGraph
  import opened EditScript
  import opened Furthest
  import opened Backtrace

  const Rab: Row := [Str("a"), Str("b")]
  const Rcd: Row := [Str("c"), Str("d")]

  /** A script of one item that is correct for two sequences differing by
      one row is that single item. */
  lemma SingleItem(a: seq<Row>, b: seq<Row>, item: DiffItem)
    requires Reconstructs(a, b, [item])
    requires EditDistance(a, b) % 2 == 1
    ensures |Script(a, b)| == 1
  {
    ScriptIsShortest(a, b, [item]);
    ScriptLength(a, b);
  }

  /** [Rab] to [Rab, Rcd]: the script is the insert of Rcd at new position 1. */
  lemma ScenarioInsert()
    ensures Script([Rab], [Rab, Rcd]) == [Insert(1, Rcd)]
  {
    var a, b := [Rab], [Rab, Rcd];
    var want := Insert(1, Rcd);
    DeletedInsertedSnoc([], want);
    assert [] + [want] == [want];
    assert Deleted([want]) == {} && Inserted([want]) == {1};
    assert Kept(a, {}) == [Rab];
    assert KeptBelow(b, {1}, 1) == [Rab];
    assert Kept(b, {1}) == [Rab];
    EditDistanceBounds(a, b);
    SingleItem(a, b, want);
    var ops := Script(a, b);
    ScriptCorrect(a, b);
    assert ops == [ops[0]];
    assert ItemFits(a, b, ops[0]);
    match ops[0]
    case Delete(i, row) =>
      assert false;
    case Insert(j, row) =>
      if j == 0 {
        assert false;
      }
  }

  /** [Rab, Rcd] to [Rab]: the script is the delete of Rcd at old position 1. */
  lemma ScenarioDelete()
    ensures Script([Rab, Rcd], [Rab]) == [Delete(1, Rcd)]
  {
    var a, b := [Rab, Rcd], [Rab];
    var want := Delete(1, Rcd);
    DeletedInsertedSnoc([], want);
    assert [] + [want] == [want];
    assert Deleted([want]) == {1} && Inserted([want]) == {};
    assert KeptBelow(a, {1}, 1) == [Rab];
    assert Kept(a, {1}) == [Rab];
    assert Kept(b, {}) == [Rab];
    EditDistanceBounds(a, b);
    SingleItem(a, b, want);
    var ops := Script(a, b);
    ScriptCorrect(a, b);
    assert ops == [ops[0]];
    assert ItemFits(a, b, ops[0]);
    match ops[0]
    case Insert(j, row) =>
      assert false;
    case Delete(i, row) =>
      if i == 0 {
        assert false;
      }
  }

  const R12: Row := [Str("1"), Str("2")]
  const R34: Row := [Str("3"), Str("4")]
  const R56: Row := [Str("5"), Str("6")]
  const R78: Row := [Str("7"), Str("8")]

  /** Two items of the same kind with different positions name two
      positions on that side and none on the other. */
  lemma TwoItems(ops: seq<DiffItem>)
    requires |ops| == 2 && Increasing(ops)
    ensures ops[0].Delete? && ops[1].Delete? ==> |Deleted(ops)| == 2 && Inserted(ops) == {}
    ensures ops[0].Insert? && ops[1].Insert? ==> |Inserted(ops)| == 2 && Deleted(ops) == {}
  {
    DeletedInsertedSnoc([], ops[0]);
    assert [] + [ops[0]] == [ops[0]];
    DeletedInsertedSnoc([ops[0]], ops[1]);
    assert [ops[0]] + [ops[1]] == ops;
    if ops[0].Delete? && ops[1].Delete? {
      assert Deleted(ops) == {ops[0].old_index, ops[1].old_index};
    }
    if ops[0].Insert? && ops[1].Insert? {
      assert Inserted(ops) == {ops[0].new_index, ops[1].new_index};
    }
  }

  /** Dropping position i from both sides leaves the rest of each. */
  lemma ReplaceKeeps(a: seq<Row>, b: seq<Row>, i: int, two: seq<DiffItem>)
    requires |a| == |b| && 0 <= i < |a|
    requires a[..i] == b[..i] && a[i + 1..] == b[i + 1..]
    requires two == [Delete(i, a[i]), Insert(i, b[i])]
    ensures Reconstructs(a, b, two)
  {
    DeletedInsertedSnoc([], two[0]);
    assert [] + [two[0]] == [two[0]];
    DeletedInsertedSnoc([two[0]], two[1]);
    assert [two[0]] + [two[1]] == two;
    assert Deleted(two) == {i} && Inserted(two) == {i};
    KeptStretch(a, {i}, 0, i);
    KeptStretch(a, {i}, i + 1, |a|);
    KeptStretch(b, {i}, 0, i);
    KeptStretch(b, {i}, i + 1, |b|);
    assert a[0..i] == a[..i] && b[0..i] == b[..i];
  }

  /** Replacing the row at position i by a different row gives a script of
      one delete and one insert. */
  lemma ReplacedRow(a: seq<Row>, b: seq<Row>, i: int)
    requires |a| == |b| && 0 <= i < |a| && a[i] != b[i]
    requires a[..i] == b[..i] && a[i + 1..] == b[i + 1..]
    ensures var ops := Script(a, b);
            && |ops| == 2
            && (exists t :: 0 <= t < |ops| && ops[t].Delete?)
            && (exists t :: 0 <= t < |ops| && ops[t].Insert?)
  {
    var ops := Script(a, b);
    assert a != b by { assert a[i] != b[i]; }
    var two := [Delete(i, a[i]), Insert(i, b[i])];
    ReplaceKeeps(a, b, i, two);
    ScriptIsShortest(a, b, two);
    ScriptEmptyIff(a, b);
    ScriptLength(a, b);
    EditDistanceBounds(a, b);
    assert |ops| == 2;
    ScriptCorrect(a, b);
    MixedPair(a, b, ops);
    var del, ins := if ops[0].Delete? then 0 else 1, if ops[0].Insert? then 0 else 1;
    assert ops[del].Delete? && ops[ins].Insert?;
  }

  /** [12, 34, 56] to [12, 78, 56]: the middle row changes, and the script
      is one delete and one insert. */
  lemma ScenarioReplace()
    ensures var ops := Script([R12, R34, R56], [R12, R78, R56]);
            && |ops| == 2
            && (exists i :: 0 <= i < |ops| && ops[i].Delete?)
            && (exists i :: 0 <= i < |ops| && ops[i].Insert?)
    ensures Script([R12, R34, R56], [R12, R78, R56]) == [Delete(1, R34), Insert(1, R78)]
  {
    var a, b := [R12, R34, R56], [R12, R78, R56];
    assert a[..1] == b[..1] && a[2..] == b[2..] && a[1] != b[1];
    ReplacedRow(a, b, 1);
    ScriptLength(a, b);
    ScriptOfNonEmpty(a, b);
    ReplaceBacktrack();
  }

  /** The forward pass on the replaced-row case: depth 0 slides over the
      equal first rows, and at depth 1 diagonal 1 gets further than
      diagonal -1, so depth 2 reaches diagonal 0 from diagonal 1. */
  lemma ReplaceSearch()
    ensures var a, b := [R12, R34, R56], [R12, R78, R56];
            && FR(a, b, 0, 0) == 1
            && PrevDiag(a, b, 1, 1) == 0 && FR(a, b, 1, 1) == 2
            && PrevDiag(a, b, 1, -1) == 0 && FR(a, b, 1, -1) == 1
            && PrevDiag(a, b, 2, 0) == 1
  {
    var a, b := [R12, R34, R56], [R12, R78, R56];
    assert R34[0] != R78[0] && R56[0] != R78[0] && R34[0] != R56[0];
    assert Match(a, b, 0, 0) && !Match(a, b, 1, 1);
    assert Slide(a, b, 1, 1) == 1;
    assert Slide(a, b, 0, 0) == 1;
    assert FR(a, b, 0, 0) == 1;
    assert !Match(a, b, 2, 1) && Slide(a, b, 2, 1) == 2;
    assert Start(a, b, 1, 1) == 2;
    assert !Match(a, b, 1, 2) && Slide(a, b, 1, 2) == 1;
    assert Start(a, b, 1, -1) == 1;
  }

  /** The backward pass on the replaced-row case: the insert of the new
      row at depth 2, preceded by the delete of the old row at depth 1. */
  lemma ReplaceBacktrack()
    ensures var a, b := [R12, R34, R56], [R12, R78, R56];
            && OnPath(a, b, 2, 0)
            && Backtrack(a, b, 2, 0) == [Delete(1, R34), Insert(1, R78)]
  {
    var a, b := [R12, R34, R56], [R12, R78, R56];
    ReplaceSearch();
    assert FR(a, b, 2, 0) == 3 by {
      assert Start(a, b, 2, 0) == 2;
      assert Match(a, b, 2, 2) && !Match(a, b, 3, 3);
      assert Slide(a, b, 3, 3) == 3;
      assert Slide(a, b, 2, 2) == 3;
    }
    assert OnPath(a, b, 1, 1) && OnPath(a, b, 0, 0);
    assert StepItem(a, b, 1, 1) == Delete(1, R34);
    assert Backtrack(a, b, 1, 1) == [] + [Delete(1, R34)];
    assert StepItem(a, b, 2, 0) == Insert(1, R78);
  }

  /** Between sequences of equal length, a correct two-item script cannot
      delete twice (the old side would keep two rows fewer than the new
      side) nor insert twice. */
  lemma MixedPair(a: seq<Row>, b: seq<Row>, ops: seq<DiffItem>)
    requires |a| == |b| && |ops| == 2
    requires WellFormed(a, b, ops) && Increasing(ops) && Reconstructs(a, b, ops)
    ensures !(ops[0].Delete? && ops[1].Delete?) && !(ops[0].Insert? && ops[1].Insert?)
  {
    TwoItems(ops);
    KeptBelowLength(a, Deleted(ops), |a|);
    KeptBelowLength(b, Inserted(ops), |b|);
    assert forall t :: 0 <= t < |ops| ==> ItemFits(a, b, ops[t]) && Before(ops[t], |a|, |b|);
    PositionsWithin(a, b, ops, |a|, |b|);
    assert Below(Deleted(ops), |a|) == Deleted(ops);
    assert Below(Inserted(ops), |b|) == Inserted(ops);
  }
}
