/**
 * What a list of DiffItem values means as an edit script from `a` (old
 * rows) to `b` (new rows): the Delete items name old positions to drop, the
 * Insert items name new positions to add, and the rows left over on both
 * sides must agree.
 */
module EditScript {
  import opened Types
  import opened EditGraph

  /** The old positions the script deletes. */
  function Deleted(ops: seq<DiffItem>): set<int>
    decreases |ops|
  {
    if |ops| == 0 then {}
    else
      var last := ops[|ops| - 1];
      Deleted(ops[..|ops| - 1]) + (if last.Delete? then {last.old_index} else {})
  }

  /** The new positions the script inserts. */
  function Inserted(ops: seq<DiffItem>): set<int>
    decreases |ops|
  {
    if |ops| == 0 then {}
    else
      var last := ops[|ops| - 1];
      Inserted(ops[..|ops| - 1]) + (if last.Insert? then {last.new_index} else {})
  }

  /** An item names a row that exists and carries that row. */
  predicate ItemFits(a: seq<Row>, b: seq<Row>, op: DiffItem) {
    match op
    case Delete(i, row) => 0 <= i < |a| && row == a[i]
    case Insert(j, row) => 0 <= j < |b| && row == b[j]
  }

  predicate WellFormed(a: seq<Row>, b: seq<Row>, ops: seq<DiffItem>) {
    forall i :: 0 <= i < |ops| ==> ItemFits(a, b, ops[i])
  }

  /** Deletes come in increasing old position and inserts in increasing new
      position. */
  predicate Increasing(ops: seq<DiffItem>) {
    forall i, j :: 0 <= i < j < |ops| ==>
      (ops[i].Delete? && ops[j].Delete? ==> ops[i].old_index < ops[j].old_index) &&
      (ops[i].Insert? && ops[j].Insert? ==> ops[i].new_index < ops[j].new_index)
  }

  /** Dropping the deleted old rows and the inserted new rows leaves the same
      sequence on both sides: the rows the script keeps. */
  predicate Reconstructs(a: seq<Row>, b: seq<Row>, ops: seq<DiffItem>) {
    Kept(a, Deleted(ops)) == Kept(b, Inserted(ops))
  }

  /** The script keeps the same rows of the prefixes a[..x] and b[..y]. */
  predicate KeepsUpTo(a: seq<Row>, b: seq<Row>, ops: seq<DiffItem>, x: int, y: int) {
    0 <= x <= |a| && 0 <= y <= |b| && KeptBelow(a, Deleted(ops), x) == KeptBelow(b, Inserted(ops), y)
  }

  /** The script touches only positions before (x, y). */
  predicate PositionsBefore(ops: seq<DiffItem>, x: int, y: int) {
    (forall i :: i in Deleted(ops) ==> 0 <= i < x) && (forall j :: j in Inserted(ops) ==> 0 <= j < y)
  }

  /** The item's own position lies before (x, y). */
  predicate Before(op: DiffItem, x: int, y: int) {
    match op
    case Delete(i, _) => i < x
    case Insert(j, _) => j < y
  }

  /** A well-formed script whose every item lies before (x, y) touches only
      positions before (x, y). */
  lemma PositionsWithin(a: seq<Row>, b: seq<Row>, ops: seq<DiffItem>, x: int, y: int)
    requires WellFormed(a, b, ops)
    requires forall t :: 0 <= t < |ops| ==> Before(ops[t], x, y)
    ensures PositionsBefore(ops, x, y)
  {
    forall i | i in Deleted(ops)
      ensures 0 <= i < x
    {
      DeletedInsertedMembers(ops, i);
      var t :| 0 <= t < |ops| && ops[t].Delete? && ops[t].old_index == i;
      assert ItemFits(a, b, ops[t]) && Before(ops[t], x, y);
    }
    forall j | j in Inserted(ops)
      ensures 0 <= j < y
    {
      DeletedInsertedMembers(ops, j);
      var t :| 0 <= t < |ops| && ops[t].Insert? && ops[t].new_index == j;
      assert ItemFits(a, b, ops[t]) && Before(ops[t], x, y);
    }
  }

  /** Appending an item adds at most its own position. */
  lemma DeletedInsertedSnoc(ops: seq<DiffItem>, op: DiffItem)
    ensures Deleted(ops + [op]) == Deleted(ops) + (if op.Delete? then {op.old_index} else {})
    ensures Inserted(ops + [op]) == Inserted(ops) + (if op.Insert? then {op.new_index} else {})
  {
    assert (ops + [op])[..|ops|] == ops;
  }

  /** Every Delete item's position is in Deleted, every Insert item's in
      Inserted, and nothing else is. */
  lemma {:induction false} DeletedInsertedMembers(ops: seq<DiffItem>, p: int)
    ensures p in Deleted(ops) <==> exists i :: 0 <= i < |ops| && ops[i].Delete? && ops[i].old_index == p
    ensures p in Inserted(ops) <==> exists i :: 0 <= i < |ops| && ops[i].Insert? && ops[i].new_index == p
    decreases |ops|
  {
    if |ops| > 0 {
      var init := ops[..|ops| - 1];
      DeletedInsertedMembers(init, p);
      assert ops == init + [ops[|ops| - 1]];
      DeletedInsertedSnoc(init, ops[|ops| - 1]);
      if p in Deleted(ops) && p !in Deleted(init) {
        assert ops[|ops| - 1].Delete? && ops[|ops| - 1].old_index == p;
      }
      if p in Inserted(ops) && p !in Inserted(init) {
        assert ops[|ops| - 1].Insert? && ops[|ops| - 1].new_index == p;
      }
    }
  }

  /** Appending an insert of new position y0 to a script that keeps equal
      rows up to (x0, y0), followed by matching rows up to (x, y), keeps
      equal rows up to (x, y). */
  lemma KeptAfterInsertItem(a: seq<Row>, b: seq<Row>, prev: seq<DiffItem>, ops: seq<DiffItem>, x0: int, y0: int, x: int, y: int)
    requires 0 <= x0 <= x <= |a| && 0 <= y0 < y <= |b|
    requires ops == prev + [Insert(y0, b[y0])]
    requires KeepsUpTo(a, b, prev, x0, y0) && PositionsBefore(prev, x0, y0)
    requires a[x0..x] == b[y0 + 1..y]
    ensures KeepsUpTo(a, b, ops, x, y)
  {
    DeletedInsertedSnoc(prev, Insert(y0, b[y0]));
    assert Deleted(ops) == Deleted(prev) && Inserted(ops) == Inserted(prev) + {y0};
    KeptAfterInsert(a, b, Deleted(prev), Inserted(prev), x0, y0, x, y);
  }

  /** The same for a delete of old position x0. */
  lemma KeptAfterDeleteItem(a: seq<Row>, b: seq<Row>, prev: seq<DiffItem>, ops: seq<DiffItem>, x0: int, y0: int, x: int, y: int)
    requires 0 <= x0 < x <= |a| && 0 <= y0 <= y <= |b|
    requires ops == prev + [Delete(x0, a[x0])]
    requires KeepsUpTo(a, b, prev, x0, y0) && PositionsBefore(prev, x0, y0)
    requires a[x0 + 1..x] == b[y0..y]
    ensures KeepsUpTo(a, b, ops, x, y)
  {
    DeletedInsertedSnoc(prev, Delete(x0, a[x0]));
    assert Deleted(ops) == Deleted(prev) + {x0} && Inserted(ops) == Inserted(prev);
    KeptAfterDelete(a, b, Deleted(prev), Inserted(prev), x0, y0, x, y);
  }

  /** The empty script is correct exactly for equal sequences. */
  lemma EmptyScript(a: seq<Row>, b: seq<Row>)
    ensures Reconstructs(a, b, []) <==> a == b
  {
    assert Deleted([]) == {} && Inserted([]) == {};
    KeptStretch(a, Deleted([]), 0, |a|);
    KeptStretch(b, Inserted([]), 0, |b|);
    assert a[0..|a|] == a && b[0..|b|] == b;
    assert Kept(a, Deleted([])) == a;
    assert Kept(b, Inserted([])) == b;
  }

  /** A script names at most as many positions as it has items. */
  lemma {:induction false} PositionsBound(ops: seq<DiffItem>)
    ensures |Deleted(ops)| + |Inserted(ops)| <= |ops|
    decreases |ops|
  {
    if |ops| > 0 {
      PositionsBound(ops[..|ops| - 1]);
    }
  }

  /** No correct script is shorter than the edit distance. */
  lemma EditDistanceIsMinimal(a: seq<Row>, b: seq<Row>, ops: seq<DiffItem>)
    requires Reconstructs(a, b, ops)
    ensures EditDistance(a, b) <= |ops|
  {
    var dels, ins := Deleted(ops), Inserted(ops);
    KeptLowerBound(a, b, dels, ins, |a|, |b|);
    assert Below(dels, |a|) <= dels;
    assert Below(ins, |b|) <= ins;
    SubsetSize(Below(dels, |a|), dels);
    SubsetSize(Below(ins, |b|), ins);
    PositionsBound(ops);
  }

  lemma SubsetSize(s: set<int>, t: set<int>)
    requires s <= t
    ensures |s| <= |t|
  {
    assert t == s + (t - s);
  }
}
