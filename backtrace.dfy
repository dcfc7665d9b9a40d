/**
 * The script `myersDiff` returns, as a pure function of the two sequences,
 * and what is proved about it: it is a well-formed, ordered edit script
 * from the old rows to the new rows, and no correct script is shorter.
 */
module Backtrace {
  import opened Types
  import opened EditGraph
  import opened Furthest
  import opened EditScript

  /** Diagonal k at depth d lies on a path that ends inside the grid. */
  ghost predicate OnPath(a: seq<Row>, b: seq<Row>, d: int, k: int) {
    Diag(d, k) && FR(a, b, d, k) <= |a| && FR(a, b, d, k) - k <= |b|
  }

  /** Where the backtrace steps from (d, k): the predecessor diagonal is on
      the path as well, and the row the step inserts or deletes exists. */
  lemma PredecessorOnPath(a: seq<Row>, b: seq<Row>, d: int, k: int)
    requires OnPath(a, b, d, k) && d >= 1
    ensures var p := PrevDiag(a, b, d, k);
            var px := FR(a, b, d - 1, p);
            && OnPath(a, b, d - 1, p)
            && 0 <= px && 0 <= px - p
            && (p == k + 1 ==> px - p < |b| && Start(a, b, d, k) == px)
            && (p == k - 1 ==> px < |a| && Start(a, b, d, k) == px + 1)
  {
    PrevDiagVisited(a, b, d, k);
    FRLower(a, b, d - 1, PrevDiag(a, b, d, k));
    FRLower(a, b, d, k);
  }

  /** The item the backward pass emits for the step into diagonal k at
      depth d: an insert of the new row below the predecessor's end point,
      or a delete of the old row to its right. */
  ghost function StepItem(a: seq<Row>, b: seq<Row>, d: int, k: int): DiffItem
    requires OnPath(a, b, d, k) && d >= 1
  {
    PredecessorOnPath(a, b, d, k);
    var p := PrevDiag(a, b, d, k);
    var px := FR(a, b, d - 1, p);
    if p == k + 1 then Insert(px - p, b[px - p]) else Delete(px, a[px])
  }

  /** The items the backward pass emits while walking from diagonal k at
      depth d back to the origin, in path order. */
  ghost function Backtrack(a: seq<Row>, b: seq<Row>, d: int, k: int): seq<DiffItem>
    requires OnPath(a, b, d, k)
    decreases d
  {
    if d == 0 then []
    else
      PredecessorOnPath(a, b, d, k);
      Backtrack(a, b, d - 1, PrevDiag(a, b, d, k)) + [StepItem(a, b, d, k)]
  }

  /** The step back from (d, k) to its predecessor p, whose end point is
      (px, px - p): the predecessor is on the path, the snake of (d, k)
      starts one step past that end point, and the backtrace gains the
      insert or delete of that step. */
  lemma StepFacts(a: seq<Row>, b: seq<Row>, d: int, k: int, p: int, px: int)
    requires OnPath(a, b, d, k) && d >= 1
    requires p == PrevDiag(a, b, d, k) && px == FR(a, b, d - 1, p)
    ensures OnPath(a, b, d - 1, p) && 0 <= px && 0 <= px - p
    ensures || (p == k + 1 && px - p < |b| && Start(a, b, d, k) == px
                && Backtrack(a, b, d, k) == Backtrack(a, b, d - 1, p) + [Insert(px - p, b[px - p])])
            || (p == k - 1 && px < |a| && Start(a, b, d, k) == px + 1
                && Backtrack(a, b, d, k) == Backtrack(a, b, d - 1, p) + [Delete(px, a[px])])
  {
    PredecessorOnPath(a, b, d, k);
  }

  /** Between the step's item and the end point x lies a snake: the rows
      after the inserted or deleted one match pairwise up to (x, x - k). */
  lemma StepSnake(a: seq<Row>, b: seq<Row>, d: int, k: int, p: int, px: int, x: int)
    requires OnPath(a, b, d, k) && d >= 1
    requires p == PrevDiag(a, b, d, k) && px == FR(a, b, d - 1, p) && x == FR(a, b, d, k)
    ensures p == k + 1 ==> && 0 <= px <= x <= |a| && 0 <= px - p < x - k <= |b|
                           && a[px..x] == b[px - p + 1..x - k]
    ensures p == k - 1 ==> && 0 <= px < x <= |a| && 0 <= px - p <= x - k <= |b|
                           && a[px + 1..x] == b[px - p..x - k]
  {
    StepFacts(a, b, d, k, p, px);
    var s := Start(a, b, d, k);
    SlideRun(a, b, s, s - k);
  }

  /** Every row of an empty old sequence's counterpart is inserted. */
  function InsertAll(b: seq<Row>): seq<DiffItem> {
    seq(|b|, j requires 0 <= j < |b| => Insert(j, b[j]))
  }

  /** Every row is deleted when the new sequence is empty. */
  function DeleteAll(a: seq<Row>): seq<DiffItem> {
    seq(|a|, i requires 0 <= i < |a| => Delete(i, a[i]))
  }

  /** What `myersDiff(a, b)` returns. */
  ghost function Script(a: seq<Row>, b: seq<Row>): seq<DiffItem> {
    if |a| == 0 then InsertAll(b)
    else if |b| == 0 then DeleteAll(a)
    else
      ReachesCorner(a, b);
      Backtrack(a, b, EditDistance(a, b), |a| - |b|)
  }

  lemma ScriptOfNonEmpty(a: seq<Row>, b: seq<Row>)
    requires |a| > 0 && |b| > 0
    ensures OnPath(a, b, EditDistance(a, b), |a| - |b|)
    ensures Script(a, b) == Backtrack(a, b, EditDistance(a, b), |a| - |b|)
  {
    ReachesCorner(a, b);
  }

  /** The backtrace from (d, k) has one item per depth, each naming an
      existing row before the end point, in increasing order. */
  lemma {:induction false} BacktrackShape(a: seq<Row>, b: seq<Row>, d: int, k: int)
    requires OnPath(a, b, d, k)
    ensures var ops := Backtrack(a, b, d, k);
            && |ops| == d
            && WellFormed(a, b, ops)
            && Increasing(ops)
            && forall i :: 0 <= i < |ops| ==> Before(ops[i], FR(a, b, d, k), FR(a, b, d, k) - k)
    decreases d
  {
    if d > 0 {
      PredecessorOnPath(a, b, d, k);
      var p := PrevDiag(a, b, d, k);
      BacktrackShape(a, b, d - 1, p);
      StartDominates(a, b, d, k);
    }
  }

  /** The backtrace ops from (d, k) deletes only positions before x and
      inserts only positions before y, where (x, y) is the end point. */
  lemma BacktrackPositions(a: seq<Row>, b: seq<Row>, d: int, k: int, x: int, ops: seq<DiffItem>)
    requires OnPath(a, b, d, k) && x == FR(a, b, d, k) && ops == Backtrack(a, b, d, k)
    ensures PositionsBefore(ops, x, x - k)
  {
    BacktrackShape(a, b, d, k);
    PositionsWithin(a, b, ops, x, x - k);
  }

  /** The backtrace ops from (d, k) leaves the same rows on both sides of
      the prefixes a[..x] and b[..y] it covers, where (x, y) is the end
      point: at depth 0 the snake from the origin, otherwise the
      predecessor's kept rows, one insert or delete, then the snake. */
  lemma {:induction false} BacktrackKeeps(a: seq<Row>, b: seq<Row>, d: int, k: int, x: int, ops: seq<DiffItem>)
    requires OnPath(a, b, d, k) && x == FR(a, b, d, k) && ops == Backtrack(a, b, d, k)
    ensures KeepsUpTo(a, b, ops, x, x - k)
    decreases d
  {
    if d == 0 {
      BacktrackKeepsOrigin(a, b, d, k, x, ops);
    } else {
      var p := PrevDiag(a, b, d, k);
      var px := FR(a, b, d - 1, p);
      var prev := Backtrack(a, b, d - 1, p);
      PredecessorOnPath(a, b, d, k);
      BacktrackKeeps(a, b, d - 1, p, px, prev);
      if p == k + 1 {
        BacktrackKeepsInsert(a, b, d, k, x, ops, p, px, prev);
      } else {
        BacktrackKeepsDelete(a, b, d, k, x, ops, p, px, prev);
      }
    }
  }

  /** A step back from depth d >= 1 through an insert: the predecessor's
      kept rows, the inserted new row, then the snake. */
  lemma BacktrackKeepsInsert(a: seq<Row>, b: seq<Row>, d: int, k: int, x: int, ops: seq<DiffItem>, p: int, px: int, prev: seq<DiffItem>)
    requires OnPath(a, b, d, k) && d >= 1 && x == FR(a, b, d, k) && ops == Backtrack(a, b, d, k)
    requires p == PrevDiag(a, b, d, k) && OnPath(a, b, d - 1, p) && px == FR(a, b, d - 1, p) && prev == Backtrack(a, b, d - 1, p)
    requires KeepsUpTo(a, b, prev, px, px - p) && p == k + 1
    ensures KeepsUpTo(a, b, ops, x, x - k)
  {
    InsertStepFacts(a, b, d, k, p, px, x, ops, prev);
    BacktrackPositions(a, b, d - 1, p, px, prev);
    KeptAfterInsertItem(a, b, prev, ops, px, px - p, x, x - k);
  }

  /** A step back through an insert, as plain facts about its end points:
      the item is the insert of new row px - p, followed by a snake. */
  lemma InsertStepFacts(a: seq<Row>, b: seq<Row>, d: int, k: int, p: int, px: int, x: int, ops: seq<DiffItem>, prev: seq<DiffItem>)
    requires OnPath(a, b, d, k) && d >= 1 && p == k + 1
    requires p == PrevDiag(a, b, d, k) && px == FR(a, b, d - 1, p) && x == FR(a, b, d, k)
    requires ops == Backtrack(a, b, d, k) && OnPath(a, b, d - 1, p) && prev == Backtrack(a, b, d - 1, p)
    ensures 0 <= px <= x <= |a| && 0 <= px - p < x - k <= |b|
    ensures ops == prev + [Insert(px - p, b[px - p])]
    ensures a[px..x] == b[px - p + 1..x - k]
  {
    StepFacts(a, b, d, k, p, px);
    StepSnake(a, b, d, k, p, px, x);
  }

  /** A step back from depth d >= 1 through a delete: the predecessor's
      kept rows, the deleted old row, then the snake. */
  lemma BacktrackKeepsDelete(a: seq<Row>, b: seq<Row>, d: int, k: int, x: int, ops: seq<DiffItem>, p: int, px: int, prev: seq<DiffItem>)
    requires OnPath(a, b, d, k) && d >= 1 && x == FR(a, b, d, k) && ops == Backtrack(a, b, d, k)
    requires p == PrevDiag(a, b, d, k) && OnPath(a, b, d - 1, p) && px == FR(a, b, d - 1, p) && prev == Backtrack(a, b, d - 1, p)
    requires KeepsUpTo(a, b, prev, px, px - p) && p != k + 1
    ensures KeepsUpTo(a, b, ops, x, x - k)
  {
    DeleteStepFacts(a, b, d, k, p, px, x, ops, prev);
    BacktrackPositions(a, b, d - 1, p, px, prev);
    KeptAfterDeleteItem(a, b, prev, ops, px, px - p, x, x - k);
  }

  /** A step back through a delete, as plain facts about its end points:
      the item is the delete of old row px, followed by a snake. */
  lemma DeleteStepFacts(a: seq<Row>, b: seq<Row>, d: int, k: int, p: int, px: int, x: int, ops: seq<DiffItem>, prev: seq<DiffItem>)
    requires OnPath(a, b, d, k) && d >= 1 && p != k + 1
    requires p == PrevDiag(a, b, d, k) && px == FR(a, b, d - 1, p) && x == FR(a, b, d, k)
    requires ops == Backtrack(a, b, d, k) && OnPath(a, b, d - 1, p) && prev == Backtrack(a, b, d - 1, p)
    ensures p == k - 1 && 0 <= px < x <= |a| && 0 <= px - p <= x - k <= |b|
    ensures ops == prev + [Delete(px, a[px])]
    ensures a[px + 1..x] == b[px - p..x - k]
  {
    StepFacts(a, b, d, k, p, px);
    StepSnake(a, b, d, k, p, px, x);
  }

  /** At depth 0 the path is the snake from the origin, which keeps every
      row it passes. */
  lemma BacktrackKeepsOrigin(a: seq<Row>, b: seq<Row>, d: int, k: int, x: int, ops: seq<DiffItem>)
    requires OnPath(a, b, d, k) && d == 0 && x == FR(a, b, d, k) && ops == Backtrack(a, b, d, k)
    ensures KeepsUpTo(a, b, ops, x, x - k)
  {
    assert k == 0 && Start(a, b, d, k) == 0;
    SlideRun(a, b, 0, 0);
    assert ops == [];
    assert Deleted(ops) == {} && Inserted(ops) == {};
    KeptSnake(a, b, {}, {}, 0, 0, x, x);
  }

  /** Every item of the script names an existing row of its side. */
  lemma ScriptWellFormed(a: seq<Row>, b: seq<Row>)
    ensures WellFormed(a, b, Script(a, b)) && Increasing(Script(a, b))
  {
    if |a| > 0 && |b| > 0 {
      ReachesCorner(a, b);
      BacktrackShape(a, b, EditDistance(a, b), |a| - |b|);
    }
  }

  /** Applying the script to the old rows yields the new rows: the kept
      rows of both sides agree. */
  lemma ScriptReconstructs(a: seq<Row>, b: seq<Row>)
    ensures Reconstructs(a, b, Script(a, b))
  {
    var ops := Script(a, b);
    if |a| == 0 {
      forall j | 0 <= j < |b|
        ensures j in Inserted(ops)
      {
        DeletedInsertedMembers(ops, j);
        assert ops[j].Insert? && ops[j].new_index == j;
      }
      KeptNothing(b, Inserted(ops), |b|);
    } else if |b| == 0 {
      forall i | 0 <= i < |a|
        ensures i in Deleted(ops)
      {
        DeletedInsertedMembers(ops, i);
        assert ops[i].Delete? && ops[i].old_index == i;
      }
      KeptNothing(a, Deleted(ops), |a|);
    } else {
      ReachesCorner(a, b);
      BacktrackKeeps(a, b, EditDistance(a, b), |a| - |b|, FR(a, b, EditDistance(a, b), |a| - |b|), ops);
    }
  }

  /** The script has exactly as many items as the edit distance. */
  lemma ScriptLength(a: seq<Row>, b: seq<Row>)
    ensures |Script(a, b)| == EditDistance(a, b)
  {
    if |a| == 0 {
      CostAlongTop(a, b, |b|);
    } else if |b| == 0 {
      CostAlongLeft(a, b, |a|);
    } else {
      ReachesCorner(a, b);
      BacktrackShape(a, b, EditDistance(a, b), |a| - |b|);
    }
  }

  /** The four facts `myersDiff` promises of its result, together. */
  lemma ScriptCorrect(a: seq<Row>, b: seq<Row>)
    ensures WellFormed(a, b, Script(a, b)) && Increasing(Script(a, b))
    ensures Reconstructs(a, b, Script(a, b)) && |Script(a, b)| == EditDistance(a, b)
  {
    ScriptWellFormed(a, b);
    ScriptReconstructs(a, b);
    ScriptLength(a, b);
  }

  /** No correct edit script is shorter than the one `myersDiff` returns. */
  lemma ScriptIsShortest(a: seq<Row>, b: seq<Row>, ops: seq<DiffItem>)
    requires Reconstructs(a, b, ops)
    ensures |Script(a, b)| <= |ops|
  {
    ScriptLength(a, b);
    EditDistanceIsMinimal(a, b, ops);
  }

  /** An empty old sequence gives one insert per new row, in order, each
      naming its own position. */
  lemma ScriptOfEmptyOld(a: seq<Row>, b: seq<Row>)
    requires |a| == 0
    ensures |Script(a, b)| == |b|
    ensures forall j :: 0 <= j < |b| ==> Script(a, b)[j] == Insert(j, b[j])
  {
  }

  /** An empty new sequence gives one delete per old row, in order, each
      naming its own position. */
  lemma ScriptOfEmptyNew(a: seq<Row>, b: seq<Row>)
    requires |b| == 0
    ensures |Script(a, b)| == |a|
    ensures forall i :: 0 <= i < |a| ==> Script(a, b)[i] == Delete(i, a[i])
  {
  }

  /** Two equal sequences give the empty script. */
  lemma ScriptOfIdentical(a: seq<Row>)
    ensures Script(a, a) == []
  {
    ScriptLength(a, a);
    EditDistanceOfIdentical(a);
  }

  /** The script is empty exactly when the sequences are equal. */
  lemma ScriptEmptyIff(a: seq<Row>, b: seq<Row>)
    ensures Script(a, b) == [] <==> a == b
  {
    if a == b {
      ScriptOfIdentical(a);
    }
    if Script(a, b) == [] {
      ScriptReconstructs(a, b);
      EmptyScript(a, b);
    }
  }
}
