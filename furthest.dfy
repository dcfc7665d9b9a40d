/**
 * The values the forward pass of `myersDiff` writes into its table `v`,
 * as pure functions of the two sequences: FR(d, k) is what `v[k + offset]`
 * holds after depth d, on every diagonal k = x - y that depth visits.
 * The lemmas say that FR(d, k) is the furthest point of diagonal k that a
 * path with at most d inserts and deletes reaches, and that the search
 * first reaches the corner at depth EditDistance(a, b).
 */
module Furthest {
  import opened Types
  import opened EditGraph

  /** Depth d visits the diagonals -d, -d + 2, ..., d. */
  ghost predicate Diag(d: int, k: int) {
    0 <= d && -d <= k <= d && (d + k) % 2 == 0
  }

  /** The end of the snake from (x, y): follow matching rows while both
      positions lie inside the sequences. */
  ghost function Slide(a: seq<Row>, b: seq<Row>, x: int, y: int): int
    decreases |a| - x
  {
    if Match(a, b, x, y) then Slide(a, b, x + 1, y + 1) else x
  }

  /** The diagonal depth d - 1 hands over to diagonal k at depth d: k + 1 (a
      vertical step, an insert) or k - 1 (a horizontal step, a delete). This
      is the tie-break of src/diff.ts lines 45 and 97. */
  ghost function PrevDiag(a: seq<Row>, b: seq<Row>, d: int, k: int): int
    requires d >= 1
    decreases d, 0
  {
    if k == -d || (k != d && FR(a, b, d - 1, k - 1) < FR(a, b, d - 1, k + 1)) then k + 1 else k - 1
  }

  /** The x at which the snake of diagonal k at depth d starts. */
  ghost function Start(a: seq<Row>, b: seq<Row>, d: int, k: int): int
    requires d >= 0
    decreases d, 1
  {
    if d == 0 then 0
    else
      var p := PrevDiag(a, b, d, k);
      if p == k + 1 then FR(a, b, d - 1, p) else FR(a, b, d - 1, p) + 1
  }

  /** The furthest-reaching x on diagonal k after depth d. */
  ghost function FR(a: seq<Row>, b: seq<Row>, d: int, k: int): int
    requires d >= 0
    decreases d, 2
  {
    var s := Start(a, b, d, k);
    Slide(a, b, s, s - k)
  }

  lemma {:induction false} SlideGrows(a: seq<Row>, b: seq<Row>, x: int, y: int)
    ensures Slide(a, b, x, y) >= x
    decreases |a| - x
  {
    if Match(a, b, x, y) {
      SlideGrows(a, b, x + 1, y + 1);
    }
  }

  /** A snake runs over matching rows and stops where the next rows differ
      or a sequence ends. */
  lemma {:induction false} SlideRun(a: seq<Row>, b: seq<Row>, x: int, y: int)
    requires 0 <= x && 0 <= y
    ensures Slide(a, b, x, y) >= x
    ensures var s := Slide(a, b, x, y);
            s == x || (s <= |a| && s - x + y <= |b| && a[x..s] == b[y..s - x + y])
    ensures !Match(a, b, Slide(a, b, x, y), Slide(a, b, x, y) - x + y)
    decreases |a| - x
  {
    if Match(a, b, x, y) {
      SlideRun(a, b, x + 1, y + 1);
      var s := Slide(a, b, x, y);
      assert s == Slide(a, b, x + 1, y + 1);
      if s == x + 1 {
        assert a[x..s] == [a[x]] && b[y..s - x + y] == [b[y]];
      } else {
        assert a[x..s] == [a[x]] + a[x + 1..s];
        assert b[y..s - x + y] == [b[y]] + b[y + 1..s - x + y];
      }
    }
  }

  /** Following a snake costs nothing. */
  lemma {:induction false} SlideCost(a: seq<Row>, b: seq<Row>, x: nat, y: nat)
    ensures Slide(a, b, x, y) >= x
    ensures Cost(a, b, Slide(a, b, x, y), Slide(a, b, x, y) - x + y) <= Cost(a, b, x, y)
    decreases |a| - x
  {
    if Match(a, b, x, y) {
      SlideCost(a, b, x + 1, y + 1);
      CostSteps(a, b, x + 1, y + 1);
    }
  }

  /** The predecessor diagonal was visited at depth d - 1. */
  lemma PrevDiagVisited(a: seq<Row>, b: seq<Row>, d: int, k: int)
    requires Diag(d, k) && d >= 1
    ensures PrevDiag(a, b, d, k) == k + 1 || PrevDiag(a, b, d, k) == k - 1
    ensures Diag(d - 1, PrevDiag(a, b, d, k))
  {
  }

  /** Depth d reaches at least (d + k) / 2 on diagonal k, so every snake
      starts at a point with x >= 0 and y >= 0. */
  lemma {:induction false} FRLower(a: seq<Row>, b: seq<Row>, d: int, k: int)
    requires Diag(d, k)
    ensures 2 * Start(a, b, d, k) >= d + k && 2 * (Start(a, b, d, k) - k) >= d - k
    ensures Start(a, b, d, k) <= FR(a, b, d, k)
    ensures 2 * FR(a, b, d, k) >= d + k && 2 * (FR(a, b, d, k) - k) >= d - k
    decreases d
  {
    var s := Start(a, b, d, k);
    if d > 0 {
      PrevDiagVisited(a, b, d, k);
      FRLower(a, b, d - 1, PrevDiag(a, b, d, k));
    }
    SlideGrows(a, b, s, s - k);
  }

  /** The snake of diagonal k at depth d >= 1 starts one vertical step
      below the end point of diagonal k + 1 or one horizontal step right of
      the end point of diagonal k - 1 at depth d - 1. */
  lemma StartStep(a: seq<Row>, b: seq<Row>, d: int, k: int)
    requires Diag(d, k) && d >= 1
    ensures var p, s := PrevDiag(a, b, d, k), Start(a, b, d, k);
            && Diag(d - 1, p)
            && (|| (p == k + 1 && s == FR(a, b, d - 1, p) && s - k == FR(a, b, d - 1, p) - p + 1)
                || (p == k - 1 && s == FR(a, b, d - 1, p) + 1 && s - k == FR(a, b, d - 1, p) - p))
  {
    PrevDiagVisited(a, b, d, k);
  }

  /** Every snake starts at a point a path with at most d edits reaches. */
  lemma {:induction false} StartReachable(a: seq<Row>, b: seq<Row>, d: int, k: int)
    requires Diag(d, k)
    ensures 0 <= Start(a, b, d, k) && 0 <= Start(a, b, d, k) - k
    ensures Cost(a, b, Start(a, b, d, k), Start(a, b, d, k) - k) <= d
    decreases d, 0
  {
    if d > 0 {
      var s, p := Start(a, b, d, k), PrevDiag(a, b, d, k);
      StartStep(a, b, d, k);
      FRReachable(a, b, d - 1, p);
      var px := FR(a, b, d - 1, p);
      EditStepCost(a, b, px, px - p, s, s - k, d);
    }
  }

  /** One insert or delete after a point reached with d - 1 edits. */
  lemma EditStepCost(a: seq<Row>, b: seq<Row>, px: int, py: int, x: int, y: int, d: int)
    requires 0 <= px && 0 <= py && Cost(a, b, px, py) <= d - 1
    requires (x == px + 1 && y == py) || (x == px && y == py + 1)
    ensures Cost(a, b, x, y) <= d
  {
    CostSteps(a, b, x, y);
  }

  /** Every value of the table is reached by a path with at most d edits. */
  lemma {:induction false} FRReachable(a: seq<Row>, b: seq<Row>, d: int, k: int)
    requires Diag(d, k)
    ensures 0 <= FR(a, b, d, k) && 0 <= FR(a, b, d, k) - k
    ensures Cost(a, b, FR(a, b, d, k), FR(a, b, d, k) - k) <= d
    decreases d, 1
  {
    StartReachable(a, b, d, k);
    FRLower(a, b, d, k);
    var s := Start(a, b, d, k);
    SlideCost(a, b, s, s - k);
  }

  /** The snake start is the larger of the two candidate steps, so it is at
      least one past diagonal k - 1 and at least as far as diagonal k + 1,
      wherever those were visited. */
  lemma StartDominates(a: seq<Row>, b: seq<Row>, d: int, k: int)
    requires Diag(d, k) && d >= 1
    ensures k != -d ==> Start(a, b, d, k) >= FR(a, b, d - 1, k - 1) + 1
    ensures k != d ==> Start(a, b, d, k) >= FR(a, b, d - 1, k + 1)
    ensures Start(a, b, d, k) <= FR(a, b, d, k)
  {
    SlideGrows(a, b, Start(a, b, d, k), Start(a, b, d, k) - k);
  }

  /** The snake of the table value stops at a point with no diagonal step. */
  lemma FRStops(a: seq<Row>, b: seq<Row>, d: int, k: int)
    requires Diag(d, k)
    ensures !Match(a, b, FR(a, b, d, k), FR(a, b, d, k) - k)
  {
    FRLower(a, b, d, k);
    var s := Start(a, b, d, k);
    SlideRun(a, b, s, s - k);
  }

  /** Myers' lemma: no path with at most d edits gets further along its
      diagonal than the table value. */
  lemma {:induction false} FRFurthest(a: seq<Row>, b: seq<Row>, d: int, x: nat, y: nat)
    requires Cost(a, b, x, y) <= d && (d + x - y) % 2 == 0
    ensures Diag(d, x - y) && x <= FR(a, b, d, x - y)
    decreases d, x, 1
  {
    CostBounds(a, b, x, y);
    if x > 0 && y > 0 && Match(a, b, x - 1, y - 1) && Cost(a, b, x - 1, y - 1) <= d {
      FRFurthest(a, b, d, x - 1, y - 1);
      FRStops(a, b, d, x - y);
    } else if x > 0 || y > 0 {
      FRFurthestByEdit(a, b, d, x, y);
    } else {
      FRLower(a, b, d, x - y);
    }
  }

  /** The case of Myers' lemma where the last step into (x, y) is an edit. */
  lemma {:induction false} FRFurthestByEdit(a: seq<Row>, b: seq<Row>, d: int, x: nat, y: nat)
    requires Cost(a, b, x, y) <= d && (d + x - y) % 2 == 0 && (x > 0 || y > 0)
    requires !(x > 0 && y > 0 && Match(a, b, x - 1, y - 1) && Cost(a, b, x - 1, y - 1) <= d)
    ensures Diag(d, x - y) && x <= FR(a, b, d, x - y)
    decreases d, x, 0
  {
    LastEdit(a, b, d, x, y);
    if x > 0 && Cost(a, b, x - 1, y) <= d - 1 {
      FRFurthest(a, b, d - 1, x - 1, y);
      DeleteStepReach(a, b, d, x - y, x);
    } else {
      FRFurthest(a, b, d - 1, x, y - 1);
      InsertStepReach(a, b, d, x - y, x);
    }
  }

  /** A point reached with at most d edits whose last step is not a free
      diagonal is one delete or one insert after a point reached with at
      most d - 1 edits. */
  lemma LastEdit(a: seq<Row>, b: seq<Row>, d: int, x: nat, y: nat)
    requires Cost(a, b, x, y) <= d && (x > 0 || y > 0)
    requires !(x > 0 && y > 0 && Match(a, b, x - 1, y - 1) && Cost(a, b, x - 1, y - 1) <= d)
    ensures (x > 0 && Cost(a, b, x - 1, y) <= d - 1) || (y > 0 && Cost(a, b, x, y - 1) <= d - 1)
  {
    CostCases(a, b, x, y);
  }

  /** Reaching x - 1 on diagonal k - 1 at depth d - 1 lets depth d reach
      x on diagonal k. */
  lemma DeleteStepReach(a: seq<Row>, b: seq<Row>, d: int, k: int, x: int)
    requires d >= 1 && Diag(d - 1, k - 1) && x - 1 <= FR(a, b, d - 1, k - 1)
    ensures Diag(d, k) && x <= FR(a, b, d, k)
  {
    StartDominates(a, b, d, k);
  }

  /** Reaching x on diagonal k + 1 at depth d - 1 lets depth d reach x on
      diagonal k. */
  lemma InsertStepReach(a: seq<Row>, b: seq<Row>, d: int, k: int, x: int)
    requires d >= 1 && Diag(d - 1, k + 1) && x <= FR(a, b, d - 1, k + 1)
    ensures Diag(d, k) && x <= FR(a, b, d, k)
  {
    StartDominates(a, b, d, k);
  }

  /** The search reaches the corner (|a|, |b|) at depth EditDistance(a, b),
      on diagonal |a| - |b|, and stops exactly there. */
  lemma ReachesCorner(a: seq<Row>, b: seq<Row>)
    ensures Diag(EditDistance(a, b), |a| - |b|)
    ensures FR(a, b, EditDistance(a, b), |a| - |b|) == |a|
  {
    var D := EditDistance(a, b);
    CornerParity(a, b);
    FRFurthest(a, b, D, |a|, |b|);
    HitIsCorner(a, b, D, |a| - |b|);
  }

  /** The corner lies on a diagonal of the parity of EditDistance(a, b). */
  lemma CornerParity(a: seq<Row>, b: seq<Row>)
    ensures (EditDistance(a, b) + |a| - |b|) % 2 == 0
  {
    EditDistanceBounds(a, b);
  }

  /** Before depth EditDistance(a, b) no diagonal reaches x >= |a| and
      y >= |b|; at that depth only the diagonal through the corner does, and
      it stops at the corner. */
  lemma HitIsCorner(a: seq<Row>, b: seq<Row>, d: int, k: int)
    requires Diag(d, k) && d <= EditDistance(a, b)
    requires FR(a, b, d, k) >= |a| && FR(a, b, d, k) - k >= |b|
    ensures d == EditDistance(a, b) && k == |a| - |b| && FR(a, b, d, k) == |a|
  {
    var x := FR(a, b, d, k);
    FRReachable(a, b, d, k);
    var y: nat := x - k;
    OnlyTheCorner(a, b, d, x, y);
  }

  /** Only the corner itself is reached beyond the corner within
      EditDistance(a, b) edits. */
  lemma OnlyTheCorner(a: seq<Row>, b: seq<Row>, d: int, x: nat, y: nat)
    requires x >= |a| && y >= |b| && Cost(a, b, x, y) <= d <= EditDistance(a, b)
    ensures x == |a| && y == |b| && d == EditDistance(a, b)
  {
    CostBeyondCorner(a, b, x, y);
  }
}
