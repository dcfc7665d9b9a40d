/**
 * The edit graph of two row sequences `a` (old, length n) and `b` (new,
 * length m), and the insert/delete distance on it.
 *
 * A grid point (x, y) says that the first x old rows and the first y new
 * rows have been consumed. A horizontal step (x, y) -> (x + 1, y) deletes a
 * row and a vertical step (x, y) -> (x, y + 1) inserts one; each costs 1. A
 * diagonal step (x, y) -> (x + 1, y + 1) is free and exists only where
 * a[x] == b[y]. The grid is unbounded to the right and downwards: the forward
 * search of `myersDiff` may step past x == n or y == m, and there are no
 * diagonal steps out there.
 */
module EditGraph {
  import opened Types

  /** The free diagonal step leaving (x, y) exists. */
  predicate Match(a: seq<Row>, b: seq<Row>, x: int, y: int) {
    0 <= x < |a| && 0 <= y < |b| && a[x] == b[y]
  }

  function Min(p: nat, q: nat): nat {
    if p <= q then p else q
  }

  /** The fewest inserts and deletes on a path from (0, 0) to (x, y). */
  ghost function Cost(a: seq<Row>, b: seq<Row>, x: nat, y: nat): nat
    decreases x + y
  {
    if x == 0 && y == 0 then 0
    else if x == 0 then Cost(a, b, 0, y - 1) + 1
    else if y == 0 then Cost(a, b, x - 1, 0) + 1
    else
      var viaEdit := Min(Cost(a, b, x - 1, y), Cost(a, b, x, y - 1)) + 1;
      if Match(a, b, x - 1, y - 1) then Min(viaEdit, Cost(a, b, x - 1, y - 1)) else viaEdit
  }

  /** The insert/delete edit distance between the two sequences. */
  ghost function EditDistance(a: seq<Row>, b: seq<Row>): nat {
    Cost(a, b, |a|, |b|)
  }

  /** Each step of the graph bounds the cost of its end point. */
  lemma CostSteps(a: seq<Row>, b: seq<Row>, x: nat, y: nat)
    ensures x > 0 ==> Cost(a, b, x, y) <= Cost(a, b, x - 1, y) + 1
    ensures y > 0 ==> Cost(a, b, x, y) <= Cost(a, b, x, y - 1) + 1
    ensures x > 0 && y > 0 && Match(a, b, x - 1, y - 1) ==> Cost(a, b, x, y) <= Cost(a, b, x - 1, y - 1)
  {
  }

  /** Some step into (x, y) attains its cost. */
  lemma CostCases(a: seq<Row>, b: seq<Row>, x: nat, y: nat)
    requires x > 0 || y > 0
    ensures || (x > 0 && Cost(a, b, x, y) == Cost(a, b, x - 1, y) + 1)
            || (y > 0 && Cost(a, b, x, y) == Cost(a, b, x, y - 1) + 1)
            || (x > 0 && y > 0 && Match(a, b, x - 1, y - 1) && Cost(a, b, x, y) == Cost(a, b, x - 1, y - 1))
  {
  }

  /** An edit adds one to both the cost and x + y; a match adds nothing to
      the cost and two to x + y. Either way the parities stay equal. */
  lemma ParityStep(c0: int, s0: int, c: int, s: int)
    requires c0 % 2 == s0 % 2
    requires (c == c0 + 1 && s == s0 + 1) || (c == c0 && s == s0 + 2)
    ensures c % 2 == s % 2
  {
  }

  /** Every edit changes x + y by one and every match by two. */
  lemma {:induction false} CostParity(a: seq<Row>, b: seq<Row>, x: nat, y: nat)
    ensures Cost(a, b, x, y) % 2 == (x + y) % 2
    decreases x + y
  {
    if x > 0 || y > 0 {
      var px, py := CheapestStep(a, b, x, y);
      CostParity(a, b, px, py);
      ParityStep(Cost(a, b, px, py), px + py, Cost(a, b, x, y), x + y);
    }
  }

  /** The start of a step into (x, y) that attains its cost: an edit from
      one unit closer to the origin, or a match from two units closer. */
  lemma CheapestStep(a: seq<Row>, b: seq<Row>, x: nat, y: nat) returns (px: nat, py: nat)
    requires x > 0 || y > 0
    ensures || (Cost(a, b, x, y) == Cost(a, b, px, py) + 1 && x + y == px + py + 1)
            || (Cost(a, b, x, y) == Cost(a, b, px, py) && x + y == px + py + 2)
  {
    CostCases(a, b, x, y);
    if x > 0 && Cost(a, b, x, y) == Cost(a, b, x - 1, y) + 1 {
      px, py := x - 1, y;
    } else if y > 0 && Cost(a, b, x, y) == Cost(a, b, x, y - 1) + 1 {
      px, py := x, y - 1;
    } else {
      px, py := x - 1, y - 1;
    }
  }

  /** A point on diagonal k = x - y costs at least |k| and at most x + y. */
  lemma {:induction false} CostBounds(a: seq<Row>, b: seq<Row>, x: nat, y: nat)
    ensures x - y <= Cost(a, b, x, y) && y - x <= Cost(a, b, x, y)
    ensures Cost(a, b, x, y) <= x + y
    decreases x + y
  {
    if x > 0 || y > 0 {
      CostCases(a, b, x, y);
      CostSteps(a, b, x, y);
      if x > 0 {
        CostBounds(a, b, x - 1, y);
      }
      if y > 0 {
        CostBounds(a, b, x, y - 1);
      }
      if x > 0 && y > 0 {
        CostBounds(a, b, x - 1, y - 1);
      }
    }
  }

  /** A coordinate clamped to a sequence length. */
  function Clamp(v: nat, len: nat): nat {
    if v <= len then v else len
  }

  /** Past the sequence ends every step is an edit: reaching (x, y) costs at
      least reaching the clamped point plus the overshoot. */
  lemma {:induction false} CostClamp(a: seq<Row>, b: seq<Row>, x: nat, y: nat)
    ensures Cost(a, b, x, y) >= Cost(a, b, Clamp(x, |a|), Clamp(y, |b|)) + (x - Clamp(x, |a|)) + (y - Clamp(y, |b|))
    decreases x + y
  {
    if x > 0 || y > 0 {
      CostCases(a, b, x, y);
      if x > 0 && Cost(a, b, x, y) == Cost(a, b, x - 1, y) + 1 {
        CostClamp(a, b, x - 1, y);
        ClampStepX(a, b, x, y);
      } else if y > 0 && Cost(a, b, x, y) == Cost(a, b, x, y - 1) + 1 {
        CostClamp(a, b, x, y - 1);
        ClampStepY(a, b, x, y);
      }
    }
  }

  /** One horizontal step: the clamped point moves with x inside the old
      sequence and stays put beyond it. */
  lemma ClampStepX(a: seq<Row>, b: seq<Row>, x: nat, y: nat)
    requires x > 0
    ensures Cost(a, b, Clamp(x, |a|), Clamp(y, |b|)) + (x - Clamp(x, |a|))
            <= Cost(a, b, Clamp(x - 1, |a|), Clamp(y, |b|)) + (x - 1 - Clamp(x - 1, |a|)) + 1
  {
    if x <= |a| {
      CostSteps(a, b, x, Clamp(y, |b|));
    }
  }

  /** One vertical step, the same for y. */
  lemma ClampStepY(a: seq<Row>, b: seq<Row>, x: nat, y: nat)
    requires y > 0
    ensures Cost(a, b, Clamp(x, |a|), Clamp(y, |b|)) + (y - Clamp(y, |b|))
            <= Cost(a, b, Clamp(x, |a|), Clamp(y - 1, |b|)) + (y - 1 - Clamp(y - 1, |b|)) + 1
  {
    if y <= |b| {
      CostSteps(a, b, Clamp(x, |a|), y);
    }
  }

  /** Beyond the corner every step is an edit. */
  lemma CostBeyondCorner(a: seq<Row>, b: seq<Row>, x: nat, y: nat)
    requires x >= |a| && y >= |b|
    ensures Cost(a, b, x, y) >= EditDistance(a, b) + (x - |a|) + (y - |b|)
  {
    CostClamp(a, b, x, y);
  }

  /** From the empty old sequence only inserts lead to (0, y). */
  lemma {:induction false} CostAlongTop(a: seq<Row>, b: seq<Row>, y: nat)
    ensures Cost(a, b, 0, y) == y
  {
    if y > 0 {
      CostAlongTop(a, b, y - 1);
    }
  }

  /** To the empty new sequence only deletes lead to (x, 0). */
  lemma {:induction false} CostAlongLeft(a: seq<Row>, b: seq<Row>, x: nat)
    ensures Cost(a, b, x, 0) == x
  {
    if x > 0 {
      CostAlongLeft(a, b, x - 1);
    }
  }

  /** A sequence is at distance zero from itself, prefix by prefix. */
  lemma {:induction false} CostOfIdenticalPrefixes(a: seq<Row>, i: nat)
    requires i <= |a|
    ensures Cost(a, a, i, i) == 0
  {
    if i > 0 {
      CostOfIdenticalPrefixes(a, i - 1);
      CostSteps(a, a, i, i);
    }
  }

  /** Identical sequences are at edit distance zero. */
  lemma EditDistanceOfIdentical(a: seq<Row>)
    ensures EditDistance(a, a) == 0
  {
    CostOfIdenticalPrefixes(a, |a|);
  }

  /** The edit distance lies between ||a| - |b|| and |a| + |b|, and has
      the parity of |a| + |b|. */
  lemma EditDistanceBounds(a: seq<Row>, b: seq<Row>)
    ensures |a| - |b| <= EditDistance(a, b) && |b| - |a| <= EditDistance(a, b)
    ensures EditDistance(a, b) <= |a| + |b|
    ensures EditDistance(a, b) % 2 == (|a| + |b|) % 2
  {
    CostBounds(a, b, |a|, |b|);
    CostParity(a, b, |a|, |b|);
  }

  // ---------------------------------------------------------------------
  // What an edit script leaves in place

  /** The rows of s[..hi] whose positions are not in `removed`, in order. */
  function KeptBelow(s: seq<Row>, removed: set<int>, hi: int): (r: seq<Row>)
    requires 0 <= hi <= |s|
    ensures |r| <= hi
    decreases hi
  {
    if hi == 0 then []
    else KeptBelow(s, removed, hi - 1) + (if hi - 1 in removed then [] else [s[hi - 1]])
  }

  /** The rows of s whose positions are not in `removed`, in order. */
  function Kept(s: seq<Row>, removed: set<int>): seq<Row> {
    KeptBelow(s, removed, |s|)
  }

  /** A stretch with nothing removed is kept whole. */
  lemma {:induction false} KeptStretch(s: seq<Row>, removed: set<int>, lo: int, hi: int)
    requires 0 <= lo <= hi <= |s|
    requires forall i :: i in removed ==> !(lo <= i < hi)
    ensures KeptBelow(s, removed, hi) == KeptBelow(s, removed, lo) + s[lo..hi]
    decreases hi
  {
    if hi > lo {
      KeptStretch(s, removed, lo, hi - 1);
      assert s[lo..hi] == s[lo..hi - 1] + [s[hi - 1]];
    }
  }

  /** Removing every position keeps nothing. */
  lemma {:induction false} KeptNothing(s: seq<Row>, removed: set<int>, hi: int)
    requires 0 <= hi <= |s|
    requires forall i :: 0 <= i < hi ==> i in removed
    ensures KeptBelow(s, removed, hi) == []
    decreases hi
  {
    if hi > 0 {
      KeptNothing(s, removed, hi - 1);
    }
  }

  /** Only the removed positions below hi matter. */
  lemma {:induction false} KeptBelowAgree(s: seq<Row>, r1: set<int>, r2: set<int>, hi: int)
    requires 0 <= hi <= |s|
    requires forall i :: 0 <= i < hi ==> (i in r1 <==> i in r2)
    ensures KeptBelow(s, r1, hi) == KeptBelow(s, r2, hi)
    decreases hi
  {
    if hi > 0 {
      KeptBelowAgree(s, r1, r2, hi - 1);
    }
  }

  /** A matching stretch a[x0..x] == b[y0..y] after two prefixes that keep
      the same rows, with nothing removed in either stretch, keeps the same
      rows up to (x, y). */
  lemma KeptSnake(a: seq<Row>, b: seq<Row>, dels: set<int>, ins: set<int>, x0: int, y0: int, x: int, y: int)
    requires 0 <= x0 <= x <= |a| && 0 <= y0 <= y <= |b|
    requires KeptBelow(a, dels, x0) == KeptBelow(b, ins, y0)
    requires forall i :: i in dels ==> i < x0
    requires forall j :: j in ins ==> j < y0
    requires a[x0..x] == b[y0..y]
    ensures KeptBelow(a, dels, x) == KeptBelow(b, ins, y)
  {
    KeptStretch(a, dels, x0, x);
    KeptStretch(b, ins, y0, y);
  }

  /** Removing new position y0 and then following a matching stretch. */
  lemma KeptAfterInsert(a: seq<Row>, b: seq<Row>, dels: set<int>, ins: set<int>, x0: int, y0: int, x: int, y: int)
    requires 0 <= x0 <= x <= |a| && 0 <= y0 < y <= |b|
    requires KeptBelow(a, dels, x0) == KeptBelow(b, ins, y0)
    requires forall i :: i in dels ==> i < x0
    requires forall j :: j in ins ==> j < y0
    requires a[x0..x] == b[y0 + 1..y]
    ensures KeptBelow(a, dels, x) == KeptBelow(b, ins + {y0}, y)
  {
    KeptBelowAgree(b, ins, ins + {y0}, y0);
    KeptSnake(a, b, dels, ins + {y0}, x0, y0 + 1, x, y);
  }

  /** Removing old position x0 and then following a matching stretch. */
  lemma KeptAfterDelete(a: seq<Row>, b: seq<Row>, dels: set<int>, ins: set<int>, x0: int, y0: int, x: int, y: int)
    requires 0 <= x0 < x <= |a| && 0 <= y0 <= y <= |b|
    requires KeptBelow(a, dels, x0) == KeptBelow(b, ins, y0)
    requires forall i :: i in dels ==> i < x0
    requires forall j :: j in ins ==> j < y0
    requires a[x0 + 1..x] == b[y0..y]
    ensures KeptBelow(a, dels + {x0}, x) == KeptBelow(b, ins, y)
  {
    KeptBelowAgree(a, dels, dels + {x0}, x0);
    KeptSnake(a, b, dels + {x0}, ins, x0 + 1, y0, x, y);
  }

  /** The removed positions below hi. */
  function Below(removed: set<int>, hi: int): set<int> {
    set i | i in removed && 0 <= i < hi
  }

  lemma BelowStep(removed: set<int>, hi: int)
    requires hi > 0
    ensures |Below(removed, hi)| == |Below(removed, hi - 1)| + (if hi - 1 in removed then 1 else 0)
  {
    if hi - 1 in removed {
      assert Below(removed, hi) == Below(removed, hi - 1) + {hi - 1};
    } else {
      assert Below(removed, hi) == Below(removed, hi - 1);
    }
  }

  /** Removing positions from a prefix shortens it by the number of removed
      positions that lie inside it. */
  lemma {:induction false} KeptBelowLength(s: seq<Row>, removed: set<int>, hi: int)
    requires 0 <= hi <= |s|
    ensures |KeptBelow(s, removed, hi)| == hi - |Below(removed, hi)|
    decreases hi
  {
    if hi == 0 {
      assert Below(removed, 0) == {};
    } else {
      KeptBelowLength(s, removed, hi - 1);
      BelowStep(removed, hi);
    }
  }

  /** Any way of removing rows from both prefixes a[..x] and b[..y] that
      leaves equal sequences removes at least Cost(x, y) rows. */
  lemma {:induction false} KeptLowerBound(a: seq<Row>, b: seq<Row>, dels: set<int>, ins: set<int>, x: nat, y: nat)
    requires x <= |a| && y <= |b|
    requires KeptBelow(a, dels, x) == KeptBelow(b, ins, y)
    ensures Cost(a, b, x, y) <= |Below(dels, x)| + |Below(ins, y)|
    decreases x + y
  {
    CostSteps(a, b, x, y);
    if x > 0 && x - 1 in dels {
      BelowStep(dels, x);
      KeptLowerBound(a, b, dels, ins, x - 1, y);
    } else if y > 0 && y - 1 in ins {
      BelowStep(ins, y);
      KeptLowerBound(a, b, dels, ins, x, y - 1);
    } else if x > 0 && y > 0 {
      BelowStep(dels, x);
      BelowStep(ins, y);
      var ka, kb := KeptBelow(a, dels, x - 1), KeptBelow(b, ins, y - 1);
      assert ka + [a[x - 1]] == kb + [b[y - 1]];
      assert a[x - 1] == (ka + [a[x - 1]])[|ka|];
      assert |ka| == |kb|;
      assert ka == (ka + [a[x - 1]])[..|ka|];
      assert kb == (kb + [b[y - 1]])[..|kb|];
      KeptLowerBound(a, b, dels, ins, x - 1, y - 1);
    } else if x > 0 || y > 0 {
      // One side is empty and the other keeps its last row.
      assert false;
    }
  }
}
