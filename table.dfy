/**
 * What the tables of `myersDiff` and `buildPath` hold, stated against the
 * furthest-reaching values FR(d, k): a saved copy of `v` is a layer of one
 * depth, the live table during a depth is part old layer and part new, and
 * the backward pass keeps its end point on the path the backtrace follows.
 * The lemmas here carry the proof steps of the two loops in src/diff.ts.
 */
module Table {
  import opened Types
  import opened EditGraph
  import opened Furthest
  import opened EditScript
  import opened Backtrace

  /** Both neighbours of diagonal k that the tie-break may read lie inside
      the table (the right one is not read when k == d > -d). */
  predicate Readable(s: seq<int>, offset: int, d: int, k: int) {
    && (k == -d || 0 <= k - 1 + offset < |s|)
    && ((k == d && k != -d) || 0 <= k + 1 + offset < |s|)
  }

  /** The tie-break of src/diff.ts lines 45 and 97 read off a table: the
      diagonal from which the step into diagonal k comes. */
  function PrevK(s: seq<int>, offset: int, d: int, k: int): int
    requires Readable(s, offset, d, k)
  {
    if k == -d || (k != d && s[k - 1 + offset] < s[k + 1 + offset]) then k + 1 else k - 1
  }

  /** A copy of the table taken before depth e + 1: on every diagonal that
      depth e visits it holds the furthest-reaching x of depth e. Before
      depth 0 only the seed entry at offset + 1, which is 0, matters. */
  ghost predicate Layer(a: seq<Row>, b: seq<Row>, s: seq<int>, offset: int, e: int) {
    if e < 0 then 0 <= offset + 1 < |s| && s[offset + 1] == 0
    else forall i :: 0 <= i < |s| && Diag(e, i - offset) ==> s[i] == FR(a, b, e, i - offset)
  }

  /** Every saved copy j of the table is a layer of depth j - 1. */
  ghost predicate TraceLayers(a: seq<Row>, b: seq<Row>, trace: seq<seq<int>>, offset: int) {
    forall j :: 0 <= j < |trace| ==> |trace[j]| == 2 * offset + 1 && Layer(a, b, trace[j], offset, j - 1)
  }

  /** The live table while depth d runs: the diagonals of depth d below k
      hold their new values, and every entry depth d does not visit still
      holds what the copy `cur` taken before depth d holds. */
  ghost predicate Processed(a: seq<Row>, b: seq<Row>, s: seq<int>, cur: seq<int>, offset: int, d: int, k: int) {
    && |s| == |cur|
    && (forall i :: 0 <= i < |s| && Diag(d, i - offset) && i - offset < k ==> s[i] == FR(a, b, d, i - offset))
    && OffDepthUnchanged(s, cur, offset, d)
  }

  /** Every entry depth d does not visit holds what `cur` holds. */
  ghost predicate OffDepthUnchanged(s: seq<int>, cur: seq<int>, offset: int, d: int) {
    && |s| == |cur|
    && forall i :: 0 <= i < |s| && !Diag(d, i - offset) ==> s[i] == cur[i]
  }

  /** No diagonal of depth d below k has reached x >= |a| and y >= |b|. */
  ghost predicate NoHitBelow(a: seq<Row>, b: seq<Row>, d: int, k: int) {
    forall j :: Diag(d, j) && j < k ==> !(FR(a, b, d, j) >= |a| && FR(a, b, d, j) - j >= |b|)
  }

  /** Read off a layer of depth d - 1, the tie-break picks the predecessor
      diagonal of the recurrence, and the entry it names gives the start of
      the snake of diagonal k; at depth 0 it names the seed entry. */
  lemma StartFromTable(a: seq<Row>, b: seq<Row>, s: seq<int>, offset: int, d: int, k: int)
    requires Diag(d, k) && d <= offset && |s| == 2 * offset + 1 && Layer(a, b, s, offset, d - 1)
    ensures Readable(s, offset, d, k) && 0 <= k + offset < |s|
    ensures var p := PrevK(s, offset, d, k);
            && 0 <= p + offset < |s|
            && Start(a, b, d, k) == (if p == k + 1 then s[p + offset] else s[p + offset] + 1)
            && (d == 0 ==> k == 0 && p == 1 && s[p + offset] == 0)
            && (d >= 1 ==> p == PrevDiag(a, b, d, k) && s[p + offset] == FR(a, b, d - 1, p))
  {
    if d >= 1 {
      PrevDiagVisited(a, b, d, k);
      if k != -d {
        assert Diag(d - 1, k - 1);
        assert s[k - 1 + offset] == FR(a, b, d - 1, k - 1);
      }
      if k != d {
        assert Diag(d - 1, k + 1);
        assert s[k + 1 + offset] == FR(a, b, d - 1, k + 1);
      }
    }
  }

  /** During depth d the forward pass reads the neighbours of diagonal k
      from the live table; they still hold the values of depth d - 1, so it
      computes the snake start, which lies at x >= 0 and y >= 0. */
  lemma TableStart(a: seq<Row>, b: seq<Row>, s: seq<int>, cur: seq<int>, offset: int, d: int, k: int)
    requires Processed(a, b, s, cur, offset, d, k) && Diag(d, k) && d <= offset
    requires |cur| == 2 * offset + 1 && Layer(a, b, cur, offset, d - 1)
    ensures Readable(s, offset, d, k) && 0 <= k + offset < |s|
    ensures var reads_up := k == -d || (k != d && s[k - 1 + offset] < s[k + 1 + offset]);
            Start(a, b, d, k) == if reads_up then s[k + 1 + offset] else s[k - 1 + offset] + 1
    ensures 0 <= Start(a, b, d, k) && 0 <= Start(a, b, d, k) - k
  {
    FRLower(a, b, d, k);
    StartFromTable(a, b, cur, offset, d, k);
    NeighboursOffDepth(d, k);
    if k != d || k == -d {
      Untouched(a, b, s, cur, offset, d, k, k + 1 + offset);
    }
    if k != -d {
      Untouched(a, b, s, cur, offset, d, k, k - 1 + offset);
    }
  }

  /** The neighbours of a diagonal of depth d are not visited at depth d. */
  lemma NeighboursOffDepth(d: int, k: int)
    requires Diag(d, k)
    ensures !Diag(d, k + 1) && !Diag(d, k - 1)
  {
  }

  /** An entry depth d does not visit still holds its value from before. */
  lemma Untouched(a: seq<Row>, b: seq<Row>, s: seq<int>, cur: seq<int>, offset: int, d: int, k: int, i: int)
    requires Processed(a, b, s, cur, offset, d, k)
    requires 0 <= i < |s| && !Diag(d, i - offset)
    ensures s[i] == cur[i]
  {
  }

  /** Before depth d nothing of depth d is written yet. */
  lemma ProcessedStart(a: seq<Row>, b: seq<Row>, cur: seq<int>, offset: int, d: int)
    requires d >= 0
    ensures Processed(a, b, cur, cur, offset, d, -d) && NoHitBelow(a, b, d, -d)
  {
  }

  /** Writing FR(d, k) at diagonal k moves the processed boundary to k + 2. */
  lemma ProcessedWrite(a: seq<Row>, b: seq<Row>, s: seq<int>, after: seq<int>, cur: seq<int>, offset: int, d: int, k: int, x: int)
    requires Processed(a, b, s, cur, offset, d, k) && NoHitBelow(a, b, d, k)
    requires Diag(d, k) && 0 <= k + offset < |s| && after == s[k + offset := x]
    requires x == FR(a, b, d, k)
    ensures Processed(a, b, after, cur, offset, d, k + 2)
    ensures !(x >= |a| && x - k >= |b|) ==> NoHitBelow(a, b, d, k + 2)
    ensures k + 2 <= d + 2 && (d + k + 2) % 2 == 0
  {
  }

  /** The snake followed from the start of diagonal k at depth d ends at
      the table value FR(d, k). Writing it into the live table either hits
      the corner, which happens only at depth EditDistance(a, b), or moves
      the processed boundary to k + 2 with still no hit below it. */
  lemma DiagonalDone(a: seq<Row>, b: seq<Row>, s: seq<int>, after: seq<int>, cur: seq<int>, offset: int, d: int, k: int, start: int, x: int)
    requires Processed(a, b, s, cur, offset, d, k) && NoHitBelow(a, b, d, k)
    requires Diag(d, k) && d <= EditDistance(a, b) && 0 <= k + offset < |s|
    requires start == Start(a, b, d, k) && x == Slide(a, b, start, start - k)
    requires after == s[k + offset := x]
    ensures x == FR(a, b, d, k)
    ensures x >= |a| && x - k >= |b| ==> d == EditDistance(a, b)
    ensures OffDepthUnchanged(after, cur, offset, d)
    ensures !(x >= |a| && x - k >= |b|) ==>
              && Processed(a, b, after, cur, offset, d, k + 2) && NoHitBelow(a, b, d, k + 2)
              && k + 2 <= d + 2 && (d + k + 2) % 2 == 0
  {
    if x >= |a| && x - k >= |b| {
      HitIsCorner(a, b, d, k);
    } else {
      ProcessedWrite(a, b, s, after, cur, offset, d, k, x);
    }
  }

  /** After the last diagonal the table is a layer of depth d. */
  lemma ProcessedDone(a: seq<Row>, b: seq<Row>, s: seq<int>, cur: seq<int>, offset: int, d: int, k: int)
    requires Processed(a, b, s, cur, offset, d, k) && k == d + 2 && d >= 0
    ensures Layer(a, b, s, offset, d)
  {
  }

  /** A depth without a hit lies below the edit distance. */
  lemma NoHitDone(a: seq<Row>, b: seq<Row>, d: int, k: int)
    requires NoHitBelow(a, b, d, k) && k == d + 2 && 0 <= d <= EditDistance(a, b)
    ensures d < EditDistance(a, b)
  {
    ReachesCorner(a, b);
  }

  /** Saving the copy taken before depth |trace| keeps the trace in shape. */
  lemma TraceExtend(a: seq<Row>, b: seq<Row>, trace: seq<seq<int>>, cur: seq<int>, offset: int)
    requires TraceLayers(a, b, trace, offset)
    requires |cur| == 2 * offset + 1 && Layer(a, b, cur, offset, |trace| - 1)
    ensures TraceLayers(a, b, trace + [cur], offset)
  {
    assert forall j :: 0 <= j < |trace| ==> (trace + [cur])[j] == trace[j];
  }

  lemma TraceAt(a: seq<Row>, b: seq<Row>, trace: seq<seq<int>>, offset: int, j: int)
    requires TraceLayers(a, b, trace, offset) && 0 <= j < |trace|
    ensures |trace[j]| == 2 * offset + 1 && Layer(a, b, trace[j], offset, j - 1)
  {
  }

  /** The state of the backward pass before depth d: (x, y) is the end point
      of the path on diagonal x - y at depth d, and `result` holds the items
      of the depths above d, which complete the backtrace from the corner.
      Once d < 0, `result` is the whole backtrace. */
  ghost predicate Walking(a: seq<Row>, b: seq<Row>, d: int, x: int, y: int, result: seq<DiffItem>) {
    && OnPath(a, b, EditDistance(a, b), |a| - |b|)
    && if d >= 0 then
         && OnPath(a, b, d, x - y) && x == FR(a, b, d, x - y)
         && Backtrack(a, b, EditDistance(a, b), |a| - |b|) == Backtrack(a, b, d, x - y) + result
       else Backtrack(a, b, EditDistance(a, b), |a| - |b|) == result
  }

  /** The backward pass starts at the corner with nothing emitted. */
  lemma WalkFromCorner(a: seq<Row>, b: seq<Row>)
    ensures Walking(a, b, EditDistance(a, b), |a|, |b|, [])
  {
    ReachesCorner(a, b);
    assert Backtrack(a, b, EditDistance(a, b), |a| - |b|) + [] == Backtrack(a, b, EditDistance(a, b), |a| - |b|);
  }

  /** At depth d the backward pass reads its tie-break entries and the
      predecessor's entry inside the saved table. */
  lemma WalkTable(a: seq<Row>, b: seq<Row>, trace: seq<seq<int>>, v: seq<int>, offset: int, d: int, x: int, y: int, result: seq<DiffItem>)
    requires Walking(a, b, d, x, y, result) && 0 <= d <= offset
    requires TraceLayers(a, b, trace, offset) && d < |trace| && v == trace[d]
    ensures |v| == 2 * offset + 1
    ensures Readable(v, offset, d, x - y) && 0 <= PrevK(v, offset, d, x - y) + offset < |v|
  {
    TraceAt(a, b, trace, offset, d);
    StartFromTable(a, b, v, offset, d, x - y);
  }

  /** The snake the backward pass undoes stops exactly at its start. */
  lemma RetreatStops(start: int, px: int, p: int, k: int, x0: int, x: int, y: int)
    requires start <= x0
    requires (p == k + 1 && start == px) || (p == k - 1 && start == px + 1)
    requires x - y == k && !(x > px && y > px - p)
    requires x == x0 || (x < x0 && x >= px && y >= px - p && (x == px || y == px - p))
    ensures x == start
  {
  }

  /** One step back from diagonal k at depth d >= 1: from the snake start,
      the step item is the delete of the old row just left of x or the
      insert of the new row just above y. */
  lemma BackStep(a: seq<Row>, b: seq<Row>, d: int, k: int, p: int, px: int, x: int)
    requires OnPath(a, b, d, k) && d >= 1
    requires p == PrevDiag(a, b, d, k) && px == FR(a, b, d - 1, p)
    requires Start(a, b, d, k) == x
    ensures OnPath(a, b, d - 1, p)
    ensures Backtrack(a, b, d, k) == Backtrack(a, b, d - 1, p) + [StepItem(a, b, d, k)]
    ensures x > px ==> && x == px + 1 && p == k - 1 && 0 <= x - 1 < |a|
                       && StepItem(a, b, d, k) == Delete(x - 1, a[x - 1])
    ensures x <= px ==> && x == px && p == k + 1 && 0 <= x - k - 1 < |b| && x - k - 1 == px - p
                        && StepItem(a, b, d, k) == Insert(x - k - 1, b[x - k - 1])
  {
    PredecessorOnPath(a, b, d, k);
  }

  /** Emitting the step item of (d, k) in front of the items of the depths
      above d leaves the pass at the predecessor's end point. */
  lemma WalkAdvance(a: seq<Row>, b: seq<Row>, d: int, k: int, p: int, px: int, item: DiffItem, x0: int, y0: int, tail: seq<DiffItem>)
    requires Walking(a, b, d, x0, y0, tail) && k == x0 - y0 && d >= 1
    requires OnPath(a, b, d - 1, p) && px == FR(a, b, d - 1, p)
    requires Backtrack(a, b, d, k) == Backtrack(a, b, d - 1, p) + [item]
    ensures Walking(a, b, d - 1, px, px - p, [item] + tail)
  {
    var prev := Backtrack(a, b, d - 1, p);
    assert (prev + [item]) + tail == prev + ([item] + tail);
  }

  /** One depth d >= 1 of the backward pass, read off the saved table v of
      depth d: the predecessor diagonal p it picks and the end point px of
      that diagonal are those of the path, and undoing the snake from
      (x0, y0) stops at the snake start (x, y). */
  lemma UndoChain(a: seq<Row>, b: seq<Row>, trace: seq<seq<int>>, v: seq<int>, offset: int, d: int, k: int, p: int, px: int, x0: int, y0: int, x: int, y: int, tail: seq<DiffItem>)
    requires Walking(a, b, d, x0, y0, tail) && k == x0 - y0 && 1 <= d <= offset
    requires TraceLayers(a, b, trace, offset) && d < |trace| && v == trace[d]
    requires Readable(v, offset, d, k) && p == PrevK(v, offset, d, k) && 0 <= p + offset < |v| && px == v[p + offset]
    requires x - y == k && !(x > px && y > px - p)
    requires x == x0 || (x < x0 && x >= px && y >= px - p && (x == px || y == px - p))
    ensures p == PrevDiag(a, b, d, k) && px == FR(a, b, d - 1, p) && Start(a, b, d, k) == x
  {
    TraceAt(a, b, trace, offset, d);
    StartFromTable(a, b, v, offset, d, k);
    FRLower(a, b, d, k);
    RetreatStops(Start(a, b, d, k), px, p, k, x0, x, y);
  }

  /** Where the backward pass at depth d >= 1 stops undoing the snake, it
      either sits right of the predecessor's end point on the same row (a
      delete follows) or on its column below it (an insert follows). */
  lemma WalkRetreat(a: seq<Row>, b: seq<Row>, trace: seq<seq<int>>, v: seq<int>, offset: int, d: int, k: int, p: int, px: int, x0: int, y0: int, x: int, y: int, tail: seq<DiffItem>)
    requires Walking(a, b, d, x0, y0, tail) && k == x0 - y0 && 1 <= d <= offset
    requires TraceLayers(a, b, trace, offset) && d < |trace| && v == trace[d]
    requires Readable(v, offset, d, k) && p == PrevK(v, offset, d, k) && 0 <= p + offset < |v| && px == v[p + offset]
    requires x - y == k && !(x > px && y > px - p)
    requires x == x0 || (x < x0 && x >= px && y >= px - p && (x == px || y == px - p))
    ensures x > px ==> 0 < x <= |a| && y == px - p
    ensures x <= px ==> x == px && y > px - p && 0 < y <= |b|
  {
    UndoChain(a, b, trace, v, offset, d, k, p, px, x0, y0, x, y, tail);
    BackStep(a, b, d, k, p, px, x);
  }

  /** One depth d >= 1 of the backward pass: after undoing the snake from
      (x0, y0) to (rx, ry), emitting the delete or the insert there and
      moving to the predecessor's end point (x, y) leaves the pass one depth
      lower with `result` extended by the backtrace's item. */
  lemma WalkStep(a: seq<Row>, b: seq<Row>, trace: seq<seq<int>>, v: seq<int>, offset: int, d: int, k: int, p: int, px: int, x0: int, y0: int, tail: seq<DiffItem>, rx: int, ry: int, e: int, x: int, y: int, result: seq<DiffItem>)
    requires Walking(a, b, d, x0, y0, tail) && k == x0 - y0 && 1 <= d <= offset
    requires TraceLayers(a, b, trace, offset) && d < |trace| && v == trace[d]
    requires Readable(v, offset, d, k) && p == PrevK(v, offset, d, k) && 0 <= p + offset < |v| && px == v[p + offset]
    requires rx - ry == k && !(rx > px && ry > px - p)
    requires rx == x0 || (rx < x0 && rx >= px && ry >= px - p && (rx == px || ry == px - p))
    requires e == d - 1
    requires || (rx > px && 0 < rx <= |a| && x == px && y == ry && result == [Delete(rx - 1, a[rx - 1])] + tail)
             || (rx <= px && 0 < ry <= |b| && x == rx && y == px - p && result == [Insert(ry - 1, b[ry - 1])] + tail)
    ensures Walking(a, b, e, x, y, result)
  {
    UndoChain(a, b, trace, v, offset, d, k, p, px, x0, y0, rx, ry, tail);
    WalkEmit(a, b, d, k, p, px, x0, y0, rx, ry, tail);
  }

  /** From the snake start (x, y) of diagonal k at depth d >= 1, the item
      the backward pass emits is the step item, and it moves to the
      predecessor's end point. */
  lemma WalkEmit(a: seq<Row>, b: seq<Row>, d: int, k: int, p: int, px: int, x0: int, y0: int, x: int, y: int, tail: seq<DiffItem>)
    requires Walking(a, b, d, x0, y0, tail) && k == x0 - y0 && d >= 1
    requires p == PrevDiag(a, b, d, k) && px == FR(a, b, d - 1, p)
    requires Start(a, b, d, k) == x && x - y == k
    ensures x > px ==> && 0 <= x - 1 < |a| && y == px - p
                       && Walking(a, b, d - 1, px, px - p, [Delete(x - 1, a[x - 1])] + tail)
    ensures x <= px ==> && x == px && y > px - p && 0 <= y - 1 < |b|
                        && Walking(a, b, d - 1, px, px - p, [Insert(y - 1, b[y - 1])] + tail)
  {
    BackStep(a, b, d, k, p, px, x);
    if x > px {
      WalkAdvance(a, b, d, k, p, px, Delete(x - 1, a[x - 1]), x0, y0, tail);
    } else {
      WalkAdvance(a, b, d, k, p, px, Insert(y - 1, b[y - 1]), x0, y0, tail);
    }
  }

  /** Depth 0 ends the backward pass: the backtrace from the origin's
      diagonal is empty, so the items emitted are the whole backtrace. */
  lemma WalkOrigin(a: seq<Row>, b: seq<Row>, d: int, x0: int, y0: int, tail: seq<DiffItem>, e: int, x: int, y: int, result: seq<DiffItem>)
    requires d == 0 && Walking(a, b, d, x0, y0, tail)
    requires e == -1 && result == tail
    ensures Walking(a, b, e, x, y, result)
  {
    assert Backtrack(a, b, 0, x0 - y0) == [];
    assert [] + tail == tail;
  }
}
