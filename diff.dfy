/**
 * The diff engine of src/diff.ts: `myersDiff` with its forward pass over the
 * table `v`, the row comparison `deepEqual`, and the backward pass
 * `buildPath` over the saved copies of the table.
 */
module Diff {
  import opened Types
  import opened EditGraph
  import opened Furthest
  import opened EditScript
  import opened Backtrace
  import opened Table

  /** `deepEqual` on two rows: both are arrays, so they are equal when their
      lengths agree and every pair of cells is strictly equal. */
  function DeepEqual(a: Row, b: Row): (r: bool)
    ensures r <==> a == b
  {
    |a| == |b| && forall i :: 0 <= i < |a| ==> a[i] == b[i]
  }

  /** `myersDiff(old_seq, new_seq)`: the shortest insert/delete script from
      the old rows to the new rows. */
  method MyersDiff(old_seq: seq<Row>, new_seq: seq<Row>) returns (result: seq<DiffItem>)
    ensures result == Script(old_seq, new_seq)
    ensures WellFormed(old_seq, new_seq, result) && Increasing(result)
    ensures Reconstructs(old_seq, new_seq, result)
    ensures |result| == EditDistance(old_seq, new_seq)
  {
    if |old_seq| == 0 {
      result := InsertAll(new_seq);
    } else if |new_seq| == 0 {
      result := DeleteAll(old_seq);
    } else {
      result := SearchPaths(old_seq, new_seq);
    }
    ScriptCorrect(old_seq, new_seq);
  }

  /** The body of `myersDiff` past its two early returns: the forward pass
      over depths d = 0, 1, ..., n + m, saving a copy of `v` before each
      depth, and `buildPath` once a depth reaches the corner. */
  method SearchPaths(old_seq: seq<Row>, new_seq: seq<Row>) returns (result: seq<DiffItem>)
    requires |old_seq| > 0 && |new_seq| > 0
    ensures result == Script(old_seq, new_seq)
  {
    var n := |old_seq|;
    var m := |new_seq|;
    var max := n + m;
    ScriptOfNonEmpty(old_seq, new_seq);

    var v := new int[2 * max + 1](_ => -1);
    var offset := max;
    v[offset + 1] := 0;
    var trace: seq<seq<int>> := [];
    ghost var D := EditDistance(old_seq, new_seq);
    EditDistanceBounds(old_seq, new_seq);

    var d := 0;
    while d <= max
      invariant 0 <= d <= D
      invariant v.Length == 2 * max + 1
      invariant Layer(old_seq, new_seq, v[..], offset, d - 1)
      invariant |trace| == d && TraceLayers(old_seq, new_seq, trace, offset)
      decreases max - d
    {
      var current_v := v[..];
      var hit := SearchDepth(old_seq, new_seq, v, offset, d);
      TraceExtend(old_seq, new_seq, trace, current_v, offset);
      trace := trace + [current_v];
      if hit {
        result := BuildPath(trace, old_seq, new_seq, n, m);
        return;
      }
      d := d + 1;
    }
    assert false;
    result := [];
  }

  /** One depth d of the forward pass of `myersDiff` (the loop over k):
      every diagonal k = -d, -d + 2, ..., d gets its furthest-reaching x,
      read from the neighbours of depth d - 1 and extended by the snake. The
      pass stops at the first diagonal that reaches x >= n and y >= m,
      which happens exactly at depth EditDistance(old_seq, new_seq). */
  method SearchDepth(old_seq: seq<Row>, new_seq: seq<Row>, v: array<int>, offset: int, d: int) returns (hit: bool)
    requires offset == |old_seq| + |new_seq| && v.Length == 2 * offset + 1
    requires 0 <= d <= EditDistance(old_seq, new_seq) && Layer(old_seq, new_seq, v[..], offset, d - 1)
    modifies v
    ensures hit ==> d == EditDistance(old_seq, new_seq)
    ensures !hit ==> d < EditDistance(old_seq, new_seq) && Layer(old_seq, new_seq, v[..], offset, d)
    ensures forall i :: 0 <= i < v.Length && !Diag(d, i - offset) ==> v[i] == old(v[i])
  {
    var n := |old_seq|;
    var m := |new_seq|;
    EditDistanceBounds(old_seq, new_seq);
    ghost var current_v := v[..];
    ProcessedStart(old_seq, new_seq, current_v, offset, d);
    var k := -d;
    while k <= d
      invariant -d <= k <= d + 2 && (d + k) % 2 == 0
      invariant Processed(old_seq, new_seq, v[..], current_v, offset, d, k)
      invariant NoHitBelow(old_seq, new_seq, d, k)
      decreases d + 2 - k
    {
      ghost var before := v[..];
      TableStart(old_seq, new_seq, before, current_v, offset, d, k);
      var x := if k == -d || (k != d && v[k - 1 + offset] < v[k + 1 + offset])
               then v[k + 1 + offset]
               else v[k - 1 + offset] + 1;
      ghost var start := x;

      var y := x - k;
      x, y := FollowSnake(old_seq, new_seq, x, y);

      v[k + offset] := x;
      ghost var after := before[k + offset := x];
      assert v[..] == after;
      DiagonalDone(old_seq, new_seq, before, after, current_v, offset, d, k, start, x);

      if x >= n && y >= m {
        assert OffDepthUnchanged(v[..], current_v, offset, d);
        return true;
      }
      k := k + 2;
    }
    ProcessedDone(old_seq, new_seq, v[..], current_v, offset, d, k);
    NoHitDone(old_seq, new_seq, d, k);
    return false;
  }

  /** The snake loop of the forward pass: from (x, y) follow equal rows
      while both positions lie inside the sequences. */
  method FollowSnake(old_seq: seq<Row>, new_seq: seq<Row>, x0: int, y0: int) returns (x: int, y: int)
    requires 0 <= x0 && 0 <= y0
    ensures x == Slide(old_seq, new_seq, x0, y0) && x - y == x0 - y0
  {
    x, y := x0, y0;
    while x < |old_seq| && y < |new_seq| && DeepEqual(old_seq[x], new_seq[y])
      invariant x0 <= x && x - y == x0 - y0
      invariant Slide(old_seq, new_seq, x, y) == Slide(old_seq, new_seq, x0, y0)
      decreases |old_seq| - x
    {
      x := x + 1;
      y := y + 1;
    }
  }

  /** The snake loop of the backward pass: from (x, y) step back along the
      diagonal while both coordinates exceed the predecessor's end point.
      It stops at the first point where one of them no longer does. */
  method RetreatSnake(x0: int, y0: int, prev_x: int, prev_y: int) returns (x: int, y: int)
    ensures x - y == x0 - y0 && !(x > prev_x && y > prev_y)
    ensures x == x0 || (x < x0 && x >= prev_x && y >= prev_y && (x == prev_x || y == prev_y))
  {
    x, y := x0, y0;
    while x > prev_x && y > prev_y
      invariant x - y == x0 - y0 && x <= x0
      invariant x == x0 || (x >= prev_x && y >= prev_y)
      decreases x - prev_x
    {
      x := x - 1;
      y := y - 1;
    }
  }

  /** `buildPath`: walk the saved tables back from the corner, undoing each
      snake and emitting one insert or delete per depth, front first. */
  method BuildPath(trace: seq<seq<int>>, old_seq: seq<Row>, new_seq: seq<Row>, n: int, m: int) returns (result: seq<DiffItem>)
    requires n == |old_seq| && m == |new_seq|
    requires |trace| == EditDistance(old_seq, new_seq) + 1
    requires TraceLayers(old_seq, new_seq, trace, n + m)
    ensures OnPath(old_seq, new_seq, EditDistance(old_seq, new_seq), n - m)
    ensures result == Backtrack(old_seq, new_seq, EditDistance(old_seq, new_seq), n - m)
  {
    WalkFromCorner(old_seq, new_seq);
    EditDistanceBounds(old_seq, new_seq);
    result := [];
    var x := n;
    var y := m;
    var d := |trace| - 1;
    while d >= 0
      invariant -1 <= d < |trace|
      invariant Walking(old_seq, new_seq, d, x, y, result)
      decreases d
    {
      var v := trace[d];
      var offset := n + m;
      var k := x - y;
      WalkTable(old_seq, new_seq, trace, v, offset, d, x, y, result);

      var prev_k: int;
      if k == -d || (k != d && v[k - 1 + offset] < v[k + 1 + offset]) {
        prev_k := k + 1;
      } else {
        prev_k := k - 1;
      }
      var prev_x := v[prev_k + offset];
      var prev_y := prev_x - prev_k;

      ghost var depth, end_x, end_y, tail := d, x, y, result;
      x, y := RetreatSnake(x, y, prev_x, prev_y);
      ghost var rx, ry := x, y;

      if d > 0 {
        WalkRetreat(old_seq, new_seq, trace, v, offset, d, k, prev_k, prev_x, end_x, end_y, x, y, tail);
        if x > prev_x {
          result := [Delete(x - 1, old_seq[x - 1])] + result;
          x := prev_x;
        } else if y > prev_y {
          result := [Insert(y - 1, new_seq[y - 1])] + result;
          y := prev_y;
        }
      }
      d := d - 1;
      if depth > 0 {
        WalkStep(old_seq, new_seq, trace, v, offset, depth, k, prev_k, prev_x, end_x, end_y, tail, rx, ry, d, x, y, result);
      } else {
        WalkOrigin(old_seq, new_seq, depth, end_x, end_y, tail, d, x, y, result);
      }
    }
  }
}
