/**
 * The two generic loop drivers of class `OpaquePredicates`:
 *
 *   for (int ii = start; opaque_true_arith(ii); ++ii) body(ii);
 *   for (int ii = start; opaque_true_arith(ii); ++ii) if (!body(ii)) break;
 *
 * The C++ drivers return nothing; what a caller observes is the sequence of
 * cursors handed to `body`, one per call, so each method here returns that
 * sequence of calls. `body` is a pure function of the cursor. `++ii` wraps
 * modulo 2^32 like every other signed operation of this model.
 */
module LoopDrivers {
  import opened MachineInt
  import opened OpaquePredicates

  /** The cursor after `i` increments from `start`. */
  function Cursor(start: Int32, i: nat): Int32 {
    Wrap32(start + i)
  }

  /** `++ii` moves the cursor on by one. */
  lemma NextCursor(start: Int32, i: nat)
    ensures Add32(Cursor(start, i), 1) == Cursor(start, i + 1)
  {
  }

  /** Fewer than 2^32 increments never bring the cursor back to a value it had. */
  lemma CursorsDiffer(start: Int32, i: nat, j: nat)
    requires i < j < Modulus
    ensures Cursor(start, i) != Cursor(start, j)
  {
  }

  /** Starting anywhere, the cursor reaches every 32-bit value `v`. */
  lemma CursorReaches(start: Int32, v: Int32)
    ensures 0 <= (v - start) % Modulus < Modulus
    ensures Cursor(start, (v - start) % Modulus) == v
  {
  }

  /** The first `n` cursors, in order. */
  function Cursors(start: Int32, n: nat): (r: seq<Int32>)
    ensures |r| == n
    ensures forall i :: 0 <= i < n ==> r[i] == Cursor(start, i)
  {
    if n == 0 then [] else Cursors(start, n - 1) + [Cursor(start, n - 1)]
  }

  /** Without wrap-around the cursors are `start, start+1, ...`, strictly increasing. */
  lemma CursorsIncreasing(start: Int32, n: nat)
    requires start + n <= MaxInt32 + 1
    ensures forall i :: 0 <= i < n ==> Cursors(start, n)[i] == start + i
    ensures forall i, j :: 0 <= i < j < n ==> Cursors(start, n)[i] < Cursors(start, n)[j]
  {
  }

  /** At most 2^32 cursors are pairwise distinct: none is visited twice. */
  lemma CursorsUnique(start: Int32, n: nat)
    requires n <= Modulus
    ensures forall i, j :: 0 <= i < j < n ==> Cursors(start, n)[i] != Cursors(start, n)[j]
  {
    forall i, j | 0 <= i < j < n
      ensures Cursors(start, n)[i] != Cursors(start, n)[j]
    {
      CursorsDiffer(start, i, j);
    }
  }

  /** `body` first returns false at the `k`-th cursor from `start`. */
  ghost predicate FirstFalseAt(start: Int32, body: Int32 -> bool, k: nat) {
    !body(Cursor(start, k)) && forall i :: 0 <= i < k ==> body(Cursor(start, i))
  }

  /** `calls` is what `forever_arith_loop_until(start, body)` hands to `body`. */
  ghost predicate UntilTrace(start: Int32, body: Int32 -> bool, calls: seq<Int32>) {
    |calls| >= 1 && calls == Cursors(start, |calls|) && FirstFalseAt(start, body, |calls| - 1)
  }

  /** The first false result is unique, so `UntilTrace` determines the calls. */
  lemma UntilTraceUnique(start: Int32, body: Int32 -> bool, calls: seq<Int32>, calls': seq<Int32>)
    requires UntilTrace(start, body, calls) && UntilTrace(start, body, calls')
    ensures calls == calls'
  {
  }

  /**
   * `forever_arith_loop_until(start, body)`: calls `body` on the cursors
   * `start, start+1, ...` and stops right after the first call that returns
   * false; the loop guard `opaque_true_arith(ii)` never stops it. The loop
   * ends only if `body` returns false for some 32-bit value; since the
   * cursor wraps, it then meets such a value within 2^32 steps.
   */
  method ForeverArithLoopUntil(start: Int32, body: Int32 -> bool) returns (calls: seq<Int32>)
    requires exists v: Int32 :: !body(v)
    ensures UntilTrace(start, body, calls)
    ensures forall k: nat :: FirstFalseAt(start, body, k) ==> |calls| == k + 1
    ensures !body(start) ==> calls == [start]
    ensures |calls| <= Modulus
    ensures forall i, j :: 0 <= i < j < |calls| ==> calls[i] != calls[j]
  {
    ghost var v: Int32 :| !body(v);
    CursorReaches(start, v);
    ghost var last := (v - start) % Modulus;
    calls := [];
    var ii := start;
    while OpaqueTrueArith(ii)
      invariant |calls| <= last
      invariant ii == Cursor(start, |calls|)
      invariant calls == Cursors(start, |calls|)
      invariant forall i :: 0 <= i < |calls| ==> body(calls[i])
      decreases last - |calls|
    {
      calls := calls + [ii];
      if !body(ii) {
        break;
      }
      NextCursor(start, |calls| - 1);
      ii := Add32(ii, 1);
    }
    ArithAlwaysTrue(ii);
    CursorsUnique(start, |calls|);
  }

  /** `forever_arith_loop_until(body)`: the same driver with `start = 0`. */
  method ForeverArithLoopUntilFromZero(body: Int32 -> bool) returns (calls: seq<Int32>)
    requires exists v: Int32 :: !body(v)
    ensures UntilTrace(0, body, calls)
    ensures !body(0) ==> calls == [0]
  {
    calls := ForeverArithLoopUntil(0, body);
  }

  /**
   * `forever_arith_loop_ignore_return(start, body)`, watched for its first
   * `observed` calls: the driver discards what `body` returns and never
   * stops by itself, so for every `observed` it makes at least that many
   * calls, on the cursors `start, start+1, ...`. The loop is left once
   * `observed` calls have been made (an observer's cut-off, not the
   * driver's); the guard `opaque_true_arith(ii)` never leaves it.
   */
  method ForeverArithLoopIgnoreReturn<R>(start: Int32, body: Int32 -> R, observed: nat)
    returns (calls: seq<Int32>)
    ensures calls == Cursors(start, observed)
  {
    calls := [];
    var ii := start;
    while OpaqueTrueArith(ii)
      invariant |calls| <= observed
      invariant ii == Cursor(start, |calls|)
      invariant calls == Cursors(start, |calls|)
      decreases observed - |calls|
    {
      if |calls| == observed {
        break;
      }
      var _ := body(ii);
      calls := calls + [ii];
      NextCursor(start, |calls| - 1);
      ii := Add32(ii, 1);
    }
    ArithAlwaysTrue(ii);
  }

  /** `forever_arith_loop_ignore_return(body)`: the same driver with `start = 0`. */
  method ForeverArithLoopIgnoreReturnFromZero<R>(body: Int32 -> R, observed: nat)
    returns (calls: seq<Int32>)
    ensures calls == Cursors(0, observed)
  {
    calls := ForeverArithLoopIgnoreReturn(0, body, observed);
  }
}
