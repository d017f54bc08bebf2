/**
 * `Piece.animateMove` (src/components/Piece.ts): the requested square is
 * clamped to an index of the board's track, and the piece then steps one
 * index at a time, wrapping round the end of the track, until it reaches
 * that index; each step queues one animation segment.  The board's track
 * length `Board_Positions.length` is a parameter.
 */
module PieceWalk {

  function Min(a: int, b: int): int { if a <= b then a else b }
  function Max(a: int, b: int): int { if a <= b then b else a }

  /** `Math.max(1, Math.min(newPos, length)) - 1`, for an integer request. */
  function Clamp(newPos: int, length: int): (target: int)
    requires 0 < length
    ensures 0 <= target < length
    ensures 1 <= newPos <= length ==> target == newPos - 1
    ensures newPos < 1 ==> target == 0
    ensures length < newPos ==> target == length - 1
  {
    Max(1, Min(newPos, length)) - 1
  }

  /** One step of the loop: `i++; i = i % length`. */
  function Step(i: nat, length: nat): (next: nat)
    requires 0 < length
    ensures next < length
    ensures next == (i + 1) % length
    ensures i + 1 < length ==> next == i + 1
    ensures i + 1 == length ==> next == 0
  {
    (i + 1) % length
  }

  /** How many steps it takes to go forward from index `i` to index `target` on a track of `length`. */
  function Distance(i: int, target: int, length: int): (d: int)
    requires 0 <= i < length && 0 <= target < length
    ensures 0 <= d < length
    ensures d == (target - i) % length
  {
    ModOfSmall(target - i, length);
    if i <= target then target - i else target - i + length
  }

  /** A number within one modulus below zero, or below the modulus, reduces by at most one addition. */
  lemma ModOfSmall(n: int, m: int)
    requires 0 < m && -m <= n < m
    ensures n % m == if n < 0 then n + m else n
  {
    var r := if n < 0 then n + m else n;
    var q := if n < 0 then -1 else 0;
    assert n == q * m + r && 0 <= r < m;
  }

  /**
   * The indices the loop visits, one per queued animation segment, starting
   * from `i` (which may lie beyond the track: the first step wraps it).
   */
  function Walk(i: nat, target: nat, length: nat): (visited: seq<nat>)
    requires 0 < length && target < length
    ensures forall k :: 0 <= k < |visited| ==> visited[k] < length
    ensures visited == [] <==> i == target
    ensures visited != [] ==> visited[|visited| - 1] == target
    decreases if i < length then Distance(i, target, length) else length
  {
    if i == target then []
    else
      var next := Step(i, length);
      [next] + Walk(next, target, length)
  }

  /** From an index on the track, the walk takes exactly `(target - start) mod length` steps. */
  lemma {:induction false} WalkLength(start: nat, target: nat, length: nat)
    requires 0 < length && start < length && target < length
    ensures |Walk(start, target, length)| == (target - start) % length
    decreases Distance(start, target, length)
  {
    if start != target {
      var next := Step(start, length);
      WalkLength(next, target, length);
    }
  }

  /** Each index in `w` is one step past the one before it, modulo `length`. */
  ghost predicate StepsByOne(w: seq<nat>, length: nat)
    requires 0 < length
  {
    forall k :: 0 < k < |w| ==> w[k] == (w[k - 1] + 1) % length
  }

  /** Consecutive visited indices are one step apart, modulo the track length. */
  lemma {:induction false} WalkSteps(start: nat, target: nat, length: nat)
    requires 0 < length && target < length
    ensures var w := Walk(start, target, length);
            (w != [] ==> w[0] == (start + 1) % length) && StepsByOne(w, length)
    decreases if start < length then Distance(start, target, length) else length
  {
    if start != target {
      var next := Step(start, length);
      WalkSteps(next, target, length);
      StepsByOneCons(next, Walk(next, target, length), length);
    }
  }

  lemma StepsByOneCons(x: nat, rest: seq<nat>, length: nat)
    requires 0 < length
    requires rest != [] ==> rest[0] == (x + 1) % length
    requires StepsByOne(rest, length)
    ensures StepsByOne([x] + rest, length)
  {
    var w := [x] + rest;
    forall k | 0 < k < |w| ensures w[k] == (w[k - 1] + 1) % length {
      if k > 1 {
        assert w[k] == rest[k - 1] && w[k - 1] == rest[k - 2];
      }
    }
  }

  class Piece {
    /** The index of the track the piece stands on. */
    var position: nat

    constructor (position: nat)
      ensures this.position == position
    {
      this.position := position;
    }

    /**
     * `animateMove`: returns the indices of the queued animation segments,
     * which are the walk from the current index to the clamped target, and
     * leaves the piece on the clamped target.
     */
    method AnimateMove(newPos: int, length: nat) returns (timeline: seq<nat>)
      requires 0 < length
      modifies this`position
      ensures position == Clamp(newPos, length)
      ensures timeline == Walk(old(position), Clamp(newPos, length), length)
    {
      var target: nat := Clamp(newPos, length);
      var i: nat := position;
      timeline := [];
      while i != target
        invariant i < length || i == position
        invariant timeline + Walk(i, target, length) == Walk(position, target, length)
        decreases if i < length then Distance(i, target, length) else length
      {
        ghost var rest := Walk(i, target, length);
        i := i + 1;
        i := i % length;
        assert rest == [i] + Walk(i, target, length);
        timeline := timeline + [i];
      }
      position := target;
    }
  }

  // ------------------------------------------------ non-integer requests

  /** `Math.max(1, Math.min(newPos, length)) - 1` on the `number` the prompt yields, as written. */
  function ClampReal(newPos: real, length: nat): (target: real)
    requires 0 < length
    ensures 0.0 <= target < length as real
  {
    var l := length as real;
    (if newPos <= l then (if 1.0 <= newPos then newPos else 1.0) else l) - 1.0
  }

  /**
   * With the request "2.5" the clamped target is 1.5; the loop index is
   * always an integer, so `i != newPos` never fails and the loop never ends.
   */
  lemma NonIntegerTargetIsNeverReached(length: nat, i: int)
    requires 3 <= length
    ensures ClampReal(2.5, length) == 1.5
    ensures i as real != ClampReal(2.5, length)
  {
  }

  /** `parseInt` on a plain decimal numeral: the integer part, truncated toward zero. */
  function Truncate(x: real): (n: int)
    ensures 0.0 <= x ==> n as real <= x < n as real + 1.0
    ensures x < 0.0 ==> n as real - 1.0 < x <= n as real
  {
    if 0.0 <= x then x.Floor else -((-x).Floor)
  }

  /**
   * The request parsed to an integer first, as the board's other piece
   * class does: the clamped target is then a track index, which `Walk`
   * reaches, and it agrees with the as-written clamp on that integer.
   */
  function ClampParsed(newPos: real, length: nat): (target: nat)
    requires 0 < length
    ensures target < length
    ensures target as real == ClampReal(Truncate(newPos) as real, length)
  {
    Clamp(Truncate(newPos), length)
  }
}
