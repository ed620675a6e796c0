/**
 * The call patterns the repository's tests exercise, written as clients of
 * the two queue models: each method builds a fresh queue, makes the calls a
 * test makes, and returns what the test inspects, so that its postcondition
 * states what the test expects, for every size rather than the few sizes
 * the tests try.
 */
module Scenarios {
  import BoundedQueue
  import LinkedQueue

  /**
   * The k-th value pushed when every round i pushes i and then -i: rounds
   * push 0, 0, 1, -1, 2, -2, ... so this is also the value the k-th pop
   * yields. For even k it is k / 2 and for odd k it is -(k / 2), which for
   * k >= 0 is also what C++'s truncating `-k / 2` gives.
   */
  function Interleaved(k: nat): int
  {
    if k % 2 == 0 then k / 2 else -(k / 2)
  }

  /** Everything pushed by the first `rounds` rounds, in push order: 0, 0, 1, -1, 2, -2, ... */
  function Pushes(rounds: nat): (r: seq<int>)
    ensures |r| == 2 * rounds
  {
    if rounds == 0 then [] else Pushes(rounds - 1) + [rounds - 1, -(rounds - 1)]
  }

  /** Position k of the push order holds `Interleaved(k)`. */
  lemma {:induction false} PushesInterleaved(rounds: nat)
    ensures forall k :: 0 <= k < 2 * rounds ==> Pushes(rounds)[k] == Interleaved(k)
  {
    if rounds > 0 {
      PushesInterleaved(rounds - 1);
      var j := rounds - 1;
      assert Interleaved(2 * j) == j;
      assert Interleaved(2 * j + 1) == -j;
    }
  }

  /** The first n values popped, in the push order, are `Interleaved(0)` to `Interleaved(n - 1)`. */
  lemma PoppedInterleaved(n: nat, popped: seq<int>)
    requires popped == Pushes(n)[..n]
    ensures |popped| == n && forall i :: 0 <= i < n ==> popped[i] == Interleaved(i)
  {
    PushesInterleaved(n);
  }

  /**
   * After i rounds the queue holds what was pushed from position i on, and
   * the pops so far yielded the first i values pushed.
   */
  ghost predicate AfterRounds(i: nat, contents: seq<int>, popped: seq<int>)
  {
    |Pushes(i)| == 2 * i && contents == Pushes(i)[i..] && popped == Pushes(i)[..i]
  }

  /**
   * Round i pushes i and -i and pops `value`, leaving `rest`: it takes the
   * state after i rounds to the state after i + 1 rounds.
   */
  lemma InterleavedRound(i: nat, contents: seq<int>, popped: seq<int>, value: int, rest: seq<int>)
    requires AfterRounds(i, contents, popped)
    requires [value] + rest == contents + [i as int, -(i as int)]
    ensures AfterRounds(i + 1, rest, popped + [value]) && |rest| == i + 1
  {
    var p, p' := Pushes(i), Pushes(i + 1);
    assert p' == p + [i as int, -(i as int)];
    assert p'[i..] == p[i..] + [i as int, -(i as int)];
    assert p'[..i] == p[..i];
    assert ([value] + rest)[0] == value && ([value] + rest)[1..] == rest;
    assert p'[i..][1..] == p'[i + 1..];
  }

  /** Pop on a fresh bounded queue fails and leaves the caller's value alone. */
  method BoundedPopEmpty(capacity: int) returns (ok: bool, value: int)
    requires capacity >= 0
    ensures !ok && value == -1
  {
    var q := new BoundedQueue.Queue<int>(capacity);
    ok, value := q.Pop(-1);
  }

  /**
   * Pushes 0 .. n-1 into a fresh bounded queue and then pops n times: the
   * queue starts empty, every pop succeeds and the pops yield 0 .. n-1 in
   * order, the queue reports empty only after the
   * last pop, and one more pop fails.
   */
  method BoundedPushAllThenPop(capacity: int, n: nat) returns (emptyAtStart: bool, popped: seq<int>, allPopped: bool, emptyAfterPush: seq<bool>, emptyAfterPop: seq<bool>, extraPop: bool)
    requires n <= capacity - 1
    ensures emptyAtStart
    ensures |popped| == n && forall i :: 0 <= i < n ==> popped[i] == i
    ensures allPopped
    ensures |emptyAfterPush| == n && forall i :: 0 <= i < n ==> !emptyAfterPush[i]
    ensures |emptyAfterPop| == n && forall i :: 0 <= i < n ==> emptyAfterPop[i] == (i == n - 1)
    ensures !extraPop
  {
    var q := new BoundedQueue.Queue<int>(capacity);
    emptyAtStart := q.IsEmpty();
    emptyAfterPush := [];
    for i := 0 to n
      invariant q.Valid() && fresh(q.data) && q.capacity == capacity
      invariant |q.Contents()| == i && forall k :: 0 <= k < i ==> q.Contents()[k] == k
      invariant |emptyAfterPush| == i && forall k :: 0 <= k < i ==> !emptyAfterPush[k]
    {
      var pushed := q.Push(i);
      emptyAfterPush := emptyAfterPush + [q.IsEmpty()];
    }
    popped, allPopped, emptyAfterPop := [], true, [];
    for i := 0 to n
      invariant q.Valid() && fresh(q.data)
      invariant |q.Contents()| == n - i && forall k :: 0 <= k < n - i ==> q.Contents()[k] == i + k
      invariant |popped| == i && forall k :: 0 <= k < i ==> popped[k] == k
      invariant allPopped
      invariant |emptyAfterPop| == i && forall k :: 0 <= k < i ==> emptyAfterPop[k] == (k == n - 1)
    {
      var ok, value := q.Pop(-1);
      popped, allPopped := popped + [value], allPopped && ok;
      emptyAfterPop := emptyAfterPop + [q.IsEmpty()];
    }
    var value;
    extraPop, value := q.Pop(-1);
  }

  /**
   * One round of the push-twice-per-pop test on a bounded queue holding the
   * values pushed from position i on: pushes i and -i, pops once and asks
   * whether the queue is empty after the pushes and after the pop.
   */
  method BoundedRound(q: BoundedQueue.Queue<int>, i: nat) returns (pushedEmpty: bool, ok: bool, value: int, poppedEmpty: bool)
    requires q.Valid() && |q.Contents()| + 3 <= q.capacity
    modifies q, q.data
    ensures q.Valid() && [value] + q.Contents() == old(q.Contents()) + [i as int, -(i as int)]
    ensures !pushedEmpty && ok && !poppedEmpty
  {
    BoundedPushPair(q, i);
    pushedEmpty := q.IsEmpty();
    ok, value := q.Pop(0);
    poppedEmpty := q.IsEmpty();
  }

  /** Pushes i and then -i into a bounded queue with room for both. */
  method BoundedPushPair(q: BoundedQueue.Queue<int>, i: nat)
    requires q.Valid() && |q.Contents()| + 3 <= q.capacity
    modifies q, q.data
    ensures q.Valid() && q.Contents() == old(q.Contents()) + [i as int, -(i as int)]
  {
    var pushed := q.Push(i);
    pushed := q.Push(-(i as int));
  }

  /**
   * Each of n rounds pushes i and -i into a fresh bounded queue and pops
   * once: the queue starts empty, every pop succeeds, the pops yield 0, 0,
   * 1, -1, 2, -2, ... and the queue is never empty after the pushes or after
   * the pop of a round. Round i holds i + 2 values at its peak, so the
   * buffer needs n + 2 slots.
   */
  method BoundedPushTwicePerPop(capacity: int, n: nat) returns (emptyAtStart: bool, popped: seq<int>, allPopped: bool, neverEmpty: bool)
    requires n + 2 <= capacity
    ensures |popped| == n && forall i :: 0 <= i < n ==> popped[i] == Interleaved(i)
    ensures emptyAtStart && allPopped && neverEmpty
  {
    var q := new BoundedQueue.Queue<int>(capacity);
    emptyAtStart := q.IsEmpty();
    popped, allPopped, neverEmpty := [], true, true;
    for i := 0 to n
      invariant q.Valid() && q.capacity == capacity
      invariant AfterRounds(i, q.Contents(), popped) && |q.Contents()| == i
      invariant allPopped && neverEmpty
    {
      ghost var before := q.Contents();
      var pushedEmpty, ok, value, poppedEmpty := BoundedRound(q, i);
      InterleavedRound(i, before, popped, value, q.Contents());
      popped, allPopped := popped + [value], allPopped && ok;
      neverEmpty := neverEmpty && !pushedEmpty && !poppedEmpty;
    }
    PoppedInterleaved(n, popped);
  }

  /**
   * Fills a fresh bounded queue with capacity - 1 values: each push succeeds
   * on a queue that was not full, the queue is then full, one more push
   * fails, and a pop yields the first value pushed, after which the queue is
   * no longer full.
   */
  method BoundedCannotPushWhenFull(capacity: int) returns (fullBefore: seq<bool>, pushedOk: seq<bool>, fullAtEnd: bool, overflow: bool, popped: int, fullAfterPop: bool)
    requires capacity >= 2
    ensures |fullBefore| == capacity - 1 && forall i :: 0 <= i < capacity - 1 ==> !fullBefore[i]
    ensures |pushedOk| == capacity - 1 && forall i :: 0 <= i < capacity - 1 ==> pushedOk[i]
    ensures fullAtEnd && !overflow && popped == 0 && !fullAfterPop
  {
    var q := new BoundedQueue.Queue<int>(capacity);
    fullBefore, pushedOk := [], [];
    for i := 0 to capacity - 1
      invariant q.Valid() && fresh(q.data) && q.capacity == capacity
      invariant |q.Contents()| == i && forall k :: 0 <= k < i ==> q.Contents()[k] == k
      invariant |fullBefore| == i && forall k :: 0 <= k < i ==> !fullBefore[k]
      invariant |pushedOk| == i && forall k :: 0 <= k < i ==> pushedOk[k]
    {
      fullBefore := fullBefore + [q.IsFull()];
      var ok := q.Push(i);
      pushedOk := pushedOk + [ok];
    }
    fullAtEnd := q.IsFull();
    overflow := q.Push(1);
    var ok;
    ok, popped := q.Pop(-1);
    fullAfterPop := q.IsFull();
  }

  /** A fresh bounded queue over `capacity` slots reports a usable capacity of `capacity - 1`. */
  method BoundedGetCapacity(capacity: int) returns (r: int)
    requires capacity >= 0
    ensures r == capacity - 1
  {
    var q := new BoundedQueue.Queue<int>(capacity);
    r := q.GetCapacity();
  }

  /** Pop on a fresh linked queue fails and leaves the caller's value alone. */
  method LinkedPopEmpty() returns (ok: bool, value: int)
    ensures !ok && value == -1
  {
    var q := new LinkedQueue.Queue<int>();
    ok, value := q.Pop(-1);
  }

  /**
   * IsEmpty as written answers false on a fresh linked queue, where the
   * documented IsEmpty answers true.
   */
  method LinkedFreshIsEmpty() returns (asWritten: bool, intended: bool)
    ensures !asWritten && intended
  {
    var q := new LinkedQueue.Queue<int>();
    asWritten := q.IsEmptyAsWritten();
    intended := q.IsEmpty();
  }

  /**
   * Pushes 0 .. n-1 into a fresh linked queue and then pops n times: the
   * queue starts empty, every pop succeeds and the pops yield 0 .. n-1 in
   * order, the queue reports empty only after the
   * last pop, and one more pop fails. There is no size limit.
   */
  method LinkedPushAllThenPop(n: nat) returns (emptyAtStart: bool, popped: seq<int>, allPopped: bool, emptyAfterPush: seq<bool>, emptyAfterPop: seq<bool>, extraPop: bool)
    ensures emptyAtStart
    ensures |popped| == n && forall i :: 0 <= i < n ==> popped[i] == i
    ensures allPopped
    ensures |emptyAfterPush| == n && forall i :: 0 <= i < n ==> !emptyAfterPush[i]
    ensures |emptyAfterPop| == n && forall i :: 0 <= i < n ==> emptyAfterPop[i] == (i == n - 1)
    ensures !extraPop
  {
    var q := new LinkedQueue.Queue<int>();
    emptyAtStart := q.IsEmpty();
    emptyAfterPush := [];
    for i := 0 to n
      invariant q.Valid()
      invariant |q.Contents| == i && forall k :: 0 <= k < i ==> q.Contents[k] == k
      invariant |emptyAfterPush| == i && forall k :: 0 <= k < i ==> !emptyAfterPush[k]
    {
      q.Push(i);
      emptyAfterPush := emptyAfterPush + [q.IsEmpty()];
    }
    popped, allPopped, emptyAfterPop := [], true, [];
    for i := 0 to n
      invariant q.Valid()
      invariant |q.Contents| == n - i && forall k :: 0 <= k < n - i ==> q.Contents[k] == i + k
      invariant |popped| == i && forall k :: 0 <= k < i ==> popped[k] == k
      invariant allPopped
      invariant |emptyAfterPop| == i && forall k :: 0 <= k < i ==> emptyAfterPop[k] == (k == n - 1)
    {
      var ok, value := q.Pop(-1);
      popped, allPopped := popped + [value], allPopped && ok;
      emptyAfterPop := emptyAfterPop + [q.IsEmpty()];
    }
    var value;
    extraPop, value := q.Pop(-1);
  }

  /**
   * One round of the push-twice-per-pop test on a linked queue holding the
   * values pushed from position i on: pushes i and -i, pops once and asks
   * whether the queue is empty after the pushes and after the pop.
   */
  method LinkedRound(q: LinkedQueue.Queue<int>, i: nat) returns (pushedEmpty: bool, ok: bool, value: int, poppedEmpty: bool)
    requires q.Valid()
    modifies q
    ensures q.Valid() && [value] + q.Contents == old(q.Contents) + [i as int, -(i as int)]
    ensures !pushedEmpty && ok && !poppedEmpty
  {
    q.Push(i);
    q.Push(-(i as int));
    pushedEmpty := q.IsEmpty();
    ok, value := q.Pop(0);
    poppedEmpty := q.IsEmpty();
  }

  /**
   * Each of n rounds pushes i and -i into a fresh linked queue and pops
   * once: the queue starts empty, every pop succeeds, the pops yield 0, 0,
   * 1, -1, 2, -2, ... and the queue is never empty after the pushes or after
   * the pop of a round.
   */
  method LinkedPushTwicePerPop(n: nat) returns (emptyAtStart: bool, popped: seq<int>, allPopped: bool, neverEmpty: bool)
    ensures |popped| == n && forall i :: 0 <= i < n ==> popped[i] == Interleaved(i)
    ensures emptyAtStart && allPopped && neverEmpty
  {
    var q := new LinkedQueue.Queue<int>();
    emptyAtStart := q.IsEmpty();
    popped, allPopped, neverEmpty := [], true, true;
    for i := 0 to n
      invariant q.Valid()
      invariant AfterRounds(i, q.Contents, popped) && |q.Contents| == i
      invariant allPopped && neverEmpty
    {
      ghost var before := q.Contents;
      var pushedEmpty, ok, value, poppedEmpty := LinkedRound(q, i);
      InterleavedRound(i, before, popped, value, q.Contents);
      popped, allPopped := popped + [value], allPopped && ok;
      neverEmpty := neverEmpty && !pushedEmpty && !poppedEmpty;
    }
    PoppedInterleaved(n, popped);
  }
}
