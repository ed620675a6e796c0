/**
 * The unbounded single-producer single-consumer queue: a singly linked chain
 * of nodes from `first` through `divider` to `last`. The nodes before
 * `divider` are consumed and wait to be deleted by the producer; the values
 * still queued are held by the nodes after `divider` up to and including
 * `last`.
 *
 * Nodes are modelled as an arena: a node is a natural number, `next` and
 * `value` hold the link and the value of every node allocated so far, indexed
 * by node, so `|next|` is the node the next `new` hands out; `freed` holds the
 * nodes `delete` has released. The
 * arena hands out nodes in increasing order and Push always links the new
 * node after `last`, so the live chain is the run of consecutive nodes from
 * `first` to `last`, each linked to its successor and `last` linked to null.
 * Each operation is one sequential step; atomics and memory ordering are
 * dropped.
 */
module LinkedQueue {

  /** A link to a node: null or a node of the arena. */
  datatype Ptr = Null | Ref(id: nat)

  class Queue<V(0)> {
    /** The link of every node allocated so far, indexed by node. */
    var next: seq<Ptr>
    /** The value of every node allocated so far, indexed by node. */
    var value: seq<V>
    /** The nodes already deleted. */
    var freed: set<nat>

    var first: Ptr
    var divider: nat
    var last: nat

    /** The queued values, oldest first. */
    ghost var Contents: seq<V>

    /** The first live node, or the number of nodes allocated once every node has been deleted. */
    ghost function Start(): nat
      reads this
    {
      if first.Ref? then first.id else |next|
    }

    /**
     * Following `next` from `first` visits the nodes `Start()`, `Start() + 1`,
     * ... up to the newest node, whose link is null; every node before the
     * chain, and only those, has been deleted.
     */
    ghost predicate Linked()
      reads this
    {
      && |value| == |next|
      && Start() <= |next|
      && (first.Ref? ==> first.id < |next| && next[|next| - 1] == Null)
      && (forall id :: Start() <= id < |next| - 1 ==> next[id] == Ref(id + 1))
      && (forall id: nat :: id in freed <==> id < Start())
    }

    /**
     * The chain is non-empty and runs from `first` through `divider` to
     * `last`, and the values of the nodes after `divider` are the queued
     * values.
     */
    ghost predicate Valid()
      reads this
    {
      && Linked()
      && first.Ref?
      && first.id <= divider <= last
      && last == |next| - 1
      && |Contents| == last - divider
      && (forall i :: 0 <= i < |Contents| ==> Contents[i] == value[divider + 1 + i])
    }

    /** The node reached from `p` by following `steps` links, or null once the chain ends. */
    ghost function Follow(p: Ptr, steps: nat): Ptr
      reads this
      decreases steps
    {
      if steps == 0 || p.Null? then p
      else if p.id < |next| then Follow(next[p.id], steps - 1)
      else Null
    }

    /** Within the chain, following `j` links from node `id` reaches node `id + j`. */
    lemma {:induction false} FollowRun(id: nat, j: nat)
      requires Linked() && Start() <= id && id + j < |next|
      ensures Follow(Ref(id), j) == Ref(id + j)
      decreases j
    {
      if j > 0 {
        assert next[id] == Ref(id + 1);
        FollowRun(id + 1, j - 1);
      }
    }

    /**
     * Following `next` from `first` reaches `divider`, then `last`, and one
     * link past `last` is null.
     */
    lemma Reachable()
      requires Valid()
      ensures Follow(first, divider - first.id) == Ref(divider)
      ensures Follow(first, last - first.id) == Ref(last)
      ensures Follow(first, last - first.id + 1) == Null
    {
      FollowRun(first.id, divider - first.id);
      FollowRun(first.id, last - first.id);
      FollowPast(first.id, last - first.id);
    }

    /** One link past the newest node, following from a node of the chain, is null. */
    lemma {:induction false} FollowPast(id: nat, j: nat)
      requires Linked() && first.Ref? && Start() <= id && id + j == |next| - 1
      ensures Follow(Ref(id), j + 1) == Null
      decreases j
    {
      if j > 0 {
        assert next[id] == Ref(id + 1);
        FollowPast(id + 1, j - 1);
      }
    }

    /** `first`, `divider` and `last` all point to one fresh sentinel node whose link is null. */
    constructor ()
      ensures Valid() && Contents == []
      ensures first == Ref(0) && divider == 0 && last == 0
      ensures next == [Null] && |value| == 1 && freed == {}
    {
      var sentinel: V := *;
      next, value := [Null], [sentinel];
      freed := {};
      first, divider, last := Ref(0), 0, 0;
      Contents := [];
    }

    /**
     * Deletes the chain's nodes from `first` up to but excluding `until`,
     * which must be null or a node of the chain; `first` ends up at `until`.
     * No node is deleted twice, and no node from `until` on is deleted.
     */
    method FreeQueueUntil(until: Ptr)
      requires Linked()
      requires until == Null || Start() <= until.id < |next|
      modifies this`first, this`freed
      ensures Linked() && first == until
      ensures forall id :: id in freed - old(freed) <==> old(Start()) <= id < Start()
      ensures forall id :: id in freed ==> id < |next|
      ensures until.Ref? ==> until.id !in freed
    {
      while first != until
        invariant Linked()
        invariant old(Start()) <= Start()
        invariant until == Null || Start() <= until.id
        invariant forall id :: id in freed - old(freed) <==> old(Start()) <= id < Start()
        decreases |next| - Start()
      {
        var current := first.id;
        first := next[current];
        freed := freed + {current};
      }
    }

    /**
     * Links a fresh node holding `v` after `last`, moves `last` to it, and
     * then deletes the consumed nodes before `divider`.
     */
    method Push(v: V)
      requires Valid()
      modifies this
      ensures Valid() && Contents == old(Contents) + [v]
      ensures last == old(|next|) && last !in old(freed)
      ensures value == old(value) + [v]
      ensures next == old(next)[old(last) := Ref(last)] + [Null]
      ensures divider == old(divider) && first == Ref(divider)
      ensures forall id :: id in freed - old(freed) <==> old(first).id <= id < divider
    {
      var node := |next|;
      value := value + [v];
      next := next[last := Ref(node)] + [Null];
      last := node;
      Contents := Contents + [v];
      FreeQueueUntil(Ref(divider));
    }

    /**
     * Fails when `divider` is `last`, handing back `v` unchanged; otherwise
     * hands back the value of the node after `divider` and advances `divider`
     * to that node.
     */
    method Pop(v: V) returns (ok: bool, out: V)
      requires Valid()
      modifies this`divider, this`Contents
      ensures Valid()
      ensures ok <==> old(divider) != last
      ensures ok <==> old(Contents) != []
      ensures ok ==> next[old(divider)] == Ref(divider) && out == value[divider]
      ensures ok ==> out == old(Contents)[0] && Contents == old(Contents)[1..]
      ensures !ok ==> out == v && divider == old(divider) && Contents == old(Contents)
    {
      if divider != last {
        var after := next[divider];
        out := value[after.id];
        divider := after.id;
        Contents := Contents[1..];
        ok := true;
      } else {
        ok, out := false, v;
      }
    }

    /** IsEmpty as written: it tests `divider != last`, so it holds exactly when the queue is NOT empty. */
    function IsEmptyAsWritten(): (r: bool)
      reads this
      requires Valid()
      ensures r <==> Contents != []
    {
      divider != last
    }

    /** IsEmpty as documented: the queue holds no value. */
    function IsEmpty(): (r: bool)
      reads this
      requires Valid()
      ensures r <==> Contents == []
    {
      divider == last
    }

    /** The destructor: deletes every node of the chain, after which every node ever allocated has been deleted. */
    method Destroy()
      requires Valid()
      modifies this`first, this`freed
      ensures first == Null
      ensures forall id :: id in freed - old(freed) <==> old(first).id <= id < |next|
      ensures forall id: nat :: id in freed <==> id < |next|
    {
      FreeQueueUntil(Null);
    }
  }
}
