/** The circular doubly linked list that threads the buffer cache, as successor
    and predecessor tables over node numbers. Node `head` is the list's anchor;
    the other linked nodes are, front to back, the sequence `order`. */
module LruRing {
  import opened Distinctness

  ghost function After(head: nat, order: seq<nat>, k: nat): nat {
    if k < |order| then order[k] else head
  }

  ghost function Before(head: nat, order: seq<nat>, k: nat): nat
    requires k <= |order|
  {
    if k == 0 then head else order[k - 1]
  }

  /** Following `next` from head visits order and comes back to head. */
  ghost predicate Forward(next: seq<nat>, head: nat, order: seq<nat>) {
    && |next| == head + 1
    && Nodes(head, order)
    && forall k {:trigger After(head, order, k)} :: 0 <= k <= |order| ==>
         next[Before(head, order, k)] == After(head, order, k)
  }

  /** Following `prev` from head visits order backwards and comes back to head. */
  ghost predicate Backward(prev: seq<nat>, head: nat, order: seq<nat>) {
    && |prev| == head + 1
    && Nodes(head, order)
    && forall k {:trigger Before(head, order, k)} :: 0 <= k <= |order| ==>
         prev[After(head, order, k)] == Before(head, order, k)
  }

  function Remove(order: seq<nat>, p: nat): seq<nat>
    requires p < |order|
  {
    order[..p] + order[p + 1..]
  }

  /** `now` is `was` with node b, wherever it stood, moved to the front. */
  ghost predicate MovedToFront(was: seq<nat>, now: seq<nat>, b: nat) {
    forall p {:trigger was[p]} :: 0 <= p < |was| && was[p] == b ==> now == [b] + Remove(was, p)
  }

  lemma RemoveNodes(head: nat, order: seq<nat>, p: nat)
    requires Nodes(head, order) && p < |order|
    ensures Nodes(head, Remove(order, p)) && order[p] !in Remove(order, p)
    ensures forall k :: 0 <= k < |order| - 1 ==>
              Remove(order, p)[k] == if k < p then order[k] else order[k + 1]
  {
  }

  /** `b->prev->next = b->next` takes b out of the forward list. */
  lemma UnlinkForward(next: seq<nat>, head: nat, order: seq<nat>, p: nat)
    requires Forward(next, head, order) && p < |order|
    ensures var b := order[p];
            && next[b] == After(head, order, p + 1)
            && Forward(next[Before(head, order, p) := next[b]], head, Remove(order, p))
  {
    var q, r := Before(head, order, p), Remove(order, p);
    var next' := next[q := After(head, order, p + 1)];
    RemoveNodes(head, order, p);
    forall k | 0 <= k <= |r|
      ensures next'[Before(head, r, k)] == After(head, r, k)
    {
      if k < p {
        assert next[Before(head, order, k)] == After(head, order, k);
        assert Before(head, r, k) == Before(head, order, k) != q;
      } else if k == p {
        assert Before(head, r, k) == q;
      } else {
        assert next[Before(head, order, k + 1)] == After(head, order, k + 1);
        assert Before(head, r, k) == order[k] != q;
      }
    }
  }

  /** `b->next->prev = b->prev` takes b out of the backward list. */
  lemma UnlinkBackward(prev: seq<nat>, head: nat, order: seq<nat>, p: nat)
    requires Backward(prev, head, order) && p < |order|
    ensures var b := order[p];
            && prev[b] == Before(head, order, p)
            && Backward(prev[After(head, order, p + 1) := prev[b]], head, Remove(order, p))
  {
    var n, r := After(head, order, p + 1), Remove(order, p);
    var prev' := prev[n := Before(head, order, p)];
    RemoveNodes(head, order, p);
    forall k | 0 <= k <= |r|
      ensures prev'[After(head, r, k)] == Before(head, r, k)
    {
      if k < p {
        assert prev[After(head, order, k)] == Before(head, order, k);
        assert After(head, r, k) == order[k] != n;
      } else if k == p {
        assert After(head, r, k) == n;
      } else {
        assert prev[After(head, order, k + 1)] == Before(head, order, k + 1);
        assert After(head, r, k) == After(head, order, k + 1) != n;
      }
    }
  }

  /** `b->next = head.next; head.next = b;` puts b, which is not linked, at the front. */
  lemma PushForward(next: seq<nat>, head: nat, order: seq<nat>, b: nat)
    requires Forward(next, head, order) && b < head && b !in order
    ensures next[head] == After(head, order, 0)
    ensures Forward(next[b := next[head]][head := b], head, [b] + order)
  {
    var next' := next[b := After(head, order, 0)][head := b];
    var r := [b] + order;
    forall k | 0 <= k <= |r|
      ensures next'[Before(head, r, k)] == After(head, r, k)
    {
      if k > 1 {
        assert next[Before(head, order, k - 1)] == After(head, order, k - 1);
        assert Before(head, r, k) == order[k - 2] != b;
      }
    }
  }

  /** `b->prev = &head; head.next->prev = b;` does the same to the backward list. */
  lemma PushBackward(prev: seq<nat>, head: nat, order: seq<nat>, b: nat)
    requires Backward(prev, head, order) && b < head && b !in order
    ensures Backward(prev[b := head][After(head, order, 0) := b], head, [b] + order)
  {
    var f := After(head, order, 0);
    var prev' := prev[b := head][f := b];
    var r := [b] + order;
    forall k | 0 <= k <= |r|
      ensures prev'[After(head, r, k)] == Before(head, r, k)
    {
      if k == 0 {
        assert After(head, r, k) == b != f;
      } else if k == 1 {
        assert After(head, r, k) == f;
      } else {
        assert prev[After(head, order, k - 1)] == Before(head, order, k - 1);
        assert After(head, r, k) == After(head, order, k - 1) != f;
      }
    }
  }

  /** The six assignments of brelse, in order, move the node at position p to
      the front and change nothing else. */
  lemma MoveToFrontLinks(next: seq<nat>, prev: seq<nat>, head: nat, order: seq<nat>, p: nat)
    requires Forward(next, head, order) && Backward(prev, head, order) && p < |order|
    ensures var b := order[p];
            && next[b] <= head && prev[b] <= head
            && prev[next[b] := prev[b]][b] == prev[b]
            && next[prev[b] := next[b]][head] <= head
            && Forward(next[prev[b] := next[b]][b := next[prev[b] := next[b]][head]][head := b],
                       head, [b] + Remove(order, p))
            && Backward(prev[next[b] := prev[b]][b := head][next[prev[b] := next[b]][head] := b],
                        head, [b] + Remove(order, p))
  {
    var b, rest := order[p], Remove(order, p);
    RemoveNodes(head, order, p);
    UnlinkForward(next, head, order, p);
    UnlinkBackward(prev, head, order, p);
    assert next[b] != b && prev[b] != b;
    var prev1 := prev[next[b] := prev[b]];
    var next1 := next[prev1[b] := next[b]];
    assert prev1[b] == prev[b];
    PushForward(next1, head, rest, b);
    PushBackward(prev1, head, rest, b);
  }
}
