/** The circular free list of umalloc.c: blocks linked through s.ptr. */
module FreeRing {
  import opened Distinctness

  function Next(r: seq<nat>, i: nat): nat
    requires i < |r|
  {
    if i + 1 < |r| then r[i + 1] else r[0]
  }

  /** Following ptr from r[0] visits r in order and comes back. */
  ghost predicate Ring(ptr: map<nat, nat>, r: seq<nat>) {
    && |r| > 0 && Distinct(r)
    && (forall i :: 0 <= i < |r| ==> r[i] in ptr)
    && (forall i {:trigger Next(r, i)} :: 0 <= i < |r| ==> ptr[r[i]] == Next(r, i))
  }

  lemma InsertDistinct(r: seq<nat>, i: nat, b: nat)
    requires Distinct(r) && i < |r| && b !in r
    ensures var s := r[..i + 1] + [b] + r[i + 1..];
            Distinct(s) && forall k :: 0 <= k < |s| ==>
                s[k] == if k <= i then r[k] else if k == i + 1 then b else r[k - 1]
  {
  }

  lemma InsertAfter(ptr: map<nat, nat>, r: seq<nat>, i: nat, b: nat)
    requires Ring(ptr, r) && i < |r| && b !in r
    ensures Ring(ptr[b := ptr[r[i]]][r[i] := b], r[..i + 1] + [b] + r[i + 1..])
  {
    var s := r[..i + 1] + [b] + r[i + 1..];
    var ptr' := ptr[b := ptr[r[i]]][r[i] := b];
    InsertDistinct(r, i, b);
    forall k | 0 <= k < |s|
      ensures s[k] in ptr' && ptr'[s[k]] == Next(s, k)
    {
      var j := if k <= i then k else k - 1;
      assert ptr[r[j]] == Next(r, j);
      assert k > i + 1 ==> r[k - 1] != r[i];
      assert k < i ==> r[k] != r[i];
    }
  }

  lemma RemoveAfter(ptr: map<nat, nat>, r: seq<nat>, i: nat)
    requires Ring(ptr, r) && i + 1 < |r|
    ensures Ring(ptr[r[i] := ptr[r[i + 1]]], r[..i + 1] + r[i + 2..])
  {
    var s := r[..i + 1] + r[i + 2..];
    var ptr' := ptr[r[i] := ptr[r[i + 1]]];
    forall k | 0 <= k < |s|
      ensures s[k] in ptr' && ptr'[s[k]] == Next(s, k)
    {
      if k < i {
        assert ptr[r[k]] == Next(r, k);
      } else if k == i {
        assert ptr[r[i + 1]] == Next(r, i + 1);
      } else {
        assert s[k] == r[k + 1] && ptr[r[k + 1]] == Next(r, k + 1);
      }
    }
  }

  lemma ReplaceAfter(ptr: map<nat, nat>, r: seq<nat>, i: nat, b: nat)
    requires Ring(ptr, r) && i + 1 < |r| && b !in r
    ensures Ring(ptr[b := ptr[r[i + 1]]][r[i] := b], r[i + 1 := b])
  {
    var s := r[i + 1 := b];
    var ptr' := ptr[b := ptr[r[i + 1]]][r[i] := b];
    forall k | 0 <= k < |s|
      ensures s[k] in ptr' && ptr'[s[k]] == Next(s, k)
    {
      assert ptr[r[k]] == Next(r, k);
    }
  }

  /** Links of blocks outside the ring do not matter. */
  lemma RingFrame(ptr: map<nat, nat>, r: seq<nat>, b: nat, v: nat)
    requires Ring(ptr, r) && b !in r
    ensures Ring(ptr[b := v], r)
  {
  }
}
