/**
 * The memory of one queue as an arena of struct list_head links, with the
 * list.h primitives queue.c calls. Slot 0 is the queue's sentinel (the head
 * q_new allocates); the other slots are the links embedded in element_t
 * values, whose strings `value` holds, and list heads that an operation
 * declares on its stack.
 */
module ListHead {
  import opened Rings
  import opened QueueSpec
  import opened CStrings

  /** The slot of the queue's sentinel. */
  const Head: int := 0

  /** The string of the element whose link is slot x (list_entry(x)->value). */
  function Key(vs: seq<string>, x: int): string
  {
    if 0 <= x < |vs| then vs[x] else ""
  }

  /** The strings of the elements whose links are xs, in order. */
  function Values(vs: seq<string>, xs: seq<int>): (r: seq<string>)
    ensures |r| == |xs|
    ensures forall i {:trigger r[i]} :: 0 <= i < |xs| ==> r[i] == Key(vs, xs[i])
  {
    seq(|xs|, i requires 0 <= i < |xs| => Key(vs, xs[i]))
  }

  /** Appending a slot leaves the strings of the slots already there alone. */
  lemma ValuesExtend(vs: seq<string>, v: string, xs: seq<int>)
    requires forall i :: 0 <= i < |xs| ==> 0 <= xs[i] < |vs|
    ensures Values(vs + [v], xs) == Values(vs, xs)
  {
    assert forall i :: 0 <= i < |xs| ==> Key(vs + [v], xs[i]) == Key(vs, xs[i]);
  }

  /** Growing the arena leaves the strings of the slots already there alone. */
  lemma ValuesGrow(vs: seq<string>, ws: seq<string>, xs: seq<int>)
    requires |vs| <= |ws| && ws[..|vs|] == vs
    requires forall i :: 0 <= i < |xs| ==> 0 <= xs[i] < |vs|
    ensures Values(ws, xs) == Values(vs, xs)
  {
    assert forall i :: 0 <= i < |xs| ==> Key(ws, xs[i]) == Key(vs, xs[i]);
  }

  /** A new element's slot in front of a ring adds its string in front of the ring's strings. */
  lemma ValuesPushFront(vs: seq<string>, v: string, xs: seq<int>)
    requires forall i :: 0 <= i < |xs| ==> 0 <= xs[i] < |vs|
    ensures Values(vs + [v], [|vs|] + xs) == [v] + Values(vs, xs)
  {
    ValuesExtend(vs, v, xs);
    assert Values(vs + [v], [|vs|] + xs) == [v] + Values(vs + [v], xs);
  }

  /** A new element's slot behind a ring adds its string behind the ring's strings. */
  lemma ValuesPushBack(vs: seq<string>, v: string, xs: seq<int>)
    requires forall i :: 0 <= i < |xs| ==> 0 <= xs[i] < |vs|
    ensures Values(vs + [v], xs + [|vs|]) == Values(vs, xs) + [v]
  {
    ValuesExtend(vs, v, xs);
    assert Values(vs + [v], xs + [|vs|]) == Values(vs + [v], xs) + [v];
  }

  /** A new element's NUL-free string, in front of or behind a ring of NUL-free strings, keeps them all NUL-free. */
  lemma NoNulPushed(vs: seq<string>, v: string, xs: seq<int>, front: bool)
    requires NoNul(v) && forall i :: 0 <= i < |xs| ==> 0 <= xs[i] < |vs|
    requires forall i {:trigger vs[xs[i]]} :: 0 <= i < |xs| ==> NoNul(vs[xs[i]])
    ensures var ys := if front then [|vs|] + xs else xs + [|vs|];
            forall i {:trigger ys[i]} :: 0 <= i < |ys| ==> NoNul((vs + [v])[ys[i]])
  {
    var ys := if front then [|vs|] + xs else xs + [|vs|];
    forall i | 0 <= i < |ys| ensures NoNul((vs + [v])[ys[i]]) {
      if ys[i] != |vs| {
        var k := if front then i - 1 else i;
        assert ys[i] == xs[k];
      }
    }
  }

  /** The strings of two runs of slots, one after the other. */
  lemma ValuesConcat(vs: seq<string>, a: seq<int>, b: seq<int>)
    ensures Values(vs, a + b) == Values(vs, a) + Values(vs, b)
  {
  }

  /** The strings of a slice of slots are that slice of the strings. */
  lemma ValuesSlice(vs: seq<string>, xs: seq<int>, a: nat, b: nat)
    requires a <= b <= |xs|
    ensures Values(vs, xs[a..b]) == Values(vs, xs)[a..b]
  {
  }

  /** Reversing the slots reverses their strings. */
  lemma ValuesReverse(vs: seq<string>, xs: seq<int>)
    ensures Values(vs, Reverse(xs)) == Reverse(Values(vs, xs))
  {
  }

  /** Swapping pairs of slots swaps pairs of strings. */
  lemma {:induction false} ValuesSwap(vs: seq<string>, xs: seq<int>)
    ensures Values(vs, Swap(xs)) == Swap(Values(vs, xs))
    decreases |xs|
  {
    if |xs| >= 2 {
      var w := Values(vs, xs);
      ValuesSwap(vs, xs[2..]);
      ValuesSlice(vs, xs, 2, |xs|);
      assert xs[2..|xs|] == xs[2..] && w[2..|xs|] == w[2..];
      calc {
        Values(vs, Swap(xs));
        Values(vs, [xs[1], xs[0]] + Swap(xs[2..]));
        { ValuesConcat(vs, [xs[1], xs[0]], Swap(xs[2..])); }
        Values(vs, [xs[1], xs[0]]) + Values(vs, Swap(xs[2..]));
        [w[1], w[0]] + Swap(w[2..]);
        Swap(w);
      }
    }
  }

  /** Reversing groups of k slots reverses the same groups of strings. */
  lemma {:induction false} ValuesReverseK(vs: seq<string>, xs: seq<int>, k: nat)
    requires k >= 1
    ensures Values(vs, ReverseK(xs, k)) == ReverseK(Values(vs, xs), k)
    decreases |xs|
  {
    if |xs| >= k {
      var w := Values(vs, xs);
      ValuesReverseK(vs, xs[k..], k);
      ValuesSlice(vs, xs, 0, k);
      ValuesSlice(vs, xs, k, |xs|);
      assert xs[0..k] == xs[..k] && w[0..k] == w[..k];
      assert xs[k..|xs|] == xs[k..] && w[k..|xs|] == w[k..];
      calc {
        Values(vs, ReverseK(xs, k));
        Values(vs, Reverse(xs[..k]) + ReverseK(xs[k..], k));
        { ValuesConcat(vs, Reverse(xs[..k]), ReverseK(xs[k..], k)); }
        Values(vs, Reverse(xs[..k])) + Values(vs, ReverseK(xs[k..], k));
        { ValuesReverse(vs, xs[..k]); }
        Reverse(w[..k]) + ReverseK(w[k..], k);
        ReverseK(w, k);
      }
    }
  }

  /** Unlinking the j-th slot drops the j-th string. */
  lemma ValuesDeleteAt(vs: seq<string>, xs: seq<int>, j: nat)
    requires j < |xs|
    ensures Values(vs, DeleteAt(xs, j)) == DeleteAt(Values(vs, xs), j)
  {
  }

  /** Reordering the slots reorders their strings. */
  lemma {:induction false} ValuesPermuted(vs: seq<string>, xs: seq<int>, ys: seq<int>)
    requires multiset(ys) == multiset(xs)
    ensures multiset(Values(vs, ys)) == multiset(Values(vs, xs))
    decreases |xs|
  {
    if xs != [] {
      var x := xs[0];
      var a, b := FindSlot(xs, ys);
      ValuesPermuted(vs, xs[1..], a + b);
      assert xs == [x] + xs[1..];
      ValuesConcat(vs, [x], xs[1..]);
      ValuesMiddle(vs, a, x, b);
    } else {
      assert ys == [];
    }
  }

  /** The first slot of xs is somewhere in its reordering ys; around it is a reordering of the others. */
  lemma FindSlot(xs: seq<int>, ys: seq<int>) returns (a: seq<int>, b: seq<int>)
    requires xs != [] && multiset(ys) == multiset(xs)
    ensures ys == a + [xs[0]] + b && multiset(a + b) == multiset(xs[1..])
  {
    var x := xs[0];
    assert xs == [x] + xs[1..];
    assert x in multiset(ys);
    var k :| 0 <= k < |ys| && ys[k] == x;
    a, b := ys[..k], ys[k + 1..];
    assert ys == a + [x] + b;
    assert multiset(ys) == multiset(a) + multiset{x} + multiset(b);
    assert multiset(xs) == multiset{x} + multiset(xs[1..]);
    assert multiset(a + b) == multiset(a) + multiset(b);
    forall v ensures multiset(a + b)[v] == multiset(xs[1..])[v] {
      assert multiset(ys)[v] == multiset(a)[v] + multiset{x}[v] + multiset(b)[v];
      assert multiset(xs)[v] == multiset{x}[v] + multiset(xs[1..])[v];
    }
  }

  /** The string of a slot in the middle counts once among the strings around it. */
  lemma ValuesMiddle(vs: seq<string>, a: seq<int>, x: int, b: seq<int>)
    ensures multiset(Values(vs, a + [x] + b)) == multiset(Values(vs, [x])) + multiset(Values(vs, a + b))
  {
    ValuesConcat(vs, a + [x], b);
    ValuesConcat(vs, a, [x]);
    ValuesConcat(vs, a, b);
    assert Values(vs, a + [x] + b) == Values(vs, a) + Values(vs, [x]) + Values(vs, b);
  }

  /** Reordering the slots keeps every one of them a NUL-free string. */
  lemma PermutedNoNul(vs: seq<string>, xs: seq<int>, ys: seq<int>)
    requires multiset(ys) == multiset(xs)
    requires forall i {:trigger xs[i]} :: 0 <= i < |xs| ==> 0 <= xs[i] < |vs| && NoNul(vs[xs[i]])
    ensures forall i {:trigger ys[i]} :: 0 <= i < |ys| ==> 0 <= ys[i] < |vs| && NoNul(vs[ys[i]])
  {
    forall i | 0 <= i < |ys|
      ensures 0 <= ys[i] < |vs| && NoNul(vs[ys[i]])
    {
      assert ys[i] in multiset(xs);
      var j :| 0 <= j < |xs| && xs[j] == ys[i];
    }
  }

  class Arena {
    /** next[x], prev[x]: the two pointers of the link in slot x. */
    var next: seq<int>
    var prev: seq<int>
    /** value[x]: the string of the element whose link is slot x. */
    var value: seq<string>
    /** The queue's elements, as slots, from the sentinel's next round to its prev. */
    ghost var ids: seq<int>

    /** The queue invariant: the sentinel heads a well-formed ring of NUL-free strings. */
    ghost predicate Valid()
      reads this
    {
      && |value| == |next|
      && IsRing(next, prev, Head, ids)
      && forall i {:trigger value[ids[i]]} :: 0 <= i < |ids| ==> NoNul(value[ids[i]])
    }

    /** The queue's strings, first to last. */
    ghost function Contents(): seq<string>
      reads this
    {
      Values(value, ids)
    }

    /** q_new's sentinel: allocated, then INIT_LIST_HEAD. */
    constructor ()
      ensures Valid() && Contents() == [] && ids == []
      ensures next == [Head] && prev == [Head] && value == [""]
    {
      next, prev, value, ids := [NULL], [NULL], [""], [];
      new;
      InitListHead(Head);
    }

    /** INIT_LIST_HEAD(h): h becomes an empty ring. */
    method InitListHead(h: int)
      requires 0 <= h < |next| == |prev|
      modifies this`next, this`prev
      ensures next == old(next)[h := h] && prev == old(prev)[h := h]
      ensures IsRing(next, prev, h, [])
    {
      next := next[h := h];
      prev := prev[h := h];
    }

    /** malloc of an element whose value is v; its links are not yet set. */
    method NewNode(v: string) returns (e: int)
      modifies this`next, this`prev, this`value
      ensures e == |old(next)|
      ensures next == old(next) + [NULL] && prev == old(prev) + [NULL] && value == old(value) + [v]
    {
      e := |next|;
      next, prev, value := next + [NULL], prev + [NULL], value + [v];
    }

    /** LIST_HEAD(h): a list head declared on the stack, initialised empty. */
    method NewListHead() returns (h: int)
      requires |next| == |prev|
      modifies this`next, this`prev, this`value
      ensures h == |old(next)|
      ensures next == old(next) + [h] && prev == old(prev) + [h] && value == old(value) + [""]
      ensures IsRing(next, prev, h, [])
    {
      h := NewNode("");
      InitListHead(h);
    }

    /** list_empty(h): the ring headed by h holds nothing. */
    predicate ListEmpty(h: int, ghost xs: seq<int>)
      reads this
      requires IsRing(next, prev, h, xs)
      ensures ListEmpty(h, xs) <==> xs == []
    {
      next[h] == h
    }

    /** list_add(node, pos): node goes right after pos, which is xs[j-1] or (j = 0) the head h. */
    method ListAdd(node: int, pos: int, ghost h: int, ghost xs: seq<int>, ghost j: int)
      requires IsRing(next, prev, h, xs) && 0 <= j <= |xs|
      requires pos == if j == 0 then h else xs[j - 1]
      requires 0 <= node < |next| && node != h && node !in xs
      modifies this`next, this`prev
      ensures next == old(next)[node := old(next)[pos]][pos := node]
      ensures prev == old(prev)[old(next)[pos] := node][node := pos]
      ensures IsRing(next, prev, h, Insert(xs, j, node))
    {
      var n := next[pos];
      assert n == if j == |xs| then h else xs[j] by {
        if j > 0 { assert next[xs[j - 1]] == Succ(h, xs, j - 1); }
      }
      LinkInRing(next, prev, h, xs, j, node, pos, n);
      UpdatesCommute(next, pos, node, node, n);
      prev := prev[n := node];
      next := next[node := n];
      prev := prev[node := pos];
      next := next[pos := node];
    }

    /** list_add_tail(node, pos): node goes right before pos, which is xs[j] or (j = |xs|) the head h. */
    method ListAddTail(node: int, pos: int, ghost h: int, ghost xs: seq<int>, ghost j: int)
      requires IsRing(next, prev, h, xs) && 0 <= j <= |xs|
      requires pos == if j == |xs| then h else xs[j]
      requires 0 <= node < |next| && node != h && node !in xs
      modifies this`next, this`prev
      ensures next == old(next)[old(prev)[pos] := node][node := pos]
      ensures prev == old(prev)[node := old(prev)[pos]][pos := node]
      ensures IsRing(next, prev, h, Insert(xs, j, node))
    {
      var p := prev[pos];
      assert p == if j == 0 then h else xs[j - 1] by {
        if j < |xs| { assert prev[xs[j]] == Pred(h, xs, j); }
      }
      LinkInRing(next, prev, h, xs, j, node, p, pos);
      UpdatesCommute(prev, pos, node, node, p);
      next := next[p := node];
      next := next[node := pos];
      prev := prev[node := p];
      prev := prev[pos := node];
    }

    /** list_del(node) for node = xs[j]: its neighbours are joined; node's own links are left as they were. */
    method ListDel(node: int, ghost h: int, ghost xs: seq<int>, ghost j: int)
      requires IsRing(next, prev, h, xs) && 0 <= j < |xs| && node == xs[j]
      modifies this`next, this`prev
      ensures next == old(next)[old(prev)[node] := old(next)[node]]
      ensures prev == old(prev)[old(next)[node] := old(prev)[node]]
      ensures IsRing(next, prev, h, DeleteAt(xs, j))
    {
      var n, p := next[node], prev[node];
      assert next[xs[j]] == Succ(h, xs, j) && prev[xs[j]] == Pred(h, xs, j);
      UnlinkFromRing(next, prev, h, xs, j, p, n);
      prev := prev[n := p];
      next := next[p := n];
    }

    /**
     * list_del of the j-th element of a valid queue: the queue keeps its
     * invariant and loses exactly that slot and that string.
     */
    method Unlink(node: int, ghost j: int)
      requires Valid() && 0 <= j < |ids| && node == ids[j]
      modifies this`next, this`prev, this`ids
      ensures Valid() && ids == DeleteAt(old(ids), j)
      ensures Contents() == DeleteAt(old(Contents()), j)
    {
      ghost var xs := ids;
      ListDel(node, Head, ids, j);
      ids := DeleteAt(xs, j);
      ValuesDeleteAt(value, xs, j);
    }

    /**
     * list_move(node, pos): list_del(node) then list_add(node, pos), with
     * node = xs[j] and pos the link at index k-1 (or the head, k = 0) of the
     * ring once node is out.
     */
    method ListMove(node: int, pos: int, ghost h: int, ghost xs: seq<int>, ghost j: int, ghost k: int)
      requires IsRing(next, prev, h, xs) && 0 <= j < |xs| && node == xs[j]
      requires 0 <= k < |xs| && pos == if k == 0 then h else DeleteAt(xs, j)[k - 1]
      modifies this`next, this`prev
      ensures var n1 := old(next)[old(prev)[node] := old(next)[node]];
              var p1 := old(prev)[old(next)[node] := old(prev)[node]];
              next == n1[node := n1[pos]][pos := node] && prev == p1[n1[pos] := node][node := pos]
      ensures IsRing(next, prev, h, Insert(DeleteAt(xs, j), k, node))
    {
      ghost var ys := DeleteAt(xs, j);
      MoveTouches(next, prev, h, xs, j, k, pos);
      ListDel(node, h, xs, j);
      ListAdd(node, pos, h, ys, k);
    }

    /**
     * list_cut_position(ht, hf, entry): the links of the ring at hf up to and
     * including entry (xs[j], or nothing when j = -1 and entry is hf itself)
     * move, in order, to the ring at ht; the rest stay at hf. A ring holding
     * nothing is left alone.
     */
    method ListCutPosition(ht: int, hf: int, entry: int, ghost xs: seq<int>, ghost j: int)
      requires IsRing(next, prev, hf, xs) && -1 <= j < |xs|
      requires entry == if j == -1 then hf else xs[j]
      requires 0 <= ht < |next| && ht != hf && ht !in xs
      modifies this`next, this`prev
      ensures xs == [] ==> next == old(next) && prev == old(prev)
      ensures xs != [] && j == -1 ==> next == old(next)[ht := ht] && prev == old(prev)[ht := ht]
      ensures xs != [] && j >= 0 ==>
                next == old(next)[hf := old(next)[entry]][entry := ht][ht := xs[0]] &&
                prev == old(prev)[old(next)[entry] := hf][ht := entry][xs[0] := ht]
      ensures xs != [] ==> IsRing(next, prev, ht, xs[..j + 1]) && IsRing(next, prev, hf, xs[j + 1..])
      ensures AgreeOutside(old(next), old(prev), next, prev, {ht, hf, old(next)[hf], entry, old(next)[entry]})
    {
      var first := next[hf];
      if next[hf] == hf {
        return;
      }
      if hf == entry {
        WriteAgrees(next, prev, ht, ht, ht, ht, {ht});
        InitListHead(ht);
        RingUntouched(old(next), old(prev), next, prev, hf, xs, {ht});
        AgreeWiden(old(next), old(prev), next, prev, {ht}, {ht, hf, old(next)[hf], entry, old(next)[entry]});
        return;
      }
      var rest := next[entry];
      assert rest == Succ(hf, xs, j);
      assert xs[j] in xs && xs[0] in xs;
      assert j + 1 < |xs| ==> xs[j + 1] in xs;
      CutRing(next, prev, ht, hf, xs, j);
      ThreeWritesAgree(next, prev, hf, rest, entry, ht, ht, first, rest, hf, ht, entry, first, ht, {ht, hf, first, entry, rest});
      next := next[hf := rest];
      prev := prev[rest := hf];
      prev := prev[ht := entry];
      next := next[entry := ht];
      next := next[ht := first];
      prev := prev[first := ht];
    }

    /** list_splice(list, head): the links of the ring at list (ys) go, in order, in front of those at head (xs). */
    method ListSplice(list: int, head: int, ghost ys: seq<int>, ghost xs: seq<int>)
      requires TwoRings(next, prev, head, xs, list, ys)
      modifies this`next, this`prev
      ensures ys == [] ==> next == old(next) && prev == old(prev)
      ensures ys != [] ==>
                next == old(next)[head := ys[0]][ys[|ys| - 1] := old(next)[head]] &&
                prev == old(prev)[ys[0] := head][old(next)[head] := ys[|ys| - 1]]
      ensures IsRing(next, prev, head, ys + xs)
      ensures AgreeOutside(old(next), old(prev), next, prev, {head, old(next)[list], old(prev)[list], old(next)[head]})
    {
      var hf, lf, ll := next[head], next[list], prev[list];
      if next[list] == list {
        assert ys + xs == xs;
        return;
      }
      SpliceRing(next, prev, list, ys, head, xs);
      assert lf in ys && ll in ys;
      assert xs != [] ==> xs[0] in xs;
      WritesAgree(next, prev, head, lf, ll, hf, lf, head, hf, ll, {head, lf, ll, hf});
      next := next[head := lf];
      prev := prev[lf := head];
      next := next[ll := hf];
      prev := prev[hf := ll];
    }

    /** list_splice_init(list, head): list_splice, then the ring at list is emptied. */
    method ListSpliceInit(list: int, head: int, ghost ys: seq<int>, ghost xs: seq<int>)
      requires TwoRings(next, prev, head, xs, list, ys)
      modifies this`next, this`prev
      ensures IsRing(next, prev, head, ys + xs) && IsRing(next, prev, list, [])
      ensures AgreeOutside(old(next), old(prev), next, prev, {head, list, old(next)[list], old(prev)[list], old(next)[head]})
    {
      ghost var n0, p0 := next, prev;
      ListSplice(list, head, ys, xs);
      ghost var n1, p1 := next, prev;
      WriteAgrees(next, prev, list, list, list, list, {list});
      InitListHead(list);
      assert list !in ys + xs;
      RingFrame(n1, p1, next, prev, head, ys + xs);
      ghost var t := {head, list, n0[list], p0[list], n0[head]};
      AgreeWiden(n0, p0, n1, p1, {head, n0[list], p0[list], n0[head]}, t);
      AgreeWiden(n1, p1, next, prev, {list}, t);
      AgreeCompose(n0, p0, n1, p1, next, prev, t);
    }

    /** list_splice_tail(list, head): the links of the ring at list (ys) go, in order, behind those at head (xs). */
    method ListSpliceTail(list: int, head: int, ghost ys: seq<int>, ghost xs: seq<int>)
      requires TwoRings(next, prev, head, xs, list, ys)
      modifies this`next, this`prev
      ensures ys == [] ==> next == old(next) && prev == old(prev)
      ensures ys != [] ==>
                next == old(next)[ys[|ys| - 1] := head][old(prev)[head] := ys[0]] &&
                prev == old(prev)[head := ys[|ys| - 1]][ys[0] := old(prev)[head]]
      ensures IsRing(next, prev, head, xs + ys)
      ensures AgreeOutside(old(next), old(prev), next, prev, {head, old(next)[list], old(prev)[list], old(prev)[head]})
    {
      var hl, lf, ll := prev[head], next[list], prev[list];
      if next[list] == list {
        assert xs + ys == xs;
        return;
      }
      SpliceTailRing(next, prev, list, ys, head, xs);
      assert lf in ys && ll in ys;
      assert xs != [] ==> xs[|xs| - 1] in xs;
      WritesAgree(next, prev, ll, head, hl, lf, head, ll, lf, hl, {head, lf, ll, hl});
      prev := prev[head := ll];
      next := next[ll := head];
      prev := prev[lf := hl];
      next := next[hl := lf];
    }
  }
}
