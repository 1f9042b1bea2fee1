/**
 * The Linux kernel's list_sort as queue.c carries it: a bottom-up merge sort
 * that breaks the ring into a NULL-terminated chain, keeps a stack of sorted
 * runs linked through their heads' prev pointers, merges two runs whenever
 * count's binary form says so, and finally merges what is left and rebuilds
 * the ring. The comparison is cmpfunc throughout.
 */
module ListSort {
  import opened Rings
  import opened ListHead
  import opened SortSpec

  /** The link after xs[i] on a NULL-terminated chain. */
  function After(xs: seq<int>, i: int): int
    requires 0 <= i < |xs|
  {
    if i + 1 < |xs| then xs[i + 1] else NULL
  }

  /** The slots xs, none of them the sentinel, each one's next the one after it or NULL. */
  ghost predicate Links(next: seq<int>, xs: seq<int>)
  {
    && Slots(|next|, Head, xs)
    && Distinct(xs)
    && forall i {:trigger next[xs[i]]} :: 0 <= i < |xs| ==> next[xs[i]] == After(xs, i)
  }

  /** x starts a NULL-terminated chain through the slots xs (x is NULL when xs is empty). */
  ghost predicate Chain(next: seq<int>, x: int, xs: seq<int>)
  {
    && x == (if xs == [] then NULL else xs[0])
    && Links(next, xs)
  }

  /** A chain ends at once exactly when it is empty. */
  lemma ChainEnd(next: seq<int>, x: int, xs: seq<int>)
    requires Chain(next, x, xs)
    ensures x == NULL <==> xs == []
  {
    assert xs != [] ==> 0 <= xs[0];
  }

  /** A chain is left alone by writes to slots outside it. */
  lemma ChainUntouched(n1: seq<int>, n2: seq<int>, x: int, xs: seq<int>)
    requires Chain(n1, x, xs) && |n2| == |n1|
    requires forall i :: 0 <= i < |xs| ==> n2[xs[i]] == n1[xs[i]]
    ensures Chain(n2, x, xs)
  {
  }

  /**
   * The slots out taken so far, linked one to the next from r to tail; the
   * next of tail is not set yet. r and tail are NULL while out is empty.
   */
  ghost predicate Front(next: seq<int>, r: int, tail: int, out: seq<int>)
  {
    && r == (if out == [] then NULL else out[0])
    && tail == (if out == [] then NULL else out[|out| - 1])
    && Slots(|next|, Head, out)
    && Distinct(out)
    && forall i {:trigger next[out[i]]} :: 0 <= i < |out| - 1 ==> next[out[i]] == out[i + 1]
  }

  /** No two of the three sequences share a slot. */
  ghost predicate Apart3(xs: seq<int>, ys: seq<int>, zs: seq<int>)
  {
    Disjoint(xs, ys) && Disjoint(xs, zs) && Disjoint(ys, zs)
  }

  /**
   * merge() part way: out is linked from r to tail, the chains ra and rb
   * are what is left of the two runs, and merging those behind out gives the
   * merge of the two runs. Only the nexts of out's slots have changed.
   */
  ghost predicate MergeState(n0: seq<int>, next: seq<int>, vs: seq<string>, ra0: seq<int>, rb0: seq<int>,
                             a: int, b: int, r: int, tail: int, ra: seq<int>, rb: seq<int>, out: seq<int>)
  {
    && |next| == |n0|
    && Chain(next, a, ra)
    && Chain(next, b, rb)
    && out + Merge(vs, ra, rb) == Merge(vs, ra0, rb0)
    && |ra| <= |ra0| && |rb| <= |rb0|
    && Front(next, r, tail, out)
    && Apart3(out, ra, rb)
    && forall x :: 0 <= x < |n0| && x !in out ==> next[x] == n0[x]
  }

  /** Setting the next of tail to x appends x to the front. */
  lemma FrontExtend(next: seq<int>, next': seq<int>, r: int, tail: int, out: seq<int>, x: int)
    requires Front(next, r, tail, out) && 0 <= x < |next| && x != Head && x !in out
    requires next' == if tail == NULL then next else next[tail := x]
    ensures Front(next', if out == [] then x else r, x, out + [x])
  {
    var out' := out + [x];
    forall i | 0 <= i < |out'| - 1
      ensures next'[out'[i]] == out'[i + 1]
    {
      if i < |out| - 1 {
        assert out[i] != tail;
      }
    }
  }

  /** The rest of a chain after its front is a chain from the front's next. */
  lemma ChainRest(next: seq<int>, xs: seq<int>)
    requires xs != [] && Chain(next, xs[0], xs)
    ensures Chain(next, next[xs[0]], xs[1..])
  {
    assert forall i :: 0 <= i < |xs[1..]| ==> xs[1..][i] == xs[i + 1];
  }

  /**
   * Taking the front x of the chain xs onto out (queue.c:278-280 and
   * 286-288): x is linked behind out, becomes its last link, and the chain
   * moves on to x's successor.
   */
  lemma TakeLink(n0: seq<int>, next: seq<int>, next': seq<int>, r: int, tail: int, out: seq<int>,
                 xs: seq<int>, ys: seq<int>, y: int)
    requires |next| == |n0| && xs != [] && Chain(next, xs[0], xs) && Chain(next, y, ys)
    requires Front(next, r, tail, out) && Apart3(out, xs, ys)
    requires forall x :: 0 <= x < |n0| && x !in out ==> next[x] == n0[x]
    requires next' == if tail == NULL then next else next[tail := xs[0]]
    ensures |next'| == |n0| && Chain(next', next'[xs[0]], xs[1..]) && Chain(next', y, ys)
    ensures Front(next', if out == [] then xs[0] else r, xs[0], out + [xs[0]])
    ensures Apart3(out + [xs[0]], xs[1..], ys)
    ensures forall x :: 0 <= x < |n0| && x !in out + [xs[0]] ==> next'[x] == n0[x]
  {
    assert next'[xs[0]] == next[xs[0]];
    ChainUntouched(next, next', xs[0], xs);
    ChainUntouched(next, next', y, ys);
    ChainRest(next', xs);
    FrontExtend(next, next', r, tail, out, xs[0]);
  }

  /** Taking the front of ra onto out keeps the merge equation. */
  lemma MergeTakeLeft(vs: seq<string>, out: seq<int>, ra: seq<int>, rb: seq<int>, whole: seq<int>)
    requires ra != [] && rb != [] && CmpFunc(vs, ra[0], rb[0]) <= 0
    requires out + Merge(vs, ra, rb) == whole
    ensures (out + [ra[0]]) + Merge(vs, ra[1..], rb) == whole
  {
    assert Merge(vs, ra, rb) == [ra[0]] + Merge(vs, ra[1..], rb);
    assert (out + [ra[0]]) + Merge(vs, ra[1..], rb) == out + ([ra[0]] + Merge(vs, ra[1..], rb));
  }

  /** Taking the front of rb onto out keeps the merge equation. */
  lemma MergeTakeRight(vs: seq<string>, out: seq<int>, ra: seq<int>, rb: seq<int>, whole: seq<int>)
    requires ra != [] && rb != [] && CmpFunc(vs, ra[0], rb[0]) > 0
    requires out + Merge(vs, ra, rb) == whole
    ensures (out + [rb[0]]) + Merge(vs, ra, rb[1..]) == whole
  {
    assert Merge(vs, ra, rb) == [rb[0]] + Merge(vs, ra, rb[1..]);
    assert (out + [rb[0]]) + Merge(vs, ra, rb[1..]) == out + ([rb[0]] + Merge(vs, ra, rb[1..]));
  }

  /** One round of merge()'s loop: the front with the lower string (a's on a tie) moves onto out. */
  method MergeStep(arena: Arena, ghost n0: seq<int>, ghost ra0: seq<int>, ghost rb0: seq<int>,
                   a: int, b: int, r: int, tail: int, ghost ra: seq<int>, ghost rb: seq<int>, ghost out: seq<int>)
    returns (a': int, b': int, r': int, tail': int, ghost ra': seq<int>, ghost rb': seq<int>, ghost out': seq<int>)
    requires MergeState(n0, arena.next, arena.value, ra0, rb0, a, b, r, tail, ra, rb, out)
    requires a != NULL && b != NULL
    modifies arena`next
    ensures MergeState(n0, arena.next, arena.value, ra0, rb0, a', b', r', tail', ra', rb', out')
    ensures |out'| == |out| + 1
  {
    ghost var next := arena.next;
    if CmpFunc(arena.value, a, b) <= 0 {
      if tail == NULL {
        r' := a;
      } else {
        arena.next := arena.next[tail := a];
        r' := r;
      }
      TakeLink(n0, next, arena.next, r, tail, out, ra, rb, b);
      MergeTakeLeft(arena.value, out, ra, rb, Merge(arena.value, ra0, rb0));
      tail', a', b' := a, arena.next[a], b;
      ra', rb', out' := ra[1..], rb, out + [a];
    } else {
      if tail == NULL {
        r' := b;
      } else {
        arena.next := arena.next[tail := b];
        r' := r;
      }
      TakeLink(n0, next, arena.next, r, tail, out, rb, ra, a);
      MergeTakeRight(arena.value, out, ra, rb, Merge(arena.value, ra0, rb0));
      tail', a', b' := b, a, arena.next[b];
      ra', rb', out' := ra, rb[1..], out + [b];
    }
  }

  /** merge() starts with nothing taken. */
  lemma MergeStart(n0: seq<int>, vs: seq<string>, ra0: seq<int>, rb0: seq<int>, a: int, b: int)
    requires Chain(n0, a, ra0) && Chain(n0, b, rb0) && Disjoint(ra0, rb0)
    ensures MergeState(n0, n0, vs, ra0, rb0, a, b, NULL, NULL, ra0, rb0, [])
  {
    assert [] + Merge(vs, ra0, rb0) == Merge(vs, ra0, rb0);
  }

  /** When one run is used up, the other one is linked behind out (queue.c:281-283, 289-291). */
  lemma MergeDone(n0: seq<int>, next: seq<int>, next': seq<int>, vs: seq<string>, ra0: seq<int>, rb0: seq<int>,
                  a: int, b: int, r: int, tail: int, ra: seq<int>, rb: seq<int>, out: seq<int>)
    requires MergeState(n0, next, vs, ra0, rb0, a, b, r, tail, ra, rb, out)
    requires ra0 != [] && rb0 != [] && (a == NULL || b == NULL)
    requires 0 <= tail < |next| && next' == next[tail := if a == NULL then b else a]
    ensures Chain(next', r, Merge(vs, ra0, rb0)) && |next'| == |n0|
    ensures forall x :: 0 <= x < |n0| && x !in ra0 && x !in rb0 ==> next'[x] == n0[x]
  {
    assert |out| + |ra| + |rb| == |ra0| + |rb0|;
    if a == NULL {
      assert Merge(vs, ra, rb) == rb;
      MergeJoin(n0, next, vs, ra0, rb0, r, tail, out, b, rb);
    } else {
      assert Merge(vs, ra, rb) == ra;
      MergeJoin(n0, next, vs, ra0, rb0, r, tail, out, a, ra);
    }
  }

  /** The last write of merge(): the run left over goes behind out. */
  lemma MergeJoin(n0: seq<int>, next: seq<int>, vs: seq<string>, ra0: seq<int>, rb0: seq<int>,
                  r: int, tail: int, out: seq<int>, rest: int, rs: seq<int>)
    requires |next| == |n0| && Front(next, r, tail, out) && out != []
    requires Chain(next, rest, rs) && Disjoint(out, rs) && out + rs == Merge(vs, ra0, rb0)
    requires forall x :: 0 <= x < |n0| && x !in out ==> next[x] == n0[x]
    ensures Chain(next[tail := rest], r, Merge(vs, ra0, rb0))
    ensures forall x :: 0 <= x < |n0| && x !in ra0 && x !in rb0 ==> next[tail := rest][x] == n0[x]
  {
    var m := out + rs;
    var next' := next[tail := rest];
    forall i | 0 <= i < |rs|
      ensures next'[rs[i]] == next[rs[i]]
    {
      assert rs[i] != tail;
    }
    ConcatDistinct(|next|, Head, out, rs);
    forall i | 0 <= i < |m|
      ensures next'[m[i]] == After(m, i)
    {
      if i >= |out| {
        assert m[i] == rs[i - |out|];
      } else if i < |out| - 1 {
        assert m[i] != tail;
      }
    }
    forall x | 0 <= x < |n0| && x !in ra0 && x !in rb0
      ensures next'[x] == n0[x]
    {
      assert x !in multiset(m);
      assert x != tail && x !in out;
    }
  }

  /**
   * merge(): the two NULL-terminated runs from a and b merged into one, with
   * a's element first on a tie; only the nexts of the runs' slots change.
   */
  method MergeLists(arena: Arena, a: int, b: int, ghost ra0: seq<int>, ghost rb0: seq<int>) returns (r: int)
    requires Chain(arena.next, a, ra0) && Chain(arena.next, b, rb0)
    requires ra0 != [] && rb0 != [] && Disjoint(ra0, rb0)
    modifies arena`next
    ensures Chain(arena.next, r, Merge(arena.value, ra0, rb0))
    ensures |arena.next| == old(|arena.next|)
    ensures forall x :: 0 <= x < |arena.next| && x !in ra0 && x !in rb0 ==> arena.next[x] == old(arena.next)[x]
  {
    ghost var n0 := arena.next;
    var a', b', tail;
    ghost var ra, rb, out;
    a', b', r, tail, ra, rb, out := MergeLoop(arena, a, b, ra0, rb0);
    ghost var next := arena.next;
    arena.next := arena.next[tail := if a' == NULL then b' else a'];
    MergeDone(n0, next, arena.next, arena.value, ra0, rb0, a', b', r, tail, ra, rb, out);
  }

  /** merge()'s loop: fronts move onto out until one of the two runs is used up. */
  method MergeLoop(arena: Arena, a: int, b: int, ghost ra0: seq<int>, ghost rb0: seq<int>)
    returns (a': int, b': int, r: int, tail: int, ghost ra: seq<int>, ghost rb: seq<int>, ghost out: seq<int>)
    requires Chain(arena.next, a, ra0) && Chain(arena.next, b, rb0)
    requires ra0 != [] && rb0 != [] && Disjoint(ra0, rb0)
    modifies arena`next
    ensures MergeState(old(arena.next), arena.next, arena.value, ra0, rb0, a', b', r, tail, ra, rb, out)
    ensures a' == NULL || b' == NULL
  {
    ghost var n0 := arena.next;
    a', b', tail := a, b, NULL;
    r := NULL;
    ra, rb, out := ra0, rb0, [];
    MergeStart(n0, arena.value, ra0, rb0, a, b);
    while a' != NULL && b' != NULL
      invariant MergeState(n0, arena.next, arena.value, ra0, rb0, a', b', r, tail, ra, rb, out)
      decreases |ra| + |rb|
    {
      a', b', r, tail, ra, rb, out := MergeStep(arena, n0, ra0, rb0, a', b', r, tail, ra, rb, out);
    }
  }

  /** A merge holds exactly the slots of the two runs. */
  lemma MergeElems(vs: seq<string>, ra: seq<int>, rb: seq<int>)
    ensures Elems(Merge(vs, ra, rb)) == Elems(ra) + Elems(rb)
  {
    var m := Merge(vs, ra, rb);
    forall x | x in m ensures x in ra || x in rb {
      assert x in multiset(m);
    }
    forall x | x in ra || x in rb ensures x in m {
      assert x in multiset(ra) + multiset(rb);
    }
  }

  /**
   * merge_final() part way: the sentinel and then out, linked both ways, up
   * to tail; the next of tail is not set yet.
   */
  ghost predicate Behind(next: seq<int>, prev: seq<int>, tail: int, out: seq<int>)
  {
    && |prev| == |next| && 0 <= Head < |next|
    && tail == (if out == [] then Head else out[|out| - 1])
    && Slots(|next|, Head, out)
    && Distinct(out)
    && (out != [] ==> next[Head] == out[0])
    && (forall i {:trigger next[out[i]]} :: 0 <= i < |out| - 1 ==> next[out[i]] == out[i + 1])
    && (forall i {:trigger prev[out[i]]} :: 0 <= i < |out| ==> prev[out[i]] == Pred(Head, out, i))
  }

  /** Only the links of the sentinel and of the slots out differ between (n0, p0) and (next, prev). */
  ghost predicate SameOutside(n0: seq<int>, p0: seq<int>, next: seq<int>, prev: seq<int>, out: seq<int>)
  {
    && |next| == |n0| && |prev| == |p0|
    && forall x :: 0 <= x < |n0| && x < |p0| && x != Head && x !in out ==> next[x] == n0[x] && prev[x] == p0[x]
  }

  /**
   * The merging loop of merge_final() part way: as in merge(), but out hangs
   * behind the sentinel with its prev links set. Only the links of the
   * sentinel and of out's slots have changed.
   */
  ghost predicate FinalState(n0: seq<int>, p0: seq<int>, next: seq<int>, prev: seq<int>, vs: seq<string>,
                             ra0: seq<int>, rb0: seq<int>, a: int, b: int, tail: int,
                             ra: seq<int>, rb: seq<int>, out: seq<int>)
  {
    && Chain(next, a, ra)
    && Chain(next, b, rb)
    && out + Merge(vs, ra, rb) == Merge(vs, ra0, rb0)
    && |ra| <= |ra0| && |rb| <= |rb0| && (ra != [] || rb != [])
    && Behind(next, prev, tail, out)
    && Apart3(out, ra, rb)
    && SameOutside(n0, p0, next, prev, out)
  }

  /** Setting tail's next leaves what hangs behind the sentinel alone. */
  lemma BehindWrite(next: seq<int>, prev: seq<int>, tail: int, out: seq<int>, x: int)
    requires Behind(next, prev, tail, out)
    ensures Behind(next[tail := x], prev, tail, out)
  {
    var next' := next[tail := x];
    forall i | 0 <= i < |out| - 1
      ensures next'[out[i]] == out[i + 1]
    {
      assert out[i] != tail;
    }
  }

  /** With tail's next already x, pointing x's prev back at tail and making x the new tail hangs x behind out. */
  lemma BehindExtend(next: seq<int>, prev: seq<int>, tail: int, out: seq<int>, x: int)
    requires Behind(next, prev, tail, out) && next[tail] == x
    requires 0 <= x < |next| && x != Head && x !in out
    ensures Behind(next, prev[x := tail], x, out + [x])
  {
    var prev', out' := prev[x := tail], out + [x];
    forall i | 0 <= i < |out'| - 1
      ensures next[out'[i]] == out'[i + 1]
    {
    }
    forall i | 0 <= i < |out'|
      ensures prev'[out'[i]] == Pred(Head, out', i)
    {
      if i < |out| {
        assert out[i] != x;
      }
    }
    ConcatDistinct(|next|, Head, out, [x]);
  }

  /** Writing a next of the sentinel or of out, and the prev of x, changes links of out + [x] only. */
  lemma OutsideExtend(n0: seq<int>, p0: seq<int>, next: seq<int>, prev: seq<int>, out: seq<int>,
                      tail: int, y: int, x: int, z: int)
    requires SameOutside(n0, p0, next, prev, out)
    requires tail == Head || tail in out
    requires 0 <= tail < |next| && 0 <= x < |prev|
    ensures SameOutside(n0, p0, next[tail := y], prev[x := z], out + [x])
  {
  }

  /** Setting the next of a slot outside both chains, the rest of the first and the second are still chains. */
  lemma ChainsWrite(next: seq<int>, tail: int, xs: seq<int>, ys: seq<int>, y: int)
    requires xs != [] && Chain(next, xs[0], xs) && Chain(next, y, ys)
    requires 0 <= tail < |next| && tail !in xs && tail !in ys
    ensures Chain(next[tail := xs[0]], next[xs[0]], xs[1..]) && Chain(next[tail := xs[0]], y, ys)
  {
    var next' := next[tail := xs[0]];
    ChainUntouched(next, next', xs[0], xs);
    ChainUntouched(next, next', y, ys);
    ChainRest(next', xs);
  }

  /** Linking x behind tail in both directions (queue.c:307-309, 314-316) and moving down the chain xs that x starts. */
  lemma TakeBehind(n0: seq<int>, p0: seq<int>, next: seq<int>, prev: seq<int>, tail: int, out: seq<int>,
                   xs: seq<int>, ys: seq<int>, y: int)
    requires xs != [] && Chain(next, xs[0], xs) && Chain(next, y, ys)
    requires Behind(next, prev, tail, out) && Apart3(out, xs, ys)
    requires SameOutside(n0, p0, next, prev, out)
    ensures Chain(next[tail := xs[0]], next[xs[0]], xs[1..]) && Chain(next[tail := xs[0]], y, ys)
    ensures Behind(next[tail := xs[0]], prev[xs[0] := tail], xs[0], out + [xs[0]])
    ensures Apart3(out + [xs[0]], xs[1..], ys)
    ensures SameOutside(n0, p0, next[tail := xs[0]], prev[xs[0] := tail], out + [xs[0]])
  {
    var x := xs[0];
    var next' := next[tail := x];
    assert tail !in xs && tail !in ys && x !in out;
    ChainsWrite(next, tail, xs, ys, y);
    BehindWrite(next, prev, tail, out, x);
    BehindExtend(next', prev, tail, out, x);
    OutsideExtend(n0, p0, next, prev, out, tail, x, x, tail);
  }

  /** One round of merge_final()'s merging loop. */
  method FinalStep(arena: Arena, ghost n0: seq<int>, ghost p0: seq<int>, ghost ra0: seq<int>, ghost rb0: seq<int>,
                   a: int, b: int, tail: int, ghost ra: seq<int>, ghost rb: seq<int>, ghost out: seq<int>)
    returns (a': int, b': int, tail': int, ghost ra': seq<int>, ghost rb': seq<int>, ghost out': seq<int>)
    requires FinalState(n0, p0, arena.next, arena.prev, arena.value, ra0, rb0, a, b, tail, ra, rb, out)
    requires a != NULL && b != NULL
    modifies arena`next, arena`prev
    ensures FinalState(n0, p0, arena.next, arena.prev, arena.value, ra0, rb0, a', b', tail', ra', rb', out')
    ensures |out'| == |out| + 1
  {
    TakeFinal(n0, p0, arena.next, arena.prev, arena.value, ra0, rb0, a, b, tail, ra, rb, out);
    if CmpFunc(arena.value, a, b) <= 0 {
      arena.next := arena.next[tail := a];
      arena.prev := arena.prev[a := tail];
      tail', a', b' := a, arena.next[a], b;
      ra', rb', out' := ra[1..], rb, out + [a];
    } else {
      arena.next := arena.next[tail := b];
      arena.prev := arena.prev[b := tail];
      tail', a', b' := b, a, arena.next[b];
      ra', rb', out' := ra, rb[1..], out + [b];
    }
  }

  /** The two ways a round of merge_final()'s merging loop can go. */
  lemma TakeFinal(n0: seq<int>, p0: seq<int>, next: seq<int>, prev: seq<int>, vs: seq<string>,
                  ra0: seq<int>, rb0: seq<int>, a: int, b: int, tail: int,
                  ra: seq<int>, rb: seq<int>, out: seq<int>)
    requires FinalState(n0, p0, next, prev, vs, ra0, rb0, a, b, tail, ra, rb, out)
    requires a != NULL && b != NULL
    ensures CmpFunc(vs, a, b) <= 0 ==>
      FinalState(n0, p0, next[tail := a], prev[a := tail], vs, ra0, rb0, next[a], b, a, ra[1..], rb, out + [a])
    ensures CmpFunc(vs, a, b) > 0 ==>
      FinalState(n0, p0, next[tail := b], prev[b := tail], vs, ra0, rb0, a, next[b], b, ra, rb[1..], out + [b])
  {
    if CmpFunc(vs, a, b) <= 0 {
      TakeBehind(n0, p0, next, prev, tail, out, ra, rb, b);
      MergeTakeLeft(vs, out, ra, rb, Merge(vs, ra0, rb0));
    } else {
      TakeBehind(n0, p0, next, prev, tail, out, rb, ra, a);
      MergeTakeRight(vs, out, ra, rb, Merge(vs, ra0, rb0));
    }
  }

  /**
   * merge_final()'s second loop part way: the rest rs of the surviving run
   * still to be walked, out behind the sentinel up to tail, and tail's next
   * already the front of rs.
   */
  ghost predicate RestState(n0: seq<int>, p0: seq<int>, next: seq<int>, prev: seq<int>, whole: seq<int>,
                            b: int, tail: int, rs: seq<int>, out: seq<int>)
  {
    && Behind(next, prev, tail, out)
    && next[tail] == b
    && Chain(next, b, rs)
    && out + rs == whole
    && Disjoint(out, rs)
    && SameOutside(n0, p0, next, prev, out)
  }

  /**
   * The merging loop is over and tail's next is set to the run that is
   * left (queue.c:325; a's rest when b ran out, queue.c:319). x is that run's first link and rs the run.
   */
  lemma FinalRest(n0: seq<int>, p0: seq<int>, next: seq<int>, prev: seq<int>, vs: seq<string>,
                  ra0: seq<int>, rb0: seq<int>, a: int, b: int, tail: int,
                  ra: seq<int>, rb: seq<int>, out: seq<int>, x: int, rs: seq<int>)
    requires FinalState(n0, p0, next, prev, vs, ra0, rb0, a, b, tail, ra, rb, out)
    requires a == NULL || b == NULL
    requires if a == NULL then x == b && rs == rb else x == a && rs == ra
    ensures x != NULL && RestState(n0, p0, next[tail := x], prev, Merge(vs, ra0, rb0), x, tail, rs, out)
  {
    var next' := next[tail := x];
    assert Merge(vs, ra, rb) == rs;
    assert Disjoint(out, rs);
    assert tail !in rs;
    ChainUntouched(next, next', x, rs);
    BehindWrite(next, prev, tail, out, x);
    OutsideWrite(n0, p0, next, prev, out, tail, x);
  }

  /** Writing the next of the sentinel or of a slot of out changes links of out only. */
  lemma OutsideWrite(n0: seq<int>, p0: seq<int>, next: seq<int>, prev: seq<int>, out: seq<int>, tail: int, y: int)
    requires SameOutside(n0, p0, next, prev, out) && Behind(next, prev, tail, out)
    ensures SameOutside(n0, p0, next[tail := y], prev, out)
  {
    assert tail == Head || tail in out;
  }

  /** One pass of merge_final()'s second loop (queue.c:326-332): b's prev is set to tail, and b becomes the tail. */
  lemma RestTake(n0: seq<int>, p0: seq<int>, next: seq<int>, prev: seq<int>, whole: seq<int>,
                 b: int, tail: int, rs: seq<int>, out: seq<int>)
    requires RestState(n0, p0, next, prev, whole, b, tail, rs, out) && b != NULL
    ensures RestState(n0, p0, next, prev[b := tail], whole, next[b], b, rs[1..], out + [b])
  {
    assert b == rs[0] && b !in out;
    BehindExtend(next, prev, tail, out, b);
    assert tail == Head || tail in out;
    OutsideExtend(n0, p0, next, prev, out, tail, next[tail], b, tail);
    assert next[tail := next[tail]] == next;
    assert Chain(next, next[b], rs[1..]) by {
      assert forall i :: 0 <= i < |rs[1..]| ==> rs[1..][i] == rs[i + 1];
    }
    assert (out + [b]) + rs[1..] == out + rs;
  }

  /** Closing the ring at the sentinel (queue.c:334-335): the sentinel heads a ring of whole. */
  lemma RestClosed(n0: seq<int>, p0: seq<int>, next: seq<int>, prev: seq<int>, whole: seq<int>,
                   tail: int, out: seq<int>)
    requires RestState(n0, p0, next, prev, whole, NULL, tail, [], out) && out != []
    ensures IsRing(next[tail := Head], prev[Head := tail], Head, whole)
    ensures AgreeOutside(n0, p0, next[tail := Head], prev[Head := tail], {Head} + Elems(whole))
  {
    var next', prev' := next[tail := Head], prev[Head := tail];
    assert out == whole;
    forall i | 0 <= i < |out|
      ensures next'[out[i]] == Succ(Head, out, i)
    {
      if i < |out| - 1 {
        assert out[i] != tail;
      }
    }
  }

  /** merge_final()'s merging loop, up to the point where one of the runs is used up. */
  method FinalMerging(arena: Arena, a: int, b: int, ghost ra0: seq<int>, ghost rb0: seq<int>)
    returns (a': int, b': int, tail: int, ghost ra: seq<int>, ghost rb: seq<int>, ghost out: seq<int>)
    requires Chain(arena.next, a, ra0) && Chain(arena.next, b, rb0)
    requires ra0 != [] && rb0 != [] && Disjoint(ra0, rb0) && |arena.prev| == |arena.next|
    modifies arena`next, arena`prev
    ensures FinalState(old(arena.next), old(arena.prev), arena.next, arena.prev, arena.value,
                       ra0, rb0, a', b', tail, ra, rb, out)
    ensures a' == NULL || b' == NULL
  {
    ghost var n0, p0 := arena.next, arena.prev;
    a', b', tail := a, b, Head;
    ra, rb, out := ra0, rb0, [];
    FinalStart(n0, p0, arena.value, ra0, rb0, a, b);
    while a' != NULL && b' != NULL
      invariant FinalState(n0, p0, arena.next, arena.prev, arena.value, ra0, rb0, a', b', tail, ra, rb, out)
      decreases |ra| + |rb|
    {
      a', b', tail, ra, rb, out := FinalStep(arena, n0, p0, ra0, rb0, a', b', tail, ra, rb, out);
    }
  }

  /** merge_final()'s second loop: the prev links along the rest of the surviving run. */
  method FinalWalk(arena: Arena, b: int, tail: int, ghost n0: seq<int>, ghost p0: seq<int>,
                   ghost whole: seq<int>, ghost rs: seq<int>, ghost out: seq<int>)
    returns (tail': int, ghost out': seq<int>)
    requires RestState(n0, p0, arena.next, arena.prev, whole, b, tail, rs, out) && b != NULL
    modifies arena`prev
    ensures RestState(n0, p0, arena.next, arena.prev, whole, NULL, tail', [], out') && out' != []
  {
    var b := b;
    tail' := tail;
    ghost var rs := rs;
    out' := out;
    while b != NULL
      invariant RestState(n0, p0, arena.next, arena.prev, whole, b, tail', rs, out')
      invariant b != NULL || out' != []
      decreases |rs|
    {
      RestTake(n0, p0, arena.next, arena.prev, whole, b, tail', rs, out');
      arena.prev := arena.prev[b := tail'];
      tail' := b;
      b := arena.next[b];
      rs, out' := rs[1..], out' + [tail'];
    }
  }

  /**
   * merge_final(): the runs from a and b merged, with a's element first on a
   * tie, into the ring headed by the sentinel, every prev link restored.
   */
  method MergeFinal(arena: Arena, a: int, b: int, ghost ra0: seq<int>, ghost rb0: seq<int>)
    requires Chain(arena.next, a, ra0) && Chain(arena.next, b, rb0)
    requires ra0 != [] && rb0 != [] && Disjoint(ra0, rb0) && |arena.prev| == |arena.next|
    modifies arena`next, arena`prev
    ensures IsRing(arena.next, arena.prev, Head, Merge(arena.value, ra0, rb0))
    ensures AgreeOutside(old(arena.next), old(arena.prev), arena.next, arena.prev, {Head} + Elems(ra0) + Elems(rb0))
  {
    ghost var n0, p0 := arena.next, arena.prev;
    ghost var whole := Merge(arena.value, ra0, rb0);
    var a, b, tail, ra, rb, out := FinalMerging(arena, a, b, ra0, rb0);
    var x := b;
    ghost var rs := rb;
    if a != NULL {
      x, rs := a, ra;
    }
    FinalRest(n0, p0, arena.next, arena.prev, arena.value, ra0, rb0, a, b, tail, ra, rb, out, x, rs);
    arena.next := arena.next[tail := x];
    tail, out := FinalWalk(arena, x, tail, n0, p0, whole, rs, out);
    RestClosed(n0, p0, arena.next, arena.prev, whole, tail, out);
    arena.next := arena.next[tail := Head];
    arena.prev := arena.prev[Head := tail];
    MergeElems(arena.value, ra0, rb0);
  }

  /** merge_final() starts with nothing behind the sentinel. */
  lemma FinalStart(n0: seq<int>, p0: seq<int>, vs: seq<string>, ra0: seq<int>, rb0: seq<int>, a: int, b: int)
    requires Chain(n0, a, ra0) && Chain(n0, b, rb0) && Disjoint(ra0, rb0) && |p0| == |n0|
    requires ra0 != []
    ensures FinalState(n0, p0, n0, p0, vs, ra0, rb0, a, b, Head, ra0, rb0, [])
  {
    assert [] + Merge(vs, ra0, rb0) == Merge(vs, ra0, rb0);
    assert 0 <= ra0[0] < |n0|;
  }

  /** The segments of the input the runs were sorted from, oldest (first in the input) first. */
  ghost function Joined(segs: seq<seq<int>>): seq<int>
  {
    if segs == [] then [] else Joined(segs[1..]) + segs[0]
  }

  /** The slots of the runs, newest run first. */
  ghost function Flat(runs: seq<seq<int>>): seq<int>
  {
    if runs == [] then [] else runs[0] + Flat(runs[1..])
  }

  /** Every slot of ys is in xs. */
  ghost predicate Within(ys: seq<int>, xs: seq<int>)
  {
    forall t :: 0 <= t < |ys| ==> ys[t] in xs
  }

  lemma {:induction false} JoinedConcat(a: seq<seq<int>>, b: seq<seq<int>>)
    ensures Joined(a + b) == Joined(b) + Joined(a)
  {
    if a == [] {
      assert a + b == b;
    } else {
      assert (a + b)[0] == a[0] && (a + b)[1..] == a[1..] + b;
      JoinedConcat(a[1..], b);
    }
  }

  /** s cut around its entries at j and j + 1. */
  lemma SplitTwo<T>(s: seq<T>, j: int)
    requires 0 <= j && j + 1 < |s|
    ensures s == s[..j] + [s[j]] + [s[j + 1]] + s[j + 2..]
  {
    var t := s[..j] + [s[j]] + [s[j + 1]] + s[j + 2..];
    assert |t| == |s|;
    forall i | 0 <= i < |s| ensures t[i] == s[i] {
      if i < j {
        assert t[i] == s[..j][i];
      } else if i >= j + 2 {
        assert t[i] == s[j + 2..][i - j - 2];
      }
    }
  }

  lemma JoinedOne(x: seq<int>)
    ensures Joined([x]) == x
  {
    assert [x][1..] == [];
  }

  /** Merging the runs at depth j and j + 1 joins their segments in input order. */
  lemma JoinedMerged(segs: seq<seq<int>>, j: int)
    requires 0 <= j && j + 1 < |segs|
    ensures Joined(segs[..j] + [segs[j + 1] + segs[j]] + segs[j + 2..]) == Joined(segs)
  {
    SplitTwo(segs, j);
    JoinedPair(segs[..j], segs[j], segs[j + 1], segs[j + 2..]);
  }

  lemma JoinedPair(pre: seq<seq<int>>, x: seq<int>, y: seq<int>, post: seq<seq<int>>)
    ensures Joined(pre + [y + x] + post) == Joined(pre + [x] + [y] + post)
  {
    calc {
      Joined(pre + [x] + [y] + post);
      { JoinedConcat(pre + [x] + [y], post); }
      Joined(post) + Joined(pre + [x] + [y]);
      { JoinedConcat(pre + [x], [y]); JoinedOne(y); }
      Joined(post) + (y + Joined(pre + [x]));
      { JoinedConcat(pre, [x]); JoinedOne(x); }
      Joined(post) + (y + (x + Joined(pre)));
      Joined(post) + ((y + x) + Joined(pre));
      { JoinedConcat(pre, [y + x]); JoinedOne(y + x); }
      Joined(post) + Joined(pre + [y + x]);
      { JoinedConcat(pre + [y + x], post); }
      Joined(pre + [y + x] + post);
    }
  }

  /** The runs hold, all told, the slots of their segments. */
  lemma {:induction false} FlatMultiset(vs: seq<string>, runs: seq<seq<int>>, segs: seq<seq<int>>)
    requires |runs| == |segs| && forall j :: 0 <= j < |segs| ==> runs[j] == Sort(vs, segs[j])
    ensures multiset(Flat(runs)) == multiset(Joined(segs))
  {
    if runs != [] {
      FlatMultiset(vs, runs[1..], segs[1..]);
    }
  }

  /** A slot of any run is a slot of Flat. */
  lemma {:induction false} FlatMember(runs: seq<seq<int>>, i: int, y: int)
    requires 0 <= i < |runs| && y in runs[i]
    ensures y in Flat(runs)
  {
    if i > 0 {
      FlatMember(runs[1..], i - 1, y);
    }
  }

  /** In a sequence without repeats every slot occurs at most once. */
  lemma {:induction false} DistinctCount(xs: seq<int>)
    requires Distinct(xs)
    ensures forall v :: multiset(xs)[v] <= 1
  {
    if xs != [] {
      assert xs == [xs[0]] + xs[1..];
      DistinctCount(xs[1..]);
      assert xs[0] !in xs[1..];
    }
  }

  /** A sequence where every slot occurs at most once has no repeats. */
  lemma {:induction false} CountDistinct(ys: seq<int>)
    requires forall v :: multiset(ys)[v] <= 1
    ensures Distinct(ys)
  {
    if ys != [] {
      assert ys == [ys[0]] + ys[1..];
      assert multiset(ys) == multiset{ys[0]} + multiset(ys[1..]);
      forall v ensures multiset(ys[1..])[v] <= 1 {
        assert multiset(ys)[v] == multiset{ys[0]}[v] + multiset(ys[1..])[v];
      }
      CountDistinct(ys[1..]);
      assert multiset(ys)[ys[0]] == 1 + multiset(ys[1..])[ys[0]];
      assert ys[0] !in multiset(ys[1..]);
      forall i, j | 0 <= i < j < |ys| ensures ys[i] != ys[j] {
        if i > 0 {
          assert ys[i] == ys[1..][i - 1] && ys[j] == ys[1..][j - 1];
        } else {
          assert ys[j] in ys[1..];
        }
      }
    }
  }

  /** A reordering of a sequence without repeats has none either. */
  lemma DistinctPermuted(xs: seq<int>, ys: seq<int>)
    requires Distinct(xs) && multiset(ys) == multiset(xs)
    ensures Distinct(ys)
  {
    DistinctCount(xs);
    CountDistinct(ys);
  }

  /** The halves of a sequence without repeats share no slot. */
  lemma DistinctSplit(a: seq<int>, b: seq<int>)
    requires Distinct(a + b)
    ensures Distinct(a) && Distinct(b) && Disjoint(a, b) && Disjoint(b, a)
  {
    var c := a + b;
    forall i, j | 0 <= i < j < |a| ensures a[i] != a[j] {
      assert c[i] == a[i] && c[j] == a[j];
    }
    forall i, j | 0 <= i < j < |b| ensures b[i] != b[j] {
      assert c[|a| + i] == b[i] && c[|a| + j] == b[j];
    }
    forall i, k | 0 <= i < |a| && 0 <= k < |b| ensures a[i] != b[k] {
      assert c[i] == a[i] && c[|a| + k] == b[k];
    }
  }

  /** The runs and the rest of a sequence without repeats share no slot. */
  lemma {:induction false} FlatApart(runs: seq<seq<int>>, rest: seq<int>)
    requires Distinct(Flat(runs) + rest)
    ensures forall i :: 0 <= i < |runs| ==> Disjoint(runs[i], rest)
    ensures forall i, k :: 0 <= i < |runs| && 0 <= k < |runs| && i != k ==> Disjoint(runs[i], runs[k])
  {
    if runs != [] {
      var tl := Flat(runs[1..]) + rest;
      assert Flat(runs) + rest == runs[0] + tl;
      DistinctSplit(runs[0], tl);
      DistinctSplit(Flat(runs[1..]), rest);
      FlatApart(runs[1..], rest);
      forall k | 0 < k < |runs|
        ensures Disjoint(runs[0], runs[k]) && Disjoint(runs[k], runs[0])
      {
        assert runs[k] == runs[1..][k - 1];
        forall t | 0 <= t < |runs[k]| ensures runs[k][t] in tl {
          FlatMember(runs[1..], k - 1, runs[k][t]);
        }
      }
      forall i | 0 <= i < |runs| ensures Disjoint(runs[i], rest) {
        if i > 0 {
          assert runs[i] == runs[1..][i - 1];
        } else {
          assert forall t :: 0 <= t < |rest| ==> rest[t] in tl;
        }
      }
      forall i, k | 0 <= i < |runs| && 0 <= k < |runs| && i != k
        ensures Disjoint(runs[i], runs[k])
      {
        if i > 0 && k > 0 {
          assert runs[i] == runs[1..][i - 1] && runs[k] == runs[1..][k - 1];
        }
      }
    }
  }

  /**
   * The runs, sorted from segments that together with rest reorder the
   * slots xs, share no slot with each other or with rest, and lie in xs.
   */
  lemma RunsApart(vs: seq<string>, runs: seq<seq<int>>, segs: seq<seq<int>>, rest: seq<int>, xs: seq<int>)
    requires |runs| == |segs| && forall j :: 0 <= j < |segs| ==> runs[j] == Sort(vs, segs[j])
    requires multiset(Joined(segs)) + multiset(rest) == multiset(xs) && Distinct(xs)
    ensures forall i :: 0 <= i < |runs| ==> Disjoint(runs[i], rest) && Within(runs[i], xs)
    ensures forall i, k :: 0 <= i < |runs| && 0 <= k < |runs| && i != k ==> Disjoint(runs[i], runs[k])
    ensures Within(rest, xs)
  {
    FlatMultiset(vs, runs, segs);
    var f := Flat(runs) + rest;
    assert multiset(f) == multiset(xs);
    DistinctPermuted(xs, f);
    FlatApart(runs, rest);
    StackWithin(runs, rest, xs);
  }

  /** The runs and the rest of a permutation of xs hold only slots of xs. */
  lemma StackWithin(runs: seq<seq<int>>, rest: seq<int>, xs: seq<int>)
    requires multiset(Flat(runs) + rest) == multiset(xs)
    ensures forall i :: 0 <= i < |runs| ==> Within(runs[i], xs)
    ensures Within(rest, xs)
  {
    var f := Flat(runs) + rest;
    forall t | 0 <= t < |rest| ensures rest[t] in xs {
      assert rest[t] == f[|Flat(runs)| + t];
      assert rest[t] in multiset(f);
    }
    forall i, t | 0 <= i < |runs| && 0 <= t < |runs[i]|
      ensures runs[i][t] in xs
    {
      FlatMember(runs, i, runs[i][t]);
      assert runs[i][t] in multiset(f);
    }
  }

  /** The number of binary digits of n. */
  function BitLength(n: nat): nat
  {
    if n == 0 then 0 else 1 + BitLength(n / 2)
  }

  /** n with its trailing one bits shifted out. */
  function Strip(n: nat): nat
  {
    if n % 2 == 1 then Strip(n / 2) else n
  }

  /** Counting one more adds a binary digit exactly when all of count's digits are ones. */
  lemma {:induction false} BitLengthSucc(c: nat)
    ensures BitLength(c + 1) == BitLength(c) + (if Strip(c) == 0 then 1 else 0)
  {
    if c % 2 == 1 {
      assert (c + 1) / 2 == c / 2 + 1;
      BitLengthSucc(c / 2);
    } else if c > 0 {
      assert (c + 1) / 2 == c / 2;
    }
  }

  /** An even nonzero number has at least two binary digits. */
  lemma BitLengthEven(n: nat)
    requires n % 2 == 0 && n != 0
    ensures BitLength(n) >= 2
  {
    assert n / 2 >= 1;
  }

  /** The first slot of the top run, which pending points at; NULL with no runs. */
  ghost function Top(runs: seq<seq<int>>): int
  {
    if runs != [] && runs[0] != [] then runs[0][0] else NULL
  }

  /** The first slot of the run below run j, which run j's prev points at; NULL below the bottom run. */
  ghost function Below(runs: seq<seq<int>>, j: int): int
  {
    if 0 <= j && j + 1 < |runs| && runs[j + 1] != [] then runs[j + 1][0] else NULL
  }

  /**
   * Where list_sort()'s `tail` points after j steps down the stack: NULL for
   * &pending, otherwise the slot whose prev field it is.
   */
  ghost function Depth(runs: seq<seq<int>>, j: int): int
  {
    if 0 < j <= |runs| && runs[j - 1] != [] then runs[j - 1][0] else NULL
  }

  /**
   * The stack of pending runs: pending is the first slot of the newest run,
   * each run is a NULL-terminated chain, and the prev of a run's first slot
   * is the first slot of the next older run.
   */
  ghost predicate Pending(next: seq<int>, prev: seq<int>, pending: int, runs: seq<seq<int>>)
  {
    && |prev| == |next|
    && pending == Top(runs)
    && forall j :: 0 <= j < |runs| ==> runs[j] != [] && Links(next, runs[j]) && prev[runs[j][0]] == Below(runs, j)
  }

  /**
   * list_sort()'s state between rounds: the chain from list holds the slots
   * rest not yet looked at; the runs on the stack are the sorted segments
   * segs (newest first) that come before rest in xs; only links of xs
   * have changed.
   */
  ghost predicate Stack(n0: seq<int>, p0: seq<int>, next: seq<int>, prev: seq<int>, vs: seq<string>, xs: seq<int>,
                        list: int, pending: int, runs: seq<seq<int>>, segs: seq<seq<int>>, rest: seq<int>)
  {
    && Chain(next, list, rest)
    && Joined(segs) + rest == xs
    && |runs| == |segs|
    && (forall j :: 0 <= j < |segs| ==> segs[j] != [] && runs[j] == Sort(vs, segs[j]))
    && Pending(next, prev, pending, runs)
    && Distinct(xs)
    && SameOutside(n0, p0, next, prev, xs)
  }

  /**
   * The first loop of a round: `tail` steps down one run for each trailing
   * one bit of count. bits ends as count without those bits, tail at depth j.
   */
  method FindTail(arena: Arena, pending: int, count: nat, ghost runs: seq<seq<int>>)
    returns (tail: int, bits: nat, ghost j: nat)
    requires Pending(arena.next, arena.prev, pending, runs) && |runs| == BitLength(count)
    ensures bits == Strip(count) && bits % 2 == 0 && j + BitLength(bits) == BitLength(count)
    ensures tail == Depth(runs, j)
  {
    tail, bits, j := NULL, count, 0;
    while bits % 2 == 1
      invariant j + BitLength(bits) == BitLength(count) && Strip(bits) == Strip(count)
      invariant tail == Depth(runs, j)
      decreases bits
    {
      assert j < |runs| && runs[j] != [];
      if tail == NULL {
        tail := pending;
      } else {
        assert 0 < j && runs[j - 1] != [] && Links(arena.next, runs[j - 1]);
        tail := arena.prev[tail];
      }
      bits, j := bits / 2, j + 1;
    }
  }

  /** A chain apart from the two runs being merged keeps its links. */
  lemma LinksKept(next: seq<int>, next2: seq<int>, xs: seq<int>, a: seq<int>, b: seq<int>)
    requires Links(next, xs) && Disjoint(xs, a) && Disjoint(xs, b) && |next2| == |next|
    requires forall x :: 0 <= x < |next| && x !in a && x !in b ==> next2[x] == next[x]
    ensures Links(next2, xs)
  {
    forall i | 0 <= i < |xs| ensures next2[xs[i]] == next[xs[i]] {
      assert xs[i] !in a && xs[i] !in b;
    }
  }

  /** The stack with runs j and j + 1 replaced by m, entry by entry. */
  lemma MergedIndex<T>(runs: seq<T>, j: int, m: T)
    requires 0 <= j && j + 1 < |runs|
    ensures var rs := runs[..j] + [m] + runs[j + 2..];
      && |rs| == |runs| - 1 && rs[j] == m
      && (forall k :: 0 <= k < j ==> rs[k] == runs[k])
      && (forall k :: j < k < |rs| ==> rs[k] == runs[k + 1])
  {
  }

  /** A run above the merged pair keeps its links; only the one right above has its prev rewritten, to r. */
  lemma RunAbove(next: seq<int>, prev: seq<int>, next2: seq<int>, prev2: seq<int>, p: int,
                 runs: seq<seq<int>>, j: int, tail: int, r: int, k: int)
    requires Pending(next, prev, p, runs)
    requires 0 <= k < j && j + 1 < |runs| && tail == Depth(runs, j)
    requires Disjoint(runs[k], runs[j]) && Disjoint(runs[k], runs[j + 1])
    requires k < j - 1 ==> Disjoint(runs[k], runs[j - 1])
    requires |next2| == |next| && (r in runs[j] || r in runs[j + 1])
    requires forall x :: 0 <= x < |next| && x !in runs[j] && x !in runs[j + 1] ==> next2[x] == next[x]
    requires prev2 == if tail == NULL then prev[r := prev[runs[j + 1][0]]] else prev[r := prev[runs[j + 1][0]]][tail := r]
    ensures Links(next2, runs[k])
    ensures prev2[runs[k][0]] == if k == j - 1 then r else runs[k + 1][0]
  {
    LinksKept(next, next2, runs[k], runs[j], runs[j + 1]);
    assert runs[k][0] != r;
    if k < j - 1 {
      assert runs[k][0] != runs[j - 1][0];
    }
  }

  /** A run below the merged pair keeps its links and its prev. */
  lemma RunUnder(next: seq<int>, prev: seq<int>, next2: seq<int>, prev2: seq<int>, p: int,
                 runs: seq<seq<int>>, j: int, tail: int, r: int, k: int)
    requires Pending(next, prev, p, runs)
    requires 0 <= j && j + 1 < k < |runs| && tail == Depth(runs, j)
    requires Disjoint(runs[k], runs[j]) && Disjoint(runs[k], runs[j + 1])
    requires 0 < j ==> Disjoint(runs[k], runs[j - 1])
    requires |next2| == |next| && (r in runs[j] || r in runs[j + 1])
    requires forall x :: 0 <= x < |next| && x !in runs[j] && x !in runs[j + 1] ==> next2[x] == next[x]
    requires prev2 == if tail == NULL then prev[r := prev[runs[j + 1][0]]] else prev[r := prev[runs[j + 1][0]]][tail := r]
    ensures Links(next2, runs[k])
    ensures prev2[runs[k][0]] == Below(runs, k)
  {
    LinksKept(next, next2, runs[k], runs[j], runs[j + 1]);
    assert runs[k][0] != r;
    if 0 < j {
      assert runs[k][0] != runs[j - 1][0];
    }
  }

  /**
   * The merge of queue.c:357-359: with runs j and j + 1 merged into m, whose
   * first slot r takes over the older run's prev, the stack holds one run less.
   */
  lemma MergedPending(next: seq<int>, prev: seq<int>, next2: seq<int>, prev2: seq<int>, p: int, p2: int,
                      runs: seq<seq<int>>, j: int, tail: int, r: int, m: seq<int>)
    requires Pending(next, prev, p, runs)
    requires 0 <= j && j + 1 < |runs| && tail == Depth(runs, j)
    requires forall i, k :: 0 <= i < |runs| && 0 <= k < |runs| && i != k ==> Disjoint(runs[i], runs[k])
    requires |next2| == |next| && Chain(next2, r, m) && m != []
    requires r in runs[j] || r in runs[j + 1]
    requires forall x :: 0 <= x < |next| && x !in runs[j] && x !in runs[j + 1] ==> next2[x] == next[x]
    requires prev2 == if tail == NULL then prev[r := prev[runs[j + 1][0]]] else prev[r := prev[runs[j + 1][0]]][tail := r]
    requires p2 == if tail == NULL then r else p
    ensures Pending(next2, prev2, p2, runs[..j] + [m] + runs[j + 2..])
  {
    var rs := runs[..j] + [m] + runs[j + 2..];
    MergedIndex(runs, j, m);
    forall k | 0 <= k < |rs|
      ensures rs[k] != [] && Links(next2, rs[k]) && prev2[rs[k][0]] == Below(rs, k)
    {
      if k < j {
        RunAbove(next, prev, next2, prev2, p, runs, j, tail, r, k);
        if k < j - 1 {
          assert rs[k + 1] == runs[k + 1];
        }
      } else if k == j {
        assert tail != r;
        if j + 2 < |runs| {
          assert rs[j + 1] == runs[j + 2];
        }
      } else {
        RunUnder(next, prev, next2, prev2, p, runs, j, tail, r, k + 1);
        if k + 1 < |rs| {
          assert rs[k + 1] == runs[k + 2];
        }
      }
    }
  }

  /** Merging runs j and j + 1 keeps each run the sort of its segment. */
  lemma SortsMerged(vs: seq<string>, runs: seq<seq<int>>, segs: seq<seq<int>>, j: int)
    requires |runs| == |segs|
    requires forall j :: 0 <= j < |segs| ==> segs[j] != [] && runs[j] == Sort(vs, segs[j])
    requires 0 <= j && j + 1 < |runs|
    ensures var runs', segs' := runs[..j] + [Merge(vs, runs[j + 1], runs[j])] + runs[j + 2..],
                                segs[..j] + [segs[j + 1] + segs[j]] + segs[j + 2..];
      && |runs'| == |segs'|
      && forall j :: 0 <= j < |segs'| ==> segs'[j] != [] && runs'[j] == Sort(vs, segs'[j])
  {
    var runs', segs' := runs[..j] + [Merge(vs, runs[j + 1], runs[j])] + runs[j + 2..],
                        segs[..j] + [segs[j + 1] + segs[j]] + segs[j + 2..];
    MergeSort(vs, segs[j + 1], segs[j]);
    MergedIndex(segs, j, segs[j + 1] + segs[j]);
    MergedIndex(runs, j, Merge(vs, runs[j + 1], runs[j]));
    forall k | 0 <= k < |segs'|
      ensures segs'[k] != [] && runs'[k] == Sort(vs, segs'[k])
    {
      if k > j {
        assert runs'[k] == runs[k + 1] && segs'[k] == segs[k + 1];
      }
    }
  }

  /** Merging runs j and j + 1 keeps the segments in input order. */
  lemma SegsMerged(vs: seq<string>, xs: seq<int>, runs: seq<seq<int>>, segs: seq<seq<int>>, rest: seq<int>, j: int)
    requires Joined(segs) + rest == xs && |runs| == |segs|
    requires forall j :: 0 <= j < |segs| ==> segs[j] != [] && runs[j] == Sort(vs, segs[j])
    requires 0 <= j && j + 1 < |runs|
    ensures var runs', segs' := runs[..j] + [Merge(vs, runs[j + 1], runs[j])] + runs[j + 2..],
                                segs[..j] + [segs[j + 1] + segs[j]] + segs[j + 2..];
      && Joined(segs') + rest == xs && |runs'| == |segs'|
      && forall j :: 0 <= j < |segs'| ==> segs'[j] != [] && runs'[j] == Sort(vs, segs'[j])
  {
    JoinedMerged(segs, j);
    SortsMerged(vs, runs, segs, j);
  }

  /** Rewriting links of slots of xs only keeps the frame. */
  lemma OutsideWithin(n0: seq<int>, p0: seq<int>, next: seq<int>, prev: seq<int>, next2: seq<int>, prev2: seq<int>,
                      xs: seq<int>, a: seq<int>, b: seq<int>, r: int, tail: int, y: int, z: int)
    requires SameOutside(n0, p0, next, prev, xs) && Within(a, xs) && Within(b, xs)
    requires |next2| == |next| && r in xs && (tail != NULL ==> tail in xs) && 0 <= r < |prev|
    requires forall x :: 0 <= x < |next| && x !in a && x !in b ==> next2[x] == next[x]
    requires tail != NULL ==> 0 <= tail < |prev|
    requires prev2 == if tail == NULL then prev[r := y] else prev[r := y][tail := z]
    ensures SameOutside(n0, p0, next2, prev2, xs)
  {
    forall x | 0 <= x < |n0| && x < |p0| && x != Head && x !in xs
      ensures next2[x] == n0[x] && prev2[x] == p0[x]
    {
      assert x !in a && x !in b;
    }
  }

  /** After the merge of runs j and j + 1: the links of the new stack, of the rest, and the frame. */
  lemma MergeLinks(n0: seq<int>, p0: seq<int>, next: seq<int>, prev: seq<int>, next2: seq<int>, prev2: seq<int>,
                   vs: seq<string>, xs: seq<int>, list: int, p: int, p2: int,
                   runs: seq<seq<int>>, segs: seq<seq<int>>, rest: seq<int>, j: int, tail: int, r: int)
    requires Stack(n0, p0, next, prev, vs, xs, list, p, runs, segs, rest)
    requires 0 <= j && j + 1 < |runs| && tail == Depth(runs, j)
    requires |next2| == |next| && Chain(next2, r, Merge(vs, runs[j + 1], runs[j]))
    requires forall x :: 0 <= x < |next| && x !in runs[j + 1] && x !in runs[j] ==> next2[x] == next[x]
    requires prev2 == if tail == NULL then prev[r := prev[runs[j + 1][0]]] else prev[r := prev[runs[j + 1][0]]][tail := r]
    requires p2 == if tail == NULL then r else p
    ensures Pending(next2, prev2, p2, runs[..j] + [Merge(vs, runs[j + 1], runs[j])] + runs[j + 2..])
    ensures Chain(next2, list, rest)
    ensures SameOutside(n0, p0, next2, prev2, xs)
  {
    var m := Merge(vs, runs[j + 1], runs[j]);
    RunsApart(vs, runs, segs, rest, xs);
    MergeElems(vs, runs[j + 1], runs[j]);
    assert r in Elems(m);
    MergedPending(next, prev, next2, prev2, p, p2, runs, j, tail, r, m);
    LinksKept(next, next2, rest, runs[j], runs[j + 1]);
    assert Links(next, runs[j]) && Links(next, runs[j + 1]);
    assert tail != NULL ==> tail == runs[j - 1][0] && Links(next, runs[j - 1]);
    OutsideWithin(n0, p0, next, prev, next2, prev2, xs, runs[j + 1], runs[j], r, tail, prev[runs[j + 1][0]], r);
  }

  /** The merge of the runs at depth j and j + 1 leaves a stack of one run less. */
  lemma MergeStack(n0: seq<int>, p0: seq<int>, next: seq<int>, prev: seq<int>, next2: seq<int>, prev2: seq<int>,
                   vs: seq<string>, xs: seq<int>, list: int, p: int, p2: int,
                   runs: seq<seq<int>>, segs: seq<seq<int>>, rest: seq<int>, j: int, tail: int, r: int)
    requires Stack(n0, p0, next, prev, vs, xs, list, p, runs, segs, rest)
    requires 0 <= j && j + 1 < |runs| && tail == Depth(runs, j)
    requires |next2| == |next| && Chain(next2, r, Merge(vs, runs[j + 1], runs[j]))
    requires forall x :: 0 <= x < |next| && x !in runs[j + 1] && x !in runs[j] ==> next2[x] == next[x]
    requires prev2 == if tail == NULL then prev[r := prev[runs[j + 1][0]]] else prev[r := prev[runs[j + 1][0]]][tail := r]
    requires p2 == if tail == NULL then r else p
    ensures Stack(n0, p0, next2, prev2, vs, xs, list, p2,
                  runs[..j] + [Merge(vs, runs[j + 1], runs[j])] + runs[j + 2..],
                  segs[..j] + [segs[j + 1] + segs[j]] + segs[j + 2..], rest)
  {
    MergeLinks(n0, p0, next, prev, next2, prev2, vs, xs, list, p, p2, runs, segs, rest, j, tail, r);
    SegsMerged(vs, xs, runs, segs, rest, j);
  }

  /**
   * The two runs read at queue.c:355: tail's target is the first slot of
   * run j and its prev the first slot of run j + 1, two chains apart from
   * each other.
   */
  lemma MergePair(n0: seq<int>, p0: seq<int>, next: seq<int>, prev: seq<int>, vs: seq<string>, xs: seq<int>,
                  list: int, pending: int, runs: seq<seq<int>>, segs: seq<seq<int>>, rest: seq<int>, j: int, tail: int)
    requires Stack(n0, p0, next, prev, vs, xs, list, pending, runs, segs, rest)
    requires 0 <= j && j + 1 < |runs| && tail == Depth(runs, j)
    ensures tail != NULL ==> 0 <= tail < |prev| && prev[tail] == runs[j][0]
    ensures tail == NULL ==> pending == runs[j][0]
    ensures runs[j] != [] && runs[j + 1] != [] && 0 <= runs[j][0] < |prev| && prev[runs[j][0]] == runs[j + 1][0]
    ensures Chain(next, runs[j][0], runs[j]) && Chain(next, runs[j + 1][0], runs[j + 1])
    ensures Disjoint(runs[j + 1], runs[j])
  {
    RunsApart(vs, runs, segs, rest, xs);
    assert Links(next, runs[j]) && Links(next, runs[j + 1]);
    if 0 < j {
      assert Links(next, runs[j - 1]);
    }
  }

  /**
   * The two writes after merge() (queue.c:358-359): the merged run r takes
   * the place of runs j and j + 1 on the stack.
   */
  method Relink(arena: Arena, pending: int, tail: int, list: int, r: int, b: int,
                ghost n0: seq<int>, ghost p0: seq<int>, ghost next: seq<int>,
                ghost xs: seq<int>, ghost runs: seq<seq<int>>, ghost segs: seq<seq<int>>, ghost rest: seq<int>,
                ghost j: nat)
    returns (pending': int)
    requires Stack(n0, p0, next, arena.prev, arena.value, xs, list, pending, runs, segs, rest)
    requires j + 1 < |runs| && tail == Depth(runs, j) && b == runs[j + 1][0]
    requires |arena.next| == |next| && Chain(arena.next, r, Merge(arena.value, runs[j + 1], runs[j]))
    requires forall x :: 0 <= x < |next| && x !in runs[j + 1] && x !in runs[j] ==> arena.next[x] == next[x]
    requires 0 <= b < |arena.prev| && 0 <= r < |arena.prev| && (tail != NULL ==> 0 <= tail < |arena.prev|)
    modifies arena`prev
    ensures Stack(n0, p0, arena.next, arena.prev, arena.value, xs, list, pending',
                  runs[..j] + [Merge(arena.value, runs[j + 1], runs[j])] + runs[j + 2..],
                  segs[..j] + [segs[j + 1] + segs[j]] + segs[j + 2..], rest)
  {
    ghost var prev := arena.prev;
    var relinked := arena.prev[r := arena.prev[b]];
    arena.prev := if tail == NULL then relinked else relinked[tail := r];
    pending' := if tail == NULL then r else pending;
    MergeStack(n0, p0, next, prev, arena.next, arena.prev, arena.value, xs, list, pending, pending',
               runs, segs, rest, j, tail, r);
  }

  /**
   * The conditional merge of a round (queue.c:354-360): the run at depth j, which tail points
   * at, and the older one below it are merged (the older run first, so
   * ties keep their input order) into one run in their place.
   */
  method MergeAt(arena: Arena, pending: int, tail: int, list: int, ghost n0: seq<int>, ghost p0: seq<int>,
                 ghost xs: seq<int>, ghost runs: seq<seq<int>>, ghost segs: seq<seq<int>>, ghost rest: seq<int>,
                 ghost j: nat)
    returns (pending': int)
    requires Stack(n0, p0, arena.next, arena.prev, arena.value, xs, list, pending, runs, segs, rest)
    requires j + 1 < |runs| && tail == Depth(runs, j)
    modifies arena`next, arena`prev
    ensures Stack(n0, p0, arena.next, arena.prev, arena.value, xs, list, pending',
                  runs[..j] + [Merge(arena.value, runs[j + 1], runs[j])] + runs[j + 2..],
                  segs[..j] + [segs[j + 1] + segs[j]] + segs[j + 2..], rest)
  {
    ghost var next := arena.next;
    MergePair(n0, p0, next, arena.prev, arena.value, xs, list, pending, runs, segs, rest, j, tail);
    var a := if tail == NULL then pending else arena.prev[tail];
    var b := arena.prev[a];
    var r := MergeLists(arena, b, a, runs[j + 1], runs[j]);
    assert Slots(|arena.next|, Head, Merge(arena.value, runs[j + 1], runs[j]));
    pending' := Relink(arena, pending, tail, list, r, b, n0, p0, next, xs, runs, segs, rest, j);
  }

  /** The stack with the one-slot run [x] pushed on top, entry by entry. */
  lemma PushIndex<T>(runs: seq<T>, m: T)
    ensures var rs := [m] + runs;
      && |rs| == |runs| + 1 && rs[0] == m
      && (forall k :: 0 < k < |rs| ==> rs[k] == runs[k - 1])
  {
  }

  /** Pushing the slot x, apart from every run, as a run of its own on top of the stack. */
  lemma PushPending(next: seq<int>, prev: seq<int>, p: int, runs: seq<seq<int>>, x: int)
    requires Pending(next, prev, p, runs)
    requires 0 <= x < |next| && x != Head
    requires forall k :: 0 <= k < |runs| ==> x !in runs[k]
    ensures Pending(next[x := NULL], prev[x := p], x, [[x]] + runs)
  {
    var next2, prev2, rs := next[x := NULL], prev[x := p], [[x]] + runs;
    PushIndex(runs, [x]);
    forall k | 0 <= k < |rs|
      ensures rs[k] != [] && Links(next2, rs[k]) && prev2[rs[k][0]] == Below(rs, k)
    {
      if k == 0 {
        if 1 < |rs| {
          assert rs[1] == runs[0];
        }
      } else {
        assert x !in runs[k - 1];
        LinksKept(next, next2, runs[k - 1], [x], []);
        assert runs[k - 1][0] != x;
        if k + 1 < |rs| {
          assert rs[k + 1] == runs[k];
        }
      }
    }
  }

  /** Moving the front of rest to the end of the part before it. */
  lemma MoveFront(a: seq<int>, rest: seq<int>, xs: seq<int>)
    requires a + rest == xs && rest != []
    ensures (a + [rest[0]]) + rest[1..] == xs
  {
    assert rest == [rest[0]] + rest[1..];
  }

  /** A pushed segment comes last in input order. */
  lemma JoinedPush(segs: seq<seq<int>>, x: int)
    ensures Joined([[x]] + segs) == Joined(segs) + [x]
  {
    JoinedConcat([[x]], segs);
    JoinedOne([x]);
  }

  /** Pushing the front of the rest as a one-slot run keeps the segments in input order. */
  lemma PushSegs(vs: seq<string>, xs: seq<int>, runs: seq<seq<int>>, segs: seq<seq<int>>, rest: seq<int>)
    requires Joined(segs) + rest == xs && |runs| == |segs| && rest != []
    requires forall j :: 0 <= j < |segs| ==> segs[j] != [] && runs[j] == Sort(vs, segs[j])
    ensures Joined([[rest[0]]] + segs) + rest[1..] == xs
    ensures |[[rest[0]]] + runs| == |[[rest[0]]] + segs|
    ensures forall j :: 0 <= j < |[[rest[0]]] + segs| ==>
      ([[rest[0]]] + segs)[j] != [] && ([[rest[0]]] + runs)[j] == Sort(vs, ([[rest[0]]] + segs)[j])
  {
    var x := rest[0];
    PushIndex(runs, [x]);
    PushIndex(segs, [x]);
    SortShort(vs, [x]);
    JoinedPush(segs, x);
    MoveFront(Joined(segs), rest, xs);
  }

  /** After a push: the links of the new stack, of the rest, and the frame. */
  lemma PushLinks(n0: seq<int>, p0: seq<int>, next: seq<int>, prev: seq<int>, vs: seq<string>, xs: seq<int>,
                  list: int, p: int, runs: seq<seq<int>>, segs: seq<seq<int>>, rest: seq<int>)
    requires Stack(n0, p0, next, prev, vs, xs, list, p, runs, segs, rest) && list != NULL
    ensures 0 <= list < |next| && rest != [] && rest[0] == list
    ensures Pending(next[list := NULL], prev[list := p], list, [[list]] + runs)
    ensures Chain(next[list := NULL], next[list], rest[1..])
    ensures SameOutside(n0, p0, next[list := NULL], prev[list := p], xs)
  {
    var x := list;
    RunsApart(vs, runs, segs, rest, xs);
    forall k | 0 <= k < |runs| ensures x !in runs[k] {
      assert Disjoint(runs[k], rest);
    }
    PushPending(next, prev, p, runs, x);
    ChainPop(next, rest);
    assert x in xs;
  }

  /** Cutting the front slot off a chain: list moves on and the old front's next becomes NULL. */
  lemma ChainPop(next: seq<int>, rest: seq<int>)
    requires rest != [] && Chain(next, rest[0], rest)
    ensures Chain(next[rest[0] := NULL], next[rest[0]], rest[1..])
  {
    var x, tl := rest[0], rest[1..];
    assert forall i :: 0 <= i < |tl| ==> tl[i] == rest[i + 1];
    assert x !in tl;
  }

  /** The push of queue.c:362-365 on the stack of runs: the front of list becomes a new one-slot run on top. */
  lemma PushStack(n0: seq<int>, p0: seq<int>, next: seq<int>, prev: seq<int>, vs: seq<string>, xs: seq<int>,
                  list: int, p: int, runs: seq<seq<int>>, segs: seq<seq<int>>, rest: seq<int>)
    requires Stack(n0, p0, next, prev, vs, xs, list, p, runs, segs, rest) && list != NULL
    ensures 0 <= list < |next| && rest != [] && rest[0] == list
    ensures Stack(n0, p0, next[list := NULL], prev[list := p], vs, xs, next[list], list,
                  [[list]] + runs, [[list]] + segs, rest[1..])
  {
    PushLinks(n0, p0, next, prev, vs, xs, list, p, runs, segs, rest);
    PushSegs(vs, xs, runs, segs, rest);
  }

  /** A number of at least two has at least two binary digits. */
  lemma BitLengthTwo(n: nat)
    requires n >= 2
    ensures BitLength(n) >= 2
  {
    assert n / 2 >= 1;
  }

  /**
   * The first half of a round of list_sort()'s main loop, count slots on the
   * stack so far: merge the two runs that the lowest zero bit of count
   * names, when a one bit lies above it.
   */
  method MaybeMerge(arena: Arena, list: int, pending: int, count: nat, ghost n0: seq<int>, ghost p0: seq<int>,
                    ghost xs: seq<int>, ghost runs: seq<seq<int>>, ghost segs: seq<seq<int>>, ghost rest: seq<int>)
    returns (pending': int, ghost runs': seq<seq<int>>, ghost segs': seq<seq<int>>)
    requires Stack(n0, p0, arena.next, arena.prev, arena.value, xs, list, pending, runs, segs, rest)
    requires |runs| == BitLength(count)
    modifies arena`next, arena`prev
    ensures Stack(n0, p0, arena.next, arena.prev, arena.value, xs, list, pending', runs', segs', rest)
    ensures |runs'| + 1 == BitLength(count + 1)
  {
    var tail, bits, j := FindTail(arena, pending, count, runs);
    pending', runs', segs' := pending, runs, segs;
    if bits != 0 {
      BitLengthEven(bits);
      pending' := MergeAt(arena, pending, tail, list, n0, p0, xs, runs, segs, rest, j);
      runs' := runs[..j] + [Merge(arena.value, runs[j + 1], runs[j])] + runs[j + 2..];
      segs' := segs[..j] + [segs[j + 1] + segs[j]] + segs[j + 2..];
      MergedIndex(runs, j, Merge(arena.value, runs[j + 1], runs[j]));
    }
    BitLengthSucc(count);
  }

  /** The second half of a round (queue.c:362-365). */
  method Push(arena: Arena, list: int, pending: int, ghost n0: seq<int>, ghost p0: seq<int>,
              ghost xs: seq<int>, ghost runs: seq<seq<int>>, ghost segs: seq<seq<int>>, ghost rest: seq<int>)
    returns (list': int, pending': int)
    requires Stack(n0, p0, arena.next, arena.prev, arena.value, xs, list, pending, runs, segs, rest)
    requires list != NULL
    modifies arena`next, arena`prev
    ensures rest != [] && pending' == rest[0]
    ensures Stack(n0, p0, arena.next, arena.prev, arena.value, xs, list', pending',
                  [[rest[0]]] + runs, [[rest[0]]] + segs, rest[1..])
  {
    PushStack(n0, p0, arena.next, arena.prev, arena.value, xs, list, pending, runs, segs, rest);
    arena.prev := arena.prev[list := pending];
    pending' := list;
    list' := arena.next[list];
    arena.next := arena.next[pending' := NULL];
  }

  /** One round of list_sort()'s main loop. */
  method Round(arena: Arena, list: int, pending: int, count: nat, ghost n0: seq<int>, ghost p0: seq<int>,
               ghost xs: seq<int>, ghost runs: seq<seq<int>>, ghost segs: seq<seq<int>>, ghost rest: seq<int>)
    returns (list': int, pending': int, ghost runs': seq<seq<int>>, ghost segs': seq<seq<int>>, ghost rest': seq<int>)
    requires Stack(n0, p0, arena.next, arena.prev, arena.value, xs, list, pending, runs, segs, rest)
    requires list != NULL && |runs| == BitLength(count)
    modifies arena`next, arena`prev
    ensures Stack(n0, p0, arena.next, arena.prev, arena.value, xs, list', pending', runs', segs', rest')
    ensures rest != [] && rest' == rest[1..] && |runs'| == BitLength(count + 1)
  {
    var p;
    p, runs', segs' := MaybeMerge(arena, list, pending, count, n0, p0, xs, runs, segs, rest);
    list', pending' := Push(arena, list, p, n0, p0, xs, runs', segs', rest);
    runs', segs', rest' := [[rest[0]]] + runs', [[rest[0]]] + segs', rest[1..];
  }

  /** Before the first round: no runs, and the chain from list holds all of xs. */
  lemma StackStart(n0: seq<int>, p0: seq<int>, vs: seq<string>, list: int, xs: seq<int>)
    requires Chain(n0, list, xs) && |p0| == |n0|
    ensures Stack(n0, p0, n0, p0, vs, xs, list, NULL, [], [], xs)
  {
    assert Joined([]) + xs == xs;
  }

  /**
   * list_sort()'s main loop over the chain from list holding xs: when it
   * ends every slot is on the stack, in BitLength(|xs|) runs.
   */
  method SortRuns(arena: Arena, list: int, ghost n0: seq<int>, ghost p0: seq<int>, ghost xs: seq<int>)
    returns (pending: int, ghost runs: seq<seq<int>>, ghost segs: seq<seq<int>>)
    requires Chain(arena.next, list, xs) && |arena.prev| == |arena.next|
    requires SameOutside(n0, p0, arena.next, arena.prev, xs)
    modifies arena`next, arena`prev
    ensures Stack(n0, p0, arena.next, arena.prev, arena.value, xs, NULL, pending, runs, segs, [])
    ensures |runs| == BitLength(|xs|)
  {
    StackStart(arena.next, arena.prev, arena.value, list, xs);
    StackFrom(n0, p0, arena.next, arena.prev, arena.value, list, xs);
    var list, count := list, 0;
    pending := NULL;
    runs, segs := [], [];
    ghost var rest := xs;
    while list != NULL
      invariant Stack(n0, p0, arena.next, arena.prev, arena.value, xs, list, pending, runs, segs, rest)
      invariant |runs| == BitLength(count) && count + |rest| == |xs|
      decreases |rest|
    {
      list, pending, runs, segs, rest := Round(arena, list, pending, count, n0, p0, xs, runs, segs, rest);
      count := count + 1;
    }
    ChainEnd(arena.next, list, rest);
  }

  /** The stack at the start, with the frame taken from (n0, p0). */
  lemma StackFrom(n0: seq<int>, p0: seq<int>, next: seq<int>, prev: seq<int>, vs: seq<string>, list: int, xs: seq<int>)
    requires Stack(next, prev, next, prev, vs, xs, list, NULL, [], [], xs)
    requires SameOutside(n0, p0, next, prev, xs)
    ensures Stack(n0, p0, next, prev, vs, xs, list, NULL, [], [], xs)
  {
  }

  /**
   * list_sort()'s final merges part way: pending is the newest of the runs
   * ors still on the stack, sorted from the segments osegs; list is the
   * chain L, the sort of the segment ns that comes after them in xs.
   */
  ghost predicate Folding(n0: seq<int>, p0: seq<int>, next: seq<int>, prev: seq<int>, vs: seq<string>, xs: seq<int>,
                          list: int, pending: int, ors: seq<seq<int>>, osegs: seq<seq<int>>, L: seq<int>, ns: seq<int>)
  {
    && Chain(next, list, L) && L != [] && L == Sort(vs, ns)
    && Joined(osegs) + ns == xs
    && |ors| == |osegs| && ors != []
    && (forall j :: 0 <= j < |osegs| ==> osegs[j] != [] && ors[j] == Sort(vs, osegs[j]))
    && Pending(next, prev, pending, ors)
    && Distinct(xs)
    && SameOutside(n0, p0, next, prev, xs)
  }

  /** The runs on the stack, the chain L and the slots xs, as RunsApart sees them. */
  lemma FoldingApart(n0: seq<int>, p0: seq<int>, next: seq<int>, prev: seq<int>, vs: seq<string>, xs: seq<int>,
                     list: int, pending: int, ors: seq<seq<int>>, osegs: seq<seq<int>>, L: seq<int>, ns: seq<int>)
    requires Folding(n0, p0, next, prev, vs, xs, list, pending, ors, osegs, L, ns)
    ensures forall i :: 0 <= i < |ors| ==> Disjoint(ors[i], L) && Within(ors[i], xs)
    ensures forall i, k :: 0 <= i < |ors| && 0 <= k < |ors| && i != k ==> Disjoint(ors[i], ors[k])
    ensures Within(L, xs)
  {
    assert multiset(Joined(osegs)) + multiset(L) == multiset(xs);
    RunsApart(vs, ors, osegs, L, xs);
  }

  /** After the main loop (queue.c:369-370) the newest run becomes L and pending the run below it. */
  lemma FoldStart(n0: seq<int>, p0: seq<int>, next: seq<int>, prev: seq<int>, vs: seq<string>, xs: seq<int>,
                  pending: int, runs: seq<seq<int>>, segs: seq<seq<int>>)
    requires Stack(n0, p0, next, prev, vs, xs, NULL, pending, runs, segs, []) && |runs| >= 2
    ensures 0 <= pending < |prev|
    ensures Folding(n0, p0, next, prev, vs, xs, pending, prev[pending], runs[1..], segs[1..], runs[0], segs[0])
  {
    var ors := runs[1..];
    assert Joined(segs) + [] == Joined(segs);
    assert Links(next, runs[0]);
    forall k | 0 <= k < |ors|
      ensures ors[k] != [] && Links(next, ors[k]) && prev[ors[k][0]] == Below(ors, k)
    {
      assert ors[k] == runs[k + 1];
      if k + 1 < |ors| {
        assert ors[k + 1] == runs[k + 2];
      }
    }
    assert forall j :: 0 <= j < |segs[1..]| ==> segs[1..][j] == segs[j + 1];
  }

  /** merge(cmp, pending, list): the newest run on the stack merged into L, the run in front. */
  lemma FoldSegs(vs: seq<string>, xs: seq<int>, ors: seq<seq<int>>, osegs: seq<seq<int>>, L: seq<int>, ns: seq<int>)
    requires L == Sort(vs, ns) && Joined(osegs) + ns == xs && |ors| == |osegs| && |ors| >= 2
    requires forall j :: 0 <= j < |osegs| ==> osegs[j] != [] && ors[j] == Sort(vs, osegs[j])
    ensures Merge(vs, ors[0], L) == Sort(vs, osegs[0] + ns)
    ensures Joined(osegs[1..]) + (osegs[0] + ns) == xs && |ors[1..]| == |osegs[1..]|
    ensures forall j :: 0 <= j < |osegs[1..]| ==> osegs[1..][j] != [] && ors[1..][j] == Sort(vs, osegs[1..][j])
  {
    MergeSort(vs, osegs[0], ns);
    JoinedFold(osegs, ns, xs);
    assert forall j :: 0 <= j < |osegs[1..]| ==> osegs[1..][j] == osegs[j + 1] && ors[1..][j] == ors[j + 1];
  }

  /** The newest segment on the stack joins the front segment ns. */
  lemma JoinedFold(osegs: seq<seq<int>>, ns: seq<int>, xs: seq<int>)
    requires Joined(osegs) + ns == xs && osegs != []
    ensures Joined(osegs[1..]) + (osegs[0] + ns) == xs
  {
    var j := Joined(osegs[1..]);
    assert Joined(osegs) == j + osegs[0];
    assert (j + osegs[0]) + ns == j + (osegs[0] + ns);
  }

  /** After that merge: the rest of the stack keeps its links, the merged chain is L, and the frame holds. */
  lemma FoldLinks(n0: seq<int>, p0: seq<int>, next: seq<int>, next2: seq<int>, prev: seq<int>, vs: seq<string>,
                  xs: seq<int>, list: int, pending: int, ors: seq<seq<int>>, osegs: seq<seq<int>>, L: seq<int>, ns: seq<int>)
    requires Folding(n0, p0, next, prev, vs, xs, list, pending, ors, osegs, L, ns) && |ors| >= 2
    requires |next2| == |next|
    requires forall x :: 0 <= x < |next| && x !in ors[0] && x !in L ==> next2[x] == next[x]
    ensures Pending(next2, prev, prev[pending], ors[1..])
    ensures SameOutside(n0, p0, next2, prev, xs)
  {
    FoldingApart(n0, p0, next, prev, vs, xs, list, pending, ors, osegs, L, ns);
    var rs := ors[1..];
    forall k | 0 <= k < |rs|
      ensures rs[k] != [] && Links(next2, rs[k]) && prev[rs[k][0]] == Below(rs, k)
    {
      assert rs[k] == ors[k + 1];
      LinksKept(next, next2, ors[k + 1], ors[0], L);
      if k + 1 < |rs| {
        assert rs[k + 1] == ors[k + 2];
      }
    }
    assert Links(next, ors[0]);
    forall x | 0 <= x < |n0| && x < |p0| && x != Head && x !in xs
      ensures next2[x] == n0[x] && prev[x] == p0[x]
    {
      assert x !in ors[0] && x !in L;
    }
  }

  /** One round of the final merges, with the state as a whole. */
  lemma FoldStep(n0: seq<int>, p0: seq<int>, next: seq<int>, next2: seq<int>, prev: seq<int>, vs: seq<string>,
                 xs: seq<int>, list: int, list2: int, pending: int,
                 ors: seq<seq<int>>, osegs: seq<seq<int>>, L: seq<int>, ns: seq<int>)
    requires Folding(n0, p0, next, prev, vs, xs, list, pending, ors, osegs, L, ns) && |ors| >= 2
    requires |next2| == |next| && Chain(next2, list2, Merge(vs, ors[0], L))
    requires forall x :: 0 <= x < |next| && x !in ors[0] && x !in L ==> next2[x] == next[x]
    ensures Folding(n0, p0, next2, prev, vs, xs, list2, prev[pending], ors[1..], osegs[1..],
                    Merge(vs, ors[0], L), osegs[0] + ns)
  {
    FoldLinks(n0, p0, next, next2, prev, vs, xs, list, pending, ors, osegs, L, ns);
    FoldSegs(vs, xs, ors, osegs, L, ns);
    assert |Merge(vs, ors[0], L)| == |ors[0]| + |L|;
  }

  /** The front of the stack and the chain L, ready for merge(). */
  lemma FoldPair(n0: seq<int>, p0: seq<int>, next: seq<int>, prev: seq<int>, vs: seq<string>, xs: seq<int>,
                 list: int, pending: int, ors: seq<seq<int>>, osegs: seq<seq<int>>, L: seq<int>, ns: seq<int>)
    requires Folding(n0, p0, next, prev, vs, xs, list, pending, ors, osegs, L, ns)
    ensures 0 <= pending < |prev| && Chain(next, pending, ors[0]) && ors[0] != [] && Disjoint(ors[0], L)
    ensures prev[pending] == NULL <==> |ors| == 1
  {
    FoldingApart(n0, p0, next, prev, vs, xs, list, pending, ors, osegs, L, ns);
    assert Links(next, ors[0]);
    if |ors| > 1 {
      assert Links(next, ors[1]);
    }
  }

  /**
   * The loop of list_sort()'s final merges: every run on the stack but the
   * oldest is merged, newest first, into L, the run in front.
   */
  method FoldRuns(arena: Arena, list: int, pending: int, ghost n0: seq<int>, ghost p0: seq<int>, ghost xs: seq<int>,
                  ghost ors: seq<seq<int>>, ghost osegs: seq<seq<int>>, ghost L: seq<int>, ghost ns: seq<int>)
    returns (list': int, pending': int, ghost ors': seq<seq<int>>, ghost osegs': seq<seq<int>>,
             ghost L': seq<int>, ghost ns': seq<int>)
    requires Folding(n0, p0, arena.next, arena.prev, arena.value, xs, list, pending, ors, osegs, L, ns)
    modifies arena`next
    ensures Folding(n0, p0, arena.next, arena.prev, arena.value, xs, list', pending', ors', osegs', L', ns')
    ensures |ors'| == 1
  {
    list', pending' := list, pending;
    ors', osegs', L', ns' := ors, osegs, L, ns;
    FoldPair(n0, p0, arena.next, arena.prev, arena.value, xs, list', pending', ors', osegs', L', ns');
    var older := arena.prev[pending'];
    while older != NULL
      invariant Folding(n0, p0, arena.next, arena.prev, arena.value, xs, list', pending', ors', osegs', L', ns')
      invariant 0 <= pending' < |arena.prev| && older == arena.prev[pending'] && (older == NULL <==> |ors'| == 1)
      decreases |ors'|
    {
      ghost var next := arena.next;
      FoldPair(n0, p0, arena.next, arena.prev, arena.value, xs, list', pending', ors', osegs', L', ns');
      var r := MergeLists(arena, pending', list', ors'[0], L');
      FoldStep(n0, p0, next, arena.next, arena.prev, arena.value, xs, list', r, pending', ors', osegs', L', ns');
      list', pending' := r, older;
      ors', osegs', L', ns' := ors'[1..], osegs'[1..], Merge(arena.value, ors'[0], L'), osegs'[0] + ns';
      FoldPair(n0, p0, arena.next, arena.prev, arena.value, xs, list', pending', ors', osegs', L', ns');
      older := arena.prev[pending'];
    }
  }

  /** The early-return test of queue.c:343 holds exactly when the ring holds at most one element. */
  lemma ShortRing(next: seq<int>, prev: seq<int>, xs: seq<int>)
    requires IsRing(next, prev, Head, xs)
    ensures next[Head] == prev[Head] <==> |xs| <= 1
  {
    if |xs| >= 2 {
      assert xs[0] != xs[|xs| - 1];
    }
  }

  /** Opening the ring of xs into a NULL-terminated chain by clearing the last slot's next (queue.c:346). */
  lemma OpenRing(next: seq<int>, prev: seq<int>, xs: seq<int>)
    requires IsRing(next, prev, Head, xs) && |xs| >= 2
    ensures 0 <= prev[Head] < |next|
    ensures Chain(next[prev[Head] := NULL], next[Head], xs)
    ensures SameOutside(next, prev, next[prev[Head] := NULL], prev, xs)
  {
    var next' := next[prev[Head] := NULL];
    forall i | 0 <= i < |xs| ensures next'[xs[i]] == After(xs, i) {
      if i < |xs| - 1 {
        assert xs[i] != xs[|xs| - 1];
      }
    }
  }

  /** With one run left on the stack, merging it with L sorts the whole of xs. */
  lemma FoldDone(vs: seq<string>, xs: seq<int>, ors: seq<seq<int>>, osegs: seq<seq<int>>, L: seq<int>, ns: seq<int>)
    requires L == Sort(vs, ns) && Joined(osegs) + ns == xs && |ors| == |osegs| == 1
    requires forall j :: 0 <= j < |osegs| ==> osegs[j] != [] && ors[j] == Sort(vs, osegs[j])
    ensures Merge(vs, ors[0], L) == Sort(vs, xs)
  {
    assert osegs == [osegs[0]];
    JoinedOne(osegs[0]);
    MergeSort(vs, osegs[0], ns);
  }

  /** Rewrites within xs, then within slots of xs and the sentinel, rewrite at most those. */
  lemma FrameClose(n0: seq<int>, p0: seq<int>, n1: seq<int>, p1: seq<int>, n2: seq<int>, p2: seq<int>,
                   xs: seq<int>, a: seq<int>, b: seq<int>)
    requires SameOutside(n0, p0, n1, p1, xs) && Within(a, xs) && Within(b, xs)
    requires AgreeOutside(n1, p1, n2, p2, {Head} + Elems(a) + Elems(b))
    ensures AgreeOutside(n0, p0, n2, p2, {Head} + Elems(xs))
  {
    forall x | 0 <= x < |n0| && x < |p0| && x !in {Head} + Elems(xs)
      ensures n2[x] == n0[x] && p2[x] == p0[x]
    {
      assert x !in a && x !in b;
    }
  }

  /**
   * The end of list_sort(): the final merges, then merge_final() of the
   * oldest run with L, which sorts the whole of xs back into the ring.
   */
  method FinalMerges(arena: Arena, list: int, pending: int, ghost n0: seq<int>, ghost p0: seq<int>, ghost xs: seq<int>,
                     ghost ors: seq<seq<int>>, ghost osegs: seq<seq<int>>, ghost L: seq<int>, ghost ns: seq<int>)
    requires Folding(n0, p0, arena.next, arena.prev, arena.value, xs, list, pending, ors, osegs, L, ns)
    modifies arena`next, arena`prev
    ensures IsRing(arena.next, arena.prev, Head, Sort(arena.value, xs))
    ensures AgreeOutside(n0, p0, arena.next, arena.prev, {Head} + Elems(xs))
  {
    var list, pending, ors, osegs, L, ns := FoldRuns(arena, list, pending, n0, p0, xs, ors, osegs, L, ns);
    FoldPair(n0, p0, arena.next, arena.prev, arena.value, xs, list, pending, ors, osegs, L, ns);
    FoldingApart(n0, p0, arena.next, arena.prev, arena.value, xs, list, pending, ors, osegs, L, ns);
    FoldDone(arena.value, xs, ors, osegs, L, ns);
    ghost var n1, p1 := arena.next, arena.prev;
    MergeFinal(arena, pending, list, ors[0], L);
    FrameClose(n0, p0, n1, p1, arena.next, arena.prev, xs, ors[0], L);
  }

  /** list_sort() from the opened chain of xs, at least two slots, on. */
  method SortChain(arena: Arena, list: int, ghost n0: seq<int>, ghost p0: seq<int>, ghost xs: seq<int>)
    requires Chain(arena.next, list, xs) && |arena.prev| == |arena.next| && |xs| >= 2
    requires SameOutside(n0, p0, arena.next, arena.prev, xs)
    modifies arena`next, arena`prev
    ensures IsRing(arena.next, arena.prev, Head, Sort(arena.value, xs))
    ensures AgreeOutside(n0, p0, arena.next, arena.prev, {Head} + Elems(xs))
  {
    var pending, runs, segs := SortRuns(arena, list, n0, p0, xs);
    BitLengthTwo(|xs|);
    FoldStart(n0, p0, arena.next, arena.prev, arena.value, xs, pending, runs, segs);
    var older := arena.prev[pending];
    FinalMerges(arena, pending, older, n0, p0, xs, runs[1..], segs[1..], runs[0], segs[0]);
  }

  /**
   * list_sort(head, cmpfunc): the ring headed by the sentinel, holding the
   * slots xs, relinked to hold Sort(xs), the stable sort of xs by the
   * elements' strings; only the links of the sentinel and of xs change.
   */
  method ListSort(arena: Arena, ghost xs: seq<int>)
    requires IsRing(arena.next, arena.prev, Head, xs)
    modifies arena`next, arena`prev
    ensures IsRing(arena.next, arena.prev, Head, Sort(arena.value, xs))
    ensures AgreeOutside(old(arena.next), old(arena.prev), arena.next, arena.prev, {Head} + Elems(xs))
  {
    var list := arena.next[Head];
    ShortRing(arena.next, arena.prev, xs);
    if list == arena.prev[Head] {
      SortShort(arena.value, xs);
      return;
    }
    ghost var n0, p0 := arena.next, arena.prev;
    OpenRing(n0, p0, xs);
    arena.next := arena.next[arena.prev[Head] := NULL];
    SortChain(arena, list, n0, p0, xs);
  }
}
