/**
 * What list_sort computes, on the slots of a list and the strings vs the
 * slots carry: merge of two runs, and the stable sort it builds up, given as
 * a reference insertion sort.
 */
module SortSpec {
  import opened CStrings
  import opened QueueSpec
  import opened ListHead

  /** cmpfunc(a, b): strcmp of the strings of the elements whose links are a and b. */
  function CmpFunc(vs: seq<string>, a: int, b: int): (r: int)
    ensures -1 <= r <= 1
    ensures r == 0 <==> Key(vs, a) == Key(vs, b)
  {
    CompareZero(Key(vs, a), Key(vs, b));
    Compare(Key(vs, a), Key(vs, b))
  }

  /** The strings of xs never go down. */
  ghost predicate SortedBy(vs: seq<string>, xs: seq<int>)
  {
    forall i, j :: 0 <= i < j < |xs| ==> Le(Key(vs, xs[i]), Key(vs, xs[j]))
  }

  /**
   * merge(): the two runs a and b interleaved, taking the front of a
   * whenever cmp says it is not above the front of b, and the rest of the
   * other run once one of them is used up.
   */
  function Merge(vs: seq<string>, a: seq<int>, b: seq<int>): (r: seq<int>)
    ensures multiset(r) == multiset(a) + multiset(b)
    ensures |r| == |a| + |b|
    decreases |a| + |b|
  {
    if a == [] then b
    else if b == [] then a
    else if CmpFunc(vs, a[0], b[0]) <= 0 then
      assert a == [a[0]] + a[1..];
      [a[0]] + Merge(vs, a[1..], b)
    else
      assert b == [b[0]] + b[1..];
      [b[0]] + Merge(vs, a, b[1..])
  }

  /** t with e put in front of its first slot whose string is not below e's. */
  function Ins(vs: seq<string>, e: int, t: seq<int>): (r: seq<int>)
    ensures multiset(r) == multiset(t) + multiset{e}
  {
    if t == [] then [e]
    else if Le(Key(vs, e), Key(vs, t[0])) then [e] + t
    else
      assert t == [t[0]] + t[1..];
      [t[0]] + Ins(vs, e, t[1..])
  }

  /** The reference stable sort: insertion sort, later slots inserted first. */
  function Sort(vs: seq<string>, s: seq<int>): (r: seq<int>)
    ensures multiset(r) == multiset(s)
  {
    if s == [] then []
    else
      assert s == [s[0]] + s[1..];
      Ins(vs, s[0], Sort(vs, s[1..]))
  }

  /** The slots of s whose string is v, in the order of s. */
  function KeyFilter(vs: seq<string>, s: seq<int>, v: string): (r: seq<int>)
    ensures |r| <= |s|
    ensures forall i :: 0 <= i < |r| ==> Key(vs, r[i]) == v
  {
    if s == [] then []
    else (if Key(vs, s[0]) == v then [s[0]] else []) + KeyFilter(vs, s[1..], v)
  }

  lemma {:induction false} KeyFilterConcat(vs: seq<string>, a: seq<int>, b: seq<int>, v: string)
    ensures KeyFilter(vs, a + b, v) == KeyFilter(vs, a, v) + KeyFilter(vs, b, v)
  {
    if a == [] {
      assert a + b == b;
    } else {
      assert (a + b)[0] == a[0] && (a + b)[1..] == a[1..] + b;
      KeyFilterConcat(vs, a[1..], b, v);
    }
  }

  /** A slot not above any slot of a sorted m can go in front of it. */
  lemma ConsSorted(vs: seq<string>, x: int, m: seq<int>)
    requires SortedBy(vs, m)
    requires forall y :: y in m ==> Le(Key(vs, x), Key(vs, y))
    ensures SortedBy(vs, [x] + m)
  {
    var r := [x] + m;
    forall i, j | 0 <= i < j < |r|
      ensures Le(Key(vs, r[i]), Key(vs, r[j]))
    {
      if i == 0 {
        assert r[j] == m[j - 1];
      } else {
        assert r[i] == m[i - 1] && r[j] == m[j - 1];
      }
    }
  }

  /** Inserting into a sorted sequence keeps it sorted. */
  lemma {:induction false} InsSorted(vs: seq<string>, e: int, t: seq<int>)
    requires SortedBy(vs, t)
    ensures SortedBy(vs, Ins(vs, e, t))
  {
    if t == [] {
    } else if Le(Key(vs, e), Key(vs, t[0])) {
      forall y | y in t
        ensures Le(Key(vs, e), Key(vs, y))
      {
        var k :| 0 <= k < |t| && t[k] == y;
        if k > 0 {
          LeTotalOrder(Key(vs, e), Key(vs, t[0]), Key(vs, y));
        }
      }
      ConsSorted(vs, e, t);
    } else {
      var t' := t[1..];
      InsSorted(vs, e, t');
      assert SortedBy(vs, t');
      LeTotalOrder(Key(vs, e), Key(vs, t[0]), Key(vs, e));
      forall y | y in Ins(vs, e, t')
        ensures Le(Key(vs, t[0]), Key(vs, y))
      {
        assert y in multiset(Ins(vs, e, t'));
        if y != e {
          var k :| 0 <= k < |t'| && t'[k] == y;
          assert t[k + 1] == y;
        }
      }
      ConsSorted(vs, t[0], Ins(vs, e, t'));
    }
  }

  /** The reference sort sorts. */
  lemma {:induction false} SortSorted(vs: seq<string>, s: seq<int>)
    ensures SortedBy(vs, Sort(vs, s))
  {
    if s != [] {
      SortSorted(vs, s[1..]);
      InsSorted(vs, s[0], Sort(vs, s[1..]));
    }
  }

  /** Insertion puts e in front of every slot with e's string: the filter for that string gains e in front. */
  lemma {:induction false} InsFilter(vs: seq<string>, e: int, t: seq<int>, v: string)
    ensures KeyFilter(vs, Ins(vs, e, t), v) == (if Key(vs, e) == v then [e] else []) + KeyFilter(vs, t, v)
  {
    var fe := if Key(vs, e) == v then [e] else [];
    if t != [] && !Le(Key(vs, e), Key(vs, t[0])) {
      var f0 := if Key(vs, t[0]) == v then [t[0]] else [];
      var i := Ins(vs, e, t[1..]);
      InsFilter(vs, e, t[1..], v);
      CompareZero(Key(vs, e), Key(vs, t[0]));
      assert f0 == [] || fe == [];
      ConsTail(t[0], i);
      calc {
        KeyFilter(vs, Ins(vs, e, t), v);
        KeyFilter(vs, [t[0]] + i, v);
        f0 + KeyFilter(vs, i, v);
        f0 + (fe + KeyFilter(vs, t[1..], v));
        fe + (f0 + KeyFilter(vs, t[1..], v));
        fe + KeyFilter(vs, t, v);
      }
    } else {
      assert Ins(vs, e, t) == [e] + t;
      ConsTail(e, t);
    }
  }

  /** The reference sort is stable: slots with equal strings keep their order. */
  lemma {:induction false} SortStable(vs: seq<string>, s: seq<int>, v: string)
    ensures KeyFilter(vs, Sort(vs, s), v) == KeyFilter(vs, s, v)
  {
    if s != [] {
      SortStable(vs, s[1..], v);
      InsFilter(vs, s[0], Sort(vs, s[1..]), v);
    }
  }

  /** Merging with an inserted slot is inserting into the merge. */
  lemma {:induction false} MergeIns(vs: seq<string>, e: int, t: seq<int>, u: seq<int>)
    ensures Merge(vs, Ins(vs, e, t), u) == Ins(vs, e, Merge(vs, t, u))
    decreases |t| + |u|
  {
    if u == [] {
      assert Merge(vs, t, u) == t;
    } else if t == [] || Le(Key(vs, e), Key(vs, t[0])) {
      if Le(Key(vs, e), Key(vs, u[0])) {
        MergeInsFront(vs, e, t, u);
      } else {
        if t != [] {
          LeTotalOrder(Key(vs, e), Key(vs, t[0]), Key(vs, u[0]));
        }
        MergeIns(vs, e, t, u[1..]);
        MergeInsRight(vs, e, t, u);
      }
    } else if Le(Key(vs, t[0]), Key(vs, u[0])) {
      MergeIns(vs, e, t[1..], u);
      MergeInsLeft(vs, e, t, u);
    } else {
      LeTotalOrder(Key(vs, u[0]), Key(vs, t[0]), Key(vs, e));
      LeTotalOrder(Key(vs, e), Key(vs, u[0]), Key(vs, t[0]));
      MergeIns(vs, e, t, u[1..]);
      MergeInsRight(vs, e, t, u);
    }
  }

  /** e goes first both in the merge and in the insertion. */
  lemma MergeInsFront(vs: seq<string>, e: int, t: seq<int>, u: seq<int>)
    requires u != [] && Le(Key(vs, e), Key(vs, u[0]))
    requires t == [] || Le(Key(vs, e), Key(vs, t[0]))
    ensures Merge(vs, Ins(vs, e, t), u) == Ins(vs, e, Merge(vs, t, u))
  {
    assert Ins(vs, e, t) == [e] + t;
    ConsTail(e, t);
    var m := Merge(vs, t, u);
    assert |m| == |t| + |u|;
    assert m[0] == u[0] || (t != [] && m[0] == t[0]);
    assert Merge(vs, [e] + t, u) == [e] + m;
    assert Ins(vs, e, m) == [e] + m;
  }

  /** The front of u goes first both in the merge and in the insertion. */
  lemma MergeInsRight(vs: seq<string>, e: int, t: seq<int>, u: seq<int>)
    requires u != [] && !Le(Key(vs, e), Key(vs, u[0]))
    requires t != [] ==> !Le(Key(vs, t[0]), Key(vs, u[0]))
    requires Merge(vs, Ins(vs, e, t), u[1..]) == Ins(vs, e, Merge(vs, t, u[1..]))
    ensures Merge(vs, Ins(vs, e, t), u) == Ins(vs, e, Merge(vs, t, u))
  {
    var i := Ins(vs, e, t);
    var m := Merge(vs, t, u[1..]);
    assert i[0] == e || (t != [] && i[0] == t[0]);
    assert Merge(vs, i, u) == [u[0]] + Merge(vs, i, u[1..]);
    assert Merge(vs, t, u) == [u[0]] + m;
    ConsTail(u[0], m);
    assert Ins(vs, e, [u[0]] + m) == [u[0]] + Ins(vs, e, m);
  }

  /** The front of t goes first both in the merge and in the insertion. */
  lemma MergeInsLeft(vs: seq<string>, e: int, t: seq<int>, u: seq<int>)
    requires t != [] && u != [] && !Le(Key(vs, e), Key(vs, t[0]))
    requires Le(Key(vs, t[0]), Key(vs, u[0]))
    requires Merge(vs, Ins(vs, e, t[1..]), u) == Ins(vs, e, Merge(vs, t[1..], u))
    ensures Merge(vs, Ins(vs, e, t), u) == Ins(vs, e, Merge(vs, t, u))
  {
    var i := Ins(vs, e, t[1..]);
    var m := Merge(vs, t[1..], u);
    assert Ins(vs, e, t) == [t[0]] + i;
    ConsTail(t[0], i);
    assert Merge(vs, [t[0]] + i, u) == [t[0]] + Merge(vs, i, u);
    assert Merge(vs, t, u) == [t[0]] + m;
    ConsTail(t[0], m);
    assert Ins(vs, e, [t[0]] + m) == [t[0]] + Ins(vs, e, m);
  }

  lemma ConsTail(x: int, m: seq<int>)
    ensures ([x] + m)[0] == x && ([x] + m)[1..] == m
  {
  }

  lemma TailConcat(x: seq<int>, y: seq<int>)
    requires x != []
    ensures (x + y)[0] == x[0] && (x + y)[1..] == x[1..] + y
  {
    assert |(x + y)[1..]| == |x[1..] + y|;
    forall i | 0 <= i < |x[1..] + y|
      ensures (x + y)[1..][i] == (x[1..] + y)[i]
    {
    }
  }

  /** Merging the sorts of two adjacent runs sorts their concatenation. */
  lemma {:induction false} MergeSort(vs: seq<string>, x: seq<int>, y: seq<int>)
    ensures Merge(vs, Sort(vs, x), Sort(vs, y)) == Sort(vs, x + y)
  {
    if x != [] {
      var t, u := Sort(vs, x[1..]), Sort(vs, y);
      MergeSort(vs, x[1..], y);
      MergeIns(vs, x[0], t, u);
      TailConcat(x, y);
      calc {
        Merge(vs, Sort(vs, x), u);
        Merge(vs, Ins(vs, x[0], t), u);
        Ins(vs, x[0], Merge(vs, t, u));
        Ins(vs, x[0], Sort(vs, x[1..] + y));
        Sort(vs, x + y);
      }
    } else {
      assert x + y == y;
    }
  }

  /** A run of at most one slot is its own sort. */
  lemma SortShort(vs: seq<string>, s: seq<int>)
    requires |s| <= 1
    ensures Sort(vs, s) == s
  {
  }
}
