/**
 * The queue operations of queue.c as functions on the sequence of elements,
 * read from the sentinel's next pointer round to its prev pointer, and what
 * they guarantee.
 */
module QueueSpec {
  import opened CStrings

  /** s backwards. */
  function Reverse<T>(s: seq<T>): (r: seq<T>)
    ensures |r| == |s|
    ensures forall i :: 0 <= i < |s| ==> r[i] == s[|s| - 1 - i]
  {
    if s == [] then [] else Reverse(s[1..]) + [s[0]]
  }

  /** Reversing twice gives back the original sequence. */
  lemma ReverseInvolutive<T>(s: seq<T>)
    ensures Reverse(Reverse(s)) == s
  {
  }

  /** Reversal only reorders. */
  lemma {:induction false} ReversePermutes<T>(s: seq<T>)
    ensures multiset(Reverse(s)) == multiset(s)
  {
    if s != [] {
      ReversePermutes(s[1..]);
      assert s == [s[0]] + s[1..];
    }
  }

  /** s with every full pair (s[2i], s[2i+1]) exchanged; an odd last element stays. */
  function Swap<T>(s: seq<T>): (r: seq<T>)
    ensures |r| == |s|
  {
    if |s| < 2 then s else [s[1], s[0]] + Swap(s[2..])
  }

  /** Swap exchanges the two elements of each full pair and keeps an odd last element in place. */
  lemma {:induction false} SwapAt<T>(s: seq<T>, i: nat)
    requires i < |s|
    ensures i % 2 == 0 && i + 1 < |s| ==> Swap(s)[i] == s[i + 1] && Swap(s)[i + 1] == s[i]
    ensures i == |s| - 1 && i % 2 == 0 ==> Swap(s)[i] == s[i]
  {
    if i >= 2 {
      SwapAt(s[2..], i - 2);
    }
  }

  /** Swapping pairs twice gives back the original sequence. */
  lemma {:induction false} SwapInvolutive<T>(s: seq<T>)
    ensures Swap(Swap(s)) == s
  {
    if |s| >= 2 {
      SwapInvolutive(s[2..]);
      assert Swap(s)[2..] == Swap(s[2..]);
      assert s == [s[0], s[1]] + s[2..];
    }
  }

  /** Swapping pairs only reorders. */
  lemma SwapPermutes<T>(s: seq<T>)
    ensures multiset(Swap(s)) == multiset(s)
  {
    ReverseKTwoIsSwap(s);
    ReverseKPermutes(s, 2);
  }

  /** Swap works pair by pair, so it splits at any even position. */
  lemma {:induction false} SwapSplit<T>(s: seq<T>, m: nat)
    requires 2 * m <= |s|
    ensures Swap(s) == Swap(s[..2 * m]) + Swap(s[2 * m..])
  {
    if m > 0 {
      SwapSplit(s[2..], m - 1);
      assert s[2..][..2 * (m - 1)] == s[..2 * m][2..];
      assert s[2..][2 * (m - 1)..] == s[2 * m..];
    }
  }

  /**
   * s processed in consecutive groups of k: each of the first |s| / k groups
   * is reversed, and the last |s| % k elements keep their order.
   */
  function ReverseK<T>(s: seq<T>, k: nat): (r: seq<T>)
    requires k >= 1
    ensures |r| == |s|
    decreases |s|
  {
    if |s| < k then s else Reverse(s[..k]) + ReverseK(s[k..], k)
  }

  /** Groups of one leave the sequence alone. */
  lemma {:induction false} ReverseKOne<T>(s: seq<T>)
    ensures ReverseK(s, 1) == s
  {
    if s != [] {
      ReverseKOne(s[1..]);
      assert s == s[..1] + s[1..];
    }
  }

  /** Reversing groups of two is swapping pairs. */
  lemma {:induction false} ReverseKTwoIsSwap<T>(s: seq<T>)
    ensures ReverseK(s, 2) == Swap(s)
  {
    if |s| >= 2 {
      ReverseKTwoIsSwap(s[2..]);
      assert Reverse(s[..2]) == [s[1], s[0]];
    }
  }

  /** k-group reversal is its own inverse. */
  lemma {:induction false} ReverseKInvolutive<T>(s: seq<T>, k: nat)
    requires k >= 1
    ensures ReverseK(ReverseK(s, k), k) == s
    decreases |s|
  {
    if |s| >= k {
      var r := ReverseK(s, k);
      ReverseKInvolutive(s[k..], k);
      assert r[..k] == Reverse(s[..k]) && r[k..] == ReverseK(s[k..], k);
      ReverseInvolutive(s[..k]);
      assert ReverseK(r, k) == Reverse(r[..k]) + ReverseK(r[k..], k);
      assert s == s[..k] + s[k..];
    }
  }

  /** k-group reversal only reorders. */
  lemma {:induction false} ReverseKPermutes<T>(s: seq<T>, k: nat)
    requires k >= 1
    ensures multiset(ReverseK(s, k)) == multiset(s)
    decreases |s|
  {
    if |s| >= k {
      ReverseKPermutes(s[k..], k);
      ReversePermutes(s[..k]);
      assert s == s[..k] + s[k..];
    }
  }

  /** t groups of k are one group of k and t - 1 more. */
  lemma MulStep(t: nat, k: nat)
    requires t > 0
    ensures t * k == k + (t - 1) * k
  {
  }

  /** The groups before index t * k are handled independently of the rest. */
  lemma {:induction false} ReverseKSplit<T>(s: seq<T>, k: nat, t: nat)
    requires k >= 1 && t * k <= |s|
    ensures ReverseK(s, k) == ReverseK(s[..t * k], k) + ReverseK(s[t * k..], k)
  {
    if t > 0 {
      var m, m' := t * k, (t - 1) * k;
      MulStep(t, k);
      var s', p := s[k..], s[..m];
      ReverseKSplit(s', k, t - 1);
      assert s'[..m'] == p[k..] && s'[m'..] == s[m..] && p[..k] == s[..k];
      calc {
        ReverseK(s, k);
        Reverse(s[..k]) + ReverseK(s', k);
        Reverse(s[..k]) + (ReverseK(p[k..], k) + ReverseK(s[m..], k));
        (Reverse(p[..k]) + ReverseK(p[k..], k)) + ReverseK(s[m..], k);
        ReverseK(p, k) + ReverseK(s[m..], k);
      }
    }
  }

  /** One more full group after the first b = t * k elements: it comes reversed after the groups before it. */
  lemma ReverseKNextGroup<T>(s: seq<T>, k: nat, t: nat, b: nat)
    requires k >= 1 && b == t * k && b + k <= |s|
    ensures ReverseK(s[..b + k], k) == ReverseK(s[..b], k) + Reverse(s[b..b + k])
  {
    var p := s[..b + k];
    ReverseKSplit(p, k, t);
    assert p[..b] == s[..b];
    var g := p[b..];
    assert g == s[b..b + k];
    assert |g| == k && g[..k] == g && g[k..] == [];
  }

  /** After the last full group the remaining fewer than k elements are unchanged. */
  lemma ReverseKLastGroups<T>(s: seq<T>, k: nat)
    requires k >= 1
    ensures ReverseK(s, k) == ReverseK(s[..(|s| / k) * k], k) + s[(|s| / k) * k..]
  {
    var t := |s| / k;
    assert t * k <= |s| < t * k + k;
    ReverseKSplit(s, k, t);
  }

  /** s without its element at index m. */
  function DeleteAt<T>(s: seq<T>, m: nat): (r: seq<T>)
    requires m < |s|
    ensures |r| == |s| - 1
    ensures forall i :: 0 <= i < m ==> r[i] == s[i]
    ensures forall i :: m <= i < |r| ==> r[i] == s[i + 1]
  {
    seq(|s| - 1, i requires 0 <= i < |s| - 1 => if i < m then s[i] else s[i + 1])
  }
  /** Deleting the front is dropping it. */
  lemma DeleteFront<T>(s: seq<T>)
    requires s != []
    ensures DeleteAt(s, 0) == s[1..]
  {
  }

  /** Deleting the first element of the second half of a + b. */
  lemma DeleteJoin<T>(a: seq<T>, b: seq<T>)
    requires b != []
    ensures DeleteAt(a + b, |a|) == a + b[1..]
  {
  }

  /** Moving the front of rest to the back of done keeps their concatenation. */
  lemma ShiftFront<T>(done: seq<T>, rest: seq<T>)
    requires rest != []
    ensures (done + [rest[0]]) + rest[1..] == done + rest
  {
    assert rest == [rest[0]] + rest[1..];
  }


  /** No element of s sorts after a later one. */
  ghost predicate Sorted(s: seq<string>)
  {
    forall i, j :: 0 <= i < j < |s| ==> Le(s[i], s[j])
  }

  /** Every element of s sorts strictly before every later one. */
  ghost predicate StrictlySorted(s: seq<string>)
  {
    forall i, j :: 0 <= i < j < |s| ==> Compare(s[i], s[j]) < 0
  }

  /** s[i] equals neither of its neighbours. */
  predicate Isolated(s: seq<string>, i: int)
    requires 0 <= i < |s|
  {
    (i == 0 || s[i - 1] != s[i]) && (i + 1 == |s| || s[i] != s[i + 1])
  }

  /** The isolated elements among s[..n], in order. */
  function KeepIsolated(s: seq<string>, n: nat): seq<string>
    requires n <= |s|
  {
    if n == 0 then [] else KeepIsolated(s, n - 1) + (if Isolated(s, n - 1) then [s[n - 1]] else [])
  }

  /**
   * q_delete_dup's result: every element equal to a neighbour is gone, so
   * every run of two or more equal values vanishes whole; the rest stay in
   * order.
   */
  function DeleteDups(s: seq<string>): seq<string>
  {
    KeepIsolated(s, |s|)
  }

  /** What survives is exactly the isolated elements. */
  lemma {:induction false} KeepIsolatedMembers(s: seq<string>, n: nat)
    requires n <= |s|
    ensures forall x :: x in KeepIsolated(s, n) <==> exists i :: 0 <= i < n && Isolated(s, i) && s[i] == x
  {
    if n > 0 {
      KeepIsolatedMembers(s, n - 1);
    }
  }

  lemma {:induction false} KeepIsolatedBelow(s: seq<string>, n: nat)
    requires Sorted(s) && 0 < n < |s|
    ensures forall i :: 0 <= i < |KeepIsolated(s, n)| ==> Compare(KeepIsolated(s, n)[i], s[n]) < 0
  {
    var r := KeepIsolated(s, n);
    var r0 := KeepIsolated(s, n - 1);
    if n > 1 {
      KeepIsolatedBelow(s, n - 1);
      forall i | 0 <= i < |r0| ensures Compare(r0[i], s[n]) < 0 {
        LtLe(r0[i], s[n - 1], s[n]);
      }
    }
    if Isolated(s, n - 1) {
      assert s[n - 1] != s[n];
      LeTotalOrder(s[n - 1], s[n], s[n]);
      CompareZero(s[n - 1], s[n]);
    }
  }

  lemma {:induction false} KeepIsolatedStrict(s: seq<string>, n: nat)
    requires Sorted(s) && n <= |s|
    ensures StrictlySorted(KeepIsolated(s, n))
  {
    if n > 1 {
      KeepIsolatedStrict(s, n - 1);
      if Isolated(s, n - 1) {
        KeepIsolatedBelow(s, n - 1);
      }
    }
  }

  /** For sorted input no value occurs twice in q_delete_dup's result. */
  lemma DeleteDupsSorted(s: seq<string>)
    requires Sorted(s)
    ensures StrictlySorted(DeleteDups(s))
    ensures forall i, j :: 0 <= i < j < |DeleteDups(s)| ==> DeleteDups(s)[i] != DeleteDups(s)[j]
  {
    KeepIsolatedStrict(s, |s|);
    var r := DeleteDups(s);
    forall i, j | 0 <= i < j < |r| ensures r[i] != r[j] {
      CompareZero(r[i], r[j]);
    }
  }

  /** In a sorted sequence, an element is isolated exactly when its value occurs once. */
  lemma IsolatedIsUnique(s: seq<string>, i: nat)
    requires Sorted(s) && i < |s|
    ensures Isolated(s, i) <==> multiset(s)[s[i]] == 1
  {
    var x := s[i];
    assert s == s[..i] + [x] + s[i + 1..];
    assert multiset(s)[x] == multiset(s[..i])[x] + 1 + multiset(s[i + 1..])[x];
    if Isolated(s, i) {
      if x in s[..i] {
        var j :| 0 <= j < i && s[j] == x;
        assert j < i - 1 && Le(s[j], s[i - 1]) && Le(s[i - 1], s[i]);
        LeTotalOrder(s[i - 1], x, x);
      }
      if x in s[i + 1..] {
        var j :| i < j < |s| && s[j] == x;
        assert j > i + 1 && Le(s[i + 1], s[j]) && Le(s[i], s[i + 1]);
        LeTotalOrder(x, s[i + 1], x);
      }
    } else if i > 0 && s[i - 1] == s[i] {
      assert s[i - 1] in s[..i];
    } else {
      assert s[i + 1] in s[i + 1..];
    }
  }

  /** For sorted input, q_delete_dup keeps exactly the values that occur once. */
  lemma DeleteDupsKeepsUnique(s: seq<string>)
    requires Sorted(s)
    ensures forall x :: x in DeleteDups(s) <==> multiset(s)[x] == 1
  {
    KeepIsolatedMembers(s, |s|);
    forall x ensures x in DeleteDups(s) <==> multiset(s)[x] == 1 {
      if multiset(s)[x] == 1 {
        assert x in s;
        var i :| 0 <= i < |s| && s[i] == x;
        IsolatedIsUnique(s, i);
      }
      if x in DeleteDups(s) {
        var i :| 0 <= i < |s| && Isolated(s, i) && s[i] == x;
        IsolatedIsUnique(s, i);
      }
    }
  }
}
