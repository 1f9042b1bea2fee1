/**
 * The queue operations of queue.c on the arena model. A queue is an Arena
 * whose sentinel heads the ring of its elements; a NULL queue pointer is a
 * null Arena. Each operation is proved against the sequence function of
 * QueueSpec it implements, on the slots (ids) and on the strings (Contents).
 */
module Queue {
  import opened CStrings
  import opened Rings
  import opened QueueSpec
  import opened ListHead
  import opened SortSpec
  import opened ListSort

  /** What q_remove_head/q_remove_tail leave in a buffer of bufsize chars: at most bufsize-1 of them. */
  function Truncate(v: string, bufsize: int): (r: string)
    requires bufsize >= 1
    ensures |r| <= bufsize - 1 && |r| <= |v| && r == v[..|r|]
    ensures |v| <= bufsize - 1 ==> r == v
  {
    if |v| < bufsize - 1 then v else v[..bufsize - 1]
  }

  /** q_new: a queue with no element, or NULL when the allocation fails. */
  method New(allocOk: bool) returns (q: Arena?)
    ensures allocOk <==> q != null
    ensures q != null ==> fresh(q) && q.Valid() && q.Contents() == []
  {
    if !allocOk {
      return null;
    }
    q := new Arena();
  }

  /**
   * q_free: every element is unlinked and released, first to last; the
   * released slots are returned in that order and the ring is left empty.
   */
  method Free(head: Arena?) returns (released: seq<int>)
    requires head != null ==> head.Valid()
    modifies head
    ensures head == null ==> released == []
    ensures head != null ==> released == old(head.ids) && head.ids == [] && head.Valid()
    ensures head != null ==> head.value == old(head.value)
  {
    released := [];
    if head == null {
      return;
    }
    ghost var xs := head.ids;
    ghost var rest := xs;
    var entry := head.next[Head];
    var safe := head.next[entry];
    while entry != Head
      invariant head.value == old(head.value) && |head.next| == |head.value|
      invariant released + rest == xs
      invariant IsRing(head.next, head.prev, Head, rest)
      invariant entry == if rest == [] then Head else rest[0]
      invariant rest != [] ==> safe == Succ(Head, rest, 0)
      decreases |rest|
    {
      head.ListDel(entry, Head, rest, 0);
      DeleteFront(rest);
      ShiftFront(released, rest);
      released := released + [entry];
      rest := rest[1..];
      entry := safe;
      safe := head.next[entry];
      if rest != [] {
        assert head.next[rest[0]] == Succ(Head, rest, 0);
      }
    }
    head.ids := [];
  }

  /** q_insert_head: the string strdup(s) makes goes in front, unless the queue is NULL or an allocation fails. */
  method InsertHead(head: Arena?, s: string, elementOk: bool, valueOk: bool) returns (ok: bool)
    requires head != null ==> head.Valid()
    modifies head
    ensures ok <==> head != null && elementOk && valueOk
    ensures head != null ==> head.Valid()
    ensures head != null ==> head.Contents() == (if ok then [CStr(s)] else []) + old(head.Contents())
    ensures ok ==> head.ids == [|old(head.next)|] + old(head.ids)
    ensures head != null && !ok ==> unchanged(head)
  {
    if head == null || !elementOk || !valueOk {
      return false;
    }
    ghost var xs := head.ids;
    ghost var n0, p0 := head.next, head.prev;
    var e := head.NewNode(CStr(s));
    RingFrame(n0, p0, head.next, head.prev, Head, xs);
    head.ListAdd(e, Head, Head, xs, 0);
    head.ids := Insert(xs, 0, e);
    InsertEnds(xs, e);
    PushedValid(head, old(head.value), CStr(s), xs, true);
    ok := true;
  }

  /** A new element with a NUL-free string, linked in front of or behind the queue, leaves a valid queue. */
  lemma PushedValid(a: Arena, vs: seq<string>, v: string, xs: seq<int>, front: bool)
    requires a.value == vs + [v] && |a.value| == |a.next|
    requires a.ids == if front then [|vs|] + xs else xs + [|vs|]
    requires IsRing(a.next, a.prev, Head, a.ids)
    requires NoNul(v) && forall i :: 0 <= i < |xs| ==> 0 <= xs[i] < |vs|
    requires forall i {:trigger vs[xs[i]]} :: 0 <= i < |xs| ==> NoNul(vs[xs[i]])
    ensures a.Valid()
    ensures a.Contents() == if front then [v] + Values(vs, xs) else Values(vs, xs) + [v]
  {
    NoNulPushed(vs, v, xs, front);
    if front {
      ValuesPushFront(vs, v, xs);
    } else {
      ValuesPushBack(vs, v, xs);
    }
  }

  /** q_insert_tail: as q_insert_head, at the back. */
  method InsertTail(head: Arena?, s: string, elementOk: bool, valueOk: bool) returns (ok: bool)
    requires head != null ==> head.Valid()
    modifies head
    ensures ok <==> head != null && elementOk && valueOk
    ensures head != null ==> head.Valid()
    ensures head != null ==> head.Contents() == old(head.Contents()) + (if ok then [CStr(s)] else [])
    ensures ok ==> head.ids == old(head.ids) + [|old(head.next)|]
    ensures head != null && !ok ==> unchanged(head)
  {
    if head == null || !elementOk || !valueOk {
      return false;
    }
    ghost var xs := head.ids;
    ghost var n0, p0 := head.next, head.prev;
    var e := head.NewNode(CStr(s));
    RingFrame(n0, p0, head.next, head.prev, Head, xs);
    head.ListAddTail(e, Head, Head, xs, |xs|);
    head.ids := Insert(xs, |xs|, e);
    InsertEnds(xs, e);
    PushedValid(head, old(head.value), CStr(s), xs, false);
    ok := true;
  }

  /**
   * The buffer copy of q_remove_head and q_remove_tail when sp is non-NULL:
   * strncpy(sp, v, bufsize - 1), then sp[bufsize - 1] = 0.
   */
  method CopyOut(v: string, sp: array?<char>, bufsize: nat)
    requires NoNul(v) && (sp != null ==> 1 <= bufsize <= sp.Length)
    modifies sp
    ensures sp != null ==> CStr(sp[..bufsize]) == Truncate(v, bufsize) && sp[bufsize..] == old(sp[bufsize..])
  {
    if sp != null {
      StrNCopy(sp, v, bufsize - 1);
      sp[bufsize - 1] := NUL;
      CStrOfNoNul(v);
      CopiedPrefix(sp[..bufsize], v);
    }
  }

  /**
   * q_remove_head: NULL for a NULL or empty queue; otherwise the first
   * element is unlinked and returned, and when sp is non-NULL its string is
   * copied into sp, cut to bufsize-1 characters and NUL-terminated.
   */
  method RemoveHead(head: Arena?, sp: array?<char>, bufsize: nat) returns (e: int)
    requires head != null ==> head.Valid()
    requires sp != null ==> 1 <= bufsize <= sp.Length
    modifies head, sp
    ensures head == null || old(head.ids) == [] ==> e == NULL && (sp != null ==> unchanged(sp))
    ensures head != null && old(head.ids) == [] ==> unchanged(head)
    ensures head != null && old(head.ids) != [] ==>
      && e == old(head.ids)[0] && head.ids == old(head.ids)[1..]
      && head.Valid() && head.value == old(head.value)
      && old(head.Contents()) == [head.value[e]] + head.Contents()
    ensures head != null && old(head.ids) != [] && sp != null ==>
      && CStr(sp[..bufsize]) == Truncate(head.value[e], bufsize)
      && sp[bufsize..] == old(sp[bufsize..])
  {
    if head == null || head.ListEmpty(Head, head.ids) {
      return NULL;
    }
    e := head.next[Head];
    CopyOut(head.value[e], sp, bufsize);
    head.Unlink(e, 0);
  }

  /** q_remove_tail: as q_remove_head, with the last element. */
  method RemoveTail(head: Arena?, sp: array?<char>, bufsize: nat) returns (e: int)
    requires head != null ==> head.Valid()
    requires sp != null ==> 1 <= bufsize <= sp.Length
    modifies head, sp
    ensures head == null || old(head.ids) == [] ==> e == NULL && (sp != null ==> unchanged(sp))
    ensures head != null && old(head.ids) == [] ==> unchanged(head)
    ensures head != null && old(head.ids) != [] ==>
      && e == old(head.ids)[|old(head.ids)| - 1] && head.ids == old(head.ids)[..|old(head.ids)| - 1]
      && head.Valid() && head.value == old(head.value)
      && old(head.Contents()) == head.Contents() + [head.value[e]]
    ensures head != null && old(head.ids) != [] && sp != null ==>
      && CStr(sp[..bufsize]) == Truncate(head.value[e], bufsize)
      && sp[bufsize..] == old(sp[bufsize..])
  {
    if head == null || head.ListEmpty(Head, head.ids) {
      return NULL;
    }
    e := head.prev[Head];
    CopyOut(head.value[e], sp, bufsize);
    head.Unlink(e, |head.ids| - 1);
  }

  /** q_size: the number of elements; 0 for a NULL queue. */
  method Size(head: Arena?) returns (count: int)
    requires head != null ==> head.Valid()
    ensures head == null ==> count == 0
    ensures head != null ==> count == |head.ids| == |head.Contents()|
  {
    if head == null {
      return 0;
    }
    count := 0;
    var node := head.next[Head];
    while node != Head
      invariant 0 <= count <= |head.ids|
      invariant node == if count < |head.ids| then head.ids[count] else Head
      decreases |head.ids| - count
    {
      assert head.next[head.ids[count]] == Succ(Head, head.ids, count);
      node := head.next[node];
      count := count + 1;
    }
  }

  /**
   * The two-pointer walk of q_delete_mid on a non-empty queue: move_head
   * steps forward from the first element and move_tail backward from the
   * last until they meet or move_head's next is move_tail. They stop at
   * indices (n-1)/2 and n/2.
   */
  method WalkToMiddle(head: Arena) returns (moveHead: int, moveTail: int)
    requires head.Valid() && head.ids != []
    ensures moveHead == head.ids[(|head.ids| - 1) / 2]
    ensures moveTail == head.ids[|head.ids| / 2]
  {
    ghost var xs, n := head.ids, |head.ids|;
    ghost var i := 0;
    moveHead := head.next[Head];
    moveTail := head.prev[Head];
    while moveHead != moveTail && head.next[moveHead] != moveTail
      invariant 0 <= 2 * i <= n - 1
      invariant moveHead == xs[i] && moveTail == xs[n - 1 - i]
      decreases n - 2 * i
    {
      assert head.next[xs[i]] == Succ(Head, xs, i);
      assert i + 1 != n - 1 - i;
      assert head.prev[xs[n - 1 - i]] == Pred(Head, xs, n - 1 - i);
      moveHead := head.next[moveHead];
      moveTail := head.prev[moveTail];
      i := i + 1;
    }
    assert head.next[xs[i]] == Succ(Head, xs, i);
  }

  /**
   * q_delete_mid as written: false for a NULL or empty queue; otherwise the
   * element under move_head, at index (n-1)/2, is unlinked and released.
   */
  method DeleteMid(head: Arena?) returns (ok: bool)
    requires head != null ==> head.Valid()
    modifies head
    ensures ok <==> head != null && old(head.ids) != []
    ensures head != null ==> head.Valid() && head.value == old(head.value)
    ensures ok ==> head.ids == DeleteAt(old(head.ids), (|old(head.ids)| - 1) / 2)
    ensures ok ==> head.Contents() == DeleteAt(old(head.Contents()), (|old(head.ids)| - 1) / 2)
    ensures head != null && !ok ==> unchanged(head)
  {
    if head == null || head.ListEmpty(Head, head.ids) {
      return false;
    }
    var moveHead, moveTail := WalkToMiddle(head);
    head.Unlink(moveHead, (|head.ids| - 1) / 2);
    ok := true;
  }

  /**
   * q_delete_mid with the walk's other pointer unlinked: move_tail, at index
   * n/2, the middle the function is meant to delete.
   */
  method DeleteMidCorrected(head: Arena?) returns (ok: bool)
    requires head != null ==> head.Valid()
    modifies head
    ensures ok <==> head != null && old(head.ids) != []
    ensures head != null ==> head.Valid() && head.value == old(head.value)
    ensures ok ==> head.ids == DeleteAt(old(head.ids), |old(head.ids)| / 2)
    ensures ok ==> head.Contents() == DeleteAt(old(head.Contents()), |old(head.ids)| / 2)
    ensures head != null && !ok ==> unchanged(head)
  {
    if head == null || head.ListEmpty(Head, head.ids) {
      return false;
    }
    var moveHead, moveTail := WalkToMiddle(head);
    head.Unlink(moveTail, |head.ids| / 2);
    ok := true;
  }

  /**
   * The two disagree on every even length. On [a, b, c, d] the walk stops
   * with move_head on b and move_tail on c: q_delete_mid as written removes
   * b, index (n-1)/2, where the middle node of "Delete the Middle Node of a
   * Linked List" (the problem queue.c cites) is index n/2, c.
   */
  lemma DeleteMidEvenCounterexample()
    ensures DeleteAt(["a", "b", "c", "d"], (4 - 1) / 2) == ["a", "c", "d"]
    ensures DeleteAt(["a", "b", "c", "d"], 4 / 2) == ["a", "b", "d"]
    ensures forall n: nat :: n >= 2 && n % 2 == 0 ==> (n - 1) / 2 != n / 2
  {
    var s := ["a", "b", "c", "d"];
    assert DeleteAt(s, 1) == [s[0], s[2], s[3]];
    assert DeleteAt(s, 2) == [s[0], s[1], s[3]];
  }

  /** The slots among xs[..n] whose strings (ws, index for index) equal neither neighbour's, in order. */
  ghost function KeptSlots(ws: seq<string>, xs: seq<int>, n: nat): seq<int>
    requires n <= |xs| == |ws|
  {
    if n == 0 then [] else KeptSlots(ws, xs, n - 1) + (if Isolated(ws, n - 1) then [xs[n - 1]] else [])
  }

  /** The strings of the kept slots are the strings DeleteDups keeps. */
  lemma {:induction false} KeptSlotsValues(vs: seq<string>, xs: seq<int>, n: nat)
    requires n <= |xs|
    ensures Values(vs, KeptSlots(Values(vs, xs), xs, n)) == KeepIsolated(Values(vs, xs), n)
  {
    if n > 0 {
      KeptSlotsValues(vs, xs, n - 1);
      var a := KeptSlots(Values(vs, xs), xs, n - 1);
      var b := if Isolated(Values(vs, xs), n - 1) then [xs[n - 1]] else [];
      ValuesConcat(vs, a, b);
    }
  }

  /** One step of q_delete_dup's loop at index m: its element goes exactly when it is not isolated. */
  lemma IsolatedStep(vs: seq<string>, m: nat, del: bool, same: bool)
    requires m < |vs|
    requires del == (0 < m && vs[m - 1] == vs[m])
    requires same == (m + 1 < |vs| && vs[m] == vs[m + 1])
    ensures Isolated(vs, m) <==> !(same || del)
  {
  }

  /** KeptSlots grows by the slot at m exactly when its string is isolated. */
  lemma KeptSlotsStep(ws: seq<string>, xs: seq<int>, m: nat)
    requires m < |xs| == |ws|
    ensures KeptSlots(ws, xs, m + 1) == KeptSlots(ws, xs, m) + (if Isolated(ws, m) then [xs[m]] else [])
  {
  }

  /**
   * The body of q_delete_dup's loop for entry, the first of the slots rest
   * still to visit, with safe the slot after it: entry is unlinked when its
   * string equals its successor's (del is then set) or when del is set
   * (del is then cleared); otherwise it is kept. Of the original slots xs
   * with strings vs, taken have been visited and done kept so far.
   */
  method DupStep(head: Arena, entry: int, safe: int, del: bool, ghost xs: seq<int>, ghost v0: seq<string>,
                 ghost vs: seq<string>, ghost taken: seq<int>, ghost done: seq<int>, ghost rest: seq<int>)
    returns (del': bool, entry': int, safe': int, ghost taken': seq<int>, ghost done': seq<int>, ghost rest': seq<int>)
    requires head.Valid() && head.value == v0 && |vs| == |xs| && vs == Values(v0, xs)
    requires taken + rest == xs && head.ids == done + rest
    requires done == KeptSlots(vs, xs, |taken|)
    requires entry == (if rest == [] then Head else rest[0]) && (entry == Head <==> rest == [])
    requires rest != [] ==> safe == if |rest| > 1 then rest[1] else Head
    requires del == (0 < |taken| < |xs| && vs[|taken| - 1] == vs[|taken|])
    requires entry != Head
    modifies head`next, head`prev, head`ids
    ensures head.Valid() && head.value == v0 && |rest'| < |rest|
    ensures taken' + rest' == xs && head.ids == done' + rest'
    ensures done' == KeptSlots(vs, xs, |taken'|)
    ensures entry' == (if rest' == [] then Head else rest'[0]) && (entry' == Head <==> rest' == [])
    ensures rest' != [] ==> safe' == if |rest'| > 1 then rest'[1] else Head
    ensures del' == (0 < |taken'| < |xs| && vs[|taken'| - 1] == vs[|taken'|])
  {
    ghost var m := |taken|;
    DupBookkeeping(vs, xs, taken, done, rest, del);
    DupTest(head.next, head.prev, head.value, head.ids, xs, vs, taken, done, rest, entry, safe);
    if head.next[entry] != Head && Compare(head.value[entry], head.value[safe]) == 0 {
      head.Unlink(entry, |done|);
      DeleteJoin(done, rest);
      del', done' := true, done;
    } else if del {
      head.Unlink(entry, |done|);
      DeleteJoin(done, rest);
      del', done' := false, done;
    } else {
      ShiftFront(done, rest);
      del', done' := false, done + [entry];
    }
    taken', rest' := taken + [entry], rest[1..];
    if |rest| > 1 {
      assert head.ids[|done'|] == rest[1];
      assert head.next[head.ids[|done'|]] == Succ(Head, head.ids, |done'|);
    }
    entry' := safe;
    safe' := head.next[entry'];
  }

  /**
   * What one step of q_delete_dup's loop does to the kept slots and the
   * del flag: the element at m = |taken| is kept exactly when it is
   * isolated, and del becomes "it equals its successor".
   */
  lemma DupBookkeeping(vs: seq<string>, xs: seq<int>, taken: seq<int>, done: seq<int>, rest: seq<int>, del: bool)
    requires |vs| == |xs| && taken + rest == xs && rest != []
    requires done == KeptSlots(vs, xs, |taken|)
    requires del == (0 < |taken| < |xs| && vs[|taken| - 1] == vs[|taken|])
    ensures var m := |taken|;
      var same := m + 1 < |xs| && vs[m] == vs[m + 1];
      && (taken + [rest[0]]) + rest[1..] == xs
      && (same || del ==> done == KeptSlots(vs, xs, m + 1))
      && (!(same || del) ==> done + [rest[0]] == KeptSlots(vs, xs, m + 1))
      && same == (0 < m + 1 < |xs| && vs[m] == vs[m + 1])
  {
    var m := |taken|;
    ShiftFront(taken, rest);
    assert xs[m] == rest[0];
    IsolatedStep(vs, m, del, m + 1 < |xs| && vs[m] == vs[m + 1]);
    KeptSlotsStep(vs, xs, m);
  }

  /**
   * The test at queue.c:140 holds exactly when the element visited has a
   * successor with the same string.
   */
  lemma DupTest(next: seq<int>, prev: seq<int>, value: seq<string>, ids: seq<int>, xs: seq<int>, vs: seq<string>,
                taken: seq<int>, done: seq<int>, rest: seq<int>, entry: int, safe: int)
    requires IsRing(next, prev, Head, ids) && |value| == |next|
    requires |vs| == |xs| && vs == Values(value, xs)
    requires taken + rest == xs && ids == done + rest && rest != []
    requires entry == rest[0] && safe == if |rest| > 1 then rest[1] else Head
    ensures 0 <= entry < |next| && 0 <= safe < |next| && ids[|done|] == entry
    ensures next[entry] == if |rest| > 1 then safe else Head
    ensures (|taken| + 1 < |xs| && vs[|taken|] == vs[|taken| + 1])
            == (next[entry] != Head && Compare(value[entry], value[safe]) == 0)
  {
    var m := |taken|;
    assert ids[|done|] == entry;
    assert next[ids[|done|]] == Succ(Head, ids, |done|);
    if |rest| > 1 {
      assert safe == xs[m + 1] && safe == ids[|done| + 1];
      CompareZero(value[entry], value[safe]);
    }
    assert entry == xs[m] && vs[m] == Key(value, entry);
    assert |rest| > 1 ==> vs[m + 1] == Key(value, safe);
  }

  /**
   * q_delete_dup: false for a NULL or empty queue; otherwise every element
   * whose string equals that of its predecessor or its successor is
   * unlinked and released, and true is returned. The del flag carries
   * "this element equals the one just deleted" to the next step.
   */
  method DeleteDup(head: Arena?) returns (ok: bool)
    requires head != null ==> head.Valid()
    modifies head
    ensures ok <==> head != null && old(head.ids) != []
    ensures head != null ==> head.Valid() && head.value == old(head.value)
    ensures ok ==> head.ids == KeptSlots(old(head.Contents()), old(head.ids), |old(head.ids)|)
    ensures ok ==> head.Contents() == DeleteDups(old(head.Contents()))
    ensures head != null && !ok ==> unchanged(head)
  {
    if head == null || head.ListEmpty(Head, head.ids) {
      return false;
    }
    ghost var xs, v0 := head.ids, head.value;
    DupWalk(head);
    KeptSlotsValues(v0, xs, |xs|);
    ok := true;
  }

  /** Where list_for_each_entry_safe starts on a ring that is not empty: its first slot and the one after. */
  lemma DupStart(next: seq<int>, prev: seq<int>, xs: seq<int>)
    requires IsRing(next, prev, Head, xs) && xs != []
    ensures next[Head] == xs[0] && xs[0] != Head && 0 <= xs[0] < |next|
    ensures next[xs[0]] == if |xs| > 1 then xs[1] else Head
  {
    assert next[xs[0]] == Succ(Head, xs, 0);
  }

  /** q_delete_dup's list_for_each_entry_safe walk over a queue that is not empty. */
  method DupWalk(head: Arena)
    requires head.Valid() && head.ids != []
    modifies head`next, head`prev, head`ids
    ensures head.Valid() && head.value == old(head.value)
    ensures head.ids == KeptSlots(old(head.Contents()), old(head.ids), |old(head.ids)|)
  {
    ghost var xs, v0, vs := head.ids, head.value, head.Contents();
    ghost var taken: seq<int> := [];
    ghost var done: seq<int> := [];
    ghost var rest := xs;
    var del := false;
    DupStart(head.next, head.prev, xs);
    var entry := head.next[Head];
    var safe := head.next[entry];
    while entry != Head
      invariant head.Valid() && head.value == v0 && |vs| == |xs| && vs == Values(v0, xs)
      invariant taken + rest == xs && head.ids == done + rest
      invariant done == KeptSlots(vs, xs, |taken|)
      invariant entry == (if rest == [] then Head else rest[0]) && (entry == Head <==> rest == [])
      invariant rest != [] ==> safe == if |rest| > 1 then rest[1] else Head
      invariant del == (0 < |taken| < |xs| && vs[|taken| - 1] == vs[|taken|])
      decreases |rest|
    {
      del, entry, safe, taken, done, rest := DupStep(head, entry, safe, del, xs, v0, vs, taken, done, rest);
    }
  }

  /**
   * After q_reverse's loop every element's pointers are exchanged; the two
   * writes to the sentinel (its next from its prev, its prev from the saved
   * successor, which is the old first element) close the reversed ring.
   */
  lemma ReversedLinks(n0: seq<int>, p0: seq<int>, xs: seq<int>)
    requires IsRing(n0, p0, Head, xs)
    ensures var n1, p1 := Overwrite(n0, p0, xs, |xs|), Overwrite(p0, n0, xs, |xs|);
      IsRing(n1[Head := p1[Head]], p1[Head := n1[Head]], Head, Reverse(xs))
  {
    var n1, p1 := Overwrite(n0, p0, xs, |xs|), Overwrite(p0, n0, xs, |xs|);
    OverwriteAt(n0, p0, xs, |xs|, Head);
    OverwriteAt(p0, n0, xs, |xs|, Head);
    ReversedRing(n0, p0, n1[Head := p1[Head]], p1[Head := n1[Head]], Head, xs);
  }

  /**
   * The list_for_each_safe loop of q_reverse: each element's next becomes
   * its prev and its prev the saved successor, which is its old next. On
   * exit the saved successor is the sentinel's next, the old first element.
   */
  method ExchangeLinks(head: Arena, ghost xs: seq<int>) returns (safe: int)
    requires IsRing(head.next, head.prev, Head, xs)
    modifies head`next, head`prev
    ensures head.next == Overwrite(old(head.next), old(head.prev), xs, |xs|)
    ensures head.prev == Overwrite(old(head.prev), old(head.next), xs, |xs|)
    ensures safe == old(head.next)[Head]
  {
    ghost var n0, p0 := head.next, head.prev;
    ghost var k := 0;
    var node := head.next[Head];
    safe := head.next[node];
    while node != Head
      invariant 0 <= k <= |xs|
      invariant head.next == Overwrite(n0, p0, xs, k) && head.prev == Overwrite(p0, n0, xs, k)
      invariant node == if k < |xs| then xs[k] else Head
      invariant safe == n0[node]
      decreases |xs| - k
    {
      OverwriteAt(p0, n0, xs, k, Head);
      head.next := head.next[node := head.prev[node]];
      head.prev := head.prev[node := safe];
      k := k + 1;
      node := safe;
      assert n0[xs[k - 1]] == Succ(Head, xs, k - 1);
      OverwriteAt(n0, p0, xs, k, Head);
      safe := head.next[node];
    }
  }

  /**
   * q_reverse: every link's two pointers are exchanged, walking the ring
   * once with the successor saved before each write, and then the
   * sentinel's; the elements end up in reverse order.
   */
  method ReverseQueue(head: Arena?)
    requires head != null ==> head.Valid()
    modifies head
    ensures head != null ==> head.Valid() && head.value == old(head.value)
    ensures head != null ==> head.ids == Reverse(old(head.ids)) && head.Contents() == Reverse(old(head.Contents()))
  {
    if head == null || head.ListEmpty(Head, head.ids) {
      return;
    }
    ghost var xs := head.ids;
    ReversedLinks(head.next, head.prev, xs);
    var safe := ExchangeLinks(head, xs);
    head.next := head.next[Head := head.prev[Head]];
    head.prev := head.prev[Head := safe];
    head.ids := Reverse(xs);
    ValuesReverse(head.value, xs);
  }

  /** Moving the element at 2p behind the one after it swaps one more pair. */
  lemma SwapPairStep(o: seq<int>, p: nat)
    requires 2 * p + 1 < |o|
    ensures Insert(DeleteAt(Swap(o[..2 * p]) + o[2 * p..], 2 * p), 2 * p + 1, o[2 * p]) == Swap(o[..2 * (p + 1)]) + o[2 * (p + 1)..]
  {
    var m := 2 * p;
    var a := Swap(o[..m]);
    var q := o[..m + 2];
    SwapSplit(q, p);
    assert q[..m] == o[..m] && q[m..] == [o[m], o[m + 1]];
    assert Swap(q) == a + [o[m + 1], o[m]];
    assert o[m..] == [o[m]] + ([o[m + 1]] + o[m + 2..]);
    DeleteBehind(a, o[m], [o[m + 1]] + o[m + 2..]);
    InsertBehind(a, o[m + 1], o[m + 2..], o[m]);
  }

  /** Deleting the element right behind a leaves a and what came after it. */
  lemma DeleteBehind(a: seq<int>, x: int, t: seq<int>)
    ensures DeleteAt(a + ([x] + t), |a|) == a + t
  {
  }

  /** Inserting x right behind the y that follows a. */
  lemma InsertBehind(a: seq<int>, y: int, t: seq<int>, x: int)
    ensures Insert(a + ([y] + t), |a| + 1, x) == a + [y, x] + t
  {
  }

  /** Once at most one element is left, the pairs before it are all the swapping there is. */
  lemma SwapRest(o: seq<int>, p: nat)
    requires |o| - 1 <= 2 * p <= |o|
    ensures Swap(o[..2 * p]) + o[2 * p..] == Swap(o)
  {
    SwapSplit(o, p);
  }

  /**
   * The state of q_swap's walk after p pairs: those pairs are swapped, the
   * rest is as it was, and node is the next pair's first element (or the
   * sentinel), whose next pointer is that pair's second (or the sentinel).
   */
  ghost predicate SwapState(next: seq<int>, prev: seq<int>, o: seq<int>, p: nat, node: int)
  {
    && 2 * p <= |o|
    && IsRing(next, prev, Head, Swap(o[..2 * p]) + o[2 * p..])
    && node == (if 2 * p < |o| then o[2 * p] else Head)
    && (2 * p < |o| ==> 0 <= node < |next| && next[node] == if 2 * p + 1 < |o| then o[2 * p + 1] else Head)
  }

  /**
   * One pass of q_swap's loop body on a node whose successor is not the
   * sentinel: list_move(node, node->next) puts it behind that successor, and
   * the node after it is where the walk goes on.
   */
  method SwapStep(head: Arena, node: int, ghost o: seq<int>, ghost p: nat) returns (node': int)
    requires SwapState(head.next, head.prev, o, p, node)
    requires node != Head && head.next[node] != Head
    modifies head`next, head`prev
    ensures SwapState(head.next, head.prev, o, p + 1, node')
    ensures |head.next| == old(|head.next|)
  {
    ghost var m := 2 * p;
    ghost var r := Swap(o[..m]) + o[m..];
    assert r[m] == node && r[m + 1] == o[m + 1];
    assert head.next[r[m]] == Succ(Head, r, m);
    assert DeleteAt(r, m)[m] == r[m + 1];
    head.ListMove(node, head.next[node], Head, r, m, m + 1);
    SwapPairStep(o, p);
    assert 2 * (p + 1) == m + 2;
    ghost var r' := Swap(o[..m + 2]) + o[m + 2..];
    assert r'[m + 1] == node;
    assert head.next[r'[m + 1]] == Succ(Head, r', m + 1);
    if m + 2 < |o| {
      assert r'[m + 2] == o[m + 2];
      assert head.next[r'[m + 2]] == Succ(Head, r', m + 2);
      assert m + 3 < |o| ==> r'[m + 3] == o[m + 3];
    }
    node' := head.next[node];
  }

  /**
   * The list_for_each loop of q_swap: while the current node has a
   * successor other than the sentinel, list_move puts it behind that
   * successor, and the walk goes on from the node after it.
   */
  method SwapLinks(head: Arena, ghost o: seq<int>)
    requires IsRing(head.next, head.prev, Head, o)
    modifies head`next, head`prev
    ensures IsRing(head.next, head.prev, Head, Swap(o))
    ensures |head.next| == old(|head.next|)
  {
    ghost var p := 0;
    var node := head.next[Head];
    assert o != [] ==> head.next[o[0]] == Succ(Head, o, 0);
    assert forall i :: 0 <= i < |o| ==> o[i] != Head;
    assert SwapState(head.next, head.prev, o, p, node);
    while node != Head && head.next[node] != Head
      invariant SwapState(head.next, head.prev, o, p, node)
      invariant |head.next| == old(|head.next|)
      decreases |o| - 2 * p
    {
      node := SwapStep(head, node, o, p);
      p := p + 1;
    }
    SwapRest(o, p);
  }

  /**
   * q_swap: a NULL or empty queue is left alone; otherwise each adjacent
   * pair of elements trades places, and an odd last element stays last.
   */
  method SwapQueue(head: Arena?)
    requires head != null ==> head.Valid()
    modifies head
    ensures head != null ==> head.Valid() && head.value == old(head.value)
    ensures head != null ==> head.ids == Swap(old(head.ids)) && head.Contents() == Swap(old(head.Contents()))
  {
    if head == null || head.ListEmpty(Head, head.ids) {
      return;
    }
    ghost var xs := head.ids;
    SwapLinks(head, xs);
    head.ids := Swap(xs);
    SwapPermutes(xs);
    PermutedNoNul(head.value, xs, head.ids);
    ValuesSwap(head.value, xs);
  }

  /** No slot of xs is a, b or c. */
  ghost predicate Apart(xs: seq<int>, a: int, b: int, c: int)
  {
    forall i :: 0 <= i < |xs| ==> xs[i] != a && xs[i] != b && xs[i] != c
  }

  /** The sentinel, nhead, temp1 and temp2 are four different slots. */
  ghost predicate HeadsApart(nh: int, t1: int, t2: int)
  {
    Head != nh && Head != t1 && Head != t2 && nh != t1 && nh != t2 && t1 != t2
  }

  /**
   * The rings q_reverseK keeps between two groups: the queue at the sentinel
   * holds the elements not yet regrouped (rest), nhead those already done,
   * and temp1, temp2 are two further slots; the heads are distinct and the
   * two rings share no link and avoid the other heads.
   */
  ghost predicate GroupRings(next: seq<int>, prev: seq<int>, nh: int, t1: int, t2: int, done: seq<int>, rest: seq<int>)
  {
    && IsRing(next, prev, Head, rest)
    && IsRing(next, prev, nh, done)
    && 0 <= t1 < |next| && 0 <= t2 < |next|
    && HeadsApart(nh, t1, t2)
    && Apart(rest, nh, t1, t2) && Apart(done, Head, t1, t2)
    && Disjoint(rest, done)
  }

  /** GroupRings is about the sequences, not about how they are written. */
  lemma SameGroupRings(next: seq<int>, prev: seq<int>, nh: int, t1: int, t2: int,
                       d1: seq<int>, r1: seq<int>, d2: seq<int>, r2: seq<int>)
    requires GroupRings(next, prev, nh, t1, t2, d1, r1) && d1 == d2 && r1 == r2
    ensures GroupRings(next, prev, nh, t1, t2, d2, r2)
  {
  }

  /**
   * The rings while a group is being taken: as GroupRings, and besides
   * temp2 holds the group taken so far (grp), last taken first, and temp1
   * is empty.
   */
  ghost predicate TakeRings(next: seq<int>, prev: seq<int>, nh: int, t1: int, t2: int,
                            done: seq<int>, grp: seq<int>, rest: seq<int>)
  {
    && GroupRings(next, prev, nh, t1, t2, done, rest)
    && IsRing(next, prev, t2, grp)
    && IsRing(next, prev, t1, [])
    && Apart(grp, Head, nh, t1)
    && Disjoint(rest, grp) && Disjoint(done, grp)
  }

  /**
   * The slots that TakeRings keeps apart stay apart when the queue's first
   * element moves to the front of the group.
   */
  lemma TakeSeparation(nh: int, t1: int, t2: int, done: seq<int>, grp: seq<int>, rest: seq<int>)
    requires rest != [] && rest[0] != Head && Distinct(rest)
    requires Apart(rest, nh, t1, t2) && Apart(done, Head, t1, t2) && Apart(grp, Head, nh, t1)
    requires Disjoint(rest, done) && Disjoint(rest, grp) && Disjoint(done, grp)
    ensures Apart(rest[1..], nh, t1, t2) && Apart([rest[0]] + grp, Head, nh, t1)
    ensures Disjoint(rest[1..], done) && Disjoint(rest[1..], [rest[0]] + grp) && Disjoint(done, [rest[0]] + grp)
  {
  }

  /**
   * The rings halfway through TakeOne: the queue's first element x alone on
   * temp1, the rest of the queue at the sentinel, nhead and temp2 as they were.
   */
  ghost predicate CutRings(next: seq<int>, prev: seq<int>, nh: int, t1: int, t2: int,
                           done: seq<int>, grp: seq<int>, rest: seq<int>)
  {
    && rest != []
    && IsRing(next, prev, Head, rest[1..])
    && IsRing(next, prev, t1, [rest[0]])
    && IsRing(next, prev, nh, done)
    && IsRing(next, prev, t2, grp)
    && HeadsApart(nh, t1, t2)
    && rest[0] != Head && Distinct(rest)
    && Apart(rest, nh, t1, t2) && Apart(done, Head, t1, t2) && Apart(grp, Head, nh, t1)
    && Disjoint(rest, done) && Disjoint(rest, grp) && Disjoint(done, grp)
  }

  /** list_cut_position(&temp1, head, node) on the queue's first element node. */
  method CutFirst(head: Arena, nh: int, t1: int, t2: int, ghost done: seq<int>, ghost grp: seq<int>, ghost rest: seq<int>)
    requires TakeRings(head.next, head.prev, nh, t1, t2, done, grp, rest) && rest != []
    modifies head`next, head`prev
    ensures CutRings(head.next, head.prev, nh, t1, t2, done, grp, rest)
    ensures |head.next| == old(|head.next|)
  {
    ghost var n0, p0 := head.next, head.prev;
    var node := head.next[Head];
    head.ListCutPosition(t1, Head, node, rest, 0);
    CutFrames(n0, p0, head.next, head.prev, nh, t1, t2, done, grp, rest);
  }

  /** What list_cut_position(&temp1, head, node) leaves of the rings TakeRings describes. */
  lemma CutFrames(n0: seq<int>, p0: seq<int>, n1: seq<int>, p1: seq<int>, nh: int, t1: int, t2: int,
                  done: seq<int>, grp: seq<int>, rest: seq<int>)
    requires TakeRings(n0, p0, nh, t1, t2, done, grp, rest) && rest != []
    requires IsRing(n1, p1, t1, rest[..1]) && IsRing(n1, p1, Head, rest[1..])
    requires AgreeOutside(n0, p0, n1, p1, {t1, Head, n0[Head], rest[0], n0[rest[0]]})
    ensures CutRings(n1, p1, nh, t1, t2, done, grp, rest)
  {
    assert n0[rest[0]] == Succ(Head, rest, 0);
    var cut := {t1, Head, rest[0], Succ(Head, rest, 0)};
    RingUntouched(n0, p0, n1, p1, nh, done, cut);
    RingUntouched(n0, p0, n1, p1, t2, grp, cut);
    assert rest[..1] == [rest[0]];
  }

  /** list_splice_init(&temp1, &temp2): the element cut onto temp1 goes to the front of temp2. */
  method SpliceFirst(head: Arena, nh: int, t1: int, t2: int, ghost done: seq<int>, ghost grp: seq<int>, ghost rest: seq<int>)
    requires CutRings(head.next, head.prev, nh, t1, t2, done, grp, rest)
    modifies head`next, head`prev
    ensures TakeRings(head.next, head.prev, nh, t1, t2, done, [rest[0]] + grp, rest[1..])
    ensures |head.next| == old(|head.next|)
  {
    ghost var n1, p1 := head.next, head.prev;
    head.ListSpliceInit(t1, t2, [rest[0]], grp);
    SpliceFrames(n1, p1, head.next, head.prev, nh, t1, t2, done, grp, rest);
  }

  /** What list_splice_init(&temp1, &temp2) leaves of the rings CutRings describes. */
  lemma SpliceFrames(n1: seq<int>, p1: seq<int>, n2: seq<int>, p2: seq<int>, nh: int, t1: int, t2: int,
                     done: seq<int>, grp: seq<int>, rest: seq<int>)
    requires CutRings(n1, p1, nh, t1, t2, done, grp, rest)
    requires IsRing(n2, p2, t2, [rest[0]] + grp) && IsRing(n2, p2, t1, [])
    requires AgreeOutside(n1, p1, n2, p2, {t2, t1, n1[t1], p1[t1], n1[t2]})
    ensures TakeRings(n2, p2, nh, t1, t2, done, [rest[0]] + grp, rest[1..])
  {
    var spliced := {t2, t1, rest[0], n1[t2]};
    RingUntouched(n1, p1, n2, p2, nh, done, spliced);
    RingUntouched(n1, p1, n2, p2, Head, rest[1..], spliced);
    TakeSeparation(nh, t1, t2, done, grp, rest);
  }

  /**
   * One pass of the inner loop of q_reverseK: list_cut_position moves the
   * queue's first element alone onto temp1, and list_splice_init moves it
   * from there to the front of temp2.
   */
  method TakeOne(head: Arena, nh: int, t1: int, t2: int, ghost done: seq<int>, ghost grp: seq<int>, ghost rest: seq<int>)
    requires TakeRings(head.next, head.prev, nh, t1, t2, done, grp, rest) && rest != []
    modifies head`next, head`prev
    ensures TakeRings(head.next, head.prev, nh, t1, t2, done, [rest[0]] + grp, rest[1..])
    ensures |head.next| == old(|head.next|)
  {
    CutFirst(head, nh, t1, t2, done, grp, rest);
    SpliceFirst(head, nh, t1, t2, done, grp, rest);
  }

  /** A sequence cut into two pieces, the first of length k. */
  lemma SplitAt(a: seq<int>, b: seq<int>, s: seq<int>, k: int)
    requires a + b == s && |a| == k
    ensures a == s[..k] && b == s[k..]
  {
  }

  /** Reversal of a sequence grown at its back puts the new element in front. */
  lemma ReverseSnoc(s: seq<int>, x: int)
    ensures Reverse(s + [x]) == [x] + Reverse(s)
  {
  }

  /**
   * The state of q_reverseK's inner walk after taking the elements taken,
   * with count of the group left to take: node is the queue's first element
   * (or the sentinel) and safe its successor.
   */
  ghost predicate TakeState(next: seq<int>, prev: seq<int>, nh: int, t1: int, t2: int, done: seq<int>,
                            k: int, count: int, taken: seq<int>, r: seq<int>, node: int, safe: int)
  {
    && TakeRings(next, prev, nh, t1, t2, done, Reverse(taken), r)
    && count == k - |taken| >= 0
    && node == (if r != [] then r[0] else Head)
    && (r != [] ==> safe == if |r| > 1 then r[1] else Head)
  }

  /** One pass of the inner walk, with the walk's own bookkeeping: list_for_each_safe moves to safe. */
  method TakeStep(head: Arena, nh: int, t1: int, t2: int, ghost done: seq<int>, k: int, count: int,
                  ghost taken: seq<int>, ghost r: seq<int>, node: int, safe: int)
    returns (count': int, ghost taken': seq<int>, ghost r': seq<int>, node': int, safe': int)
    requires TakeState(head.next, head.prev, nh, t1, t2, done, k, count, taken, r, node, safe)
    requires node != Head && count != 0
    modifies head`next, head`prev
    ensures TakeState(head.next, head.prev, nh, t1, t2, done, k, count', taken', r', node', safe')
    ensures taken' + r' == taken + r && |r'| < |r|
    ensures |head.next| == old(|head.next|)
  {
    TakeOne(head, nh, t1, t2, done, Reverse(taken), r);
    ReverseSnoc(taken, r[0]);
    taken', r' := taken + [r[0]], r[1..];
    assert taken' + r' == taken + r by { ShiftFront(taken, r); }
    count' := count - 1;
    node' := safe;
    if r' != [] {
      assert head.next[r'[0]] == Succ(Head, r', 0);
    }
    safe' := head.next[node'];
  }

  /**
   * The inner list_for_each_safe loop of q_reverseK: while count is not
   * zero, the queue's first element moves to the front of temp2, so that
   * temp2 ends up holding the queue's first k elements reversed.
   */
  method TakeGroup(head: Arena, nh: int, t1: int, t2: int, ghost done: seq<int>, ghost rest: seq<int>, k: int)
    requires TakeRings(head.next, head.prev, nh, t1, t2, done, [], rest) && 1 <= k <= |rest|
    modifies head`next, head`prev
    ensures TakeRings(head.next, head.prev, nh, t1, t2, done, Reverse(rest[..k]), rest[k..])
    ensures |head.next| == old(|head.next|)
  {
    var count := k;
    ghost var taken, r := [], rest;
    var node := head.next[Head];
    assert head.next[rest[0]] == Succ(Head, rest, 0);
    var safe := head.next[node];
    assert TakeState(head.next, head.prev, nh, t1, t2, done, k, count, taken, r, node, safe);
    while node != Head && count != 0
      invariant TakeState(head.next, head.prev, nh, t1, t2, done, k, count, taken, r, node, safe)
      invariant |taken| <= k
      invariant taken + r == rest
      invariant |head.next| == old(|head.next|)
      decreases |r|
    {
      count, taken, r, node, safe := TakeStep(head, nh, t1, t2, done, k, count, taken, r, node, safe);
    }
    SplitAt(taken, r, rest, k);
  }

  /** LIST_HEAD(temp1), LIST_HEAD(temp2) at the start of a group: both become empty rings. */
  method StartGroup(head: Arena, nh: int, t1: int, t2: int, ghost done: seq<int>, ghost rest: seq<int>)
    requires GroupRings(head.next, head.prev, nh, t1, t2, done, rest)
    modifies head`next, head`prev
    ensures TakeRings(head.next, head.prev, nh, t1, t2, done, [], rest)
    ensures |head.next| == old(|head.next|)
  {
    ghost var n0, p0 := head.next, head.prev;
    head.InitListHead(t1);
    head.InitListHead(t2);
    RingFrame(n0, p0, head.next, head.prev, Head, rest);
    RingFrame(n0, p0, head.next, head.prev, nh, done);
  }


  /** The slots GroupRings keeps apart stay apart when a group joins the done part. */
  lemma JoinSeparation(nh: int, t1: int, t2: int, done: seq<int>, grp: seq<int>, rest: seq<int>)
    requires Apart(done, Head, t1, t2) && Avoids(grp, {Head, t1}) && t2 !in grp
    requires Disjoint(rest, done) && Disjoint(rest, grp)
    ensures Apart(done + grp, Head, t1, t2) && Disjoint(rest, done + grp)
  {
  }

  /** list_splice_tail(&temp2, &nhead): the reversed group goes behind the groups already done. */
  method EndGroup(head: Arena, nh: int, t1: int, t2: int, ghost done: seq<int>, ghost grp: seq<int>, ghost rest: seq<int>)
    requires TakeRings(head.next, head.prev, nh, t1, t2, done, grp, rest)
    modifies head`next, head`prev
    ensures GroupRings(head.next, head.prev, nh, t1, t2, done + grp, rest)
    ensures |head.next| == old(|head.next|)
  {
    ghost var n0, p0 := head.next, head.prev;
    head.ListSpliceTail(t2, nh, grp, done);
    JoinFrames(n0, p0, head.next, head.prev, nh, t1, t2, done, grp, rest);
  }

  /** What list_splice_tail(&temp2, &nhead) leaves of the rings TakeRings describes. */
  lemma JoinFrames(n0: seq<int>, p0: seq<int>, n1: seq<int>, p1: seq<int>, nh: int, t1: int, t2: int,
                   done: seq<int>, grp: seq<int>, rest: seq<int>)
    requires TakeRings(n0, p0, nh, t1, t2, done, grp, rest)
    requires IsRing(n1, p1, nh, done + grp)
    requires AgreeOutside(n0, p0, n1, p1, {nh, n0[t2], p0[t2], p0[nh]})
    ensures GroupRings(n1, p1, nh, t1, t2, done + grp, rest)
  {
    SpliceTouched(n0, p0, nh, t1, t2, done, grp, rest);
    RingUntouched(n0, p0, n1, p1, Head, rest, {nh, n0[t2], p0[t2], p0[nh]});
    JoinSeparation(nh, t1, t2, done, grp, rest);
  }

  /** The slots list_splice_tail(&temp2, &nhead) writes are neither the queue's head nor on it. */
  lemma SpliceTouched(n0: seq<int>, p0: seq<int>, nh: int, t1: int, t2: int,
                      done: seq<int>, grp: seq<int>, rest: seq<int>)
    requires TakeRings(n0, p0, nh, t1, t2, done, grp, rest)
    ensures Head !in {nh, n0[t2], p0[t2], p0[nh]} && Avoids(rest, {nh, n0[t2], p0[t2], p0[nh]})
  {
    assert grp != [] ==> grp[0] in grp && grp[|grp| - 1] in grp;
    assert done != [] ==> done[|done| - 1] in done;
  }

  /** The arithmetic of one more group of k: it fits, and b stays g groups of k. */
  lemma GroupArith(g: nat, left: int, k: int, b: int, n: int, g': nat, left': int, b': int)
    requires b == g * k && 1 <= left && 1 <= k && left * k <= n - b
    requires g' == g + 1 && left' == left - 1 && b' == b + k
    ensures b' <= n && b' == g' * k && 0 <= left' * k <= n - b'
  {
    MulStep(left, k);
    MulStep(g', k);
  }

  /**
   * The group of k after the first b = g * k elements of o is the front of
   * o[b..], and it comes reversed after the groups before it.
   */
  lemma GroupSlices(o: seq<int>, b: int, k: int, g: nat, b': int)
    requires 1 <= k && b == g * k && b' == b + k <= |o|
    ensures o[b..][k..] == o[b'..]
    ensures ReverseK(o[..b], k) + Reverse(o[b..][..k]) == ReverseK(o[..b'], k)
  {
    assert o[b..][..k] == o[b..b + k];
    ReverseKNextGroup(o, k, g, b);
  }

  /**
   * The state of q_reverseK's outer loop after g groups: the first b = g * k
   * elements of o are regrouped on nhead, the rest is still on the queue, and
   * left more groups fit in what remains.
   */
  ghost predicate GroupsState(next: seq<int>, prev: seq<int>, nh: int, t1: int, t2: int, o: seq<int>,
                              k: int, times: int, left: int, g: nat, b: int)
  {
    && 1 <= k && 0 <= left && g + left == times && b == g * k && 0 <= b <= |o| && left * k <= |o| - b
    && GroupRings(next, prev, nh, t1, t2, ReverseK(o[..b], k), o[b..])
  }

  /** One pass of the outer loop of q_reverseK: the next k elements are reversed and go behind nhead's. */
  method GroupStep(head: Arena, nh: int, t1: int, t2: int, ghost o: seq<int>, k: int, ghost times: int,
                   left: int, ghost g: nat, ghost b: int)
    returns (left': int, ghost g': nat, ghost b': int)
    requires GroupsState(head.next, head.prev, nh, t1, t2, o, k, times, left, g, b) && left != 0
    modifies head`next, head`prev
    ensures GroupsState(head.next, head.prev, nh, t1, t2, o, k, times, left', g', b') && left' < left
    ensures |head.next| == old(|head.next|)
  {
    left', g', b' := left - 1, g + 1, b + k;
    GroupArith(g, left, k, b, |o|, g', left', b');
    ghost var done := ReverseK(o[..b], k);
    StartGroup(head, nh, t1, t2, done, o[b..]);
    TakeGroup(head, nh, t1, t2, done, o[b..], k);
    EndGroup(head, nh, t1, t2, done, Reverse(o[b..][..k]), o[b..][k..]);
    GroupSlices(o, b, k, g, b');
    SameGroupRings(head.next, head.prev, nh, t1, t2, done + Reverse(o[b..][..k]), o[b..][k..], ReverseK(o[..b'], k), o[b'..]);
  }

  /** Before the first group: times = |o| / k groups of k fit in o, and none is done. */
  lemma GroupsStart(o: seq<int>, k: int, times: int)
    requires 1 <= k && times == |o| / k
    ensures 0 <= times && times * k <= |o| - 0 && 0 == 0 * k
    ensures [] == ReverseK(o[..0], k) && o == o[0..]
  {
  }

  /**
   * The outer while (times) loop of q_reverseK: each pass moves the queue's
   * next k elements, reversed, behind those on nhead.
   */
  method ReverseGroups(head: Arena, nh: int, t1: int, t2: int, ghost o: seq<int>, k: int, times: int)
    returns (ghost b: int)
    requires GroupRings(head.next, head.prev, nh, t1, t2, [], o) && 1 <= k && times == |o| / k
    modifies head`next, head`prev
    ensures b == times * k && 0 <= b <= |o| && ReverseK(o, k) == ReverseK(o[..b], k) + o[b..]
    ensures GroupRings(head.next, head.prev, nh, t1, t2, ReverseK(o[..b], k), o[b..])
    ensures |head.next| == old(|head.next|)
  {
    var left := times;
    ghost var g: nat := 0;
    b := 0;
    GroupsStart(o, k, times);
    SameGroupRings(head.next, head.prev, nh, t1, t2, [], o, ReverseK(o[..b], k), o[b..]);
    while left != 0
      invariant GroupsState(head.next, head.prev, nh, t1, t2, o, k, times, left, g, b)
      invariant |head.next| == old(|head.next|)
      decreases left
    {
      left, g, b := GroupStep(head, nh, t1, t2, o, k, times, left, g, b);
    }
    LastGroupsAt(o, k, times, b);
  }

  /**
   * The three list heads q_reverseK declares on its stack, as fresh arena
   * slots behind the queue's: nhead, temp1 and temp2 (the two temporaries
   * are declared anew, that is initialised again, for every group).
   */
  method NewGroupHeads(head: Arena, ghost o: seq<int>) returns (nh: int, t1: int, t2: int)
    requires IsRing(head.next, head.prev, Head, o) && |head.value| == |head.next|
    modifies head`next, head`prev, head`value
    ensures GroupRings(head.next, head.prev, nh, t1, t2, [], o)
    ensures |head.value| == |head.next| && head.value == old(head.value) + ["", "", ""]
  {
    ghost var v0 := head.value;
    AllocatedRings(head.next, head.prev, o);
    nh := head.NewListHead();
    t1 := head.NewListHead();
    t2 := head.NewListHead();
    assert head.value == v0 + ["", "", ""];
  }

  /** Three fresh self-linked slots behind the queue's are heads apart from it. */
  lemma AllocatedRings(next: seq<int>, prev: seq<int>, o: seq<int>)
    requires IsRing(next, prev, Head, o)
    ensures var n := |next|;
            GroupRings(next + [n] + [n + 1] + [n + 2], prev + [n] + [n + 1] + [n + 2], n, n + 1, n + 2, [], o)
  {
    var n := |next|;
    var next', prev' := next + [n] + [n + 1] + [n + 2], prev + [n] + [n + 1] + [n + 2];
    FreshSlots(next, prev);
    RingFrame(next, prev, next', prev', Head, o);
    assert IsRing(next', prev', n, []);
  }

  /** Three slots appended self-linked; the old ones keep their links. */
  lemma FreshSlots(next: seq<int>, prev: seq<int>)
    requires |prev| == |next|
    ensures var n := |next|; var next', prev' := next + [n] + [n + 1] + [n + 2], prev + [n] + [n + 1] + [n + 2];
            && |next'| == |prev'| == n + 3
            && next'[n] == prev'[n] == n && next'[n + 1] == prev'[n + 1] == n + 1 && next'[n + 2] == prev'[n + 2] == n + 2
            && (forall i :: 0 <= i < n ==> next'[i] == next[i] && prev'[i] == prev[i])
  {
  }

  /**
   * q_reverseK after its stack heads are set up: the while (times) loop,
   * then list_splice_init(&nhead, head) puts the regrouped elements back in
   * front of the fewer than k left on the queue.
   */
  method RegroupLinks(head: Arena, nh: int, t1: int, t2: int, ghost o: seq<int>, k: int, times: int)
    requires GroupRings(head.next, head.prev, nh, t1, t2, [], o) && 1 <= k && times == |o| / k
    modifies head`next, head`prev
    ensures IsRing(head.next, head.prev, Head, ReverseK(o, k))
    ensures |head.next| == old(|head.next|)
  {
    ghost var b := ReverseGroups(head, nh, t1, t2, o, k, times);
    SpliceBack(head, nh, t1, t2, ReverseK(o[..b], k), o[b..], ReverseK(o, k));
  }

  /** list_splice_init(&nhead, head): the groups done go back in front of what is left on the queue. */
  method SpliceBack(head: Arena, nh: int, t1: int, t2: int, ghost done: seq<int>, ghost rest: seq<int>, ghost whole: seq<int>)
    requires GroupRings(head.next, head.prev, nh, t1, t2, done, rest) && done + rest == whole
    modifies head`next, head`prev
    ensures IsRing(head.next, head.prev, Head, whole)
    ensures |head.next| == old(|head.next|)
  {
    GroupsDone(head.next, head.prev, nh, t1, t2, done, rest);
    head.ListSpliceInit(nh, Head, done, rest);
    SameRing(head.next, head.prev, Head, done + rest, whole);
  }

  /** Between groups, the queue and nhead are two rings apart from each other, ready to be spliced. */
  lemma GroupsDone(next: seq<int>, prev: seq<int>, nh: int, t1: int, t2: int, done: seq<int>, rest: seq<int>)
    requires GroupRings(next, prev, nh, t1, t2, done, rest)
    ensures TwoRings(next, prev, Head, rest, nh, done)
  {
  }

  /** After the last of the times = |o| / k full groups, the rest of o stays as it is. */
  lemma LastGroupsAt(o: seq<int>, k: int, times: int, b: int)
    requires 1 <= k && times == |o| / k && b == times * k
    ensures b <= |o| && ReverseK(o, k) == ReverseK(o[..b], k) + o[b..]
  {
    ReverseKLastGroups(o, k);
  }

  /** IsRing is about the sequence, not about how it is written. */
  lemma SameRing(next: seq<int>, prev: seq<int>, h: int, xs: seq<int>, ys: seq<int>)
    requires IsRing(next, prev, h, xs) && xs == ys
    ensures IsRing(next, prev, h, ys)
  {
  }

  /**
   * The strings of the regrouped queue, in an arena grown by three stack
   * heads: still NUL-free, and the original strings regrouped.
   */
  lemma RegroupedStrings(v0: seq<string>, vs: seq<string>, o: seq<int>, k: int)
    requires 1 <= k && |v0| <= |vs| && vs[..|v0|] == v0
    requires forall i {:trigger o[i]} :: 0 <= i < |o| ==> 0 <= o[i] < |v0| && NoNul(v0[o[i]])
    ensures forall i {:trigger ReverseK(o, k)[i]} :: 0 <= i < |o| ==> 0 <= ReverseK(o, k)[i] < |vs| && NoNul(vs[ReverseK(o, k)[i]])
    ensures Values(vs, ReverseK(o, k)) == ReverseK(Values(v0, o), k)
  {
    assert forall i :: 0 <= i < |o| ==> vs[o[i]] == v0[o[i]];
    ReverseKPermutes(o, k);
    PermutedNoNul(vs, o, ReverseK(o, k));
    ValuesReverseK(vs, o, k);
    ValuesGrow(v0, vs, o);
  }

  /** C's division of ints, which truncates toward zero (Dafny's / is Euclidean). */
  function CDiv(a: int, b: int): (r: int)
    requires b != 0
    ensures 0 <= a && 0 < b ==> r == a / b
    ensures 0 <= a < -b ==> r == 0
  {
    if 0 < b then
      (if 0 <= a then a / b else -((-a) / b))
    else
      (if 0 <= a then -(a / -b) else (-a) / (-b))
  }

  /**
   * q_reverseK: a NULL or empty queue is left alone, whatever k is;
   * otherwise the queue's elements are reversed in consecutive groups of k,
   * q_size / k of them, and the fewer than k elements after the last full
   * group keep their order. A negative k longer than the queue makes that
   * quotient 0, so no group is taken and the queue is left as it was.
   */
  method ReverseKQueue(head: Arena?, k: int)
    requires head != null ==> head.Valid()
    requires head != null && head.ids != [] ==> 1 <= k || |head.ids| < -k
    modifies head
    ensures head != null ==> head.Valid() && old(head.value) <= head.value
    ensures head != null && 1 <= k ==> head.ids == ReverseK(old(head.ids), k) && head.Contents() == ReverseK(old(head.Contents()), k)
    ensures head != null && k < 1 ==> head.ids == old(head.ids) && head.Contents() == old(head.Contents())
  {
    if head == null || head.ListEmpty(Head, head.ids) {
      return;
    }
    ghost var o, v0 := head.ids, head.value;
    var n := Size(head);
    var times := CDiv(n, k);
    var nh, t1, t2 := NewGroupHeads(head, o);
    if 1 <= k {
      RegroupLinks(head, nh, t1, t2, o, k, times);
      head.ids := ReverseK(o, k);
      RegroupedStrings(v0, head.value, o, k);
    } else {
      // times is 0: the while loop does not run, and nhead, still empty, is spliced back
      SpliceBack(head, nh, t1, t2, [], o, o);
      ReverseKOne(o);
      ReverseKOne(Values(v0, o));
      RegroupedStrings(v0, head.value, o, 1);
    }
  }

  /** Slots in SortedBy order carry strings in sorted order. */
  lemma SortedValues(vs: seq<string>, xs: seq<int>)
    requires SortedBy(vs, xs)
    ensures Sorted(Values(vs, xs))
  {
  }

  /** list_sort(NULL, head, cmpfunc): the queue in the stable ascending order of its strings. */
  method SortAscending(head: Arena)
    requires head.Valid()
    modifies head`next, head`prev, head`ids
    ensures head.Valid() && head.ids == Sort(head.value, old(head.ids))
    ensures multiset(head.Contents()) == multiset(old(head.Contents()))
    ensures Sorted(head.Contents())
  {
    ghost var xs := head.ids;
    ListSort.ListSort(head, xs);
    head.ids := Sort(head.value, xs);
    SortedState(head, xs);
  }

  /** The queue relinked in the order Sort gives its slots xs is valid, a reordering of xs's strings, and sorted. */
  lemma SortedState(a: Arena, xs: seq<int>)
    requires IsRing(a.next, a.prev, Head, a.ids) && |a.value| == |a.next|
    requires a.ids == Sort(a.value, xs) && Slots(|a.next|, Head, xs)
    requires forall i {:trigger a.value[xs[i]]} :: 0 <= i < |xs| ==> NoNul(a.value[xs[i]])
    ensures a.Valid()
    ensures multiset(a.Contents()) == multiset(Values(a.value, xs))
    ensures Sorted(a.Contents())
  {
    PermutedNoNul(a.value, xs, a.ids);
    SortSorted(a.value, xs);
    SortedValues(a.value, a.ids);
    ValuesPermuted(a.value, xs, a.ids);
  }

  /**
   * q_sort: list_sort with cmpfunc, then q_reverse when descend is set. The
   * elements end up in the stable ascending order of their strings, or in
   * the reverse of that order.
   */
  method QSort(head: Arena, descend: bool)
    requires head.Valid()
    modifies head
    ensures head.Valid() && head.value == old(head.value)
    ensures head.ids == if descend then Reverse(Sort(head.value, old(head.ids))) else Sort(head.value, old(head.ids))
    ensures multiset(head.Contents()) == multiset(old(head.Contents()))
    ensures !descend ==> Sorted(head.Contents())
    ensures descend ==> Sorted(Reverse(head.Contents()))
  {
    SortAscending(head);
    if descend {
      ghost var s := head.Contents();
      ReverseQueue(head);
      ReverseInvolutive(s);
      ReversePermutes(s);
    }
  }
}
