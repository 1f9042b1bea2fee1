/**
 * The pointer graph of list.h's struct list_head, over an arena: a link is a
 * slot id, `next[x]` and `prev[x]` are its two pointers and NULL is -1. This
 * module says when a slot is the head of a well-formed circular list holding
 * a given sequence of slots, and proves what each list.h pointer surgery does
 * to such rings.
 */
module Rings {
  import opened QueueSpec

  const NULL: int := -1

  /** No slot occurs twice in xs. */
  ghost predicate Distinct(xs: seq<int>)
  {
    forall i, j :: 0 <= i < j < |xs| ==> xs[i] != xs[j]
  }

  /** The link after xs[i] in the ring headed by h. */
  function Succ(h: int, xs: seq<int>, i: int): int
    requires 0 <= i < |xs|
  {
    if i + 1 < |xs| then xs[i + 1] else h
  }

  /** The link before xs[i] in the ring headed by h. */
  function Pred(h: int, xs: seq<int>, i: int): int
    requires 0 <= i < |xs|
  {
    if i > 0 then xs[i - 1] else h
  }

  /** Every slot of xs is a valid index of an arena of size n other than h. */
  ghost predicate Slots(n: int, h: int, xs: seq<int>)
  {
    forall i :: 0 <= i < |xs| ==> 0 <= xs[i] < n && xs[i] != h
  }

  /**
   * Slot h heads a circular doubly linked list holding exactly the slots xs,
   * in order from h.next round to h.prev; an empty ring is h pointing to
   * itself both ways.
   */
  ghost predicate IsRing(next: seq<int>, prev: seq<int>, h: int, xs: seq<int>)
  {
    && |prev| == |next|
    && 0 <= h < |next|
    && Slots(|next|, h, xs)
    && Distinct(xs)
    && next[h] == (if xs == [] then h else xs[0])
    && prev[h] == (if xs == [] then h else xs[|xs| - 1])
    && (forall i {:trigger next[xs[i]]} :: 0 <= i < |xs| ==> next[xs[i]] == Succ(h, xs, i))
    && (forall i {:trigger prev[xs[i]]} :: 0 <= i < |xs| ==> prev[xs[i]] == Pred(h, xs, i))
  }

  /**
   * Ring consistency: in a well-formed ring, every link's next points back to
   * it and so does every link's prev, and the ring is empty exactly when the
   * head points to itself both ways.
   */
  lemma RingConsistent(next: seq<int>, prev: seq<int>, h: int, xs: seq<int>)
    requires IsRing(next, prev, h, xs)
    ensures next[prev[h]] == h && prev[next[h]] == h
    ensures forall i :: 0 <= i < |xs| ==> next[prev[xs[i]]] == xs[i] && prev[next[xs[i]]] == xs[i]
    ensures xs == [] <==> next[h] == h == prev[h]
  {
    forall i | 0 <= i < |xs|
      ensures next[prev[xs[i]]] == xs[i] && prev[next[xs[i]]] == xs[i]
    {
      if i > 0 {
        assert next[xs[i - 1]] == Succ(h, xs, i - 1);
      }
      if i + 1 < |xs| {
        assert prev[xs[i + 1]] == Pred(h, xs, i + 1);
      }
    }
  }

  /** A ring depends only on the links of its head and its members. */
  lemma RingFrame(n1: seq<int>, p1: seq<int>, n2: seq<int>, p2: seq<int>, h: int, xs: seq<int>)
    requires IsRing(n1, p1, h, xs)
    requires |n2| == |p2| && |n1| <= |n2|
    requires n2[h] == n1[h] && p2[h] == p1[h]
    requires forall i :: 0 <= i < |xs| ==> n2[xs[i]] == n1[xs[i]] && p2[xs[i]] == p1[xs[i]]
    ensures IsRing(n2, p2, h, xs)
  {
  }

  /** A ring is left alone by writes to slots outside it. */
  lemma RingUntouched(n1: seq<int>, p1: seq<int>, n2: seq<int>, p2: seq<int>, h: int, xs: seq<int>, touched: set<int>)
    requires IsRing(n1, p1, h, xs)
    requires AgreeOutside(n1, p1, n2, p2, touched)
    requires h !in touched && Avoids(xs, touched)
    ensures IsRing(n2, p2, h, xs)
  {
  }

  /** xs with z inserted at index j. */
  function Insert(xs: seq<int>, j: int, z: int): (r: seq<int>)
    requires 0 <= j <= |xs|
    ensures |r| == |xs| + 1 && r[j] == z
    ensures forall i :: 0 <= i < j ==> r[i] == xs[i]
    ensures forall i :: j < i < |r| ==> r[i] == xs[i - 1]
  {
    seq(|xs| + 1, i requires 0 <= i <= |xs| => if i < j then xs[i] else if i == j then z else xs[i - 1])
  }

  /** Inserting at either end is prepending or appending. */
  lemma InsertEnds(xs: seq<int>, z: int)
    ensures Insert(xs, 0, z) == [z] + xs
    ensures Insert(xs, |xs|, z) == xs + [z]
  {
  }


  /**
   * __list_add(node, p, n) with p and n adjacent in the ring (p = the link at
   * index j-1 or the head, n = the link at index j or the head) sets
   * n.prev = node, node.next = n, node.prev = p, p.next = node: the ring then
   * holds node at index j.
   */
  lemma InsertDistinct(n: int, h: int, xs: seq<int>, j: int, node: int)
    requires Slots(n, h, xs) && Distinct(xs)
    requires 0 <= j <= |xs|
    requires 0 <= node < n && node != h
    requires forall i :: 0 <= i < |xs| ==> xs[i] != node
    ensures Slots(n, h, Insert(xs, j, node)) && Distinct(Insert(xs, j, node))
  {
    var ys := Insert(xs, j, node);
    forall a, b | 0 <= a < b < |ys| ensures ys[a] != ys[b] {
      var a' := if a < j then a else a - 1;
      var b' := if b < j then b else b - 1;
      if a != j && b != j {
        assert ys[a] == xs[a'] && ys[b] == xs[b'] && a' < b';
      }
    }
  }

  lemma LinkNexts(next: seq<int>, prev: seq<int>, h: int, xs: seq<int>, j: int, node: int, p: int, n: int)
    requires IsRing(next, prev, h, xs)
    requires 0 <= j <= |xs| && 0 <= node < |next| && node != h
    requires forall i :: 0 <= i < |xs| ==> xs[i] != node
    requires p == (if j == 0 then h else xs[j - 1]) && n == (if j == |xs| then h else xs[j])
    ensures var ys := Insert(xs, j, node);
            forall i :: 0 <= i < |ys| ==> next[p := node][node := n][ys[i]] == Succ(h, ys, i)
  {
    var next' := next[p := node][node := n];
    var ys := Insert(xs, j, node);
    forall i | 0 <= i < |ys|
      ensures next'[ys[i]] == Succ(h, ys, i)
    {
      if i < j - 1 {
        assert ys[i] == xs[i] != p;
        assert next'[ys[i]] == next[xs[i]] == Succ(h, xs, i);
      } else if i > j {
        assert ys[i] == xs[i - 1] != p;
        assert next'[ys[i]] == next[xs[i - 1]] == Succ(h, xs, i - 1);
      }
    }
  }

  lemma LinkPrevs(next: seq<int>, prev: seq<int>, h: int, xs: seq<int>, j: int, node: int, p: int, n: int)
    requires IsRing(next, prev, h, xs)
    requires 0 <= j <= |xs| && 0 <= node < |next| && node != h
    requires forall i :: 0 <= i < |xs| ==> xs[i] != node
    requires p == (if j == 0 then h else xs[j - 1]) && n == (if j == |xs| then h else xs[j])
    ensures var ys := Insert(xs, j, node);
            forall i :: 0 <= i < |ys| ==> prev[n := node][node := p][ys[i]] == Pred(h, ys, i)
  {
    var prev' := prev[n := node][node := p];
    var ys := Insert(xs, j, node);
    forall i | 0 <= i < |ys|
      ensures prev'[ys[i]] == Pred(h, ys, i)
    {
      if i < j {
        assert ys[i] == xs[i] != n;
        assert prev'[ys[i]] == prev[xs[i]] == Pred(h, xs, i);
      } else if i == j + 1 {
        assert ys[i] == n;
      } else if i > j + 1 {
        assert ys[i] == xs[i - 1] != n;
        assert prev'[ys[i]] == prev[xs[i - 1]] == Pred(h, xs, i - 1);
      }
    }
  }

  lemma {:induction false} LinkInRing(next: seq<int>, prev: seq<int>, h: int, xs: seq<int>, j: int, node: int, p: int, n: int)
    requires IsRing(next, prev, h, xs)
    requires 0 <= j <= |xs|
    requires 0 <= node < |next| && node != h
    requires forall i :: 0 <= i < |xs| ==> xs[i] != node
    requires p == (if j == 0 then h else xs[j - 1]) && n == (if j == |xs| then h else xs[j])
    ensures IsRing(next[p := node][node := n], prev[n := node][node := p], h, Insert(xs, j, node))
  {
    var ys := Insert(xs, j, node);
    var next', prev' := next[p := node][node := n], prev[n := node][node := p];
    InsertDistinct(|next|, h, xs, j, node);
    LinkNexts(next, prev, h, xs, j, node, p, n);
    LinkPrevs(next, prev, h, xs, j, node, p, n);
    assert next'[h] == ys[0] && prev'[h] == ys[|ys| - 1];
    assert IsRing(next', prev', h, ys);
  }

  /**
   * __list_del between the neighbours of xs[j] (prev.next = next,
   * next.prev = prev) takes xs[j] out of the ring and keeps the rest in order.
   */
  lemma DeleteDistinct(n: int, h: int, xs: seq<int>, j: int)
    requires Slots(n, h, xs) && Distinct(xs) && 0 <= j < |xs|
    ensures Slots(n, h, DeleteAt(xs, j)) && Distinct(DeleteAt(xs, j))
  {
    var ys := DeleteAt(xs, j);
    forall a, b | 0 <= a < b < |ys| ensures ys[a] != ys[b] {
      var a' := if a < j then a else a + 1;
      var b' := if b < j then b else b + 1;
      assert ys[a] == xs[a'] && ys[b] == xs[b'];
    }
  }

  lemma UnlinkNexts(next: seq<int>, prev: seq<int>, h: int, xs: seq<int>, j: int, p: int, n: int)
    requires IsRing(next, prev, h, xs) && 0 <= j < |xs|
    requires p == Pred(h, xs, j) && n == Succ(h, xs, j)
    ensures forall i :: 0 <= i < |xs| - 1 ==> next[p := n][DeleteAt(xs, j)[i]] == Succ(h, DeleteAt(xs, j), i)
  {
    var ys := DeleteAt(xs, j);
    forall i | 0 <= i < |ys| ensures next[p := n][ys[i]] == Succ(h, ys, i) {
      if i < j {
        assert next[xs[i]] == Succ(h, xs, i);
      } else {
        assert next[xs[i + 1]] == Succ(h, xs, i + 1);
      }
    }
  }

  lemma UnlinkPrevs(next: seq<int>, prev: seq<int>, h: int, xs: seq<int>, j: int, p: int, n: int)
    requires IsRing(next, prev, h, xs) && 0 <= j < |xs|
    requires p == Pred(h, xs, j) && n == Succ(h, xs, j)
    ensures forall i :: 0 <= i < |xs| - 1 ==> prev[n := p][DeleteAt(xs, j)[i]] == Pred(h, DeleteAt(xs, j), i)
  {
    var ys := DeleteAt(xs, j);
    forall i | 0 <= i < |ys| ensures prev[n := p][ys[i]] == Pred(h, ys, i) {
      if i < j {
        assert prev[xs[i]] == Pred(h, xs, i);
      } else {
        assert prev[xs[i + 1]] == Pred(h, xs, i + 1);
      }
    }
  }

  lemma UnlinkHead(next: seq<int>, prev: seq<int>, h: int, xs: seq<int>, j: int, p: int, n: int)
    requires IsRing(next, prev, h, xs) && 0 <= j < |xs|
    requires p == Pred(h, xs, j) && n == Succ(h, xs, j)
    ensures var ys := DeleteAt(xs, j);
            && next[p := n][h] == (if ys == [] then h else ys[0])
            && prev[n := p][h] == (if ys == [] then h else ys[|ys| - 1])
  {
    var ys := DeleteAt(xs, j);
    if j == 0 {
      assert p == h;
    } else {
      assert p == xs[j - 1] != h;
      assert ys[0] == xs[0];
    }
    if j == |xs| - 1 {
      assert n == h;
    } else {
      assert n == xs[j + 1] != h;
      assert ys[|ys| - 1] == xs[|xs| - 1];
    }
  }

  /**
   * __list_del between the neighbours p and n of xs[j] (p.next = n,
   * n.prev = p) takes xs[j] out of the ring and keeps the rest in order.
   */
  lemma {:induction false} UnlinkFromRing(next: seq<int>, prev: seq<int>, h: int, xs: seq<int>, j: int, p: int, n: int)
    requires IsRing(next, prev, h, xs) && 0 <= j < |xs|
    requires p == Pred(h, xs, j) && n == Succ(h, xs, j)
    ensures IsRing(next[p := n], prev[n := p], h, DeleteAt(xs, j))
  {
    var ys := DeleteAt(xs, j);
    var next', prev' := next[p := n], prev[n := p];
    DeleteDistinct(|next|, h, xs, j);
    UnlinkNexts(next, prev, h, xs, j, p, n);
    UnlinkPrevs(next, prev, h, xs, j, p, n);
    UnlinkHead(next, prev, h, xs, j, p, n);
    assert IsRing(next', prev', h, ys);
  }

  /** The slots of xs, as a set. */
  ghost function Elems(xs: seq<int>): set<int>
  {
    set x | x in xs
  }

  /** No slot of xs is in t. */
  ghost predicate Avoids(xs: seq<int>, t: set<int>)
  {
    forall i :: 0 <= i < |xs| ==> xs[i] !in t
  }

  /** No slot is in both xs and ys. */
  ghost predicate Disjoint(xs: seq<int>, ys: seq<int>)
  {
    forall i :: 0 <= i < |xs| ==> xs[i] !in ys
  }

  /**
   * (n2, p2) is (n1, p1) with at most the links of the slots in touched
   * rewritten.
   */
  ghost predicate AgreeOutside(n1: seq<int>, p1: seq<int>, n2: seq<int>, p2: seq<int>, touched: set<int>)
  {
    && |n2| == |n1| && |p2| == |p1|
    && forall x :: 0 <= x < |n1| && x < |p1| && x !in touched ==> n2[x] == n1[x] && p2[x] == p1[x]
  }

  /** Two rings of one arena that share no link. */
  ghost predicate TwoRings(next: seq<int>, prev: seq<int>, h1: int, xs: seq<int>, h2: int, ys: seq<int>)
  {
    && IsRing(next, prev, h1, xs)
    && IsRing(next, prev, h2, ys)
    && h1 != h2
    && (forall i :: 0 <= i < |ys| ==> ys[i] != h1)
    && (forall i :: 0 <= i < |xs| ==> xs[i] != h2)
    && Disjoint(xs, ys)
  }

  lemma ConcatDistinct(n: int, h: int, xs: seq<int>, ys: seq<int>)
    requires Slots(n, h, xs) && Slots(n, h, ys)
    requires Distinct(xs) && Distinct(ys) && Disjoint(xs, ys)
    ensures Slots(n, h, xs + ys) && Distinct(xs + ys)
  {
    var zs := xs + ys;
    forall a, b | 0 <= a < b < |zs| ensures zs[a] != zs[b] {
      if b < |xs| {
        assert zs[a] == xs[a] && zs[b] == xs[b];
      } else if a >= |xs| {
        assert zs[a] == ys[a - |xs|] && zs[b] == ys[b - |xs|];
      } else {
        assert zs[a] == xs[a] && zs[b] == ys[b - |xs|];
      }
    }
  }

  lemma SpliceNexts(next: seq<int>, prev: seq<int>, list: int, ys: seq<int>, head: int, xs: seq<int>)
    requires TwoRings(next, prev, head, xs, list, ys) && ys != []
    ensures var hf, lf, ll := next[head], ys[0], ys[|ys| - 1];
            var zs := ys + xs;
            forall i :: 0 <= i < |zs| ==> next[head := lf][ll := hf][zs[i]] == Succ(head, zs, i)
  {
    var hf, lf, ll := next[head], ys[0], ys[|ys| - 1];
    var next' := next[head := lf][ll := hf];
    var zs := ys + xs;
    forall i | 0 <= i < |zs|
      ensures next'[zs[i]] == Succ(head, zs, i)
    {
      if i < |ys| - 1 {
        assert zs[i] == ys[i] != ll;
        assert next'[zs[i]] == next[ys[i]] == Succ(list, ys, i);
      } else if i >= |ys| {
        var k := i - |ys|;
        assert zs[i] == xs[k] != ll;
        assert next'[zs[i]] == next[xs[k]] == Succ(head, xs, k);
      }
    }
  }

  lemma SplicePrevs(next: seq<int>, prev: seq<int>, list: int, ys: seq<int>, head: int, xs: seq<int>)
    requires TwoRings(next, prev, head, xs, list, ys) && ys != []
    ensures var hf, lf, ll := next[head], ys[0], ys[|ys| - 1];
            var zs := ys + xs;
            forall i :: 0 <= i < |zs| ==> prev[lf := head][hf := ll][zs[i]] == Pred(head, zs, i)
  {
    var hf, lf, ll := next[head], ys[0], ys[|ys| - 1];
    var prev' := prev[lf := head][hf := ll];
    var zs := ys + xs;
    forall i | 0 <= i < |zs|
      ensures prev'[zs[i]] == Pred(head, zs, i)
    {
      if 0 < i < |ys| {
        assert zs[i] == ys[i] != lf;
        assert ys[i] != hf;
        assert prev'[zs[i]] == prev[ys[i]] == Pred(list, ys, i);
      } else if i > |ys| {
        var k := i - |ys|;
        assert zs[i] == xs[k] != hf;
        assert xs[k] != lf;
        assert prev'[zs[i]] == prev[xs[k]] == Pred(head, xs, k);
      }
    }
  }

  /**
   * list_splice(list, head) on a non-empty list: head.next = list.first,
   * list.first.prev = head, list.last.next = old head.next and back. Head's
   * ring then holds list's links followed by its own.
   */
  lemma SpliceRing(next: seq<int>, prev: seq<int>, list: int, ys: seq<int>, head: int, xs: seq<int>)
    requires TwoRings(next, prev, head, xs, list, ys) && ys != []
    ensures var hf, lf, ll := next[head], ys[0], ys[|ys| - 1];
            IsRing(next[head := lf][ll := hf], prev[lf := head][hf := ll], head, ys + xs)
  {
    var hf, lf, ll := next[head], ys[0], ys[|ys| - 1];
    var next', prev', zs := next[head := lf][ll := hf], prev[lf := head][hf := ll], ys + xs;
    ConcatDistinct(|next|, head, ys, xs);
    SpliceNexts(next, prev, list, ys, head, xs);
    SplicePrevs(next, prev, list, ys, head, xs);
    assert next'[head] == zs[0] by {
      assert ll != head;
    }
    assert prev'[head] == zs[|zs| - 1] by {
      if xs == [] {
        assert hf == head;
      } else {
        assert hf == xs[0] != head && lf != head;
      }
    }
    assert IsRing(next', prev', head, zs);
  }

  lemma SpliceTailNexts(next: seq<int>, prev: seq<int>, list: int, ys: seq<int>, head: int, xs: seq<int>)
    requires TwoRings(next, prev, head, xs, list, ys) && ys != []
    ensures var hl, lf, ll := prev[head], ys[0], ys[|ys| - 1];
            var zs := xs + ys;
            forall i :: 0 <= i < |zs| ==> next[ll := head][hl := lf][zs[i]] == Succ(head, zs, i)
  {
    var hl, lf, ll := prev[head], ys[0], ys[|ys| - 1];
    var next' := next[ll := head][hl := lf];
    var zs := xs + ys;
    forall i | 0 <= i < |zs|
      ensures next'[zs[i]] == Succ(head, zs, i)
    {
      if i < |xs| - 1 {
        assert zs[i] == xs[i] != hl;
        assert xs[i] != ll;
        assert next'[zs[i]] == next[xs[i]] == Succ(head, xs, i);
      } else if |xs| <= i < |zs| - 1 {
        var k := i - |xs|;
        assert zs[i] == ys[k] != ll;
        assert ys[k] != hl;
        assert next'[zs[i]] == next[ys[k]] == Succ(list, ys, k);
      }
    }
  }

  lemma SpliceTailPrevs(next: seq<int>, prev: seq<int>, list: int, ys: seq<int>, head: int, xs: seq<int>)
    requires TwoRings(next, prev, head, xs, list, ys) && ys != []
    ensures var hl, lf, ll := prev[head], ys[0], ys[|ys| - 1];
            var zs := xs + ys;
            forall i :: 0 <= i < |zs| ==> prev[head := ll][lf := hl][zs[i]] == Pred(head, zs, i)
  {
    var hl, lf, ll := prev[head], ys[0], ys[|ys| - 1];
    var prev' := prev[head := ll][lf := hl];
    var zs := xs + ys;
    forall i | 0 <= i < |zs|
      ensures prev'[zs[i]] == Pred(head, zs, i)
    {
      if i < |xs| {
        assert zs[i] == xs[i] != lf;
        assert prev'[zs[i]] == prev[xs[i]] == Pred(head, xs, i);
      } else if i > |xs| {
        var k := i - |xs|;
        assert zs[i] == ys[k] != lf;
        assert prev'[zs[i]] == prev[ys[k]] == Pred(list, ys, k);
      }
    }
  }

  /**
   * list_splice_tail(list, head) on a non-empty list: head.prev = list.last,
   * list.last.next = head, list.first.prev = old head.prev and forward. Head's
   * ring then holds its own links followed by list's.
   */
  lemma SpliceTailRing(next: seq<int>, prev: seq<int>, list: int, ys: seq<int>, head: int, xs: seq<int>)
    requires TwoRings(next, prev, head, xs, list, ys) && ys != []
    ensures var hl, lf, ll := prev[head], ys[0], ys[|ys| - 1];
            IsRing(next[ll := head][hl := lf], prev[head := ll][lf := hl], head, xs + ys)
  {
    var hl, lf, ll := prev[head], ys[0], ys[|ys| - 1];
    var next', prev', zs := next[ll := head][hl := lf], prev[head := ll][lf := hl], xs + ys;
    ConcatDistinct(|next|, head, xs, ys);
    SpliceTailNexts(next, prev, list, ys, head, xs);
    SpliceTailPrevs(next, prev, list, ys, head, xs);
    assert prev'[head] == zs[|zs| - 1] by {
      assert lf != head;
    }
    assert next'[head] == zs[0] by {
      if xs == [] {
        assert hl == head;
      } else {
        assert hl == xs[|xs| - 1] != head && ll != head;
      }
    }
    assert IsRing(next', prev', head, zs);
  }

  lemma CutNexts(next: seq<int>, prev: seq<int>, ht: int, hf: int, xs: seq<int>, j: int)
    requires IsRing(next, prev, hf, xs) && 0 <= j < |xs|
    requires 0 <= ht < |next| && ht != hf && forall i :: 0 <= i < |xs| ==> xs[i] != ht
    ensures var node, first, rest := xs[j], xs[0], next[xs[j]];
            var next' := next[hf := rest][node := ht][ht := first];
            && (forall i :: 0 <= i <= j ==> next'[xs[i]] == Succ(ht, xs[..j + 1], i))
            && (forall i :: j < i < |xs| ==> next'[xs[i]] == Succ(hf, xs[j + 1..], i - j - 1))
  {
    var node, first, rest := xs[j], xs[0], next[xs[j]];
    var next' := next[hf := rest][node := ht][ht := first];
    forall i | 0 <= i < j
      ensures next'[xs[i]] == Succ(ht, xs[..j + 1], i)
    {
      assert xs[i] != node;
      assert next'[xs[i]] == next[xs[i]] == Succ(hf, xs, i);
    }
    forall i | j < i < |xs|
      ensures next'[xs[i]] == Succ(hf, xs[j + 1..], i - j - 1)
    {
      assert xs[i] != node;
      assert next'[xs[i]] == next[xs[i]] == Succ(hf, xs, i);
    }
  }

  lemma CutPrevs(next: seq<int>, prev: seq<int>, ht: int, hf: int, xs: seq<int>, j: int)
    requires IsRing(next, prev, hf, xs) && 0 <= j < |xs|
    requires 0 <= ht < |next| && ht != hf && forall i :: 0 <= i < |xs| ==> xs[i] != ht
    ensures var node, first, rest := xs[j], xs[0], next[xs[j]];
            var prev' := prev[rest := hf][ht := node][first := ht];
            && (forall i :: 0 <= i <= j ==> prev'[xs[i]] == Pred(ht, xs[..j + 1], i))
            && (forall i :: j < i < |xs| ==> prev'[xs[i]] == Pred(hf, xs[j + 1..], i - j - 1))
  {
    var node, first, rest := xs[j], xs[0], next[xs[j]];
    var prev' := prev[rest := hf][ht := node][first := ht];
    assert rest == Succ(hf, xs, j);
    forall i | 0 < i <= j
      ensures prev'[xs[i]] == Pred(ht, xs[..j + 1], i)
    {
      assert xs[i] != first && xs[i] != rest;
      assert prev'[xs[i]] == prev[xs[i]] == Pred(hf, xs, i);
    }
    forall i | j + 1 < i < |xs|
      ensures prev'[xs[i]] == Pred(hf, xs[j + 1..], i - j - 1)
    {
      assert xs[i] != first && xs[i] != rest;
      assert prev'[xs[i]] == prev[xs[i]] == Pred(hf, xs, i);
    }
  }

  lemma CutFront(next: seq<int>, prev: seq<int>, ht: int, hf: int, xs: seq<int>, j: int)
    requires IsRing(next, prev, hf, xs) && 0 <= j < |xs|
    requires 0 <= ht < |next| && ht != hf && forall i :: 0 <= i < |xs| ==> xs[i] != ht
    ensures var node, first, rest := xs[j], xs[0], next[xs[j]];
            IsRing(next[hf := rest][node := ht][ht := first], prev[rest := hf][ht := node][first := ht], ht, xs[..j + 1])
  {
    CutNexts(next, prev, ht, hf, xs, j);
    CutPrevs(next, prev, ht, hf, xs, j);
    var node, first, rest := xs[j], xs[0], next[xs[j]];
    var next' := next[hf := rest][node := ht][ht := first];
    var prev' := prev[rest := hf][ht := node][first := ht];
    var a := xs[..j + 1];
    forall i | 0 <= i < |a| ensures next'[a[i]] == Succ(ht, a, i) && prev'[a[i]] == Pred(ht, a, i) {
      assert a[i] == xs[i];
    }
    assert Distinct(a) && Slots(|next|, ht, a);
    assert next'[ht] == a[0] && prev'[ht] == a[|a| - 1];
  }

  lemma CutBackLinks(next: seq<int>, prev: seq<int>, ht: int, hf: int, xs: seq<int>, j: int)
    requires IsRing(next, prev, hf, xs) && 0 <= j < |xs|
    requires 0 <= ht < |next| && ht != hf && forall i :: 0 <= i < |xs| ==> xs[i] != ht
    ensures var node, first, rest := xs[j], xs[0], next[xs[j]];
            var next' := next[hf := rest][node := ht][ht := first];
            var prev' := prev[rest := hf][ht := node][first := ht];
            var b := xs[j + 1..];
            forall i :: 0 <= i < |b| ==> next'[b[i]] == Succ(hf, b, i) && prev'[b[i]] == Pred(hf, b, i)
  {
    var node, first, rest := xs[j], xs[0], next[xs[j]];
    var next' := next[hf := rest][node := ht][ht := first];
    var prev' := prev[rest := hf][ht := node][first := ht];
    var b := xs[j + 1..];
    assert rest == Succ(hf, xs, j);
    forall i | 0 <= i < |b| ensures next'[b[i]] == Succ(hf, b, i) && prev'[b[i]] == Pred(hf, b, i) {
      var x := b[i];
      assert x == xs[i + j + 1] && x != node && x != first;
      assert next'[x] == next[x] == Succ(hf, xs, i + j + 1);
      if i > 0 {
        assert x != rest;
        assert prev'[x] == prev[x] == Pred(hf, xs, i + j + 1);
      }
    }
  }

  lemma CutBack(next: seq<int>, prev: seq<int>, ht: int, hf: int, xs: seq<int>, j: int)
    requires IsRing(next, prev, hf, xs) && 0 <= j < |xs|
    requires 0 <= ht < |next| && ht != hf && forall i :: 0 <= i < |xs| ==> xs[i] != ht
    ensures var node, first, rest := xs[j], xs[0], next[xs[j]];
            IsRing(next[hf := rest][node := ht][ht := first], prev[rest := hf][ht := node][first := ht], hf, xs[j + 1..])
  {
    var node, first, rest := xs[j], xs[0], next[xs[j]];
    var next' := next[hf := rest][node := ht][ht := first];
    var prev' := prev[rest := hf][ht := node][first := ht];
    var b := xs[j + 1..];
    assert rest == Succ(hf, xs, j);
    assert next'[hf] == (if b == [] then hf else b[0]);
    assert prev'[hf] == (if b == [] then hf else b[|b| - 1]);
    CutBackLinks(next, prev, ht, hf, xs, j);
    SliceDistinct(|next|, hf, xs, j + 1);
  }

  lemma SliceDistinct(n: int, h: int, xs: seq<int>, k: int)
    requires Slots(n, h, xs) && Distinct(xs) && 0 <= k <= |xs|
    ensures Slots(n, h, xs[k..]) && Distinct(xs[k..])
    ensures Slots(n, h, xs[..k]) && Distinct(xs[..k])
  {
    var b := xs[k..];
    forall p, q | 0 <= p < q < |b| ensures b[p] != b[q] {
      assert b[p] == xs[p + k] && b[q] == xs[q + k];
    }
  }

  /**
   * list_cut_position(ht, hf, xs[j]) on a non-empty ring: hf.next =
   * xs[j].next, its prev back to hf, ht.prev = xs[j], xs[j].next = ht,
   * ht.next = the old first link and its prev = ht. The links up to and
   * including xs[j] move to ht's ring; the rest stay in hf's.
   */
  lemma CutRing(next: seq<int>, prev: seq<int>, ht: int, hf: int, xs: seq<int>, j: int)
    requires IsRing(next, prev, hf, xs) && 0 <= j < |xs|
    requires 0 <= ht < |next| && ht != hf && forall i :: 0 <= i < |xs| ==> xs[i] != ht
    ensures var node, first, rest := xs[j], xs[0], next[xs[j]];
            var next' := next[hf := rest][node := ht][ht := first];
            var prev' := prev[rest := hf][ht := node][first := ht];
            IsRing(next', prev', ht, xs[..j + 1]) && IsRing(next', prev', hf, xs[j + 1..])
  {
    CutFront(next, prev, ht, hf, xs, j);
    CutBack(next, prev, ht, hf, xs, j);
  }

  /**
   * Exchanging next and prev in every link of a ring, the head included,
   * yields the ring of the same links in reverse order.
   */
  lemma ReversedRing(next: seq<int>, prev: seq<int>, next': seq<int>, prev': seq<int>, h: int, xs: seq<int>)
    requires IsRing(next, prev, h, xs)
    requires |next'| == |prev'| == |next|
    requires next'[h] == prev[h] && prev'[h] == next[h]
    requires forall i :: 0 <= i < |xs| ==> next'[xs[i]] == prev[xs[i]] && prev'[xs[i]] == next[xs[i]]
    ensures IsRing(next', prev', h, Reverse(xs))
  {
    var ys := Reverse(xs);
    var n := |xs|;
    forall i | 0 <= i < n
      ensures next'[ys[i]] == Succ(h, ys, i) && prev'[ys[i]] == Pred(h, ys, i)
    {
      assert next[xs[n - 1 - i]] == Succ(h, xs, n - 1 - i);
      assert prev[xs[n - 1 - i]] == Pred(h, xs, n - 1 - i);
    }
    forall a, b | 0 <= a < b < n ensures ys[a] != ys[b] {
      assert xs[n - 1 - b] != xs[n - 1 - a];
    }
  }

  /** s with the entry of each of the slots xs[..k] replaced by that slot's entry in src (out-of-range slots are skipped). */
  function Overwrite(s: seq<int>, src: seq<int>, xs: seq<int>, k: nat): (r: seq<int>)
    requires k <= |xs| && |src| == |s|
    ensures |r| == |s|
  {
    if k == 0 then s
    else
      var r := Overwrite(s, src, xs, k - 1);
      if 0 <= xs[k - 1] < |r| then r[xs[k - 1] := src[xs[k - 1]]] else r
  }

  /**
   * With distinct slots, Overwrite has taken src's entries at xs[..k] and
   * left every other entry (the later slots and any slot not in xs) alone.
   */
  lemma {:induction false} OverwriteAt(s: seq<int>, src: seq<int>, xs: seq<int>, k: nat, h: int)
    requires k <= |xs| && |src| == |s| && Slots(|s|, h, xs) && Distinct(xs) && 0 <= h < |s|
    ensures var r := Overwrite(s, src, xs, k);
      && r[h] == s[h]
      && (forall i :: 0 <= i < k ==> r[xs[i]] == src[xs[i]])
      && (forall i :: k <= i < |xs| ==> r[xs[i]] == s[xs[i]])
  {
    if k > 0 {
      OverwriteAt(s, src, xs, k - 1, h);
    }
  }

  /** Writes to two different slots can be done in either order. */
  lemma UpdatesCommute(s: seq<int>, a: int, x: int, b: int, y: int)
    requires 0 <= a < |s| && 0 <= b < |s| && a != b
    ensures s[a := x][b := y] == s[b := y][a := x]
  {
  }

  /** Rewriting at most the slots of t1 rewrites at most those of any t2 containing t1. */
  lemma AgreeWiden(n1: seq<int>, p1: seq<int>, n2: seq<int>, p2: seq<int>, t1: set<int>, t2: set<int>)
    requires AgreeOutside(n1, p1, n2, p2, t1)
    requires t1 <= t2
    ensures AgreeOutside(n1, p1, n2, p2, t2)
  {
  }

  /** Two rewrites of at most the slots of t together rewrite at most those. */
  lemma AgreeCompose(n1: seq<int>, p1: seq<int>, n2: seq<int>, p2: seq<int>, n3: seq<int>, p3: seq<int>, t: set<int>)
    requires AgreeOutside(n1, p1, n2, p2, t) && AgreeOutside(n2, p2, n3, p3, t)
    ensures AgreeOutside(n1, p1, n3, p3, t)
  {
  }

  /** Two writes to next and two to prev rewrite at most the slots written. */
  lemma WritesAgree(n1: seq<int>, p1: seq<int>, a: int, x: int, b: int, y: int, c: int, z: int, d: int, w: int, t: set<int>)
    requires |n1| == |p1| && 0 <= a < |n1| && 0 <= b < |n1| && 0 <= c < |n1| && 0 <= d < |n1|
    requires a in t && b in t && c in t && d in t
    ensures AgreeOutside(n1, p1, n1[a := x][b := y], p1[c := z][d := w], t)
  {
  }

  /** One write to next and one to prev rewrite at most the slots written. */
  lemma WriteAgrees(n1: seq<int>, p1: seq<int>, a: int, x: int, c: int, z: int, t: set<int>)
    requires |n1| == |p1| && 0 <= a < |n1| && 0 <= c < |n1|
    requires a in t && c in t
    ensures AgreeOutside(n1, p1, n1[a := x], p1[c := z], t)
  {
  }

  /** Three writes to next and three to prev rewrite at most the slots written. */
  lemma ThreeWritesAgree(n1: seq<int>, p1: seq<int>, a: int, x: int, b: int, y: int, e: int, u: int,
                         c: int, z: int, d: int, w: int, f: int, v: int, t: set<int>)
    requires |n1| == |p1| && 0 <= a < |n1| && 0 <= b < |n1| && 0 <= e < |n1|
    requires 0 <= c < |n1| && 0 <= d < |n1| && 0 <= f < |n1|
    requires a in t && b in t && e in t && c in t && d in t && f in t
    ensures AgreeOutside(n1, p1, n1[a := x][b := y][e := u], p1[c := z][d := w][f := v], t)
  {
  }

  /**
   * The slots list_move(xs[j], pos) writes all belong to the ring: the two
   * neighbours of xs[j], pos and the link after pos once xs[j] is out.
   */
  lemma MoveTouches(next: seq<int>, prev: seq<int>, h: int, xs: seq<int>, j: int, k: int, pos: int)
    requires IsRing(next, prev, h, xs) && 0 <= j < |xs| && 0 <= k < |xs|
    requires pos == if k == 0 then h else DeleteAt(xs, j)[k - 1]
    ensures var t := {h} + Elems(xs);
            var ys := DeleteAt(xs, j);
            && prev[xs[j]] in t && next[xs[j]] in t && xs[j] in t && pos in t
            && (if k == |ys| then h else ys[k]) in t
            && xs[j] !in ys
  {
    var ys := DeleteAt(xs, j);
    if j > 0 { assert xs[j - 1] in xs; }
    if j + 1 < |xs| { assert xs[j + 1] in xs; }
    assert xs[j] in xs;
    if k > 0 { assert ys[k - 1] == (if k - 1 < j then xs[k - 1] else xs[k]); }
    if k < |ys| { assert ys[k] == (if k < j then xs[k] else xs[k + 1]); }
    forall i | 0 <= i < |ys| ensures ys[i] != xs[j] {
      if i < j { assert xs[i] != xs[j]; } else { assert xs[i + 1] != xs[j]; }
    }
  }

  /** A rewrite of the slots a, b followed by one of c, d, e rewrites at most the slots of any t holding all five. */
  lemma AgreeChain(n0: seq<int>, p0: seq<int>, n1: seq<int>, p1: seq<int>, n2: seq<int>, p2: seq<int>,
                   a: int, b: int, c: int, d: int, e: int, t: set<int>)
    requires AgreeOutside(n0, p0, n1, p1, {a, b}) && AgreeOutside(n1, p1, n2, p2, {c, d, e})
    requires a in t && b in t && c in t && d in t && e in t
    ensures AgreeOutside(n0, p0, n2, p2, t)
  {
  }
}
