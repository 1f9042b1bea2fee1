/**
 * The three C library string routines queue.c relies on, over strings whose
 * characters stand for bytes: strdup (CStr), strcmp (Compare) and strncpy
 * (StrNCopy). A C string ends at its first NUL character.
 */
module CStrings {

  const NUL: char := '\0'

  /** s holds no NUL, so as a C string it is exactly s. */
  predicate NoNul(s: string)
  {
    forall i :: 0 <= i < |s| ==> s[i] != NUL
  }

  /**
   * The C string stored at s: its characters up to, not including, the
   * first NUL. strdup(s) copies exactly these.
   */
  function CStr(s: string): (r: string)
    ensures |r| <= |s| && r == s[..|r|]
    ensures NoNul(r)
    ensures |r| < |s| ==> s[|r|] == NUL
  {
    if s == [] || s[0] == NUL then [] else [s[0]] + CStr(s[1..])
  }

  lemma CStrOfNoNul(s: string)
    requires NoNul(s)
    ensures CStr(s) == s
  {
  }

  /**
   * strcmp: lexicographic comparison by character code (the C library
   * compares as unsigned char). Only the sign is specified by C, and queue.c
   * only looks at the sign, so the result is -1, 0 or 1. The values queue.c
   * compares are NUL-free, so no NUL truncation happens here.
   */
  function Compare(a: string, b: string): (r: int)
    ensures -1 <= r <= 1
  {
    if a == [] then (if b == [] then 0 else -1)
    else if b == [] then 1
    else if a[0] < b[0] then -1
    else if b[0] < a[0] then 1
    else Compare(a[1..], b[1..])
  }

  /** a sorts before b or equal to it: strcmp(a, b) <= 0 */
  predicate Le(a: string, b: string)
  {
    Compare(a, b) <= 0
  }

  /** strcmp(a, b) == 0 exactly when the strings are equal. */
  lemma {:induction false} CompareZero(a: string, b: string)
    ensures Compare(a, b) == 0 <==> a == b
  {
    if a != [] && b != [] && a[0] == b[0] {
      CompareZero(a[1..], b[1..]);
      assert a == [a[0]] + a[1..] && b == [b[0]] + b[1..];
    }
  }

  /** Swapping the arguments of strcmp flips its sign. */
  lemma {:induction false} CompareAntisymmetric(a: string, b: string)
    ensures Compare(b, a) == -Compare(a, b)
  {
    if a != [] && b != [] && a[0] == b[0] {
      CompareAntisymmetric(a[1..], b[1..]);
    }
  }

  lemma {:induction false} CompareTransitive(a: string, b: string, c: string)
    requires Le(a, b) && Le(b, c)
    ensures Le(a, c)
  {
    if a != [] && b != [] && c != [] && a[0] == b[0] == c[0] {
      CompareTransitive(a[1..], b[1..], c[1..]);
    }
  }

  /** Le is a total order on strings: total, antisymmetric and transitive. */
  lemma LeTotalOrder(a: string, b: string, c: string)
    ensures Le(a, b) || Le(b, a)
    ensures Le(a, b) && Le(b, a) ==> a == b
    ensures Le(a, b) && Le(b, c) ==> Le(a, c)
  {
    CompareAntisymmetric(a, b);
    CompareZero(a, b);
    if Le(a, b) && Le(b, c) {
      CompareTransitive(a, b, c);
    }
  }

  /** a strictly below b and b at most c puts a strictly below c. */
  lemma LtLe(a: string, b: string, c: string)
    requires Compare(a, b) < 0 && Le(b, c)
    ensures Compare(a, c) < 0
  {
    CompareTransitive(a, b, c);
    CompareZero(a, c);
    CompareAntisymmetric(a, b);
  }

  /**
   * strncpy(dst, src, n): copies the C string at src into dst[..n], stopping
   * after n characters, and fills the rest of dst[..n] with NUL.
   */
  method StrNCopy(dst: array<char>, src: string, n: nat)
    requires n <= dst.Length
    modifies dst
    ensures forall i :: 0 <= i < n ==> dst[i] == if i < |CStr(src)| then src[i] else NUL
    ensures forall i :: n <= i < dst.Length ==> dst[i] == old(dst[i])
  {
    var i := 0;
    while i < n && i < |src| && src[i] != NUL
      invariant i <= n && i <= |CStr(src)|
      invariant forall j :: 0 <= j < i ==> dst[j] == src[j]
      invariant forall j :: n <= j < dst.Length ==> dst[j] == old(dst[j])
    {
      dst[i] := src[i];
      i := i + 1;
    }
    while i < n
      invariant i <= n
      invariant forall j :: 0 <= j < i ==> dst[j] == if j < |CStr(src)| then src[j] else NUL
      invariant forall j :: n <= j < dst.Length ==> dst[j] == old(dst[j])
    {
      dst[i] := NUL;
      i := i + 1;
    }
  }

  /**
   * A buffer filled as q_remove_head/q_remove_tail fill sp (the first
   * bufsize-1 characters of v, NUL padding, a NUL in the last slot) holds, as
   * a C string, the longest prefix of v that fits.
   */
  lemma {:induction false} CopiedPrefix(buf: string, v: string)
    requires |buf| >= 1 && NoNul(v)
    requires forall i :: 0 <= i < |buf| ==> buf[i] == if i < |v| && i < |buf| - 1 then v[i] else NUL
    ensures CStr(buf) == v[..if |v| < |buf| - 1 then |v| else |buf| - 1]
  {
    var m := if |v| < |buf| - 1 then |v| else |buf| - 1;
    var r := CStr(buf);
    assert buf[m] == NUL;
  }
}
