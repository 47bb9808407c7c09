/** NUL-terminated strings and their comparison.  A C string is the sequence of characters
    in front of its terminator; reading index |s| yields the terminator. */
module CStrings {

  const NUL := '\0'

  ghost predicate IsCString(s: string) {
    NUL !in s
  }

  type CString = s: string | IsCString(s) witness ""

  function At(s: string, i: nat): char
    requires i <= |s|
  {
    if i < |s| then s[i] else NUL
  }

  /** The first n characters, or all of a shorter string. */
  function Truncated(s: string, n: nat): (t: string)
    ensures t <= s && |t| <= n && (t == s || |t| == n)
  {
    if n < |s| then s[..n] else s
  }

  // ----- The order that comparison decides

  ghost predicate Agree<T>(s: seq<T>, t: seq<T>, k: int) {
    0 <= k <= |s| && k <= |t| && forall i | 0 <= i < k :: s[i] == t[i]
  }

  function CommonPrefix<T(==)>(s: seq<T>, t: seq<T>): (k: nat)
    ensures Agree(s, t, k)
    ensures k < |s| && k < |t| ==> s[k] != t[k]
  {
    if s != [] && t != [] && s[0] == t[0] then 1 + CommonPrefix(s[1..], t[1..]) else 0
  }

  /** The strings part at k, and there s comes first: it ends, or has the smaller character. */
  ghost predicate PartsAt(s: string, t: string, k: int) {
    Agree(s, t, k) && k < |t| && (k == |s| || s[k] < t[k])
  }

  /** The lexicographic order on unsigned bytes. */
  ghost predicate Precedes(s: string, t: string) {
    exists k :: PartsAt(s, t, k)
  }

  /** The difference of the two characters where the strings part. */
  function Difference(s: string, t: string): int {
    var k := CommonPrefix(s, t);
    At(s, k) as int - At(t, k) as int
  }

  lemma CommonPrefixUnique<T>(s: seq<T>, t: seq<T>, k: nat)
    requires Agree(s, t, k)
    requires k < |s| && k < |t| ==> s[k] != t[k]
    ensures CommonPrefix(s, t) == k
  {
    assert Agree(s, t, CommonPrefix(s, t));
  }

  lemma DifferenceDecides(s: string, t: string)
    requires IsCString(s) && IsCString(t)
    ensures Difference(s, t) < 0 <==> Precedes(s, t)
    ensures Difference(s, t) > 0 <==> Precedes(t, s)
    ensures Difference(s, t) == 0 <==> s == t
  {
    var k := CommonPrefix(s, t);
    if Difference(s, t) < 0 {
      assert PartsAt(s, t, k);
    } else if Difference(s, t) > 0 {
      assert PartsAt(t, s, k);
    }
    if Precedes(s, t) {
      var j :| PartsAt(s, t, j);
      CommonPrefixUnique(s, t, j);
    }
    if Precedes(t, s) {
      var j :| PartsAt(t, s, j);
      CommonPrefixUnique(s, t, j);
    }
  }

  /** Precedes is a strict total order. */
  lemma PrecedesIsTotalOrder(s: string, t: string, u: string)
    requires IsCString(s) && IsCString(t) && IsCString(u)
    ensures Precedes(s, t) || s == t || Precedes(t, s)
    ensures !(Precedes(s, t) && Precedes(t, s)) && !Precedes(s, s)
    ensures Precedes(s, t) && Precedes(t, u) ==> Precedes(s, u)
  {
    DifferenceDecides(s, t);
    DifferenceDecides(s, s);
    if Precedes(s, t) && Precedes(t, u) {
      var j :| PartsAt(s, t, j);
      var k :| PartsAt(t, u, k);
      assert PartsAt(s, u, if j <= k then j else k);
    }
  }

  // ----- strcmp, strncmp, memcmp

  method Strcmp(s1: string, s2: string) returns (r: int)
    requires IsCString(s1) && IsCString(s2)
    ensures r == Difference(s1, s2)
    ensures r < 0 <==> Precedes(s1, s2)
    ensures r > 0 <==> Precedes(s2, s1)
    ensures r == 0 <==> s1 == s2
    ensures exists i: nat :: Agree(s1, s2, i) && r == At(s1, i) as int - At(s2, i) as int
  {
    DifferenceDecides(s1, s2);
    var i := 0;
    while At(s1, i) != NUL && At(s1, i) == At(s2, i)
      invariant Agree(s1, s2, i)
      decreases |s1| - i
    {
      i := i + 1;
    }
    CommonPrefixUnique(s1, s2, i);
    return At(s1, i) as int - At(s2, i) as int;
  }

  /** Comparing at most n characters is comparing the two n-character truncations. */
  method Strncmp(s1: string, s2: string, n: nat) returns (r: int)
    requires IsCString(s1) && IsCString(s2)
    ensures r == Difference(Truncated(s1, n), Truncated(s2, n))
    ensures r == 0 <==> Truncated(s1, n) == Truncated(s2, n)
  {
    DifferenceDecides(Truncated(s1, n), Truncated(s2, n));
    var i, left := 0, n;
    while left > 0 && At(s1, i) != NUL && At(s1, i) == At(s2, i)
      invariant 0 <= left && i + left == n && Agree(s1, s2, i)
    {
      left, i := left - 1, i + 1;
    }
    TruncatedDifference(s1, s2, n, i);
    return if left == 0 then 0 else At(s1, i) as int - At(s2, i) as int;
  }

  lemma TruncatedDifference(s: string, t: string, n: nat, i: nat)
    requires IsCString(s) && IsCString(t)
    requires i <= n && Agree(s, t, i)
    requires i == n || At(s, i) == NUL || At(s, i) != At(t, i)
    ensures Difference(Truncated(s, n), Truncated(t, n))
            == if i == n then 0 else At(s, i) as int - At(t, i) as int
  {
    CommonPrefixUnique(Truncated(s, n), Truncated(t, n), i);
  }

  /** The first differing byte among the first n decides. */
  method Memcmp(v1: seq<char>, v2: seq<char>, n: nat) returns (r: int)
    requires n <= |v1| && n <= |v2|
    ensures r == BlockDifference(v1, v2, n)
    ensures r == 0 <==> v1[..n] == v2[..n]
    ensures r != 0 ==> exists k :: 0 <= k < n && Agree(v1, v2, k) && r == v1[k] as int - v2[k] as int
  {
    var i, left := 0, n;
    while left > 0
      invariant 0 <= left && i + left == n && Agree(v1, v2, i)
    {
      if v1[i] != v2[i] {
        CommonPrefixUnique(v1[..n], v2[..n], i);
        return v1[i] as int - v2[i] as int;
      }
      left, i := left - 1, i + 1;
    }
    CommonPrefixUnique(v1[..n], v2[..n], n);
    return 0;
  }

  function BlockDifference(v1: seq<char>, v2: seq<char>, n: nat): int
    requires n <= |v1| && n <= |v2|
  {
    var k := CommonPrefix(v1[..n], v2[..n]);
    if k == n then 0 else v1[k] as int - v2[k] as int
  }

  /** On blocks that hold two strings, their terminators and anything behind these, memcmp
      over a length covering both terminators equals strcmp if the strings differ; if they
      are equal it equals strcmp exactly when the bytes behind agree as well. */
  lemma MemcmpAgreesWithStrcmp(s: string, t: string, rest1: string, rest2: string, n: nat)
    requires IsCString(s) && IsCString(t)
    requires |s| < n <= |s| + 1 + |rest1| && |t| < n <= |t| + 1 + |rest2|
    ensures var m := BlockDifference(s + [NUL] + rest1, t + [NUL] + rest2, n);
            m == Difference(s, t) <==> s != t || rest1[..n - |s| - 1] == rest2[..n - |t| - 1]
  {
    var v1, v2 := s + [NUL] + rest1, t + [NUL] + rest2;
    var k := CommonPrefix(s, t);
    DifferenceDecides(s, t);
    if s != t {
      assert v1[k] == At(s, k) && v2[k] == At(t, k);
      CommonPrefixUnique(v1[..n], v2[..n], k);
    } else {
      var tail1, tail2 := rest1[..n - |s| - 1], rest2[..n - |s| - 1];
      assert v1[..n] == s + [NUL] + tail1 && v2[..n] == s + [NUL] + tail2;
      BlocksDiffer(v1, v2, n);
      SameFront(s + [NUL], tail1, tail2);
    }
  }

  lemma BlocksDiffer(v1: seq<char>, v2: seq<char>, n: nat)
    requires n <= |v1| && n <= |v2|
    ensures BlockDifference(v1, v2, n) == 0 <==> v1[..n] == v2[..n]
  {
    var k := CommonPrefix(v1[..n], v2[..n]);
    if v1[..n] == v2[..n] {
      CommonPrefixUnique(v1[..n], v2[..n], n);
    } else {
      assert k < n;
    }
  }

  lemma SameFront(front: string, tail1: string, tail2: string)
    ensures front + tail1 == front + tail2 <==> tail1 == tail2
  {
    if front + tail1 == front + tail2 {
      assert (front + tail1)[|front|..] == tail1;
      assert (front + tail2)[|front|..] == tail2;
    }
  }

  // ----- strnlen

  /** The bound is unsigned, so a negative one passed for it is no bound at all. */
  function BoundedLength(s: string, len: int): (n: nat)
    ensures len < 0 ==> n == |s|
    ensures 0 <= len ==> n <= |s| && n <= len && (n == |s| || n == len)
  {
    if 0 <= len < |s| then len else |s|
  }

  method Strnlen(s: string, len: nat) returns (cnt: nat)
    requires IsCString(s)
    ensures cnt == BoundedLength(s, len)
    ensures cnt <= |s| && cnt <= len && (cnt == |s| || cnt == len)
  {
    cnt := 0;
    while cnt < len && At(s, cnt) != NUL
      invariant cnt <= |s| && cnt <= len
    {
      cnt := cnt + 1;
    }
  }
}
