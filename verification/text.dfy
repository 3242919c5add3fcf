/**
  The Python `str` methods the naming pipeline uses: `strip()` with no
  argument, and `replace(old, new)` with one-character `old`.
 */
module Text {

  /** `c.isspace()`: the characters CPython's `str.strip()` removes by default. */
  predicate IsSpace(c: char) {
    var n := c as int;
    || 0x09 <= n <= 0x0D
    || 0x1C <= n <= 0x20
    || n == 0x85 || n == 0xA0 || n == 0x1680
    || 0x2000 <= n <= 0x200A
    || n == 0x2028 || n == 0x2029 || n == 0x202F || n == 0x205F || n == 0x3000
  }

  /** Leading whitespace removed: what remains is a suffix of `s` and only whitespace went. */
  function StripLeft(s: string): (r: string)
    ensures |r| <= |s| && r == s[|s| - |r|..]
    ensures forall i :: 0 <= i < |s| - |r| ==> IsSpace(s[i])
    ensures r != [] ==> !IsSpace(r[0])
  {
    if s != [] && IsSpace(s[0]) then
      var r := StripLeft(s[1..]);
      assert forall i :: 1 <= i < |s| ==> s[i] == s[1..][i - 1];
      assert s[1..][|s| - 1 - |r|..] == s[|s| - |r|..];
      r
    else s
  }

  /** Trailing whitespace removed: what remains is a prefix of `s` and only whitespace went. */
  function StripRight(s: string): (r: string)
    ensures |r| <= |s| && r == s[..|r|]
    ensures forall i :: |r| <= i < |s| ==> IsSpace(s[i])
    ensures r != [] ==> !IsSpace(r[|r| - 1])
  {
    if s != [] && IsSpace(s[|s| - 1]) then StripRight(s[..|s| - 1]) else s
  }

  /** Every character of `s` is whitespace. */
  predicate AllSpace(s: string) {
    forall i :: 0 <= i < |s| ==> IsSpace(s[i])
  }

  /** `s.strip()`: nothing to strip remains at either end. */
  function Strip(s: string): (r: string)
    ensures |r| <= |s|
    ensures r != [] ==> !IsSpace(r[0]) && !IsSpace(r[|r| - 1])
  {
    var l := StripLeft(s);
    var r := StripRight(l);
    assert r != [] ==> r[0] == l[0];
    r
  }

  /** `s.replace(c, '')`: every occurrence of `c` dropped, the rest kept in order. */
  function RemoveAll(s: string, c: char): (r: string)
    ensures |r| <= |s|
    ensures forall i :: 0 <= i < |r| ==> r[i] != c
    ensures forall x :: x in r ==> x in s
  {
    if s == [] then [] else (if s[0] == c then [] else [s[0]]) + RemoveAll(s[1..], c)
  }

  /** `s.replace(a, b)` for single characters `a` and `b`. */
  function ReplaceAll(s: string, a: char, b: char): (r: string)
    ensures |r| == |s|
  {
    seq(|s|, i requires 0 <= i < |s| => if s[i] == a then b else s[i])
  }

  /** Stripping a string that already has no whitespace at its ends changes nothing. */
  lemma StripUnchanged(s: string)
    requires s != [] ==> !IsSpace(s[0]) && !IsSpace(s[|s| - 1])
    ensures Strip(s) == s
  {
  }

  lemma StripLeftAt(s: string) returns (lo: nat)
    ensures lo <= |s| && StripLeft(s) == s[lo..] && AllSpace(s[..lo])
  {
    lo := |s| - |StripLeft(s)|;
    forall i | 0 <= i < lo ensures IsSpace(s[..lo][i]) {
      assert s[..lo][i] == s[i];
    }
  }

  lemma StripRightAt(s: string) returns (hi: nat)
    ensures hi <= |s| && StripRight(s) == s[..hi] && AllSpace(s[hi..])
  {
    hi := |StripRight(s)|;
    forall i | 0 <= i < |s| - hi ensures IsSpace(s[hi..][i]) {
      assert s[hi..][i] == s[hi + i];
    }
  }

  /** A string is its leading whitespace, its stripped text and its trailing whitespace. */
  lemma StripDecompose(s: string) returns (lead: string, trail: string)
    ensures s == lead + Strip(s) + trail
    ensures AllSpace(lead) && AllSpace(trail)
  {
    var lo := StripLeftAt(s);
    var n := StripRightAt(s[lo..]);
    SliceOfSlice(s, lo, n);
    lead, trail := s[..lo], s[lo + n..];
    Reassemble(s, lo, lo + n);
  }

  lemma SliceOfSlice(s: string, lo: nat, n: nat)
    requires lo + n <= |s|
    ensures s[lo..][..n] == s[lo..lo + n] && s[lo..][n..] == s[lo + n..]
  {
  }

  /** Cutting a string at two points and joining the pieces gives it back. */
  lemma Reassemble(s: string, i: nat, j: nat)
    requires i <= j <= |s|
    ensures s == s[..i] + s[i..j] + s[j..]
  {
    assert s == s[..i] + s[i..];
    assert s[i..] == s[i..j] + s[j..];
  }

  /** Leading whitespace does not change what `lstrip` leaves. */
  lemma {:induction false} StripLeftSkipsSpace(p: string, x: string)
    requires AllSpace(p)
    ensures StripLeft(p + x) == StripLeft(x)
    decreases |p|
  {
    if p == [] {
      assert p + x == x;
    } else {
      assert (p + x)[1..] == p[1..] + x;
      StripLeftSkipsSpace(p[1..], x);
    }
  }

  /** Trailing whitespace does not change what `rstrip` leaves. */
  lemma {:induction false} StripRightSkipsSpace(x: string, q: string)
    requires AllSpace(q)
    ensures StripRight(x + q) == StripRight(x)
    decreases |q|
  {
    if q == [] {
      assert x + q == x;
    } else {
      assert (x + q)[..|x + q| - 1] == x + q[..|q| - 1];
      StripRightSkipsSpace(x, q[..|q| - 1]);
    }
  }

  /** `lstrip` of a concatenation: it stops inside `x` unless `x` is all whitespace. */
  lemma {:induction false} StripLeftConcat(x: string, q: string)
    ensures StripLeft(x) != [] ==> StripLeft(x + q) == StripLeft(x) + q
    ensures StripLeft(x) == [] ==> StripLeft(x + q) == StripLeft(q)
    decreases |x|
  {
    if x == [] {
      assert x + q == q;
    } else if IsSpace(x[0]) {
      assert (x + q)[1..] == x[1..] + q;
      StripLeftConcat(x[1..], q);
    }
  }

  /** Whitespace around a string does not change what `strip` leaves of it. */
  lemma StripIgnoresOuterSpace(p: string, x: string, q: string)
    requires AllSpace(p) && AllSpace(q)
    ensures Strip(p + x + q) == Strip(x)
  {
    assert p + x + q == p + (x + q);
    StripLeftSkipsSpace(p, x + q);
    StripLeftConcat(x, q);
    if StripLeft(x) == [] {
      StripLeftSkipsSpace(q, []);
      assert q + [] == q;
    } else {
      StripRightSkipsSpace(StripLeft(x), q);
    }
  }

  /** `replace` distributes over concatenation. */
  lemma {:induction false} RemoveAllConcat(a: string, b: string, c: char)
    ensures RemoveAll(a + b, c) == RemoveAll(a, c) + RemoveAll(b, c)
    decreases |a|
  {
    if a == [] {
      assert a + b == b;
    } else {
      assert (a + b)[1..] == a[1..] + b;
      RemoveAllConcat(a[1..], b, c);
    }
  }

  /** On a single character `replace(c, '')` drops it exactly when it is `c`. */
  lemma RemoveAllSingle(x: char, c: char)
    ensures RemoveAll([x], c) == if x == c then [] else [x]
  {
    assert [x][1..] == [];
  }

  /** Removing a character that does not occur changes nothing. */
  lemma {:induction false} RemoveAbsent(s: string, c: char)
    requires forall i :: 0 <= i < |s| ==> s[i] != c
    ensures RemoveAll(s, c) == s
  {
    if s != [] {
      RemoveAbsent(s[1..], c);
    }
  }
}
