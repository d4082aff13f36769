/** The string normalisation the backend applies to a gesture name:
    Python's `str.strip()` followed by `str.upper()`. */
module Text {

  /** Python's `str.isspace()` on one code point: exactly the characters that
      `str.strip()` with no argument removes from either end. */
  predicate IsSpace(c: char) {
    var n := c as int;
    || (9 <= n <= 13)
    || (28 <= n <= 32)
    || n == 0x85 || n == 0xA0 || n == 0x1680
    || (0x2000 <= n <= 0x200A)
    || n == 0x2028 || n == 0x2029 || n == 0x202F || n == 0x205F || n == 0x3000
  }

  predicate AllSpace(s: string) {
    forall i :: 0 <= i < |s| ==> IsSpace(s[i])
  }

  /** Neither the first nor the last character is whitespace. */
  predicate NoOuterSpace(s: string) {
    |s| == 0 || (!IsSpace(s[0]) && !IsSpace(s[|s| - 1]))
  }

  /** `r` is `s` with its leading and trailing whitespace cut off and nothing
      else: a contiguous slice of `s` between two all-whitespace ends, with no
      whitespace at its own ends. */
  ghost predicate IsStripOf(s: string, r: string) {
    && NoOuterSpace(r)
    && exists i :: 0 <= i <= |s| - |r| && r == s[i..i + |r|] && AllSpace(s[..i]) && AllSpace(s[i + |r|..])
  }

  function StripLeft(s: string): (r: string)
    ensures |r| <= |s| && r == s[|s| - |r|..]
    ensures AllSpace(s[..|s| - |r|])
    ensures |r| > 0 ==> !IsSpace(r[0])
  {
    if |s| > 0 && IsSpace(s[0]) then
      var r := StripLeft(s[1..]);
      r
    else s
  }

  function StripRight(s: string): (r: string)
    ensures |r| <= |s| && r == s[..|r|]
    ensures AllSpace(s[|r|..])
    ensures |r| > 0 ==> !IsSpace(r[|r| - 1])
  {
    if |s| > 0 && IsSpace(s[|s| - 1]) then
      var r := StripRight(s[..|s| - 1]);
      assert s[|r|..] == s[..|s| - 1][|r|..] + [s[|s| - 1]];
      r
    else s
  }

  /** Python's `s.strip()`. */
  function Strip(s: string): (r: string)
    ensures IsStripOf(s, r)
    ensures |r| == 0 <==> AllSpace(s)
  {
    var left := StripLeft(s);
    var r := StripRight(left);
    StripOfSlices(s, left, r);
    r
  }

  lemma AllSpaceAppend(a: string, b: string)
    ensures AllSpace(a + b) <==> AllSpace(a) && AllSpace(b)
  {
    if AllSpace(a) && AllSpace(b) {
      forall k | 0 <= k < |a + b| ensures IsSpace((a + b)[k]) {
        if k >= |a| {
          assert (a + b)[k] == b[k - |a|];
        }
      }
    }
    if AllSpace(a + b) {
      forall k | 0 <= k < |a| ensures IsSpace(a[k]) {
        assert (a + b)[k] == a[k];
      }
      forall k | 0 <= k < |b| ensures IsSpace(b[k]) {
        assert (a + b)[|a| + k] == b[k];
      }
    }
  }

  /** Cutting the leading whitespace (leaving `left`) and then the trailing
      whitespace (leaving `r`) gives the strip of `s`. */
  lemma StripOfSlices(s: string, left: string, r: string)
    requires |left| <= |s| && left == s[|s| - |left|..]
    requires AllSpace(s[..|s| - |left|])
    requires |left| > 0 ==> !IsSpace(left[0])
    requires |r| <= |left| && r == left[..|r|]
    requires AllSpace(left[|r|..])
    requires |r| > 0 ==> !IsSpace(r[|r| - 1])
    ensures IsStripOf(s, r)
    ensures |r| == 0 <==> AllSpace(s)
  {
    var i := |s| - |left|;
    assert r == s[i..i + |r|];
    assert s[i + |r|..] == left[|r|..];
    assert NoOuterSpace(r) by {
      if |r| > 0 {
        assert r[0] == left[0];
      }
    }
    assert s == s[..i] + left;
    AllSpaceAppend(s[..i], left);
    if |r| == 0 {
      assert left[|r|..] == left;
    } else {
      assert !IsSpace(left[0]);
    }
  }

  /** Python's `str.upper()` on one character, restricted to ASCII letters. */
  function UpperChar(c: char): char {
    if 'a' <= c <= 'z' then (c as int - 32) as char else c
  }

  /** Python's `s.upper()`, restricted to ASCII letters: a lower-case ASCII
      letter becomes its capital, every other character is kept as it is. */
  function Upper(s: string): (r: string)
    ensures |r| == |s|
    ensures forall i :: 0 <= i < |s| ==>
      if 'a' <= s[i] <= 'z' then r[i] as int == s[i] as int - 32 else r[i] == s[i]
    ensures forall i :: 0 <= i < |s| ==> !('a' <= r[i] <= 'z')
    ensures forall i :: 0 <= i < |s| ==> (IsSpace(r[i]) <==> IsSpace(s[i]))
  {
    seq(|s|, i requires 0 <= i < |s| => UpperChar(s[i]))
  }

  /** Two characters that are equal, or are the lower- and upper-case forms
      of one ASCII letter. */
  predicate SameIgnoringCase(c: char, d: char) {
    || c == d
    || ('a' <= c <= 'z' && d as int == c as int - 32)
    || ('a' <= d <= 'z' && c as int == d as int - 32)
  }

  /** Two names upper-case to the same key exactly when they agree letter by
      letter up to ASCII case: "hello", "Hello" and "HELLO" share one key. */
  lemma UpperEqualIff(a: string, b: string)
    ensures Upper(a) == Upper(b) <==>
      |a| == |b| && forall i :: 0 <= i < |a| ==> SameIgnoringCase(a[i], b[i])
  {
    if |a| == |b| && forall i :: 0 <= i < |a| ==> SameIgnoringCase(a[i], b[i]) {
      forall i | 0 <= i < |a|
        ensures Upper(a)[i] == Upper(b)[i]
      {
        assert (Upper(a)[i] as int) == (Upper(b)[i] as int);
      }
    }
    if Upper(a) == Upper(b) {
      forall i | 0 <= i < |a|
        ensures SameIgnoringCase(a[i], b[i])
      {
        assert Upper(a)[i] as int == Upper(b)[i] as int;
      }
    }
  }

  /** The name normalisation `name.strip().upper()` of the train-batch endpoint. */
  function NormalizeName(s: string): (r: string)
    ensures NoOuterSpace(r)
    ensures |r| == 0 <==> AllSpace(s)
  {
    UpperKeepsNoOuterSpace(Strip(s));
    Upper(Strip(s))
  }

  /** Upper-casing neither adds nor removes whitespace at the ends. */
  lemma UpperKeepsNoOuterSpace(t: string)
    requires NoOuterSpace(t)
    ensures NoOuterSpace(Upper(t))
  {
    var r := Upper(t);
    if |r| > 0 {
      assert IsSpace(r[0]) <==> IsSpace(t[0]);
      assert IsSpace(r[|r| - 1]) <==> IsSpace(t[|t| - 1]);
    }
  }

  /** Cutting a whitespace prefix off a string that does not start with whitespace. */
  lemma {:induction false} StripLeftSkips(p: string, t: string)
    requires AllSpace(p)
    requires |t| == 0 || !IsSpace(t[0])
    ensures StripLeft(p + t) == t
    decreases |p|
  {
    if |p| > 0 {
      assert (p + t)[1..] == p[1..] + t;
      StripLeftSkips(p[1..], t);
    } else {
      assert p + t == t;
    }
  }

  /** Cutting a whitespace suffix off a string that does not end with whitespace. */
  lemma {:induction false} StripRightSkips(t: string, q: string)
    requires AllSpace(q)
    requires |t| == 0 || !IsSpace(t[|t| - 1])
    ensures StripRight(t + q) == t
    decreases |q|
  {
    if |q| > 0 {
      assert (t + q)[..|t + q| - 1] == t + q[..|q| - 1];
      StripRightSkips(t, q[..|q| - 1]);
    } else {
      assert t + q == t;
    }
  }

  /** `Strip` is the only function meeting its contract: any string that is `s`
      with whitespace ends cut off and no whitespace ends of its own is `Strip(s)`. */
  lemma StripUnique(s: string, r: string)
    requires IsStripOf(s, r)
    ensures Strip(s) == r
  {
    var i :| 0 <= i <= |s| - |r| && r == s[i..i + |r|] && AllSpace(s[..i]) && AllSpace(s[i + |r|..]);
    StripUniqueAt(s, r, i);
  }

  /** `StripUnique` with the position where the strip starts given. */
  lemma StripUniqueAt(s: string, r: string, i: int)
    requires 0 <= i <= |s| - |r| && r == s[i..i + |r|]
    requires AllSpace(s[..i]) && AllSpace(s[i + |r|..]) && NoOuterSpace(r)
    ensures Strip(s) == r
  {
    var p, q := s[..i], s[i + |r|..];
    assert s == p + r + q;
    StripOfParts(p, r, q);
  }

  /** Stripping whitespace ends off a string without whitespace ends. */
  lemma StripOfParts(p: string, r: string, q: string)
    requires AllSpace(p) && AllSpace(q) && NoOuterSpace(r)
    ensures Strip(p + r + q) == r
  {
    if |r| == 0 {
      StripOfSpaces(p, q);
      assert p + r + q == p + q;
    } else {
      StripOfPadded(p, r, q);
    }
  }

  lemma StripOfSpaces(p: string, q: string)
    requires AllSpace(p) && AllSpace(q)
    ensures StripRight(StripLeft(p + q)) == []
  {
    AllSpaceAppend(p, q);
    StripLeftSkips(p + q, []);
    assert p + q + [] == p + q;
  }

  lemma StripOfPadded(p: string, r: string, q: string)
    requires AllSpace(p) && AllSpace(q) && NoOuterSpace(r) && |r| > 0
    ensures StripRight(StripLeft(p + r + q)) == r
  {
    assert p + r + q == p + (r + q);
    StripLeftSkips(p, r + q);
    StripRightSkips(r, q);
  }

  lemma UpperIdempotent(s: string)
    ensures Upper(Upper(s)) == Upper(s)
  {
  }

  /** A string without whitespace ends is its own strip. */
  lemma StripFixesTrimmed(u: string)
    requires NoOuterSpace(u)
    ensures Strip(u) == u
  {
    assert [] + u + [] == u;
    StripOfParts([], u, []);
  }

  /** Normalising a normalised name changes nothing: a stored key is its own
      normal form. */
  lemma NormalizeNameIdempotent(s: string)
    ensures NormalizeName(NormalizeName(s)) == NormalizeName(s)
  {
    var t := Strip(s);
    StripFixesTrimmed(Upper(t));
    UpperIdempotent(t);
  }
}
