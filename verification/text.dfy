/** String clean-up the page applies to what the user types: JavaScript's
    `String.prototype.trim` and the ASCII part of `toLowerCase`. */
module Text {

  /** The LineTerminator code points of ECMA-262: LF, CR, LS and PS.
      These are also the characters a regular expression `.` does not match. */
  predicate IsLineTerminator(c: char) {
    c == '\n' || c == '\r' || c == '\U{2028}' || c == '\U{2029}'
  }

  /** The WhiteSpace code points of ECMA-262: TAB, VT, FF, ZWNBSP and every
      character of Unicode general category Zs. */
  predicate IsSpace(c: char) {
    || c == '\t' || c == '\U{000B}' || c == '\U{000C}' || c == '\U{FEFF}'
    || c == ' ' || c == '\U{00A0}' || c == '\U{1680}'
    || ('\U{2000}' <= c <= '\U{200A}')
    || c == '\U{202F}' || c == '\U{205F}' || c == '\U{3000}'
  }

  /** What `trim()` removes from either end of a string. */
  predicate IsTrimmable(c: char) {
    IsSpace(c) || IsLineTerminator(c)
  }

  predicate AllTrimmable(s: string) {
    forall k :: 0 <= k < |s| ==> IsTrimmable(s[k])
  }

  /** `s` neither starts nor ends with a trimmable character. */
  predicate IsTrimmed(s: string) {
    s == [] || (!IsTrimmable(s[0]) && !IsTrimmable(s[|s| - 1]))
  }

  /** Drops leading trimmable characters: the result is a suffix of `s`,
      and only trimmable characters were dropped. */
  function TrimStart(s: string): (r: string)
    ensures |r| <= |s| && r == s[|s| - |r|..]
    ensures AllTrimmable(s[..|s| - |r|])
    ensures r == [] || !IsTrimmable(r[0])
  {
    if s == [] || !IsTrimmable(s[0]) then s else TrimStart(s[1..])
  }

  /** Drops trailing trimmable characters: the result is a prefix of `s`,
      and only trimmable characters were dropped. */
  function TrimEnd(s: string): (r: string)
    ensures |r| <= |s| && r == s[..|r|]
    ensures AllTrimmable(s[|r|..])
    ensures r == [] || !IsTrimmable(r[|r| - 1])
  {
    if s == [] || !IsTrimmable(s[|s| - 1]) then s else TrimEnd(s[..|s| - 1])
  }

  /** `String.prototype.trim`. */
  function Trim(s: string): (r: string)
    ensures IsTrimmed(r)
    ensures |r| <= |s|
  {
    var t := TrimStart(s);
    var r := TrimEnd(t);
    assert r != [] ==> r[0] == t[0];
    r
  }

  lemma {:induction false} TrimStartOfPadded(a: string, p: string)
    requires AllTrimmable(a)
    requires p == [] || !IsTrimmable(p[0])
    ensures TrimStart(a + p) == p
    decreases |a|
  {
    if a != [] {
      assert (a + p)[1..] == a[1..] + p;
      TrimStartOfPadded(a[1..], p);
    } else {
      assert a + p == p;
    }
  }

  lemma {:induction false} TrimEndOfPadded(p: string, b: string)
    requires AllTrimmable(b)
    requires p == [] || !IsTrimmable(p[|p| - 1])
    ensures TrimEnd(p + b) == p
    decreases |b|
  {
    if b != [] {
      assert (p + b)[..|p + b| - 1] == p + b[..|b| - 1];
      TrimEndOfPadded(p, b[..|b| - 1]);
    } else {
      assert p + b == p;
    }
  }

  /** Trim is characterised by what it keeps: a trimmed core between two
      runs of trimmable characters is exactly what `trim()` returns. */
  lemma TrimOfPadded(a: string, p: string, b: string)
    requires AllTrimmable(a) && AllTrimmable(b)
    requires IsTrimmed(p)
    ensures Trim(a + p + b) == p
  {
    if p == [] {
      assert a + p + b == a + b;
      assert AllTrimmable(a + b);
      TrimStartOfPadded(a + b, []);
      assert a + b + [] == a + b;
      TrimEndOfPadded([], []);
    } else {
      assert a + p + b == a + (p + b);
      TrimStartOfPadded(a, p + b);
      TrimEndOfPadded(p, b);
    }
  }

  /** A string trims to nothing exactly when it is made of trimmable
      characters only. */
  lemma TrimEmptyIff(s: string)
    ensures Trim(s) == [] <==> AllTrimmable(s)
  {
    if AllTrimmable(s) {
      assert s == s + [] + [];
      TrimOfPadded(s, [], []);
    } else {
      var t := TrimStart(s);
      var k :| 0 <= k < |s| && !IsTrimmable(s[k]);
      assert k >= |s| - |t|;
      assert t != [];
      assert !IsTrimmable(t[0]);
    }
  }

  /** Trimming twice is trimming once. */
  lemma TrimIdempotent(s: string)
    ensures Trim(Trim(s)) == Trim(s)
  {
    var r := Trim(s);
    assert r == [] + r + [];
    TrimOfPadded([], r, []);
  }

  /** ASCII lower-casing of one character. */
  function LowerChar(c: char): (d: char)
    ensures !('A' <= d <= 'Z')
    ensures 'A' <= c <= 'Z' ==> d as int == c as int + 32
    ensures !('A' <= c <= 'Z') ==> d == c
  {
    if 'A' <= c <= 'Z' then (c as int + 32) as char else c
  }

  /** `toLowerCase()` restricted to ASCII letters. */
  function Lower(s: string): (r: string)
    ensures |r| == |s|
    ensures forall k :: 0 <= k < |s| ==> r[k] == LowerChar(s[k])
  {
    seq(|s|, k requires 0 <= k < |s| => LowerChar(s[k]))
  }

  /** Equal after lower-casing: two strings are equal up to the case of
      their ASCII letters. */
  lemma LowerEqualIff(a: string, b: string)
    ensures Lower(a) == Lower(b) <==>
      |a| == |b| && forall k :: 0 <= k < |a| ==> LowerChar(a[k]) == LowerChar(b[k])
  {
    var la, lb := Lower(a), Lower(b);
    assert |la| == |a| && |lb| == |b|;
    if la == lb {
      forall k | 0 <= k < |a| ensures LowerChar(a[k]) == LowerChar(b[k]) {
        assert la[k] == LowerChar(a[k]);
        assert lb[k] == LowerChar(b[k]);
      }
    }
    if |a| == |b| && forall k :: 0 <= k < |a| ==> LowerChar(a[k]) == LowerChar(b[k]) {
      forall k | 0 <= k < |la| ensures la[k] == lb[k] {
        assert la[k] == LowerChar(a[k]);
      }
      assert la == lb;
    }
  }

  /** Lower-casing a lower-cased string changes nothing. */
  lemma LowerIdempotent(s: string)
    ensures Lower(Lower(s)) == Lower(s)
  {
    assert forall k :: 0 <= k < |s| ==> Lower(Lower(s))[k] == Lower(s)[k];
  }
}
