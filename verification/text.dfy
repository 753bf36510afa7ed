/** ASCII model of the two string operations the service applies to every
    piece of text it keys on: Python's `str.strip()` (no argument) and
    `str.lower()`, composed as `s.strip().lower()`.

    Whitespace is `str.isspace` restricted to ASCII; case folding touches only
    'A'..'Z'. Every other character is left as it is. */
module Text {

  /** `str.isspace` on ASCII: HT, LF, VT, FF, CR (9-13), the four
      information separators (28-31) and the space (32). */
  predicate IsSpace(c: char) {
    9 <= c as int <= 13 || 28 <= c as int <= 32
  }

  predicate AllSpace(s: string) {
    forall i :: 0 <= i < |s| ==> IsSpace(s[i])
  }

  /** The shape `str.strip()` produces: no whitespace at either end. */
  predicate IsStripped(s: string) {
    s == [] || (!IsSpace(s[0]) && !IsSpace(s[|s| - 1]))
  }

  /** `str.lower()` on one character. */
  function LowerChar(c: char): char {
    if 'A' <= c <= 'Z' then (c as int + 32) as char else c
  }

  predicate IsLower(s: string) {
    forall i :: 0 <= i < |s| ==> LowerChar(s[i]) == s[i]
  }

  /** A key in normal form: what `s.strip().lower()` can return. */
  predicate IsNormal(s: string) {
    IsStripped(s) && IsLower(s)
  }

  /** Same length, and the same character at every position once both are
      lower-cased. */
  predicate EqualIgnoringCase(a: string, b: string) {
    |a| == |b| && forall i :: 0 <= i < |a| ==> LowerChar(a[i]) == LowerChar(b[i])
  }

  /** Drops the leading whitespace: the result is a suffix of `s`, what was
      dropped is all whitespace, and the result does not start with any. */
  function TrimStart(s: string): (r: string)
    ensures |r| <= |s| && r == s[|s| - |r|..]
    ensures AllSpace(s[..|s| - |r|])
    ensures r == [] || !IsSpace(r[0])
  {
    if |s| > 0 && IsSpace(s[0]) then
      var r := TrimStart(s[1..]);
      DropFirstSpace(s, r);
      r
    else
      s
  }

  /** A suffix of `s[1..]` behind leading whitespace is one of `s` too, when
      `s` starts with whitespace. */
  lemma DropFirstSpace(s: string, r: string)
    requires |s| > 0 && IsSpace(s[0])
    requires |r| <= |s| - 1 && r == s[1..][|s| - 1 - |r|..]
    requires AllSpace(s[1..][..|s| - 1 - |r|])
    ensures r == s[|s| - |r|..] && AllSpace(s[..|s| - |r|])
  {
    assert s[..|s| - |r|] == [s[0]] + s[1..][..|s| - 1 - |r|];
  }

  /** Drops the trailing whitespace: the result is a prefix of `s`, what was
      dropped is all whitespace, and the result does not end with any. */
  function TrimEnd(s: string): (r: string)
    ensures |r| <= |s| && r == s[..|r|]
    ensures AllSpace(s[|r|..])
    ensures r == [] || !IsSpace(r[|r| - 1])
  {
    if |s| > 0 && IsSpace(s[|s| - 1]) then
      var r := TrimEnd(s[..|s| - 1]);
      DropLastSpace(s, r);
      r
    else
      s
  }

  /** A prefix of `s` without its last character, followed by whitespace, is
      one of `s` too, when `s` ends with whitespace. */
  lemma DropLastSpace(s: string, r: string)
    requires |s| > 0 && IsSpace(s[|s| - 1])
    requires |r| <= |s| - 1 && r == s[..|s| - 1][..|r|]
    requires AllSpace(s[..|s| - 1][|r|..])
    ensures r == s[..|r|] && AllSpace(s[|r|..])
  {
    assert s[|r|..] == s[..|s| - 1][|r|..] + [s[|s| - 1]];
  }

  /** `str.strip()`: the result has no whitespace at either end. */
  function Strip(s: string): (r: string)
    ensures IsStripped(r)
    ensures |r| <= |s|
  {
    TrimEnd(TrimStart(s))
  }

  /** How much leading whitespace `str.strip()` removes. */
  function LeadingSpace(s: string): nat {
    |s| - |TrimStart(s)|
  }

  /** What `Strip` removed is whitespace on both sides, and what it kept is a
      contiguous slice of the input, starting after the leading whitespace. */
  lemma StripIsSlice(s: string)
    ensures LeadingSpace(s) + |Strip(s)| <= |s|
    ensures Strip(s) == s[LeadingSpace(s)..LeadingSpace(s) + |Strip(s)|]
    ensures forall j :: 0 <= j < LeadingSpace(s) ==> IsSpace(s[j])
    ensures forall j :: LeadingSpace(s) + |Strip(s)| <= j < |s| ==> IsSpace(s[j])
  {
    var t, r := TrimStart(s), Strip(s);
    SuffixThenPrefix(s, t, r);
    var i := |s| - |t|;
    assert i == LeadingSpace(s);
    forall j | 0 <= j < i
      ensures IsSpace(s[j])
    {
      assert s[..i][j] == s[j];
    }
    forall j | i + |r| <= j < |s|
      ensures IsSpace(s[j])
    {
      assert s[i + |r|..][j - i - |r|] == s[j];
    }
  }

  /** A prefix `r` of a suffix `t` of `s` is a slice of `s`; whitespace
      margins around each step are whitespace margins in `s`. */
  lemma SuffixThenPrefix(s: string, t: string, r: string)
    requires |t| <= |s| && t == s[|s| - |t|..] && AllSpace(s[..|s| - |t|])
    requires |r| <= |t| && r == t[..|r|] && AllSpace(t[|r|..])
    ensures var i := |s| - |t|;
            && i + |r| <= |s|
            && r == s[i..i + |r|]
            && AllSpace(s[..i])
            && AllSpace(s[i + |r|..])
  {
    var i := |s| - |t|;
    assert s[i + |r|..] == t[|r|..];
  }

  /** `str.lower()`: every character folded, nothing else changed. */
  function Lower(s: string): (r: string)
    ensures |r| == |s|
    ensures forall i :: 0 <= i < |s| ==> r[i] == LowerChar(s[i])
  {
    if s == [] then [] else Lower(s[..|s| - 1]) + [LowerChar(s[|s| - 1])]
  }

  /** `s.strip().lower()`: the cache key of a request text, and the English
      half of a word pair. The result is in normal form. */
  function Normalize(s: string): (r: string)
    ensures IsNormal(r)
  {
    var t := Strip(s);
    LowerKeepsStripped(t);
    Lower(t)
  }

  /** Lower-casing never turns a character into whitespace or back, so a
      stripped string stays stripped. */
  lemma LowerKeepsStripped(t: string)
    requires IsStripped(t)
    ensures IsNormal(Lower(t))
  {
    if t != [] {
      assert Lower(t)[0] == LowerChar(t[0]);
      assert Lower(t)[|t| - 1] == LowerChar(t[|t| - 1]);
    }
  }

  /** Two strings lower-case to the same string exactly when they are equal
      up to letter case. */
  lemma LowerEqualIff(x: string, y: string)
    ensures Lower(x) == Lower(y) <==> EqualIgnoringCase(x, y)
  {
    if EqualIgnoringCase(x, y) {
      assert forall i :: 0 <= i < |x| ==> Lower(x)[i] == Lower(y)[i];
    }
  }

  /** The key is the stripped text up to letter case. */
  lemma NormalizeIsStripUpToCase(s: string)
    ensures EqualIgnoringCase(Normalize(s), Strip(s))
  {
  }

  /** A string strips to nothing exactly when it is all whitespace. */
  lemma StripEmptyIff(s: string)
    ensures Strip(s) == [] <==> AllSpace(s)
  {
    if AllSpace(s) {
      TrimStartAllSpace(s);
    }
  }

  /** Stripping changes a string exactly when it has whitespace at an end. */
  lemma StripFixesIff(s: string)
    ensures Strip(s) == s <==> IsStripped(s)
  {
    if IsStripped(s) {
      assert TrimStart(s) == s;
      assert TrimEnd(s) == s;
    }
  }

  /** Lower-casing changes a string exactly when it has an upper-case letter. */
  lemma LowerFixesIff(s: string)
    ensures Lower(s) == s <==> IsLower(s)
  {
  }

  /** Normalising changes a string exactly when it is not in normal form. */
  lemma NormalizeFixesIff(s: string)
    ensures Normalize(s) == s <==> IsNormal(s)
  {
    if IsNormal(s) {
      StripFixesIff(s);
      LowerFixesIff(s);
    }
  }

  /** Normalising twice is normalising once. */
  lemma NormalizeIdempotent(s: string)
    ensures Normalize(Normalize(s)) == Normalize(s)
  {
    NormalizeFixesIff(Normalize(s));
  }

  lemma {:induction false} TrimStartAllSpace(s: string)
    requires AllSpace(s)
    ensures TrimStart(s) == []
  {
    if s != [] {
      TrimStartAllSpace(s[1..]);
    }
  }

  lemma {:induction false} TrimStartPadded(p: string, s: string)
    requires AllSpace(p)
    ensures TrimStart(p + s) == TrimStart(s)
  {
    if p != [] {
      assert (p + s)[1..] == p[1..] + s;
      TrimStartPadded(p[1..], s);
    } else {
      assert p + s == s;
    }
  }

  /** Trimming the front of `s + q` trims only inside `s`, unless `s` is all
      whitespace. */
  lemma {:induction false} TrimStartAppend(s: string, q: string)
    requires !AllSpace(s)
    ensures TrimStart(s + q) == TrimStart(s) + q
  {
    assert s != [];
    if IsSpace(s[0]) {
      assert (s + q)[1..] == s[1..] + q;
      TrimStartAppend(s[1..], q);
    }
  }

  lemma {:induction false} TrimEndPadded(s: string, q: string)
    requires AllSpace(q)
    ensures TrimEnd(s + q) == TrimEnd(s)
  {
    if q != [] {
      assert (s + q)[..|s + q| - 1] == s + q[..|q| - 1];
      TrimEndPadded(s, q[..|q| - 1]);
    } else {
      assert s + q == s;
    }
  }

  /** Whitespace added around a text does not change what it strips to. */
  lemma StripPadded(p: string, s: string, q: string)
    requires AllSpace(p) && AllSpace(q)
    ensures Strip(p + s + q) == Strip(s)
  {
    assert p + s + q == p + (s + q);
    TrimStartPadded(p, s + q);
    if AllSpace(s) {
      assert AllSpace(s + q);
      TrimStartAllSpace(s + q);
      TrimStartAllSpace(s);
    } else {
      TrimStartAppend(s, q);
      TrimEndPadded(TrimStart(s), q);
    }
  }

  lemma SpaceIgnoresCase(c: char, d: char)
    requires LowerChar(c) == LowerChar(d)
    ensures IsSpace(c) <==> IsSpace(d)
  {
  }

  lemma {:induction false} TrimStartIgnoresCase(a: string, b: string)
    requires EqualIgnoringCase(a, b)
    ensures EqualIgnoringCase(TrimStart(a), TrimStart(b))
  {
    if a != [] {
      SpaceIgnoresCase(a[0], b[0]);
      if IsSpace(a[0]) {
        TrimStartIgnoresCase(a[1..], b[1..]);
      }
    }
  }

  lemma {:induction false} TrimEndIgnoresCase(a: string, b: string)
    requires EqualIgnoringCase(a, b)
    ensures EqualIgnoringCase(TrimEnd(a), TrimEnd(b))
  {
    if a != [] {
      SpaceIgnoresCase(a[|a| - 1], b[|b| - 1]);
      if IsSpace(a[|a| - 1]) {
        TrimEndIgnoresCase(a[..|a| - 1], b[..|b| - 1]);
      }
    }
  }

  /** Two texts have the same key exactly when they strip to strings that
      differ at most in letter case. */
  lemma SameKeyIff(a: string, b: string)
    ensures Normalize(a) == Normalize(b) <==> EqualIgnoringCase(Strip(a), Strip(b))
  {
    LowerEqualIff(Strip(a), Strip(b));
  }

  /** Texts that differ only in letter case and in whitespace around them
      have the same key. */
  lemma SameKeyUpToCaseAndPadding(p: string, a: string, q: string, b: string)
    requires AllSpace(p) && AllSpace(q)
    requires EqualIgnoringCase(a, b)
    ensures Normalize(p + a + q) == Normalize(b)
  {
    StripPadded(p, a, q);
    TrimStartIgnoresCase(a, b);
    TrimEndIgnoresCase(TrimStart(a), TrimStart(b));
    SameKeyIff(a, b);
  }
}
