/**
 * Text canonicalisation of `str.strip()` followed by `str.lower()`.
 * Whitespace is the set Python's `str.isspace` accepts; lower-casing
 * covers ASCII and Latin-1 capitals.
 */
module Text {

  /** The characters Python's `str.strip()` removes by default. */
  predicate IsSpace(c: char) {
    var n := c as int;
    || 9 <= n <= 13 || 28 <= n <= 32 || n == 0x85 || n == 0xA0 || n == 0x1680
    || 0x2000 <= n <= 0x200A || n == 0x2028 || n == 0x2029 || n == 0x202F
    || n == 0x205F || n == 0x3000
  }

  /** Capital letters that `str.lower()` maps 32 code points up. */
  predicate IsUpper(c: char) {
    var n := c as int;
    ('A' as int <= n <= 'Z' as int) || (0xC0 <= n <= 0xDE && n != 0xD7)
  }

  function LowerChar(c: char): (d: char)
    ensures !IsUpper(d)
    ensures IsSpace(d) == IsSpace(c)
    ensures !IsUpper(c) ==> d == c
  {
    if IsUpper(c) then (c as int + 32) as char else c
  }

  /**
   * `str.lower()`: every capital replaced by its small letter, which sits 32
   * code points above it; every other character kept.
   */
  function Lower(s: string): (r: string)
    ensures |r| == |s|
    ensures forall i :: 0 <= i < |s| ==> r[i] == LowerChar(s[i])
    ensures forall i :: 0 <= i < |r| ==> !IsUpper(r[i])
    ensures forall i :: 0 <= i < |s| && !IsUpper(s[i]) ==> r[i] == s[i]
    ensures forall i :: 0 <= i < |s| && IsUpper(s[i]) ==> r[i] as int == s[i] as int + 32
  {
    seq(|s|, i requires 0 <= i < |s| => LowerChar(s[i]))
  }

  predicate AllSpace(s: string) {
    forall i :: 0 <= i < |s| ==> IsSpace(s[i])
  }

  /** Neither end of the string is whitespace. */
  predicate Trimmed(s: string) {
    |s| == 0 || (!IsSpace(s[0]) && !IsSpace(s[|s| - 1]))
  }

  /** `str.lstrip()`: the suffix left after dropping leading whitespace. */
  function TrimStart(s: string): (r: string)
    ensures |r| <= |s| && r == s[|s| - |r|..]
    ensures AllSpace(s[..|s| - |r|])
    ensures |r| == 0 || !IsSpace(r[0])
  {
    if |s| > 0 && IsSpace(s[0]) then TrimStart(s[1..]) else s
  }

  /** `str.rstrip()`: the prefix left after dropping trailing whitespace. */
  function TrimEnd(s: string): (r: string)
    ensures |r| <= |s| && r == s[..|r|]
    ensures AllSpace(s[|r|..])
    ensures |r| == 0 || !IsSpace(r[|r| - 1])
  {
    if |s| > 0 && IsSpace(s[|s| - 1]) then TrimEnd(s[..|s| - 1]) else s
  }

  /** The number of whitespace characters at the start of `s`. */
  function LeadingSpaces(s: string): nat {
    if |s| > 0 && IsSpace(s[0]) then 1 + LeadingSpaces(s[1..]) else 0
  }

  /** `r` is the slice of `s` at offset `a`, with only whitespace before and after it. */
  predicate StripsTo(s: string, r: string, a: nat) {
    a + |r| <= |s| && r == s[a..a + |r|] && AllSpace(s[..a]) && AllSpace(s[a + |r|..])
  }

  /**
   * `str.strip()`: the middle slice of `s` that neither starts nor ends
   * with whitespace, obtained by removing only whitespace at both ends.
   */
  function Strip(s: string): (r: string)
    ensures Trimmed(r)
    ensures StripsTo(s, r, LeadingSpaces(s))
  {
    StripParts(s);
    TrimEnd(TrimStart(s))
  }

  lemma StripParts(s: string)
    ensures Trimmed(TrimEnd(TrimStart(s)))
    ensures StripsTo(s, TrimEnd(TrimStart(s)), LeadingSpaces(s))
  {
    var u := TrimStart(s);
    TrimStartDropsLeadingSpaces(s);
    TrimStartIsSuffix(s);
    TrimEndIsPrefix(u);
    StripSlice(s, u, TrimEnd(u), LeadingSpaces(s));
  }

  /** Trimming the start removes exactly the leading whitespace. */
  lemma {:induction false} TrimStartDropsLeadingSpaces(s: string)
    ensures |s| - |TrimStart(s)| == LeadingSpaces(s)
  {
    if |s| > 0 && IsSpace(s[0]) {
      TrimStartDropsLeadingSpaces(s[1..]);
    }
  }

  /** `u` is what is left of `s` after dropping whitespace from its start. */
  predicate SpaceThenSuffix(s: string, u: string) {
    |u| <= |s| && u == s[|s| - |u|..] && AllSpace(s[..|s| - |u|]) && (|u| == 0 || !IsSpace(u[0]))
  }

  /** `r` is what is left of `u` after dropping whitespace from its end. */
  predicate PrefixThenSpace(u: string, r: string) {
    |r| <= |u| && r == u[..|r|] && AllSpace(u[|r|..]) && (|r| == 0 || !IsSpace(r[|r| - 1]))
  }

  lemma TrimStartIsSuffix(s: string)
    ensures SpaceThenSuffix(s, TrimStart(s))
  {
  }

  lemma TrimEndIsPrefix(u: string)
    ensures PrefixThenSpace(u, TrimEnd(u))
  {
  }

  /**
   * A prefix `r`, not ending in whitespace, of a suffix `u`, not starting
   * with whitespace, of `s` is a trimmed slice of `s` with only whitespace
   * around it.
   */
  lemma StripSlice(s: string, u: string, r: string, a: nat)
    requires SpaceThenSuffix(s, u) && PrefixThenSpace(u, r) && a == |s| - |u|
    ensures Trimmed(r)
    ensures StripsTo(s, r, a)
  {
    SliceOfSuffix(s, a, |r|);
    assert |r| == 0 || r[0] == u[0];
  }

  lemma SliceOfSuffix<T>(s: seq<T>, a: nat, n: nat)
    requires a + n <= |s|
    ensures s[a..][..n] == s[a..a + n]
    ensures s[a..][n..] == s[a + n..]
  {
  }

  /**
   * The canonical form of a textual cell: stripped, then lower-cased. The
   * result has no whitespace at either end and no capitals.
   */
  function Normalize(s: string): (r: string)
    ensures Trimmed(r)
    ensures forall i :: 0 <= i < |r| ==> !IsUpper(r[i])
  {
    LowerKeepsTrimmed(Strip(s));
    Lower(Strip(s))
  }

  lemma TrimStartOfTrimmed(s: string)
    requires |s| == 0 || !IsSpace(s[0])
    ensures TrimStart(s) == s
  {
  }

  lemma TrimEndOfTrimmed(s: string)
    requires |s| == 0 || !IsSpace(s[|s| - 1])
    ensures TrimEnd(s) == s
  {
  }

  /** Stripping a string without whitespace at its ends changes nothing. */
  lemma StripOfTrimmed(s: string)
    requires Trimmed(s)
    ensures Strip(s) == s
  {
    TrimStartOfTrimmed(s);
    TrimEndOfTrimmed(s);
  }

  /** Leading whitespace does not survive stripping. */
  lemma StripDropsLeadingSpace(s: string)
    requires |s| > 0 && IsSpace(s[0])
    ensures Strip(s) == Strip(s[1..])
  {
    assert TrimStart(s) == TrimStart(s[1..]);
  }

  /** Trailing whitespace does not survive stripping. */
  lemma StripDropsTrailingSpace(s: string)
    requires |s| > 0 && IsSpace(s[|s| - 1])
    ensures Strip(s) == Strip(s[..|s| - 1])
  {
    var u := TrimStart(s);
    TrimStartDropLast(s);
    if |u| > 0 {
      assert u[|u| - 1] == s[|s| - 1];
    }
  }

  /**
   * Dropping the last character before trimming the start drops it after:
   * the leading whitespace is the same, unless the string is all whitespace.
   */
  lemma {:induction false} TrimStartDropLast(s: string)
    requires |s| > 0
    ensures var u := TrimStart(s);
      TrimStart(s[..|s| - 1]) == if |u| > 0 then u[..|u| - 1] else []
  {
    var p := s[..|s| - 1];
    if !IsSpace(s[0]) {
      assert TrimStart(s) == s;
      if |p| > 0 {
        assert p[0] == s[0];
        TrimStartOfTrimmed(p);
      }
    } else if |s| == 1 {
      assert TrimStart(s) == TrimStart(s[1..]) == [];
    } else {
      var t := s[1..];
      assert TrimStart(s) == TrimStart(t);
      assert p[0] == s[0];
      assert p[1..] == t[..|t| - 1];
      assert TrimStart(p) == TrimStart(t[..|t| - 1]);
      TrimStartDropLast(t);
    }
  }


  /** A string without whitespace at its ends normalises to its lower-cased form. */
  lemma NormalizeOfTrimmed(u: string)
    requires Trimmed(u)
    ensures Normalize(u) == Lower(u)
  {
    StripOfTrimmed(u);
  }

  /**
   * One whitespace character before or after a non-empty trimmed string
   * does not change its canonical form.
   */
  lemma NormalizeIgnoresOuterSpace(u: string, c: char)
    requires |u| > 0 && Trimmed(u) && IsSpace(c)
    ensures Normalize([c] + u) == Lower(u)
    ensures Normalize(u + [c]) == Lower(u)
  {
    StripSpaceBefore(u, c);
    StripSpaceAfter(u, c);
  }

  lemma StripSpaceBefore(u: string, c: char)
    requires |u| > 0 && Trimmed(u) && IsSpace(c)
    ensures Strip([c] + u) == u
  {
    StripOfTrimmed(u);
    StripDropsLeadingSpace([c] + u);
    assert ([c] + u)[1..] == u;
  }

  lemma StripSpaceAfter(u: string, c: char)
    requires |u| > 0 && Trimmed(u) && IsSpace(c)
    ensures Strip(u + [c]) == u
  {
    StripOfTrimmed(u);
    StripDropsTrailingSpace(u + [c]);
    assert (u + [c])[..|u|] == u;
  }

  /** Lower-casing twice is lower-casing once. */
  lemma LowerIdempotent(s: string)
    ensures Lower(Lower(s)) == Lower(s)
  {
  }

  /** Lower-casing leaves whitespace where it was, so a trimmed string stays trimmed. */
  lemma LowerKeepsTrimmed(s: string)
    requires Trimmed(s)
    ensures Trimmed(Lower(s))
  {
  }

  /** Normalising an already normalised string changes nothing. */
  lemma NormalizeIdempotent(s: string)
    ensures Normalize(Normalize(s)) == Normalize(s)
  {
    var n := Normalize(s);
    LowerKeepsTrimmed(Strip(s));
    StripOfTrimmed(n);
    LowerIdempotent(Strip(s));
  }

  lemma {:induction false} TrimStartLowerCommute(s: string)
    ensures TrimStart(Lower(s)) == Lower(TrimStart(s))
  {
    if |s| > 0 && IsSpace(s[0]) {
      assert Lower(s)[1..] == Lower(s[1..]);
      TrimStartLowerCommute(s[1..]);
    }
  }

  lemma {:induction false} TrimEndLowerCommute(s: string)
    ensures TrimEnd(Lower(s)) == Lower(TrimEnd(s))
  {
    if |s| > 0 && IsSpace(s[|s| - 1]) {
      assert Lower(s)[..|s| - 1] == Lower(s[..|s| - 1]);
      TrimEndLowerCommute(s[..|s| - 1]);
    }
  }

  /** Stripping and lower-casing commute, so their order in the cleaner is immaterial. */
  lemma StripLowerCommute(s: string)
    ensures Strip(Lower(s)) == Lower(Strip(s))
  {
    TrimStartLowerCommute(s);
    TrimEndLowerCommute(TrimStart(s));
  }
}
