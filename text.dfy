/**
 Character-level helpers the server relies on through JavaScript's string
 library: String.prototype.trim, the regex class \s and String.prototype.includes.
 */
module Text {

  /** The characters that `trim` strips and `\s` matches: WhiteSpace and
      LineTerminator of ECMA-262 (sections 12.2 and 12.3), with the Zs
      category as of Unicode 15. */
  const Whitespace: set<char> := {
    '\t', '\U{000B}', '\U{000C}', ' ', '\U{00A0}', '\U{FEFF}', '\U{1680}',
    '\U{2000}', '\U{2001}', '\U{2002}', '\U{2003}', '\U{2004}', '\U{2005}',
    '\U{2006}', '\U{2007}', '\U{2008}', '\U{2009}', '\U{200A}',
    '\U{202F}', '\U{205F}', '\U{3000}',
    '\n', '\r', '\U{2028}', '\U{2029}'
  }

  predicate IsSpace(c: char) {
    c in Whitespace
  }

  predicate AllSpace(s: string) {
    forall k :: 0 <= k < |s| ==> IsSpace(s[k])
  }

  /** Drops the leading whitespace (see TrimStartSpec). */
  function TrimStart(s: string): string
    decreases |s|
  {
    if |s| > 0 && IsSpace(s[0]) then TrimStart(s[1..]) else s
  }

  /** Drops the trailing whitespace (see TrimEndSpec). */
  function TrimEnd(s: string): string
    decreases |s|
  {
    if |s| > 0 && IsSpace(s[|s| - 1]) then TrimEnd(s[..|s| - 1]) else s
  }

  /** String.prototype.trim (see TrimIsSlice and TrimHasNoSpaceAtEnds). */
  function Trim(s: string): string {
    TrimEnd(TrimStart(s))
  }

  /** TrimStart yields the longest suffix of `s` that does not start with
      whitespace: everything it drops is whitespace. */
  lemma {:induction false} TrimStartSpec(s: string)
    ensures |TrimStart(s)| <= |s| && TrimStart(s) == s[|s| - |TrimStart(s)|..]
    ensures TrimStart(s) == [] || !IsSpace(TrimStart(s)[0])
    ensures forall k :: 0 <= k < |s| - |TrimStart(s)| ==> IsSpace(s[k])
    decreases |s|
  {
    if |s| > 0 && IsSpace(s[0]) {
      TrimStartSpec(s[1..]);
      assert forall k :: 1 <= k < |s| ==> s[k] == s[1..][k - 1];
    }
  }

  /** TrimEnd yields the longest prefix of `s` that does not end with
      whitespace: everything it drops is whitespace. */
  lemma {:induction false} TrimEndSpec(s: string)
    ensures |TrimEnd(s)| <= |s| && TrimEnd(s) == s[..|TrimEnd(s)|]
    ensures TrimEnd(s) == [] || !IsSpace(TrimEnd(s)[|TrimEnd(s)| - 1])
    ensures forall k :: |TrimEnd(s)| <= k < |s| ==> IsSpace(s[k])
    decreases |s|
  {
    if |s| > 0 && IsSpace(s[|s| - 1]) {
      TrimEndSpec(s[..|s| - 1]);
      assert forall k :: 0 <= k < |s| - 1 ==> s[k] == s[..|s| - 1][k];
    }
  }

  /** Trim keeps the slice s[i..i + |Trim(s)|], where i is the amount of
      leading whitespace, and everything outside that slice is whitespace. */
  lemma TrimIsSlice(s: string)
    ensures var r, i := Trim(s), |s| - |TrimStart(s)|;
      && 0 <= i && i + |r| <= |s|
      && r == s[i..i + |r|]
      && (forall k :: 0 <= k < i ==> IsSpace(s[k]))
      && (forall k :: i + |r| <= k < |s| ==> IsSpace(s[k]))
  {
    var t := TrimStart(s);
    TrimStartSpec(s);
    TrimEndSpec(t);
    var r, i := TrimEnd(t), |s| - |t|;
    assert t == s[i..];
    forall k | i + |r| <= k < |s| ensures IsSpace(s[k]) {
      assert s[k] == t[k - i];
    }
    assert s[i..i + |r|] == t[..|r|] by {
      forall k | 0 <= k < |r| ensures s[i..i + |r|][k] == t[..|r|][k] {
        assert t[k] == s[i + k];
      }
    }
  }

  /** The trimmed string neither starts nor ends with whitespace. */
  lemma TrimHasNoSpaceAtEnds(s: string)
    ensures Trim(s) == [] || (!IsSpace(Trim(s)[0]) && !IsSpace(Trim(s)[|Trim(s)| - 1]))
  {
    var t := TrimStart(s);
    TrimStartSpec(s);
    TrimEndSpec(t);
    assert Trim(s) != [] ==> Trim(s)[0] == t[0];
  }

  /** Trim gives the empty string exactly when `s` is all whitespace. */
  lemma TrimEmptyIffBlank(s: string)
    ensures Trim(s) == [] <==> AllSpace(s)
  {
    TrimIsSlice(s);
    TrimHasNoSpaceAtEnds(s);
  }

  /** A string that neither starts nor ends with whitespace is its own trim. */
  lemma TrimOfTrimmed(t: string)
    requires t == [] || (!IsSpace(t[0]) && !IsSpace(t[|t| - 1]))
    ensures Trim(t) == t
  {
  }

  /** Trimming an already trimmed string changes nothing. */
  lemma TrimIdempotent(s: string)
    ensures Trim(Trim(s)) == Trim(s)
  {
    TrimHasNoSpaceAtEnds(s);
    TrimOfTrimmed(Trim(s));
  }

  predicate IsPrefix(p: string, s: string) {
    |p| <= |s| && s[..|p|] == p
  }

  /** String.prototype.includes: `part` occurs somewhere in `s`. */
  predicate Contains(s: string, part: string)
    decreases |s|
  {
    IsPrefix(part, s) || (|s| > 0 && Contains(s[1..], part))
  }

  /** A string that lacks the first character of `part` cannot contain it. */
  lemma {:induction false} ContainsNeedsFirstChar(s: string, part: string)
    requires |part| > 0 && part[0] !in s
    ensures !Contains(s, part)
    decreases |s|
  {
    if |part| <= |s| {
      assert s[..|part|][0] == s[0];
    }
    if |s| > 0 {
      assert forall c :: c in s[1..] ==> c in s;
      ContainsNeedsFirstChar(s[1..], part);
    }
  }

  /** `Contains` agrees with the slice-based reading of `includes`. */
  lemma {:induction false} ContainsAt(s: string, part: string, i: nat)
    requires i + |part| <= |s| && s[i..i + |part|] == part
    ensures Contains(s, part)
    decreases i
  {
    if i > 0 {
      assert s[1..][i - 1..i - 1 + |part|] == part;
      ContainsAt(s[1..], part, i - 1);
    }
  }
}
