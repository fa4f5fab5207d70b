/**
 * The emptiness test that guards record creation: `s.trim() !== ''`.
 * `String.prototype.trim` removes, from both ends, every code point that
 * ECMAScript classifies as WhiteSpace or LineTerminator.
 */
module Text {

  /** ECMAScript WhiteSpace (TAB, VT, FF, ZWNBSP and the Unicode "Zs" spaces) and LineTerminator (LF, CR, LS, PS). */
  predicate IsWhitespace(c: char) {
    || c == '\t' || c == '\U{000B}' || c == '\U{000C}' || c == '\U{FEFF}'
    || c == ' ' || c == '\U{00A0}' || c == '\U{1680}' || '\U{2000}' <= c <= '\U{200A}'
    || c == '\U{202F}' || c == '\U{205F}' || c == '\U{3000}'
    || c == '\n' || c == '\r' || c == '\U{2028}' || c == '\U{2029}'
  }

  /** A string made of whitespace only (the empty string included). */
  predicate IsBlank(s: string) {
    forall i | 0 <= i < |s| :: IsWhitespace(s[i])
  }

  /** Drops leading whitespace. */
  function TrimStart(s: string): (r: string)
    ensures |r| <= |s|
  {
    if |s| > 0 && IsWhitespace(s[0]) then TrimStart(s[1..]) else s
  }

  /** Drops trailing whitespace. */
  function TrimEnd(s: string): (r: string)
    ensures |r| <= |s|
  {
    if |s| > 0 && IsWhitespace(s[|s| - 1]) then TrimEnd(s[..|s| - 1]) else s
  }

  /** `s.trim()` */
  function Trim(s: string): (r: string)
    ensures |r| <= |s|
  {
    TrimEnd(TrimStart(s))
  }

  /** TrimStart keeps the suffix of `s` that starts at its first non-whitespace character. */
  lemma {:induction false} TrimStartSpec(s: string)
    ensures var r := TrimStart(s);
      && r == s[|s| - |r|..]
      && (forall i | 0 <= i < |s| - |r| :: IsWhitespace(s[i]))
      && (r == [] || !IsWhitespace(r[0]))
  {
    if |s| > 0 && IsWhitespace(s[0]) {
      TrimStartSpec(s[1..]);
    }
  }

  /** TrimEnd keeps the prefix of `s` that ends at its last non-whitespace character. */
  lemma {:induction false} TrimEndSpec(s: string)
    ensures var r := TrimEnd(s);
      && r == s[..|r|]
      && (forall i | |r| <= i < |s| :: IsWhitespace(s[i]))
      && (r == [] || !IsWhitespace(r[|r| - 1]))
  {
    if |s| > 0 && IsWhitespace(s[|s| - 1]) {
      TrimEndSpec(s[..|s| - 1]);
    }
  }

  /**
   * `s.trim()` is the piece of `s` between its leading and its trailing
   * whitespace: every character cut away is whitespace, and the piece kept
   * neither starts nor ends with whitespace.
   */
  lemma TrimSpec(s: string)
    ensures var k := |s| - |TrimStart(s)|; var r := Trim(s);
      && k + |r| <= |s|
      && r == s[k..k + |r|]
      && (forall i | 0 <= i < k :: IsWhitespace(s[i]))
      && (forall i | k + |r| <= i < |s| :: IsWhitespace(s[i]))
      && (r == [] || (!IsWhitespace(r[0]) && !IsWhitespace(r[|r| - 1])))
  {
    var t := TrimStart(s);
    TrimStartSpec(s);
    TrimEndSpec(t);
    var k := |s| - |t|;
    forall i | k + |Trim(s)| <= i < |s| ensures IsWhitespace(s[i]) {
      assert s[i] == t[i - k];
    }
  }

  /** `s.trim() === ''` holds exactly for the blank strings. */
  lemma TrimEmptyIffBlank(s: string)
    ensures Trim(s) == [] <==> IsBlank(s)
  {
    TrimSpec(s);
  }
}
