/** Characters and strings as the JavaScript runtime sees them: the whitespace set
    shared by `\s` and `String.prototype.trim`, `trim` itself, prefixes and ASCII
    lower-casing. Strings are sequences of Unicode scalar values. */
module Strings {

  /** ECMAScript LineTerminator: LF, CR, LINE SEPARATOR, PARAGRAPH SEPARATOR. */
  predicate IsLineTerminator(c: char) {
    c == '\n' || c == '\r' || c == '\U{2028}' || c == '\U{2029}'
  }

  /** ECMAScript WhiteSpace plus LineTerminator: the set matched by `\s` and
      removed by `trim` (TAB, VT, FF, ZWNBSP and the Zs category). */
  predicate IsWhitespace(c: char) {
    || IsLineTerminator(c)
    || c == '\t' || c == '\U{B}' || c == '\U{C}' || c == '\U{FEFF}'
    || c == ' ' || c == '\U{A0}' || c == '\U{1680}'
    || ('\U{2000}' <= c <= '\U{200A}')
    || c == '\U{202F}' || c == '\U{205F}' || c == '\U{3000}'
  }

  predicate IsDigit(c: char) {
    '0' <= c <= '9'
  }

  predicate IsAsciiLetter(c: char) {
    ('a' <= c <= 'z') || ('A' <= c <= 'Z')
  }

  predicate StartsWith(s: string, prefix: string) {
    |prefix| <= |s| && s[..|prefix|] == prefix
  }

  /** Drops leading whitespace. */
  function TrimStart(s: string): (r: string)
    ensures |r| <= |s| && r == s[|s| - |r|..]
    ensures r == [] || !IsWhitespace(r[0])
    ensures forall k :: 0 <= k < |s| - |r| ==> IsWhitespace(s[k])
  {
    if s != [] && IsWhitespace(s[0]) then TrimStart(s[1..]) else s
  }

  /** Drops trailing whitespace. */
  function TrimEnd(s: string): (r: string)
    ensures |r| <= |s| && r == s[..|r|]
    ensures r == [] || !IsWhitespace(r[|r| - 1])
    ensures forall k :: |r| <= k < |s| ==> IsWhitespace(s[k])
  {
    if s != [] && IsWhitespace(s[|s| - 1]) then TrimEnd(s[..|s| - 1]) else s
  }

  /** `String.prototype.trim`: the input between its leading and trailing whitespace. */
  function Trim(s: string): (r: string)
    ensures var i := |s| - |TrimStart(s)|; i + |r| <= |s| && r == s[i..i + |r|]
    ensures r == [] || (!IsWhitespace(r[0]) && !IsWhitespace(r[|r| - 1]))
    ensures forall k :: 0 <= k < |s| - |TrimStart(s)| ==> IsWhitespace(s[k])
    ensures forall k :: |s| - |TrimStart(s)| + |r| <= k < |s| ==> IsWhitespace(s[k])
  {
    var t := TrimStart(s);
    var r := TrimEnd(t);
    TrimSlices(s, t, r);
    r
  }

  /** A suffix after leading whitespace, then a prefix of it before trailing
      whitespace, is a middle slice with whitespace on both sides. */
  lemma TrimSlices(s: string, t: string, r: string)
    requires |t| <= |s| && t == s[|s| - |t|..] && (t == [] || !IsWhitespace(t[0]))
    requires |r| <= |t| && r == t[..|r|] && (r == [] || !IsWhitespace(r[|r| - 1]))
    requires forall k :: |r| <= k < |t| ==> IsWhitespace(t[k])
    ensures var i := |s| - |t|; i + |r| <= |s| && r == s[i..i + |r|]
    ensures r == [] || (!IsWhitespace(r[0]) && !IsWhitespace(r[|r| - 1]))
    ensures forall k :: |s| - |t| + |r| <= k < |s| ==> IsWhitespace(s[k])
  {
    var i := |s| - |t|;
    assert r == s[i..][..|r|];
    forall k | i + |r| <= k < |s| ensures IsWhitespace(s[k]) {
      assert s[k] == t[k - i];
    }
  }

  /** A string that neither starts nor ends with whitespace is its own trim. */
  lemma TrimOfTrimmed(s: string)
    requires s == [] || (!IsWhitespace(s[0]) && !IsWhitespace(s[|s| - 1]))
    ensures Trim(s) == s
  {
    assert TrimStart(s) == s;
  }

  /** The trim is empty exactly when every character is whitespace. */
  lemma TrimEmptyIff(s: string)
    ensures Trim(s) == [] <==> forall k :: 0 <= k < |s| ==> IsWhitespace(s[k])
  {
    if Trim(s) == [] {
      var t := TrimStart(s);
      assert TrimEnd(t) == [];
      assert t == [];
    } else {
      var i := |s| - |TrimStart(s)|;
      assert s[i] == Trim(s)[0];
    }
  }

  /** A string ending in a non-whitespace character has a non-empty trim. */
  lemma TrimNonEmpty(s: string)
    requires s != [] && !IsWhitespace(s[|s| - 1])
    ensures Trim(s) != []
  {
    TrimEmptyIff(s);
  }

  /** Trimming adds no character. */
  lemma TrimKeepsOut(s: string, c: char)
    requires c !in s
    ensures c !in Trim(s)
  {
    var r := Trim(s);
    var i := |s| - |TrimStart(s)|;
    forall k | 0 <= k < |r| ensures r[k] != c {
      assert r[k] == s[i + k];
    }
  }

  /** ASCII upper-case letters to lower case; every other character is kept. */
  function ToLowerAscii(s: string): (r: string)
    ensures |r| == |s|
    ensures forall k :: 0 <= k < |s| ==> (if 'A' <= s[k] <= 'Z' then r[k] as int == s[k] as int + 32 else r[k] == s[k])
  {
    if s == [] then []
    else [if 'A' <= s[0] <= 'Z' then (s[0] as int + 32) as char else s[0]] + ToLowerAscii(s[1..])
  }

  /** Lower-casing an already lower-cased string changes nothing. */
  lemma ToLowerAsciiIdempotent(s: string)
    ensures ToLowerAscii(ToLowerAscii(s)) == ToLowerAscii(s)
  {
    var once := ToLowerAscii(s);
    var twice := ToLowerAscii(once);
    forall k | 0 <= k < |s| ensures twice[k] == once[k] {
      if 'A' <= s[k] <= 'Z' {
        assert !('A' <= once[k] <= 'Z');
      }
    }
  }
}
