/**
 The string trimming the task form applies to its draft before it checks it and
 stores it: ECMAScript's String.prototype.trim, which removes every leading and
 trailing WhiteSpace or LineTerminator code point and keeps the middle intact.
 */
module Text {

  /** The WhiteSpace and LineTerminator code points of ECMAScript (sections 12.2
      and 12.3 of ECMA-262): tab, line feed, vertical tab, form feed, carriage
      return, space, no-break space, the byte order mark, the line and paragraph
      separators and the space separators of Unicode category Zs. */
  predicate IsWhitespace(c: char) {
    || c == '\t' || c == '\n' || c == '\U{000B}' || c == '\U{000C}' || c == '\r'
    || c == ' ' || c == '\U{00A0}' || c == '\U{1680}'
    || ('\U{2000}' <= c <= '\U{200A}')
    || c == '\U{2028}' || c == '\U{2029}' || c == '\U{202F}' || c == '\U{205F}'
    || c == '\U{3000}' || c == '\U{FEFF}'
  }

  /** True iff s holds whitespace only (the empty string included). */
  predicate IsBlank(s: string) {
    forall i :: 0 <= i < |s| ==> IsWhitespace(s[i])
  }

  /** s[lo..hi] is s with its whitespace margins cut off: every character
      before lo and from hi on is whitespace, and a non-empty middle starts and
      ends with a character that is not. */
  ghost predicate Stripped(s: string, lo: int, hi: int) {
    && 0 <= lo <= hi <= |s|
    && (forall i :: 0 <= i < lo ==> IsWhitespace(s[i]))
    && (forall i :: hi <= i < |s| ==> IsWhitespace(s[i]))
    && (lo < hi ==> !IsWhitespace(s[lo]) && !IsWhitespace(s[hi - 1]))
  }

  /** The position of the first character at or after i that is not
      whitespace (|s| when there is none): everything skipped is whitespace. */
  function StartOfText(s: string, i: nat): (lo: nat)
    requires i <= |s|
    ensures i <= lo <= |s|
    ensures forall j :: i <= j < lo ==> IsWhitespace(s[j])
    ensures lo < |s| ==> !IsWhitespace(s[lo])
    decreases |s| - i
  {
    if i < |s| && IsWhitespace(s[i]) then StartOfText(s, i + 1) else i
  }

  /** The end of s[lo..hi] once its trailing whitespace is dropped: everything
      dropped is whitespace, and what remains, when not empty, does not end
      with whitespace. */
  function EndOfText(s: string, lo: nat, hi: nat): (e: nat)
    requires lo <= hi <= |s|
    ensures lo <= e <= hi
    ensures forall j :: e <= j < hi ==> IsWhitespace(s[j])
    ensures lo < e ==> !IsWhitespace(s[e - 1])
    decreases hi - lo
  {
    if lo < hi && IsWhitespace(s[hi - 1]) then EndOfText(s, lo, hi - 1) else hi
  }

  /** String.prototype.trim: the result is s with its whitespace margins cut
      off, and it is empty exactly when s is blank. */
  function Trim(s: string): (r: string)
    ensures exists lo, hi :: Stripped(s, lo, hi) && r == s[lo..hi]
    ensures r == [] <==> IsBlank(s)
  {
    var lo := StartOfText(s, 0);
    var hi := EndOfText(s, lo, |s|);
    assert Stripped(s, lo, hi);
    s[lo..hi]
  }

  /** Stripping has only one outcome: any two ways of cutting whitespace
      margins off s leave the same middle. */
  lemma StrippedUnique(s: string, lo: int, hi: int, lo': int, hi': int)
    requires Stripped(s, lo, hi) && Stripped(s, lo', hi')
    ensures s[lo..hi] == s[lo'..hi']
  {
  }

  /** Trim is the one and only stripping of s: whatever margins are cut off,
      the middle that remains is Trim(s). */
  lemma TrimUnique(s: string, lo: int, hi: int)
    requires Stripped(s, lo, hi)
    ensures Trim(s) == s[lo..hi]
  {
    var r := Trim(s);
    var lo', hi' :| Stripped(s, lo', hi') && r == s[lo'..hi'];
    StrippedUnique(s, lo, hi, lo', hi');
  }

  /** Trimming twice is trimming once. */
  lemma TrimIdempotent(s: string)
    ensures Trim(Trim(s)) == Trim(s)
  {
    var r := Trim(s);
    var lo, hi :| Stripped(s, lo, hi) && r == s[lo..hi];
    TrimUnique(r, 0, |r|);
  }

  /** A string without whitespace margins is left as it is. */
  lemma TrimKeeps(s: string)
    requires s == [] || (!IsWhitespace(s[0]) && !IsWhitespace(s[|s| - 1]))
    ensures Trim(s) == s
  {
    TrimUnique(s, 0, |s|);
  }
}
