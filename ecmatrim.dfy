/**
 * ECMAScript's String.prototype.trim: it removes leading and trailing
 * characters that are WhiteSpace or LineTerminator code points.
 */
module EcmaTrim {

  /**
   * WhiteSpace (tab, vertical tab, form feed, space, no-break space, the byte
   * order mark and the other Unicode "Zs" space separators) and LineTerminator
   * (line feed, carriage return, line and paragraph separators). None of them
   * is a tag delimiter, so trimming and tag stripping never compete for a character.
   */
  predicate IsWhiteSpace(c: char)
    ensures IsWhiteSpace(c) ==> c != '<' && c != '>'
  {
    || c == '\t' || c == '\U{000B}' || c == '\U{000C}' || c == ' '
    || c == '\U{00A0}' || c == '\U{FEFF}' || c == '\U{1680}'
    || ('\U{2000}' <= c <= '\U{200A}')
    || c == '\U{202F}' || c == '\U{205F}' || c == '\U{3000}'
    || c == '\n' || c == '\r' || c == '\U{2028}' || c == '\U{2029}'
  }

  /** Every character of `s` is white space (vacuously true of ""). */
  ghost predicate AllWhiteSpace(s: string)
  {
    forall k :: 0 <= k < |s| ==> IsWhiteSpace(s[k])
  }

  /** Drops the leading white space: the result is the suffix of `s` that starts at its first other character. */
  function TrimStart(s: string): (r: string)
    ensures |r| <= |s| && r == s[|s| - |r|..]
    ensures AllWhiteSpace(s[..|s| - |r|])
    ensures r != [] ==> !IsWhiteSpace(r[0])
  {
    if s != [] && IsWhiteSpace(s[0]) then TrimStart(s[1..]) else s
  }

  /** Drops the trailing white space: the result is the prefix of `s` that ends at its last other character. */
  function TrimEnd(s: string): (r: string)
    ensures |r| <= |s| && r == s[..|r|]
    ensures AllWhiteSpace(s[|r|..])
    ensures r != [] ==> !IsWhiteSpace(r[|r| - 1])
  {
    if s != [] && IsWhiteSpace(s[|s| - 1]) then TrimEnd(s[..|s| - 1]) else s
  }

  /**
   * Drops white space at both ends: the result is the slice of `s` from its
   * first to its last character that is not white space, or "" when there is none.
   */
  function Trim(s: string): (r: string)
    ensures |r| <= |s|
    ensures r != [] ==> !IsWhiteSpace(r[0]) && !IsWhiteSpace(r[|r| - 1])
  {
    TrimEnd(TrimStart(s))
  }

  /**
   * The trimmed text is the slice `s[i..j]` with only white space before `i`
   * and from `j` on; since the slice neither starts nor ends with white space
   * unless it is empty, `i` is the first and `j - 1` the last character of `s`
   * that is not white space.
   */
  lemma TrimBounds(s: string)
    ensures exists i, j :: 0 <= i <= j <= |s| && Trim(s) == s[i..j] && AllWhiteSpace(s[..i]) && AllWhiteSpace(s[j..])
  {
    var t := TrimStart(s);
    var r := TrimEnd(t);
    var m := |s| - |t|;
    assert t == s[m..];
    assert r == s[m..m + |r|];
    assert s[m + |r|..] == t[|r|..];
  }

  /** The trimmed text is empty exactly when the input is all white space. */
  lemma TrimEmptyIff(s: string)
    ensures Trim(s) == [] <==> AllWhiteSpace(s)
  {
    var t := TrimStart(s);
    var m := |s| - |t|;
    if Trim(s) == [] {
      assert AllWhiteSpace(t[0..]);
      assert t == [];
      assert s[..m] == s;
    } else {
      var r := Trim(s);
      assert r[0] == t[0] == s[m];
      assert !IsWhiteSpace(s[m]);
    }
  }
}
