/**
 * The tag-stripping pass of the blog form's content check: every match of the
 * regular expression  <\/?[^>]+(>|$)  (global flag) is replaced by the empty
 * string, under ECMAScript's leftmost, greedy matching.
 *
 * Because `/` is itself a character other than `>`, the optional slash adds
 * nothing to the set of strings the pattern matches: a match is a `<`, one or
 * more characters other than `>`, and then either a `>` or the end of the
 * input. At any position there is at most one such match, so the greedy
 * engine's choice is forced.
 */
module TagStrip {

  /** The pattern matches exactly the first `len` characters of `s`. */
  ghost predicate MatchesAt(s: string, len: nat)
  {
    && 2 <= len <= |s|
    && s[0] == '<'
    && (forall k :: 1 <= k < len - 1 ==> s[k] != '>')
    && ((len >= 3 && s[len - 1] == '>') || (len == |s| && s[len - 1] != '>'))
  }

  /** A complete tag: `<`, at least one character other than `>`, then `>`. */
  ghost predicate ClosedTag(t: string)
  {
    && |t| >= 3
    && t[0] == '<'
    && t[|t| - 1] == '>'
    && forall k :: 1 <= k < |t| - 1 ==> t[k] != '>'
  }

  /** Index of the first `>` at or after `i`, or `|s|` when there is none. */
  function IndexOfClose(s: string, i: nat): (j: nat)
    requires i <= |s|
    ensures i <= j <= |s|
    ensures forall k :: i <= k < j ==> s[k] != '>'
    ensures j < |s| ==> s[j] == '>'
    decreases |s| - i
  {
    if i == |s| || s[i] == '>' then i else IndexOfClose(s, i + 1)
  }

  /**
   * Length of the pattern's match at the start of `s`, or 0 when the pattern
   * does not match there (a `<` that is last or followed by `>`, or any other
   * first character). The match is the only one there is.
   */
  function MatchLength(s: string): (n: nat)
    ensures n <= |s|
    ensures n > 0 ==> MatchesAt(s, n)
    ensures forall len: nat :: MatchesAt(s, len) ==> len == n
  {
    if |s| < 2 || s[0] != '<' || s[1] == '>' then 0
    else
      var j := IndexOfClose(s, 1);
      if j < |s| then j + 1 else |s|
  }

  /**
   * The global replacement: scanning left to right, a match is deleted and the
   * scan resumes after it; where nothing matches, one character is kept.
   */
  function Strip(s: string): (r: string)
    ensures |r| <= |s|
    decreases |s|
  {
    if s == [] then []
    else
      var n := MatchLength(s);
      if n > 0 then Strip(s[n..]) else [s[0]] + Strip(s[1..])
  }

  /** No `<` survives except as the last character or right before a `>`. */
  ghost predicate Inert(s: string)
  {
    forall i :: 0 <= i < |s| - 1 && s[i] == '<' ==> s[i + 1] == '>'
  }

  /** Text without any `<` passes through unchanged. */
  lemma {:induction false} StripNoTags(s: string)
    requires '<' !in s
    ensures Strip(s) == s
    decreases |s|
  {
    if s != [] {
      assert MatchLength(s) == 0;
      assert '<' !in s[1..] by {
        forall k | 0 <= k < |s[1..]| ensures s[1..][k] != '<' {
          assert s[1..][k] == s[k + 1];
        }
      }
      StripNoTags(s[1..]);
    }
  }

  /** A prefix without `<` is copied, and the rest is stripped on its own. */
  lemma {:induction false} StripPlainPrefix(u: string, v: string)
    requires '<' !in u
    ensures Strip(u + v) == u + Strip(v)
    decreases |u|
  {
    if u != [] {
      var s := u + v;
      assert s[0] == u[0] && u[0] in u;
      assert MatchLength(s) == 0;
      assert s[1..] == u[1..] + v;
      StripPlainPrefix(u[1..], v);
      calc {
        Strip(s);
        [s[0]] + Strip(s[1..]);
        [u[0]] + (u[1..] + Strip(v));
        { assert [u[0]] + u[1..] == u; }
        u + Strip(v);
      }
    } else {
      assert u + v == v;
    }
  }

  /** A complete tag at the front is deleted, whatever follows it. */
  lemma StripClosedTag(t: string, v: string)
    requires ClosedTag(t)
    ensures Strip(t + v) == Strip(v)
  {
    var s := t + v;
    assert MatchesAt(s, |t|) by {
      forall k | 1 <= k < |t| - 1 ensures s[k] != '>' {
        assert s[k] == t[k];
      }
    }
    assert MatchLength(s) == |t|;
    assert s[|t|..] == v;
  }

  /** An unclosed `<x…` deletes everything from the `<` to the end. */
  lemma StripUnclosedTail(u: string, v: string)
    requires '<' !in u
    requires |v| >= 2 && v[0] == '<' && '>' !in v[1..]
    ensures Strip(u + v) == u
  {
    assert MatchesAt(v, |v|) by {
      forall k | 1 <= k < |v| ensures v[k] != '>' {
        assert v[k] == v[1..][k - 1];
      }
    }
    assert MatchLength(v) == |v|;
    assert v[|v|..] == [];
    StripPlainPrefix(u, v);
  }

  /** The first output character of a string starting with `>` is that `>`. */
  lemma StripLeadingClose(s: string)
    requires |s| > 0 && s[0] == '>'
    ensures Strip(s) == ['>'] + Strip(s[1..])
  {
    assert MatchLength(s) == 0;
  }

  /** Stripping leaves no `<` that could start another match. */
  lemma {:induction false} StripIsInert(s: string)
    ensures Inert(Strip(s))
    decreases |s|
  {
    if s != [] {
      var n := MatchLength(s);
      if n > 0 {
        StripIsInert(s[n..]);
      } else {
        var rest := Strip(s[1..]);
        StripIsInert(s[1..]);
        assert Strip(s) == [s[0]] + rest;
        if s[0] == '<' && |s| >= 2 {
          assert s[1] == '>';
          StripLeadingClose(s[1..]);
          assert rest[0] == '>';
        }
        var r := Strip(s);
        forall i | 0 <= i < |r| - 1 && r[i] == '<' ensures r[i + 1] == '>' {
          if i > 0 {
            assert r[i] == rest[i - 1] && r[i + 1] == rest[i];
          }
        }
      }
    }
  }

  /** An inert string is a fixed point of stripping. */
  lemma {:induction false} StripInertFixed(s: string)
    requires Inert(s)
    ensures Strip(s) == s
    decreases |s|
  {
    if s != [] {
      assert MatchLength(s) == 0;
      assert Inert(s[1..]) by {
        forall i | 0 <= i < |s[1..]| - 1 && s[1..][i] == '<' ensures s[1..][i + 1] == '>' {
          assert s[1..][i] == s[i + 1] && s[1..][i + 1] == s[i + 2];
        }
      }
      StripInertFixed(s[1..]);
      assert [s[0]] + s[1..] == s;
    }
  }

  /** A second pass changes nothing. */
  lemma StripIdempotent(s: string)
    ensures Strip(Strip(s)) == Strip(s)
  {
    StripIsInert(s);
    StripInertFixed(Strip(s));
  }

  /** `a` is `b` with some characters deleted: the characters of `a` occur in `b` in the same order. */
  ghost predicate IsSubsequence(a: string, b: string)
    decreases |b|
  {
    if a == [] then true
    else if b == [] then false
    else (a[0] == b[0] && IsSubsequence(a[1..], b[1..])) || IsSubsequence(a, b[1..])
  }

  /** A subsequence of a suffix is a subsequence of the whole. */
  lemma {:induction false} SubsequenceOfSuffix(a: string, b: string, k: nat)
    requires k <= |b| && IsSubsequence(a, b[k..])
    ensures IsSubsequence(a, b)
    decreases k
  {
    if k > 0 {
      assert b[k..] == b[1..][k - 1..];
      SubsequenceOfSuffix(a, b[1..], k - 1);
    }
  }

  /** Stripping only deletes: the output is the input with some characters removed, in the original order. */
  lemma {:induction false} StripOnlyDeletes(s: string)
    ensures IsSubsequence(Strip(s), s)
    decreases |s|
  {
    if s != [] {
      var n := MatchLength(s);
      if n > 0 {
        StripOnlyDeletes(s[n..]);
        SubsequenceOfSuffix(Strip(s), s, n);
      } else {
        var rest := Strip(s[1..]);
        StripOnlyDeletes(s[1..]);
        var r := Strip(s);
        assert r == [s[0]] + rest;
        assert r[0] == s[0] && r[1..] == rest;
      }
    }
  }

  /** No character occurs more often after stripping than before. */
  lemma {:induction false} StripCountsShrink(s: string)
    ensures multiset(Strip(s)) <= multiset(s)
    decreases |s|
  {
    if s != [] {
      var n := MatchLength(s);
      if n > 0 {
        StripCountsShrink(s[n..]);
        calc {
          multiset(s);
          { assert s == s[..n] + s[n..]; }
          multiset(s[..n]) + multiset(s[n..]);
        }
      } else {
        var rest := Strip(s[1..]);
        StripCountsShrink(s[1..]);
        assert Strip(s) == [s[0]] + rest;
        calc {
          multiset(s);
          { assert s == [s[0]] + s[1..]; }
          multiset([s[0]]) + multiset(s[1..]);
        }
      }
    }
  }
}
