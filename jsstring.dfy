/**
  The part of JavaScript's String.prototype.trim that the docking-position
  parser relies on. A JavaScript string is a sequence of UTF-16 code units;
  here it is a `string` (a sequence of Unicode scalar values), which agrees
  with it for every character trim looks at, since all of them lie in the
  Basic Multilingual Plane.
 */
module JsString {

  /** ECMAScript's WhiteSpace and LineTerminator code points: TAB, LF, VT,
      FF and CR (U+0009 to U+000D), LINE SEPARATOR (U+2028), PARAGRAPH
      SEPARATOR (U+2029), ZWNBSP (U+FEFF) and the members of the Unicode
      category Zs (U+0020, U+00A0, U+1680, U+2000 to U+200A, U+202F,
      U+205F, U+3000). The Zs list is the one current Unicode versions
      assign; a space separator added by a later version would not be
      followed. */
  predicate IsWhiteSpace(c: char) {
    || '\t' <= c <= '\r'
    || c == ' ' || c == '\U{A0}' || c == '\U{1680}'
    || '\U{2000}' <= c <= '\U{200A}'
    || c == '\U{2028}' || c == '\U{2029}' || c == '\U{202F}' || c == '\U{205F}'
    || c == '\U{3000}' || c == '\U{FEFF}'
  }

  /** The no-break space and the byte order mark count as white space;
      NEXT LINE (U+0085) and ZERO WIDTH SPACE (U+200B), which other
      languages' trim functions treat differently, do not. */
  lemma {:induction false} WhiteSpaceEdgeCases()
    ensures IsWhiteSpace('\U{A0}') && IsWhiteSpace('\U{FEFF}') && IsWhiteSpace('\U{3000}')
    ensures !IsWhiteSpace('\U{85}') && !IsWhiteSpace('\U{200B}') && !IsWhiteSpace('\U{180E}')
  {
  }

  /** Every character of `s` is white space. */
  predicate AllWhiteSpace(s: string) {
    forall k :: 0 <= k < |s| ==> IsWhiteSpace(s[k])
  }

  /** The first index at or after `i` that does not hold white space, or
      |s| if there is none. */
  function SkipForward(s: string, i: nat): (n: nat)
    requires i <= |s|
    ensures i <= n <= |s|
    ensures forall k :: i <= k < n ==> IsWhiteSpace(s[k])
    ensures n == |s| || !IsWhiteSpace(s[n])
    decreases |s| - i
  {
    if i < |s| && IsWhiteSpace(s[i]) then SkipForward(s, i + 1) else i
  }

  /** The index just past the last character before `j` that is not white
      space, or 0 if there is none. */
  function SkipBackward(s: string, j: nat): (n: nat)
    requires j <= |s|
    ensures n <= j
    ensures forall k :: n <= k < j ==> IsWhiteSpace(s[k])
    ensures n == 0 || !IsWhiteSpace(s[n - 1])
  {
    if j > 0 && IsWhiteSpace(s[j - 1]) then SkipBackward(s, j - 1) else j
  }

  /** The length of the white space that `s` starts with. */
  function LeadingSpace(s: string): (n: nat)
    ensures n <= |s| && forall k :: 0 <= k < n ==> IsWhiteSpace(s[k])
    ensures n == |s| || !IsWhiteSpace(s[n])
  {
    SkipForward(s, 0)
  }

  /** Where the white space that `s` ends with begins. */
  function TrailingStart(s: string): (n: nat)
    ensures n <= |s| && forall k :: n <= k < |s| ==> IsWhiteSpace(s[k])
    ensures n == 0 || !IsWhiteSpace(s[n - 1])
  {
    SkipBackward(s, |s|)
  }

  /** The two conditions of LeadingSpace's contract determine its value. */
  lemma {:induction false} LeadingSpaceUnique(s: string, n: nat)
    requires n <= |s| && (forall k :: 0 <= k < n ==> IsWhiteSpace(s[k]))
    requires n == |s| || !IsWhiteSpace(s[n])
    ensures LeadingSpace(s) == n
  {
  }

  /** The two conditions of TrailingStart's contract determine its value. */
  lemma {:induction false} TrailingStartUnique(s: string, n: nat)
    requires n <= |s| && (forall k :: n <= k < |s| ==> IsWhiteSpace(s[k]))
    requires n == 0 || !IsWhiteSpace(s[n - 1])
    ensures TrailingStart(s) == n
  {
  }

  /** String.prototype.trim: the slice of `s` between its leading white
      space and its trailing white space; nothing at all when `s` is white
      space only. */
  function Trim(s: string): (r: string)
    ensures var i := LeadingSpace(s);
      && i + |r| <= |s| && r == s[i..i + |r|]
      && forall k :: i + |r| <= k < |s| ==> IsWhiteSpace(s[k])
    ensures r == [] || (!IsWhiteSpace(r[0]) && !IsWhiteSpace(r[|r| - 1]))
  {
    var i := LeadingSpace(s);
    var j := TrailingStart(s);
    if i == |s| then [] else s[i..j]
  }

  /** A string that starts and ends with something other than white space is
      left alone by trim. */
  lemma {:induction false} TrimOfTrimmed(s: string)
    requires s == [] || (!IsWhiteSpace(s[0]) && !IsWhiteSpace(s[|s| - 1]))
    ensures Trim(s) == s
  {
    if s != [] {
      LeadingSpaceUnique(s, 0);
      TrailingStartUnique(s, |s|);
      assert s[0..|s|] == s;
    }
  }

  /** Trimming twice is trimming once. */
  lemma {:induction false} TrimIdempotent(s: string)
    ensures Trim(Trim(s)) == Trim(s)
  {
    TrimOfTrimmed(Trim(s));
  }

  /** Leading white space adds its length to the leading white space. */
  lemma {:induction false} LeadingSpaceAfterPadding(pre: string, s: string)
    requires AllWhiteSpace(pre)
    ensures LeadingSpace(pre + s) == |pre| + LeadingSpace(s)
  {
    var t := pre + s;
    var i := LeadingSpace(s);
    forall k | 0 <= k < |pre| + i ensures IsWhiteSpace(t[k]) {
      if k < |pre| {
        assert t[k] == pre[k];
      } else {
        assert t[k] == s[k - |pre|];
      }
    }
    if i < |s| {
      assert t[|pre| + i] == s[i];
    }
    LeadingSpaceUnique(t, |pre| + i);
  }

  /** Leading white space shifts where the trailing white space begins,
      unless there is nothing but white space. */
  lemma {:induction false} TrailingStartAfterPadding(pre: string, s: string)
    requires LeadingSpace(s) < |s|
    ensures TrailingStart(pre + s) == |pre| + TrailingStart(s)
  {
    var t := pre + s;
    var j := TrailingStart(s);
    forall k | |pre| + j <= k < |t| ensures IsWhiteSpace(t[k]) {
      assert t[k] == s[k - |pre|];
    }
    assert t[|pre| + j - 1] == s[j - 1];
    TrailingStartUnique(t, |pre| + j);
  }

  /** Leading white space does not change the result of trim. */
  lemma {:induction false} TrimSkipsLeading(pre: string, s: string)
    requires AllWhiteSpace(pre)
    ensures Trim(pre + s) == Trim(s)
  {
    LeadingSpaceAfterPadding(pre, s);
    if LeadingSpace(s) < |s| {
      TrailingStartAfterPadding(pre, s);
      SliceAfterPrefix(pre, s, LeadingSpace(s), TrailingStart(s));
    }
  }

  lemma {:induction false} SliceAfterPrefix(pre: string, s: string, i: nat, j: nat)
    requires i <= j <= |s|
    ensures (pre + s)[|pre| + i..|pre| + j] == s[i..j]
  {
    assert (pre + s)[|pre|..] == s;
  }

  /** Trailing white space does not change the result of trim. */
  lemma {:induction false} TrimSkipsTrailing(s: string, post: string)
    requires AllWhiteSpace(post)
    ensures Trim(s + post) == Trim(s)
  {
    var t := s + post;
    var i := LeadingSpace(s);
    var j := TrailingStart(s);
    assert forall k :: 0 <= k < |post| ==> t[|s| + k] == post[k];
    if i < |s| {
      LeadingSpaceUnique(t, i);
      TrailingStartUnique(t, j);
      assert t[i..j] == s[i..j];
    } else {
      LeadingSpaceUnique(t, |t|);
    }
  }

  /** Surrounding white space, of any length, does not change the result of
      trim. */
  lemma {:induction false} TrimIgnoresPadding(pre: string, s: string, post: string)
    requires AllWhiteSpace(pre) && AllWhiteSpace(post)
    ensures Trim(pre + s + post) == Trim(s)
  {
    assert pre + s + post == pre + (s + post);
    TrimSkipsLeading(pre, s + post);
    TrimSkipsTrailing(s, post);
  }
}
