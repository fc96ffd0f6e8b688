/** The three JavaScript string operations the request validator relies on:
    `String.prototype.trim`, `startsWith` and `endsWith`. A JavaScript string is
    modelled as a sequence of Unicode scalar values; `trim` removes the code points
    of ECMAScript's WhiteSpace and LineTerminator productions from both ends.
 */
module JsString {
  import opened Sequences

  /** ECMAScript WhiteSpace (TAB, VT, FF, ZWNBSP and every space separator of
      category Zs) together with LineTerminator (LF, CR, LS, PS). Every such
      code point fits in one UTF-16 code unit, and none is printable ASCII. */
  predicate IsWhiteSpace(c: char): (b: bool)
    ensures b ==> c as int < 0x1_0000
    ensures b ==> !('!' <= c <= '~')
  {
    || c == '\t' || c == '\n' || c == '\U{000B}' || c == '\U{000C}' || c == '\r'
    || c == ' ' || c == '\U{00A0}' || c == '\U{1680}'
    || ('\U{2000}' <= c <= '\U{200A}')
    || c == '\U{2028}' || c == '\U{2029}' || c == '\U{202F}' || c == '\U{205F}'
    || c == '\U{3000}' || c == '\U{FEFF}'
  }

  predicate AllWhiteSpace(s: string) {
    forall i :: 0 <= i < |s| ==> IsWhiteSpace(s[i])
  }

  /** A string `trim` leaves alone: empty, or with non-whitespace at both ends. */
  predicate IsTrimmed(t: string) {
    t == [] || (!IsWhiteSpace(t[0]) && !IsWhiteSpace(t[|t| - 1]))
  }

  /** `s.startsWith(prefix)` with no position argument. */
  predicate StartsWith(s: string, prefix: string): (b: bool)
    ensures b <==> |prefix| <= |s| && forall i :: 0 <= i < |prefix| ==> s[i] == prefix[i]
  {
    |prefix| <= |s| && s[..|prefix|] == prefix
  }

  /** `s.endsWith(suffix)` with no length argument. */
  predicate EndsWith(s: string, suffix: string): (b: bool)
    ensures b <==> |suffix| <= |s|
                   && forall i :: 0 <= i < |suffix| ==> s[|s| - |suffix| + i] == suffix[i]
  {
    |suffix| <= |s| && s[|s| - |suffix|..] == suffix
  }

  /** The first index at or after `i` that does not hold whitespace, or `|s|`
      when only whitespace follows `i`: where `trim` starts keeping text. */
  function SkipForward(s: string, i: nat): (k: nat)
    requires i <= |s|
    ensures i <= k <= |s|
    ensures forall j :: i <= j < k ==> IsWhiteSpace(s[j])
    ensures k == |s| || !IsWhiteSpace(s[k])
    decreases |s| - i
  {
    if i < |s| && IsWhiteSpace(s[i]) then SkipForward(s, i + 1) else i
  }

  /** The least index `k` in `lo..j` such that `s[k..j]` is all whitespace:
      where `trim` stops keeping text, never passing the start `lo`. */
  function SkipBackward(s: string, lo: nat, j: nat): (k: nat)
    requires lo <= j <= |s|
    ensures lo <= k <= j
    ensures forall m :: k <= m < j ==> IsWhiteSpace(s[m])
    ensures k == lo || !IsWhiteSpace(s[k - 1])
    decreases j
  {
    if j > lo && IsWhiteSpace(s[j - 1]) then SkipBackward(s, lo, j - 1) else j
  }

  /** `s.trim()`: the text between the leading and the trailing whitespace. */
  function Trim(s: string): (r: string)
    ensures IsTrimmed(r)
    ensures |r| <= |s|
    ensures r == [] <==> AllWhiteSpace(s)
  {
    var a := SkipForward(s, 0);
    var b := SkipBackward(s, a, |s|);
    assert AllWhiteSpace(s) ==> a == |s|;
    s[a..b]
  }

  /** `SkipForward` finds the first non-whitespace index and no other. */
  lemma SkipForwardIsFirst(s: string, i: nat, k: nat)
    requires i <= k <= |s|
    requires forall j :: i <= j < k ==> IsWhiteSpace(s[j])
    requires k == |s| || !IsWhiteSpace(s[k])
    ensures SkipForward(s, i) == k
  {
  }

  /** `SkipBackward` finds the end of the kept text and no other. */
  lemma SkipBackwardIsLast(s: string, lo: nat, j: nat, k: nat)
    requires lo <= k <= j <= |s|
    requires forall m :: k <= m < j ==> IsWhiteSpace(s[m])
    requires k == lo || !IsWhiteSpace(s[k - 1])
    ensures SkipBackward(s, lo, j) == k
  {
  }

  /** `s` is its trimmed form with the removed whitespace put back on either side. */
  lemma TrimSplits(s: string) returns (lead: string, trail: string)
    ensures AllWhiteSpace(lead) && AllWhiteSpace(trail)
    ensures s == lead + Trim(s) + trail
  {
    var a := SkipForward(s, 0);
    var b := SkipBackward(s, a, |s|);
    lead, trail := s[..a], s[b..];
    assert s == s[..a] + s[a..b] + s[b..];
  }

  /** The converse of `TrimSplits`: a trimmed string padded with whitespace on
      either side trims back to itself, so the split is unique. */
  lemma TrimOfPadded(p: string, t: string, q: string)
    requires AllWhiteSpace(p) && AllWhiteSpace(q) && IsTrimmed(t)
    ensures Trim(p + t + q) == t
  {
    var w := p + t + q;
    if t == [] {
      assert AllWhiteSpace(w) by {
        forall m | 0 <= m < |w|
          ensures IsWhiteSpace(w[m])
        {
          if m < |p| { assert w[m] == p[m]; } else { assert w[m] == q[m - |p|]; }
        }
      }
    } else {
      var a, b := |p|, |p| + |t|;
      assert w[a] == t[0];
      assert forall j :: 0 <= j < a ==> w[j] == p[j];
      SkipForwardIsFirst(w, 0, a);
      assert w[b - 1] == t[|t| - 1];
      assert forall m :: b <= m < |w| ==> w[m] == q[m - b];
      SkipBackwardIsLast(w, a, |w|, b);
      assert w[a..b] == t;
    }
  }

  lemma AllWhiteSpaceAppend(a: string, b: string)
    requires AllWhiteSpace(a) && AllWhiteSpace(b)
    ensures AllWhiteSpace(a + b)
  {
    forall i | 0 <= i < |a + b|
      ensures IsWhiteSpace((a + b)[i])
    {
      if i < |a| { assert (a + b)[i] == a[i]; } else { assert (a + b)[i] == b[i - |a|]; }
    }
  }

  /** Surrounding whitespace added to any string is removed again by `trim`. */
  lemma TrimIgnoresPadding(p: string, s: string, q: string)
    requires AllWhiteSpace(p) && AllWhiteSpace(q)
    ensures Trim(p + s + q) == Trim(s)
  {
    var lead, trail := TrimSplits(s);
    Absorb(p, lead, Trim(s), trail, q);
    AllWhiteSpaceAppend(p, lead);
    AllWhiteSpaceAppend(trail, q);
    TrimOfPadded(p + lead, Trim(s), trail + q);
  }

  /** `trim` is idempotent. */
  lemma TrimIdempotent(s: string)
    ensures Trim(Trim(s)) == Trim(s)
  {
    assert [] + Trim(s) + [] == Trim(s);
    TrimOfPadded([], Trim(s), []);
  }
}
