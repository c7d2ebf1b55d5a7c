/**
 * The one string operation the save form applies to what the user typed:
 * `String.prototype.trim`, which removes ECMAScript white space and line
 * terminators from both ends.
 */
module JsText {

  /** The characters `trim` removes: WhiteSpace (TAB, VT, FF, ZWNBSP and every
      Unicode "Zs" space) and LineTerminator (LF, CR, LS, PS). */
  predicate IsTrimmable(c: char)
  {
    || c == '\U{0009}' || c == '\U{000A}' || c == '\U{000B}' || c == '\U{000C}'
    || c == '\U{000D}' || c == '\U{0020}' || c == '\U{00A0}' || c == '\U{1680}'
    || ('\U{2000}' <= c <= '\U{200A}')
    || c == '\U{2028}' || c == '\U{2029}' || c == '\U{202F}' || c == '\U{205F}'
    || c == '\U{3000}' || c == '\U{FEFF}'
  }

  /** Number of trimmable characters at the front of `s`. */
  function LeadingSpace(s: string): (k: nat)
    ensures k <= |s|
    ensures forall i :: 0 <= i < k ==> IsTrimmable(s[i])
    ensures k < |s| ==> !IsTrimmable(s[k])
  {
    if s == [] || !IsTrimmable(s[0]) then 0 else 1 + LeadingSpace(s[1..])
  }

  /** Number of trimmable characters at the back of `s`. */
  function TrailingSpace(s: string): (k: nat)
    ensures k <= |s|
    ensures forall i :: |s| - k <= i < |s| ==> IsTrimmable(s[i])
    ensures k < |s| ==> !IsTrimmable(s[|s| - 1 - k])
  {
    if s == [] || !IsTrimmable(s[|s| - 1]) then 0 else 1 + TrailingSpace(s[..|s| - 1])
  }

  /** `s.trim()`: the slice of `s` left once the trimmable characters at both
      ends are gone; it neither starts nor ends with one. */
  function Trim(s: string): (r: string)
    ensures TrimmedFrom(r, s)
  {
    var lo := LeadingSpace(s);
    var rest := s[lo..];
    var t := TrailingSpace(rest);
    var hi := |s| - t;
    assert forall i :: hi <= i < |s| ==> s[i] == rest[i - lo];
    assert t < |rest| ==> s[|s| - 1 - t] == rest[|rest| - 1 - t];
    TrimSlice(s, lo, t);
    s[lo..hi]
  }

  /** Cutting the `lo` leading and then the `t` trailing trimmable
      characters leaves a slice trimmed from `s`. */
  lemma TrimSlice(s: string, lo: nat, t: nat)
    requires lo <= |s| && t <= |s| - lo
    requires forall i :: 0 <= i < lo ==> IsTrimmable(s[i])
    requires lo < |s| ==> !IsTrimmable(s[lo])
    requires forall i :: |s| - t <= i < |s| ==> IsTrimmable(s[i])
    requires t < |s| - lo ==> !IsTrimmable(s[|s| - 1 - t])
    ensures lo <= |s| - t && TrimmedFrom(s[lo..|s| - t], s)
  {
    var hi := |s| - t;
    var r := s[lo..hi];
    assert CutAt(r, s, lo, hi);
    if r != [] {
      assert r[0] == s[lo];
      assert r[|r| - 1] == s[|s| - 1 - t];
    }
  }

  /** `r` is `s` with trimmable characters cut from both ends, and neither
      end of `r` is trimmable. */
  ghost predicate TrimmedFrom(r: string, s: string)
  {
    && (exists lo, hi :: CutAt(r, s, lo, hi))
    && (r != [] ==> !IsTrimmable(r[0]) && !IsTrimmable(r[|r| - 1]))
  }

  /** `r` is `s[lo..hi]` and only trimmable characters lie outside it. */
  ghost predicate CutAt(r: string, s: string, lo: int, hi: int)
  {
    && 0 <= lo <= hi <= |s| && r == s[lo..hi]
    && (forall i :: 0 <= i < lo ==> IsTrimmable(s[i]))
    && (forall i :: hi <= i < |s| ==> IsTrimmable(s[i]))
  }

  /** The trimmed text is empty exactly when every character of `s` is
      trimmable, which is when the save form reports a missing name. */
  lemma TrimEmptyIffAllTrimmable(s: string)
    ensures Trim(s) == [] <==> forall i :: 0 <= i < |s| ==> IsTrimmable(s[i])
  {
  }

  /** Trimming twice is trimming once. */
  lemma TrimIdempotent(s: string)
    ensures Trim(Trim(s)) == Trim(s)
  {
  }
}
