/** White space and trimming, as Rust's `char::is_whitespace`, `str::trim_start` and `str::trim_end` do it. */
module Whitespace {
  /** The Unicode White_Space property. */
  predicate IsWhitespace(c: char) {
    var n := c as int;
    || 0x09 <= n <= 0x0D || n == 0x20 || n == 0x85 || n == 0xA0 || n == 0x1680
    || 0x2000 <= n <= 0x200A || n == 0x2028 || n == 0x2029 || n == 0x202F || n == 0x205F || n == 0x3000
  }

  /** In ASCII that is the space and the five control characters from tab to carriage return. */
  lemma AsciiWhitespace(c: char)
    requires c < '\U{80}'
    ensures IsWhitespace(c) <==> c in {' ', '\t', '\n', '\U{0B}', '\U{0C}', '\r'}
  {
  }

  predicate AllWhite(s: string) {
    forall k :: 0 <= k < |s| ==> IsWhitespace(s[k])
  }

  predicate NoneWhite(s: string) {
    forall k :: 0 <= k < |s| ==> !IsWhitespace(s[k])
  }

  function TrimEnd(s: string): (t: string)
    ensures |t| <= |s| && t == s[..|t|] && AllWhite(s[|t|..])
    ensures t == "" || !IsWhitespace(t[|t| - 1])
  {
    if s == "" || !IsWhitespace(s[|s| - 1]) then s else TrimEnd(s[..|s| - 1])
  }

  function TrimStart(s: string): (t: string)
    ensures |t| <= |s| && t == s[|s| - |t|..] && AllWhite(s[..|s| - |t|])
    ensures t == "" || !IsWhitespace(t[0])
  {
    if s == "" || !IsWhitespace(s[0]) then s else TrimStart(s[1..])
  }

  /** `str::trim`. */
  function Trim(s: string): string {
    TrimEnd(TrimStart(s))
  }

  /** Trimming takes the white space off both ends and nothing else. */
  lemma TrimRemovesBothEnds(s: string)
    ensures exists before: string, after: string ::
              && s == before + Trim(s) + after && AllWhite(before) && AllWhite(after)
              && (Trim(s) != "" ==> !IsWhitespace(Trim(s)[0]) && !IsWhitespace(Trim(s)[|Trim(s)| - 1]))
  {
    hide TrimEnd, TrimStart, IsWhitespace;
    var u := TrimStart(s);
    var t := TrimEnd(u);
    var before, after := s[..|s| - |u|], u[|t|..];
    assert s == before + u && u == t + after;
    assert s == before + Trim(s) + after;
    assert t != "" ==> t[0] == u[0];
  }

  /** How many scalars the last run of non-white ones leaves before it. */
  function LastRunStart(s: string): (k: nat)
    ensures k <= |s| && NoneWhite(s[k..])
    ensures k == 0 || IsWhitespace(s[k - 1])
  {
    if s == "" || IsWhitespace(s[|s| - 1]) then |s| else LastRunStart(s[..|s| - 1])
  }

  /** How many scalars the first run of non-white ones takes. */
  function FirstRunEnd(s: string): (k: nat)
    ensures k <= |s| && NoneWhite(s[..k])
    ensures k == |s| || IsWhitespace(s[k])
  {
    if s == "" || IsWhitespace(s[0]) then 0 else 1 + FirstRunEnd(s[1..])
  }
}
