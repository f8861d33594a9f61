/**
  The single-line editor behind the command line and the filter line (src/app.rs). The program keeps UTF-8
  bytes and a byte offset; the specification is a gap: the scalars before the cursor and those after it.
 */
module LineEditor {
  import opened Wrappers
  import opened Utf8
  import opened Whitespace

  // ----- keys

  datatype KeyCode = Char(c: char) | Left | Right | Home | End | Backspace | Delete | OtherKey

  /** Modifiers besides Control and Alt are never looked at. */
  datatype Key = Key(code: KeyCode, control: bool, alt: bool) {
    predicate IsTypedText() { !control && !alt }
  }

  datatype Input = Press(key: Key) | Paste(text: Text)

  // ----- the specification: a gap in a string

  datatype Gap = Gap(before: string, after: string) {
    function Contents(): string { before + after }
  }

  /** Where the word before the end of `s` starts: white space is skipped first. */
  function WordStart(s: string): (k: nat)
    ensures k <= |s|
  {
    LastRunStart(TrimEnd(s))
  }

  /** Where the word after the start of `s` ends: white space is skipped first. */
  function WordEnd(s: string): (k: nat)
    ensures k <= |s|
  {
    |s| - |TrimStart(s)| + FirstRunEnd(TrimStart(s))
  }

  predicate Handled(key: Key) {
    match key.code
    case Char(c) => key.IsTypedText() || (key.control && c in "wuk")
    case OtherKey => false
    case _ => true
  }

  function MovedLeft(g: Gap, k: nat): Gap
    requires k <= |g.before|
  {
    Gap(g.before[..k], g.before[k..] + g.after)
  }

  function MovedRight(g: Gap, k: nat): Gap
    requires k <= |g.after|
  {
    Gap(g.before + g.after[..k], g.after[k..])
  }

  function Edited(g: Gap, key: Key): Gap {
    match key.code
    case Char(c) =>
      if key.IsTypedText() then Gap(g.before + [c], g.after)
      else if !key.control then g
      else if c == 'w' then Gap(g.before[..WordStart(g.before)], g.after)
      else if c == 'u' then Gap("", g.after)
      else if c == 'k' then Gap(g.before, "")
      else g
    case Left =>
      if key.alt then MovedLeft(g, WordStart(g.before))
      else if g.before == "" then g else MovedLeft(g, |g.before| - 1)
    case Right =>
      if key.alt then MovedRight(g, WordEnd(g.after))
      else if g.after == "" then g else MovedRight(g, 1)
    case Home => Gap("", g.Contents())
    case End => Gap(g.Contents(), "")
    case Backspace => if g.before == "" then g else Gap(g.before[..|g.before| - 1], g.after)
    case Delete => if g.after == "" then g else Gap(g.before, g.after[1..])
    case OtherKey => g
  }

  function Received(g: Gap, input: Input): Gap {
    match input
    case Press(key) => Edited(g, key)
    case Paste(text) => Gap(g.before + Chars(text), g.after)
  }

  function ReceivedAll(g: Gap, inputs: seq<Input>): Gap
    decreases |inputs|
  {
    if inputs == [] then g else ReceivedAll(Received(g, inputs[0]), inputs[1..])
  }

  // ----- the boundary helpers, on bytes

  function PreviousScalarBoundary(value: Text, cursor: nat): nat
    requires IsBoundary(value, cursor)
  {
    BoundarySplits(value, cursor);
    var indices := CharIndices(value[..cursor]);
    if indices == [] then 0 else indices[|indices| - 1].0
  }

  function NextScalarBoundary(value: Text, cursor: nat): nat
    requires IsBoundary(value, cursor)
  {
    BoundarySplits(value, cursor);
    var indices := CharIndices(value[cursor..]);
    if |indices| > 1 then cursor + indices[1].0 else |value|
  }

  /** `char_indices().rev().find(...)`, up to index number `n`. */
  function LastWhitespace(indices: seq<(nat, char)>, n: nat): Option<(nat, char)>
    requires n <= |indices|
  {
    if n == 0 then None
    else if IsWhitespace(indices[n - 1].1) then Some(indices[n - 1])
    else LastWhitespace(indices, n - 1)
  }

  /** `char_indices().find(...)`, from index number `n`. */
  function FirstWhitespace(indices: seq<(nat, char)>, n: nat): Option<(nat, char)>
    requires n <= |indices|
    decreases |indices| - n
  {
    if n == |indices| then None
    else if IsWhitespace(indices[n].1) then Some(indices[n])
    else FirstWhitespace(indices, n + 1)
  }

  /** `str::trim_end_matches(char::is_whitespace)`. */
  function TrimmedEnd(s: Text): Text {
    EncodedTextDecodes(TrimEnd(Chars(s)));
    EncodeAll(TrimEnd(Chars(s)))
  }

  /** `str::trim_start_matches(char::is_whitespace)`. */
  function TrimmedStart(s: Text): Text {
    EncodedTextDecodes(TrimStart(Chars(s)));
    EncodeAll(TrimStart(Chars(s)))
  }

  /** The byte after the last white-space scalar. */
  function LastWordStart(trimmed: Text): nat {
    match LastWhitespace(CharIndices(trimmed), |CharIndices(trimmed)|)
    case None => 0
    case Some(found) => found.0 + |Encode(found.1)|
  }

  function PreviousWordBoundary(value: Text, cursor: nat): nat
    requires IsBoundary(value, cursor)
  {
    BoundarySplits(value, cursor);
    LastWordStart(TrimmedEnd(value[..cursor]))
  }

  lemma TrimmedIsNoLonger(s: Text)
    ensures |TrimmedEnd(s)| <= |s| && |TrimmedStart(s)| <= |s|
    ensures s == s[..|s| - |TrimmedStart(s)|] + TrimmedStart(s)
  {
    hide Decode, EncodeAll, TrimEnd, TrimStart, IsWhitespace;
    var cs := Chars(s);
    OffsetSplits(cs, |TrimEnd(cs)|);
    OffsetSplits(cs, |cs| - |TrimStart(cs)|);
  }

  function NextWordBoundary(value: Text, cursor: nat): nat
    requires IsBoundary(value, cursor)
  {
    BoundarySplits(value, cursor);
    var word := TrimmedStart(value[cursor..]);
    TrimmedIsNoLonger(value[cursor..]);
    var wordStart := |value| - |word|;
    match FirstWhitespace(CharIndices(word), 0)
    case None => |value|
    case Some(found) => wordStart + found.0
  }

  // ----- the helpers are the specification's positions, in bytes

  /** `value` holds `g` with the cursor in its gap. */
  ghost predicate Holds(value: seq<byte>, cursor: nat, g: Gap) {
    && value == EncodeAll(g.before) + EncodeAll(g.after)
    && cursor == |EncodeAll(g.before)|
  }

  function GapAt(value: Text, cursor: nat): Gap
    requires IsBoundary(value, cursor)
  {
    BoundarySplits(value, cursor);
    Gap(Chars(value[..cursor]), Chars(value[cursor..]))
  }

  /** A text and a cursor on a boundary hold exactly one gap. */
  lemma HoldsIffGapAt(value: seq<byte>, cursor: nat, g: Gap)
    ensures Holds(value, cursor, g) <==> Valid(value) && IsBoundary(value, cursor) && GapAt(value, cursor) == g
  {
    hide Decode;
    if Holds(value, cursor, g) {
      EncodedTextDecodes(g.before);
      EncodedTextDecodes(g.after);
      AppendIsValid(EncodeAll(g.before), EncodeAll(g.after));
      assert value[..cursor] == EncodeAll(g.before) && value[cursor..] == EncodeAll(g.after);
      BoundarySplits(value, cursor);
    } else if Valid(value) && IsBoundary(value, cursor) {
      BoundarySplits(value, cursor);
      assert value == value[..cursor] + value[cursor..];
    }
  }

  lemma {:induction false} LastWhitespaceIsRunStart(cs: string, indices: seq<(nat, char)>, n: nat)
    requires n <= |cs| == |indices|
    requires forall k :: 0 <= k < |cs| ==> indices[k] == (Offset(cs, k), cs[k])
    ensures Offset(cs, LastRunStart(cs[..n]))
         == (match LastWhitespace(indices, n) case None => 0 case Some(found) => found.0 + |Encode(found.1)|)
  {
    hide IsWhitespace, Encode;
    if n > 0 {
      assert cs[..n][..n - 1] == cs[..n - 1];
      if IsWhitespace(cs[n - 1]) {
        OffsetStep(cs, n - 1);
      } else {
        LastWhitespaceIsRunStart(cs, indices, n - 1);
      }
    }
  }

  lemma {:induction false} FirstWhitespaceIsRunEnd(cs: string, indices: seq<(nat, char)>, n: nat)
    requires n <= |cs| == |indices|
    requires forall k :: 0 <= k < |cs| ==> indices[k] == (Offset(cs, k), cs[k])
    ensures Offset(cs, n + FirstRunEnd(cs[n..]))
         == (match FirstWhitespace(indices, n) case None => |EncodeAll(cs)| case Some(found) => found.0)
    decreases |cs| - n
  {
    hide EncodeAll, IsWhitespace;
    if n == |cs| {
      OffsetEnds(cs);
    } else if !IsWhitespace(cs[n]) {
      assert cs[n..][1..] == cs[n + 1..];
      FirstWhitespaceIsRunEnd(cs, indices, n + 1);
    }
  }

  lemma ScalarBoundaries(value: Text, cursor: nat)
    requires IsBoundary(value, cursor)
    ensures var g := GapAt(value, cursor);
            && PreviousScalarBoundary(value, cursor) == (if g.before == "" then 0 else Offset(g.before, |g.before| - 1))
            && NextScalarBoundary(value, cursor) == cursor + (if g.after == "" then 0 else Offset(g.after, 1))
  {
    hide Decode;
    BoundarySplits(value, cursor);
    var g := GapAt(value, cursor);
    if |g.after| == 1 {
      OffsetEnds(g.after);
    }
  }

  /** The boundary before the cursor: none lies between. */
  lemma PreviousScalarIsNeighbour(value: Text, cursor: nat)
    requires IsBoundary(value, cursor)
    ensures var p := PreviousScalarBoundary(value, cursor);
            && IsBoundary(value, p) && (if cursor == 0 then p == 0 else p < cursor)
            && forall i :: p < i < cursor ==> !IsBoundary(value, i)
  {
    hide Decode, EncodeAll, PreviousScalarBoundary, NextScalarBoundary;
    ScalarBoundaries(value, cursor);
    BoundarySplits(value, cursor);
    var before, cs := Chars(value[..cursor]), Chars(value);
    var k := |before|;
    assert cs[..k] == before;
    if k > 0 {
      assert cs[..k - 1] == before[..k - 1];
      OffsetsAreNeighbours(cs, k - 1);
    }
  }

  lemma FirstOffset(before: string, after: string)
    requires after != ""
    ensures Offset(before + after, |before| + 1) == |EncodeAll(before)| + Offset(after, 1)
  {
    hide EncodeAll;
    EncodeAppends(before, after[..1]);
    assert (before + after)[..|before| + 1] == before + after[..1];
  }

  /** The boundary after it. */
  lemma NextScalarIsNeighbour(value: Text, cursor: nat)
    requires IsBoundary(value, cursor)
    ensures var n := NextScalarBoundary(value, cursor);
            && IsBoundary(value, n) && (if cursor == |value| then n == cursor else cursor < n)
            && forall i :: cursor < i < n ==> !IsBoundary(value, i)
  {
    hide Decode, EncodeAll, Encode, PreviousScalarBoundary, NextScalarBoundary;
    ScalarBoundaries(value, cursor);
    BoundarySplits(value, cursor);
    var before, after, cs := Chars(value[..cursor]), Chars(value[cursor..]), Chars(value);
    var k := |before|;
    assert cs[..k] == before;
    assert Offset(cs, k) == cursor;
    OffsetEnds(cs);
    if after != "" {
      FirstOffset(before, after);
      assert before + after == cs;
      OffsetsAreNeighbours(cs, k);
    }
  }

  lemma PreviousWordOffset(s: Text)
    ensures LastWordStart(TrimmedEnd(s)) == Offset(Chars(s), WordStart(Chars(s)))
  {
    hide Decode, EncodeAll, IsWhitespace, TrimEnd, LastRunStart, LastWhitespace;
    var cs := TrimEnd(Chars(s));
    EncodedTextDecodes(cs);
    LastWhitespaceIsRunStart(cs, CharIndices(TrimmedEnd(s)), |cs|);
    assert cs[..|cs|] == cs;
    assert Chars(s)[..WordStart(Chars(s))] == cs[..LastRunStart(cs)];
  }

  /** An offset past `skipped` scalars, from there on. */
  lemma OffsetsAdd(cs: string, skipped: nat, more: nat)
    requires skipped + more <= |cs|
    ensures Offset(cs, skipped + more) == Offset(cs, skipped) + Offset(cs[skipped..], more)
  {
    hide EncodeAll;
    EncodeAppends(cs[..skipped], cs[skipped..][..more]);
    assert cs[..skipped] + cs[skipped..][..more] == cs[..skipped + more];
  }

  /** The byte before the first white-space scalar, or the length. */
  function FirstWordEnd(word: Text): nat {
    match FirstWhitespace(CharIndices(word), 0)
    case None => |word|
    case Some(found) => found.0
  }

  lemma FirstWordOffset(word: Text)
    ensures FirstWordEnd(word) == Offset(Chars(word), FirstRunEnd(Chars(word)))
  {
    hide Decode, EncodeAll, FirstRunEnd, FirstWhitespace, IsWhitespace;
    var cs := Chars(word);
    assert cs[0..] == cs;
    FirstWhitespaceIsRunEnd(cs, CharIndices(word), 0);
  }

  lemma TrimmedStartOffset(s: Text)
    ensures var cs := Chars(s);
            && Chars(TrimmedStart(s)) == TrimStart(cs)
            && |s| - |TrimmedStart(s)| == Offset(cs, |cs| - |TrimStart(cs)|)
  {
    hide Decode, Encode, EncodeAll, TrimStart, IsWhitespace, AllWhite;
    var cs := Chars(s);
    EncodedTextDecodes(TrimStart(cs));
    OffsetSplits(cs, |cs| - |TrimStart(cs)|);
  }

  lemma NextWordOffset(s: Text)
    ensures |s| - |TrimmedStart(s)| + FirstWordEnd(TrimmedStart(s)) == Offset(Chars(s), WordEnd(Chars(s)))
  {
    hide Decode, Encode, EncodeAll, TrimStart, TrimmedStart, FirstRunEnd, FirstWordEnd, IsWhitespace, AllWhite, Offset;
    var cs, trimmed := Chars(s), TrimStart(Chars(s));
    TrimmedStartOffset(s);
    FirstWordOffset(TrimmedStart(s));
    OffsetsAdd(cs, |cs| - |trimmed|, FirstRunEnd(trimmed));
  }

  lemma WordBoundaries(value: Text, cursor: nat)
    requires IsBoundary(value, cursor)
    ensures var g := GapAt(value, cursor);
            && PreviousWordBoundary(value, cursor) == Offset(g.before, WordStart(g.before))
            && NextWordBoundary(value, cursor) == cursor + Offset(g.after, WordEnd(g.after))
  {
    hide Decode, EncodeAll, IsWhitespace, IsBoundary, WordStart, WordEnd, TrimmedEnd, TrimmedStart, Offset;
    BoundarySplits(value, cursor);
    var g := GapAt(value, cursor);
    PreviousWordOffset(value[..cursor]);
    NextWordOffset(value[cursor..]);
  }

  // ----- moving and removing, in bytes

  lemma MovingLeftHolds(value: seq<byte>, cursor: nat, g: Gap, k: nat)
    requires Holds(value, cursor, g) && k <= |g.before|
    ensures Holds(value, Offset(g.before, k), MovedLeft(g, k))
  {
    hide EncodeAll;
    EncodeAppends(g.before[..k], g.before[k..]);
    EncodeAppends(g.before[k..], g.after);
    assert g.before == g.before[..k] + g.before[k..];
  }

  lemma MovingRightHolds(value: seq<byte>, cursor: nat, g: Gap, k: nat)
    requires Holds(value, cursor, g) && k <= |g.after|
    ensures Holds(value, cursor + Offset(g.after, k), MovedRight(g, k))
  {
    hide EncodeAll;
    EncodeAppends(g.before, g.after[..k]);
    EncodeAppends(g.after[..k], g.after[k..]);
    assert g.after == g.after[..k] + g.after[k..];
  }

  lemma RemovingHolds(value: seq<byte>, cursor: nat, g: Gap, left: nat, right: nat)
    requires Holds(value, cursor, g) && left <= |g.before| && right <= |g.after|
    ensures var from, to := Offset(g.before, left), cursor + Offset(g.after, right);
            && from <= cursor <= to <= |value|
            && Holds(value[..from] + value[to..], from, Gap(g.before[..left], g.after[right..]))
  {
    hide EncodeAll;
    OffsetSplits(g.before, left);
    OffsetSplits(g.after, right);
    var from, to := Offset(g.before, left), cursor + Offset(g.after, right);
    assert value[..from] == EncodeAll(g.before)[..from];
    assert value[to..] == EncodeAll(g.after)[Offset(g.after, right)..];
  }

  lemma InsertingHolds(a: Text, b: Text, m: Text)
    ensures Holds(a + m + b, |a| + |m|, Gap(Chars(a) + Chars(m), Chars(b)))
  {
    hide Decode, EncodeAll;
    EncodeAppends(Chars(a), Chars(m));
  }

  lemma LeftTarget(value: Text, cursor: nat, word: bool)
    requires IsBoundary(value, cursor)
    ensures var target := if word then PreviousWordBoundary(value, cursor) else PreviousScalarBoundary(value, cursor);
            && IsBoundary(value, target)
            && GapAt(value, target) == Edited(GapAt(value, cursor), Key(Left, false, word))
  {
    hide Decode, EncodeAll, Encode, Offset, Holds, GapAt, IsBoundary;
    hide WordStart, CharIndices, PreviousWordBoundary, PreviousScalarBoundary;
    var g := GapAt(value, cursor);
    var k := if word then WordStart(g.before) else if g.before == "" then 0 else |g.before| - 1;
    HoldsIffGapAt(value, cursor, g);
    MovingLeftHolds(value, cursor, g, k);
    HoldsIffGapAt(value, Offset(g.before, k), MovedLeft(g, k));
    OffsetEnds(g.before);
    if word { WordBoundaries(value, cursor); } else { ScalarBoundaries(value, cursor); }
  }

  lemma RightTarget(value: Text, cursor: nat, word: bool)
    requires IsBoundary(value, cursor)
    ensures var target := if word then NextWordBoundary(value, cursor) else NextScalarBoundary(value, cursor);
            && IsBoundary(value, target)
            && GapAt(value, target) == Edited(GapAt(value, cursor), Key(Right, false, word))
  {
    hide Decode, EncodeAll, Encode, Offset, Holds, GapAt, IsBoundary;
    hide WordEnd, CharIndices, NextWordBoundary, NextScalarBoundary;
    var g := GapAt(value, cursor);
    var k := if word then WordEnd(g.after) else if g.after == "" then 0 else 1;
    HoldsIffGapAt(value, cursor, g);
    MovingRightHolds(value, cursor, g, k);
    HoldsIffGapAt(value, cursor + Offset(g.after, k), MovedRight(g, k));
    OffsetEnds(g.after);
    if word { WordBoundaries(value, cursor); } else { ScalarBoundaries(value, cursor); }
  }

  // ----- the editor

  lemma TypedText(c: char)
    ensures Valid(Encode(c)) && Chars(Encode(c)) == [c]
  {
    EncodedTextDecodes([c]);
    assert EncodeAll([c]) == Encode(c) + EncodeAll("");
  }

  class LineEditor {
    var input: Text
    var cursor: nat
    var scroll: nat

    predicate Valid()
      reads this
    {
      IsBoundary(input, cursor)
    }

    function CurrentGap(): Gap
      requires Valid()
      reads this
    {
      GapAt(input, cursor)
    }

    constructor (text: Text)
      ensures Valid() && CurrentGap() == Gap(Chars(text), "") && scroll == 0
    {
      input, cursor, scroll := text, |text|, 0;
      new;
      HoldsIffGapAt(input, cursor, Gap(Chars(text), ""));
    }

    method InsertText(text: Text)
      requires Valid()
      modifies this`input, this`cursor
      ensures Valid() && CurrentGap() == Received(old(CurrentGap()), Paste(text))
    {
      hide Decode, Encode, EncodeAll, IsBoundary, Holds;
      ghost var g := CurrentGap();
      BoundarySplits(input, cursor);
      InsertingHolds(input[..cursor], input[cursor..], text);
      HoldsIffGapAt(input[..cursor] + text + input[cursor..], cursor + |text|, Gap(g.before + Chars(text), g.after));
      input := input[..cursor] + text + input[cursor..];
      cursor := cursor + |text|;
    }

    /** `replace_range(from..to, "")`, leaving the cursor at `from`. */
    method RemoveRange(from: nat, to: nat, ghost left: nat, ghost right: nat)
      requires Valid() && left <= |CurrentGap().before| && right <= |CurrentGap().after|
      requires from == Offset(CurrentGap().before, left)
      requires to == cursor + Offset(CurrentGap().after, right)
      modifies this`input, this`cursor
      ensures Valid()
      ensures CurrentGap() == Gap(old(CurrentGap()).before[..left], old(CurrentGap()).after[right..])
    {
      hide Decode;
      ghost var g := CurrentGap();
      HoldsIffGapAt(input, cursor, g);
      RemovingHolds(input, cursor, g, left, right);
      HoldsIffGapAt(input[..from] + input[to..], from, Gap(g.before[..left], g.after[right..]));
      input := input[..from] + input[to..];
      cursor := from;
    }

    method MoveLeft(word: bool)
      requires Valid()
      modifies this`cursor
      ensures Valid() && CurrentGap() == Edited(old(CurrentGap()), Key(Left, false, word))
    {
      LeftTarget(input, cursor, word);
      cursor := if word then PreviousWordBoundary(input, cursor) else PreviousScalarBoundary(input, cursor);
    }

    method MoveRight(word: bool)
      requires Valid()
      modifies this`cursor
      ensures Valid() && CurrentGap() == Edited(old(CurrentGap()), Key(Right, false, word))
    {
      RightTarget(input, cursor, word);
      cursor := if word then NextWordBoundary(input, cursor) else NextScalarBoundary(input, cursor);
    }

    method MoveToEnd(forward: bool)
      requires Valid()
      modifies this`cursor
      ensures Valid()
      ensures CurrentGap() == Edited(old(CurrentGap()), Key(if forward then End else Home, false, false))
    {
      hide Decode, EncodeAll;
      ghost var g := CurrentGap();
      HoldsIffGapAt(input, cursor, g);
      if forward {
        OffsetEnds(g.after);
        MovingRightHolds(input, cursor, g, |g.after|);
        cursor := |input|;
        HoldsIffGapAt(input, cursor, MovedRight(g, |g.after|));
      } else {
        OffsetEnds(g.before);
        MovingLeftHolds(input, cursor, g, 0);
        cursor := 0;
        HoldsIffGapAt(input, cursor, MovedLeft(g, 0));
      }
    }

    method EditLine(key: Key) returns (handled: bool)
      requires Valid()
      modifies this`input, this`cursor
      ensures Valid()
      ensures handled == Handled(key)
      ensures CurrentGap() == Edited(old(CurrentGap()), key)
    {
      hide Decode, EncodeAll, WordStart, WordEnd, CharIndices;
      ghost var g := CurrentGap();
      ScalarBoundaries(input, cursor);
      OffsetEnds(g.before);
      OffsetEnds(g.after);
      HoldsIffGapAt(input, cursor, g);
      if key.code.Char? && key.IsTypedText() {
        TypedText(key.code.c);
        InsertText(Encode(key.code.c));
        return true;
      }
      match key.code {
        case Left => MoveLeft(key.alt); return true;
        case Right => MoveRight(key.alt); return true;
        case Home => MoveToEnd(false); return true;
        case End => MoveToEnd(true); return true;
        case Backspace =>
          var previous := PreviousScalarBoundary(input, cursor);
          if previous != cursor {
            RemoveRange(previous, cursor, |g.before| - 1, 0);
          } else if g.before != "" {
            OffsetStep(g.before, |g.before| - 1);
          }
          return true;
        case Delete =>
          var next := NextScalarBoundary(input, cursor);
          if next != cursor {
            RemoveRange(cursor, next, |g.before|, 1);
          }
          return true;
        case Char(c) =>
          if c == 'w' && key.control {
            BoundarySplits(input, cursor);
            PreviousWordOffset(input[..cursor]);
            var start := LastWordStart(TrimmedEnd(input[..cursor]));
            RemoveRange(start, cursor, WordStart(g.before), 0);
            return true;
          } else if c == 'u' && key.control {
            RemoveRange(0, cursor, 0, 0);
            return true;
          } else if c == 'k' && key.control {
            RemoveRange(cursor, |input|, |g.before|, |g.after|);
            return true;
          }
          return false;
        case OtherKey => return false;
      }
    }

    /** Any run of key presses and pastes: the text stays well formed, the cursor on a boundary. */
    method EditAll(inputs: seq<Input>)
      requires Valid()
      modifies this`input, this`cursor
      ensures Valid() && CurrentGap() == ReceivedAll(old(CurrentGap()), inputs)
    {
      var i := 0;
      while i < |inputs|
        invariant i <= |inputs| && Valid()
        invariant ReceivedAll(CurrentGap(), inputs[i..]) == ReceivedAll(old(CurrentGap()), inputs)
      {
        assert inputs[i..][0] == inputs[i] && inputs[i..][1..] == inputs[i + 1..];
        match inputs[i] {
          case Press(key) => var _ := EditLine(key);
          case Paste(text) => InsertText(text);
        }
        i := i + 1;
      }
    }
  }

  // ----- what the keys mean to a user

  const BACKSPACE := Key(Backspace, false, false)
  const DELETE := Key(Delete, false, false)
  const LEFT := Key(Left, false, false)
  const RIGHT := Key(Right, false, false)
  const ALT_LEFT := Key(Left, false, true)
  const ALT_RIGHT := Key(Right, false, true)
  const CTRL_W := Key(Char('w'), true, false)

  function Pressed(key: Key, times: nat): seq<Input> {
    seq(times, _ => Press(key))
  }

  /** Ctrl-W removes exactly what Alt-Left crosses: a run of non-white scalars and the white space after it. */
  lemma CtrlWDeletesWhatAltLeftCrosses(g: Gap)
    ensures var left, deleted := Edited(g, ALT_LEFT), Edited(g, CTRL_W);
            && deleted.before == left.before && deleted.after == g.after
            && exists word: string, white: string ::
                 && left.before + word + white == g.before
                 && word + white + g.after == left.after
                 && NoneWhite(word) && AllWhite(white)
                 && (left.before != "" ==> IsWhitespace(left.before[|left.before| - 1]))
                 && (word == "" ==> left.before == "")
  {
    hide TrimEnd, LastRunStart, IsWhitespace;
    var trimmed := TrimEnd(g.before);
    var k := LastRunStart(trimmed);
    var word, white := trimmed[k..], g.before[|trimmed|..];
    assert g.before[..k] + word + white == g.before;
    assert word + white == g.before[k..];
  }

  /** Alt-Right crosses white space and then one whole run of non-white scalars. */
  lemma AltRightCrossesOneWord(g: Gap)
    ensures var right := Edited(g, ALT_RIGHT);
            exists white: string, word: string ::
              && right.before == g.before + white + word
              && white + word + right.after == g.after
              && AllWhite(white) && NoneWhite(word)
              && (right.after != "" ==> IsWhitespace(right.after[0]))
              && (word == "" ==> right.after == "")
  {
    hide TrimStart, FirstRunEnd, IsWhitespace;
    var trimmed := TrimStart(g.after);
    var skipped, n := |g.after| - |trimmed|, FirstRunEnd(trimmed);
    var white, word := g.after[..skipped], trimmed[..n];
    var right := Edited(g, ALT_RIGHT);
    assert right.before == g.before + white + word;
    assert right.after == trimmed[n..];
    assert white + word + right.after == g.after;
  }

  lemma WordsAreNotEmpty(s: string)
    requires s != ""
    ensures WordStart(s) < |s| && 0 < WordEnd(s)
  {
  }

  lemma MovingKeepsContents(g: Gap, k: nat, n: nat)
    requires k <= |g.before| && n <= |g.after|
    ensures MovedLeft(g, k).Contents() == g.Contents() && |MovedLeft(g, k).before| == k
    ensures MovedRight(g, n).Contents() == g.Contents() && |MovedRight(g, n).after| == |g.after| - n
    ensures k == |g.before| ==> MovedLeft(g, k) == g
    ensures n == 0 ==> MovedRight(g, n) == g
  {
    assert g.before == g.before[..k] + g.before[k..];
    assert g.after == g.after[..n] + g.after[n..];
  }

  /** Each word jump makes progress until its end of the line, and only moves the cursor. */
  lemma WordJumpsProgress(g: Gap)
    ensures var l, r := Edited(g, ALT_LEFT), Edited(g, ALT_RIGHT);
            && l.Contents() == r.Contents() == g.Contents()
            && (if g.before == "" then l == g else |l.before| < |g.before|)
            && (if g.after == "" then r == g else |r.after| < |g.after|)
  {
    hide WordStart, WordEnd, MovedLeft, MovedRight;
    MovingKeepsContents(g, WordStart(g.before), WordEnd(g.after));
    if g.before != "" { WordsAreNotEmpty(g.before); }
    if g.after != "" { WordsAreNotEmpty(g.after); }
  }

  /** So holding Alt-Left reaches the start of the line without changing the text. */
  lemma {:induction false} HoldingAltLeftReachesTheStart(g: Gap, times: nat)
    requires |g.before| <= times
    ensures ReceivedAll(g, Pressed(ALT_LEFT, times)) == Gap("", g.Contents())
    decreases times
  {
    hide WordStart;
    if times > 0 {
      WordJumpsProgress(g);
      HoldingAltLeftReachesTheStart(Edited(g, ALT_LEFT), times - 1);
      assert Pressed(ALT_LEFT, times)[1..] == Pressed(ALT_LEFT, times - 1);
    }
  }

  /** Erasing as many scalars as were inserted restores text and cursor; one scalar is the case of a typed key. */
  lemma {:induction false} BackspacesUndoInsertion(g: Gap, more: string)
    ensures ReceivedAll(Gap(g.before + more, g.after), Pressed(BACKSPACE, |more|)) == g
    decreases |more|
  {
    if more == "" {
      assert g.before + more == g.before;
    } else {
      var shorter := more[..|more| - 1];
      BackspacesUndoInsertion(g, shorter);
      assert (g.before + more)[..|g.before + more| - 1] == g.before + shorter;
      assert Pressed(BACKSPACE, |more|)[1..] == Pressed(BACKSPACE, |shorter|);
    }
  }

  lemma TypingThenBackspace(g: Gap, key: Key)
    requires key.code.Char? && key.IsTypedText()
    ensures ReceivedAll(g, [Press(key), Press(BACKSPACE)]) == g
  {
    BackspacesUndoInsertion(g, [key.code.c]);
    assert [Press(key), Press(BACKSPACE)][1..] == Pressed(BACKSPACE, 1);
  }

  /** Steps left and right cancel, and Delete is a step right and a Backspace. */
  lemma StepsCancel(g: Gap)
    ensures g.before != "" ==> Edited(Edited(g, LEFT), RIGHT) == g
    ensures g.after != "" ==> Edited(Edited(g, RIGHT), LEFT) == g
    ensures g.after != "" ==> Edited(Edited(g, RIGHT), BACKSPACE) == Edited(g, DELETE)
  {
    if g.before != "" {
      var n := |g.before| - 1;
      assert g.before[..n] + g.before[n..] == g.before;
      assert (g.before[n..] + g.after)[..1] == g.before[n..] && (g.before[n..] + g.after)[1..] == g.after;
    }
    if g.after != "" {
      assert (g.before + g.after[..1])[..|g.before|] == g.before;
      assert (g.before + g.after[..1])[|g.before|..] == g.after[..1];
      assert g.after[..1] + g.after[1..] == g.after;
    }
  }

  const CTRL_U := Key(Char('u'), true, false)
  const CTRL_K := Key(Char('k'), true, false)
  const HOME := Key(Home, false, false)
  const END := Key(End, false, false)

  /** Ctrl-U is as many Backspaces as there are scalars before the cursor. */
  lemma CtrlUIsBackspaces(g: Gap)
    ensures ReceivedAll(g, Pressed(BACKSPACE, |g.before|)) == Edited(g, CTRL_U)
  {
    BackspacesUndoInsertion(Gap("", g.after), g.before);
    assert "" + g.before == g.before;
  }

  /** Ctrl-K is as many Deletes as there are after it. */
  lemma {:induction false} CtrlKIsDeletes(g: Gap)
    ensures ReceivedAll(g, Pressed(DELETE, |g.after|)) == Edited(g, CTRL_K)
    decreases |g.after|
  {
    if g.after != "" {
      CtrlKIsDeletes(Edited(g, DELETE));
      assert Pressed(DELETE, |g.after|)[1..] == Pressed(DELETE, |g.after| - 1);
    }
  }

  /** Home is as many Lefts, End as many Rights. */
  lemma {:induction false} HomeIsLefts(g: Gap)
    ensures ReceivedAll(g, Pressed(LEFT, |g.before|)) == Edited(g, HOME)
    decreases |g.before|
  {
    if g.before == "" {
      assert "" + g.after == g.after;
    } else {
      MovingKeepsContents(g, |g.before| - 1, 0);
      HomeIsLefts(Edited(g, LEFT));
      assert Pressed(LEFT, |g.before|)[1..] == Pressed(LEFT, |g.before| - 1);
    }
  }

  lemma {:induction false} EndIsRights(g: Gap)
    ensures ReceivedAll(g, Pressed(RIGHT, |g.after|)) == Edited(g, END)
    decreases |g.after|
  {
    if g.after == "" {
      assert g.before + "" == g.before;
    } else {
      MovingKeepsContents(g, 0, 1);
      EndIsRights(Edited(g, RIGHT));
      assert Pressed(RIGHT, |g.after|)[1..] == Pressed(RIGHT, |g.after| - 1);
    }
  }

  /** Typing a character without Control and Alt is pasting it. */
  lemma TypingIsPasting(g: Gap, c: char)
    ensures Valid(Encode(c)) && Received(g, Press(Key(Char(c), false, false))) == Received(g, Paste(Encode(c)))
  {
    EncodedAlone(c);
    EncodedTextDecodes([c]);
  }

  /** With one of them it does nothing and is not handled, but for Control with w, u and k, which need no more. */
  lemma CommandsAreExactly(g: Gap, c: char, control: bool, alt: bool)
    requires control || alt
    ensures var key := Key(Char(c), control, alt);
            if control && c in {'w', 'u', 'k'}
            then Handled(key) && Edited(g, key) == Edited(g, Key(Char(c), true, false))
            else !Handled(key) && Edited(g, key) == g
  {
  }

  /** The other keys of the editor are handled with any modifiers; only Alt matters, and only to Left and Right. */
  lemma OtherKeysIgnoreModifiers(g: Gap, key: Key)
    requires !key.code.Char?
    ensures Handled(key) <==> key.code != OtherKey
    ensures key.code == OtherKey ==> Edited(g, key) == g
    ensures Edited(g, key) == Edited(g, Key(key.code, false, key.alt && key.code in {Left, Right}))
  {
  }
}
