/**
  Bounded text (src/detail.rs): a long text keeps its two ends around a marker, cut on scalar
  boundaries; a streamed buffer is cut back only once it has outgrown twice its cap.
 */
module Detail {
  import opened Wrappers
  import opened Utf8

  const MARKER_LENGTH: nat := 26

  /** The characters of the marker, all ASCII. */
  function MarkerChar(i: nat): (c: char)
    requires i < MARKER_LENGTH
    ensures c < '\U{80}'
  {
    "\n...[output truncated]...\n"[i]
  }

  function Marker(): (m: Text)
    ensures |m| == MARKER_LENGTH
    ensures forall i :: 0 <= i <= |m| ==> IsBoundary(m, i)
  {
    var text := seq(MARKER_LENGTH, i requires 0 <= i < MARKER_LENGTH => MarkerChar(i));
    AsciiText(text);
    EncodedTextDecodes(text);
    EncodeAll(text)
  }

  // ----- the nearest scalar boundaries

  /** `take_while(|(index, _)| *index < limit)`. */
  function IndicesBelow(indices: seq<(nat, char)>, limit: nat): seq<(nat, char)> {
    if indices == [] || indices[0].0 >= limit then []
    else [indices[0]] + IndicesBelow(indices[1..], limit)
  }

  lemma {:induction false} IndicesBelowStop(indices: seq<(nat, char)>, limit: nat, k: nat)
    requires k <= |indices|
    requires forall j :: 0 <= j < k ==> indices[j].0 < limit
    requires k < |indices| ==> indices[k].0 >= limit
    ensures IndicesBelow(indices, limit) == indices[..k]
    decreases k
  {
    if k > 0 {
      IndicesBelowStop(indices[1..], limit, k - 1);
      assert indices[..k] == [indices[0]] + indices[1..][..k - 1];
    }
  }

  /** `find(|(index, _)| *index > limit)`. */
  function FirstAbove(indices: seq<(nat, char)>, limit: nat): Option<nat> {
    if indices == [] then None
    else if indices[0].0 > limit then Some(indices[0].0)
    else FirstAbove(indices[1..], limit)
  }

  lemma {:induction false} FirstAboveSkips(indices: seq<(nat, char)>, limit: nat, k: nat)
    requires k <= |indices|
    requires forall j :: 0 <= j < k ==> indices[j].0 <= limit
    ensures FirstAbove(indices, limit) == FirstAbove(indices[k..], limit)
    decreases k
  {
    if k > 0 {
      FirstAboveSkips(indices[1..], limit, k - 1);
      assert indices[1..][k - 1..] == indices[k..];
    }
  }

  function BoundaryAtOrBefore(value: Text, limit: nat): nat {
    if IsBoundary(value, limit) then limit
    else
      var below := IndicesBelow(CharIndices(value), limit);
      if below == [] then 0 else below[|below| - 1].0
  }

  function BoundaryAtOrAfter(value: Text, limit: nat): nat {
    if IsBoundary(value, limit) then limit
    else
      match FirstAbove(CharIndices(value), limit)
      case Some(index) => index
      case None => |value|
  }

  /** The greatest boundary not past `limit`, at most three bytes short of it. */
  lemma BoundaryBeforeIsGreatest(value: Text, limit: nat)
    requires limit <= |value|
    ensures var b := BoundaryAtOrBefore(value, limit);
            && b <= limit <= b + 3 && IsBoundary(value, b)
            && (forall i :: b < i <= limit ==> !IsBoundary(value, i))
  {
    hide Decode, EncodeAll;
    if !IsBoundary(value, limit) {
      var cs := Chars(value);
      var k := ScalarAt(cs, limit);
      BoundaryIsOffset(cs, Offset(cs, k));
      assert k < |cs|;
      forall j | 0 <= j < k + 1
        ensures CharIndices(value)[j].0 < limit
      {
        OffsetsGrow(cs, j, k);
      }
      IndicesBelowStop(CharIndices(value), limit, k + 1);
      forall i | Offset(cs, k) < i <= limit
        ensures !IsBoundary(value, i)
      {
        BoundaryInScalar(cs, k, i);
      }
    }
  }

  /** The least boundary not before `limit`, at most three bytes past it. */
  lemma BoundaryAfterIsLeast(value: Text, limit: nat)
    requires limit <= |value|
    ensures var b := BoundaryAtOrAfter(value, limit);
            && limit <= b <= limit + 3 && b <= |value| && IsBoundary(value, b)
            && (forall i :: limit <= i < b ==> !IsBoundary(value, i))
  {
    hide Decode, EncodeAll;
    if !IsBoundary(value, limit) {
      var cs := Chars(value);
      var k := ScalarAt(cs, limit);
      BoundaryIsOffset(cs, Offset(cs, k));
      BoundaryIsOffset(cs, Offset(cs, k + 1));
      OffsetStep(cs, k);
      OffsetEnds(cs);
      OffsetSplits(cs, k + 1);
      assert BoundaryAtOrAfter(value, limit) == Offset(cs, k + 1) by {
        forall j | 0 <= j < k + 1
          ensures CharIndices(value)[j].0 <= limit
        {
          OffsetsGrow(cs, j, k);
        }
        FirstAboveSkips(CharIndices(value), limit, k + 1);
      }
      forall i | limit <= i < Offset(cs, k + 1)
        ensures !IsBoundary(value, i)
      {
        BoundaryInScalar(cs, k, i);
      }
    }
  }

  // ----- keeping both ends

  /** How many bytes the head may take beside the marker. */
  function HeadLimit(cap: nat): nat
    requires MARKER_LENGTH < cap
  {
    (cap - MARKER_LENGTH) / 2
  }

  /** How many bytes the tail may take: the rest. */
  function TailLimit(cap: nat): nat
    requires MARKER_LENGTH < cap
  {
    cap - MARKER_LENGTH - HeadLimit(cap)
  }

  lemma CutEndsAreValid(value: Text, headLimit: nat, tailFrom: nat)
    requires headLimit <= |value| && tailFrom <= |value|
    ensures var h, t := BoundaryAtOrBefore(value, headLimit), BoundaryAtOrAfter(value, tailFrom);
            && h <= |value| && t <= |value| && Valid(value[..h]) && Valid(value[t..])
            && Valid(value[..h] + Marker()) && Valid(value[..h] + Marker() + value[t..])
  {
    var h, t := BoundaryAtOrBefore(value, headLimit), BoundaryAtOrAfter(value, tailFrom);
    BoundaryBeforeIsGreatest(value, headLimit);
    BoundaryAfterIsLeast(value, tailFrom);
    BoundarySplits(value, h);
    BoundarySplits(value, t);
    AppendIsValid(value[..h], Marker());
    AppendIsValid(value[..h] + Marker(), value[t..]);
  }

  function BoundedEnds(value: Text, cap: nat): Text {
    hide Decode;
    if |value| <= cap then value
    else if cap <= MARKER_LENGTH then
      BoundarySplits(Marker(), cap);
      Marker()[..cap]
    else
      var headEnd := BoundaryAtOrBefore(value, HeadLimit(cap));
      var tailStart := BoundaryAtOrAfter(value, |value| - TailLimit(cap));
      CutEndsAreValid(value, HeadLimit(cap), |value| - TailLimit(cap));
      value[..headEnd] + Marker() + value[tailStart..]
  }

  /** `r` is `value` cut to a head of at most `headLimit` bytes and a tail of at most `tailLimit`, both maximal. */
  ghost predicate KeepsBothEnds(value: Text, headLimit: nat, tailLimit: nat, h: nat, t: nat, r: seq<byte>) {
    && headLimit <= |value| && tailLimit <= |value|
    && h <= headLimit && |value| - tailLimit <= t <= |value|
    && h <= t
    && Valid(value[..h]) && Valid(value[t..])
    && r == value[..h] + Marker() + value[t..]
    && (forall i :: h < i <= headLimit ==> !(Valid(value[..i]) && Valid(value[i..])))
    && (forall i :: |value| - tailLimit <= i < t ==> !(Valid(value[..i]) && Valid(value[i..])))
  }

  /** `r` is `value` cut to its two ends with at most six bytes of the cap unused. */
  ghost predicate CutToEnds(value: Text, cap: nat, r: seq<byte>)
    requires MARKER_LENGTH < cap < |value|
  {
    && cap - 6 <= |r|
    && exists h: nat, t: nat ::
         && KeepsBothEnds(value, HeadLimit(cap), TailLimit(cap), h, t, r)
         && HeadLimit(cap) - 3 <= h && t <= |value| - TailLimit(cap) + 3
  }

  /**
    What truncation returns, for every text and cap: never more than the cap and always well formed; when it
    cuts, the longest scalar-aligned head and tail that fit their halves of the room beside the marker, which
    do not overlap, so at most six bytes of the cap go unused.
   */
  lemma BoundedEndsExact(value: Text, cap: nat)
    ensures Valid(BoundedEnds(value, cap)) && |BoundedEnds(value, cap)| <= cap
    ensures |value| <= cap <==> BoundedEnds(value, cap) == value
    ensures cap <= MARKER_LENGTH && cap < |value| ==> BoundedEnds(value, cap) == Marker()[..cap]
    ensures MARKER_LENGTH < cap < |value| ==> CutToEnds(value, cap, BoundedEnds(value, cap))
  {
    hide Decode, EncodeAll, Marker, IsBoundary, BoundaryAtOrBefore, BoundaryAtOrAfter;
    if MARKER_LENGTH < cap < |value| {
      var head, tail := HeadLimit(cap), TailLimit(cap);
      var h, t := BoundaryAtOrBefore(value, head), BoundaryAtOrAfter(value, |value| - tail);
      BoundaryBeforeIsGreatest(value, head);
      BoundaryAfterIsLeast(value, |value| - tail);
      BoundarySplits(value, h);
      BoundarySplits(value, t);
      forall i | h < i <= head || |value| - tail <= i < t
        ensures !(Valid(value[..i]) && Valid(value[i..]))
      {
        BoundarySplits(value, i);
      }
      var r := BoundedEnds(value, cap);
      assert |r| == h + MARKER_LENGTH + (|value| - t);
      assert KeepsBothEnds(value, head, tail, h, t, r);
    }
  }

  /** A bounded text is already bounded, for its own cap and every larger one. */
  lemma BoundedEndsIdempotent(value: Text, cap: nat, larger: nat)
    requires cap <= larger
    ensures BoundedEnds(BoundedEnds(value, cap), larger) == BoundedEnds(value, cap)
  {
    BoundedEndsExact(value, cap);
  }

  lemma {:induction false} FourByteOffsets(cs: string, k: nat)
    requires k <= |cs|
    requires forall i :: 0 <= i < |cs| ==> cs[i] == '\U{1F600}'
    ensures Offset(cs, k) == 4 * k
    decreases k
  {
    if k > 0 {
      FourByteOffsets(cs, k - 1);
      OffsetStep(cs, k - 1);
    }
  }

  /** Six bytes really can go unused: nine four-byte scalars cut to 32 bytes leave the marker alone. */
  lemma SixBytesCanGoUnused()
    ensures exists value: Text, cap: nat ::
              MARKER_LENGTH < cap < |value| && |BoundedEnds(value, cap)| == cap - 6
  {
    hide Decode, EncodeAll, IsBoundary, BoundaryAtOrBefore, BoundaryAtOrAfter, Marker;
    var cs := seq(9, _ => '\U{1F600}');
    var value := EncodeAll(cs);
    EncodedTextDecodes(cs);
    FourByteOffsets(cs, 9);
    assert cs[..9] == cs;
    assert |value| == 36;
    FourByteOffsets(cs, 1);
    FourByteOffsets(cs, 8);
    BoundaryInScalar(cs, 0, 1);
    BoundaryInScalar(cs, 0, 2);
    BoundaryInScalar(cs, 0, 3);
    BoundaryInScalar(cs, 8, 33);
    BoundaryInScalar(cs, 8, 34);
    BoundaryInScalar(cs, 8, 35);
    BoundaryBeforeIsGreatest(value, 3);
    BoundaryAfterIsLeast(value, 33);
    assert |BoundedEnds(value, 32)| == 26;
  }

  // ----- streaming

  function Newline(): (n: Text)
    ensures n == [0x0A]
  {
    EncodedTextDecodes("\n");
    assert Encode('\n') == [0x0A];
    EncodeAll("\n")
  }

  /** What one push adds: a separating newline unless the buffer is empty, then the value. */
  function Addition(buffer: Text, value: Text): Text {
    if buffer == [] then value else Append(Newline(), value)
  }

  function Extended(buffer: Text, value: Text): Text {
    Append(buffer, Addition(buffer, value))
  }

  /** The buffer after a push; its cost is accounted for by `Meter`. */
  function Pushed(buffer: Text, value: Text, cap: nat): Text {
    var longer := Extended(buffer, value);
    if |longer| > 2 * cap then BoundedEnds(longer, cap) else longer
  }

  /** A growing detail text, as the readers of a child process stream into it. */
  class TextBuffer {
    var text: Text

    constructor ()
      ensures text == []
    {
      text := [];
    }

    method PushBoundedEnds(value: Text, cap: nat)
      modifies this
      ensures text == Pushed(old(text), value, cap)
      ensures |text| <= 2 * cap
    {
      hide Decode, BoundedEnds, EncodeAll, Encode, CutToEnds, IsBoundary;
      if text != [] {
        text := Append(text, Newline());
      }
      text := Append(text, value);
      assert text == Extended(old(text), value);
      if |text| > 2 * cap {
        BoundedEndsExact(text, cap);
        text := BoundedEnds(text, cap);
      }
    }
  }

  /** One call of the stream: a value and the cap it is pushed with. */
  datatype Push = Push(value: Text, cap: nat)

  /**
    A stream's buffer with what it cost: bytes produced (values and separators), bytes written by appends,
    bytes handled by compactions (each handles the whole buffer), and the number of compactions.
   */
  datatype Meter = Meter(buffer: Text, stream: Text, appended: nat, handled: nat, compactions: nat) {
    function Produced(): nat { |stream| }
  }

  const EMPTY := Meter([], [], 0, 0, 0)

  function Metered(m: Meter, push: Push): Meter {
    var added := Addition(m.buffer, push.value);
    var longer := Extended(m.buffer, push.value);
    var compacts := |longer| > 2 * push.cap;
    Meter(Pushed(m.buffer, push.value, push.cap), Append(m.stream, added), m.appended + |added|,
          m.handled + (if compacts then |longer| else 0), m.compactions + (if compacts then 1 else 0))
  }

  function Streamed(pushes: seq<Push>): Meter {
    if pushes == [] then EMPTY else Metered(Streamed(pushes[..|pushes| - 1]), pushes[|pushes| - 1])
  }

  /** What one push does to the meter. */
  lemma MeteredStep(m: Meter, push: Push)
    ensures var n := Metered(m, push);
            && n.Produced() - m.Produced() == n.appended - m.appended
            && |n.buffer| <= 2 * push.cap
            && if n.compactions == m.compactions
               then |n.buffer| == |m.buffer| + (n.Produced() - m.Produced()) && n.handled == m.handled
               else && n.compactions == m.compactions + 1
                    && |n.buffer| <= push.cap
                    && n.handled - m.handled == |m.buffer| + (n.Produced() - m.Produced()) > 2 * push.cap
  {
    hide Decode, BoundedEnds;
    BoundedEndsExact(Extended(m.buffer, push.value), push.cap);
  }

  /**
    Streaming is amortised linear. Over any pushes, with any caps, appends and compactions together handle at
    most three bytes for each byte produced; two credits for each byte still buffered are left over, which pay
    for the next compaction.
   */
  lemma {:induction false} StreamingIsLinear(pushes: seq<Push>)
    ensures var m := Streamed(pushes);
            && m.appended + m.handled + 2 * |m.buffer| <= 3 * m.Produced()
            && (pushes != [] ==> |m.buffer| <= 2 * pushes[|pushes| - 1].cap)
  {
    hide Decode, BoundedEnds, Metered;
    if pushes != [] {
      var n := |pushes| - 1;
      StreamingIsLinear(pushes[..n]);
      MeteredStep(Streamed(pushes[..n]), pushes[n]);
    }
  }

  /** With one cap throughout, each compaction is paid for by more than `cap` bytes of its own. */
  lemma {:induction false} CompactsOncePerCap(pushes: seq<Push>, cap: nat)
    requires forall i :: 0 <= i < |pushes| ==> pushes[i].cap == cap
    ensures Streamed(pushes).compactions * (cap + 1) + |Streamed(pushes).buffer| <= Streamed(pushes).Produced()
  {
    hide Decode, BoundedEnds, Metered;
    if pushes != [] {
      var n := |pushes| - 1;
      CompactsOncePerCap(pushes[..n], cap);
      var before, after := Streamed(pushes[..n]), Streamed(pushes);
      MeteredStep(before, pushes[n]);
      if after.compactions > before.compactions {
        assert after.compactions * (cap + 1) == before.compactions * (cap + 1) + (cap + 1);
      }
    }
  }

  /** `a` and `b` share their first `head` and last `tail` bytes. */
  ghost predicate SameEnds(a: seq<byte>, b: seq<byte>, head: nat, tail: nat) {
    && head <= |a| && head <= |b| && tail <= |a| && tail <= |b|
    && a[..head] == b[..head]
    && a[|a| - tail..] == b[|b| - tail..]
  }

  lemma SameEndsTransitive(a: seq<byte>, b: seq<byte>, c: seq<byte>, head: nat, tail: nat)
    requires SameEnds(a, b, head, tail) && SameEnds(b, c, head, tail)
    ensures SameEnds(a, c, head, tail)
  {
  }

  lemma SameEndsAppend(a: seq<byte>, b: seq<byte>, more: seq<byte>, head: nat, tail: nat)
    requires SameEnds(a, b, head, tail)
    ensures SameEnds(a + more, b + more, head, tail)
  {
    var x, y := a + more, b + more;
    assert x[..head] == a[..head] && y[..head] == b[..head];
    var s, t := x[|x| - tail..], y[|y| - tail..];
    forall i | 0 <= i < tail
      ensures s[i] == t[i]
    {
      if i + |more| >= tail {
        assert x[|x| - tail + i] == more[|more| - tail + i] == y[|y| - tail + i];
      } else {
        assert a[|a| - tail..][i + |more|] == b[|b| - tail..][i + |more|];
      }
    }
  }

  lemma TruncationKeepsEnds(value: Text, cap: nat, head: nat, tail: nat)
    requires MARKER_LENGTH + 6 <= cap < |value|
    requires head + 3 == HeadLimit(cap) && tail + 3 == TailLimit(cap)
    ensures SameEnds(BoundedEnds(value, cap), value, head, tail)
  {
    hide Decode, EncodeAll, Marker, BoundedEnds;
    BoundedEndsExact(value, cap);
    var r := BoundedEnds(value, cap);
    var h: nat, t: nat :| KeepsBothEnds(value, head + 3, tail + 3, h, t, r) && head <= h && t <= |value| - tail;
    assert r[..head] == value[..head];
    assert r[|r| - tail..] == value[|value| - tail..];
  }

  /**
    However often a stream has been compacted, its buffer still is the whole stream or starts and ends with
    the same bytes as the whole stream, over half the room beside the marker less one scalar at each end.
   */
  lemma {:induction false} StreamKeepsBothEnds(pushes: seq<Push>, cap: nat, head: nat, tail: nat)
    requires forall i :: 0 <= i < |pushes| ==> pushes[i].cap == cap
    requires MARKER_LENGTH + 6 <= cap
    requires head + 3 == HeadLimit(cap) && tail + 3 == TailLimit(cap)
    ensures var m := Streamed(pushes);
            m.buffer == m.stream || SameEnds(m.buffer, m.stream, head, tail)
  {
    hide Decode, Encode, EncodeAll, BoundedEnds, CutToEnds, SameEnds, HeadLimit, TailLimit;
    if pushes != [] {
      var n := |pushes| - 1;
      StreamKeepsBothEnds(pushes[..n], cap, head, tail);
      var before, after := Streamed(pushes[..n]), Streamed(pushes);
      var added := Addition(before.buffer, pushes[n].value);
      var longer := Extended(before.buffer, pushes[n].value);
      if before.buffer != before.stream {
        SameEndsAppend(before.buffer, before.stream, added, head, tail);
      }
      if after.buffer != longer {
        TruncationKeepsEnds(longer, cap, head, tail);
        if longer != after.stream {
          SameEndsTransitive(after.buffer, longer, after.stream, head, tail);
        }
      }
    }
  }
}
