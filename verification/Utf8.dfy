/**
  Rust strings as the program handles them: byte sequences that are well-formed UTF-8
  (section 4 of RFC 3629), addressed by byte offset. A Dafny `char` is a Unicode scalar value,
  as a Rust `char` is, so `string` is the decoded form.
 */
module Utf8 {
  import opened Wrappers

  type byte = b: int | 0 <= b < 256

  /** A byte of the form 10xxxxxx, which never starts a scalar. */
  predicate IsContinuation(b: byte) {
    0x80 <= b < 0xC0
  }

  /** The octet sequence of one scalar, by the table in section 3 of RFC 3629. */
  function Encode(c: char): (bytes: seq<byte>)
    ensures 1 <= |bytes| <= 4
    ensures !IsContinuation(bytes[0])
    ensures forall k :: 1 <= k < |bytes| ==> IsContinuation(bytes[k])
  {
    var n := c as int;
    if n < 0x80 then [n]
    else if n < 0x800 then [0xC0 + n / 64, 0x80 + n % 64]
    else if n < 0x1_0000 then [0xE0 + n / 4096, 0x80 + n / 64 % 64, 0x80 + n % 64]
    else [0xF0 + n / 262144, 0x80 + n / 4096 % 64, 0x80 + n / 64 % 64, 0x80 + n % 64]
  }

  function EncodeAll(cs: string): (bytes: seq<byte>)
    ensures |cs| <= |bytes| <= 4 * |cs|
  {
    if cs == "" then [] else Encode(cs[0]) + EncodeAll(cs[1..])
  }

  /** The length of the UTF8-char production (section 4 of RFC 3629) that `s` starts with, or 0. */
  function ScalarLength(s: seq<byte>): (n: nat)
    ensures n <= |s| && n <= 4
  {
    if |s| >= 1 && s[0] < 0x80 then 1
    else if |s| >= 2 && 0xC2 <= s[0] < 0xE0 && IsContinuation(s[1]) then 2
    else if |s| >= 3 && 0xE0 <= s[0] < 0xF0 && IsContinuation(s[1]) && IsContinuation(s[2])
            && (s[0] == 0xE0 ==> 0xA0 <= s[1]) && (s[0] == 0xED ==> s[1] < 0xA0) then 3
    else if |s| >= 4 && 0xF0 <= s[0] < 0xF5 && IsContinuation(s[1]) && IsContinuation(s[2]) && IsContinuation(s[3])
            && (s[0] == 0xF0 ==> 0x90 <= s[1]) && (s[0] == 0xF4 ==> s[1] < 0x90) then 4
    else 0
  }

  /** The bits those octets carry. */
  function CodePoint(s: seq<byte>): int
    requires ScalarLength(s) > 0
  {
    var b: seq<int> := s;
    match ScalarLength(s)
    case 1 => b[0]
    case 2 => (b[0] - 0xC0) * 64 + (b[1] - 0x80)
    case 3 => (b[0] - 0xE0) * 4096 + (b[1] - 0x80) * 64 + (b[2] - 0x80)
    case _ => (b[0] - 0xF0) * 262144 + (b[1] - 0x80) * 4096 + (b[2] - 0x80) * 64 + (b[3] - 0x80)
  }

  /** The productions exclude surrogates and everything past U+10FFFF. */
  lemma CodePointIsScalar(s: seq<byte>)
    requires ScalarLength(s) > 0
    ensures 0 <= CodePoint(s) < 0xD800 || 0xE000 <= CodePoint(s) < 0x11_0000
  {
  }

  /** The scalar value those octets carry. */
  function DecodeFirst(s: seq<byte>): char
    requires ScalarLength(s) > 0
  {
    CodePointIsScalar(s);
    CodePoint(s) as char
  }

  /** The decoder: `None` when some octet belongs to no UTF8-char production. */
  function Decode(s: seq<byte>): Option<string> {
    if s == [] then Some("")
    else if ScalarLength(s) == 0 then None
    else
      match Decode(s[ScalarLength(s)..])
      case None => None
      case Some(rest) => Some([DecodeFirst(s)] + rest)
  }

  predicate Valid(s: seq<byte>) {
    Decode(s).Some?
  }

  /** A Rust `String` or `&str`. */
  type Text = s: seq<byte> | Valid(s) witness []

  lemma LastSextet(q: nat, r: nat)
    requires r < 64
    ensures (q * 64 + r) / 64 == q && (q * 64 + r) % 64 == r
  {
  }

  lemma TwoBytes(a: int, b: int, c: int)
    requires c == (a - 0xC0) * 64 + (b - 0x80) && 0xC0 <= a && 0x80 <= b < 0xC0
    ensures c / 64 == a - 0xC0 && c % 64 == b - 0x80
  {
    LastSextet(a - 0xC0, b - 0x80);
  }

  lemma DividedTwice(n: nat)
    ensures n / 64 / 64 == n / 4096
  {
  }

  lemma ThreeBytes(a: int, b: int, d: int, c: int)
    requires c == (a - 0xE0) * 4096 + (b - 0x80) * 64 + (d - 0x80)
    requires 0xE0 <= a && 0x80 <= b < 0xC0 && 0x80 <= d < 0xC0
    ensures c / 4096 == a - 0xE0 && c / 64 % 64 == b - 0x80 && c % 64 == d - 0x80
  {
    var high := (a - 0xE0) * 64 + (b - 0x80);
    LastSextet(high, d - 0x80);
    LastSextet(a - 0xE0, b - 0x80);
    DividedTwice(c);
  }

  lemma DividedThrice(n: nat)
    ensures n / 4096 / 64 == n / 262144 && n / 64 / 4096 == n / 262144
  {
  }

  lemma FourBytes(a: int, b: int, d: int, e: int, c: int)
    requires c == (a - 0xF0) * 262144 + (b - 0x80) * 4096 + (d - 0x80) * 64 + (e - 0x80)
    requires 0xF0 <= a && 0x80 <= b < 0xC0 && 0x80 <= d < 0xC0 && 0x80 <= e < 0xC0
    ensures c / 262144 == a - 0xF0 && c / 4096 % 64 == b - 0x80 && c / 64 % 64 == d - 0x80 && c % 64 == e - 0x80
  {
    var high := (a - 0xF0) * 4096 + (b - 0x80) * 64 + (d - 0x80);
    LastSextet(high, e - 0x80);
    LastSextet((a - 0xF0) * 64 + (b - 0x80), d - 0x80);
    LastSextet(a - 0xF0, b - 0x80);
    DividedTwice(c);
    DividedTwice(c / 64);
    DividedThrice(c);
  }

  lemma FirstScalarEncodes(s: seq<byte>)
    requires ScalarLength(s) > 0
    ensures Encode(DecodeFirst(s)) == s[..ScalarLength(s)]
  {
    CodePointIsScalar(s);
    var e, c := Encode(DecodeFirst(s)), CodePoint(s);
    match ScalarLength(s) {
      case 1 => assert e == [s[0]] == s[..1];
      case 2 => TwoBytes(s[0], s[1], c); assert e == [s[0], s[1]] == s[..2];
      case 3 => ThreeBytes(s[0], s[1], s[2], c); assert e == [s[0], s[1], s[2]] == s[..3];
      case _ => FourBytes(s[0], s[1], s[2], s[3], c); assert e == [s[0], s[1], s[2], s[3]] == s[..4];
    }
  }

  /** Encoding undoes decoding: no octet sequence but the encoded one is accepted. */
  lemma {:induction false} DecodedTextEncodesBack(s: seq<byte>)
    requires Valid(s)
    ensures EncodeAll(Decode(s).value) == s
  {
    hide DecodeFirst, Encode, ScalarLength;
    if s != [] {
      var n := ScalarLength(s);
      DecodedTextEncodesBack(s[n..]);
      FirstScalarEncodes(s);
      assert Decode(s).value[1..] == Decode(s[n..]).value;
      assert s == s[..n] + s[n..];
    }
  }

  /** The scalars of a well-formed text, as `str::chars` yields them. */
  function Chars(s: seq<byte>): (cs: string)
    requires Valid(s)
    ensures EncodeAll(cs) == s
  {
    DecodedTextEncodesBack(s);
    Decode(s).value
  }

  /** A number by its digits in base 64. */
  lemma Sextets(n: nat)
    ensures n == n / 64 * 64 + n % 64
    ensures n == n / 4096 * 4096 + n / 64 % 64 * 64 + n % 64
    ensures n == n / 262144 * 262144 + n / 4096 % 64 * 4096 + n / 64 % 64 * 64 + n % 64
  {
    DividedTwice(n);
    DividedThrice(n);
    assert n / 64 == n / 64 / 64 * 64 + n / 64 % 64;
    assert n / 4096 == n / 4096 / 64 * 64 + n / 4096 % 64;
  }

  /** The octets of a scalar are one production, and carry it. */
  lemma EncodedScalar(c: char)
    ensures ScalarLength(Encode(c)) == |Encode(c)|
    ensures CodePoint(Encode(c)) == c as int
  {
    Sextets(c as int);
  }

  /** What a production is does not depend on what follows it. */
  lemma ScalarIsLocal(e: seq<byte>, rest: seq<byte>)
    requires ScalarLength(e) == |e| > 0
    ensures ScalarLength(e + rest) == |e|
    ensures CodePoint(e + rest) == CodePoint(e)
  {
    var s := e + rest;
    assert forall k :: 0 <= k < |e| ==> s[k] == e[k];
  }

  lemma FirstScalarDecodes(c: char, rest: seq<byte>)
    ensures ScalarLength(Encode(c) + rest) == |Encode(c)|
    ensures DecodeFirst(Encode(c) + rest) == c
    ensures (Encode(c) + rest)[|Encode(c)|..] == rest
  {
    hide Encode, ScalarLength, CodePoint;
    EncodedScalar(c);
    ScalarIsLocal(Encode(c), rest);
    CodePointIsScalar(Encode(c) + rest);
  }

  /** Decoding undoes encoding, for every text. */
  lemma {:induction false} EncodedTextDecodes(cs: string)
    ensures Decode(EncodeAll(cs)) == Some(cs)
  {
    if cs != "" {
      FirstScalarDecodes(cs[0], EncodeAll(cs[1..]));
      EncodedTextDecodes(cs[1..]);
      assert [cs[0]] + cs[1..] == cs;
    }
  }

  lemma AppendAssociates<T>(a: seq<T>, b: seq<T>, c: seq<T>)
    ensures a + (b + c) == (a + b) + c
  {
  }

  lemma {:induction false} EncodeAppends(a: string, b: string)
    ensures EncodeAll(a + b) == EncodeAll(a) + EncodeAll(b)
  {
    hide Encode;
    if a == "" {
      assert a + b == b;
    } else {
      EncodeAppends(a[1..], b);
      assert (a + b)[0] == a[0] && (a + b)[1..] == a[1..] + b;
      AppendAssociates(Encode(a[0]), EncodeAll(a[1..]), EncodeAll(b));
    }
  }

  /** Concatenating texts concatenates their scalars. */
  lemma AppendIsValid(a: seq<byte>, b: seq<byte>)
    requires Valid(a) && Valid(b)
    ensures Valid(a + b)
    ensures Chars(a + b) == Chars(a) + Chars(b)
  {
    EncodeAppends(Chars(a), Chars(b));
    EncodedTextDecodes(Chars(a) + Chars(b));
  }

  /** `String::push_str`. */
  function Append(a: Text, b: Text): (r: Text)
    ensures r == a + b
  {
    AppendIsValid(a, b);
    a + b
  }

  // ----- scalar boundaries

  /** `str::is_char_boundary`: a test on one byte. */
  predicate IsBoundary(s: seq<byte>, i: nat) {
    i == 0 || i == |s| || (i < |s| && !IsContinuation(s[i]))
  }

  /** The byte offset at which scalar number `k` starts. */
  function Offset(cs: string, k: nat): (n: nat)
    requires k <= |cs|
  {
    |EncodeAll(cs[..k])|
  }

  /** `str::char_indices`. */
  function CharIndices(s: seq<byte>): (indices: seq<(nat, char)>)
    requires Valid(s)
    ensures |indices| == |Chars(s)|
  {
    seq(|Chars(s)|, k requires 0 <= k < |Chars(s)| => (Offset(Chars(s), k), Chars(s)[k]))
  }

  lemma HalvesOf<T>(a: seq<T>, b: seq<T>)
    ensures (a + b)[..|a|] == a && (a + b)[|a|..] == b
  {
  }

  lemma OffsetSplits(cs: string, k: nat)
    requires k <= |cs|
    ensures Offset(cs, k) <= |EncodeAll(cs)|
    ensures EncodeAll(cs)[..Offset(cs, k)] == EncodeAll(cs[..k])
    ensures EncodeAll(cs)[Offset(cs, k)..] == EncodeAll(cs[k..])
  {
    hide Encode, EncodeAll, Decode;
    HalvesOf(cs[..k], cs[k..]);
    assert cs == cs[..k] + cs[k..];
    EncodeAppends(cs[..k], cs[k..]);
    HalvesOf(EncodeAll(cs[..k]), EncodeAll(cs[k..]));
  }

  lemma EncodedAlone(c: char)
    ensures EncodeAll([c]) == Encode(c)
  {
    hide Encode;
    var cs := [c];
    assert cs[1..] == "";
  }

  lemma OffsetStep(cs: string, k: nat)
    requires k < |cs|
    ensures Offset(cs, k + 1) == Offset(cs, k) + |Encode(cs[k])|
  {
    hide Encode, EncodeAll;
    EncodeAppends(cs[..k], [cs[k]]);
    assert cs[..k] + [cs[k]] == cs[..k + 1];
    EncodedAlone(cs[k]);
  }

  /** The bytes from one offset to the next are those of the scalar between. */
  lemma ByteInScalar(cs: string, k: nat, i: nat)
    requires k < |cs| && Offset(cs, k) <= i < Offset(cs, k) + |Encode(cs[k])|
    ensures i < |EncodeAll(cs)| && EncodeAll(cs)[i] == Encode(cs[k])[i - Offset(cs, k)]
  {
    hide Encode, Decode;
    OffsetSplits(cs, k);
    var rest := cs[k..];
    assert EncodeAll(rest) == Encode(rest[0]) + EncodeAll(rest[1..]);
    hide EncodeAll;
    assert EncodeAll(cs)[i] == EncodeAll(cs)[Offset(cs, k)..][i - Offset(cs, k)];
  }

  lemma {:induction false} OffsetsGrow(cs: string, j: nat, k: nat)
    requires j <= k <= |cs|
    ensures Offset(cs, j) + (k - j) <= Offset(cs, k)
    decreases k - j
  {
    hide Encode, EncodeAll, Offset;
    if j < k {
      OffsetsGrow(cs, j, k - 1);
      OffsetStep(cs, k - 1);
    }
  }

  lemma OffsetEnds(cs: string)
    ensures Offset(cs, 0) == 0
    ensures Offset(cs, |cs|) == |EncodeAll(cs)|
  {
    hide Encode;
    assert cs[..|cs|] == cs;
  }

  /** Every offset lies in exactly one scalar, or at the end. */
  lemma {:induction false} ScalarAt(cs: string, i: nat) returns (k: nat)
    requires i <= |EncodeAll(cs)|
    ensures k <= |cs| && Offset(cs, k) <= i <= Offset(cs, k) + 3
    ensures k < |cs| ==> i < Offset(cs, k + 1)
    ensures k == |cs| ==> i == Offset(cs, k)
  {
    hide Encode, EncodeAll, Offset;
    OffsetEnds(cs);
    k := 0;
    while k < |cs| && Offset(cs, k + 1) <= i
      invariant k <= |cs| && Offset(cs, k) <= i
    {
      k := k + 1;
    }
    if k < |cs| {
      OffsetStep(cs, k);
    }
  }

  /** The first byte of a scalar is a boundary, the others are not. */
  lemma BoundaryInScalar(cs: string, k: nat, i: nat)
    requires k < |cs| && Offset(cs, k) <= i < Offset(cs, k + 1)
    ensures IsBoundary(EncodeAll(cs), i) <==> i == Offset(cs, k)
  {
    hide Encode, EncodeAll, IsContinuation;
    OffsetStep(cs, k);
    ByteInScalar(cs, k, i);
    OffsetEnds(cs);
    OffsetsGrow(cs, 0, k);
  }

  /** The byte test accepts exactly the offsets at which scalars start, and the end. */
  lemma BoundaryIsOffset(cs: string, i: nat)
    ensures IsBoundary(EncodeAll(cs), i) <==> exists k :: 0 <= k <= |cs| && i == Offset(cs, k)
  {
    hide Encode, EncodeAll, Offset, IsContinuation;
    OffsetEnds(cs);
    if i > |EncodeAll(cs)| {
      forall j | 0 <= j <= |cs|
        ensures i != Offset(cs, j)
      {
        OffsetsGrow(cs, j, |cs|);
      }
    } else {
      var k := ScalarAt(cs, i);
      if k < |cs| {
        BoundaryInScalar(cs, k, i);
        forall j | 0 <= j <= |cs|
          ensures i == Offset(cs, j) ==> i == Offset(cs, k)
        {
          if j <= k { OffsetsGrow(cs, j, k); } else { OffsetsGrow(cs, k + 1, j); }
        }
      }
    }
  }

  /** Consecutive offsets are consecutive boundaries. */
  lemma OffsetsAreNeighbours(cs: string, k: nat)
    requires k < |cs|
    ensures Offset(cs, k) < Offset(cs, k + 1)
    ensures IsBoundary(EncodeAll(cs), Offset(cs, k)) && IsBoundary(EncodeAll(cs), Offset(cs, k + 1))
    ensures forall i :: Offset(cs, k) < i < Offset(cs, k + 1) ==> !IsBoundary(EncodeAll(cs), i)
  {
    hide Encode, EncodeAll, Offset, IsBoundary;
    OffsetsGrow(cs, k, k + 1);
    BoundaryIsOffset(cs, Offset(cs, k));
    BoundaryIsOffset(cs, Offset(cs, k + 1));
    forall i | Offset(cs, k) < i < Offset(cs, k + 1)
      ensures !IsBoundary(EncodeAll(cs), i)
    {
      BoundaryInScalar(cs, k, i);
    }
  }

  lemma WellFormedTextStartsAScalar(s: seq<byte>)
    requires Valid(s) && s != []
    ensures !IsContinuation(s[0])
  {
  }

  /** In a well-formed text the byte test accepts exactly the offsets that cut it into two well-formed texts. */
  lemma BoundarySplits(s: seq<byte>, i: nat)
    requires Valid(s)
    ensures IsBoundary(s, i) <==> i <= |s| && Valid(s[..i]) && Valid(s[i..])
    ensures IsBoundary(s, i) ==> Chars(s) == Chars(s[..i]) + Chars(s[i..])
  {
    hide Decode, EncodeAll, Encode, IsContinuation;
    var cs := Chars(s);
    BoundaryIsOffset(cs, i);
    if IsBoundary(s, i) {
      var k :| 0 <= k <= |cs| && i == Offset(cs, k);
      OffsetSplits(cs, k);
      EncodedTextDecodes(cs[..k]);
      EncodedTextDecodes(cs[k..]);
      assert cs == cs[..k] + cs[k..];
    } else if i <= |s| && Valid(s[i..]) {
      WellFormedTextStartsAScalar(s[i..]);
    }
  }

  /** ASCII text takes one byte a scalar, so every offset in it is a boundary. */
  lemma {:induction false} AsciiText(cs: string)
    requires forall k :: 0 <= k < |cs| ==> cs[k] < '\U{80}'
    ensures |EncodeAll(cs)| == |cs|
    ensures forall k :: 0 <= k < |cs| ==> EncodeAll(cs)[k] == cs[k] as int
  {
    if cs != "" {
      AsciiText(cs[1..]);
      assert Encode(cs[0]) == [cs[0] as int];
    }
  }
}
