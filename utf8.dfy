/**
 * Strict UTF-8, as Python's `bytes.decode('utf-8')` accepts it: the byte syntax of
 * section 4 of RFC 3629. Overlong forms, UTF-16 surrogates, code points above U+10FFFF
 * and the bytes C0, C1 and F5 to FF are all rejected.
 */
module Utf8 {
  import opened Wrappers

  type Byte = b: int | 0 <= b < 0x100

  /** A Unicode scalar value: a code point that is not a surrogate. */
  type Scalar = c: int | 0 <= c < 0xD800 || 0xE000 <= c < 0x11_0000

  predicate IsTail(x: Byte) {
    0x80 <= x <= 0xBF
  }

  /** Number of bytes of the sequence a lead byte opens; 0 for a byte that cannot lead. */
  function Width(lead: Byte): (n: nat)
    ensures n <= 4
  {
    if lead <= 0x7F then 1
    else if 0xC2 <= lead <= 0xDF then 2
    else if 0xE0 <= lead <= 0xEF then 3
    else if 0xF0 <= lead <= 0xF4 then 4
    else 0
  }

  /** Range of the second byte after a lead byte: narrowed after E0, ED, F0 and F4. */
  function SecondLow(lead: Byte): Byte {
    if lead == 0xE0 then 0xA0 else if lead == 0xF0 then 0x90 else 0x80
  }

  function SecondHigh(lead: Byte): Byte {
    if lead == 0xED then 0x9F else if lead == 0xF4 then 0x8F else 0xBF
  }

  /** The bytes after the lead byte of `u` obey the grammar, as far as `u` goes. */
  predicate ContinuationOk(u: seq<Byte>)
    requires |u| > 0
  {
    (|u| > 1 ==> SecondLow(u[0]) <= u[1] <= SecondHigh(u[0])) &&
    forall i | 2 <= i < |u| :: IsTail(u[i])
  }

  /** `u` is one well-formed UTF-8 sequence (UTF8-1, UTF8-2, UTF8-3 or UTF8-4). */
  predicate IsUnit(u: seq<Byte>) {
    |u| > 0 && |u| == Width(u[0]) && ContinuationOk(u)
  }

  /** `u` is a non-empty proper prefix of some well-formed sequence: a cut code point. */
  predicate IsPartialUnit(u: seq<Byte>) {
    |u| > 0 && |u| < Width(u[0]) && ContinuationOk(u)
  }

  /** Length of the well-formed sequence at the start of `b`; 0 when there is none. */
  function LeadLength(b: seq<Byte>): (n: nat)
    ensures n <= |b| && n <= 4
    ensures n > 0 ==> IsUnit(b[..n])
  {
    if |b| == 0 then 0
    else
      var w := Width(b[0]);
      if 0 < w <= |b| && IsUnit(b[..w]) then w else 0
  }

  /** `b` is a concatenation of well-formed sequences. */
  predicate ValidUtf8(b: seq<Byte>)
    decreases |b|
  {
    |b| == 0 || (LeadLength(b) > 0 && ValidUtf8(b[LeadLength(b)..]))
  }

  /** The value of a continuation byte: its low six bits. */
  function Payload(x: Byte): int {
    x as int - 0x80
  }

  /** The code point one well-formed sequence stands for. */
  function DecodeUnit(u: seq<Byte>): (c: Scalar)
    requires IsUnit(u)
  {
    var lead := u[0] as int;
    if |u| == 1 then lead
    else if |u| == 2 then (lead - 0xC0) * 64 + Payload(u[1])
    else if |u| == 3 then ((lead - 0xE0) * 64 + Payload(u[1])) * 64 + Payload(u[2])
    else (((lead - 0xF0) * 64 + Payload(u[1])) * 64 + Payload(u[2])) * 64 + Payload(u[3])
  }

  /** The shortest encoding of one scalar value. */
  function EncodeScalar(c: Scalar): (u: seq<Byte>)
    ensures IsUnit(u) && DecodeUnit(u) == c
  {
    if c < 0x80 then [c]
    else if c < 0x800 then [0xC0 + c / 64, 0x80 + c % 64]
    else if c < 0x1_0000 then [0xE0 + c / 64 / 64, 0x80 + c / 64 % 64, 0x80 + c % 64]
    else [0xF0 + c / 64 / 64 / 64, 0x80 + c / 64 / 64 % 64, 0x80 + c / 64 % 64, 0x80 + c % 64]
  }

  lemma Digit(q: int, r: int)
    requires 0 <= r < 64
    ensures (q * 64 + r) / 64 == q && (q * 64 + r) % 64 == r
  {
  }

  lemma TwoByteRoundTrip(u: seq<Byte>)
    requires IsUnit(u) && |u| == 2
    ensures EncodeScalar(DecodeUnit(u)) == u
  {
    Digit(u[0] as int - 0xC0, Payload(u[1]));
  }

  lemma ThreeByteRoundTrip(u: seq<Byte>)
    requires IsUnit(u) && |u| == 3
    ensures EncodeScalar(DecodeUnit(u)) == u
  {
    var lead := u[0] as int;
    var hi := (lead - 0xE0) * 64 + Payload(u[1]);
    Digit(hi, Payload(u[2]));
    Digit(lead - 0xE0, Payload(u[1]));
    assert IsTail(u[2]);
  }

  lemma FourByteRoundTrip(u: seq<Byte>)
    requires IsUnit(u) && |u| == 4
    ensures EncodeScalar(DecodeUnit(u)) == u
  {
    var lead := u[0] as int;
    var hi := (lead - 0xF0) * 64 + Payload(u[1]);
    var mid := hi * 64 + Payload(u[2]);
    assert IsTail(u[2]) && IsTail(u[3]);
    var c := DecodeUnit(u);
    assert c == mid * 64 + Payload(u[3]) && c >= 0x1_0000;
    Digit(mid, Payload(u[3]));
    Digit(hi, Payload(u[2]));
    Digit(lead - 0xF0, Payload(u[1]));
    assert c / 64 == mid && c / 64 / 64 == hi && c / 64 / 64 / 64 == lead - 0xF0;
  }

  /** Every well-formed sequence is the encoding of the scalar it decodes to. */
  lemma UnitRoundTrip(u: seq<Byte>)
    requires IsUnit(u)
    ensures EncodeScalar(DecodeUnit(u)) == u
  {
    if |u| == 2 {
      TwoByteRoundTrip(u);
    } else if |u| == 3 {
      ThreeByteRoundTrip(u);
    } else if |u| == 4 {
      FourByteRoundTrip(u);
    }
  }

  /** Decoding as `bytes.decode('utf-8')` does: the scalars, or failure. */
  function Decode(b: seq<Byte>): (r: Option<seq<Scalar>>)
    ensures r.Some? <==> ValidUtf8(b)
    ensures r.Some? ==> |r.value| <= |b| && (b != [] ==> r.value != [])
    decreases |b|
  {
    if |b| == 0 then Some([])
    else
      var n := LeadLength(b);
      if n == 0 then None
      else
        match Decode(b[n..])
        case None => None
        case Some(rest) => Some([DecodeUnit(b[..n])] + rest)
  }

  /** Overlong forms, surrogates, code points above U+10FFFF and the byte FF are rejected. */
  lemma RejectsIllFormed()
    ensures Decode([0xC0, 0x80]).None? && Decode([0xE0, 0x80, 0x80]).None?
    ensures Decode([0xED, 0xA0, 0x80]).None? && Decode([0xF4, 0x90, 0x80, 0x80]).None?
    ensures Decode([0xFF]).None? && Decode([0xE2, 0x82]).None?
  {
  }

  /** Encoding as `str.encode('utf-8')` does. */
  function Encode(s: seq<Scalar>): (b: seq<Byte>)
    ensures |s| <= |b| <= 4 * |s|
  {
    if |s| == 0 then [] else EncodeScalar(s[0]) + Encode(s[1..])
  }

  /** The sequence at the start of `b` is found again when more bytes follow. */
  lemma LeadAppend(b: seq<Byte>, c: seq<Byte>)
    requires LeadLength(b) > 0
    ensures LeadLength(b + c) == LeadLength(b)
  {
    var n := LeadLength(b);
    assert (b + c)[..n] == b[..n];
  }

  /** Decoding a well-formed sequence followed by more bytes decodes the rest after it. */
  lemma DecodeUnitThen(u: seq<Byte>, rest: seq<Byte>)
    requires IsUnit(u)
    ensures Decode(u + rest) ==
      match Decode(rest)
      case None => None
      case Some(t) => Some([DecodeUnit(u)] + t)
  {
    assert (u + rest)[..|u|] == u;
    LeadAppend(u, rest);
    assert (u + rest)[|u|..] == rest;
  }

  /** Valid non-empty bytes decode to their first code point followed by the rest. */
  lemma DecodeFirst(b: seq<Byte>)
    requires ValidUtf8(b) && b != []
    ensures var n := LeadLength(b);
      n > 0 && ValidUtf8(b[n..]) && Decode(b) == Some([DecodeUnit(b[..n])] + Decode(b[n..]).value)
  {
  }

  lemma EncodeFirst(c: Scalar, t: seq<Scalar>)
    ensures Encode([c] + t) == EncodeScalar(c) + Encode(t)
  {
    assert ([c] + t)[1..] == t;
  }

  lemma {:induction false} DecodeEncode(s: seq<Scalar>)
    ensures Decode(Encode(s)) == Some(s)
  {
    if |s| > 0 {
      DecodeUnitThen(EncodeScalar(s[0]), Encode(s[1..]));
      DecodeEncode(s[1..]);
      assert [s[0]] + s[1..] == s;
    }
  }

  /** Every text encodes to valid UTF-8. */
  lemma EncodeValid(s: seq<Scalar>)
    ensures ValidUtf8(Encode(s))
  {
    DecodeEncode(s);
  }

  lemma {:induction false} EncodeDecode(b: seq<Byte>)
    requires ValidUtf8(b)
    ensures Encode(Decode(b).value) == b
  {
    if |b| > 0 {
      var n := LeadLength(b);
      var unit, rest := b[..n], b[n..];
      assert unit + rest == b;
      DecodeFirst(b);
      var tailText := Decode(rest).value;
      assert Encode(tailText) == rest by {
        EncodeDecode(rest);
      }
      assert EncodeScalar(DecodeUnit(unit)) == unit by {
        UnitRoundTrip(unit);
      }
      EncodeFirst(DecodeUnit(unit), tailText);
    }
  }

  lemma {:induction false} EncodeAppend(s: seq<Scalar>, t: seq<Scalar>)
    ensures Encode(s + t) == Encode(s) + Encode(t)
  {
    if |s| > 0 {
      assert (s + t)[1..] == s[1..] + t;
      EncodeAppend(s[1..], t);
    } else {
      assert s + t == t;
    }
  }

  /** Two valid byte strings joined are valid, and decode to the two texts joined. */
  lemma DecodeAppend(a: seq<Byte>, c: seq<Byte>)
    requires ValidUtf8(a) && ValidUtf8(c)
    ensures Decode(a + c) == Some(Decode(a).value + Decode(c).value)
  {
    var s, t := Decode(a).value, Decode(c).value;
    EncodeDecode(a);
    EncodeDecode(c);
    EncodeAppend(s, t);
    DecodeEncode(s + t);
  }

  /** Cutting a valid byte string after a valid prefix leaves a valid suffix. */
  lemma {:induction false} ValidSuffix(a: seq<Byte>, c: seq<Byte>)
    requires ValidUtf8(a) && ValidUtf8(a + c)
    ensures ValidUtf8(c)
  {
    if |a| > 0 {
      var n := LeadLength(a);
      LeadAppend(a, c);
      assert (a + c)[n..] == a[n..] + c;
      ValidSuffix(a[n..], c);
    } else {
      assert a + c == c;
    }
  }

  /**
   * `b` is whole sequences followed by at most one cut code point, so that some
   * further bytes can make it valid.
   */
  predicate Completable(b: seq<Byte>)
    decreases |b|
  {
    |b| == 0 || IsPartialUnit(b) || (LeadLength(b) > 0 && Completable(b[LeadLength(b)..]))
  }

  /** Bytes that finish a cut code point. */
  function FinishUnit(u: seq<Byte>): (r: seq<Byte>)
    requires IsPartialUnit(u)
    ensures IsUnit(u + r)
  {
    var tails := seq(Width(u[0]) - |u| - (if |u| == 1 then 1 else 0), _ => 0x80 as Byte);
    var r := if |u| == 1 then [SecondLow(u[0])] + tails else tails;
    assert (u + r)[0] == u[0];
    r
  }

  /** Bytes that make a completable byte string valid. */
  function Completion(b: seq<Byte>): (r: seq<Byte>)
    requires Completable(b)
    ensures ValidUtf8(b + r)
    decreases |b|
  {
    if |b| == 0 then []
    else if IsPartialUnit(b) then
      var r := FinishUnit(b);
      assert LeadLength(b + r) == |b + r|;
      assert (b + r)[|b + r|..] == [];
      r
    else
      var n := LeadLength(b);
      var r := Completion(b[n..]);
      LeadAppend(b, r);
      assert (b + r)[n..] == b[n..] + r;
      r
  }

  /** A byte string that some extension makes valid is completable. */
  lemma {:induction false} ExtensionCompletable(b: seq<Byte>, c: seq<Byte>)
    requires ValidUtf8(b + c)
    ensures Completable(b)
    decreases |b|
  {
    if |b| > 0 {
      var n := LeadLength(b + c);
      if n <= |b| {
        assert (b + c)[..n] == b[..n];
        assert LeadLength(b) == n;
        assert (b + c)[n..] == b[n..] + c;
        ExtensionCompletable(b[n..], c);
      } else {
        assert (b + c)[..n][..|b|] == b;
        assert IsPartialUnit(b);
      }
    }
  }

  /** Completable is exactly "some further bytes make it valid". */
  lemma CompletableIff(b: seq<Byte>)
    ensures Completable(b) <==> exists c :: ValidUtf8(b + c)
  {
    if Completable(b) {
      var c := Completion(b);
      assert ValidUtf8(b + c);
    }
    if c :| ValidUtf8(b + c) {
      ExtensionCompletable(b, c);
    }
  }

  /** Once a byte string cannot be completed, no bytes appended to it decode. */
  lemma Stuck(b: seq<Byte>, c: seq<Byte>)
    requires !Completable(b)
    ensures !ValidUtf8(b + c) && !Completable(b + c)
  {
    if ValidUtf8(b + c) {
      ExtensionCompletable(b, c);
    }
    if Completable(b + c) {
      var d := Completion(b + c);
      assert (b + c) + d == b + (c + d);
      ExtensionCompletable(b, c + d);
    }
  }
}
