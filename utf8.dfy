/** UTF-8 decoding as section 4 of RFC 3629 defines the well-formed byte
    sequences: no overlong forms, no surrogates, nothing above U+10FFFF.
    Python's strict `bytes.decode("utf-8")` accepts exactly these. */
module Utf8 {
  import opened Outcomes
  import opened Ast

  /** `UTF8-tail = %x80-BF`. */
  predicate IsTail(b: byte) { 0x80 <= b <= 0xBF }

  /** The second byte of a three-byte sequence: `%xE0 %xA0-BF`,
      `%xED %x80-9F`, and any tail after the other lead bytes. */
  predicate SecondOf3(lead: byte, b: byte)
  {
    if lead == 0xE0 then 0xA0 <= b <= 0xBF
    else if lead == 0xED then 0x80 <= b <= 0x9F
    else IsTail(b)
  }

  /** The second byte of a four-byte sequence: `%xF0 %x90-BF`,
      `%xF4 %x80-8F`, and any tail after `%xF1-F3`. */
  predicate SecondOf4(lead: byte, b: byte)
  {
    if lead == 0xF0 then 0x90 <= b <= 0xBF
    else if lead == 0xF4 then 0x80 <= b <= 0x8F
    else IsTail(b)
  }

  /** The length of the well-formed sequence at the front of `bs`, or 0 when
      `bs` does not start with one. */
  function SeqLength(bs: seq<byte>): (n: nat)
    ensures n <= 4 && n <= |bs|
    ensures n == 1 <==> |bs| > 0 && bs[0] <= 0x7F
    ensures n > 1 ==> bs[0] >= 0xC2 && forall k | 1 <= k < n :: IsTail(bs[k])
  {
    if |bs| == 0 then 0
    else if bs[0] <= 0x7F then 1
    else if 0xC2 <= bs[0] <= 0xDF then
      if |bs| >= 2 && IsTail(bs[1]) then 2 else 0
    else if 0xE0 <= bs[0] <= 0xEF then
      if |bs| >= 3 && SecondOf3(bs[0], bs[1]) && IsTail(bs[2]) then 3 else 0
    else if 0xF0 <= bs[0] <= 0xF4 then
      if |bs| >= 4 && SecondOf4(bs[0], bs[1]) && IsTail(bs[2]) && IsTail(bs[3]) then 4 else 0
    else 0
  }

  /** A Unicode scalar value: a code point that is not a surrogate. */
  predicate IsScalar(v: int)
  {
    0 <= v < 0xD800 || 0xE000 <= v < 0x11_0000
  }

  function Payload(b: byte): int { b as int - 0x80 }

  /** The code point a well-formed sequence stands for. It is always a
      scalar value, and it is 0 only for the one-byte sequence `%x00`. */
  function ScalarValue(bs: seq<byte>): (v: int)
    requires SeqLength(bs) > 0
    ensures IsScalar(v)
    ensures v == 0 <==> bs[0] == 0
  {
    var n := SeqLength(bs);
    if n == 1 then bs[0] as int
    else if n == 2 then (bs[0] as int - 0xC0) * 64 + Payload(bs[1])
    else if n == 3 then (bs[0] as int - 0xE0) * 4096 + Payload(bs[1]) * 64 + Payload(bs[2])
    else (bs[0] as int - 0xF0) * 262144 + Payload(bs[1]) * 4096 + Payload(bs[2]) * 64 + Payload(bs[3])
  }

  /** Strict decoding: the sequences one after the other, or failure
      (Python's UnicodeDecodeError) at the first ill-formed one. */
  function Decode(bs: seq<byte>): (r: Option<string>)
    ensures r.Some? ==> |r.value| <= |bs|
    decreases |bs|
  {
    if bs == [] then Some([])
    else
      var n := SeqLength(bs);
      if n == 0 then None
      else match Decode(bs[n..])
        case None => None
        case Some(rest) => Some([ScalarValue(bs) as char] + rest)
  }

  /** The bytes of the first sequence are zero only when the sequence is
      the single byte 0: lead bytes of longer sequences are at least
      `%xC2` and tails at least `%x80`. */
  lemma ZeroOnlyAlone(bs: seq<byte>)
    requires SeqLength(bs) > 0
    ensures 0 in bs[..SeqLength(bs)] <==> bs[0] == 0
  {
    var n := SeqLength(bs);
    if 0 in bs[..n] {
      var k :| 0 <= k < n && bs[..n][k] == 0;
      assert bs[k] == 0;
    }
    if bs[0] == 0 {
      assert bs[..n][0] == 0;
    }
  }

  /** The decoded text holds a NUL character exactly when the bytes hold a
      zero byte. */
  lemma {:induction false} NulIffZeroByte(bs: seq<byte>)
    requires Decode(bs).Some?
    ensures '\0' in Decode(bs).value <==> 0 in bs
    decreases |bs|
  {
    if bs != [] {
      var n := SeqLength(bs);
      NulIffZeroByte(bs[n..]);
      ZeroOnlyAlone(bs);
      var c := ScalarValue(bs) as char;
      assert Decode(bs).value == [c] + Decode(bs[n..]).value;
      assert bs == bs[..n] + bs[n..];
      assert 0 in bs <==> 0 in bs[..n] || 0 in bs[n..];
      assert c == '\0' <==> bs[0] == 0;
    }
  }

  /** ASCII bytes decode one character each, to themselves. */
  lemma {:induction false} AsciiDecodes(bs: seq<byte>)
    requires forall i | 0 <= i < |bs| :: bs[i] <= 0x7F
    ensures Decode(bs).Some?
    ensures |Decode(bs).value| == |bs|
    ensures forall i | 0 <= i < |bs| :: Decode(bs).value[i] as int == bs[i] as int
    decreases |bs|
  {
    if bs != [] {
      AsciiDecodes(bs[1..]);
      assert SeqLength(bs) == 1;
      var rest := Decode(bs[1..]).value;
      assert Decode(bs).value == [bs[0] as int as char] + rest;
      forall i | 1 <= i < |bs|
        ensures Decode(bs).value[i] as int == bs[i] as int
      {
        assert Decode(bs).value[i] == rest[i - 1];
        assert bs[1..][i - 1] == bs[i];
      }
    }
  }

  /** A single ASCII byte is the one-character text of that code. */
  lemma DecodeAsciiByte(bs: seq<byte>)
    requires |bs| == 1 && bs[0] <= 0x7F
    ensures Decode(bs) == Some([bs[0] as int as char])
  {
    assert SeqLength(bs) == 1;
    assert bs[1..] == [];
    assert Decode(bs[1..]) == Some([]);
    var c := ScalarValue(bs) as char;
    assert c == bs[0] as int as char;
    assert [c] + [] == [c];
  }

  /** The encoding of one scalar value, as the table of section 3 of
      RFC 3629 lays out its bits. */
  function EncodeScalar(v: int): (r: seq<byte>)
    requires IsScalar(v)
    ensures 1 <= |r| <= 4
  {
    if v < 0x80 then [v as byte]
    else if v < 0x800 then [(0xC0 + v / 64) as byte, (0x80 + v % 64) as byte]
    else if v < 0x1_0000 then
      [(0xE0 + v / 4096) as byte, (0x80 + (v / 64) % 64) as byte, (0x80 + v % 64) as byte]
    else
      [(0xF0 + v / 262144) as byte, (0x80 + (v / 4096) % 64) as byte,
       (0x80 + (v / 64) % 64) as byte, (0x80 + v % 64) as byte]
  }

  /** Decoding reads back exactly the sequence encoding wrote, whatever
      follows it, and recovers the scalar value. */
  lemma EncodeScalarReadsBack(v: int, rest: seq<byte>)
    requires IsScalar(v)
    ensures SeqLength(EncodeScalar(v) + rest) == |EncodeScalar(v)|
    ensures ScalarValue(EncodeScalar(v) + rest) == v
  {
    var e := EncodeScalar(v);
    assert (e + rest)[..|e|] == e;
    if v < 0x80 {
    } else if v < 0x800 {
      ReadsBackTwo(v, e + rest);
    } else if v < 0x1_0000 {
      ReadsBackThree(v, e + rest);
    } else {
      ReadsBackFour(v, e + rest);
    }
  }

  lemma ReadsBackTwo(v: int, bs: seq<byte>)
    requires 0x80 <= v < 0x800 && |bs| >= 2
    requires bs[0] as int == 0xC0 + v / 64 && bs[1] as int == 0x80 + v % 64
    ensures SeqLength(bs) == 2 && ScalarValue(bs) == v
  {
    assert v == (v / 64) * 64 + v % 64;
  }

  lemma ReadsBackThree(v: int, bs: seq<byte>)
    requires IsScalar(v) && 0x800 <= v < 0x1_0000 && |bs| >= 3
    requires bs[0] as int == 0xE0 + v / 4096 && bs[1] as int == 0x80 + (v / 64) % 64
    requires bs[2] as int == 0x80 + v % 64
    ensures SeqLength(bs) == 3 && ScalarValue(bs) == v
  {
    assert v == (v / 4096) * 4096 + ((v / 64) % 64) * 64 + v % 64;
  }

  lemma ReadsBackFour(v: int, bs: seq<byte>)
    requires 0x1_0000 <= v < 0x11_0000 && |bs| >= 4
    requires bs[0] as int == 0xF0 + v / 262144 && bs[1] as int == 0x80 + (v / 4096) % 64
    requires bs[2] as int == 0x80 + (v / 64) % 64 && bs[3] as int == 0x80 + v % 64
    ensures SeqLength(bs) == 4 && ScalarValue(bs) == v
  {
    assert v == (v / 262144) * 262144 + ((v / 4096) % 64) * 4096 + ((v / 64) % 64) * 64 + v % 64;
  }

  /** The encoding of a text: each character's sequence in turn. */
  function Encode(s: string): (r: seq<byte>)
    ensures |s| <= |r| <= 4 * |s|
  {
    if s == [] then [] else EncodeScalar(s[0] as int) + Encode(s[1..])
  }

  /** Decoding inverts encoding. */
  lemma {:induction false} DecodeEncode(s: string)
    ensures Decode(Encode(s)) == Some(s)
  {
    if s != [] {
      var e := EncodeScalar(s[0] as int);
      var bs := Encode(s);
      assert bs == e + Encode(s[1..]);
      EncodeScalarReadsBack(s[0] as int, Encode(s[1..]));
      assert bs[|e|..] == Encode(s[1..]);
      DecodeEncode(s[1..]);
      assert s == [s[0]] + s[1..];
    }
  }
}
