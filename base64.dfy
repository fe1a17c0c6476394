/** Base64 as defined in section 4 of RFC 4648: 64 characters, each
    carrying six bits, four characters for three bytes, and `=` padding
    for a final group of one or two bytes. */
module Base64 {
  import opened Outcomes
  import opened Strings
  import opened Ast

  /** The 64-character alphabet of table 1 of RFC 4648. */
  predicate IsBase64Char(c: char)
  {
    IsAlnum(c) || c == '+' || c == '/'
  }

  /** The six-bit value a character stands for. */
  function CharValue(c: char): (v: nat)
    requires IsBase64Char(c)
    ensures v < 64
  {
    if IsUpper(c) then c as int - 'A' as int
    else if IsLower(c) then c as int - 'a' as int + 26
    else if IsDigit(c) then c as int - '0' as int + 52
    else if c == '+' then 62
    else 63
  }

  /** The character standing for a six-bit value: the inverse of
      `CharValue`. */
  function ValueChar(v: nat): (c: char)
    requires v < 64
    ensures IsBase64Char(c) && CharValue(c) == v
  {
    if v < 26 then ('A' as int + v) as char
    else if v < 52 then ('a' as int + v - 26) as char
    else if v < 62 then ('0' as int + v - 52) as char
    else if v == 62 then '+'
    else '/'
  }

  /** The three bytes carried by four six-bit values. */
  function Bytes3(a: nat, b: nat, c: nat, d: nat): seq<byte>
    requires a < 64 && b < 64 && c < 64 && d < 64
  {
    [(a * 4 + b / 16) as byte, ((b % 16) * 16 + c / 4) as byte, ((c % 4) * 64 + d) as byte]
  }

  predicate AllBase64(s: string)
  {
    forall i | 0 <= i < |s| :: IsBase64Char(s[i])
  }

  /** The three bytes of a group of four alphabet characters. */
  function Group(q: string): seq<byte>
    requires |q| == 4 && AllBase64(q)
  {
    Bytes3(CharValue(q[0]), CharValue(q[1]), CharValue(q[2]), CharValue(q[3]))
  }

  /** The last group: four characters, or three and `=`, or two and `==`.
      Bits of the last character beyond the final byte are ignored. */
  function DecodeLast(q: string): Option<seq<byte>>
    requires |q| == 4
  {
    if AllBase64(q) then Some(Group(q))
    else if AllBase64(q[..3]) && q[3] == '=' then
      Some(Bytes3(CharValue(q[0]), CharValue(q[1]), CharValue(q[2]), 0)[..2])
    else if AllBase64(q[..2]) && q[2..] == "==" then
      Some(Bytes3(CharValue(q[0]), CharValue(q[1]), 0, 0)[..1])
    else None
  }

  /** Strict decoding: a whole number of four-character groups, padding
      only in the last one, nothing outside the alphabet. */
  function Decode(s: string): (r: Option<seq<byte>>)
    ensures r.Some? ==> |s| % 4 == 0
    ensures r.Some? && s != [] ==> |r.value| > 0
    decreases |s|
  {
    if |s| % 4 != 0 then None
    else if s == [] then Some([])
    else if |s| == 4 then DecodeLast(s)
    else if AllBase64(s[..4]) then
      match Decode(s[4..])
      case None => None
      case Some(rest) => Some(Group(s[..4]) + rest)
    else None
  }

  /** The four characters for three bytes. */
  function Chars3(x: byte, y: byte, z: byte): (r: string)
    ensures |r| == 4 && AllBase64(r)
  {
    var b0, b1, b2 := x as nat, y as nat, z as nat;
    [ValueChar(b0 / 4), ValueChar((b0 % 4) * 16 + b1 / 16), ValueChar((b1 % 16) * 4 + b2 / 64), ValueChar(b2 % 64)]
  }

  /** Encoding, as section 4 of RFC 4648 describes it. */
  function Encode(bs: seq<byte>): (r: string)
    ensures |r| % 4 == 0
    ensures forall i | 0 <= i < |r| :: IsBase64Char(r[i]) || r[i] == '='
    decreases |bs|
  {
    if |bs| == 0 then ""
    else if |bs| == 1 then Chars3(bs[0], 0, 0)[..2] + "=="
    else if |bs| == 2 then Chars3(bs[0], bs[1], 0)[..3] + "="
    else Chars3(bs[0], bs[1], bs[2]) + Encode(bs[3..])
  }

  /** Decoding the four characters of three bytes gives the bytes back. */
  lemma Bytes3OfChars3(x: byte, y: byte, z: byte)
    ensures var q := Chars3(x, y, z);
            Bytes3(CharValue(q[0]), CharValue(q[1]), CharValue(q[2]), CharValue(q[3])) == [x, y, z]
  {
    var b0, b1, b2 := x as nat, y as nat, z as nat;
    assert (b0 / 4) * 4 + ((b0 % 4) * 16 + b1 / 16) / 16 == b0;
    assert (((b0 % 4) * 16 + b1 / 16) % 16) * 16 + ((b1 % 16) * 4 + b2 / 64) / 4 == b1;
    assert (((b1 % 16) * 4 + b2 / 64) % 4) * 64 + b2 % 64 == b2;
  }

  lemma DecodeLastOnePad(q: string)
    requires |q| == 4 && AllBase64(q[..3]) && q[3] == '='
    ensures DecodeLast(q) == Some(Bytes3(CharValue(q[0]), CharValue(q[1]), CharValue(q[2]), 0)[..2])
  {
    assert !IsBase64Char(q[3]);
  }

  lemma DecodeLastTwoPads(q: string)
    requires |q| == 4 && AllBase64(q[..2]) && q[2] == '=' && q[3] == '='
    ensures DecodeLast(q) == Some(Bytes3(CharValue(q[0]), CharValue(q[1]), 0, 0)[..1])
  {
    assert !IsBase64Char(q[3]);
    assert !IsBase64Char(q[..3][2]);
    assert q[2..] == "==";
  }

  /** A full group in front of a decodable rest decodes to its three
      bytes followed by the rest's bytes. */
  lemma {:induction false} DecodeFullGroup(c: string, t: string)
    requires |c| == 4 && AllBase64(c) && Decode(t).Some?
    ensures Decode(c + t) == Some(Group(c) + Decode(t).value)
  {
    var s := c + t;
    assert s[..4] == c;
    if t == [] {
      assert s == c;
      assert Group(c) + [] == Group(c);
    } else {
      assert s[4..] == t;
      DecodeUnfold(s);
    }
  }

  lemma {:induction false} DecodeUnfold(s: string)
    requires |s| > 4 && |s| % 4 == 0 && AllBase64(s[..4]) && Decode(s[4..]).Some?
    ensures Decode(s) == Some(Group(s[..4]) + Decode(s[4..]).value)
  {
  }

  lemma DecodeEncodeOne(x: byte)
    ensures Decode(Encode([x])) == Some([x])
  {
    var c := Chars3(x, 0, 0);
    var q := c[..2] + "==";
    assert Encode([x]) == q;
    assert q[0] == c[0] && q[1] == c[1] && q[2] == '=' && q[3] == '=';
    assert AllBase64(q[..2]) by {
      forall i | 0 <= i < 2 ensures IsBase64Char(q[..2][i]) {
        assert q[..2][i] == c[i];
      }
    }
    DecodeLastTwoPads(q);
    assert Decode(q) == DecodeLast(q);
    Bytes3OfChars3(x, 0, 0);
    var b := Bytes3(CharValue(c[0]), CharValue(c[1]), 0, 0);
    assert b[0] == x;
    assert b[..1] == [x];
    assert Decode(q) == Some([x]);
  }

  lemma DecodeEncodeTwo(x: byte, y: byte)
    ensures Decode(Encode([x, y])) == Some([x, y])
  {
    var c := Chars3(x, y, 0);
    var q := c[..3] + "=";
    assert Encode([x, y]) == q;
    assert q[0] == c[0] && q[1] == c[1] && q[2] == c[2] && q[3] == '=';
    assert AllBase64(q[..3]) by {
      forall i | 0 <= i < 3 ensures IsBase64Char(q[..3][i]) {
        assert q[..3][i] == c[i];
      }
    }
    DecodeLastOnePad(q);
    assert Decode(q) == DecodeLast(q);
    Bytes3OfChars3(x, y, 0);
    var b := Bytes3(CharValue(c[0]), CharValue(c[1]), CharValue(c[2]), 0);
    assert b[0] == x && b[1] == y;
    assert b[..2] == [x, y];
    assert Decode(q) == Some([x, y]);
  }

  /** Decoding inverts encoding. */
  lemma {:induction false} DecodeEncode(bs: seq<byte>)
    ensures Decode(Encode(bs)) == Some(bs)
    decreases |bs|
  {
    if |bs| == 1 {
      assert bs == [bs[0]];
      DecodeEncodeOne(bs[0]);
    } else if |bs| == 2 {
      assert bs == [bs[0], bs[1]];
      DecodeEncodeTwo(bs[0], bs[1]);
    } else if |bs| >= 3 {
      var c := Chars3(bs[0], bs[1], bs[2]);
      assert Encode(bs) == c + Encode(bs[3..]);
      DecodeEncode(bs[3..]);
      DecodeFullGroup(c, Encode(bs[3..]));
      Bytes3OfChars3(bs[0], bs[1], bs[2]);
      assert Group(c) == [bs[0], bs[1], bs[2]];
      assert bs == [bs[0], bs[1], bs[2]] + bs[3..];
    }
  }

  /** `"AA=="` is one zero byte. */
  lemma DecodePaddedZero()
    ensures Decode("AA==") == Some([0])
  {
    assert Encode([0]) == "AA==";
    DecodeEncode([0]);
  }
}
