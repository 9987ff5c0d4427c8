/** The groups of base64/base64.c in numbers: the digits of the bytes and the bytes of the digits. */
module Base64Groups {
  import opened Bytes
  import opened Base64Spec
  import opened Base64Theorems
  import opened Base64Alphabet

  // ---------- encoding ----------

  lemma FirstDigit(b: Byte)
    ensures (b >> 2) & 0x3F < 64 && ((b >> 2) & 0x3F) as nat == b as nat / 4
  {
  }

  lemma LowShift(b: Byte)
    ensures ((b << 4) & 0x3F) as nat == b as nat % 4 * 16 && (b << 4) & 0x3F <= 0x30
  {
  }

  lemma MiddleShift(b: Byte)
    ensures ((b << 2) & 0x3F) as nat == b as nat % 16 * 4 && (b << 2) & 0x3F <= 0x3C
  {
  }

  lemma HighShift(b: Byte)
    ensures (b >> 4) as nat == b as nat / 16 && b >> 4 < 16
    ensures (b >> 6) as nat == b as nat / 64 && b >> 6 < 4
  {
  }

  lemma SumBits(b: Byte, c: Byte)
    ensures ((b << 4) + (c >> 4)) & 0x3F == ((b << 4) & 0x3F) + (c >> 4)
    ensures ((b << 2) + (c >> 6)) & 0x3F == ((b << 2) & 0x3F) + (c >> 6)
  {
  }

  lemma SumCode(x: Byte, y: Byte)
    requires (x <= 0x30 && y < 16) || (x <= 0x3C && y < 4)
    ensures (x + y) as nat == x as nat + y as nat
  {
  }

  lemma SecondDigit(b: Byte, c: Byte)
    ensures var d := ((b << 4) + (c >> 4)) & 0x3F; d < 64 && d as nat == b as nat % 4 * 16 + c as nat / 16
  {
    SumBits(b, c);
    LowShift(b);
    HighShift(c);
    SumCode((b << 4) & 0x3F, c >> 4);
  }

  lemma ThirdDigit(b: Byte, c: Byte)
    ensures var d := ((b << 2) + (c >> 6)) & 0x3F; d < 64 && d as nat == b as nat % 16 * 4 + c as nat / 64
  {
    SumBits(b, c);
    MiddleShift(b);
    HighShift(c);
    SumCode((b << 2) & 0x3F, c >> 6);
  }

  lemma FourthDigit(b: Byte)
    ensures b & 0x3F < 64 && (b & 0x3F) as nat == b as nat % 64
  {
  }

  lemma Parts(b: nat, d: nat)
    requires d > 0
    ensures b == b / d * d + b % d && b % d < d
  {
  }

  /** The digits of three bytes as one number. */
  lemma NumberDigits(p0: nat, r0: nat, p1: nat, r1: nat, p2: nat, r2: nat)
    requires p0 < 64 && r0 < 4 && p1 < 16 && r1 < 16 && p2 < 4 && r2 < 64
    ensures var w := (p0 * 4 + r0) * 65536 + (p1 * 16 + r1) * 256 + (p2 * 64 + r2);
            w / 262144 == p0 && w / 4096 % 64 == r0 * 16 + p1 && w / 64 % 64 == r1 * 4 + p2 && w % 64 == r2
  {
    var w := (p0 * 4 + r0) * 65536 + (p1 * 16 + r1) * 256 + (p2 * 64 + r2);
    FourDigits(w, p0, r0 * 16 + p1, r1 * 4 + p2, r2);
  }

  lemma FourDigits(w: nat, d0: nat, d1: nat, d2: nat, d3: nat)
    requires d1 < 64 && d2 < 64 && d3 < 64 && w == d0 * 262144 + d1 * 4096 + d2 * 64 + d3
    ensures w / 262144 == d0 && w / 4096 % 64 == d1 && w / 64 % 64 == d2 && w % 64 == d3
  {
    assert w == (d0 * 64 + d1) * 4096 + (d2 * 64 + d3);
    assert w == ((d0 * 64 + d1) * 64 + d2) * 64 + d3;
  }

  /** Three bytes taken as one number. */
  function Number(b0: nat, b1: nat, b2: nat): nat { b0 * 65536 + b1 * 256 + b2 }

  /** Its digits to the base 64, first one first. */
  function Digit(w: nat, k: nat): nat
  {
    if k == 0 then w / 262144 else if k == 1 then w / 4096 % 64 else if k == 2 then w / 64 % 64 else w % 64
  }

  function Second(b0: nat, b1: nat): nat { b0 % 4 * 16 + b1 / 16 }
  function Third(b1: nat, b2: nat): nat { b1 % 16 * 4 + b2 / 64 }

  lemma DigitsOf(b0: nat, b1: nat, b2: nat)
    requires b0 < 256 && b1 < 256 && b2 < 256
    ensures var w := Number(b0, b1, b2);
            Digit(w, 0) == b0 / 4 && Digit(w, 1) == Second(b0, b1) && Digit(w, 2) == Third(b1, b2) && Digit(w, 3) == b2 % 64
  {
    Parts(b0, 4);
    Parts(b1, 16);
    Parts(b2, 64);
    NumberDigits(b0 / 4, b0 % 4, b1 / 16, b1 % 16, b2 / 64, b2 % 64);
  }

  lemma ByteCode(b: Byte)
    ensures b as nat < 256
  {
  }

  lemma SecondIs(b0: Byte, b1: Byte)
    ensures var d := ((b0 << 4) + (b1 >> 4)) & 0x3F; d < 64 && d as nat == Second(b0 as nat, b1 as nat)
  {
    SecondDigit(b0, b1);
  }

  lemma ThirdIs(b1: Byte, b2: Byte)
    ensures var d := ((b1 << 2) + (b2 >> 6)) & 0x3F; d < 64 && d as nat == Third(b1 as nat, b2 as nat)
  {
    ThirdDigit(b1, b2);
  }

  lemma FirstStands(b0: Byte)
    ensures Stands(Char0(b0), b0 as nat / 4)
  {
    hide Stands, Letter;
    FirstDigit(b0);
    LetterStands((b0 >> 2) & 0x3F);
  }

  lemma SecondStands(b0: Byte, b1: Byte)
    ensures Stands(Char1(b0, b1), Second(b0 as nat, b1 as nat))
  {
    hide Stands, Letter, Second;
    SecondIs(b0, b1);
    LetterStands(((b0 << 4) + (b1 >> 4)) & 0x3F);
  }

  lemma ThirdStands(b1: Byte, b2: Byte)
    ensures Stands(Char2(b1, b2), Third(b1 as nat, b2 as nat))
  {
    hide Stands, Letter, Third;
    ThirdIs(b1, b2);
    LetterStands(((b1 << 2) + (b2 >> 6)) & 0x3F);
  }

  lemma FourthStands(b2: Byte)
    ensures Stands(Char3(b2), b2 as nat % 64)
  {
    hide Stands, Letter;
    FourthDigit(b2);
    LetterStands(b2 & 0x3F);
  }

  function NumberOf(b0: Byte, b1: Byte, b2: Byte): nat { Number(b0 as nat, b1 as nat, b2 as nat) }

  lemma CharsAreDigits(b0: Byte, b1: Byte, b2: Byte)
    ensures var w := NumberOf(b0, b1, b2);
            && Stands(Char0(b0), Digit(w, 0)) && Stands(Char1(b0, b1), Digit(w, 1))
            && Stands(Char2(b1, b2), Digit(w, 2)) && Stands(Char3(b2), Digit(w, 3))
  {
    hide Stands, Char0, Char1, Char2, Char3, Digit, Number, Second, Third;
    FirstStands(b0);
    SecondStands(b0, b1);
    ThirdStands(b1, b2);
    FourthStands(b2);
    ByteCode(b0); ByteCode(b1); ByteCode(b2);
    DigitsOf(b0 as nat, b1 as nat, b2 as nat);
  }

  /** The group `s` of four characters encodes `n` bytes of which `w` is the number: its digits, one more than there
      are bytes, and equals signs up to four. */
  predicate Encodes(s: seq<Byte>, n: nat, w: nat)
  {
    && |s| == 4 && Stands(s[0], Digit(w, 0)) && Stands(s[1], Digit(w, 1))
    && (if n > 1 then Stands(s[2], Digit(w, 2)) else s[2] == 61)
    && (if n > 2 then Stands(s[3], Digit(w, 3)) else s[3] == 61)
  }

  lemma QuadEncodes(b: seq<Byte>, p: nat)
    requires p < |b|
    ensures var n := |b| - p;
            Encodes(Quad(b, p), n, NumberOf(b[p], if n > 1 then b[p + 1] else 0, if n > 2 then b[p + 2] else 0))
  {
    hide Stands, Digit, NumberOf, Char0, Char1, Char2, Char3;
    var n := |b| - p;
    CharsAreDigits(b[p], if n > 1 then b[p + 1] else 0, if n > 2 then b[p + 2] else 0);
  }

  /** Every group of an encoding, the last one being the one with padding. */
  lemma EncodedGroup(b: seq<Byte>, g: nat)
    requires 3 * g < |b|
    ensures var n := |b| - 3 * g;
            && 4 * g + 4 <= |Encode(b)| && (4 * g + 4 == |Encode(b)| <==> n <= 3)
            && Encodes(Encode(b)[4 * g..4 * g + 4], n,
                       NumberOf(b[3 * g], if n > 1 then b[3 * g + 1] else 0, if n > 2 then b[3 * g + 2] else 0))
  {
    hide Quad, Encodes, NumberOf;
    EncodeQuadAt(b, g);
    QuadEncodes(b, 3 * g);
    assert Encode(b)[4 * g..4 * g + 4] == Quad(b, 3 * g);
  }

  // ---------- decoding ----------

  lemma JoinBits(x: Byte, y: Byte)
    requires (x & 0x03 == 0 && y < 4) || (x & 0x0F == 0 && y < 16) || (x & 0x3F == 0 && y < 64)
    ensures (x | y) as nat == x as nat + y as nat
  {
  }

  lemma ShiftedDigit(d: Byte)
    requires d < 64
    ensures (d << 2) & 0x03 == 0 && (d << 2) as nat == d as nat * 4
    ensures ((d << 4) & 0xF0) & 0x0F == 0 && ((d << 4) & 0xF0) as nat == d as nat % 16 * 16
    ensures ((d << 6) & 0xC0) & 0x3F == 0 && ((d << 6) & 0xC0) as nat == d as nat % 4 * 64
    ensures d >> 4 < 4 && (d >> 4) as nat == d as nat / 16 && d >> 2 < 16 && (d >> 2) as nat == d as nat / 4
  {
  }

  /** Four digits to the base 64 as one number. */
  function Joined(d0: nat, d1: nat, d2: nat, d3: nat): nat { d0 * 262144 + d1 * 4096 + d2 * 64 + d3 }

  lemma NumberBytes(b0: nat, b1: nat, b2: nat)
    requires b1 < 256 && b2 < 256
    ensures var w := b0 * 65536 + b1 * 256 + b2; w / 65536 == b0 && w / 256 % 256 == b1 && w % 256 == b2
  {
    var w := b0 * 65536 + b1 * 256 + b2;
    assert w == (b0 * 256 + b1) * 256 + b2;
  }

  lemma DigitBytes(d0: nat, d1: nat, d2: nat, d3: nat)
    requires d0 < 64 && d1 < 64 && d2 < 64 && d3 < 64
    ensures var w := Joined(d0, d1, d2, d3);
            && w / 65536 == d0 * 4 + d1 / 16 && w / 256 % 256 == d1 % 16 * 16 + d2 / 4 && w % 256 == d2 % 4 * 64 + d3
  {
    Parts(d1, 16);
    Parts(d2, 4);
    JoinedIs(d0, d1 / 16, d1 % 16, d2 / 4, d2 % 4, d3);
    hide Joined;
    NumberBytes(d0 * 4 + d1 / 16, d1 % 16 * 16 + d2 / 4, d2 % 4 * 64 + d3);
  }

  lemma JoinedIs(d0: nat, p1: nat, r1: nat, p2: nat, r2: nat, d3: nat)
    ensures Joined(d0, p1 * 16 + r1, p2 * 4 + r2, d3)
            == (d0 * 4 + p1) * 65536 + (r1 * 16 + p2) * 256 + (r2 * 64 + d3)
  {
  }

  /** The digit of a character, 0 for one that has none. */
  function Value(c: Byte): (v: nat)
    ensures v < 64
  {
    SextetCode(c);
    if IsBase64(c) then Sextet(c) as nat else 0
  }

  /** Byte number `k` of the three that four digits make. */
  function Octet(w: nat, k: nat): nat
  {
    if k == 0 then w / 65536 else if k == 1 then w / 256 % 256 else w % 256
  }

  lemma FirstBits(s0: Byte, s1: Byte)
    requires s0 < 64 && s1 < 64
    ensures ((s0 << 2) | (s1 >> 4)) as nat == s0 as nat * 4 + s1 as nat / 16
  {
    ShiftedDigit(s0);
    ShiftedDigit(s1);
    JoinBits(s0 << 2, s1 >> 4);
  }

  lemma SecondBits(s1: Byte, s2: Byte)
    requires s1 < 64 && s2 < 64
    ensures (((s1 << 4) & 0xF0) | (s2 >> 2)) as nat == s1 as nat % 16 * 16 + s2 as nat / 4
  {
    ShiftedDigit(s1);
    ShiftedDigit(s2);
    JoinBits((s1 << 4) & 0xF0, s2 >> 2);
  }

  lemma ValueIs(c: Byte)
    requires IsBase64(c)
    ensures Sextet(c) < 64 && Value(c) == Sextet(c) as nat
  {
    LetterOfSextet(c);
  }

  lemma FirstByte(c0: Byte, c1: Byte)
    requires IsBase64(c0) && IsBase64(c1)
    ensures Byte0(c0, c1) as nat == Value(c0) * 4 + Value(c1) / 16
  {
    hide IsBase64, Sextet, Value;
    ValueIs(c0);
    ValueIs(c1);
    FirstBits(Sextet(c0), Sextet(c1));
  }

  lemma SecondByte(c1: Byte, c2: Byte)
    requires IsBase64(c1) && IsBase64(c2)
    ensures Byte1(c1, c2) as nat == Value(c1) % 16 * 16 + Value(c2) / 4
  {
    hide IsBase64, Sextet, Value;
    ValueIs(c1);
    ValueIs(c2);
    SecondBits(Sextet(c1), Sextet(c2));
  }

  lemma ThirdBits(s2: Byte, s3: Byte)
    requires s2 < 64 && s3 < 64
    ensures (((s2 << 6) & 0xC0) | s3) as nat == s2 as nat % 4 * 64 + s3 as nat
  {
    ShiftedDigit(s2);
    JoinBits((s2 << 6) & 0xC0, s3);
  }

  lemma ThirdByte(c2: Byte, c3: Byte)
    requires IsBase64(c2) && IsBase64(c3)
    ensures Byte2(c2, c3) as nat == Value(c2) % 4 * 64 + Value(c3)
  {
    hide IsBase64, Sextet, Value;
    ValueIs(c2);
    ValueIs(c3);
    ThirdBits(Sextet(c2), Sextet(c3));
  }

  lemma DecodedBytes(c0: Byte, c1: Byte, c2: Byte, c3: Byte)
    requires IsBase64(c0) && IsBase64(c1)
    ensures var w := Joined(Value(c0), Value(c1), Value(c2), Value(c3));
            && Byte0(c0, c1) as nat == Octet(w, 0)
            && (IsBase64(c2) ==> Byte1(c1, c2) as nat == Octet(w, 1))
            && (IsBase64(c2) && IsBase64(c3) ==> Byte2(c2, c3) as nat == Octet(w, 2))
  {
    hide Joined, Byte0, Byte1, Byte2, Value, IsBase64;
    FirstByte(c0, c1);
    if IsBase64(c2) {
      SecondByte(c1, c2);
      if IsBase64(c3) {
        ThirdByte(c2, c3);
      }
    }
    DigitBytes(Value(c0), Value(c1), Value(c2), Value(c3));
  }

  /** How many bytes of a block are known before it ends or is refused. */
  function KnownBytes(s: seq<Byte>): nat
  {
    if |s| < 2 || !IsBase64(s[0]) || !IsBase64(s[1]) then 0
    else if |s| == 2 || !IsBase64(s[2]) then 1
    else if |s| == 3 || !IsBase64(s[3]) then 2
    else 3
  }

  /** A block is accepted when it has four characters of the alphabet, or ends the text with one or two equals signs
      in their place. It gives the bytes of the number its digits make, as many as are known, also when refused. */
  lemma BlockMeaning(s: seq<Byte>)
    ensures var p, n := DecodeBlock(s), KnownBytes(s);
            && |p.bytes| == n
            && (p.ok <==> n == 3 || (|s| == 4 && n == 2 && s[3] == 61) || (|s| == 4 && n == 1 && s[2] == 61 && s[3] == 61))
    ensures var p, n := DecodeBlock(s), KnownBytes(s);
            n > 0 ==>
              var w := Joined(Value(s[0]), Value(s[1]), if |s| > 2 then Value(s[2]) else 0, if |s| > 3 then Value(s[3]) else 0);
              forall k :: 0 <= k < n ==> p.bytes[k] as nat == Octet(w, k)
  {
    hide Byte0, Byte1, Byte2, Value, Octet, Joined;
    SextetCode(61);
    hide Sextet;
    if KnownBytes(s) > 0 {
      if |s| == 2 {
        DecodedBytes(s[0], s[1], 61, 61);
      } else if |s| == 3 {
        DecodedBytes(s[0], s[1], s[2], 61);
      } else {
        DecodedBytes(s[0], s[1], s[2], s[3]);
      }
      ValueOfPad();
    }
  }

  lemma ValueOfPad()
    ensures Value(61) == 0 && !IsBase64(61)
  {
  }
}
