// Base64: a reference definition of the codec in core/src/Base64/Base64.cpp, and its laws.
//
// `Encode` and `Decode` follow section 4 of RFC 4648: three bytes form one 24-bit group, and a
// group is written as four characters.  The table-driven loops are in module Base64Codec.
module Base64 {
  type Byte = bv8
  type Bytes = seq<Byte>

  // How a call ends.  `Undefined` stands for a call whose behaviour C++ leaves undefined, here
  // always an access outside a buffer.
  datatype Outcome<+T> = Returned(value: T) | Thrown | Undefined

  const PAD: Byte := 0x3D

  // Plain `char` is signed, and the decoder indexes its table with it: only these bytes are
  // valid indices.
  predicate Ascii(s: Bytes) {
    forall i | 0 <= i < |s| :: s[i] < 0x80
  }

  lemma Associative(a: Bytes, b: Bytes, c: Bytes)
    ensures a + b + c == a + (b + c)
  {
  }

  // ---------------------------------------------------------------------------------------
  // Reference definition
  // ---------------------------------------------------------------------------------------

  // Table 1 of RFC 4648, as a rule: A-Z, a-z, 0-9, '+', '/'.
  function SextetChar(k: Byte): Byte
    requires k < 64
  {
    if k < 26 then k + 65 else if k < 52 then k + 71 else if k < 62 then k - 4 else if k == 62 then 43 else 47
  }

  // The sextet a character stands for; 64 for a character outside the alphabet.
  function CharSextet(c: Byte): Byte {
    if 65 <= c <= 90 then c - 65
    else if 97 <= c <= 122 then c - 71
    else if 48 <= c <= 57 then c + 4
    else if c == 43 then 62
    else if c == 47 then 63
    else 64
  }

  predicate InAlphabet(c: Byte) {
    CharSextet(c) != 64
  }

  function Group(a: Byte, b: Byte, c: Byte): bv32 {
    (a as bv32 << 16) | (b as bv32 << 8) | c as bv32
  }

  // Sextet `i` of a 24-bit group, the first being the most significant.
  function Sextet(g: bv32, i: nat): bv32
    requires i < 4
  {
    if i == 0 then (g >> 18) & 0x3F else if i == 1 then (g >> 12) & 0x3F else if i == 2 then (g >> 6) & 0x3F
    else g & 0x3F
  }

  function CharAt(g: bv32, i: nat): Byte
    requires i < 4
  {
    SextetChar(Sextet(g, i) as Byte)
  }

  function GroupChars(g: bv32): (r: Bytes)
    ensures |r| == 4
  {
    [CharAt(g, 0), CharAt(g, 1), CharAt(g, 2), CharAt(g, 3)]
  }

  // One to three bytes as four characters; bytes that are missing leave padding.
  function EncodeGroup(x: Bytes): (r: Bytes)
    requires 1 <= |x| <= 3
    ensures |r| == 4
  {
    if |x| == 1 then GroupChars(Group(x[0], 0, 0))[..2] + [PAD, PAD]
    else if |x| == 2 then GroupChars(Group(x[0], x[1], 0))[..3] + [PAD]
    else GroupChars(Group(x[0], x[1], x[2]))
  }

  function Encode(x: Bytes): (r: Bytes)
    ensures |r| == 4 * ((|x| + 2) / 3)
  {
    hide EncodeGroup;
    if |x| == 0 then [] else if |x| <= 3 then EncodeGroup(x) else EncodeGroup(x[..3]) + Encode(x[3..])
  }

  // What one character adds to a group: padding adds nothing, and a character outside the
  // alphabet adds 64, which carries into the sextet before it.
  function Value(c: Byte): bv32 {
    if c == PAD then 0 else CharSextet(c) as bv32
  }

  function Sum(a: bv32, b: bv32, c: bv32, d: bv32): bv32 {
    (a << 18) + (b << 12) + (c << 6) + d
  }

  function QuadSum(a: Byte, b: Byte, c: Byte, d: Byte): bv32 {
    Sum(Value(a), Value(b), Value(c), Value(d))
  }

  function GroupBytes(g: bv32): (r: Bytes)
    ensures |r| == 3
  {
    [((g >> 16) & 0xFF) as Byte, ((g >> 8) & 0xFF) as Byte, (g & 0xFF) as Byte]
  }

  // How many of the last two characters are padding.
  function Pads(s: Bytes): (n: nat)
    requires |s| >= 2
    ensures n <= 2
  {
    (if s[|s| - 1] == PAD then 1 else 0) + (if s[|s| - 2] == PAD then 1 else 0)
  }

  function QuadBytes(q: Bytes): (r: Bytes)
    requires |q| == 4
    ensures |r| == 3
  {
    GroupBytes(QuadSum(q[0], q[1], q[2], q[3]))
  }

  // Only the last two characters of the whole text are looked at for padding.
  function Decode(s: Bytes): (r: Bytes)
    requires |s| % 4 == 0
    ensures |r| == if s == [] then 0 else |s| / 4 * 3 - Pads(s)
  {
    hide QuadBytes;
    if s == [] then []
    else if |s| == 4 then QuadBytes(s)[..3 - Pads(s)]
    else QuadBytes(s[..4]) + Decode(s[4..])
  }

  predicate FullQuad(q: Bytes)
    requires |q| == 4
  {
    InAlphabet(q[0]) && InAlphabet(q[1]) && InAlphabet(q[2]) && InAlphabet(q[3])
  }

  predicate PaddedQuad(q: Bytes)
    requires |q| == 4
  {
    && InAlphabet(q[0]) && InAlphabet(q[1]) && q[3] == PAD
    && if q[2] == PAD then CharSextet(q[1]) & 0xF == 0 else InAlphabet(q[2]) && CharSextet(q[2]) & 0x3 == 0
  }

  // Canonical encodings, section 3.5 of RFC 4648: alphabet characters, padding only where the
  // last group is short, and the bits that padding leaves unused are zero.
  predicate Canonical(s: Bytes)
    requires |s| % 4 == 0
  {
    s == []
    || (|s| == 4 && (FullQuad(s) || PaddedQuad(s)))
    || (|s| > 4 && FullQuad(s[..4]) && Canonical(s[4..]))
  }

  // ---------------------------------------------------------------------------------------
  // One group
  // ---------------------------------------------------------------------------------------

  lemma SextetCharValue(k: bv32)
    requires k < 64
    ensures var c := SextetChar(k as Byte); InAlphabet(c) && Value(c) == k && c != PAD
  {
  }

  lemma CharAtValue(g: bv32, i: nat)
    requires i < 4
    ensures InAlphabet(CharAt(g, i)) && Value(CharAt(g, i)) == Sextet(g, i) && CharAt(g, i) != PAD
  {
    SextetCharValue(Sextet(g, i));
  }

  lemma ValueCharAt(g: bv32, i: nat, c: Byte)
    requires i < 4 && InAlphabet(c) && Sextet(g, i) == Value(c)
    ensures CharAt(g, i) == c
  {
  }

  lemma AlphabetValue(c: Byte)
    requires InAlphabet(c)
    ensures Value(c) < 64 && c != PAD
  {
  }

  // Four sextets added at their places in a group are read back from it unchanged.
  lemma SumSextets(a: bv32, b: bv32, c: bv32, d: bv32)
    requires a < 64 && b < 64 && c < 64 && d < 64
    ensures var g := Sum(a, b, c, d);
            g < 0x100_0000 && Sextet(g, 0) == a && Sextet(g, 1) == b && Sextet(g, 2) == c && Sextet(g, 3) == d
  {
  }

  lemma SextetsDetermine(g: bv32, h: bv32)
    requires g < 0x100_0000 && h < 0x100_0000
    requires forall i | 0 <= i < 4 :: Sextet(g, i) == Sextet(h, i)
    ensures g == h
  {
    assert Sextet(g, 0) == Sextet(h, 0) && Sextet(g, 1) == Sextet(h, 1);
    assert Sextet(g, 2) == Sextet(h, 2) && Sextet(g, 3) == Sextet(h, 3);
  }

  lemma SextetsSum(g: bv32)
    requires g < 0x100_0000
    ensures Sum(Sextet(g, 0), Sextet(g, 1), Sextet(g, 2), Sextet(g, 3)) == g
  {
    SumSextets(Sextet(g, 0), Sextet(g, 1), Sextet(g, 2), Sextet(g, 3));
    SextetsDetermine(Sum(Sextet(g, 0), Sextet(g, 1), Sextet(g, 2), Sextet(g, 3)), g);
  }

  // The characters of a 24-bit group sum back to the group, also when padding stands for a
  // sextet that is zero.
  lemma GroupCharsSum(g: bv32)
    requires g < 0x100_0000
    ensures var q := GroupChars(g);
            && QuadSum(q[0], q[1], q[2], q[3]) == g
            && (Sextet(g, 3) == 0 ==> QuadSum(q[0], q[1], q[2], PAD) == g)
            && (Sextet(g, 3) == Sextet(g, 2) == 0 ==> QuadSum(q[0], q[1], PAD, PAD) == g)
  {
    CharAtValue(g, 0);
    CharAtValue(g, 1);
    CharAtValue(g, 2);
    CharAtValue(g, 3);
    SextetsSum(g);
  }

  // Four alphabet characters form a group whose characters they are.
  lemma QuadRoundTrip(p: Byte, q: Byte, r: Byte, s: Byte)
    requires InAlphabet(p) && InAlphabet(q) && InAlphabet(r) && InAlphabet(s)
    ensures QuadSum(p, q, r, s) < 0x100_0000
    ensures GroupChars(QuadSum(p, q, r, s)) == [p, q, r, s]
  {
    AlphabetValue(p);
    AlphabetValue(q);
    AlphabetValue(r);
    AlphabetValue(s);
    SumSextets(Value(p), Value(q), Value(r), Value(s));
    var g := QuadSum(p, q, r, s);
    ValueCharAt(g, 0, p);
    ValueCharAt(g, 1, q);
    ValueCharAt(g, 2, r);
    ValueCharAt(g, 3, s);
  }

  lemma GroupRoundTrip(a: Byte, b: Byte, c: Byte)
    ensures Group(a, b, c) < 0x100_0000
    ensures GroupBytes(Group(a, b, c)) == [a, b, c]
    ensures c == 0 ==> Sextet(Group(a, b, c), 3) == 0 && Sextet(Group(a, b, c), 2) & 0x3 == 0
    ensures b == c == 0 ==> Sextet(Group(a, b, c), 2) == 0 && Sextet(Group(a, b, c), 1) & 0xF == 0
  {
  }

  lemma BytesRoundTrip(g: bv32)
    requires g < 0x100_0000
    ensures var b := GroupBytes(g); Group(b[0], b[1], b[2]) == g
    ensures Sextet(g, 3) == 0 && Sextet(g, 2) & 0x3 == 0 ==> g & 0xFF == 0
    ensures Sextet(g, 3) == Sextet(g, 2) == 0 && Sextet(g, 1) & 0xF == 0 ==> g & 0xFFFF == 0
  {
  }

  // ---------------------------------------------------------------------------------------
  // One group both ways
  // ---------------------------------------------------------------------------------------

  lemma GroupInverse3(x: Bytes)
    requires |x| == 3
    ensures var q := EncodeGroup(x); FullQuad(q) && QuadBytes(q) == x && Pads(q) == 0
  {
    var g := Group(x[0], x[1], x[2]);
    GroupRoundTrip(x[0], x[1], x[2]);
    GroupCharsSum(g);
    CharAtValue(g, 0);
    CharAtValue(g, 1);
    CharAtValue(g, 2);
    CharAtValue(g, 3);
  }

  lemma ValueBits(c: Byte)
    requires InAlphabet(c)
    ensures Value(c) & 0x3 == 0 <==> CharSextet(c) & 0x3 == 0
    ensures Value(c) & 0xF == 0 <==> CharSextet(c) & 0xF == 0
  {
  }

  lemma GroupInverse2(x: Bytes)
    requires |x| == 2
    ensures var q := EncodeGroup(x); PaddedQuad(q) && QuadBytes(q)[..2] == x && Pads(q) == 1
  {
    var g := Group(x[0], x[1], 0);
    GroupRoundTrip(x[0], x[1], 0);
    GroupCharsSum(g);
    CharAtValue(g, 0);
    CharAtValue(g, 1);
    CharAtValue(g, 2);
    ValueBits(CharAt(g, 2));
  }

  lemma GroupInverse1(x: Bytes)
    requires |x| == 1
    ensures var q := EncodeGroup(x); PaddedQuad(q) && QuadBytes(q)[..1] == x && Pads(q) == 2
  {
    var g := Group(x[0], 0, 0);
    GroupRoundTrip(x[0], 0, 0);
    GroupCharsSum(g);
    CharAtValue(g, 0);
    CharAtValue(g, 1);
    ValueBits(CharAt(g, 1));
  }

  lemma FullQuadInverse(q: Bytes)
    requires |q| == 4 && FullQuad(q)
    ensures EncodeGroup(QuadBytes(q)) == q && Pads(q) == 0
  {
    QuadRoundTrip(q[0], q[1], q[2], q[3]);
    BytesRoundTrip(QuadSum(q[0], q[1], q[2], q[3]));
    AlphabetValue(q[2]);
    AlphabetValue(q[3]);
  }

  lemma LowByteZero(g: bv32)
    requires g & 0xFF == 0
    ensures GroupBytes(g)[2] == 0
  {
  }

  lemma LowBytesZero(g: bv32)
    requires g & 0xFFFF == 0
    ensures GroupBytes(g)[1] == 0 && GroupBytes(g)[2] == 0
  {
  }

  lemma PaddedQuadInverse(q: Bytes)
    requires |q| == 4 && PaddedQuad(q)
    ensures EncodeGroup(QuadBytes(q)[..3 - Pads(q)]) == q
  {
    AlphabetValue(q[0]);
    AlphabetValue(q[1]);
    ValueBits(q[1]);
    if q[2] != PAD {
      AlphabetValue(q[2]);
      ValueBits(q[2]);
    }
    var g := QuadSum(q[0], q[1], q[2], q[3]);
    SumSextets(Value(q[0]), Value(q[1]), Value(q[2]), Value(q[3]));
    BytesRoundTrip(g);
    ValueCharAt(g, 0, q[0]);
    ValueCharAt(g, 1, q[1]);
    if q[2] != PAD {
      ValueCharAt(g, 2, q[2]);
      LowByteZero(g);
    } else {
      LowBytesZero(g);
    }
  }

  lemma GroupInverse(x: Bytes)
    requires 1 <= |x| <= 3
    ensures var q := EncodeGroup(x);
            && Pads(q) == 3 - |x| && QuadBytes(q)[..|x|] == x
            && (if |x| == 3 then FullQuad(q) else PaddedQuad(q))
  {
    if |x| == 1 {
      GroupInverse1(x);
    } else if |x| == 2 {
      GroupInverse2(x);
    } else {
      GroupInverse3(x);
      assert QuadBytes(EncodeGroup(x))[..3] == QuadBytes(EncodeGroup(x));
    }
  }

  // ---------------------------------------------------------------------------------------
  // Whole texts
  // ---------------------------------------------------------------------------------------

  lemma {:induction false} EncodeSplit(x: Bytes)
    requires |x| > 3
    ensures var s := Encode(x);
            |s| > 4 && s[4..] == Encode(x[3..]) && FullQuad(s[..4]) && QuadBytes(s[..4]) == x[..3]
  {
    hide EncodeGroup, QuadBytes, FullQuad, PaddedQuad;
    var s := Encode(x);
    assert s[..4] == EncodeGroup(x[..3]) && s[4..] == Encode(x[3..]);
    GroupInverse(x[..3]);
    assert QuadBytes(s[..4])[..3] == QuadBytes(s[..4]);
  }

  lemma {:induction false} RoundTrip(x: Bytes)
    ensures Decode(Encode(x)) == x
  {
    hide EncodeGroup, QuadBytes, FullQuad, PaddedQuad;
    if 0 < |x| <= 3 {
      GroupInverse(x);
    } else if |x| > 3 {
      EncodeSplit(x);
      RoundTrip(x[3..]);
      assert x == x[..3] + x[3..];
    }
  }

  // Alphabet characters, followed by `pads` padding characters.
  predicate Shaped(s: Bytes, pads: nat) {
    pads <= |s| && forall i | 0 <= i < |s| :: if i < |s| - pads then InAlphabet(s[i]) else s[i] == PAD
  }

  function PadCount(n: nat): nat {
    (3 - n % 3) % 3
  }

  lemma QuadShaped(q: Bytes)
    requires |q| == 4 && (FullQuad(q) || PaddedQuad(q))
    ensures Shaped(q, Pads(q))
  {
    AlphabetValue(q[0]);
    forall i | 0 <= i < 4
      ensures if i < 4 - Pads(q) then InAlphabet(q[i]) else q[i] == PAD
    {
      assert i == 0 || i == 1 || i == 2 || i == 3;
    }
  }

  lemma GroupShaped(x: Bytes)
    requires 1 <= |x| <= 3
    ensures Shaped(EncodeGroup(x), 3 - |x|)
  {
    GroupInverse(x);
    QuadShaped(EncodeGroup(x));
  }

  lemma ShapedAfterFullQuad(s: Bytes, pads: nat)
    requires |s| >= 4 && FullQuad(s[..4]) && Shaped(s[4..], pads)
    ensures Shaped(s, pads)
  {
    forall i | 0 <= i < |s|
      ensures if i < |s| - pads then InAlphabet(s[i]) else s[i] == PAD
    {
      if i >= 4 {
        assert s[i] == s[4..][i - 4];
      } else {
        assert s[i] == s[..4][i];
      }
    }
  }

  // Section 4 of RFC 4648: the padding is exactly the last (3 - n % 3) % 3 characters, and all
  // others are alphabet characters.
  lemma {:induction false} EncodeShape(x: Bytes)
    ensures |Encode(x)| == 4 * ((|x| + 2) / 3)
    ensures Shaped(Encode(x), PadCount(|x|))
  {
    hide EncodeGroup, QuadBytes, FullQuad, PaddedQuad;
    if 0 < |x| <= 3 {
      GroupShaped(x);
    } else if |x| > 3 {
      EncodeSplit(x);
      EncodeShape(x[3..]);
      var s, pads := Encode(x), PadCount(|x|);
      assert pads == PadCount(|x| - 3);
      ShapedAfterFullQuad(s, pads);
    }
  }

  // The image of `Encode` is canonical ...
  lemma {:induction false} EncodeCanonical(x: Bytes)
    ensures Canonical(Encode(x))
  {
    hide EncodeGroup, QuadBytes, FullQuad, PaddedQuad;
    if 0 < |x| <= 3 {
      GroupInverse(x);
    } else if |x| > 3 {
      EncodeSplit(x);
      EncodeCanonical(x[3..]);
    }
  }

  // ... and every canonical text is the encoding of what it decodes to.
  lemma {:induction false} CanonicalRoundTrip(s: Bytes)
    requires |s| % 4 == 0 && Canonical(s)
    ensures Encode(Decode(s)) == s
  {
    hide EncodeGroup, QuadBytes, FullQuad, PaddedQuad;
    if |s| == 4 {
      if FullQuad(s) {
        FullQuadInverse(s);
        assert QuadBytes(s)[..3] == QuadBytes(s);
      } else {
        PaddedQuadInverse(s);
      }
    } else if |s| > 4 {
      FullQuadInverse(s[..4]);
      CanonicalRoundTrip(s[4..]);
      var x := Decode(s);
      assert x[..3] == QuadBytes(s[..4]);
      assert x[3..] == Decode(s[4..]);
    }
  }

  // A text is reproduced by decoding and encoding exactly when it is canonical, and no other text
  // is an encoding at all.
  lemma CanonicalConverse(s: Bytes)
    requires |s| % 4 == 0
    ensures Encode(Decode(s)) == s <==> Canonical(s)
    ensures (exists x :: Encode(x) == s) <==> Canonical(s)
  {
    if Canonical(s) {
      CanonicalRoundTrip(s);
    }
    forall x | Encode(x) == s
      ensures Canonical(s)
    {
      EncodeCanonical(x);
    }
  }

  // The characters of an encoding are printable: no controls, and nothing from 128 on.
  lemma Printable(c: Byte)
    requires InAlphabet(c) || c == PAD
    ensures 0x20 < c < 0x80
  {
  }

  lemma EncodePrintable(x: Bytes)
    ensures forall i | 0 <= i < |Encode(x)| :: 0x20 < Encode(x)[i] < 0x80
  {
    hide Encode, InAlphabet;
    EncodeShape(x);
    var s := Encode(x);
    forall i | 0 <= i < |s|
      ensures 0x20 < s[i] < 0x80
    {
      Printable(s[i]);
    }
  }

  lemma EncodeAscii(x: Bytes)
    ensures Ascii(Encode(x))
  {
    hide Encode;
    EncodePrintable(x);
  }

  lemma CanonicalAscii(s: Bytes)
    requires |s| % 4 == 0 && Canonical(s)
    ensures Ascii(s)
  {
    hide Encode, Decode, Canonical, Ascii;
    CanonicalRoundTrip(s);
    EncodeAscii(Decode(s));
  }
}
