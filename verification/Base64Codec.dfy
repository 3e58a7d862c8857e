// Base64Codec: the table-driven loops of core/src/Base64/Base64.cpp, proved to compute the
// reference definition in module Base64.
module Base64Codec {
  import opened Base64

  // ---------------------------------------------------------------------------------------
  // The two tables
  // ---------------------------------------------------------------------------------------

  // sEncodingTable: the codes of A-P, Q-Z a-f, g-v, w-z 0-9 + /.
  const ENCODING_ROW_0: seq<Byte> := [65, 66, 67, 68, 69, 70, 71, 72, 73, 74, 75, 76, 77, 78, 79, 80]
  const ENCODING_ROW_1: seq<Byte> := [81, 82, 83, 84, 85, 86, 87, 88, 89, 90, 97, 98, 99, 100, 101, 102]
  const ENCODING_ROW_2: seq<Byte> := [103, 104, 105, 106, 107, 108, 109, 110, 111, 112, 113, 114, 115, 116, 117, 118]
  const ENCODING_ROW_3: seq<Byte> := [119, 120, 121, 122, 48, 49, 50, 51, 52, 53, 54, 55, 56, 57, 43, 47]
  const ENCODING_TABLE: seq<Byte> := ENCODING_ROW_0 + ENCODING_ROW_1 + ENCODING_ROW_2 + ENCODING_ROW_3

  // kDecodingTable, sixteen entries a row; the rows without an alphabet character hold only 64.
  const NO_CHARACTER: seq<Byte> := [64, 64, 64, 64, 64, 64, 64, 64, 64, 64, 64, 64, 64, 64, 64, 64]
  const DECODING_ROW_2: seq<Byte> := [64, 64, 64, 64, 64, 64, 64, 64, 64, 64, 64, 62, 64, 64, 64, 63]
  const DECODING_ROW_3: seq<Byte> := [52, 53, 54, 55, 56, 57, 58, 59, 60, 61, 64, 64, 64, 64, 64, 64]
  const DECODING_ROW_4: seq<Byte> := [64, 0, 1, 2, 3, 4, 5, 6, 7, 8, 9, 10, 11, 12, 13, 14]
  const DECODING_ROW_5: seq<Byte> := [15, 16, 17, 18, 19, 20, 21, 22, 23, 24, 25, 64, 64, 64, 64, 64]
  const DECODING_ROW_6: seq<Byte> := [64, 26, 27, 28, 29, 30, 31, 32, 33, 34, 35, 36, 37, 38, 39, 40]
  const DECODING_ROW_7: seq<Byte> := [41, 42, 43, 44, 45, 46, 47, 48, 49, 50, 51, 64, 64, 64, 64, 64]
  const UPPER_HALF: seq<Byte> := seq(128, _ => 64)
  const DECODING_TABLE: seq<Byte> :=
    NO_CHARACTER + NO_CHARACTER + DECODING_ROW_2 + DECODING_ROW_3 + DECODING_ROW_4 + DECODING_ROW_5
    + DECODING_ROW_6 + DECODING_ROW_7 + UPPER_HALF

  lemma EncodingTable(k: Byte)
    requires k < 64
    ensures |ENCODING_TABLE| == 64 && ENCODING_TABLE[k] == SextetChar(k)
  {
    if k < 16 {
      assert ENCODING_TABLE[k] == ENCODING_ROW_0[k];
    } else if k < 32 {
      assert ENCODING_TABLE[k] == ENCODING_ROW_1[k - 16];
    } else if k < 48 {
      assert ENCODING_TABLE[k] == ENCODING_ROW_2[k - 32];
    } else {
      assert ENCODING_TABLE[k] == ENCODING_ROW_3[k - 48];
    }
  }

  lemma DecodingRows0To3(c: Byte)
    requires c < 64
    ensures |DECODING_TABLE| == 256
    ensures DECODING_TABLE[c] == CharSextet(c)
  {
    if c < 32 {
      assert DECODING_TABLE[c] == NO_CHARACTER[c & 0xF];
    } else if c < 48 {
      assert DECODING_TABLE[c] == DECODING_ROW_2[c - 32];
    } else {
      assert DECODING_TABLE[c] == DECODING_ROW_3[c - 48];
    }
  }

  lemma DecodingRows4To7(c: Byte)
    requires 64 <= c < 128
    ensures |DECODING_TABLE| == 256
    ensures DECODING_TABLE[c] == CharSextet(c)
  {
    if c < 80 {
      assert DECODING_TABLE[c] == DECODING_ROW_4[c - 64];
    } else if c < 96 {
      assert DECODING_TABLE[c] == DECODING_ROW_5[c - 80];
    } else if c < 112 {
      assert DECODING_TABLE[c] == DECODING_ROW_6[c - 96];
    } else {
      assert DECODING_TABLE[c] == DECODING_ROW_7[c - 112];
    }
  }

  lemma DecodingUpperHalf(c: Byte)
    requires 128 <= c
    ensures |DECODING_TABLE| == 256
    ensures DECODING_TABLE[c] == CharSextet(c)
  {
    assert DECODING_TABLE[c] == UPPER_HALF[c - 128];
  }

  lemma DecodingTable(c: Byte)
    ensures |DECODING_TABLE| == 256
    ensures DECODING_TABLE[c] == CharSextet(c)
  {
    hide DECODING_TABLE, CharSextet;
    if c < 64 {
      DecodingRows0To3(c);
    } else if c < 128 {
      DecodingRows4To7(c);
    } else {
      DecodingUpperHalf(c);
    }
  }

  // ---------------------------------------------------------------------------------------
  // Encoding
  // ---------------------------------------------------------------------------------------

  // size_t subtraction, which wraps around.
  function SizeSub(a: nat, b: nat): nat
    requires b < 0x1_0000_0000_0000_0000
  {
    if b <= a then a - b else a + 0x1_0000_0000_0000_0000 - b
  }

  // Integral promotion of a signed char: bytes from 128 on become negative.
  function Promote(c: Byte): bv32 {
    if c < 0x80 then c as bv32 else 0xFFFF_FF00 | c as bv32
  }

  // `v >> 2` on int keeps the sign.
  function ShiftRight2(v: bv32): bv32 {
    if v < 0x8000_0000 then v >> 2 else !(!v >> 2)
  }

  // The four table indices of the loop body, lines 26 to 29.
  function Index0(a: Byte): (k: bv32)
    ensures k < 64
  {
    ShiftRight2(Promote(a)) & 0x3F
  }

  function Index1(a: Byte, b: Byte): (k: bv32)
    ensures k < 64
  {
    ((Promote(a) & 0x3) << 4) | ((Promote(b) & 0xF0) >> 4)
  }

  function Index2(b: Byte, c: Byte): (k: bv32)
    ensures k < 64
  {
    ((Promote(b) & 0xF) << 2) | ((Promote(c) & 0xC0) >> 6)
  }

  function Index3(c: Byte): (k: bv32)
    ensures k < 64
  {
    Promote(c) & 0x3F
  }

  // Bytes of any sign: the indices are the sextets of the group.
  lemma OuterIndices(a: Byte, b: Byte, c: Byte)
    ensures Index0(a) == Sextet(Group(a, b, c), 0) && Index3(c) == Sextet(Group(a, b, c), 3)
  {
  }

  lemma InnerIndices(a: Byte, b: Byte, c: Byte)
    ensures Index1(a, b) == Sextet(Group(a, b, c), 1) && Index2(b, c) == Sextet(Group(a, b, c), 2)
  {
  }

  function LookUp(k: bv32): Byte
    requires k < 64
  {
    ENCODING_TABLE[k]
  }

  lemma LookedUp(k: bv32, g: bv32, i: nat)
    requires k < 64 && i < 4 && k == Sextet(g, i)
    ensures LookUp(k) == CharAt(g, i)
  {
    EncodingTable(k as Byte);
  }

  lemma Looked(a: Byte, b: Byte, c: Byte)
    ensures [LookUp(Index0(a)), LookUp(Index1(a, b)), LookUp(Index2(b, c)),
             LookUp(Index3(c))] == GroupChars(Group(a, b, c))
  {
    hide Index0, Index1, Index2, Index3, Group, CharAt, Promote, Sextet, LookUp;
    var g := Group(a, b, c);
    OuterIndices(a, b, c);
    InnerIndices(a, b, c);
    LookedUp(Index0(a), g, 0);
    LookedUp(Index1(a, b), g, 1);
    LookedUp(Index2(b, c), g, 2);
    LookedUp(Index3(c), g, 3);
  }

  // The two table indices of the last group, lines 36 and 42.
  function TailIndex1(a: Byte): (k: bv32)
    ensures k < 64
  {
    (Promote(a) & 0x3) << 4
  }

  function TailIndex2(b: Byte): (k: bv32)
    ensures k < 64
  {
    (Promote(b) & 0xF) << 2
  }

  // Missing bytes leave the unused bits of an index zero.
  lemma TailIndices(a: Byte)
    ensures TailIndex1(a) == Index1(a, 0)
    ensures TailIndex2(a) == Index2(a, 0)
  {
  }

  // What the loop body writes for one group, and what follows it for the last one.
  lemma WrittenGroup(a: Byte, b: Byte, c: Byte)
    ensures [LookUp(Index0(a)), LookUp(Index1(a, b)), LookUp(Index2(b, c)),
             LookUp(Index3(c))] == EncodeGroup([a, b, c])
    ensures [LookUp(Index0(a)), LookUp(Index1(a, b)), LookUp(TailIndex2(b)), PAD]
            == EncodeGroup([a, b])
    ensures [LookUp(Index0(a)), LookUp(TailIndex1(a)), PAD, PAD] == EncodeGroup([a])
  {
    hide Index0, Index1, Index2, Index3, TailIndex1, TailIndex2, Group, CharAt, Promote, LookUp;
    Looked(a, b, c);
    Looked(a, b, 0);
    Looked(a, 0, 0);
    TailIndices(a);
    TailIndices(b);
  }

  lemma FourWritten(s: Bytes, before: Bytes, p: nat)
    requires p + 4 <= |s| && s[..p] == before
    ensures s[..p + 4] == before + [s[p], s[p + 1], s[p + 2], s[p + 3]]
  {
  }

  // Lines 26 to 29: one full group, written at `p`.
  method WriteGroup(data: Bytes, i: nat, ret: array<Byte>, p: nat)
    requires i + 3 <= |data| && p + 4 <= ret.Length
    modifies ret
    ensures ret[..p + 4] == old(ret[..p]) + EncodeGroup(data[i..i + 3])
  {
    hide Index0, Index1, Index2, Index3, TailIndex1, TailIndex2, LookUp, EncodeGroup;
    WrittenGroup(data[i], data[i + 1], data[i + 2]);
    ret[p] := LookUp(Index0(data[i]));
    ret[p + 1] := LookUp(Index1(data[i], data[i + 1]));
    ret[p + 2] := LookUp(Index2(data[i + 1], data[i + 2]));
    ret[p + 3] := LookUp(Index3(data[i + 2]));
    assert data[i..i + 3] == [data[i], data[i + 1], data[i + 2]];
    FourWritten(ret[..], old(ret[..p]), p);
  }

  // Lines 33 to 44: the last one or two bytes and the padding, written at `p`.
  method WriteTail(data: Bytes, i: nat, ret: array<Byte>, p: nat)
    requires i + 1 <= |data| <= i + 2 && p + 4 <= ret.Length
    modifies ret
    ensures ret[..p + 4] == old(ret[..p]) + EncodeGroup(data[i..])
  {
    hide Index0, Index1, Index2, Index3, TailIndex1, TailIndex2, LookUp, EncodeGroup;
    WrittenGroup(data[i], if i == |data| - 1 then 0 else data[i + 1], 0);
    assert data[i..] == if i == |data| - 1 then [data[i]] else [data[i], data[i + 1]];
    ret[p] := LookUp(Index0(data[i]));
    if i == |data| - 1 {
      ret[p + 1] := LookUp(TailIndex1(data[i]));
      ret[p + 2] := PAD;
    } else {
      ret[p + 1] := LookUp(Index1(data[i], data[i + 1]));
      ret[p + 2] := LookUp(TailIndex2(data[i + 1]));
    }
    ret[p + 3] := PAD;
    FourWritten(ret[..], old(ret[..p]), p);
  }

  lemma EncodeEmpty()
    ensures Encode([]) == []
  {
  }

  lemma {:induction false} EncodeFirst(y: Bytes)
    requires |y| >= 3
    ensures Encode(y) == EncodeGroup(y[..3]) + Encode(y[3..])
  {
    hide EncodeGroup;
    if |y| == 3 {
      assert y[..3] == y && y[3..] == [];
    }
  }

  lemma {:induction false} EncodeSnoc(x: Bytes, g: Bytes)
    requires |x| % 3 == 0 && 1 <= |g| <= 3
    ensures Encode(x + g) == Encode(x) + EncodeGroup(g)
  {
    hide EncodeGroup;
    if x == [] {
      assert x + g == g;
    } else {
      var y := x + g;
      EncodeSnoc(x[3..], g);
      assert y[..3] == x[..3] && y[3..] == x[3..] + g;
      EncodeFirst(x);
    }
  }

  lemma EncodeNext(data: Bytes, i: nat)
    requires i % 3 == 0 && i + 3 <= |data|
    ensures Encode(data[..i]) + EncodeGroup(data[i..i + 3]) == Encode(data[..i + 3])
  {
    hide Encode, EncodeGroup;
    var x, g, y := data[..i], data[i..i + 3], data[..i + 3];
    assert y == x + g;
    EncodeSnoc(x, g);
  }

  lemma EncodeLast(data: Bytes, i: nat)
    requires i % 3 == 0 && i < |data| <= i + 3
    ensures Encode(data[..i]) + EncodeGroup(data[i..]) == Encode(data)
  {
    hide Encode, EncodeGroup;
    var x, g := data[..i], data[i..];
    assert data == x + g;
    EncodeSnoc(x, g);
  }

  // Base64::Encode(const char*, size_t).  With fewer than two bytes the loop bound wraps, the
  // loop is entered, and its reads leave the buffer.
  method EncodeRaw(data: Bytes) returns (r: Outcome<Bytes>)
    ensures r == if |data| < 2 then Undefined else Returned(Encode(data))
  {
    hide Encode, EncodeGroup;
    var inLen := |data|;
    var outLen := 4 * ((inLen + 2) / 3);
    var ret := new Byte[outLen](_ => 0);
    var i, p := 0, 0;
    EncodeEmpty();
    while i < SizeSub(inLen, 2)
      invariant i % 3 == 0 && i <= inLen && p == i / 3 * 4
      invariant ret[..p] == Encode(data[..i])
      decreases inLen - i
    {
      if inLen <= i + 2 {
        return Undefined;
      }
      WriteGroup(data, i, ret, p);
      EncodeNext(data, i);
      i, p := i + 3, p + 4;
    }
    if i < inLen {
      WriteTail(data, i, ret, p);
      EncodeLast(data, i);
      p := p + 4;
    } else {
      assert data[..i] == data;
    }
    // the write pointer ends exactly at the end of the buffer
    assert p == outLen && ret[..p] == ret[..];
    return Returned(ret[..]);
  }

  // What `Encode` on strings does: the reference encoding, except for a single byte.
  function EncodeOutcome(data: Bytes): Outcome<Bytes> {
    if |data| == 1 then Undefined else Returned(Encode(data))
  }

  // Base64::Encode(const std::string&)
  method EncodeString(data: Bytes) returns (r: Outcome<Bytes>)
    ensures r == EncodeOutcome(data)
  {
    if |data| == 0 {
      EncodeEmpty();
      return Returned([]);
    }
    r := EncodeRaw(data);
  }

  // ---------------------------------------------------------------------------------------
  // Decoding
  // ---------------------------------------------------------------------------------------

  // What `Decode` on strings does.  A bad length throws before any character is looked up; a
  // byte from 128 on is a negative index.
  function DecodeOutcome(s: Bytes): Outcome<Bytes> {
    if |s| % 4 != 0 then Thrown else if !Ascii(s) then Undefined else Returned(Decode(s))
  }

  lemma ExactSum(a: bv32, b: bv32, c: bv32, d: bv32)
    requires a <= 64 && b <= 64 && c <= 64 && d <= 64
    ensures Sum(a, b, c, d) as bv40 == (a as bv40 << 18) + (b as bv40 << 12) + (c as bv40 << 6) + d as bv40
  {
  }

  lemma ValueBound(c: Byte)
    ensures Value(c) <= 64
  {
  }

  // For any four characters, valid or not, the 32-bit sum is the sum in wider arithmetic: it never
  // wraps around, even when all four count 64.
  lemma SumIsExact(p: Byte, q: Byte, r: Byte, s: Byte)
    ensures QuadSum(p, q, r, s) as bv40
         == (Value(p) as bv40 << 18) + (Value(q) as bv40 << 12) + (Value(r) as bv40 << 6) + Value(s) as bv40
  {
    hide Value, Sum;
    ValueBound(p);
    ValueBound(q);
    ValueBound(r);
    ValueBound(s);
    ExactSum(Value(p), Value(q), Value(r), Value(s));
  }

  lemma JoinBytes(g: bv32)
    ensures var b := GroupBytes(g); Group(b[0], b[1], b[2]) == g & 0xFF_FFFF
  {
  }

  // A quad of any characters: the bytes written are the big-endian bytes of the sum of its
  // values, reduced modulo 2^24.
  lemma QuadBytesOfSum(q: Bytes)
    requires |q| == 4
    ensures var b := QuadBytes(q);
            Group(b[0], b[1], b[2]) == QuadSum(q[0], q[1], q[2], q[3]) & 0xFF_FFFF
  {
    JoinBytes(QuadSum(q[0], q[1], q[2], q[3]));
  }

  // Every quad read as three bytes.
  function DecodeQuads(s: Bytes): (r: Bytes)
    requires |s| % 4 == 0
    ensures |r| == |s| / 4 * 3
  {
    hide QuadBytes;
    if s == [] then [] else QuadBytes(s[..4]) + DecodeQuads(s[4..])
  }

  lemma DecodeOne(q: Bytes)
    requires |q| == 4
    ensures DecodeQuads([]) == [] && DecodeQuads(q) == QuadBytes(q)
    ensures Decode(q) == QuadBytes(q)[..3 - Pads(q)]
  {
    hide QuadBytes, Pads;
    assert q[..4] == q && q[4..] == [];
  }

  lemma DecodeFirst(s: Bytes)
    requires |s| > 0 && |s| % 4 == 0
    ensures DecodeQuads(s) == QuadBytes(s[..4]) + DecodeQuads(s[4..])
    ensures |s| > 4 ==> Decode(s) == QuadBytes(s[..4]) + Decode(s[4..])
  {
    hide QuadBytes, Pads;
  }

  lemma {:induction false} QuadsSnoc(s: Bytes, q: Bytes)
    requires |s| % 4 == 0 && |q| == 4
    ensures DecodeQuads(s + q) == DecodeQuads(s) + QuadBytes(q)
  {
    hide QuadBytes, DecodeQuads, Decode;
    DecodeOne(q);
    if s == [] {
      assert s + q == q;
    } else {
      var t, rest := s + q, s[4..];
      assert t[..4] == s[..4] && t[4..] == rest + q;
      DecodeFirst(s);
      DecodeFirst(t);
      QuadsSnoc(rest, q);
      Associative(QuadBytes(s[..4]), DecodeQuads(rest), QuadBytes(q));
    }
  }

  // The next quad gives three more bytes, and the last one what its padding leaves.
  lemma {:induction false} DecodeSnoc(s: Bytes, q: Bytes)
    requires |s| % 4 == 0 && |q| == 4
    ensures DecodeQuads(s + q) == DecodeQuads(s) + QuadBytes(q)
    ensures Decode(s + q) == DecodeQuads(s) + QuadBytes(q)[..3 - Pads(q)]
  {
    hide QuadBytes, Pads, Decode, DecodeQuads;
    DecodeOne(q);
    QuadsSnoc(s, q);
    if s == [] {
      assert s + q == q;
    } else {
      var t, rest := s + q, s[4..];
      assert t[..4] == s[..4] && t[4..] == rest + q;
      DecodeFirst(s);
      DecodeFirst(t);
      DecodeSnoc(rest, q);
      Associative(QuadBytes(s[..4]), DecodeQuads(rest), QuadBytes(q)[..3 - Pads(q)]);
    }
  }

  // Lines 96 to 101: up to three bytes, as far as the output reaches.
  method WriteBytes(triple: bv32, out: array<Byte>, j: nat) returns (k: nat)
    requires j <= out.Length
    modifies out
    ensures k == if out.Length - j < 3 then out.Length else j + 3
    ensures out[..k] == old(out[..j]) + GroupBytes(triple)[..k - j]
  {
    k := j;
    if k < out.Length {
      out[k] := ((triple >> 16) & 0xFF) as Byte;
      k := k + 1;
    }
    if k < out.Length {
      out[k] := ((triple >> 8) & 0xFF) as Byte;
      k := k + 1;
    }
    if k < out.Length {
      out[k] := (triple & 0xFF) as Byte;
      k := k + 1;
    }
  }

  // Line 89: the value of the character at `i`; the index moves on.  A byte from 128 on is a
  // negative index into the table.  `visited` lists the positions read so far.
  method ReadCharacter(s: Bytes, i: nat, ghost before: seq<nat>)
    returns (v: Outcome<bv32>, next: nat, ghost visited: seq<nat>)
    requires i < |s|
    ensures v == if s[i] < 0x80 then Returned(Value(s[i])) else Undefined
    ensures next == i + 1 && visited == before + [i]
  {
    DecodingTable(s[i]);
    next, visited := i + 1, before + [i];
    if s[i] == PAD {
      v := Returned(0);
    } else if s[i] >= 0x80 {
      v := Undefined;
    } else {
      v := Returned(DECODING_TABLE[s[i]] as bv32);
    }
  }

  // The positions from `i` up to `n`.
  function Positions(i: nat, n: nat): seq<nat>
    requires i <= n
  {
    seq(n - i, k requires 0 <= k < n - i => i + k)
  }

  lemma PositionsJoin(i: nat, m: nat, n: nat)
    requires i <= m <= n
    ensures Positions(i, m) + Positions(m, n) == Positions(i, n)
  {
  }

  // Lines 89 to 94: the next four characters, one after the other, and their sum.
  method ReadQuad(s: Bytes, i: nat) returns (triple: Outcome<bv32>, next: nat, ghost visited: seq<nat>)
    requires i + 4 <= |s|
    ensures triple.Returned? <==> Ascii(s[i..i + 4])
    ensures triple.Returned? ==>
              && GroupBytes(triple.value) == QuadBytes(s[i..i + 4])
              && next == i + 4 && visited == Positions(i, i + 4)
    ensures !triple.Returned? ==> triple == Undefined
  {
    hide Value, GroupBytes, Sum;
    var a, b, c, d;
    ghost var q := s[i..i + 4];
    assert q[0] == s[i] && q[1] == s[i + 1] && q[2] == s[i + 2] && q[3] == s[i + 3];
    next, visited := i, [];
    a, next, visited := ReadCharacter(s, next, visited);
    if a.Undefined? {
      return Undefined, next, visited;
    }
    b, next, visited := ReadCharacter(s, next, visited);
    if b.Undefined? {
      return Undefined, next, visited;
    }
    c, next, visited := ReadCharacter(s, next, visited);
    if c.Undefined? {
      return Undefined, next, visited;
    }
    d, next, visited := ReadCharacter(s, next, visited);
    if d.Undefined? {
      return Undefined, next, visited;
    }
    triple := Returned(Sum(a.value, b.value, c.value, d.value));
  }

  lemma LastPads(before: Bytes, q: Bytes)
    requires |q| == 4
    ensures Pads(before + q) == Pads(q)
  {
  }

  // The output once the characters before `i` are read.
  function DecodedSoFar(s: Bytes, i: nat): (r: Bytes)
    requires |s| > 0 && |s| % 4 == 0 && i % 4 == 0 && i <= |s|
    ensures |r| == if i < |s| then i / 4 * 3 else |s| / 4 * 3 - Pads(s)
  {
    hide Pads;
    if i < |s| then DecodeQuads(s[..i]) else Decode(s)
  }

  // The quad at `i` adds three bytes, and the last one what the padding leaves.
  lemma DecodeNext(s: Bytes, i: nat)
    requires |s| % 4 == 0 && i % 4 == 0 && i + 4 <= |s|
    ensures var before, after := DecodedSoFar(s, i), DecodedSoFar(s, i + 4);
            && |after| == (if |Decode(s)| - |before| < 3 then |Decode(s)| else |before| + 3)
            && after == before + QuadBytes(s[i..i + 4])[..|after| - |before|]
  {
    hide QuadBytes, Decode, DecodeQuads, Pads;
    var x, q, y := s[..i], s[i..i + 4], s[..i + 4];
    assert y == x + q;
    LastPads(x, q);
    DecodeSnoc(x, q);
    assert i + 4 == |s| ==> y == s;
  }

  lemma DecodedEnds(s: Bytes)
    requires |s| > 0 && |s| % 4 == 0
    ensures DecodedSoFar(s, 0) == [] && DecodedSoFar(s, |s|) == Decode(s)
  {
  }

  // More of a text is ASCII exactly when both parts are.
  lemma AsciiJoin(s: Bytes, m: nat, n: nat)
    requires m <= n <= |s|
    ensures Ascii(s[..n]) <==> Ascii(s[..m]) && Ascii(s[m..n])
    ensures Ascii(s) ==> Ascii(s[..n])
  {
    if Ascii(s[..m]) && Ascii(s[m..n]) {
      forall i | 0 <= i < n
        ensures s[..n][i] < 0x80
      {
        assert s[i] == if i < m then s[..m][i] else s[m..n][i - m];
      }
    }
    if Ascii(s[..n]) {
      assert forall i | 0 <= i < m :: s[..m][i] == s[..n][i];
      assert forall i | 0 <= i < n - m :: s[m..n][i] == s[..n][m + i];
    }
  }

  lemma AsciiEmpty()
    ensures Ascii([])
  {
  }

  // Lines 87 to 102.  Unless a byte from 128 on is met, every position of the text is read exactly
  // once, from the first to the last, and the output is filled exactly to its end.
  method DecodeLoop(s: Bytes, out: array<Byte>) returns (fine: bool, ghost visited: seq<nat>)
    requires |s| > 0 && |s| % 4 == 0 && out.Length == |Decode(s)|
    modifies out
    ensures fine <==> Ascii(s)
    ensures fine ==> visited == Positions(0, |s|) && out[..] == Decode(s)
  {
    hide Decode, DecodedSoFar, QuadBytes, GroupBytes, Pads, Ascii, Positions;
    var i, j := 0, 0;
    visited := Positions(0, 0);
    AsciiEmpty();
    DecodedEnds(s);
    while i < |s|
      invariant 0 <= i <= |s| && i % 4 == 0 && 0 <= j <= out.Length
      invariant out[..j] == DecodedSoFar(s, i)
      invariant Ascii(s[..i]) && visited == Positions(0, i)
    {
      DecodeNext(s, i);
      AsciiJoin(s, i, i + 4);
      PositionsJoin(0, i, i + 4);
      ghost var more;
      var triple, next;
      triple, next, more := ReadQuad(s, i);
      if triple.Undefined? {
        return false, visited;
      }
      i, visited := next, visited + more;
      j := WriteBytes(triple.value, out, j);
    }
    assert out[..j] == out[..] && s[..i] == s;
    fine := true;
  }

  // Base64::Decode(const std::string&, char**, size_t*).  An empty text reads before its start.
  method DecodeRaw(s: Bytes) returns (r: Outcome<Bytes>)
    ensures r == if |s| == 0 then Undefined else DecodeOutcome(s)
  {
    hide Decode, Ascii;
    var inLen := |s|;
    if inLen % 4 != 0 {
      return Thrown;
    }
    if inLen == 0 {
      return Undefined;
    }
    var outLen := inLen / 4 * 3;
    if s[inLen - 1] == PAD {
      outLen := outLen - 1;
    }
    if s[inLen - 2] == PAD {
      outLen := outLen - 1;
    }
    var out := new Byte[outLen](_ => 0);
    var fine;
    ghost var visited;
    fine, visited := DecodeLoop(s, out);
    return if fine then Returned(out[..]) else Undefined;
  }

  // Base64::Decode(const std::string&)
  method DecodeString(s: Bytes) returns (r: Outcome<Bytes>)
    ensures r == DecodeOutcome(s)
  {
    if |s| == 0 {
      return Returned([]);
    }
    r := DecodeRaw(s);
  }

  // ---------------------------------------------------------------------------------------
  // The codec as written
  // ---------------------------------------------------------------------------------------

  // Encoding then decoding gives the bytes back for every length but one.
  lemma CodecRoundTrip(x: Bytes)
    ensures |x| != 1 <==> EncodeOutcome(x).Returned? && DecodeOutcome(EncodeOutcome(x).value) == Returned(x)
  {
    hide Encode, Decode, Ascii;
    RoundTrip(x);
    EncodeAscii(x);
  }

  lemma OneByteDecoded(s: Bytes)
    requires |s| % 4 == 0
    ensures |Decode(s)| == 1 <==> |s| == 4 && Pads(s) == 2
  {
    hide Decode, Pads;
  }

  // Decoding then encoding gives a text back exactly when it is canonical and is not one quad with
  // two padding characters, which stands for a single byte.
  lemma CodecConverse(s: Bytes)
    ensures DecodeOutcome(s).Returned? && EncodeOutcome(DecodeOutcome(s).value) == Returned(s)
       <==> |s| % 4 == 0 && Canonical(s) && !(|s| == 4 && Pads(s) == 2)
  {
    hide Encode, Decode, Canonical, Ascii, Pads;
    if |s| % 4 == 0 {
      CanonicalConverse(s);
      OneByteDecoded(s);
      if Canonical(s) {
        CanonicalAscii(s);
      }
    }
  }

  lemma HelloHead()
    ensures EncodeGroup([72, 69, 76]) == [83, 69, 86, 77]
  {
  }

  lemma HelloTail()
    ensures EncodeGroup([76, 79]) == [84, 69, 56, 61]
  {
  }

  // The encoder's test vector "HELLO".
  lemma Hello()
    ensures EncodeOutcome([72, 69, 76, 76, 79]) == Returned([83, 69, 86, 77, 84, 69, 56, 61])
    ensures DecodeOutcome([83, 69, 86, 77, 84, 69, 56, 61]) == Returned([72, 69, 76, 76, 79])
  {
    hide Encode, EncodeGroup, Decode, Ascii;
    var x: Bytes := [72, 69, 76, 76, 79];
    var head: Bytes := [72, 69, 76];
    EncodeEmpty();
    EncodeSnoc([], head);
    EncodeSnoc(head, [76, 79]);
    assert [] + head == head && head + [76, 79] == x;
    HelloHead();
    HelloTail();
    assert Encode(x) == [83, 69, 86, 77, 84, 69, 56, 61];
    RoundTrip(x);
    EncodeAscii(x);
  }
}
