/**
 The CRC-32 of IEEE 802.3 (clause 3.2.9; RFC 1952, section 8) as the kernel's bit-at-a-time
 `crc32` computes it, and the burst-error detection the transport relies on it for.
 */
module Crc32 {
  import opened Bytes

  const POLYNOMIAL: bv32 := 0xEDB88320
  const INITIAL: bv32 := 0xFFFFFFFF

  /** The low `k` bits of a number, least significant first. */
  function Bits(n: nat, k: nat): (s: seq<bool>)
    ensures |s| == k
  {
    if k == 0 then [] else [n % 2 == 1] + Bits(n / 2, k - 1)
  }

  function FromBits(s: seq<bool>): (n: nat)
    decreases |s|
  {
    if s == [] then 0 else 2 * FromBits(s[1..]) + if s[0] then 1 else 0
  }

  function Pow2(k: nat): (p: nat)
    ensures p > 0
  {
    if k == 0 then 1 else 2 * Pow2(k - 1)
  }

  lemma {:induction false} FromBitsBits(n: nat, k: nat)
    requires n < Pow2(k)
    ensures FromBits(Bits(n, k)) == n
  {
    if k > 0 {
      FromBitsBits(n / 2, k - 1);
      assert Bits(n, k)[1..] == Bits(n / 2, k - 1);
    }
  }

  lemma {:induction false} BitsFromBits(s: seq<bool>)
    ensures FromBits(s) < Pow2(|s|)
    ensures Bits(FromBits(s), |s|) == s
    decreases |s|
  {
    if s != [] {
      BitsFromBits(s[1..]);
      assert FromBits(s) / 2 == FromBits(s[1..]);
      assert s == [s[0]] + s[1..];
    }
  }

  function Bit(c: bool, v: bv32): bv32 {
    if c then v else 0
  }

  function Word8(s: seq<bool>): bv32
    requires |s| == 8
  {
    Bit(s[0], 1) | Bit(s[1], 2) | Bit(s[2], 4) | Bit(s[3], 8) |
    Bit(s[4], 16) | Bit(s[5], 32) | Bit(s[6], 64) | Bit(s[7], 128)
  }

  function LowBits(v: bv32): (s: seq<bool>)
    ensures |s| == 8
  {
    [v & 1 != 0, v & 2 != 0, v & 4 != 0, v & 8 != 0, v & 16 != 0, v & 32 != 0, v & 64 != 0, v & 128 != 0]
  }

  lemma LowBitsOf(s0: bool, s1: bool, s2: bool, s3: bool, s4: bool, s5: bool, s6: bool, s7: bool)
    ensures LowBits(Word8([s0, s1, s2, s3, s4, s5, s6, s7])) == [s0, s1, s2, s3, s4, s5, s6, s7]
  {
  }

  lemma LowBitsWord8(s: seq<bool>)
    requires |s| == 8
    ensures LowBits(Word8(s)) == s
  {
    hide Word8, LowBits;
    var u := [s[0], s[1], s[2], s[3], s[4], s[5], s[6], s[7]];
    assert LowBits(Word8(u)) == u by {
      LowBitsOf(s[0], s[1], s[2], s[3], s[4], s[5], s[6], s[7]);
    }
    assert s == u;
  }

  lemma Word8LowBits(v: bv32)
    ensures Word8(LowBits(v)) == v & 0xFF
  {
  }

  /** A byte widened to the register, and the register's low byte. */
  function Widen(b: byte): bv32 {
    Word8(Bits(b, 8))
  }

  function LowByte(v: bv32): byte {
    BitsFromBits(LowBits(v));
    Pow2Of8();
    FromBits(LowBits(v))
  }

  lemma Pow2Of8()
    ensures Pow2(8) == 0x100
  {
    assert Pow2(4) == 16;
    assert Pow2(8) == 16 * Pow2(4);
  }

  lemma WidenLowByte(v: bv32)
    ensures Widen(LowByte(v)) == v & 0xFF
  {
    BitsFromBits(LowBits(v));
    Word8LowBits(v);
  }

  lemma LowByteWiden(b: byte)
    ensures LowByte(Widen(b)) == b
  {
    LowBitsWord8(Bits(b, 8));
    Pow2Of8();
    FromBitsBits(b, 8);
  }
  lemma WidenSmall(b: byte)
    ensures Widen(b) & 0xFFFFFF00 == 0
  {
  }

  /** One shift of the register, and the eight shifts that absorb a byte. */
  function Shift(s: bv32): bv32 {
    if s & 1 == 1 then (s >> 1) ^ POLYNOMIAL else s >> 1
  }

  function Shift2(s: bv32): bv32 {
    Shift(Shift(s))
  }

  function Shift4(s: bv32): bv32 {
    Shift2(Shift2(s))
  }

  function Shift8(s: bv32): bv32 {
    Shift4(Shift4(s))
  }

  function Mix(s: bv32, b: byte): bv32 {
    s ^ Widen(b)
  }

  function Absorb(s: bv32, b: byte): bv32 {
    Shift8(Mix(s, b))
  }

  /** crc32(s, data, |data|). */
  function Register(s: bv32, data: seq<byte>): bv32
    decreases |data|
  {
    if data == [] then s else Register(Absorb(s, data[0]), data[1..])
  }

  /** The check value the drivers store: the complement of the register. */
  function Checksum(data: seq<byte>): bv32 {
    !Register(INITIAL, data)
  }

  /** A 32-bit check value as the four bytes a packet carries, least significant first. */
  function Field(v: bv32): (s: seq<byte>)
    ensures |s| == 4
  {
    [LowByte(v), LowByte(v >> 8), LowByte(v >> 16), LowByte(v >> 24)]
  }

  /** crc32 as the byte loop over a buffer that the kernel runs. */
  method ComputeCrc32(start: bv32, b: array<byte>, n: nat) returns (crc: bv32)
    requires n <= b.Length
    ensures crc == Register(start, b[..n])
  {
    crc := start;
    assert b[0..n] == b[..n];
    for i := 0 to n
      invariant Register(crc, b[i..n]) == Register(start, b[..n])
    {
      assert b[i..n][0] == b[i] && b[i..n][1..] == b[i + 1..n];
      crc := crc ^ Widen(b[i]);
      ghost var x := crc;
      crc := Shift(Shift(Shift(Shift(Shift(Shift(Shift(Shift(crc))))))));
      assert crc == Shift8(x);
    }
    assert b[n..n] == [];
  }

  lemma {:induction false} RegisterConcat(s: bv32, a: seq<byte>, b: seq<byte>)
    ensures Register(s, a + b) == Register(Register(s, a), b)
    decreases |a|
  {
    if a == [] {
      assert a + b == b;
    } else {
      assert (a + b)[0] == a[0] && (a + b)[1..] == a[1..] + b;
      RegisterConcat(Absorb(s, a[0]), a[1..], b);
    }
  }

  /** If two shifted registers agree on the bits `m`, the top bit among them, so did the originals one bit up, and on bit 0. */
  lemma ShiftBack(a: bv32, b: bv32, m: bv32)
    requires (Shift(a) ^ Shift(b)) & m == 0
    requires m & 0x80000000 != 0
    ensures (a ^ b) & ((m << 1) | 1) == 0
  {
  }

  predicate Agree(a: bv32, b: bv32, m: bv32) {
    (a ^ b) & m == 0
  }

  lemma Shift2Back(a: bv32, b: bv32, m: bv32)
    requires Agree(Shift2(a), Shift2(b), m)
    requires m & 0xC0000000 == 0xC0000000
    ensures Agree(a, b, (m << 2) | 3)
  {
    ShiftBack(Shift(a), Shift(b), m);
    ShiftBack(a, b, (m << 1) | 1);
  }

  lemma Shift4Back(a: bv32, b: bv32, m: bv32)
    requires Agree(Shift4(a), Shift4(b), m)
    requires m & 0xF0000000 == 0xF0000000
    ensures Agree(a, b, (m << 4) | 0xF)
  {
    Shift2Back(Shift2(a), Shift2(b), m);
    Shift2Back(a, b, (m << 2) | 3);
  }

  lemma Shift8Back(a: bv32, b: bv32, m: bv32)
    requires Agree(Shift8(a), Shift8(b), m)
    requires m & 0xFF000000 == 0xFF000000
    ensures Agree(a, b, (m << 8) | 0xFF)
  {
    Shift4Back(Shift4(a), Shift4(b), m);
    Shift4Back(a, b, (m << 4) | 0xF);
  }

  predicate Small(w: bv32) {
    w & 0xFFFFFF00 == 0
  }

  predicate Mixed(x: bv32, s: bv32, w: bv32) {
    x == s ^ w
  }

  lemma StripBytes(s: bv32, s': bv32, w: bv32, w': bv32, x: bv32, x': bv32, m: bv32, low: bv32, high: bv32)
    requires Small(w) && Small(w') && Mixed(x, s, w) && Mixed(x', s', w')
    requires low == (m << 8) | 0xFF && high == m << 8
    requires Agree(x, x', low)
    ensures Agree(s, s', high)
  {
  }

  lemma MixIs(s: bv32, b: byte)
    ensures Mixed(Mix(s, b), s, Widen(b)) && Small(Widen(b))
  {
    WidenSmall(b);
    hide Widen;
  }

  lemma MixBack(s: bv32, s': bv32, b: byte, b': byte, m: bv32)
    requires Agree(Mix(s, b), Mix(s', b'), (m << 8) | 0xFF)
    ensures Agree(s, s', m << 8)
  {
    hide Widen, Agree, Mix, Small, Mixed;
    MixIs(s, b);
    MixIs(s', b');
    StripBytes(s, s', Widen(b), Widen(b'), Mix(s, b), Mix(s', b'), m, (m << 8) | 0xFF, m << 8);
  }

  lemma MixWords(s: bv32, b: byte, b': byte)
    requires Agree(Mix(s, b), Mix(s, b'), 0xFF)
    ensures Widen(b) == Widen(b')
  {
    hide Widen;
    WidenSmall(b);
    WidenSmall(b');
  }

  lemma MixByte(s: bv32, b: byte, b': byte)
    requires Agree(Mix(s, b), Mix(s, b'), 0xFF)
    ensures b == b'
  {
    hide *;
    MixWords(s, b, b');
    LowByteWiden(b);
    LowByteWiden(b');
  }

  lemma MixInjective(s: bv32, s': bv32, b: byte)
    requires Mix(s, b) == Mix(s', b)
    ensures s == s'
  {
    hide Widen;
  }

  lemma AgreeWeaken(a: bv32, b: bv32, m: bv32, low: bv32)
    requires Agree(a, b, m)
    requires low & !m == 0
    ensures Agree(a, b, low)
  {
  }

  /** Absorbing a byte loses nothing: agreement on `m` afterwards was agreement one byte up before. */
  lemma AbsorbBack(s: bv32, s': bv32, b: byte, b': byte, m: bv32)
    requires Agree(Absorb(s, b), Absorb(s', b'), m)
    requires m & 0xFF000000 == 0xFF000000
    ensures Agree(s, s', m << 8)
  {
    hide Mix, Shift8, Agree;
    Shift8Back(Mix(s, b), Mix(s', b'), m);
    MixBack(s, s', b, b', m);
  }

  /** From one register, the top byte of the result determines the byte absorbed. */
  lemma AbsorbByte(s: bv32, b: byte, b': byte)
    requires Agree(Absorb(s, b), Absorb(s, b'), 0xFF000000)
    ensures b == b'
  {
    hide Mix, Shift8, Agree;
    Shift8Back(Mix(s, b), Mix(s, b'), 0xFF000000);
    MixByte(s, b, b');
  }

  lemma AgreeAll(a: bv32, b: bv32)
    ensures Agree(a, b, 0xFFFFFFFF) <==> a == b
  {
  }

  lemma Shift8Injective(a: bv32, b: bv32)
    requires Shift8(a) == Shift8(b)
    ensures a == b
  {
    AgreeAll(Shift8(a), Shift8(b));
    Shift8Back(a, b, 0xFFFFFFFF);
    AgreeAll(a, b);
  }

  lemma AbsorbInjective(s: bv32, s': bv32, b: byte)
    requires Absorb(s, b) == Absorb(s', b)
    ensures s == s'
  {
    hide Mix, Shift8;
    Shift8Injective(Mix(s, b), Mix(s', b));
    MixInjective(s, s', b);
  }

  /** No data makes two registers meet. */
  lemma {:induction false} RegisterInjective(s: bv32, s': bv32, data: seq<byte>)
    requires Register(s, data) == Register(s', data)
    ensures s == s'
    decreases |data|
  {
    if data != [] {
      hide Absorb;
      RegisterInjective(Absorb(s, data[0]), Absorb(s', data[0]), data[1..]);
      AbsorbInjective(s, s', data[0]);
    }
  }

  function Reg4(s: bv32, b: seq<byte>): bv32
    requires |b| == 4
  {
    Absorb(Absorb(Absorb(Absorb(s, b[0]), b[1]), b[2]), b[3])
  }

  lemma RegisterOf4(s: bv32, b: seq<byte>)
    requires |b| == 4
    ensures Register(s, b) == Reg4(s, b)
  {
    var b1 := b[1..];
    var b2 := b1[1..];
    var b3 := b2[1..];
    assert b3[1..] == [];
    assert b1[0] == b[1] && b2[0] == b[2] && b3[0] == b[3];
    var s1 := Absorb(s, b[0]);
    var s2 := Absorb(s1, b[1]);
    var s3 := Absorb(s2, b[2]);
    assert Register(s3, b3) == Register(Absorb(s3, b[3]), []);
    assert Register(s2, b2) == Register(s3, b3);
    assert Register(s1, b1) == Register(s2, b2);
  }

  lemma AbsorbNext(s: bv32, b: byte, b': byte, t: bv32, t': bv32, m: bv32)
    requires t == Absorb(s, b) && t' == Absorb(s, b')
    requires m & 0xFF000000 == 0xFF000000
    requires Agree(t, t', m)
    ensures b == b'
  {
    hide Absorb;
    AgreeWeaken(t, t', m, 0xFF000000);
    AbsorbByte(s, b, b');
  }

  /** Four bytes absorbed from one register: the result determines them. */
  lemma Reg4Injective(s: bv32, b: seq<byte>, b': seq<byte>)
    requires |b| == |b'| == 4
    requires Reg4(s, b) == Reg4(s, b')
    ensures b == b'
  {
    hide Widen, Shift8, Absorb;
    var s1, t1 := Absorb(s, b[0]), Absorb(s, b'[0]);
    var s2, t2 := Absorb(s1, b[1]), Absorb(t1, b'[1]);
    var s3, t3 := Absorb(s2, b[2]), Absorb(t2, b'[2]);
    AgreeAll(Absorb(s3, b[3]), Absorb(t3, b'[3]));
    AbsorbBack(s3, t3, b[3], b'[3], 0xFFFFFFFF);
    AbsorbBack(s2, t2, b[2], b'[2], 0xFFFFFF00);
    AbsorbBack(s1, t1, b[1], b'[1], 0xFFFF0000);
    AbsorbByte(s, b[0], b'[0]);
    AbsorbNext(s1, b[1], b'[1], s2, t2, 0xFFFF0000);
    AbsorbNext(s2, b[2], b'[2], s3, t3, 0xFFFFFF00);
    AbsorbNext(s3, b[3], b'[3], Absorb(s3, b[3]), Absorb(t3, b'[3]), 0xFFFFFFFF);
    assert b == [b[0], b[1], b[2], b[3]] && b' == [b'[0], b'[1], b'[2], b'[3]];
  }

  // Residue: whatever came before, data followed by its own check value leaves one fixed register.

  predicate Differ(a: bv32, b: bv32, d: bv32) {
    a ^ b == d
  }

  // Shift in parts: which bit falls out, what is left, and the polynomial that may be mixed in.

  predicate Odd(s: bv32) {
    s & 1 == 1
  }

  function Half(s: bv32): bv32 {
    s >> 1
  }

  function Masked(x: bv32, odd: bool): bv32 {
    if odd then x ^ POLYNOMIAL else x
  }

  lemma ShiftParts(s: bv32)
    ensures Shift(s) == Masked(Half(s), Odd(s))
  {
  }

  lemma HalfDiffer(a: bv32, b: bv32, d: bv32, e: bv32)
    requires Differ(a, b, d) && d & 1 == 0 && e == d >> 1
    ensures Odd(a) == Odd(b) && Differ(Half(a), Half(b), e)
  {
  }

  lemma MaskedDiffer(x: bv32, y: bv32, odd: bool, e: bv32)
    requires Differ(x, y, e)
    ensures Differ(Masked(x, odd), Masked(y, odd), e)
  {
  }

  lemma ShiftDiffer(a: bv32, b: bv32, d: bv32, e: bv32)
    requires Differ(a, b, d) && d & 1 == 0 && e == d >> 1
    ensures Differ(Shift(a), Shift(b), e)
  {
    hide Shift, Masked, Half, Odd, Differ;
    ShiftParts(a);
    ShiftParts(b);
    HalfDiffer(a, b, d, e);
    MaskedDiffer(Half(a), Half(b), Odd(a), e);
  }

  lemma Shift2Differ(a: bv32, b: bv32, d: bv32, e: bv32)
    requires Differ(a, b, d) && d & 3 == 0 && e == d >> 2
    ensures Differ(Shift2(a), Shift2(b), e)
  {
    hide Shift, Differ;
    ShiftDiffer(a, b, d, d >> 1);
    ShiftDiffer(Shift(a), Shift(b), d >> 1, e);
  }

  lemma Shift4Differ(a: bv32, b: bv32, d: bv32, e: bv32)
    requires Differ(a, b, d) && d & 0xF == 0 && e == d >> 4
    ensures Differ(Shift4(a), Shift4(b), e)
  {
    hide Shift2, Differ;
    Shift2Differ(a, b, d, d >> 2);
    Shift2Differ(Shift2(a), Shift2(b), d >> 2, e);
  }

  /** A difference above the low byte just moves down when a byte is shifted out. */
  lemma Shift8Differ(a: bv32, b: bv32, d: bv32, e: bv32)
    requires Differ(a, b, d) && d & 0xFF == 0 && e == d >> 8
    ensures Differ(Shift8(a), Shift8(b), e)
  {
    hide Shift4, Differ;
    Shift4Differ(a, b, d, d >> 4);
    Shift4Differ(Shift4(a), Shift4(b), d >> 4, e);
  }

  lemma XorComplement(s: bv32, c: bv32, u: bv32, w: bv32, x: bv32, c': bv32, d: bv32, v: bv32)
    requires Differ(s, c, u) && w == !u & 0xFF && x == s ^ w
    requires c' == Invert8(c) && d == u & 0xFFFFFF00 && v == u >> 8
    ensures Differ(x, c', d) && d & 0xFF == 0 && v == d >> 8
  {
  }

  lemma MixComplement(s: bv32, c: bv32, u: bv32, b: byte, c': bv32, d: bv32, v: bv32)
    requires Differ(s, c, u) && b == LowByte(!u)
    requires c' == Invert8(c) && d == u & 0xFFFFFF00 && v == u >> 8
    ensures Differ(Mix(s, b), c', d) && d & 0xFF == 0 && v == d >> 8
  {
    hide Widen, LowByte, Differ, Invert8;
    WidenLowByte(!u);
    XorComplement(s, c, u, Widen(b), Mix(s, b), c', d, v);
  }

  lemma AbsorbComplement(s: bv32, c: bv32, u: bv32, b: byte, c': bv32, v: bv32)
    requires Differ(s, c, u) && b == LowByte(!u) && c' == Invert8(c) && v == u >> 8
    ensures Differ(Absorb(s, b), Shift8(c'), v)
  {
    hide Mix, Shift8, LowByte, Differ;
    var d := u & 0xFFFFFF00;
    MixComplement(s, c, u, b, c', d, v);
    Shift8Differ(Mix(s, b), c', d, v);
  }

  lemma LowByteOf(v: bv32, w: bv32)
    requires v & 0xFF == w & 0xFF
    ensures LowByte(v) == LowByte(w)
  {
    assert LowBits(v) == LowBits(v & 0xFF);
    assert LowBits(w) == LowBits(w & 0xFF);
  }

  function Invert8(c: bv32): bv32 {
    c ^ 0xFF
  }

  function Residue(): bv32 {
    var c1 := Shift8(Invert8(0));
    var c2 := Shift8(Invert8(c1));
    var c3 := Shift8(Invert8(c2));
    Shift8(Invert8(c3))
  }

  /** As a number, 0xC704DD7B read from the other end. */
  lemma ResidueIsStandard()
    ensures Residue() == 0xDEBB20E3
  {
    assert Shift8(0xFF) == 0x2D02EF8D;
    assert Shift8(0x2D02EF72) == 0xBE2612FF;
    assert Shift8(0xBE261200) == 0x00BE2612;
    assert Shift8(0x00BE26ED) == 0xDEBB20E3;
  }

  lemma Eights(s: bv32, u1: bv32, u2: bv32, u3: bv32)
    requires u1 == s >> 8 && u2 == s >> 16 && u3 == s >> 24
    ensures u2 == u1 >> 8 && u3 == u2 >> 8 && u3 >> 8 == 0
  {
  }

  lemma DifferZero(a: bv32, b: bv32)
    ensures Differ(a, b, 0) <==> a == b
    ensures Differ(a, 0, a)
  {
  }

  lemma ResidueSteps(s: bv32, b: seq<byte>, u1: bv32, u2: bv32, u3: bv32)
    requires |b| == 4
    requires u1 == s >> 8 && u2 == s >> 16 && u3 == s >> 24
    requires b[0] == LowByte(!s) && b[1] == LowByte(!u1) && b[2] == LowByte(!u2) && b[3] == LowByte(!u3)
    ensures Reg4(s, b) == Residue()
  {
    hide Absorb, Shift8, LowByte, Differ, Invert8;
    Eights(s, u1, u2, u3);
    DifferZero(s, 0);
    AbsorbComplement(s, 0, s, b[0], Invert8(0), u1);
    var s1, c1 := Absorb(s, b[0]), Shift8(Invert8(0));
    AbsorbComplement(s1, c1, u1, b[1], Invert8(c1), u2);
    var s2, c2 := Absorb(s1, b[1]), Shift8(Invert8(c1));
    AbsorbComplement(s2, c2, u2, b[2], Invert8(c2), u3);
    var s3, c3 := Absorb(s2, b[2]), Shift8(Invert8(c2));
    AbsorbComplement(s3, c3, u3, b[3], Invert8(c3), 0);
    DifferZero(Absorb(s3, b[3]), Shift8(Invert8(c3)));
  }

  lemma FieldByte(s: bv32, u: bv32, k: bv32)
    requires (k == !s >> 8 && u == s >> 8) || (k == !s >> 16 && u == s >> 16) || (k == !s >> 24 && u == s >> 24)
    ensures LowByte(k) == LowByte(!u)
  {
    hide LowByte;
    LowByteOf(k, !u);
  }

  lemma FieldBytes(s: bv32, u1: bv32, u2: bv32, u3: bv32)
    requires u1 == s >> 8 && u2 == s >> 16 && u3 == s >> 24
    ensures Field(!s)[0] == LowByte(!s) && Field(!s)[1] == LowByte(!u1)
    ensures Field(!s)[2] == LowByte(!u2) && Field(!s)[3] == LowByte(!u3)
  {
    FieldByte(s, u1, !s >> 8);
    FieldByte(s, u2, !s >> 16);
    FieldByte(s, u3, !s >> 24);
    hide LowByte;
  }

  lemma ResidueParts(s: bv32, b: seq<byte>, u1: bv32, u2: bv32, u3: bv32)
    requires b == Field(!s)
    requires u1 == s >> 8 && u2 == s >> 16 && u3 == s >> 24
    ensures Reg4(s, b) == Residue()
  {
    hide LowByte, Reg4, Residue, Field;
    FieldBytes(s, u1, u2, u3);
    ResidueSteps(s, b, u1, u2, u3);
  }

  lemma ResidueOfField(s: bv32, b: seq<byte>)
    requires b == Field(!s)
    ensures Reg4(s, b) == Residue()
  {
    hide LowByte, Reg4, Residue, Field;
    ResidueParts(s, b, s >> 8, s >> 16, s >> 24);
  }

  /** A stretch of bytes ends with its own check value. */
  predicate SelfChecked(p: seq<byte>) {
    |p| >= 4 && p[|p| - 4..] == Field(Checksum(p[..|p| - 4]))
  }

  /** Self-checked means, exactly, that the register over data and check value ends at the residue. */
  lemma SelfCheckedIsResidue(p: seq<byte>)
    requires |p| >= 4
    ensures SelfChecked(p) <==> Register(INITIAL, p) == Residue()
  {
    hide Field, Residue, Reg4, Register;
    var data, tail := p[..|p| - 4], p[|p| - 4..];
    var s := Register(INITIAL, data);
    assert p == data + tail;
    RegisterConcat(INITIAL, data, tail);
    RegisterOf4(s, tail);
    ResidueOfField(s, Field(!s));
    if Reg4(s, tail) == Residue() {
      Reg4Injective(s, tail, Field(!s));
    }
  }

  /** Same bytes outside the four from `at` on. */
  predicate SameOutside(p: seq<byte>, q: seq<byte>, at: nat) {
    && |p| == |q|
    && forall k :: 0 <= k < |p| && (k < at || at + 4 <= k) ==> p[k] == q[k]
  }

  /** Burst detection: no change confined to four consecutive bytes, check value included, survives. */
  lemma BurstDetected(p: seq<byte>, q: seq<byte>, at: nat)
    requires SelfChecked(p) && SelfChecked(q)
    requires SameOutside(p, q, at)
    ensures p == q
  {
    hide Field, Checksum, Residue, Register, Reg4;
    var lo := Min(at, |p| - 4);
    var a, b, b', c := p[..lo], p[lo..lo + 4], q[lo..lo + 4], p[lo + 4..];
    assert p == (a + b) + c && q == (a + b') + c by {
      assert q[..lo] == a && q[lo + 4..] == c;
      assert q == q[..lo] + q[lo..lo + 4] + q[lo + 4..];
    }
    SelfCheckedIsResidue(p);
    SelfCheckedIsResidue(q);
    RegisterConcat(INITIAL, a + b, c);
    RegisterConcat(INITIAL, a + b', c);
    RegisterConcat(INITIAL, a, b);
    RegisterConcat(INITIAL, a, b');
    RegisterInjective(Register(INITIAL, a + b), Register(INITIAL, a + b'), c);
    var s := Register(INITIAL, a);
    RegisterOf4(s, b);
    RegisterOf4(s, b');
    Reg4Injective(s, b, b');
  }

  // The register is the standard's: its mirror image divides by the generator, one bit at a time.

  const GENERATOR: bv32 := 0x04C11DB7

  /** The 32 bits in the opposite order. */
  function Reverse(v: bv32): bv32 {
    var a := ((v >> 1) & 0x5555_5555) | ((v & 0x5555_5555) << 1);
    var b := ((a >> 2) & 0x3333_3333) | ((a & 0x3333_3333) << 2);
    var c := ((b >> 4) & 0x0F0F_0F0F) | ((b & 0x0F0F_0F0F) << 4);
    var d := ((c >> 8) & 0x00FF_00FF) | ((c & 0x00FF_00FF) << 8);
    (d >> 16) | (d << 16)
  }

  /** One step of the long division of clause 3.2.9, `c` the message's next coefficient. */
  function Divide(r: bv32, c: bool): bv32 {
    var t := r ^ Bit(c, 0x8000_0000);
    if t & 0x8000_0000 != 0 then (t << 1) ^ GENERATOR else t << 1
  }

  function DivideAll(r: bv32, cs: seq<bool>): bv32
    decreases |cs|
  {
    if cs == [] then r else DivideAll(Divide(r, cs[0]), cs[1..])
  }

  /** A message's bits in the order they are sent, each byte's least significant one first. */
  function SentBits(data: seq<byte>): seq<bool>
    decreases |data|
  {
    if data == [] then [] else Bits(data[0], 8) + SentBits(data[1..])
  }

  /** Feeding one bit: the register and its mirror image go together. */
  function Feed(s: bv32, c: bool): bv32 {
    Shift(s ^ Bit(c, 1))
  }

  lemma FeedMirrored(s: bv32, c: bool)
    ensures Reverse(Feed(s, c)) == Divide(Reverse(s), c)
  {
  }

  function FeedAll(s: bv32, cs: seq<bool>): bv32
    decreases |cs|
  {
    if cs == [] then s else FeedAll(Feed(s, cs[0]), cs[1..])
  }

  lemma {:induction false} FeedAllMirrored(s: bv32, cs: seq<bool>)
    ensures Reverse(FeedAll(s, cs)) == DivideAll(Reverse(s), cs)
    decreases |cs|
  {
    hide Reverse, Divide, Feed;
    if cs != [] {
      FeedMirrored(s, cs[0]);
      FeedAllMirrored(Feed(s, cs[0]), cs[1..]);
    }
  }

  lemma DifferAboveLowest(x: bv32, s: bv32, w: bv32, y: bv32, d: bv32)
    requires Differ(x, s, w) && y == s ^ Bit(w & 1 == 1, 1) && d == w & 0xFFFF_FFFE
    ensures Differ(x, y, d) && d & 1 == 0 && d >> 1 == w >> 1
  {
  }

  /** What is mixed in above the lowest bit only moves down with a shift. */
  lemma DifferFeed(x: bv32, s: bv32, w: bv32)
    requires Differ(x, s, w)
    ensures Differ(Shift(x), Feed(s, w & 1 == 1), w >> 1)
  {
    hide Differ, Shift, Bit;
    var y, d := s ^ Bit(w & 1 == 1, 1), w & 0xFFFF_FFFE;
    DifferAboveLowest(x, s, w, y, d);
    ShiftDiffer(x, y, d, d >> 1);
  }

  /** The bits of `w`, all of them, from the lowest on. */
  predicate BitsAre(w: bv32, cs: seq<bool>)
    decreases |cs|
  {
    if cs == [] then w == 0 else (w & 1 == 1) == cs[0] && BitsAre(w >> 1, cs[1..])
  }

  function Shifts(x: bv32, n: nat): bv32
    decreases n
  {
    if n == 0 then x else Shifts(Shift(x), n - 1)
  }

  lemma {:induction false} MixedInAtOnce(x: bv32, s: bv32, w: bv32, cs: seq<bool>)
    requires Differ(x, s, w) && BitsAre(w, cs)
    ensures Shifts(x, |cs|) == FeedAll(s, cs)
    decreases |cs|
  {
    if cs == [] {
      NoDifference(x, s);
    } else {
      DifferFeed(x, s, w);
      hide Differ, Shift, Feed;
      MixedInAtOnce(Shift(x), Feed(s, cs[0]), w >> 1, cs[1..]);
    }
  }

  lemma NoDifference(x: bv32, s: bv32)
    requires Differ(x, s, 0)
    ensures x == s && Shifts(x, 0) == FeedAll(s, [])
  {
  }

  lemma MixedDiffers(x: bv32, s: bv32, w: bv32)
    requires Mixed(x, s, w)
    ensures Differ(x, s, w)
  {
  }

  lemma ShiftsOf8(x: bv32)
    ensures Shifts(x, 8) == Shift8(x)
  {
    hide Shift;
    assert Shifts(x, 8) == Shifts(Shift2(x), 6) == Shifts(Shift4(x), 4);
  }

  /** `t` is what is left of `w` after its lowest bit `c`. */
  predicate Follows(w: bv32, t: bv32, c: bool) {
    t == w >> 1 && c == (w & 1 == 1)
  }

  lemma FourMore(w: bv32, w1: bv32, w2: bv32, w3: bv32, w4: bv32, c0: bool, c1: bool, c2: bool, c3: bool, cs: seq<bool>)
    requires Follows(w, w1, c0) && Follows(w1, w2, c1) && Follows(w2, w3, c2) && Follows(w3, w4, c3) && BitsAre(w4, cs)
    ensures BitsAre(w, [c0, c1, c2, c3] + cs)
  {
    hide Follows, BitsAre;
    OneMore(w3, w4, c3, cs);
    OneMore(w2, w3, c2, [c3] + cs);
    OneMore(w1, w2, c1, [c2] + ([c3] + cs));
    OneMore(w, w1, c0, [c1] + ([c2] + ([c3] + cs)));
    assert [c0] + ([c1] + ([c2] + ([c3] + cs))) == [c0, c1, c2, c3] + cs;
  }

  lemma OneMore(w: bv32, t: bv32, c: bool, cs: seq<bool>)
    requires Follows(w, t, c) && BitsAre(t, cs)
    ensures BitsAre(w, [c] + cs)
  {
    assert ([c] + cs)[1..] == cs;
  }

  lemma Downward(w: bv32, w1: bv32, w2: bv32, w3: bv32, w4: bv32, w5: bv32, w6: bv32, w7: bv32)
    requires w >> 8 == 0
    requires w1 == w >> 1 && w2 == w1 >> 1 && w3 == w2 >> 1 && w4 == w3 >> 1 && w5 == w4 >> 1 && w6 == w5 >> 1 && w7 == w6 >> 1
    ensures Follows(w, w1, w & 1 != 0) && Follows(w1, w2, w & 2 != 0) && Follows(w2, w3, w & 4 != 0) && Follows(w3, w4, w & 8 != 0)
    ensures Follows(w4, w5, w & 16 != 0) && Follows(w5, w6, w & 32 != 0) && Follows(w6, w7, w & 64 != 0) && Follows(w7, 0, w & 128 != 0)
  {
  }

  lemma LowBitsAre(w: bv32)
    requires w >> 8 == 0
    ensures BitsAre(w, LowBits(w))
  {
    var w1 := w >> 1;
    var w2 := w1 >> 1;
    var w3 := w2 >> 1;
    var w4 := w3 >> 1;
    var w5 := w4 >> 1;
    var w6 := w5 >> 1;
    var w7 := w6 >> 1;
    Downward(w, w1, w2, w3, w4, w5, w6, w7);
    EightBits(w, w1, w2, w3, w4, w5, w6, w7, LowBits(w));
  }

  lemma EightBits(w: bv32, w1: bv32, w2: bv32, w3: bv32, w4: bv32, w5: bv32, w6: bv32, w7: bv32, s: seq<bool>)
    requires |s| == 8
    requires Follows(w, w1, s[0]) && Follows(w1, w2, s[1]) && Follows(w2, w3, s[2]) && Follows(w3, w4, s[3])
    requires Follows(w4, w5, s[4]) && Follows(w5, w6, s[5]) && Follows(w6, w7, s[6]) && Follows(w7, 0, s[7])
    ensures BitsAre(w, s)
  {
    hide Follows;
    LastFour(w4, w5, w6, w7, s[4..]);
    hide BitsAre;
    FourMore(w, w1, w2, w3, w4, s[0], s[1], s[2], s[3], s[4..]);
    assert [s[0], s[1], s[2], s[3]] + s[4..] == s;
  }

  lemma LastFour(w4: bv32, w5: bv32, w6: bv32, w7: bv32, s: seq<bool>)
    requires |s| == 4
    requires Follows(w4, w5, s[0]) && Follows(w5, w6, s[1]) && Follows(w6, w7, s[2]) && Follows(w7, 0, s[3])
    ensures BitsAre(w4, s)
  {
    var none: seq<bool> := [];
    assert BitsAre(0, none);
    hide Follows, BitsAre;
    FourMore(w4, w5, w6, w7, 0, s[0], s[1], s[2], s[3], none);
    assert [s[0], s[1], s[2], s[3]] + none == s;
  }

  lemma Word8Bits(s: seq<bool>)
    requires |s| == 8
    ensures BitsAre(Word8(s), s)
  {
    LowBitsWord8(s);
    hide LowBits, BitsAre;
    assert Word8(s) >> 8 == 0;
    LowBitsAre(Word8(s));
  }

  /** A byte mixed in at once and shifted eight times is its eight bits fed one by one. */
  lemma AbsorbIsFed(s: bv32, b: byte)
    ensures Absorb(s, b) == FeedAll(s, Bits(b, 8))
  {
    Word8Bits(Bits(b, 8));
    MixIs(s, b);
    hide Word8, Shift8, Mix, FeedAll, BitsAre, Mixed, Bits, Differ;
    MixedDiffers(Mix(s, b), s, Widen(b));
    MixedInAtOnce(Mix(s, b), s, Widen(b), Bits(b, 8));
    ShiftsOf8(Mix(s, b));
  }

  lemma {:induction false} DivideConcat(r: bv32, a: seq<bool>, b: seq<bool>)
    ensures DivideAll(r, a + b) == DivideAll(DivideAll(r, a), b)
    decreases |a|
  {
    hide Divide;
    if a == [] {
      assert a + b == b;
    } else {
      assert (a + b)[1..] == a[1..] + b;
      DivideConcat(Divide(r, a[0]), a[1..], b);
    }
  }

  /** Over any message the register's mirror image is what the standard's division leaves of its bits as they are sent. */
  lemma {:induction false} RegisterIsDivision(s: bv32, data: seq<byte>)
    ensures Reverse(Register(s, data)) == DivideAll(Reverse(s), SentBits(data))
    decreases |data|
  {
    hide Reverse, Absorb, Bits, DivideAll, FeedAll;
    if data == [] {
      NoBits(Reverse(s));
    } else {
      AbsorbIsFed(s, data[0]);
      FeedAllMirrored(s, Bits(data[0], 8));
      RegisterIsDivision(Absorb(s, data[0]), data[1..]);
      DivideConcat(Reverse(s), Bits(data[0], 8), SentBits(data[1..]));
    }
  }

  lemma NoBits(r: bv32)
    ensures DivideAll(r, []) == r
  {
  }

  lemma ReverseInitial()
    ensures Reverse(INITIAL) == INITIAL
  {
  }

  /** So what the drivers store the complement of is the standard's remainder, started from all ones, read from the other end. */
  lemma RemainderIsStandard(data: seq<byte>)
    ensures Reverse(Register(INITIAL, data)) == DivideAll(INITIAL, SentBits(data))
  {
    hide Reverse, DivideAll, Register;
    RegisterIsDivision(INITIAL, data);
    ReverseInitial();
  }
}
