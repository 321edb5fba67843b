/** The command-framed protocol's 16-bit checksum: MSB-first CRC with the
    register initialised to 0xFFFF, each byte XORed into the high half, and
    no final XOR. The generator is a build-time constant defined outside
    this model, so it is a parameter `poly`. */
module Crc16 {
  import opened Bytes

  /** One shift of the register: out goes bit 15, and the generator is
      folded in when that bit was set. */
  function Shift(r: bv16, poly: bv16): bv16
  {
    if r & 0x8000 != 0 then (r << 1) ^ poly else r << 1
  }

  /** `n` shifts in a row. */
  function Shifts(r: bv16, poly: bv16, n: nat): bv16
    decreases n
  {
    if n == 0 then r else Shifts(Shift(r, poly), poly, n - 1)
  }

  /** The register after absorbing byte `y`. */
  function Absorb(r: bv16, y: byte, poly: bv16): bv16
  {
    Shifts(r ^ ((y as bv16) << 8), poly, 8)
  }

  /** The register after feeding `data` into a register holding `r`. */
  function CrcFrom(r: bv16, data: seq<byte>, poly: bv16): bv16
    decreases |data|
  {
    if |data| == 0 then r else CrcFrom(Absorb(r, data[0], poly), data[1..], poly)
  }

  /** The checksum of `data`. */
  function Crc(data: seq<byte>, poly: bv16): u16
  {
    CrcFrom(0xFFFF, data, poly) as int
  }

  /** prvCalculateCrc16: the byte loop; the bit loop inside it is ShiftEight. */
  method CalculateCrc16(data: seq<byte>, poly: bv16) returns (crc: u16)
    ensures crc == Crc(data, poly)
  {
    var r: bv16 := 0xFFFF;
    var i := 0;
    while i < |data|
      invariant 0 <= i <= |data|
      invariant CrcFrom(r, data[i..], poly) == CrcFrom(0xFFFF, data, poly)
    {
      ghost var before := r;
      r := r ^ ((data[i] as bv16) << 8);
      AbsorbShifts(before, data[i], poly);
      r := ShiftEight(r, poly);
      assert data[i..][1..] == data[i + 1..];
      i := i + 1;
    }
    crc := r as int;
  }

  /** The bit loop of prvCalculateCrc16: eight shifts of the register. */
  method ShiftEight(r0: bv16, poly: bv16) returns (r: bv16)
    ensures r == Shifts(r0, poly, 8)
  {
    r := r0;
    var bit := 0;
    ghost var left: nat := 8;
    while bit < 8
      invariant 0 <= bit <= 8 && left == 8 - bit
      invariant Shifts(r, poly, left) == Shifts(r0, poly, 8)
    {
      ghost var prev := r;
      if r & 0x8000 != 0 {
        r := (r << 1) ^ poly;
      } else {
        r := r << 1;
      }
      assert r == Shift(prev, poly);
      assert Shifts(prev, poly, left) == Shifts(r, poly, left - 1);
      bit := bit + 1;
      left := left - 1;
    }
  }

  lemma AbsorbShifts(r: bv16, y: byte, poly: bv16)
    ensures Absorb(r, y, poly) == Shifts(r ^ ((y as bv16) << 8), poly, 8)
  {
  }

  /** Feeding a concatenation is feeding its parts in turn. */
  lemma {:induction false} CrcFromAppend(r: bv16, a: seq<byte>, b: seq<byte>, poly: bv16)
    ensures CrcFrom(r, a + b, poly) == CrcFrom(CrcFrom(r, a, poly), b, poly)
    decreases |a|
  {
    if |a| > 0 {
      assert (a + b)[1..] == a[1..] + b;
      CrcFromAppend(Absorb(r, a[0], poly), a[1..], b, poly);
    } else {
      assert a + b == b;
    }
  }

  /** A register whose high byte is clear never feeds the generator back
      during eight shifts: the low byte just moves up. */
  lemma LowByteMovesUp(x: bv16, poly: bv16)
    requires x & 0xFF00 == 0
    ensures Shifts(x, poly, 8) == x << 8
  {
    var s1 := Shift(x, poly);
    assert s1 == x << 1;
    var s2 := Shift(s1, poly);
    assert s2 == x << 2;
    var s3 := Shift(s2, poly);
    assert s3 == x << 3;
    var s4 := Shift(s3, poly);
    assert s4 == x << 4;
    var s5 := Shift(s4, poly);
    assert s5 == x << 5;
    var s6 := Shift(s5, poly);
    assert s6 == x << 6;
    var s7 := Shift(s6, poly);
    assert s7 == x << 7;
    assert Shifts(x, poly, 8) == Shift(s7, poly);
  }

  lemma ZeroStaysZero(poly: bv16, n: nat)
    ensures Shifts(0, poly, n) == 0
    decreases n
  {
    if n > 0 {
      assert Shift(0, poly) == 0;
      ZeroStaysZero(poly, n - 1);
    }
  }

  /** The high and low byte of a register value, as EncodeU16 splits it. */
  lemma HighByte(r: bv16)
    ensures ((r as int / 0x100) as bv16) << 8 == r & 0xFF00
  {
    var h := r >> 8;
    HighHalf(r);
    BitsRoundTrip(h);
    assert (r as int / 0x100) as bv16 == h;
  }

  lemma LowByte(r: bv16)
    ensures ((r as int % 0x100) as bv16) == r & 0x00FF
  {
    var l := r & 0x00FF;
    Halves(r);
    HighHalf(r);
    BitsRoundTrip(l);
    assert r as int % 0x100 == l as int;
  }

  lemma BitsRoundTrip(x: bv16)
    ensures (x as int) as bv16 == x
  {
  }

  lemma HighHalf(r: bv16)
    ensures (r >> 8) as int == r as int / 0x100
  {
  }

  lemma Halves(r: bv16)
    ensures (r & 0x00FF) as int + ((r >> 8) as int) * 0x100 == r as int
  {
  }

  /** Absorbing the register's own high byte leaves its low byte on top. */
  lemma AbsorbHighByte(r: bv16, poly: bv16)
    ensures Absorb(r, r as int / 0x100, poly) == (r & 0x00FF) << 8
  {
    HighByte(r);
    var x := r ^ (((r as int / 0x100) as bv16) << 8);
    assert x == r & 0x00FF;
    LowByteMovesUp(x, poly);
  }

  /** Absorbing the low byte then clears the register. */
  lemma AbsorbLowByte(r: bv16, poly: bv16)
    ensures Absorb((r & 0x00FF) << 8, r as int % 0x100, poly) == 0
  {
    LowByte(r);
    assert ((r & 0x00FF) << 8) ^ (((r as int % 0x100) as bv16) << 8) == 0;
    ZeroStaysZero(poly, 8);
  }

  /** Feeding a register its own value, high byte first, clears it. */
  lemma OwnValueClears(r: bv16, poly: bv16)
    ensures CrcFrom(r, EncodeU16(r as int), poly) == 0
  {
    var tail := EncodeU16(r as int);
    var hi := r as int / 0x100;
    var lo := r as int % 0x100;
    assert tail == [hi, lo];
    var mid := (r & 0x00FF) << 8;
    AbsorbHighByte(r, poly);
    AbsorbLowByte(r, poly);
    assert Absorb(r, hi, poly) == mid && Absorb(mid, lo, poly) == 0;
    assert tail[1..] == [lo] && [lo][1..] == [];
    assert CrcFrom(mid, [lo], poly) == CrcFrom(0, [], poly);
  }

  /** Whatever the generator, appending a checksum high byte first to the
      data it covers makes the checksum of the whole zero. */
  lemma Residue(data: seq<byte>, poly: bv16)
    ensures Crc(data + EncodeU16(Crc(data, poly)), poly) == 0
  {
    var r := CrcFrom(0xFFFF, data, poly);
    CrcFromAppend(0xFFFF, data, EncodeU16(r as int), poly);
    OwnValueClears(r, poly);
  }
}
