/** The legacy protocol's 8-bit checksum: MSB-first CRC with register
    initialised to 0xFF, generator 0x42 (x^8 + x^6 + x) and no final XOR.
    Every shift is truncated to eight bits, which `bv8` does by itself. */
module Crc8 {
  import opened Bytes
  import SystemData

  /** One shift of the register: out goes bit 7, and the generator is folded
      in when that bit was set. */
  function Shift(r: bv8): bv8
  {
    (r << 1) ^ (if r & 0x80 != 0 then SystemData.CrcPolynomial else 0)
  }

  /** The eight shifts that consume one byte once it is XORed in. */
  function ByteStep(r: bv8): bv8
  {
    Shift(Shift(Shift(Shift(Shift(Shift(Shift(Shift(r))))))))
  }

  /** The register after absorbing the octet `y`. */
  function Absorb(r: bv8, y: bv8): bv8
  {
    ByteStep(r ^ y)
  }

  /** The register after feeding `data` into a register holding `r`. */
  function CrcFrom(r: bv8, data: seq<bv8>): bv8
    decreases |data|
  {
    if |data| == 0 then r else CrcFrom(Absorb(r, data[0]), data[1..])
  }

  /** The bytes as the octets the register works on. */
  function Octets(data: seq<byte>): (o: seq<bv8>)
    ensures |o| == |data|
    ensures forall i :: 0 <= i < |data| ==> o[i] == data[i] as bv8
  {
    seq(|data|, i requires 0 <= i < |data| => data[i] as bv8)
  }

  /** The checksum of `data` as a byte. */
  function Crc(data: seq<byte>): byte
  {
    CrcFrom(0xFF, Octets(data)) as int
  }

  /** `n` shifts in a row; the bit loop's view of `ByteStep`. */
  function Shifts(r: bv8, n: nat): bv8
    decreases n
  {
    if n == 0 then r else Shifts(Shift(r), n - 1)
  }

  lemma ByteStepShifts(r: bv8)
    ensures ByteStep(r) == Shifts(r, 8)
  {
  }

  /** CalcCrc: the two nested loops of the controller, byte by byte and bit
      by bit. The byte count is a `uint8_t`, so the source cannot be asked
      for more than 255 bytes. */
  method CalcCrc(data: seq<byte>) returns (crc: byte)
    requires |data| < 0x100
    ensures crc == Crc(data)
  {
    ghost var octets := Octets(data);
    var r: bv8 := 0xFF;
    var byteCtr := 0;
    while byteCtr < |data|
      invariant 0 <= byteCtr <= |data|
      invariant CrcFrom(r, octets[byteCtr..]) == CrcFrom(0xFF, octets)
    {
      var x: bv8 := data[byteCtr] as bv8;
      ghost var before := r;
      r := r ^ x;
      ByteStepShifts(r);
      var bit := 8;
      while bit > 0
        invariant 0 <= bit <= 8
        invariant Shifts(r, bit) == Absorb(before, x)
      {
        if r & 0x80 != 0 {
          r := (r << 1) ^ SystemData.CrcPolynomial;
        } else {
          r := r << 1;
        }
        bit := bit - 1;
      }
      assert octets[byteCtr..][1..] == octets[byteCtr + 1..];
      byteCtr := byteCtr + 1;
    }
    crc := r as int;
  }

  /** Feeding a concatenation is feeding its parts in turn. */
  lemma {:induction false} CrcFromAppend(r: bv8, a: seq<bv8>, b: seq<bv8>)
    ensures CrcFrom(r, a + b) == CrcFrom(CrcFrom(r, a), b)
    decreases |a|
  {
    if |a| > 0 {
      assert (a + b)[1..] == a[1..] + b;
      CrcFromAppend(Absorb(r, a[0]), a[1..], b);
    } else {
      assert a + b == b;
    }
  }

  // ---------------------------------------------------------------------
  // The fixed six-byte lock and unlock commands sent to the display

  const LockCommand: seq<byte> := [0x43, 0, 0x4C, 0, 0x4C, 0x88]
  const UnlockCommand: seq<byte> := [0x43, 0, 0x4C, 0, 0x55, 0x34]

  /** Consumes one octet of `data` when the next register value is known. */
  lemma Feed(r: bv8, data: seq<bv8>, r': bv8)
    requires |data| > 0 && Absorb(r, data[0]) == r'
    ensures CrcFrom(r, data) == CrcFrom(r', data[1..])
  {
  }

  /** Both fixed commands are six bytes: 'C', 0, 'L', 0, then 'L' (lock) or
      'U' (unlock), and end with the checksum of the five bytes before it. */
  lemma CommandChecksums()
    ensures |LockCommand| == |UnlockCommand| == SystemData.MessageLengthIotCommand
    ensures LockCommand[..4] == UnlockCommand[..4] == ['C' as byte, 0, 'L' as byte, 0]
    ensures LockCommand[4] == 'L' as byte && UnlockCommand[4] == 'U' as byte
    ensures Crc(LockCommand[..5]) == LockCommand[5] == 0x88
    ensures Crc(UnlockCommand[..5]) == UnlockCommand[5] == 0x34
  {
    LockChecksum();
    UnlockChecksum();
  }

  lemma LockChecksum()
    ensures Crc(LockCommand[..5]) == LockCommand[5]
  {
    var m: seq<bv8> := [0x43, 0, 0x4C, 0, 0x4C];
    assert Octets(LockCommand[..5]) == m;
    Feed(0xFF, m, 0xF6);
    Feed(0xF6, m[1..], 0x0C);
    Feed(0x0C, m[2..], 0xEA);
    assert m[2..][1..] == m[3..];
    Feed(0xEA, m[3..], 0xB8);
    assert m[3..][1..] == m[4..];
    Feed(0xB8, m[4..], 0x88);
    assert m[4..][1..] == [];
  }

  lemma UnlockChecksum()
    ensures Crc(UnlockCommand[..5]) == UnlockCommand[5]
  {
    var m: seq<bv8> := [0x43, 0, 0x4C, 0, 0x55];
    assert Octets(UnlockCommand[..5]) == m;
    Feed(0xFF, m, 0xF6);
    Feed(0xF6, m[1..], 0x0C);
    Feed(0x0C, m[2..], 0xEA);
    assert m[2..][1..] == m[3..];
    Feed(0xEA, m[3..], 0xB8);
    assert m[3..][1..] == m[4..];
    Feed(0xB8, m[4..], 0x34);
    assert m[4..][1..] == [];
  }

  // ---------------------------------------------------------------------
  // Error detection

  /** A message whose last byte is the checksum of the bytes before it, as
      the framer demands of every unit and skid message. */
  predicate Framed(m: seq<byte>)
  {
    0 < |m| && m[|m| - 1] == Crc(m[..|m| - 1])
  }

  /** The octet with only bit `k` set. */
  function Mask(k: nat): (d: bv8)
    requires k < 8
    ensures d != 0
    ensures k == 0 <==> d == 1
    ensures k > 0 ==> d & 1 == 0
  {
    [0x01, 0x02, 0x04, 0x08, 0x10, 0x20, 0x40, 0x80][k]
  }

  /** `m` with bit `k` of byte `i` inverted. */
  function FlipBit(m: seq<byte>, i: nat, k: nat): (m': seq<byte>)
    requires i < |m| && k < 8
    ensures |m'| == |m| && m'[i] != m[i]
    ensures forall j :: 0 <= j < |m| && j != i ==> m'[j] == m[j]
  {
    FlipChangesByte(m[i], Mask(k));
    m[i := ((m[i] as bv8) ^ Mask(k)) as int]
  }

  /** XOR with a nonzero octet changes a byte. */
  lemma FlipChangesByte(x: byte, d: bv8)
    requires d != 0
    ensures ((x as bv8) ^ d) as int != x
  {
    var b := x as bv8;
    assert b ^ d != b;
    assert (b as int) as bv8 == b;
  }

  lemma ShiftLinear(a: bv8, b: bv8)
    ensures Shift(a ^ b) == Shift(a) ^ Shift(b)
  {
    assert (a ^ b) << 1 == (a << 1) ^ (b << 1);
    assert ((a ^ b) & 0x80 != 0) == ((a & 0x80 != 0) != (b & 0x80 != 0));
  }

  lemma {:induction false} ShiftsLinear(a: bv8, b: bv8, n: nat)
    ensures Shifts(a ^ b, n) == Shifts(a, n) ^ Shifts(b, n)
    decreases n
  {
    if n > 0 {
      ShiftLinear(a, b);
      ShiftsLinear(Shift(a), Shift(b), n - 1);
    }
  }

  /** The register update is linear over XOR: the CRC of a difference is
      the difference of the CRCs. */
  lemma ByteStepLinear(a: bv8, b: bv8)
    ensures ByteStep(a ^ b) == ByteStep(a) ^ ByteStep(b)
  {
    ShiftsLinear(a, b, 8);
    ByteStepShifts(a);
    ByteStepShifts(b);
    ByteStepShifts(a ^ b);
  }

  /** A register difference that can never become zero again: nonzero with
      bit 0 clear. The generator has bit 1 set and bit 0 clear, so a shift
      keeps such a difference nonzero. */
  ghost predicate Persistent(d: bv8)
  {
    d != 0 && d & 1 == 0
  }

  lemma ShiftKeeps(d: bv8)
    requires Persistent(d)
    ensures Persistent(Shift(d))
  {
  }

  lemma {:induction false} ShiftsKeep(d: bv8, n: nat)
    requires Persistent(d)
    ensures Persistent(Shifts(d, n))
    decreases n
  {
    if n > 0 {
      ShiftKeeps(d);
      ShiftsKeep(Shift(d), n - 1);
    }
  }

  /** One flipped bit fed in leaves a persistent difference in the register. */
  lemma SingleBitPersists(k: nat)
    requires k < 8
    ensures Persistent(ByteStep(Mask(k)))
  {
    var d := Mask(k);
    if k == 0 {
      assert Shift(d) == 2;
      ShiftsKeep(2, 7);
    } else {
      ShiftsKeep(d, 8);
    }
    ByteStepShifts(d);
  }

  /** Absorbing the same octet keeps a persistent difference persistent. */
  lemma AbsorbKeeps(r1: bv8, r2: bv8, y: bv8)
    requires Persistent(r1 ^ r2)
    ensures Persistent(Absorb(r1, y) ^ Absorb(r2, y))
  {
    assert (r1 ^ y) ^ (r2 ^ y) == r1 ^ r2;
    ByteStepLinear(r1 ^ y, r2 ^ y);
    ShiftsKeep(r1 ^ r2, 8);
    ByteStepShifts(r1 ^ r2);
  }

  /** Absorbing two octets `d` apart into the same register leaves the
      difference `ByteStep(d)`. */
  lemma AbsorbFlip(r: bv8, y: bv8, d: bv8)
    requires Persistent(ByteStep(d))
    ensures Persistent(Absorb(r, y) ^ Absorb(r, y ^ d))
  {
    assert (r ^ y) ^ (r ^ (y ^ d)) == d;
    ByteStepLinear(r ^ y, r ^ (y ^ d));
  }

  /** Two registers that differ persistently still differ after any input. */
  lemma {:induction false} DifferencePersists(r1: bv8, r2: bv8, data: seq<bv8>)
    requires Persistent(r1 ^ r2)
    ensures CrcFrom(r1, data) != CrcFrom(r2, data)
    decreases |data|
  {
    if |data| > 0 {
      AbsorbKeeps(r1, r2, data[0]);
      DifferencePersists(Absorb(r1, data[0]), Absorb(r2, data[0]), data[1..]);
    }
  }

  /** Registers one absorbed single-bit difference apart never meet again. */
  lemma RegistersApart(s: bv8, y: bv8, k: nat, b: seq<bv8>)
    requires k < 8
    ensures CrcFrom(Absorb(s, y), b) != CrcFrom(Absorb(s, y ^ Mask(k)), b)
  {
    SingleBitPersists(k);
    AbsorbFlip(s, y, Mask(k));
    DifferencePersists(Absorb(s, y), Absorb(s, y ^ Mask(k)), b);
  }

  lemma CrcFromSplice(a: seq<bv8>, y: bv8, b: seq<bv8>)
    ensures CrcFrom(0xFF, a + [y] + b) == CrcFrom(Absorb(CrcFrom(0xFF, a), y), b)
  {
    CrcFromAppend(0xFF, a + [y], b);
    CrcFromAppend(0xFF, a, [y]);
    assert [y][1..] == [];
  }

  /** Octet strings one bit apart have different CRC registers. */
  lemma OctetFlipChangesCrc(a: seq<bv8>, y: bv8, k: nat, b: seq<bv8>)
    requires k < 8
    ensures CrcFrom(0xFF, a + [y] + b) != CrcFrom(0xFF, a + [y ^ Mask(k)] + b)
  {
    CrcFromSplice(a, y, b);
    CrcFromSplice(a, y ^ Mask(k), b);
    RegistersApart(CrcFrom(0xFF, a), y, k, b);
  }

  /** The octets of `p` around position `i`. */
  lemma OctetsSplice(p: seq<byte>, i: nat)
    requires i < |p|
    ensures Octets(p) == Octets(p[..i]) + [p[i] as bv8] + Octets(p[i + 1..])
  {
  }

  /** The octets of `p` with a bit flipped, around position `i`. */
  lemma OctetsOfFlip(p: seq<byte>, i: nat, k: nat)
    requires i < |p| && k < 8
    ensures Octets(FlipBit(p, i, k)) == Octets(p[..i]) + [(p[i] as bv8) ^ Mask(k)] + Octets(p[i + 1..])
  {
    var p' := FlipBit(p, i, k);
    OctetsSplice(p', i);
    assert p'[..i] == p[..i] && p'[i + 1..] == p[i + 1..];
    var v := (p[i] as bv8) ^ Mask(k);
    assert p'[i] as bv8 == v by {
      assert (v as int) as bv8 == v;
    }
  }

  lemma DistinctRegisters(u: bv8, v: bv8)
    requires u != v
    ensures u as int != v as int
  {
  }

  /** Inverting one bit of a payload byte changes the checksum. */
  lemma FlipChangesCrc(p: seq<byte>, i: nat, k: nat)
    requires i < |p| && k < 8
    ensures Crc(FlipBit(p, i, k)) != Crc(p)
  {
    OctetsSplice(p, i);
    OctetsOfFlip(p, i, k);
    OctetFlipChangesCrc(Octets(p[..i]), p[i] as bv8, k, Octets(p[i + 1..]));
    DistinctRegisters(CrcFrom(0xFF, Octets(p)), CrcFrom(0xFF, Octets(FlipBit(p, i, k))));
  }

  /** Any single-bit error in a framed message, in the payload or in the
      checksum byte itself, makes the checksum comparison fail. */
  lemma SingleBitErrorDetected(m: seq<byte>, i: nat, k: nat)
    requires Framed(m) && i < |m| && k < 8
    ensures !Framed(FlipBit(m, i, k))
  {
    if i == |m| - 1 {
      ChecksumFlipDetected(m, k);
    } else {
      PayloadFlipDetected(m, i, k);
    }
  }

  /** A flipped bit in the checksum byte: the covered bytes are as before,
      so the old checksum still applies and the byte no longer matches it. */
  lemma ChecksumFlipDetected(m: seq<byte>, k: nat)
    requires Framed(m) && k < 8
    ensures !Framed(FlipBit(m, |m| - 1, k))
  {
    var n := |m|;
    var m' := FlipBit(m, n - 1, k);
    assert |m'| == n;
    assert m'[..n - 1] == m[..n - 1];
    assert m'[n - 1] != m[n - 1];
  }

  /** A flipped bit in the covered bytes: the checksum byte is as before,
      but the checksum of the covered bytes changes. */
  lemma PayloadFlipDetected(m: seq<byte>, i: nat, k: nat)
    requires Framed(m) && i < |m| - 1 && k < 8
    ensures !Framed(FlipBit(m, i, k))
  {
    var n := |m|;
    var m' := FlipBit(m, i, k);
    assert |m'| == n;
    var before := Crc(m[..n - 1]);
    var after := Crc(m'[..n - 1]);
    assert after != before by {
      FlipBeforeLast(m, i, k);
      FlipChangesCrc(m[..n - 1], i, k);
    }
    assert m'[n - 1] == m[n - 1];
    ChecksumDiffers(m', m[n - 1]);
  }

  /** A message whose last byte is not the checksum of the rest is not framed. */
  lemma ChecksumDiffers(m: seq<byte>, c: byte)
    requires 0 < |m| && m[|m| - 1] == c && c != Crc(m[..|m| - 1])
    ensures !Framed(m)
  {
  }

  /** Flipping a bit before the last byte flips it in the part the checksum covers. */
  lemma FlipBeforeLast(m: seq<byte>, i: nat, k: nat)
    requires i < |m| - 1 && k < 8
    ensures FlipBit(m, i, k)[..|m| - 1] == FlipBit(m[..|m| - 1], i, k)
  {
    var a := FlipBit(m, i, k)[..|m| - 1];
    var b := FlipBit(m[..|m| - 1], i, k);
    forall j | 0 <= j < |m| - 1
      ensures a[j] == b[j]
    {
    }
  }
}
