/** Octets and the integer encodings both wire formats are built from:
    big-endian unsigned fields, two's-complement reinterpretation of a
    32-bit pattern, the host-order (little-endian) 16-bit read used for the
    CRC-16 trailer, single-bit masks, and Q16.16 fixed point as an exact
    rational. */
module Bytes {

  type byte = x: int | 0 <= x < 0x100
  type u16 = x: int | 0 <= x < 0x1_0000
  type u32 = x: int | 0 <= x < 0x1_0000_0000
  type i32 = x: int | -0x8000_0000 <= x < 0x8000_0000

  /** `((uint16_t)s[at] << 8) | s[at + 1]` */
  function BeU16(s: seq<byte>, at: nat): u16
    requires at + 2 <= |s|
  {
    (s[at] as int) * 0x100 + s[at + 1]
  }

  /** The four-byte big-endian accumulation the decoders perform into a uint32_t. */
  function BeU32(s: seq<byte>, at: nat): u32
    requires at + 4 <= |s|
  {
    (s[at] as int) * 0x100_0000 + (s[at + 1] as int) * 0x1_0000 + (s[at + 2] as int) * 0x100 + s[at + 3]
  }

  /** The int32_t holding the same 32-bit pattern as `u` (two's complement). */
  function AsSigned(u: u32): (v: i32)
    ensures v < 0 <==> u >= 0x8000_0000
    ensures (v - u) % 0x1_0000_0000 == 0
  {
    if u < 0x8000_0000 then u else u - 0x1_0000_0000
  }

  /** The uint32_t holding the same 32-bit pattern as `v`. */
  function AsUnsigned(v: i32): (u: u32)
    ensures AsSigned(u) == v
  {
    if v < 0 then v + 0x1_0000_0000 else v
  }

  /** The same four bytes accumulated into an int32_t. */
  function BeS32(s: seq<byte>, at: nat): i32
    requires at + 4 <= |s|
  {
    AsSigned(BeU32(s, at))
  }

  /** `*(uint16_t*)&s[at]` on a little-endian core. */
  function LeU16(s: seq<byte>, at: nat): u16
    requires at + 2 <= |s|
  {
    (s[at] as int) + (s[at + 1] as int) * 0x100
  }

  function EncodeU16(v: u16): (r: seq<byte>)
    ensures |r| == 2 && BeU16(r, 0) == v
  {
    [v / 0x100, v % 0x100]
  }

  /** The four bytes of `v`, most significant first, each split off by one
      division by 256. */
  function EncodeU32(v: u32): (r: seq<byte>)
    ensures |r| == 4 && BeU32(r, 0) == v
  {
    var a := v / 0x100;
    var c := a / 0x100;
    assert v == a * 0x100 + v % 0x100 && a == c * 0x100 + a % 0x100 && c == (c / 0x100) * 0x100 + c % 0x100;
    [c / 0x100, c % 0x100, a % 0x100, v % 0x100]
  }

  function EncodeS32(v: i32): (r: seq<byte>)
    ensures |r| == 4 && BeS32(r, 0) == v
  {
    EncodeU32(AsUnsigned(v))
  }

  /** Decoding then re-encoding gives back the bytes: the encoders are onto. */
  lemma BeU16Bytes(s: seq<byte>, at: nat)
    requires at + 2 <= |s|
    ensures EncodeU16(BeU16(s, at)) == s[at..at + 2]
  {
  }

  lemma BeU32Bytes(s: seq<byte>, at: nat)
    requires at + 4 <= |s|
    ensures EncodeU32(BeU32(s, at)) == s[at..at + 4]
  {
    var v := BeU32(s, at);
    var e := EncodeU32(v);
    assert e[0] == s[at];
    assert e[1] == s[at + 1];
    assert e[2] == s[at + 2];
    assert e[3] == s[at + 3];
  }

  lemma BeS32Bytes(s: seq<byte>, at: nat)
    requires at + 4 <= |s|
    ensures EncodeS32(BeS32(s, at)) == s[at..at + 4]
  {
    BeU32Bytes(s, at);
  }

  /** A 32-bit field's top bit is the top bit of its first byte. */
  lemma TopBit(buf: seq<byte>, at: nat)
    requires at + 4 <= |buf|
    ensures BeU32(buf, at) >= 0x8000_0000 <==> buf[at] >= 0x80
  {
  }

  /** A field whose bytes are an encoding decodes to the encoded value. */
  lemma BeU32Of(s: seq<byte>, at: nat, v: u32)
    requires at + 4 <= |s| && s[at..at + 4] == EncodeU32(v)
    ensures BeU32(s, at) == v
  {
    assert BeU32(s, at) == BeU32(s[at..at + 4], 0);
  }

  lemma BeS32Of(s: seq<byte>, at: nat, v: i32)
    requires at + 4 <= |s| && s[at..at + 4] == EncodeS32(v)
    ensures BeS32(s, at) == v
  {
    BeU32Of(s, at, AsUnsigned(v));
  }

  lemma BeU16Of(s: seq<byte>, at: nat, v: u16)
    requires at + 2 <= |s| && s[at..at + 2] == EncodeU16(v)
    ensures BeU16(s, at) == v
  {
    assert BeU16(s, at) == BeU16(s[at..at + 2], 0);
  }

  // ---------------------------------------------------------------------
  // Buffers and the fields laid out in them

  /** Two adjacent slices make up the slice that spans both. */
  lemma SliceJoin(s: seq<byte>, a: nat, b: nat, c: nat)
    requires a <= b <= c <= |s|
    ensures s[a..b] + s[b..c] == s[a..c]
  {
  }

  /** A slice holding `front + back` holds `front` first and `back` after it. */
  lemma SliceSplit(s: seq<byte>, at: nat, front: seq<byte>, back: seq<byte>)
    requires at + |front| + |back| <= |s| && s[at..at + |front| + |back|] == front + back
    ensures s[at..at + |front|] == front && s[at + |front|..at + |front| + |back|] == back
  {
    assert s[at..at + |front|] == (front + back)[..|front|];
    assert s[at + |front|..at + |front| + |back|] == (front + back)[|front|..];
  }

  /** A slice of a slice is a slice of the whole. */
  lemma SliceOfSlice(s: seq<byte>, a: nat, b: nat, c: nat, d: nat)
    requires a <= b <= |s| && c <= d <= b - a
    ensures s[a..b][c..d] == s[a + c..a + d]
  {
    forall k | 0 <= k < d - c
      ensures s[a..b][c..d][k] == s[a + c..a + d][k]
    {
    }
  }

  /** A buffer of `n` zero bytes, as after memset. */
  function ZeroBytes(n: nat): (z: seq<byte>)
    ensures |z| == n && forall j :: 0 <= j < n ==> z[j] == 0
  {
    seq(n, _ => 0)
  }

  /** `buf` with `bytes` copied in at `at`. */
  function Put(buf: seq<byte>, at: nat, bytes: seq<byte>): (r: seq<byte>)
    requires at + |bytes| <= |buf|
    ensures |r| == |buf|
    ensures r[at..at + |bytes|] == bytes
    ensures forall j :: 0 <= j < |buf| && !(at <= j < at + |bytes|) ==> r[j] == buf[j]
  {
    buf[..at] + bytes + buf[at + |bytes|..]
  }

  /** What lies before a copied-in field, followed by the field. */
  lemma PutPrefix(buf: seq<byte>, at: nat, bytes: seq<byte>)
    requires at + |bytes| <= |buf|
    ensures Put(buf, at, bytes)[..at + |bytes|] == buf[..at] + bytes
  {
    assert (buf[..at] + bytes + buf[at + |bytes|..])[..at + |bytes|] == buf[..at] + bytes;
  }

  /** A field's place in a record: its first byte and its width. */
  datatype Span = Span(at: nat, width: nat)
  {
    function End(): nat { at + width }
  }

  /** No byte lies in both fields. */
  predicate Apart(a: Span, b: Span)
  {
    a.End() <= b.at || b.End() <= a.at
  }

  /** Every field ends inside a buffer of `n` bytes. */
  predicate Inside(spans: seq<Span>, n: nat)
  {
    forall k :: 0 <= k < |spans| ==> spans[k].End() <= n
  }

  /** No two fields overlap. */
  predicate Separate(spans: seq<Span>)
  {
    forall j, k :: 0 <= j < k < |spans| ==> Apart(spans[j], spans[k])
  }

  /** Chunk `k` has the width of field `k`. */
  predicate Shaped(spans: seq<Span>, chunks: seq<seq<byte>>)
  {
    |spans| == |chunks| && forall k :: 0 <= k < |spans| ==> |chunks[k]| == spans[k].width
  }

  /** `buf` with each chunk copied into its field, first field first. */
  function PutAll(buf: seq<byte>, spans: seq<Span>, chunks: seq<seq<byte>>): (r: seq<byte>)
    requires Shaped(spans, chunks) && Inside(spans, |buf|)
    ensures |r| == |buf|
    decreases |spans|
  {
    if |spans| == 0 then buf else PutAll(Put(buf, spans[0].at, chunks[0]), spans[1..], chunks[1..])
  }

  /** Bytes outside every field keep their value. */
  lemma {:induction false} PutAllOutside(buf: seq<byte>, spans: seq<Span>, chunks: seq<seq<byte>>, j: nat)
    requires Shaped(spans, chunks) && Inside(spans, |buf|) && j < |buf|
    requires forall k :: 0 <= k < |spans| ==> !(spans[k].at <= j < spans[k].End())
    ensures PutAll(buf, spans, chunks)[j] == buf[j]
    decreases |spans|
  {
    if |spans| > 0 {
      PutAllOutside(Put(buf, spans[0].at, chunks[0]), spans[1..], chunks[1..], j);
    }
  }

  /** With no two fields overlapping, every field holds its own chunk afterwards. */
  lemma {:induction false} PutAllReads(buf: seq<byte>, spans: seq<Span>, chunks: seq<seq<byte>>, k: nat)
    requires Shaped(spans, chunks) && Inside(spans, |buf|) && Separate(spans) && k < |spans|
    ensures PutAll(buf, spans, chunks)[spans[k].at..spans[k].End()] == chunks[k]
    decreases |spans|
  {
    var b1 := Put(buf, spans[0].at, chunks[0]);
    var r := PutAll(buf, spans, chunks);
    if k == 0 {
      forall j | spans[0].at <= j < spans[0].End()
        ensures r[j] == b1[j]
      {
        forall m | 0 <= m < |spans[1..]|
          ensures !(spans[1..][m].at <= j < spans[1..][m].End())
        {
          assert Apart(spans[0], spans[m + 1]);
        }
        PutAllOutside(b1, spans[1..], chunks[1..], j);
      }
      assert r[spans[0].at..spans[0].End()] == b1[spans[0].at..spans[0].End()];
    } else {
      assert Separate(spans[1..]) by {
        forall a, c | 0 <= a < c < |spans[1..]|
          ensures Apart(spans[1..][a], spans[1..][c])
        {
          assert Apart(spans[a + 1], spans[c + 1]);
        }
      }
      PutAllReads(b1, spans[1..], chunks[1..], k - 1);
    }
  }

  /** Field `k` of `s` holds chunk `k`, for every field. */
  predicate Carries(s: seq<byte>, spans: seq<Span>, chunks: seq<seq<byte>>)
    requires Shaped(spans, chunks) && Inside(spans, |s|)
  {
    forall k :: 0 <= k < |spans| ==> s[spans[k].at..spans[k].End()] == chunks[k]
  }

  lemma PutAllCarries(buf: seq<byte>, spans: seq<Span>, chunks: seq<seq<byte>>)
    requires Shaped(spans, chunks) && Inside(spans, |buf|) && Separate(spans)
    ensures Carries(PutAll(buf, spans, chunks), spans, chunks)
  {
    forall k | 0 <= k < |spans|
      ensures PutAll(buf, spans, chunks)[spans[k].at..spans[k].End()] == chunks[k]
    {
      PutAllReads(buf, spans, chunks, k);
    }
  }

  /** Copying into every field what it already holds changes nothing. */
  lemma {:induction false} PutAllKeeps(buf: seq<byte>, spans: seq<Span>, chunks: seq<seq<byte>>)
    requires Shaped(spans, chunks) && Inside(spans, |buf|) && Carries(buf, spans, chunks)
    ensures PutAll(buf, spans, chunks) == buf
    decreases |spans|
  {
    if |spans| > 0 {
      var b1 := Put(buf, spans[0].at, chunks[0]);
      assert b1 == buf;
      assert Carries(buf, spans[1..], chunks[1..]) by {
        forall k | 0 <= k < |spans[1..]|
          ensures buf[spans[1..][k].at..spans[1..][k].End()] == chunks[1..][k]
        {
          assert spans[1..][k] == spans[k + 1];
        }
      }
      PutAllKeeps(buf, spans[1..], chunks[1..]);
    }
  }

  /** Fields that lie inside a prefix are carried by anything that extends it. */
  lemma CarriesExtended(s: seq<byte>, t: seq<byte>, spans: seq<Span>, chunks: seq<seq<byte>>)
    requires Shaped(spans, chunks) && Inside(spans, |s|) && Carries(s, spans, chunks)
    requires |s| <= |t| && t[..|s|] == s
    ensures Inside(spans, |t|) && Carries(t, spans, chunks)
  {
    forall k | 0 <= k < |spans|
      ensures t[spans[k].at..spans[k].End()] == chunks[k]
    {
      assert t[spans[k].at..spans[k].End()] == s[spans[k].at..spans[k].End()];
    }
  }

  /** A Q16.16 value: the 32-bit integer divided by 2^16, exactly. */
  function Q16(raw: int): real
  {
    raw as real / 65536.0
  }

  lemma Q16Exact(raw: int)
    ensures Q16(raw) * 65536.0 == raw as real
    ensures raw >= 0 <==> Q16(raw) >= 0.0
  {
  }

  /** Distinct raw values never decode to the same engineering value. */
  lemma Q16Injective(a: int, b: int)
    requires Q16(a) == Q16(b)
    ensures a == b
  {
    Q16Exact(a);
    Q16Exact(b);
  }

  /** Bit `k` of `x`: the test `(x & (1 << k)) != 0` the status decoders make. */
  function HasBit(x: nat, k: nat): bool
    decreases k
  {
    if k == 0 then x % 2 == 1 else HasBit(x / 2, k - 1)
  }

  /** The field whose bit `k` is set exactly when `bits[k]` holds, as the
      controller packs component states into a status byte. */
  function PackBits(bits: seq<bool>): (x: nat)
    ensures x < Pow2(|bits|)
    decreases |bits|
  {
    if |bits| == 0 then 0 else (if bits[0] then 1 else 0) + 2 * PackBits(bits[1..])
  }

  /** The low `n` bits of `x`, bit 0 first. */
  function Bits(x: nat, n: nat): (bs: seq<bool>)
    ensures |bs| == n
    ensures forall k :: 0 <= k < n ==> bs[k] == HasBit(x, k)
    decreases n
  {
    if n == 0 then [] else [x % 2 == 1] + Bits(x / 2, n - 1)
  }

  /** Unpacking a packed field gives back the states it was packed from. */
  lemma BitsOfPack(bits: seq<bool>)
    ensures Bits(PackBits(bits), |bits|) == bits
  {
    forall k | 0 <= k < |bits| {
      HasBitOfPack(bits, k);
    }
  }

  function Pow2(n: nat): (r: nat)
    ensures r >= 1
  {
    if n == 0 then 1 else 2 * Pow2(n - 1)
  }

  /** Testing bit `k` of a packed field recovers the `k`-th state, and bits
      above the packed ones are clear. */
  lemma {:induction false} HasBitOfPack(bits: seq<bool>, k: nat)
    ensures HasBit(PackBits(bits), k) == (k < |bits| && bits[k])
    decreases k
  {
    if |bits| == 0 {
      ZeroHasNoBits(k);
    } else if k > 0 {
      var x := PackBits(bits);
      assert x / 2 == PackBits(bits[1..]);
      HasBitOfPack(bits[1..], k - 1);
    }
  }

  lemma {:induction false} ZeroHasNoBits(k: nat)
    ensures !HasBit(0, k)
    decreases k
  {
    if k > 0 {
      ZeroHasNoBits(k - 1);
    }
  }
}
