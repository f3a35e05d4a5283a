/** The variable-length byte format of the data that gets hashed and signed. */
module Serialization {
  import opened MachineInts
  import opened Common

  type byte = x: int | 0 <= x < 256

  type Bytes = seq<byte>

  // ----------------------------------------------------------- fixed width

  /** `k` bytes, most significant first. */
  function BigEndian(v: nat, k: nat): (r: Bytes)
    ensures |r| == k
  {
    if k == 0 then [] else BigEndian(v / 256, k - 1) + [v % 256]
  }

  function FromBigEndian(b: Bytes): nat {
    if b == [] then 0 else FromBigEndian(b[..|b| - 1]) * 256 + b[|b| - 1]
  }

  function Pow256(k: nat): nat {
    if k == 0 then 1 else 256 * Pow256(k - 1)
  }

  lemma {:induction false} BigEndianInverse(v: nat, k: nat)
    requires v < Pow256(k)
    ensures FromBigEndian(BigEndian(v, k)) == v
  {
    if k > 0 {
      BigEndianInverse(v / 256, k - 1);
      assert BigEndian(v, k)[..k - 1] == BigEndian(v / 256, k - 1);
    }
  }

  lemma OneMoreByte(x: nat, y: nat, p: nat, r: nat)
    requires y == x * p + r
    ensures y * 256 == x * (256 * p) + r * 256
  {
  }

  /** The first byte is the most significant one. */
  lemma {:induction false} FirstByteIsHighest(b: Bytes)
    requires b != []
    ensures FromBigEndian(b) == b[0] * Pow256(|b| - 1) + FromBigEndian(b[1..])
  {
    var n := |b| - 1;
    if n > 0 {
      FirstByteIsHighest(b[..n]);
      assert b[..n][1..] == b[1..][..n - 1];
      OneMoreByte(b[0], FromBigEndian(b[..n]), Pow256(n - 1), FromBigEndian(b[..n][1..]));
    }
  }

  lemma Powers()
    ensures Pow256(2) == 0x1_0000 && Pow256(4) == U32_MOD && Pow256(8) == U64_MOD
  {
  }

  // -------------------------------------------------------- variable width

  function VarU64(v: u64): (r: Bytes)
    ensures |r| == VarU64Length(v)
  {
    if v < 0xFD then [v]
    else if v <= 0xFFFF then [0xFD] + BigEndian(v, 2)
    else if v <= 0xFFFF_FFFF then [0xFE] + BigEndian(v, 4)
    else [0xFF] + BigEndian(v, 8)
  }

  function VarU64Length(v: u64): nat {
    if v < 0xFD then 1 else if v <= 0xFFFF then 3 else if v <= 0xFFFF_FFFF then 5 else 9
  }

  /** The writers' byte strings are never longer than a 64-bit length. */
  function VarBytes(b: Bytes): Bytes
    requires |b| < U64_MOD
  {
    VarU64(|b|) + b
  }

  /** What a read of `k` big-endian bytes gives and leaves; None where the source panics. */
  function TakeFixed(b: Bytes, k: nat): Option<(nat, Bytes)> {
    if |b| < k then None else Some((FromBigEndian(b[..k]), b[k..]))
  }

  /** The reader as written: a first byte below 0xFD is dropped and the next byte taken instead. */
  function TakeVarU64(b: Bytes): Option<(nat, Bytes)> {
    if b == [] then None
    else if b[0] == 0xFD then TakeFixed(b[1..], 2)
    else if b[0] == 0xFE then TakeFixed(b[1..], 4)
    else if b[0] == 0xFF then TakeFixed(b[1..], 8)
    else TakeFixed(b[1..], 1)
  }

  function TakeVarBytes(b: Bytes): Option<(Bytes, Bytes)> {
    var len := TakeVarU64(b);
    if len.None? || len.value.0 > |len.value.1| then None
    else Some((len.value.1[..len.value.0], len.value.1[len.value.0..]))
  }

  // ---------------------------------------------- the byte vector in place

  class Buffer {
    var data: Bytes

    constructor (data: Bytes)
      ensures this.data == data
    {
      this.data := data;
    }

    method WriteBytes(b: Bytes)
      modifies this
      ensures data == old(data) + b
    {
      data := data + b;
    }

    method WriteU8(v: byte)
      modifies this
      ensures data == old(data) + [v]
    {
      data := data + [v];
    }

    method WriteU32(v: u32)
      modifies this
      ensures data == old(data) + BigEndian(v, 4)
    {
      data := data + BigEndian(v, 4);
    }

    method WriteBool(v: bool)
      modifies this
      ensures data == old(data) + [if v then 1 else 0]
    {
      WriteU8(if v then 1 else 0);
    }

    method WriteVarU64(v: u64)
      modifies this
      ensures data == old(data) + VarU64(v)
    {
      var buf: Bytes;
      if v < 0xFD {
        buf := [v];
      } else if v <= 0xFFFF {
        buf := [0xFD] + BigEndian(v, 2);
      } else if v <= 0xFFFF_FFFF {
        buf := [0xFE] + BigEndian(v, 4);
      } else {
        buf := [0xFF] + BigEndian(v, 8);
      }
      data := data + buf;
    }

    method WriteVarBytes(b: Bytes)
      requires |b| < U64_MOD
      modifies this
      ensures data == old(data) + VarBytes(b)
    {
      WriteVarU64(|b|);
      data := data + b;
    }

    /** Drains `k` bytes; None, with the data as it was, where the source panics. */
    method ReadFixed(k: nat) returns (v: Option<nat>)
      modifies this
      ensures match TakeFixed(old(data), k)
              case None => v == None && data == old(data)
              case Some((x, rest)) => v == Some(x) && data == rest
    {
      if |data| < k {
        return None;
      }
      v := Some(FromBigEndian(data[..k]));
      data := data[k..];
    }

    method ReadVarU64() returns (v: Option<nat>)
      modifies this
      ensures v.None? <==> TakeVarU64(old(data)).None?
      ensures v.Some? ==> TakeVarU64(old(data)) == Some((v.value, data))
    {
      var size := ReadFixed(1);
      if size.None? {
        return None;
      }
      assert FromBigEndian(old(data)[..1]) == old(data)[0];
      if size.value == 0xFD {
        v := ReadFixed(2);
      } else if size.value == 0xFE {
        v := ReadFixed(4);
      } else if size.value == 0xFF {
        v := ReadFixed(8);
      } else {
        v := ReadFixed(1);
      }
    }

    method ReadVarBytes() returns (b: Option<Bytes>)
      modifies this
      ensures b.None? <==> TakeVarBytes(old(data)).None?
      ensures b.Some? ==> TakeVarBytes(old(data)) == Some((b.value, data))
    {
      var len := ReadVarU64();
      if len.None? || len.value > |data| {
        return None;
      }
      b := Some(data[..len.value]);
      data := data[len.value..];
    }
  }

  // ------------------------------------------------------------ round trip

  lemma FixedRoundTrip(v: nat, k: nat, rest: Bytes)
    requires v < Pow256(k)
    ensures TakeFixed(BigEndian(v, k) + rest, k) == Some((v, rest))
  {
  }

  /** The one-byte form is read as two bytes: what comes back is the byte after it. */
  lemma OneByteForm(v: u64, rest: Bytes)
    requires v < 0xFD
    ensures TakeVarU64(VarU64(v) + rest) == if rest == [] then None else Some((rest[0], rest[1..]))
    ensures TakeVarU64(VarU64(v) + rest) != Some((v, rest))
  {
    assert (VarU64(v) + rest)[1..] == rest;
    if rest != [] {
      assert FromBigEndian(rest[..1]) == rest[0];
      assert |rest[1..]| != |rest|;
    }
  }

  /** The four forms: one byte, or a tag and the value in 2, 4 or 8 bytes. */
  lemma VarU64Layout(v: u64)
    ensures var b := VarU64(v);
            && b != []
            && (v < 0xFD ==> b == [v])
            && (0xFD <= v <= 0xFFFF ==> |b| == 3 && b[0] == 0xFD)
            && (0xFFFF < v <= 0xFFFF_FFFF ==> |b| == 5 && b[0] == 0xFE)
            && (0xFFFF_FFFF < v ==> |b| == 9 && b[0] == 0xFF)
            && (v >= 0xFD ==> FromBigEndian(b[1..]) == v)
  {
    Powers();
    hide BigEndian, FromBigEndian, Pow256;
    var k := if v < 0xFD then 0 else if v <= 0xFFFF then 2 else if v <= 0xFFFF_FFFF then 4 else 8;
    if v >= 0xFD {
      BigEndianInverse(v, k);
      assert VarU64(v)[1..] == BigEndian(v, k);
    }
  }

  /** The reading that fits the writer: a first byte below 0xFD is the value. */
  function TakeMeant(b: Bytes): Option<(nat, Bytes)> {
    if b != [] && b[0] < 0xFD then Some((b[0], b[1..])) else TakeVarU64(b)
  }

  function TakeMeantBytes(b: Bytes): Option<(Bytes, Bytes)> {
    var len := TakeMeant(b);
    if len.None? || len.value.0 > |len.value.1| then None
    else Some((len.value.1[..len.value.0], len.value.1[len.value.0..]))
  }

  /** With that reading everything written comes back. */
  lemma MeantRoundTrip(b: Bytes, rest: Bytes)
    requires |b| < U64_MOD
    ensures TakeMeantBytes(VarBytes(b) + rest) == Some((b, rest))
  {
    var s := b + rest;
    assert VarBytes(b) + rest == VarU64(|b|) + s;
    VarU64Layout(|b|);
    VarU64RoundTrip(|b|, s);
    if |b| < 0xFD {
      assert (VarU64(|b|) + s)[1..] == s;
    }
    assert s[..|b|] == b && s[|b|..] == rest;
  }

  /** Reading what was written gives it back and leaves the rest exactly from 0xFD on. */
  lemma VarU64RoundTrip(v: u64, rest: Bytes)
    ensures TakeVarU64(VarU64(v) + rest) == Some((v, rest)) <==> v >= 0xFD
    ensures v < 0xFD ==>
              TakeVarU64(VarU64(v) + rest) == if rest == [] then None else Some((rest[0], rest[1..]))
  {
    hide BigEndian, TakeVarU64, Pow256;
    if v < 0xFD {
      OneByteForm(v, rest);
    } else {
      Powers();
      LongForm(v, if v <= 0xFFFF then 2 else if v <= 0xFFFF_FFFF then 4 else 8, rest);
    }
  }

  lemma LongForm(v: u64, k: nat, rest: Bytes)
    requires k in {2, 4, 8} && v < Pow256(k)
    ensures var b: Bytes := [if k == 2 then 0xFD else if k == 4 then 0xFE else 0xFF] + BigEndian(v, k) + rest;
            TakeVarU64(b) == Some((v, rest))
  {
    hide BigEndian, TakeFixed, Pow256;
    var b: Bytes := [if k == 2 then 0xFD else if k == 4 then 0xFE else 0xFF] + BigEndian(v, k) + rest;
    assert b[1..] == BigEndian(v, k) + rest;
    FixedRoundTrip(v, k, rest);
  }

  /** The same for byte strings: shorter ones never come back, whatever follows them. */
  lemma VarBytesRoundTrip(b: Bytes, rest: Bytes)
    requires |b| < U64_MOD
    ensures TakeVarBytes(VarBytes(b) + rest) == Some((b, rest)) <==> |b| >= 0xFD
    ensures |b| < 0xFD ==>
              var s := b + rest;
              TakeVarBytes(VarBytes(b) + rest) ==
              if s == [] || s[0] > |s| - 1 then None else Some((s[1..][..s[0]], s[1..][s[0]..]))
  {
    var s := b + rest;
    assert VarBytes(b) + rest == VarU64(|b|) + s;
    VarU64RoundTrip(|b|, s);
    if |b| < 0xFD {
      var r := TakeVarBytes(VarBytes(b) + rest);
      if r.Some? {
        assert |r.value.0| + |r.value.1| == |b| + |rest| - 1;
      }
    } else {
      assert s[..|b|] == b && s[|b|..] == rest;
    }
  }

  // ------------------------------------------------------------ prefix code

  /** A reader that also understands the one-byte form, as the reference for what a code means. */
  ghost function Meaning(b: Bytes): Option<(nat, Bytes)> {
    if b != [] && b[0] < 0xFD then Some((b[0], b[1..])) else TakeVarU64(b)
  }

  lemma MeaningOfVarU64(v: u64, rest: Bytes)
    ensures Meaning(VarU64(v) + rest) == Some((v, rest))
  {
    if v < 0xFD {
      assert (VarU64(v) + rest)[1..] == rest;
    } else {
      VarU64RoundTrip(v, rest);
      assert (VarU64(v) + rest)[0] >= 0xFD;
    }
  }

  /** No code is the beginning of another: equal outputs mean equal inputs and equal rests. */
  lemma VarU64PrefixFree(v: u64, w: u64, rest: Bytes, rest': Bytes)
    requires VarU64(v) + rest == VarU64(w) + rest'
    ensures v == w && rest == rest'
  {
    MeaningOfVarU64(v, rest);
    MeaningOfVarU64(w, rest');
  }

  lemma VarBytesPrefixFree(b: Bytes, c: Bytes, rest: Bytes, rest': Bytes)
    requires |b| < U64_MOD && |c| < U64_MOD
    requires VarBytes(b) + rest == VarBytes(c) + rest'
    ensures b == c && rest == rest'
  {
    assert VarBytes(b) + rest == VarU64(|b|) + (b + rest);
    assert VarBytes(c) + rest' == VarU64(|c|) + (c + rest');
    VarU64PrefixFree(|b|, |c|, b + rest, c + rest');
    assert (b + rest)[..|b|] == b && (c + rest')[..|c|] == c;
    assert (b + rest)[|b|..] == rest && (c + rest')[|c|..] == rest';
  }

  lemma U32PrefixFree(v: u32, w: u32, rest: Bytes, rest': Bytes)
    requires BigEndian(v, 4) + rest == BigEndian(w, 4) + rest'
    ensures v == w && rest == rest'
  {
    Powers();
    FixedRoundTrip(v, 4, rest);
    FixedRoundTrip(w, 4, rest');
  }
}
