/** The two byte strings whose hashes are signed. */
module SigChain {
  import opened MachineInts
  import opened Common
  import opened Serialization

  datatype SigChainElem = SigChainElem(id: Bytes, nextPubkey: Bytes, mining: bool, vrf: Bytes)

  datatype SigChain = SigChain(
    nonce: u32,
    dataSize: u32,
    blockHash: Bytes,
    srcId: Bytes,
    srcPubkey: Bytes,
    destId: Bytes,
    destPubkey: Bytes)

  predicate Fits(b: Bytes) { |b| < U64_MOD }

  predicate ElemFits(e: SigChainElem) { Fits(e.id) && Fits(e.nextPubkey) }

  predicate ChainFits(c: SigChain) {
    Fits(c.blockHash) && Fits(c.srcId) && Fits(c.srcPubkey) && Fits(c.destId) && Fits(c.destPubkey)
  }

  function Unsigned(e: SigChainElem): Bytes
    requires ElemFits(e)
  {
    VarBytes(e.id) + (VarBytes(e.nextPubkey) + ([if e.mining then 1 else 0] + e.vrf))
  }

  function Metadata(c: SigChain): Bytes
    requires ChainFits(c)
  {
    BigEndian(c.nonce, 4) + (BigEndian(c.dataSize, 4) + Parties(c))
  }

  function Parties(c: SigChain): Bytes
    requires ChainFits(c)
  {
    VarBytes(c.blockHash) + (VarBytes(c.srcId) + (VarBytes(c.srcPubkey)
    + (VarBytes(c.destId) + VarBytes(c.destPubkey))))
  }

  method SerializeUnsigned(e: SigChainElem) returns (bytes: Bytes)
    requires ElemFits(e)
    ensures bytes == Unsigned(e)
  {
    var b := new Buffer([]);
    b.WriteVarBytes(e.id);
    b.WriteVarBytes(e.nextPubkey);
    b.WriteBool(e.mining);
    b.WriteBytes(e.vrf);
    bytes := b.data;
    assert bytes == Unsigned(e);
  }

  method SerializeMetadata(c: SigChain) returns (bytes: Bytes)
    requires ChainFits(c)
    ensures bytes == Metadata(c)
  {
    var b := new Buffer([]);
    b.WriteU32(c.nonce);
    b.WriteU32(c.dataSize);
    b.WriteVarBytes(c.blockHash);
    b.WriteVarBytes(c.srcId);
    b.WriteVarBytes(c.srcPubkey);
    b.WriteVarBytes(c.destId);
    b.WriteVarBytes(c.destPubkey);
    bytes := b.data;
    Regroup(BigEndian(c.nonce, 4), BigEndian(c.dataSize, 4), VarBytes(c.blockHash), VarBytes(c.srcId),
            VarBytes(c.srcPubkey), VarBytes(c.destId), VarBytes(c.destPubkey));
  }

  lemma Regroup(s: Bytes, t: Bytes, u: Bytes, v: Bytes, w: Bytes, x: Bytes, y: Bytes)
    ensures [] + s + t + u + v + w + x + y == s + (t + (u + (v + (w + (x + y)))))
  {
  }

  /** The element's bytes determine all four written fields, the unmarked `vrf` at the end included. */
  lemma UnsignedIsInjective(e: SigChainElem, f: SigChainElem)
    requires ElemFits(e) && ElemFits(f)
    ensures Unsigned(e) == Unsigned(f) <==> e == f
  {
    if Unsigned(e) == Unsigned(f) {
      var re, rf := [if e.mining then 1 else 0] + e.vrf, [if f.mining then 1 else 0] + f.vrf;
      VarBytesPrefixFree(e.id, f.id, VarBytes(e.nextPubkey) + re, VarBytes(f.nextPubkey) + rf);
      VarBytesPrefixFree(e.nextPubkey, f.nextPubkey, re, rf);
      assert re[0] == rf[0];
      assert re[1..] == e.vrf && rf[1..] == f.vrf;
    }
  }

  lemma PartiesAreInjective(c: SigChain, d: SigChain)
    requires ChainFits(c) && ChainFits(d) && Parties(c) == Parties(d)
    ensures c.blockHash == d.blockHash && c.srcId == d.srcId && c.srcPubkey == d.srcPubkey
    ensures c.destId == d.destId && c.destPubkey == d.destPubkey
  {
    var c4, d4 := VarBytes(c.destPubkey), VarBytes(d.destPubkey);
    var c3, d3 := VarBytes(c.destId) + c4, VarBytes(d.destId) + d4;
    var c2, d2 := VarBytes(c.srcPubkey) + c3, VarBytes(d.srcPubkey) + d3;
    VarBytesPrefixFree(c.blockHash, d.blockHash, VarBytes(c.srcId) + c2, VarBytes(d.srcId) + d2);
    VarBytesPrefixFree(c.srcId, d.srcId, c2, d2);
    VarBytesPrefixFree(c.srcPubkey, d.srcPubkey, c3, d3);
    VarBytesPrefixFree(c.destId, d.destId, c4, d4);
    assert c4 == c4 + [] && d4 == d4 + [];
    VarBytesPrefixFree(c.destPubkey, d.destPubkey, [], []);
  }

  /** The metadata's bytes determine all seven written fields. */
  lemma MetadataIsInjective(c: SigChain, d: SigChain)
    requires ChainFits(c) && ChainFits(d)
    ensures Metadata(c) == Metadata(d) <==> c == d
  {
    if Metadata(c) == Metadata(d) {
      var rc, rd := BigEndian(c.dataSize, 4) + Parties(c), BigEndian(d.dataSize, 4) + Parties(d);
      U32PrefixFree(c.nonce, d.nonce, rc, rd);
      U32PrefixFree(c.dataSize, d.dataSize, Parties(c), Parties(d));
      PartiesAreInjective(c, d);
    }
  }

  // ------------------------------------------------------------ reading back

  function TakeU32(b: Bytes): Option<(u32, Bytes)> {
    if |b| < 4 then None else Some((FromBigEndian(b[..4]) % U32_MOD, b[4..]))
  }

  /** The element's fields in the order they are written: id, next key, mining flag, and all that follows. */
  function ReadUnsigned(b: Bytes): Option<SigChainElem> {
    match TakeMeantBytes(b)
    case None => None
    case Some((id, b1)) =>
      match TakeMeantBytes(b1)
      case None => None
      case Some((nextPubkey, b2)) =>
        if b2 == [] then None else Some(SigChainElem(id, nextPubkey, b2[0] == 1, b2[1..]))
  }

  lemma UnsignedRoundTrip(e: SigChainElem)
    requires ElemFits(e)
    ensures ReadUnsigned(Unsigned(e)) == Some(e)
  {
    hide TakeMeantBytes, VarBytes;
    var b2: Bytes := [if e.mining then 1 else 0] + e.vrf;
    MeantRoundTrip(e.id, VarBytes(e.nextPubkey) + b2);
    MeantRoundTrip(e.nextPubkey, b2);
    assert b2[1..] == e.vrf;
  }

  /** Block hash, source, source key, destination and destination key, in this order, and nothing after them. */
  function ReadParties(b: Bytes): Option<(Bytes, Bytes, Bytes, Bytes, Bytes)> {
    match TakeMeantBytes(b)
    case None => None
    case Some((blockHash, b1)) =>
      match TakeMeantBytes(b1)
      case None => None
      case Some((srcId, b2)) =>
        match TakeMeantBytes(b2)
        case None => None
        case Some((srcPubkey, b3)) =>
          match TakeMeantBytes(b3)
          case None => None
          case Some((destId, b4)) =>
            match TakeMeantBytes(b4)
            case None => None
            case Some((destPubkey, b5)) =>
              if b5 == [] then Some((blockHash, srcId, srcPubkey, destId, destPubkey)) else None
  }

  lemma PartiesRoundTrip(c: SigChain)
    requires ChainFits(c)
    ensures ReadParties(Parties(c)) == Some((c.blockHash, c.srcId, c.srcPubkey, c.destId, c.destPubkey))
  {
    hide TakeMeantBytes, VarBytes;
    var b4 := VarBytes(c.destPubkey);
    var b3 := VarBytes(c.destId) + b4;
    var b2 := VarBytes(c.srcPubkey) + b3;
    var b1 := VarBytes(c.srcId) + b2;
    MeantRoundTrip(c.blockHash, b1);
    MeantRoundTrip(c.srcId, b2);
    MeantRoundTrip(c.srcPubkey, b3);
    MeantRoundTrip(c.destId, b4);
    assert b4 + [] == b4;
    MeantRoundTrip(c.destPubkey, []);
  }

  /** Nonce and data size in four bytes each, then the parties. */
  function ReadMetadata(b: Bytes): Option<SigChain> {
    match TakeU32(b)
    case None => None
    case Some((nonce, b1)) =>
      match TakeU32(b1)
      case None => None
      case Some((dataSize, b2)) =>
        match ReadParties(b2)
        case None => None
        case Some((blockHash, srcId, srcPubkey, destId, destPubkey)) =>
          Some(SigChain(nonce, dataSize, blockHash, srcId, srcPubkey, destId, destPubkey))
  }

  lemma U32RoundTrip(v: u32, rest: Bytes)
    ensures TakeU32(BigEndian(v, 4) + rest) == Some((v, rest))
  {
    Powers();
    hide BigEndian, FromBigEndian, Pow256;
    BigEndianInverse(v, 4);
    assert (BigEndian(v, 4) + rest)[..4] == BigEndian(v, 4);
  }

  /** The metadata reads back to its seven fields, in the order in which they are written. */
  lemma MetadataRoundTrip(c: SigChain)
    requires ChainFits(c)
    ensures ReadMetadata(Metadata(c)) == Some(c)
  {
    hide TakeU32, BigEndian, Parties, ReadParties;
    U32RoundTrip(c.nonce, BigEndian(c.dataSize, 4) + Parties(c));
    U32RoundTrip(c.dataSize, Parties(c));
    PartiesRoundTrip(c);
  }
}
