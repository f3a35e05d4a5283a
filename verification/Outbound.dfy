/**
 * The outbound pipeline: payloads for all destinations, split into bounded messages, each signed for
 * each of its destinations. Address strings are ASCII, so their length is their length in bytes.
 */
module Outbound {
  import opened MachineInts
  import opened Common
  import opened Serialization
  import opened Addresses
  import opened SigChain
  import opened Batching
  import opened Encryption

  const MAX_CLIENT_MESSAGE_SIZE := 4000000
  const SIGNATURE_LEN := 64
  const SHA256_LEN := 32

  /** Who sends, and what the network last announced. */
  datatype Identity = Identity(
    publicKey: Bytes,
    privateKey: Bytes,
    addressId: Bytes,
    nodeKey: Bytes,
    announcedHash: Option<Bytes>)
  {
    function BlockHash(): Bytes { if announcedHash.Some? then announcedHash.value else [] }

    predicate Sized() {
      Fits(publicKey) && Fits(addressId) && Fits(nodeKey) && Fits(BlockHash())
    }

    function Elem(): SigChainElem { SigChainElem([], nodeKey, false, []) }
  }

  ghost predicate HashSized(x: Suite) {
    forall a :: |x.addressId(a)| == SHA256_LEN
  }

  datatype OutboundMessage = OutboundMessage(
    dests: seq<string>,
    payloads: seq<Bytes>,
    maxHoldingSeconds: u32,
    nonce: u32,
    blockHash: Bytes,
    signatures: seq<Bytes>)

  datatype SendError = BadAddress(error: AddressError) | Oversize

  // -------------------------------------------------------------- signatures

  /** A single payload is for every destination. */
  function PayloadFor(payloads: seq<Bytes>, i: nat): Bytes
    requires payloads != [] && (|payloads| > 1 ==> i < |payloads|)
  {
    if |payloads| > 1 then payloads[i] else payloads[0]
  }

  /** The metadata of one destination: who it is for and how long the payload it gets is. */
  ghost function ChainFor(x: Suite, id: Identity, nonce: u32, dest: string, payload: Bytes): SigChain {
    SigChain(nonce, |payload| % U32_MOD, id.BlockHash(), id.addressId, id.publicKey,
                      x.addressId(dest), KeyOf(dest))
  }

  ghost function SignatureFor(x: Suite, id: Identity, nonce: u32, dest: string, payload: Bytes): Bytes
    requires id.Sized() && HashSized(x)
  {
    KeyOfSize(dest);
    x.sign(id.privateKey + id.publicKey,
           x.hash(x.hash(Metadata(ChainFor(x, id, nonce, dest, payload))) + Unsigned(id.Elem())))
  }

  lemma KeyOfSize(dest: string)
    ensures |KeyOf(dest)| <= PUBLIC_KEY_LEN
  {
  }

  ghost predicate Shaped(m: OutboundMessage) {
    m.payloads != [] && (|m.payloads| > 1 ==> |m.payloads| == |m.dests|)
  }

  ghost predicate WellSigned(x: Suite, id: Identity, m: OutboundMessage)
    requires id.Sized() && HashSized(x)
  {
    && Shaped(m)
    && m.blockHash == (match id.announcedHash
                       case Some(h) => h
                       case None => [])
    && |m.signatures| == |m.dests|
    && forall i :: 0 <= i < |m.dests| ==>
         m.signatures[i] == SignatureFor(x, id, m.nonce, m.dests[i], PayloadFor(m.payloads, i))
  }

  method CreateOutboundMessage(x: Suite, id: Identity, dests: seq<string>, payloads: seq<Bytes>,
                               maxHoldingSeconds: u32, nonce: u32)
    returns (r: Result<OutboundMessage, AddressError>)
    requires id.Sized() && HashSized(x)
    requires payloads != [] && (|payloads| > 1 ==> |payloads| == |dests|)
    ensures r.Ok? <==> AllParse(dests)
    ensures r.Err? ==> FirstBadAddress(dests, r.error)
    ensures r.Ok? ==>
              && r.value.dests == dests && r.value.payloads == payloads
              && r.value.maxHoldingSeconds == maxHoldingSeconds && r.value.nonce == nonce
              && Shaped(r.value) && WellSigned(x, id, r.value)
  {
    hide ParseAddress, Metadata, FirstBadAddress;
    var elemBytes := SerializeUnsigned(id.Elem());
    var chain := SigChain(nonce, 0, id.BlockHash(), id.addressId, id.publicKey, [], []);
    var signatures: seq<Bytes> := [];
    for i := 0 to |dests|
      invariant |signatures| == i && AllParse(dests[..i])
      invariant chain == chain.(dataSize := chain.dataSize, destId := chain.destId, destPubkey := chain.destPubkey)
      invariant chain.nonce == nonce && chain.blockHash == id.BlockHash()
      invariant chain.srcId == id.addressId && chain.srcPubkey == id.publicKey
      invariant forall k :: 0 <= k < i ==>
                  signatures[k] == SignatureFor(x, id, nonce, dests[k], PayloadFor(payloads, k))
    {
      AllParseSnoc(dests, i);
      KeyOfSize(dests[i]);
      var parsed := ParseAddress(dests[i]);
      if parsed.Err? {
        BadAddressAt(dests, i);
        return Err(parsed.error);
      }
      chain := chain.(destId := x.addressId(dests[i]), destPubkey := parsed.value.0);
      if |payloads| > 1 {
        chain := chain.(dataSize := |payloads[i]| % U32_MOD);
      } else {
        chain := chain.(dataSize := |payloads[0]| % U32_MOD);
      }
      assert chain == ChainFor(x, id, nonce, dests[i], PayloadFor(payloads, i));
      var metadata := SerializeMetadata(chain);
      var digest := x.hash(x.hash(metadata) + elemBytes);
      signatures := signatures + [x.sign(id.privateKey + id.publicKey, digest)];
    }
    assert dests[..|dests|] == dests;
    r := Ok(OutboundMessage(dests, payloads, maxHoldingSeconds, nonce, id.BlockHash(), signatures));
  }

  /** What the signed bytes are, field by field, for whoever holds the message and knows the sender. */
  ghost function SignedBytes(x: Suite, id: Identity, m: OutboundMessage, i: nat): Bytes
    requires id.Sized() && HashSized(x) && Shaped(m) && i < |m.dests| && Fits(m.blockHash)
  {
    KeyOfSize(m.dests[i]);
    BigEndian(m.nonce, 4)
    + BigEndian((if |m.payloads| > 1 then |m.payloads[i]| else |m.payloads[0]|) % U32_MOD, 4)
    + VarBytes(m.blockHash)
    + VarBytes(id.addressId)
    + VarBytes(id.publicKey)
    + VarBytes(x.addressId(m.dests[i]))
    + VarBytes(KeyOf(m.dests[i]))
  }

  /** The digest rebuilt from the message: over the signed bytes and the first element of the signature chain. */
  ghost function RebuiltDigest(x: Suite, id: Identity, m: OutboundMessage, i: nat): Bytes
    requires id.Sized() && HashSized(x) && Shaped(m) && i < |m.dests| && Fits(m.blockHash)
  {
    x.hash(x.hash(SignedBytes(x, id, m, i)) + (VarBytes([]) + VarBytes(id.nodeKey) + [0]))
  }

  /** The sender's key pair: what it signs verifies under its public key. */
  ghost predicate KeyPair(x: Suite, id: Identity) {
    forall d :: x.verify(id.publicKey, d, x.sign(id.privateKey + id.publicKey, d))
  }

  lemma SignsRebuiltDigest(x: Suite, id: Identity, m: OutboundMessage, i: nat)
    requires id.Sized() && HashSized(x) && WellSigned(x, id, m) && i < |m.dests|
    ensures m.signatures[i] == x.sign(id.privateKey + id.publicKey, RebuiltDigest(x, id, m, i))
  {
    hide ParseAddress, BigEndian, VarBytes;
    KeyOfSize(m.dests[i]);
    var k := ChainFor(x, id, m.nonce, m.dests[i], PayloadFor(m.payloads, i));
    Regroup(BigEndian(k.nonce, 4), BigEndian(k.dataSize, 4), VarBytes(k.blockHash), VarBytes(k.srcId),
            VarBytes(k.srcPubkey), VarBytes(k.destId), VarBytes(k.destPubkey));
    assert [] + BigEndian(k.nonce, 4) == BigEndian(k.nonce, 4);
    assert SignedBytes(x, id, m, i) == Metadata(k);
    var e := id.Elem();
    assert VarBytes([]) + VarBytes(id.nodeKey) + [0] == Unsigned(e);
  }

  /** Every signature of a message verifies against the digest rebuilt from that message. */
  lemma SignatureVerifies(x: Suite, id: Identity, m: OutboundMessage, i: nat)
    requires id.Sized() && HashSized(x) && WellSigned(x, id, m) && i < |m.dests| && KeyPair(x, id)
    ensures x.verify(id.publicKey, RebuiltDigest(x, id, m, i), m.signatures[i])
  {
    hide WellSigned, RebuiltDigest;
    SignsRebuiltDigest(x, id, m, i);
  }

  /** Neither the hash nor signing under the sender's key collides. */
  ghost predicate CollisionFree(x: Suite, id: Identity) {
    && (forall a, b :: x.hash(a) == x.hash(b) ==> a == b)
    && (forall a, b :: x.sign(id.privateKey + id.publicKey, a) == x.sign(id.privateKey + id.publicKey, b) ==> a == b)
  }

  lemma SignatureDiffers(x: Suite, id: Identity, nonce: u32, dest: string, payload: Bytes,
                         nonce': u32, dest': string, payload': Bytes)
    requires id.Sized() && HashSized(x) && CollisionFree(x, id)
    ensures SignatureFor(x, id, nonce, dest, payload) == SignatureFor(x, id, nonce', dest', payload')
            <==> nonce == nonce' && |payload| % U32_MOD == |payload'| % U32_MOD
                 && x.addressId(dest) == x.addressId(dest') && KeyOf(dest) == KeyOf(dest')
  {
    hide ParseAddress, Metadata, Unsigned;
    KeyOfSize(dest);
    KeyOfSize(dest');
    var k, k' := ChainFor(x, id, nonce, dest, payload), ChainFor(x, id, nonce', dest', payload');
    MetadataIsInjective(k, k');
    var e := Unsigned(id.Elem());
    var h, h' := x.hash(Metadata(k)), x.hash(Metadata(k'));
    if SignatureFor(x, id, nonce, dest, payload) == SignatureFor(x, id, nonce', dest', payload') {
      assert h + e == h' + e;
      assert |h| == |h'|;
      assert (h + e)[..|h|] == h && (h' + e)[..|h|] == h';
    }
  }

  /** Signatures of one sender are equal exactly when nonce, payload length, destination and its key are. */
  lemma SignaturesDiffer(x: Suite, id: Identity, m: OutboundMessage, i: nat, n: OutboundMessage, j: nat)
    requires id.Sized() && HashSized(x) && CollisionFree(x, id)
    requires WellSigned(x, id, m) && WellSigned(x, id, n) && i < |m.dests| && j < |n.dests|
    ensures m.signatures[i] == n.signatures[j] <==>
              && m.nonce == n.nonce
              && |PayloadFor(m.payloads, i)| % U32_MOD == |PayloadFor(n.payloads, j)| % U32_MOD
              && x.addressId(m.dests[i]) == x.addressId(n.dests[j]) && KeyOf(m.dests[i]) == KeyOf(n.dests[j])
  {
    hide SignatureFor, CollisionFree;
    SignatureDiffers(x, id, m.nonce, m.dests[i], PayloadFor(m.payloads, i), n.nonce, n.dests[j], PayloadFor(n.payloads, j));
  }

  /** What is signed tells destinations and payload lengths apart. */
  lemma SignedDataDiffers(x: Suite, id: Identity, nonce: u32, dest: string, payload: Bytes,
                          nonce': u32, dest': string, payload': Bytes)
    requires id.Sized() && HashSized(x)
    requires |payload| <= MAX_CLIENT_MESSAGE_SIZE && |payload'| <= MAX_CLIENT_MESSAGE_SIZE
    ensures ChainFits(ChainFor(x, id, nonce, dest, payload)) && ChainFits(ChainFor(x, id, nonce', dest', payload'))
    ensures Metadata(ChainFor(x, id, nonce, dest, payload)) == Metadata(ChainFor(x, id, nonce', dest', payload'))
            <==> nonce == nonce' && |payload| == |payload'|
                 && x.addressId(dest) == x.addressId(dest') && KeyOf(dest) == KeyOf(dest')
  {
    hide ParseAddress, Metadata;
    KeyOfSize(dest);
    KeyOfSize(dest');
    MetadataIsInjective(ChainFor(x, id, nonce, dest, payload), ChainFor(x, id, nonce', dest', payload'));
  }

  // -------------------------------------------------------------- deliveries

  type Delivery = (string, Bytes)

  ghost function Zip(dests: seq<string>, payloads: seq<Bytes>): (ds: seq<Delivery>)
    requires |dests| == |payloads|
    ensures |ds| == |dests|
  {
    seq(|dests|, i requires 0 <= i < |dests| => (dests[i], payloads[i]))
  }

  /** Who gets what from one message. */
  ghost function Deliveries(m: OutboundMessage): (ds: seq<Delivery>)
    requires Shaped(m)
    ensures |ds| == |m.dests|
  {
    seq(|m.dests|, i requires 0 <= i < |m.dests| => (m.dests[i], PayloadFor(m.payloads, i)))
  }

  ghost predicate AllShaped(ms: seq<OutboundMessage>) {
    forall k :: 0 <= k < |ms| ==> Shaped(ms[k])
  }

  ghost function AllDeliveries(ms: seq<OutboundMessage>): seq<Delivery>
    requires AllShaped(ms)
  {
    if ms == [] then [] else AllDeliveries(ms[..|ms| - 1]) + Deliveries(ms[|ms| - 1])
  }

  function ItemSize(d: Delivery): nat {
    |d.1| + |d.0| + SIGNATURE_LEN
  }

  ghost function Sizes(ds: seq<Delivery>): Batch {
    seq(|ds|, i requires 0 <= i < |ds| => ItemSize(ds[i]))
  }

  ghost function BatchSizes(ms: seq<OutboundMessage>): seq<Batch>
    requires AllShaped(ms)
  {
    seq(|ms|, k requires 0 <= k < |ms| => Sizes(Deliveries(ms[k])))
  }

  lemma AllDeliveriesSnoc(ms: seq<OutboundMessage>, m: OutboundMessage)
    requires AllShaped(ms) && Shaped(m)
    ensures AllShaped(ms + [m])
    ensures AllDeliveries(ms + [m]) == AllDeliveries(ms) + Deliveries(m)
    ensures BatchSizes(ms + [m]) == BatchSizes(ms) + [Sizes(Deliveries(m))]
  {
  }

  lemma {:induction false} FlattenBatchSizes(ms: seq<OutboundMessage>)
    requires AllShaped(ms)
    ensures Flatten(BatchSizes(ms)) == Sizes(AllDeliveries(ms))
  {
    if ms != [] {
      var n := |ms| - 1;
      FlattenBatchSizes(ms[..n]);
      assert ms == ms[..n] + [ms[n]];
      AllDeliveriesSnoc(ms[..n], ms[n]);
      FlattenSnoc(BatchSizes(ms[..n]), Sizes(Deliveries(ms[n])));
    }
  }

  // --------------------------------------------------------------- splitting

  /** Messages that are signed, fit, and could not have been filled further. */
  ghost predicate GoodBatches(x: Suite, id: Identity, ms: seq<OutboundMessage>)
    requires id.Sized() && HashSized(x)
  {
    && (forall k :: 0 <= k < |ms| ==> WellSigned(x, id, ms[k]))
    && Fit(BatchSizes(ms), MAX_CLIENT_MESSAGE_SIZE)
    && Tight(BatchSizes(ms), MAX_CLIENT_MESSAGE_SIZE)
  }

  /** The last message has no room for an item of the given size. */
  ghost predicate NoRoom(ms: seq<OutboundMessage>, size: nat)
    requires AllShaped(ms)
  {
    ms != [] ==> Total(Sizes(Deliveries(ms[|ms| - 1]))) + size > MAX_CLIENT_MESSAGE_SIZE
  }

  lemma AddBatch(x: Suite, id: Identity, ms: seq<OutboundMessage>, m: OutboundMessage)
    requires id.Sized() && HashSized(x) && AllShaped(ms) && GoodBatches(x, id, ms)
    requires Shaped(m) && WellSigned(x, id, m)
    requires m.dests != [] && Total(Sizes(Deliveries(m))) <= MAX_CLIENT_MESSAGE_SIZE
    requires NoRoom(ms, ItemSize(Deliveries(m)[0]))
    ensures AllShaped(ms + [m]) && GoodBatches(x, id, ms + [m])
    ensures AllDeliveries(ms + [m]) == AllDeliveries(ms) + Deliveries(m)
  {
    hide WellSigned, Sizes, Deliveries, AllDeliveries, Total;
    AllDeliveriesSnoc(ms, m);
    FirstSize(Deliveries(m));
    BatchSizesEnd(ms);
  }

  lemma FirstSize(ds: seq<Delivery>)
    requires ds != []
    ensures Sizes(ds) != [] && Sizes(ds)[0] == ItemSize(ds[0])
  {
  }

  lemma BatchSizesEnd(ms: seq<OutboundMessage>)
    requires AllShaped(ms)
    ensures |BatchSizes(ms)| == |ms|
    ensures ms != [] ==> BatchSizes(ms)[|ms| - 1] == Sizes(Deliveries(ms[|ms| - 1]))
  {
  }

  lemma SubListParses(dests: seq<string>, i: nat, j: nat)
    requires i <= j <= |dests| && AllParse(dests)
    ensures AllParse(dests[i..j])
  {
  }

  /** Slices of both lists, as deliveries and as sizes. */
  lemma SliceOfZip(dests: seq<string>, payloads: seq<Bytes>, i: nat, j: nat)
    requires i < j <= |dests| == |payloads|
    ensures Zip(dests[i..j], payloads[i..j]) == Zip(dests, payloads)[i..j]
    ensures Zip(dests, payloads)[i..j][0] == (dests[i], payloads[i])
    ensures dests[i..j] == dests[i..j - 1] + [dests[j - 1]] && payloads[i..j] == payloads[i..j - 1] + [payloads[j - 1]]
    ensures Zip(dests, payloads)[..j] == Zip(dests, payloads)[..i] + Zip(dests, payloads)[i..j]
    ensures Total(Sizes(Zip(dests, payloads)[i..j])) ==
            Total(Sizes(Zip(dests, payloads)[i..j - 1])) + ItemSize((dests[j - 1], payloads[j - 1]))
  {
    hide Total, Sizes;
    var z := Zip(dests, payloads);
    assert z[j - 1] == (dests[j - 1], payloads[j - 1]);
    SizesSnoc(z[i..j - 1], z[j - 1]);
    assert z[i..j] == z[i..j - 1] + [z[j - 1]];
  }

  lemma SizesSnoc(ds: seq<Delivery>, d: Delivery)
    ensures Total(Sizes(ds + [d])) == Total(Sizes(ds)) + ItemSize(d)
  {
    assert Sizes(ds + [d]) == Sizes(ds) + [ItemSize(d)];
    TotalSnoc(Sizes(ds), ItemSize(d));
  }

  ghost predicate AllItemsFit(dests: seq<string>, payloads: seq<Bytes>)
    requires |dests| == |payloads|
  {
    forall i :: 0 <= i < |dests| ==> ItemSize((dests[i], payloads[i])) <= MAX_CLIENT_MESSAGE_SIZE
  }

  /** The message made of the items from `start` to `i`, added to the ones before it. */
  method CloseBatch(x: Suite, id: Identity, ghost dests: seq<string>, ghost payloads: seq<Bytes>,
                    ghost start: nat, ghost i: nat, destList: seq<string>, payloadList: seq<Bytes>,
                    maxHoldingSeconds: u32, nonce: u32, done: seq<OutboundMessage>)
    returns (done': seq<OutboundMessage>)
    requires id.Sized() && HashSized(x) && AllParse(dests)
    requires start < i <= |dests| == |payloads|
    requires destList == dests[start..i] && payloadList == payloads[start..i]
    requires AllShaped(done) && GoodBatches(x, id, done)
    requires AllDeliveries(done) == Zip(dests, payloads)[..start]
    requires Total(Sizes(Zip(dests, payloads)[start..i])) <= MAX_CLIENT_MESSAGE_SIZE
    requires NoRoom(done, ItemSize((dests[start], payloads[start])))
    ensures AllShaped(done') && GoodBatches(x, id, done') && AllDeliveries(done') == Zip(dests, payloads)[..i]
    ensures |done'| == |done| + 1 && done'[..|done|] == done
    ensures Deliveries(done'[|done|]) == Zip(dests, payloads)[start..i]
    ensures done'[|done|].maxHoldingSeconds == maxHoldingSeconds && done'[|done|].nonce == nonce
  {
    hide WellSigned, Zip, Sizes, Deliveries, AllDeliveries, Total, Parses;
    SubListParses(dests, start, i);
    SliceOfZip(dests, payloads, start, i);
    var m := CreateOutboundMessage(x, id, destList, payloadList, maxHoldingSeconds, nonce);
    DeliveriesAreZip(m.value);
    AddBatch(x, id, done, m.value);
    done' := done + [m.value];
  }

  lemma DeliveriesAreZip(m: OutboundMessage)
    requires m.payloads != [] && |m.payloads| == |m.dests|
    ensures Deliveries(m) == Zip(m.dests, m.payloads)
  {
  }

  /** Each message has the given holding time and a nonce of its own. */
  ghost predicate Stamped(ms: seq<OutboundMessage>, maxHoldingSeconds: u32, nonceOf: nat -> u32) {
    forall k :: 0 <= k < |ms| ==> ms[k].maxHoldingSeconds == maxHoldingSeconds && ms[k].nonce == nonceOf(k)
  }

  lemma StampedSnoc(ms: seq<OutboundMessage>, l: seq<OutboundMessage>, maxHoldingSeconds: u32, nonceOf: nat -> u32)
    requires Stamped(ms, maxHoldingSeconds, nonceOf) && |l| == |ms| + 1 && l[..|ms|] == ms
    requires l[|ms|].maxHoldingSeconds == maxHoldingSeconds && l[|ms|].nonce == nonceOf(|ms|)
    ensures Stamped(l, maxHoldingSeconds, nonceOf)
  {
    forall k | 0 <= k < |ms|
      ensures l[k] == ms[k]
    {
      assert l[..|ms|][k] == l[k];
    }
  }

  /** The greedy split of several payloads into messages. */
  method SplitIntoMessages(x: Suite, id: Identity, dests: seq<string>, payloads: seq<Bytes>,
                           maxHoldingSeconds: u32, nonceOf: nat -> u32)
    returns (r: Result<seq<OutboundMessage>, SendError>)
    requires id.Sized() && HashSized(x) && AllParse(dests) && |dests| == |payloads| > 0
    ensures r.Ok? <==> AllItemsFit(dests, payloads)
    ensures r.Err? ==> r.error == Oversize
    ensures r.Ok? ==> AllShaped(r.value) && GoodBatches(x, id, r.value) && AllDeliveries(r.value) == Zip(dests, payloads)
    ensures r.Ok? ==> Stamped(r.value, maxHoldingSeconds, nonceOf)
  {
    hide WellSigned, Parses, Stamped, GoodBatches, Zip, Sizes, Deliveries, AllDeliveries, Total;
    var done: seq<OutboundMessage> := [];
    var destList: seq<string>, payloadList: seq<Bytes>, totalSize := [], [], 0;
    ghost var start := 0;
    EmptyStart(x, id, dests, payloads);
    NoneStamped(maxHoldingSeconds, nonceOf);
    for i := 0 to |payloads|
      invariant start <= i && (i > 0 ==> start < i)
      invariant destList == dests[start..i] && payloadList == payloads[start..i]
      invariant AllShaped(done) && GoodBatches(x, id, done) && AllDeliveries(done) == Zip(dests, payloads)[..start]
      invariant Stamped(done, maxHoldingSeconds, nonceOf)
      invariant totalSize == Total(Sizes(Zip(dests, payloads)[start..i])) <= MAX_CLIENT_MESSAGE_SIZE
      invariant NoRoom(done, ItemSize((dests[start], payloads[start])))
      invariant forall k :: 0 <= k < i ==> ItemSize((dests[k], payloads[k])) <= MAX_CLIENT_MESSAGE_SIZE
    {
      var size := |payloads[i]| + |dests[i]| + SIGNATURE_LEN;
      if size > MAX_CLIENT_MESSAGE_SIZE {
        return Err(Oversize);
      }
      if totalSize + size > MAX_CLIENT_MESSAGE_SIZE {
        var closed := CloseBatch(x, id, dests, payloads, start, i, destList, payloadList,
                                 maxHoldingSeconds, nonceOf(|done|), done);
        StampedSnoc(done, closed, maxHoldingSeconds, nonceOf);
        done := closed;
        assert NoRoom(done, size);
        destList, payloadList, totalSize := [], [], 0;
        start := i;
        EmptySlice(dests, payloads, i);
      }
      SliceOfZip(dests, payloads, start, i + 1);
      destList := destList + [dests[i]];
      payloadList := payloadList + [payloads[i]];
      totalSize := totalSize + size;
    }
    var closed := CloseBatch(x, id, dests, payloads, start, |payloads|, destList, payloadList,
                             maxHoldingSeconds, nonceOf(|done|), done);
    StampedSnoc(done, closed, maxHoldingSeconds, nonceOf);
    done := closed;
    WholeSlice(dests, payloads);
    r := Ok(done);
  }

  lemma NoneStamped(maxHoldingSeconds: u32, nonceOf: nat -> u32)
    ensures Stamped([], maxHoldingSeconds, nonceOf)
  {
  }

  lemma EmptyStart(x: Suite, id: Identity, dests: seq<string>, payloads: seq<Bytes>)
    requires id.Sized() && HashSized(x) && |dests| == |payloads| > 0
    ensures GoodBatches(x, id, []) && AllDeliveries([]) == Zip(dests, payloads)[..0]
    ensures Total(Sizes(Zip(dests, payloads)[0..0])) == 0
    ensures NoRoom([], ItemSize((dests[0], payloads[0])))
  {
  }

  lemma EmptySlice(dests: seq<string>, payloads: seq<Bytes>, i: nat)
    requires i < |dests| == |payloads|
    ensures |Zip(dests, payloads)| == |dests| && Total(Sizes(Zip(dests, payloads)[i..i])) == 0
  {
  }

  lemma WholeSlice(dests: seq<string>, payloads: seq<Bytes>)
    requires |dests| == |payloads|
    ensures Zip(dests, payloads)[..|payloads|] == Zip(dests, payloads)
  {
  }

  /** The splitter is optimal: no order-preserving split of the same items into fitting messages has fewer. */
  lemma FewestMessages(x: Suite, id: Identity, ms: seq<OutboundMessage>, other: seq<Batch>)
    requires id.Sized() && HashSized(x) && AllShaped(ms) && GoodBatches(x, id, ms)
    requires Flatten(other) == Sizes(AllDeliveries(ms)) && Fit(other, MAX_CLIENT_MESSAGE_SIZE)
    ensures |ms| <= |other|
  {
    FlattenBatchSizes(ms);
    TightIsOptimal(BatchSizes(ms), other, MAX_CLIENT_MESSAGE_SIZE);
  }

  // ----------------------------------------------------------------- sending

  /** The bytes made for destination `i`: sealed for it, or the same plain message for all. */
  ghost function PayloadBytes(x: Suite, raw: Bytes, encrypted: bool, secret: Bytes, keys: Keys,
                              dests: seq<string>, rnd: Random, i: nat): Bytes
    requires i < |dests| == |rnd.keyNonces|
  {
    x.encode(if encrypted then MessageFor(x, raw, secret, keys, dests, rnd, i) else Message(raw, false, [], []))
  }

  /** What should arrive where. */
  ghost function Expected(x: Suite, raw: Bytes, encrypted: bool, secret: Bytes, keys: Keys,
                          dests: seq<string>, rnd: Random): seq<Delivery>
    requires |dests| == |rnd.keyNonces|
  {
    seq(|dests|, i requires 0 <= i < |dests| =>
      (dests[i], PayloadBytes(x, raw, encrypted, secret, keys, dests, rnd, i)))
  }

  function DestsSize(dests: seq<string>): nat {
    if dests == [] then 0 else DestsSize(dests[..|dests| - 1]) + |dests[|dests| - 1]| + SIGNATURE_LEN
  }

  /** The size limit: on each item when there are several payloads, on all together when there is one. */
  ghost predicate FitsLimit(expected: seq<Delivery>, dests: seq<string>, several: bool)
    requires expected != []
  {
    if several then forall i :: 0 <= i < |expected| ==> ItemSize(expected[i]) <= MAX_CLIENT_MESSAGE_SIZE
    else |expected[0].1| + DestsSize(dests) <= MAX_CLIENT_MESSAGE_SIZE
  }

  /** The limit in bytes, for the payloads, the addresses and a signature of 64 bytes for each address. */
  lemma LimitMeans(expected: seq<Delivery>, dests: seq<string>, several: bool)
    requires |expected| == |dests| > 0 && forall i :: 0 <= i < |dests| ==> expected[i].0 == dests[i]
    ensures FitsLimit(expected, dests, several) <==>
              if several then forall i :: 0 <= i < |dests| ==> |expected[i].1| + |dests[i]| + 64 <= 4_000_000
              else |expected[0].1| + TotalLength(dests) + 64 * |dests| <= 4_000_000
  {
    SizeOfDests(dests);
  }

  ghost function TotalLength(dests: seq<string>): nat {
    if dests == [] then 0 else TotalLength(dests[..|dests| - 1]) + |dests[|dests| - 1]|
  }

  lemma {:induction false} SizeOfDests(dests: seq<string>)
    ensures DestsSize(dests) == TotalLength(dests) + 64 * |dests|
  {
    if dests != [] {
      SizeOfDests(dests[..|dests| - 1]);
    }
  }

  /** The bytes of a message's payloads. */
  ghost function PayloadLength(ds: seq<Delivery>): nat {
    if ds == [] then 0 else PayloadLength(ds[..|ds| - 1]) + |ds[|ds| - 1].1|
  }

  ghost function AddressLength(ds: seq<Delivery>): nat {
    if ds == [] then 0 else AddressLength(ds[..|ds| - 1]) + |ds[|ds| - 1].0|
  }

  lemma {:induction false} SizeOfDeliveries(ds: seq<Delivery>)
    ensures Total(Sizes(ds)) == PayloadLength(ds) + AddressLength(ds) + 64 * |ds|
  {
    if ds != [] {
      var n := |ds| - 1;
      SizeOfDeliveries(ds[..n]);
      assert ds == ds[..n] + [ds[n]];
      SizesSnoc(ds[..n], ds[n]);
    }
  }

  /** In bytes: every message of a split fits, and no message has room for the first item of the next. */
  lemma BatchesInBytes(x: Suite, id: Identity, ms: seq<OutboundMessage>, k: nat)
    requires id.Sized() && HashSized(x) && AllShaped(ms) && GoodBatches(x, id, ms) && k < |ms|
    ensures var ds := Deliveries(ms[k]);
            && ds != []
            && PayloadLength(ds) + AddressLength(ds) + 64 * |ds| <= 4_000_000
            && (k > 0 ==>
                  var before := Deliveries(ms[k - 1]);
                  PayloadLength(before) + AddressLength(before) + 64 * |before| + |ds[0].1| + |ds[0].0| + 64 > 4_000_000)
  {
    hide WellSigned, Deliveries, Total;
    var sizes := BatchSizes(ms);
    assert sizes[k] == Sizes(Deliveries(ms[k])) && sizes[k] != [];
    assert Total(sizes[k]) <= MAX_CLIENT_MESSAGE_SIZE;
    SizeOfDeliveries(Deliveries(ms[k]));
    if k > 0 {
      assert sizes[k - 1] == Sizes(Deliveries(ms[k - 1]));
      assert Total(sizes[k - 1]) + sizes[k - 1 + 1][0] > MAX_CLIENT_MESSAGE_SIZE;
      SizeOfDeliveries(Deliveries(ms[k - 1]));
    }
  }

  method CreatePayloads(x: Suite, raw: Bytes, dests: seq<string>, encrypted: bool, secret: Bytes,
                        cache: KeyCache, rnd: Random)
    returns (r: Result<seq<Bytes>, AddressError>)
    requires dests != [] && RandomOk(rnd, |dests|)
    modifies cache
    ensures r.Ok? <==> !encrypted || AllParse(dests)
    ensures r.Ok? ==>
              && |r.value| == (if encrypted then |dests| else 1)
              && forall i :: 0 <= i < |r.value| ==>
                   r.value[i] == PayloadBytes(x, raw, encrypted, secret, old(cache.keys), dests, rnd, i)
    ensures r.Ok? && Lawful(x) ==>
              if encrypted then AllSealed(x, raw, secret, old(cache.keys), dests, rnd, r.value)
              else x.decode(r.value[0]) == Some(Message(raw, false, [], []))
    ensures r.Err? ==> FirstBadAddress(dests, r.error)
    ensures cache.keys == AfterUse(x, secret, old(cache.keys), Sends(dests, encrypted))
  {
    hide AllParse, MessageFor, AllSealed, FirstBadAddress;
    if encrypted {
      r := EncryptPayload(x, raw, dests, secret, cache, rnd);
    } else {
      r := Ok([x.encode(Message(raw, false, [], []))]);
    }
  }

  /** The one message of a single payload for all destinations. */
  method SendSingle(x: Suite, id: Identity, dests: seq<string>, payload: Bytes, maxHoldingSeconds: u32, nonce: u32)
    returns (r: Result<seq<OutboundMessage>, SendError>)
    requires id.Sized() && HashSized(x) && dests != []
    ensures r.Ok? <==> AllParse(dests) && |payload| + DestsSize(dests) <= MAX_CLIENT_MESSAGE_SIZE
    ensures r.Err? ==> (r.error.Oversize? <==> |payload| + DestsSize(dests) > MAX_CLIENT_MESSAGE_SIZE)
    ensures r.Ok? ==>
              && |r.value| == 1 && AllShaped(r.value) && WellSigned(x, id, r.value[0])
              && r.value[0].dests == dests && r.value[0].payloads == [payload]
              && r.value[0].maxHoldingSeconds == maxHoldingSeconds && r.value[0].nonce == nonce
    ensures r.Err? && r.error.BadAddress? ==> FirstBadAddress(dests, r.error.error)
  {
    hide WellSigned, AllParse, FirstBadAddress;
    var size := |payload|;
    for i := 0 to |dests|
      invariant size == |payload| + DestsSize(dests[..i])
    {
      assert dests[..i + 1][..i] == dests[..i];
      size := size + |dests[i]| + SIGNATURE_LEN;
    }
    assert dests[..|dests|] == dests;
    if size > MAX_CLIENT_MESSAGE_SIZE {
      return Err(Oversize);
    }
    var m := CreateOutboundMessage(x, id, dests, [payload], maxHoldingSeconds, nonce);
    r := if m.Err? then Err(BadAddress(m.error)) else Ok([m.value]);
  }

  /** Sends one payload to all destinations; `written` is what reaches the connection. */
  method SendMessages(x: Suite, id: Identity, dests: seq<string>, raw: Bytes, encrypted: bool,
                      maxHoldingSeconds: u32, secret: Bytes, cache: KeyCache, rnd: Random, nonceOf: nat -> u32)
    returns (r: Result<(), SendError>, written: seq<OutboundMessage>)
    requires id.Sized() && HashSized(x) && RandomOk(rnd, |dests|)
    modifies cache
    ensures r.Ok? <==>
              dests == [] ||
              (AllParse(dests) && FitsLimit(Expected(x, raw, encrypted, secret, old(cache.keys), dests, rnd),
                                            dests, encrypted && |dests| > 1))
    ensures r.Err? ==>
              && written == []
              && (r.error.Oversize? <==>
                    if encrypted then AllParse(dests)
                    else !FitsLimit(Expected(x, raw, encrypted, secret, old(cache.keys), dests, rnd), dests, false))
    ensures cache.keys == AfterUse(x, secret, old(cache.keys), Sends(dests, encrypted))
    ensures AllShaped(written)
    ensures r.Ok? ==>
              && AllDeliveries(written) == Expected(x, raw, encrypted, secret, old(cache.keys), dests, rnd)
              && (forall k :: 0 <= k < |written| ==> WellSigned(x, id, written[k]))
              && (encrypted && |dests| > 1 ==> GoodBatches(x, id, written))
              && (!encrypted || |dests| == 1 ==> |written| <= 1)
              && Stamped(written, maxHoldingSeconds, nonceOf)
    ensures r.Err? && r.error.BadAddress? ==> FirstBadAddress(dests, r.error.error)
  {
    hide WellSigned, GoodBatches, AllParse, AllDeliveries, PayloadBytes, AfterUse, FirstBadAddress;
    written := [];
    if dests == [] {
      EmptySend(x, secret, cache.keys, encrypted);
      return Ok(()), [];
    }
    ghost var expected := Expected(x, raw, encrypted, secret, cache.keys, dests, rnd);
    var payloads := CreatePayloads(x, raw, dests, encrypted, secret, cache, rnd);
    if payloads.Err? {
      return Err(BadAddress(payloads.error)), [];
    }
    var outbound;
    if |payloads.value| > 1 {
      outbound := SplitIntoMessages(x, id, dests, payloads.value, maxHoldingSeconds, nonceOf);
      assert Zip(dests, payloads.value) == expected;
      assert forall i :: 0 <= i < |dests| ==> expected[i] == (dests[i], payloads.value[i]);
      if outbound.Ok? {
        GoodMeansSigned(x, id, outbound.value);
      }
    } else {
      outbound := SendSingle(x, id, dests, payloads.value[0], maxHoldingSeconds, nonceOf(0));
      if outbound.Ok? {
        SharedPayload(x, raw, encrypted, secret, old(cache.keys), dests, rnd);
        SinglePayload(outbound.value, dests, payloads.value[0], expected);
      }
    }
    if outbound.Err? {
      return Err(outbound.error), [];
    }
    for k := 0 to |outbound.value|
      invariant written == outbound.value[..k]
    {
      written := written + [outbound.value[k]];
    }
    assert outbound.value[..|outbound.value|] == outbound.value;
    r := Ok(());
  }

  lemma EmptySend(x: Suite, secret: Bytes, keys: Keys, encrypted: bool)
    ensures AllShaped([]) && AllDeliveries([]) == []
    ensures AfterUse(x, secret, keys, Sends([], encrypted)) == keys
  {
  }

  lemma GoodMeansSigned(x: Suite, id: Identity, ms: seq<OutboundMessage>)
    requires id.Sized() && HashSized(x) && AllShaped(ms) && GoodBatches(x, id, ms)
    ensures forall k :: 0 <= k < |ms| ==> WellSigned(x, id, ms[k])
  {
  }

  lemma SharedPayload(x: Suite, raw: Bytes, encrypted: bool, secret: Bytes, keys: Keys, dests: seq<string>, rnd: Random)
    requires 0 < |dests| == |rnd.keyNonces| && (encrypted ==> |dests| == 1)
    ensures forall i :: 0 <= i < |dests| ==>
              PayloadBytes(x, raw, encrypted, secret, keys, dests, rnd, i)
              == PayloadBytes(x, raw, encrypted, secret, keys, dests, rnd, 0)
  {
  }

  lemma SinglePayload(ms: seq<OutboundMessage>, dests: seq<string>, payload: Bytes, expected: seq<Delivery>)
    requires |ms| == 1 && AllShaped(ms) && ms[0].dests == dests && ms[0].payloads == [payload]
    requires |expected| == |dests| && forall i :: 0 <= i < |dests| ==> expected[i] == (dests[i], payload)
    ensures AllDeliveries(ms) == expected
  {
  }

  // -------------------------------------------------------------- end to end

  /**
   * The sender owns the address `src`, receiver `i` owns destination `i`, and in what either of them
   * sent and received before, together with this message, no two remote keys clash.
   */
  ghost predicate Connected(x: Suite, encrypted: bool, src: string, secret: Bytes, uses: seq<KeyUse>,
                            dests: seq<string>, secrets: seq<Bytes>, usesOf: seq<seq<KeyUse>>)
  {
    && |secrets| == |usesOf| == |dests|
    && Parses(src) && KeyOf(src) == x.publicKey(secret)
    && (forall i :: 0 <= i < |dests| ==> KeyOf(dests[i]) == x.publicKey(secrets[i]))
    && (encrypted ==>
          && ClashFree(x, secret, AllKeysUsed(x, uses) + KeysOf(dests))
          && forall i :: 0 <= i < |dests| ==> ClashFree(x, secrets[i], AllKeysUsed(x, usesOf[i]) + [KeyOf(src)]))
  }

  /** Each destination, in order and once, gets bytes from which its own key recovers the payload. */
  ghost predicate AllRead(x: Suite, raw: Bytes, src: string, dests: seq<string>, secrets: seq<Bytes>,
                          usesOf: seq<seq<KeyUse>>, delivered: seq<Delivery>)
  {
    && |delivered| == |secrets| == |usesOf| == |dests|
    && forall i :: 0 <= i < |dests| ==>
         && delivered[i].0 == dests[i]
         && ReceivedPayload(x, delivered[i].1, src, secrets[i], AfterUses(x, secrets[i], usesOf[i])) == Some(raw)
  }

  /** What arrives means what was sent, whatever sender and receivers sent and received before. */
  lemma EveryDestinationReads(x: Suite, raw: Bytes, encrypted: bool, src: string, secret: Bytes, uses: seq<KeyUse>,
                              dests: seq<string>, rnd: Random, secrets: seq<Bytes>, usesOf: seq<seq<KeyUse>>)
    requires Lawful(x) && RandomOk(rnd, |dests|)
    requires Connected(x, encrypted, src, secret, uses, dests, secrets, usesOf)
    ensures AllRead(x, raw, src, dests, secrets, usesOf,
                    Expected(x, raw, encrypted, secret, AfterUses(x, secret, uses), dests, rnd))
  {
    hide Lawful, ClashFree, Parses, KeyOf, PayloadBytes, ReceivedPayload, AfterUses;
    forall i | 0 <= i < |dests|
      ensures ReceivedPayload(x, PayloadBytes(x, raw, encrypted, secret, AfterUses(x, secret, uses), dests, rnd, i),
                              src, secrets[i], AfterUses(x, secrets[i], usesOf[i])) == Some(raw)
    {
      DestinationReads(x, raw, encrypted, src, secret, uses, dests, rnd, i, secrets[i], usesOf[i]);
    }
  }

  /**
   * A client's send. The ghost arguments are the histories of its cache and of the receivers' caches,
   * all empty at first: what a successful send writes can be read by every destination, and the next
   * send starts from the longer history.
   */
  method ClientSend(x: Suite, id: Identity, dests: seq<string>, raw: Bytes, encrypted: bool,
                    maxHoldingSeconds: u32, secret: Bytes, cache: KeyCache, rnd: Random, nonceOf: nat -> u32,
                    ghost src: string, ghost uses: seq<KeyUse>,
                    ghost secrets: seq<Bytes>, ghost usesOf: seq<seq<KeyUse>>)
    returns (r: Result<(), SendError>, written: seq<OutboundMessage>)
    requires id.Sized() && HashSized(x) && RandomOk(rnd, |dests|)
    requires cache.keys == AfterUses(x, secret, uses)
    modifies cache
    ensures cache.keys == AfterUses(x, secret, uses + [Sends(dests, encrypted)])
    ensures AllShaped(written) && (r.Err? ==> written == [])
    ensures r.Ok? && Lawful(x) && Connected(x, encrypted, src, secret, uses, dests, secrets, usesOf) ==>
              AllRead(x, raw, src, dests, secrets, usesOf, AllDeliveries(written))
  {
    hide AllRead, Connected, Lawful, Expected, AllDeliveries, FitsLimit, WellSigned, GoodBatches, AfterUse;
    r, written := SendMessages(x, id, dests, raw, encrypted, maxHoldingSeconds, secret, cache, rnd, nonceOf);
    assert (uses + [Sends(dests, encrypted)])[..|uses|] == uses;
    if Lawful(x) && Connected(x, encrypted, src, secret, uses, dests, secrets, usesOf) {
      EveryDestinationReads(x, raw, encrypted, src, secret, uses, dests, rnd, secrets, usesOf);
    }
  }

  /** Both ends of one delivery look up the same key. */
  lemma SameKey(x: Suite, src: string, secret: Bytes, uses: seq<KeyUse>, dests: seq<string>, i: nat,
                mySecret: Bytes, myUses: seq<KeyUse>)
    requires Lawful(x) && i < |dests|
    requires KeyOf(src) == x.publicKey(secret) && KeyOf(dests[i]) == x.publicKey(mySecret)
    requires ClashFree(x, secret, AllKeysUsed(x, uses) + KeysOf(dests))
    requires ClashFree(x, mySecret, AllKeysUsed(x, myUses) + [KeyOf(src)])
    ensures SharedFor(x, secret, AfterUses(x, secret, uses), dests, i)
            == Lookup(x, mySecret, AfterUses(x, mySecret, myUses), KeyOf(src))
  {
    hide ClashFree, KeyOf;
    assert KeysOf(dests)[..i] == KeysOf(dests[..i]);
    LookupAfterUses(x, secret, uses, KeysOf(dests), i);
    LookupAfterUses(x, mySecret, myUses, [KeyOf(src)], 0);
    assert [KeyOf(src)][..0] == [];
    assert x.agree(x.publicKey(mySecret), secret) == x.agree(x.publicKey(secret), mySecret);
  }

  lemma DestinationReads(x: Suite, raw: Bytes, encrypted: bool, src: string, secret: Bytes, uses: seq<KeyUse>,
                         dests: seq<string>, rnd: Random, i: nat, mySecret: Bytes, myUses: seq<KeyUse>)
    requires Lawful(x) && RandomOk(rnd, |dests|) && i < |dests|
    requires Parses(src) && KeyOf(src) == x.publicKey(secret)
    requires KeyOf(dests[i]) == x.publicKey(mySecret)
    requires encrypted ==> ClashFree(x, secret, AllKeysUsed(x, uses) + KeysOf(dests))
    requires encrypted ==> ClashFree(x, mySecret, AllKeysUsed(x, myUses) + [KeyOf(src)])
    ensures ReceivedPayload(x, PayloadBytes(x, raw, encrypted, secret, AfterUses(x, secret, uses), dests, rnd, i),
                            src, mySecret, AfterUses(x, mySecret, myUses)) == Some(raw)
  {
    hide ClashFree, AfterUses, Opened, ParseAddress;
    if encrypted {
      SameKey(x, src, secret, uses, dests, i, mySecret, myUses);
      OpenUndoesSeal(x, raw, rnd, |dests|, i, SharedFor(x, secret, AfterUses(x, secret, uses), dests, i));
    }
  }
}
