/** Three consensus messages as instances of the codec: the envelope, the proposal and the
    prepared transactions, whose last field has a two-byte tag. */
module ConsensusMessages {
  import opened Bits
  import opened Varint
  import opened Wire
  import opened WireLaws

  type I32 = n: int | -TWO_31 <= n < TWO_31
  type U32 = n: int | 0 <= n < TWO_32
  type U64 = n: int | 0 <= n < TWO_64

  /** Tags as the generated marshallers store them: one byte for fields 1 to 15, of either wire
      type, and two for fields 16 on, the first of them with the continuation bit. */
  lemma TagLiterals(num: nat, wireType: nat)
    requires 1 <= num <= 255 && wireType in {VARINT_TYPE, BYTES_TYPE}
    ensures TagBytes(num, wireType) ==
            if num <= 15 then [num * 8 + wireType] else [num % 16 * 8 + wireType + 128, num / 16]
  {
    var w := num * 8 + wireType;
    if num > 15 {
      assert w == (num / 16) * 128 + (num % 16 * 8 + wireType);
      DivModUnique(w, 128, num / 16, num % 16 * 8 + wireType);
      assert VarintBytes(num / 16) == [num / 16];
    }
  }

  lemma NumberedFromOne(sc: Schema)
    requires |sc| < 100 && forall i :: 0 <= i < |sc| ==> sc[i].num == i + 1
    ensures WellFormed(sc)
  {
  }

  // ----- ConsensusMessage -----

  datatype ConsensusMessage = ConsensusMessage(msgType: I32, data: Bytes, unknown: Bytes)

  const CONSENSUS_SCHEMA: Schema := [Field(1, Enum32), Field(2, Blob)]

  function ConsensusToMsg(m: ConsensusMessage): (r: Msg)
    ensures Typed(CONSENSUS_SCHEMA, r)
  {
    Msg([Num(m.msgType), Data(m.data)], m.unknown)
  }

  function ConsensusFromMsg(m: Msg): ConsensusMessage
    requires Typed(CONSENSUS_SCHEMA, m)
  {
    var v := m.vals;
    assert forall i :: 0 <= i < |v| ==> HasKind(CONSENSUS_SCHEMA[i].kind, v[i]);
    ConsensusMessage(v[0].n, v[1].b, m.unknown)
  }

  lemma ConsensusFromTo(m: ConsensusMessage)
    ensures ConsensusFromMsg(ConsensusToMsg(m)) == m
  {
  }

  lemma ConsensusWellFormed()
    ensures WellFormed(CONSENSUS_SCHEMA)
  {
  }

  /** Any message type number, negative ones included, and any payload survive the wire. */
  lemma ConsensusRoundTrip(m: ConsensusMessage, sc: Schema, x: Msg)
    requires sc == CONSENSUS_SCHEMA && x == ConsensusToMsg(m)
    requires UnknownRun(sc, x.unknown) && |Encode(sc, x)| < TWO_63
    ensures var o := Decode(sc, Fresh(sc), Encode(sc, x));
            o.stop == Done && Typed(sc, o.msg) && ConsensusFromMsg(o.msg) == m
  {
    ConsensusFromTo(m);
    ConsensusWellFormed();
    RoundTrip(sc, x);
  }

  // ----- ProposeMessage -----

  datatype ProposeMessage = ProposeMessage(
    chainID: Bytes, version: U32, epoch: U64, round: U64, signature: Bytes, pubKey: Bytes,
    stateVersion: U64, maxPri: Bytes, proposer: Bytes, propDatas: seq<Bytes>, blockHead: Bytes,
    unknown: Bytes)

  const PROPOSE_SCHEMA: Schema := [
    Field(1, Blob), Field(2, UInt32), Field(3, UInt64), Field(4, UInt64), Field(5, Blob), Field(6, Blob),
    Field(7, UInt64), Field(8, Blob), Field(9, Blob), Field(10, BlobList), Field(11, Blob)]

  function ProposeToMsg(m: ProposeMessage): (r: Msg)
    ensures Typed(PROPOSE_SCHEMA, r)
  {
    Msg([Data(m.chainID), Num(m.version), Num(m.epoch), Num(m.round), Data(m.signature), Data(m.pubKey),
         Num(m.stateVersion), Data(m.maxPri), Data(m.proposer), DataList(m.propDatas), Data(m.blockHead)],
        m.unknown)
  }

  function ProposeFromMsg(m: Msg): ProposeMessage
    requires Typed(PROPOSE_SCHEMA, m)
  {
    var v := m.vals;
    assert forall i :: 0 <= i < |v| ==> HasKind(PROPOSE_SCHEMA[i].kind, v[i]);
    ProposeMessage(v[0].b, v[1].n, v[2].n, v[3].n, v[4].b, v[5].b, v[6].n, v[7].b, v[8].b, v[9].bs, v[10].b,
                   m.unknown)
  }

  lemma ProposeFromTo(m: ProposeMessage)
    ensures ProposeFromMsg(ProposeToMsg(m)) == m
  {
  }

  lemma ProposeWellFormed()
    ensures WellFormed(PROPOSE_SCHEMA)
  {
    NumberedFromOne(PROPOSE_SCHEMA);
  }

  lemma ProposeRoundTrip(m: ProposeMessage, sc: Schema, x: Msg)
    requires sc == PROPOSE_SCHEMA && x == ProposeToMsg(m)
    requires UnknownRun(sc, x.unknown) && |Encode(sc, x)| < TWO_63
    ensures var o := Decode(sc, Fresh(sc), Encode(sc, x));
            o.stop == Done && Typed(sc, o.msg) && ProposeFromMsg(o.msg) == m
  {
    ProposeFromTo(m);
    ProposeWellFormed();
    RoundTrip(sc, x);
  }

  // ----- PreparePackedMessageProp -----

  datatype PreparePackedMessageProp = PreparePackedMessageProp(
    chainID: Bytes, version: U32, epoch: U64, round: U64, signature: Bytes, pubKey: Bytes,
    parentBlockHash: Bytes, vrfProof: Bytes, vrfProofPubKey: Bytes, domainID: Bytes, launcher: Bytes,
    stateVersion: U64, txRoot: Bytes, txResultRoot: Bytes, txHashs: seq<Bytes>, txResultHashs: seq<Bytes>,
    unknown: Bytes)

  const PREPARE_PROP_SCHEMA: Schema := [
    Field(1, Blob), Field(2, UInt32), Field(3, UInt64), Field(4, UInt64), Field(5, Blob), Field(6, Blob),
    Field(7, Blob), Field(8, Blob), Field(9, Blob), Field(10, Blob), Field(11, Blob), Field(12, UInt64),
    Field(13, Blob), Field(14, Blob), Field(15, BlobList), Field(16, BlobList)]

  function PreparePropToMsg(m: PreparePackedMessageProp): (r: Msg)
    ensures Typed(PREPARE_PROP_SCHEMA, r)
  {
    Msg([Data(m.chainID), Num(m.version), Num(m.epoch), Num(m.round), Data(m.signature), Data(m.pubKey),
         Data(m.parentBlockHash), Data(m.vrfProof), Data(m.vrfProofPubKey), Data(m.domainID), Data(m.launcher),
         Num(m.stateVersion), Data(m.txRoot), Data(m.txResultRoot), DataList(m.txHashs), DataList(m.txResultHashs)],
        m.unknown)
  }

  predicate PreparePropKinds(v: seq<Value>) {
    && |v| == 16
    && v[0].Data? && v[1].Num? && 0 <= v[1].n < TWO_32 && v[2].Num? && 0 <= v[2].n < TWO_64
    && v[3].Num? && 0 <= v[3].n < TWO_64 && v[4].Data? && v[5].Data? && v[6].Data? && v[7].Data? && v[8].Data?
    && v[9].Data? && v[10].Data? && v[11].Num? && 0 <= v[11].n < TWO_64 && v[12].Data? && v[13].Data?
    && v[14].DataList? && v[15].DataList?
  }

  lemma PreparePropTyped(sc: Schema, m: Msg)
    requires sc == PREPARE_PROP_SCHEMA && Typed(sc, m)
    ensures PreparePropKinds(m.vals)
  {
    var v := m.vals;
    assert forall i :: 0 <= i < |v| ==> HasKind(sc[i].kind, v[i]);
  }

  function PreparePropFromMsg(m: Msg): PreparePackedMessageProp
    requires Typed(PREPARE_PROP_SCHEMA, m)
  {
    PreparePropTyped(PREPARE_PROP_SCHEMA, m);
    var v := m.vals;
    PreparePackedMessageProp(
      v[0].b, v[1].n, v[2].n, v[3].n, v[4].b, v[5].b, v[6].b, v[7].b, v[8].b, v[9].b, v[10].b,
      v[11].n, v[12].b, v[13].b, v[14].bs, v[15].bs, m.unknown)
  }

  lemma PreparePropFromTo(m: PreparePackedMessageProp)
    ensures PreparePropFromMsg(PreparePropToMsg(m)) == m
  {
  }

  lemma PreparePropWellFormed()
    ensures WellFormed(PREPARE_PROP_SCHEMA)
  {
    NumberedFromOne(PREPARE_PROP_SCHEMA);
  }

  lemma PreparePropRoundTrip(m: PreparePackedMessageProp, sc: Schema, x: Msg)
    requires sc == PREPARE_PROP_SCHEMA && x == PreparePropToMsg(m)
    requires UnknownRun(sc, x.unknown) && |Encode(sc, x)| < TWO_63
    ensures var o := Decode(sc, Fresh(sc), Encode(sc, x));
            o.stop == Done && Typed(sc, o.msg) && PreparePropFromMsg(o.msg) == m
  {
    PreparePropFromTo(m);
    PreparePropWellFormed();
    RoundTrip(sc, x);
  }
}
