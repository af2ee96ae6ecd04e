/** The bytes of the three consensus messages, field by field, with the tags that the generated
    marshallers store as literals. */
module MessageBytes {
  import opened Bits
  import opened Varint
  import opened Wire
  import opened ConsensusMessages

  // ----- one field -----

  /** A byte string after its tag and length. */
  function Payload(tag: Bytes, b: Bytes): Bytes {
    tag + VarintBytes(|b|) + b
  }

  /** Every element of a repeated field, empty ones included. */
  function ListBytes(tag: Bytes, bs: seq<Bytes>): Bytes {
    if bs == [] then [] else Payload(tag, bs[0]) + ListBytes(tag, bs[1..])
  }

  /** A field after its tag. A zero or an empty byte string is left out; a negative number is
      sign-extended to 64 bits. */
  function Shown(tag: Bytes, v: Value): Bytes {
    match v
    case Num(n) => if n == 0 then [] else tag + VarintBytes(if n < 0 then (n + TWO_64) % TWO_64 else n)
    case Data(b) => if b == [] then [] else Payload(tag, b)
    case DataList(bs) => ListBytes(tag, bs)
  }

  /** The fields in a row. */
  function Row(tags: seq<Bytes>, vals: seq<Value>): Bytes
    requires |tags| == |vals|
  {
    if tags == [] then [] else Shown(tags[0], vals[0]) + Row(tags[1..], vals[1..])
  }

  function TagOf(f: Field): Bytes {
    TagBytes(f.num, if IsVarint(f.kind) then VARINT_TYPE else BYTES_TYPE)
  }

  lemma {:induction false} ListShown(num: nat, bs: seq<Bytes>, tag: Bytes)
    requires tag == TagBytes(num, BYTES_TYPE)
    ensures EncodeBlobs(num, bs) == ListBytes(tag, bs)
  {
    if bs != [] {
      ListShown(num, bs[1..], tag);
    }
  }

  lemma {:induction false} FieldShown(f: Field, v: Value, tag: Bytes)
    requires HasKind(f.kind, v) && tag == TagOf(f)
    ensures EncodeField(f, v) == Shown(tag, v)
  {
    if v.DataList? {
      ListShown(f.num, v.bs, tag);
    } else if v.Num? && v.n < 0 {
      DivModUnique(v.n + TWO_64, TWO_64, 0, v.n + TWO_64);
    }
  }

  lemma {:induction false} FieldsShown(sc: Schema, x: Msg, tags: seq<Bytes>, i: nat)
    requires Typed(sc, x) && |tags| == |sc| && i <= |sc| && forall j :: 0 <= j < |sc| ==> tags[j] == TagOf(sc[j])
    ensures EncodeFields(sc, x, i) == Row(tags[i..], x.vals[i..])
    decreases |sc| - i
  {
    if i < |sc| {
      FieldsShown(sc, x, tags, i + 1);
      FieldShown(sc[i], x.vals[i], tags[i]);
      assert tags[i..][1..] == tags[i + 1..] && x.vals[i..][1..] == x.vals[i + 1..];
    }
  }

  lemma {:induction false} EncodeShown(sc: Schema, x: Msg, tags: seq<Bytes>)
    requires Typed(sc, x) && |tags| == |sc| && forall j :: 0 <= j < |sc| ==> tags[j] == TagOf(sc[j])
    ensures Encode(sc, x) == Row(tags, x.vals) + x.unknown
  {
    FieldsShown(sc, x, tags, 0);
    assert tags[0..] == tags && x.vals[0..] == x.vals;
  }

  lemma TagIs(f: Field, tag: Bytes)
    requires 1 <= f.num <= 16
    requires var w := f.num * 8 + if IsVarint(f.kind) then 0 else 2;
             tag == if f.num <= 15 then [w] else [w, 1]
    ensures tag == TagOf(f)
  {
    TagLiterals(f.num, if IsVarint(f.kind) then VARINT_TYPE else BYTES_TYPE);
  }

  // ----- the messages -----

  const CONSENSUS_TAGS: seq<Bytes> := [[0x8], [0x12]]

  lemma {:induction false} ConsensusBytes(m: ConsensusMessage, sc: Schema, x: Msg, tags: seq<Bytes>)
    requires sc == CONSENSUS_SCHEMA && x == ConsensusToMsg(m) && tags == CONSENSUS_TAGS
    ensures Encode(sc, x) == Row(tags, [Num(m.msgType), Data(m.data)]) + m.unknown
  {
    forall j | 0 <= j < |sc|
      ensures tags[j] == TagOf(sc[j])
    {
      TagIs(sc[j], tags[j]);
    }
    EncodeShown(sc, x, tags);
  }

  const PROPOSE_TAGS: seq<Bytes> :=
    [[0xa], [0x10], [0x18], [0x20], [0x2a], [0x32], [0x38], [0x42], [0x4a], [0x52], [0x5a]]

  lemma {:induction false} ProposeTags(sc: Schema, tags: seq<Bytes>)
    requires sc == PROPOSE_SCHEMA && tags == PROPOSE_TAGS
    ensures |tags| == |sc| && forall j :: 0 <= j < |sc| ==> tags[j] == TagOf(sc[j])
  {
    forall j | 0 <= j < |sc|
      ensures tags[j] == TagOf(sc[j])
    {
      TagIs(sc[j], tags[j]);
    }
  }

  lemma {:induction false} ProposeBytes(m: ProposeMessage, sc: Schema, x: Msg, tags: seq<Bytes>)
    requires sc == PROPOSE_SCHEMA && x == ProposeToMsg(m) && tags == PROPOSE_TAGS
    ensures |x.vals| == 11 && Encode(sc, x) == Row(tags, x.vals) + m.unknown
    ensures x.vals == [Data(m.chainID), Num(m.version), Num(m.epoch), Num(m.round), Data(m.signature), Data(m.pubKey),
                       Num(m.stateVersion), Data(m.maxPri), Data(m.proposer), DataList(m.propDatas), Data(m.blockHead)]
  {
    ProposeTags(sc, tags);
    EncodeShown(sc, x, tags);
  }

  const PREPARE_PROP_TAGS: seq<Bytes> :=
    [[0xa], [0x10], [0x18], [0x20], [0x2a], [0x32], [0x3a], [0x42], [0x4a], [0x52], [0x5a], [0x60], [0x6a], [0x72], [0x7a],
     [0x82, 0x1]]

  lemma {:induction false} PreparePropTags(sc: Schema, tags: seq<Bytes>)
    requires sc == PREPARE_PROP_SCHEMA && tags == PREPARE_PROP_TAGS
    ensures |tags| == |sc| && forall j :: 0 <= j < |sc| ==> tags[j] == TagOf(sc[j])
  {
    forall j | 0 <= j < |sc|
      ensures tags[j] == TagOf(sc[j])
    {
      TagIs(sc[j], tags[j]);
    }
  }

  lemma {:induction false} PreparePropBytes(m: PreparePackedMessageProp, sc: Schema, x: Msg, tags: seq<Bytes>)
    requires sc == PREPARE_PROP_SCHEMA && x == PreparePropToMsg(m) && tags == PREPARE_PROP_TAGS
    ensures |x.vals| == 16 && Encode(sc, x) == Row(tags, x.vals) + m.unknown
    ensures x.vals == [Data(m.chainID), Num(m.version), Num(m.epoch), Num(m.round), Data(m.signature), Data(m.pubKey),
                       Data(m.parentBlockHash), Data(m.vrfProof), Data(m.vrfProofPubKey), Data(m.domainID), Data(m.launcher),
                       Num(m.stateVersion), Data(m.txRoot), Data(m.txResultRoot), DataList(m.txHashs), DataList(m.txResultHashs)]
  {
    PreparePropTags(sc, tags);
    EncodeShown(sc, x, tags);
  }
}
