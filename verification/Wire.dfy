/** The meaning of the generated message codec, for any field schema: what bytes a message
    marshals to, and what unmarshalling a byte string into a message does to it, field by
    field, including where and how it stops. */
module Wire {
  import opened Bits
  import opened Varint

  datatype Kind = Enum32 | UInt32 | UInt64 | Blob | BlobList

  datatype Field = Field(num: nat, kind: Kind)

  type Schema = seq<Field>

  const MAX_FIELD_NUM: nat := 0x1FFF_FFFF

  ghost predicate WellFormed(sc: Schema) {
    && (forall i :: 0 <= i < |sc| ==> 0 < sc[i].num <= MAX_FIELD_NUM)
    && (forall i, j :: 0 <= i < j < |sc| ==> sc[i].num != sc[j].num)
  }

  /** A field's value. A nil byte slice and an empty one are the same value. */
  datatype Value = Num(n: int) | Data(b: Bytes) | DataList(bs: seq<Bytes>)

  /** A message: one value per schema field, and the bytes of the fields it did not know. */
  datatype Msg = Msg(vals: seq<Value>, unknown: Bytes)

  predicate IsVarint(k: Kind) {
    k.Enum32? || k.UInt32? || k.UInt64?
  }

  ghost predicate HasKind(k: Kind, v: Value) {
    match k
    case Enum32 => v.Num? && -TWO_31 <= v.n < TWO_31
    case UInt32 => v.Num? && 0 <= v.n < TWO_32
    case UInt64 => v.Num? && 0 <= v.n < TWO_64
    case Blob => v.Data?
    case BlobList => v.DataList?
  }

  ghost predicate Typed(sc: Schema, m: Msg) {
    && |m.vals| == |sc|
    && forall i :: 0 <= i < |sc| ==> HasKind(sc[i].kind, m.vals[i])
  }

  function Zero(k: Kind): (v: Value)
    ensures HasKind(k, v)
  {
    if IsVarint(k) then Num(0) else if k.Blob? then Data([]) else DataList([])
  }

  /** A message as it is before anything is unmarshalled into it. */
  function Fresh(sc: Schema): (m: Msg)
    ensures Typed(sc, m)
  {
    Msg(seq(|sc|, i requires 0 <= i < |sc| => Zero(sc[i].kind)), [])
  }

  // ----- marshalling -----

  const VARINT_TYPE: nat := 0
  const BYTES_TYPE: nat := 2
  const END_GROUP_TYPE: nat := 4

  function TagBytes(num: nat, wireType: nat): Bytes {
    VarintBytes(num * 8 + wireType)
  }

  /** The conversion `uint64(x)` of a field's integer: a negative enum is sign-extended. */
  function Word(n: int): nat
    requires -TWO_63 <= n < TWO_64
  {
    if n < 0 then n + TWO_64 else n
  }

  function EncodeBlob(num: nat, b: Bytes): Bytes {
    TagBytes(num, BYTES_TYPE) + VarintBytes(|b|) + b
  }

  function EncodeBlobs(num: nat, bs: seq<Bytes>): Bytes {
    if bs == [] then [] else EncodeBlob(num, bs[0]) + EncodeBlobs(num, bs[1..])
  }

  function EncodeField(f: Field, v: Value): Bytes
    requires HasKind(f.kind, v)
  {
    match v
    case Num(n) => if n == 0 then [] else TagBytes(f.num, VARINT_TYPE) + VarintBytes(Word(n))
    case Data(b) => if b == [] then [] else EncodeBlob(f.num, b)
    case DataList(bs) => EncodeBlobs(f.num, bs)
  }

  /** The fields from index `i` on, in schema order. */
  function EncodeFields(sc: Schema, m: Msg, i: nat): Bytes
    requires Typed(sc, m) && i <= |sc|
    decreases |sc| - i
  {
    if i == |sc| then [] else EncodeField(sc[i], m.vals[i]) + EncodeFields(sc, m, i + 1)
  }

  function Encode(sc: Schema, m: Msg): Bytes
    requires Typed(sc, m)
  {
    EncodeFields(sc, m, 0) + m.unknown
  }

  // ----- skipping an unknown field -----

  datatype Skipped = SkipOk(n: nat) | SkipErr(err: WireError)

  type Positive = n: nat | n > 0 witness 1

  /** One tag and its payload: how far they reach and the group depth after them. */
  datatype Reach = Reach(n: Positive, depth: nat) | NoReach(err: WireError)

  /** The length declared by a length prefix, read as a signed 64-bit integer. */
  function Length(raw: nat): int {
    ToInt64(raw % TWO_64)
  }

  /** The reach of a payload of the given wire type: `rest` starts at it, `at` bytes of tag lie
      before it. It may go past the end of `rest`. */
  function PayloadReach(wireType: nat, at: Positive, rest: Bytes, depth: nat): Reach {
    match wireType
    case 0 =>
      var r := ReadVar(rest, 0);
      if r.err.Some? then NoReach(r.err.value) else Reach(at + r.used, depth)
    case 1 => Reach(at + 8, depth)
    case 2 =>
      var r := ReadVar(rest, 0);
      if r.err.Some? then NoReach(r.err.value)
      else if Length(r.raw) < 0 then NoReach(InvalidLength)
      else Reach(at + r.used + Length(r.raw), depth)
    case 3 => Reach(at, depth + 1)
    case 4 => if depth == 0 then NoReach(UnexpectedEndOfGroup) else Reach(at, depth - 1)
    case 5 => Reach(at + 4, depth)
    case _ => NoReach(IllegalWireType(wireType))
  }

  /** The reach of the first tag of `s` and its payload. */
  function SkipOne(s: Bytes, depth: nat): Reach {
    var t := ReadVar(s, 0);
    if t.err.Some? then NoReach(t.err.value)
    else PayloadReach(t.raw % 8, t.used, s[t.used..], depth)
  }

  /** The skipping loop over any way of reaching past one tag, when `used` bytes lie behind and `s`
      ahead: it ends when the depth is back to zero. An index of 2^63 or more has wrapped negative. */
  function SkipWith(one: (Bytes, nat) -> Reach, s: Bytes, used: nat, depth: nat): (r: Skipped)
    ensures r.SkipOk? ==> used < r.n < TWO_63
    decreases |s|
  {
    if s == [] then SkipErr(UnexpectedEOF) else
    var r := one(s, depth);
    if r.NoReach? then SkipErr(r.err)
    else if used + r.n >= TWO_63 then SkipErr(InvalidLength)
    else if r.depth == 0 then SkipOk(used + r.n)
    else if r.n > |s| then SkipErr(UnexpectedEOF)
    else SkipWith(one, s[r.n..], used + r.n, r.depth)
  }

  /** `skipMessageCons`: the number of bytes of the first complete field, nested groups included. */
  function Skip(s: Bytes): Skipped {
    SkipWith(SkipOne, s, 0, 0)
  }

  // ----- unmarshalling -----

  /** Where unmarshalling ends: at the end of the data, on an error, or on a field whose declared
      end (an index into the data) lies past the end of the data. */
  datatype Stop = Done | Fail(err: WireError) | PastEnd(end: nat)

  /** The error returned: a declared end that does not fit a signed 64-bit index has wrapped to a
      negative number. */
  function ErrorOf(stop: Stop): Option<WireError> {
    match stop
    case Done => None
    case Fail(e) => Some(e)
    case PastEnd(end) => if end >= TWO_63 then Some(InvalidLength) else Some(UnexpectedEOF)
  }

  function Shift(stop: Stop, offset: nat): Stop {
    if stop.PastEnd? then PastEnd(stop.end + offset) else stop
  }

  type Trouble = s: Stop | !s.Done? witness PastEnd(0)

  /** One turn of the unmarshalling loop. */
  datatype Step = Next(msg: Msg, used: Positive) | Halt(msg: Msg, stop: Trouble)

  function FieldNum(wire: nat): int {
    ToInt32((wire / 8) % TWO_32)
  }

  function FindFrom(sc: Schema, num: int, i: nat): (r: Option<nat>)
    requires i <= |sc|
    ensures r.Some? ==> i <= r.value < |sc| && sc[r.value].num == num
    ensures r.None? ==> forall j :: i <= j < |sc| ==> sc[j].num != num
    decreases |sc| - i
  {
    if i == |sc| then None
    else if sc[i].num == num then Some(i)
    else FindFrom(sc, num, i + 1)
  }

  function Truncate(k: Kind, raw: nat): int {
    if k.Enum32? then ToInt32(raw % TWO_32)
    else if k.UInt32? then raw % TWO_32
    else raw % TWO_64
  }

  /** Storing a payload: the last one wins, except that a repeated field collects them all. */
  function Store(v: Value, b: Bytes): Value {
    if v.DataList? then DataList(v.bs + [b]) else Data(b)
  }

  function SetField(m: Msg, i: nat, v: Value): Msg
    requires i < |m.vals|
  {
    m.(vals := m.vals[i := v])
  }

  /** A known varint field; `s` starts at its payload and `at` bytes of tag lie before it. */
  function VarintStep(k: Kind, m: Msg, i: nat, s: Bytes, at: Positive): Step
    requires i < |m.vals|
  {
    var r := ReadVar(s, 0);
    var m' := SetField(m, i, Num(Truncate(k, r.raw)));
    if r.err.Some? then Halt(m', Fail(r.err.value)) else Next(m', at + r.used)
  }

  /** A length-delimited payload of `len` bytes, after `used` bytes of length prefix. */
  function BlobAt(m: Msg, i: nat, s: Bytes, at: Positive, used: nat, len: int): Step
    requires i < |m.vals|
  {
    if len < 0 then Halt(m, Fail(InvalidLength))
    else if used + len > |s| then Halt(m, PastEnd(at + (used + len)))
    else Next(SetField(m, i, Store(m.vals[i], s[used..used + len])), at + (used + len))
  }

  /** A known length-delimited field. */
  function BlobStep(m: Msg, i: nat, s: Bytes, at: Positive): Step
    requires i < |m.vals|
  {
    var r := ReadVar(s, 0);
    if r.err.Some? then Halt(m, Fail(r.err.value)) else BlobAt(m, i, s, at, r.used, Length(r.raw))
  }

  /** A field that is not in the schema: its bytes, tag included, join the unknown tail. */
  function UnknownStep(m: Msg, s: Bytes): Step {
    var r := Skip(s);
    if r.SkipErr? then Halt(m, Fail(r.err))
    else if r.n > |s| then Halt(m, PastEnd(r.n))
    else Next(m.(unknown := m.unknown + s[..r.n]), r.n)
  }

  /** The field with a given tag: `wireType` and field `num`, which ended after `at` bytes of `s`. */
  function FieldStep(sc: Schema, m: Msg, num: int, wireType: nat, s: Bytes, at: Positive): Step
    requires at <= |s| && |m.vals| == |sc|
  {
    var f := FindFrom(sc, num, 0);
    if f.None? then UnknownStep(m, s)
    else if IsVarint(sc[f.value].kind) then
      if wireType != VARINT_TYPE then Halt(m, Fail(WrongWireType(wireType, num)))
      else VarintStep(sc[f.value].kind, m, f.value, s[at..], at)
    else
      if wireType != BYTES_TYPE then Halt(m, Fail(WrongWireType(wireType, num)))
      else BlobStep(m, f.value, s[at..], at)
  }

  /** The first field of `s`. (A message without one value per field does not occur; the guard
      makes the function total, so that it can be passed to `Run`.) */
  function OneField(sc: Schema, m: Msg, s: Bytes): Step {
    var t := ReadVar(s, 0);
    if t.err.Some? || |m.vals| != |sc| then
      Halt(m, Fail(if t.err.Some? then t.err.value else UnexpectedEOF))
    else
      var wire := t.raw % TWO_64;
      var num, wireType := FieldNum(wire), wire % 8;
      if wireType == END_GROUP_TYPE then Halt(m, Fail(EndGroupForNonGroup))
      else if num <= 0 then Halt(m, Fail(IllegalTag(num, wire)))
      else FieldStep(sc, m, num, wireType, s, t.used)
  }

  /** The message afterwards, as left by an error too, and where decoding stopped. */
  datatype Outcome = Outcome(msg: Msg, stop: Stop)

  /** The unmarshalling loop over any step: it runs until the data is used up. */
  function Run(step: (Msg, Bytes) -> Step, m: Msg, s: Bytes): Outcome
    decreases |s|
  {
    if s == [] then Outcome(m, Done) else
    match step(m, s)
    case Halt(m', stop) => Outcome(m', stop)
    case Next(m', used) =>
      if used > |s| then Outcome(m', Fail(UnexpectedEOF)) else
      var o := Run(step, m', s[used..]);
      Outcome(o.msg, Shift(o.stop, used))
  }

  function Fields(sc: Schema): (Msg, Bytes) -> Step {
    (m, s) => OneField(sc, m, s)
  }

  /** `Unmarshal` of `s` into `m`. */
  function Decode(sc: Schema, m: Msg, s: Bytes): Outcome {
    Run(Fields(sc), m, s)
  }
}
