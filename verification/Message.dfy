/** The generated methods of a message type, over its field schema: sizing, marshalling back to
    front into a buffer, and unmarshalling by one loop that updates the message in place. */
module Message {
  import opened Bits
  import opened Varint
  import opened Wire
  import opened WireLaws

  // ----- writing back to front -----

  /** The buffer `b` is `a` with `w` written over the indices from `lo` up to `hi`. */
  ghost predicate Written(a: Bytes, b: Bytes, lo: nat, hi: nat, w: Bytes) {
    lo + |w| == hi <= |a| && b == a[..lo] + w + a[hi..]
  }

  lemma WrittenBefore(a: Bytes, b: Bytes, c: Bytes, lo: nat, mid: nat, hi: nat, x: Bytes, y: Bytes)
    requires Written(a, b, mid, hi, x) && Written(b, c, lo, mid, y)
    ensures Written(a, c, lo, hi, y + x)
  {
  }

  /** `i -= len(data); copy(dAtA[i:], data)`. */
  method PutBytes(buf: array<Byte>, hi: nat, data: Bytes) returns (i: nat)
    requires |data| <= hi <= buf.Length
    modifies buf
    ensures i == hi - |data| && Written(old(buf[..]), buf[..], i, hi, data)
  {
    i := hi - |data|;
    for k := 0 to |data|
      invariant forall j :: 0 <= j < k ==> buf[i + j] == data[j]
      invariant forall j :: 0 <= j < i || hi <= j < buf.Length ==> buf[j] == old(buf[j])
    {
      buf[i + k] := data[k];
    }
  }

  /** Stores the bytes of a tag one index at a time, the last one first. */
  method PutTag(buf: array<Byte>, hi: nat, num: nat, wireType: nat) returns (i: nat)
    requires |TagBytes(num, wireType)| <= hi <= buf.Length
    modifies buf
    ensures Written(old(buf[..]), buf[..], i, hi, TagBytes(num, wireType))
  {
    var tag := TagBytes(num, wireType);
    var k := |tag|;
    i := hi;
    while k > 0
      invariant 0 <= k <= |tag| && i == hi - |tag| + k
      invariant forall j :: k <= j < |tag| ==> buf[hi - |tag| + j] == tag[j]
      invariant forall j :: 0 <= j < i || hi <= j < buf.Length ==> buf[j] == old(buf[j])
    {
      k := k - 1;
      i := i - 1;
      buf[i] := tag[k];
    }
  }

  method PutVarint(buf: array<Byte>, hi: nat, v: nat) returns (i: nat)
    requires v < TWO_64 && |VarintBytes(v)| <= hi <= buf.Length
    modifies buf
    ensures Written(old(buf[..]), buf[..], i, hi, VarintBytes(v))
  {
    i := EncodeVarint(buf, hi, v);
  }

  method PutBlob(buf: array<Byte>, hi: nat, num: nat, b: Bytes) returns (i: nat)
    requires |EncodeBlob(num, b)| <= hi <= buf.Length < TWO_63
    modifies buf
    ensures Written(old(buf[..]), buf[..], i, hi, EncodeBlob(num, b))
  {
    ghost var b0 := buf[..];
    i := PutBytes(buf, hi, b);
    ghost var b1, i1 := buf[..], i;
    i := PutVarint(buf, i, |b|);
    ghost var b2, i2 := buf[..], i;
    WrittenBefore(b0, b1, b2, i2, i1, hi, b, VarintBytes(|b|));
    i := PutTag(buf, i, num, BYTES_TYPE);
    WrittenBefore(b0, b2, buf[..], i, i2, hi, VarintBytes(|b|) + b, TagBytes(num, BYTES_TYPE));
    assert TagBytes(num, BYTES_TYPE) + (VarintBytes(|b|) + b) == EncodeBlob(num, b);
  }

  lemma {:induction false} EncodeBlobsLast(num: nat, bs: seq<Bytes>, k: nat)
    requires k < |bs|
    ensures EncodeBlobs(num, bs[k..]) == EncodeBlob(num, bs[k]) + EncodeBlobs(num, bs[k + 1..])
  {
  }

  lemma {:induction false} EncodeBlobsSuffix(num: nat, bs: seq<Bytes>, k: nat)
    requires k <= |bs|
    ensures |EncodeBlobs(num, bs[k..])| <= |EncodeBlobs(num, bs)|
  {
    if k == 0 {
      assert bs[0..] == bs;
    } else {
      EncodeBlobsSuffix(num, bs, k - 1);
      EncodeBlobsLast(num, bs, k - 1);
    }
  }

  /** A repeated field: its elements from the last to the first. */
  method PutBlobs(buf: array<Byte>, hi: nat, num: nat, bs: seq<Bytes>) returns (i: nat)
    requires |EncodeBlobs(num, bs)| <= hi <= buf.Length < TWO_63
    modifies buf
    ensures Written(old(buf[..]), buf[..], i, hi, EncodeBlobs(num, bs))
  {
    i := hi;
    var k := |bs|;
    assert buf[..] == buf[..hi] + [] + buf[hi..];
    while k > 0
      invariant 0 <= k <= |bs| && i <= hi
      invariant Written(old(buf[..]), buf[..], i, hi, EncodeBlobs(num, bs[k..]))
    {
      ghost var b1, i1 := buf[..], i;
      EncodeBlobsLast(num, bs, k - 1);
      EncodeBlobsSuffix(num, bs, k - 1);
      i := PutBlob(buf, i, num, bs[k - 1]);
      WrittenBefore(old(buf[..]), b1, buf[..], i, i1, hi, EncodeBlobs(num, bs[k..]), EncodeBlob(num, bs[k - 1]));
      k := k - 1;
    }
    assert bs[0..] == bs;
  }

  method PutField(buf: array<Byte>, hi: nat, f: Field, v: Value) returns (i: nat)
    requires HasKind(f.kind, v) && |EncodeField(f, v)| <= hi <= buf.Length < TWO_63
    modifies buf
    ensures Written(old(buf[..]), buf[..], i, hi, EncodeField(f, v))
  {
    i := hi;
    assert buf[..] == buf[..hi] + [] + buf[hi..];
    match v
    case Num(n) =>
      if n != 0 {
        ghost var b0 := buf[..];
        i := PutVarint(buf, i, Word(n));
        ghost var b1, i1 := buf[..], i;
        i := PutTag(buf, i, f.num, VARINT_TYPE);
        WrittenBefore(b0, b1, buf[..], i, i1, hi, VarintBytes(Word(n)), TagBytes(f.num, VARINT_TYPE));
      }
    case Data(b) =>
      if |b| > 0 {
        i := PutBlob(buf, i, f.num, b);
      }
    case DataList(bs) =>
      i := PutBlobs(buf, i, f.num, bs);
  }

  lemma {:induction false} FieldsNext(sc: Schema, m: Msg, k: nat, e: Bytes, rest: Bytes)
    requires Typed(sc, m) && k < |sc|
    requires e == EncodeField(sc[k], m.vals[k]) && rest == EncodeFields(sc, m, k + 1)
    ensures EncodeFields(sc, m, k) == e + rest
  {
  }

  lemma {:induction false} FieldsSuffix(sc: Schema, m: Msg, k: nat, suffix: Bytes)
    requires Typed(sc, m) && k <= |sc| && suffix == EncodeFields(sc, m, k)
    ensures |suffix| <= |EncodeFields(sc, m, 0)|
  {
    if k > 0 {
      var e := EncodeField(sc[k - 1], m.vals[k - 1]);
      FieldsNext(sc, m, k - 1, e, suffix);
      FieldsSuffix(sc, m, k - 1, e + suffix);
    }
  }

  /** All fields, from the last to the first. */
  method PutFields(buf: array<Byte>, hi: nat, sc: Schema, vals: seq<Value>, ghost m: Msg) returns (i: nat)
    requires Typed(sc, m) && vals == m.vals
    requires |EncodeFields(sc, m, 0)| <= hi <= buf.Length < TWO_63
    modifies buf
    ensures Written(old(buf[..]), buf[..], i, hi, EncodeFields(sc, m, 0))
  {
    i := hi;
    var k := |sc|;
    ghost var tail: Bytes := [];
    assert buf[..] == buf[..hi] + [] + buf[hi..];
    while k > 0
      invariant 0 <= k <= |sc| && i <= hi && tail == EncodeFields(sc, m, k)
      invariant Written(old(buf[..]), buf[..], i, hi, tail)
    {
      ghost var b1, i1 := buf[..], i;
      k := k - 1;
      ghost var e := EncodeField(sc[k], vals[k]);
      FieldsNext(sc, m, k, e, tail);
      FieldsSuffix(sc, m, k, e + tail);
      i := PutField(buf, i, sc[k], vals[k]);
      WrittenBefore(old(buf[..]), b1, buf[..], i, i1, hi, tail, e);
      tail := e + tail;
    }
  }

  // ----- sizing -----

  method BlobSize(num: nat, b: Bytes) returns (n: nat)
    ensures n == |EncodeBlob(num, b)|
  {
    SovIsVarintLength(|b|);
    n := |TagBytes(num, BYTES_TYPE)| + |b| + Sov(|b|);
  }

  method FieldSize(f: Field, v: Value) returns (n: nat)
    requires HasKind(f.kind, v)
    ensures n == |EncodeField(f, v)|
  {
    n := 0;
    match v
    case Num(x) =>
      if x != 0 {
        SovIsVarintLength(Word(x));
        n := |TagBytes(f.num, VARINT_TYPE)| + Sov(Word(x));
      }
    case Data(b) =>
      if |b| > 0 {
        n := BlobSize(f.num, b);
      }
    case DataList(bs) =>
      for k := 0 to |bs|
        invariant n + |EncodeBlobs(f.num, bs[k..])| == |EncodeBlobs(f.num, bs)|
      {
        EncodeBlobsLast(f.num, bs, k);
        var l := BlobSize(f.num, bs[k]);
        n := n + l;
      }
  }

  method FieldsSize(sc: Schema, vals: seq<Value>, ghost m: Msg) returns (n: nat)
    requires Typed(sc, m) && vals == m.vals
    ensures n == |EncodeFields(sc, m, 0)|
  {
    n := 0;
    ghost var rest := EncodeFields(sc, m, 0);
    for i := 0 to |sc|
      invariant rest == EncodeFields(sc, m, i)
      invariant n + |rest| == |EncodeFields(sc, m, 0)|
    {
      var l := FieldSize(sc[i], vals[i]);
      rest := EncodeFields(sc, m, i + 1);
      FieldsNext(sc, m, i, EncodeField(sc[i], vals[i]), rest);
      n := n + l;
    }
  }

  // ----- skipping -----

  /** What a skipping step returns for the reach it found, counted from `offset` bytes back. */
  ghost predicate Returns(r: Reach, offset: nat, next: nat, deeper: nat, err: Option<WireError>) {
    match r
    case Reach(n, k) => err.None? && next == offset + n && deeper == k
    case NoReach(e) => err == Some(e)
  }

  /** The payload of one tag: where it ends, and the group depth after it. */
  method SkipPayload(d: Bytes, at: nat, wireType: nat, depth: nat)
    returns (next: nat, deeper: nat, err: Option<WireError>)
    requires 0 < at <= |d|
    ensures Returns(PayloadReach(wireType, at, d[at..], depth), 0, next, deeper, err)
  {
    next, deeper, err := at, depth, None;
    match wireType
    case 0 =>
      var _, end, e := ReadVarint(d, at, 64);
      next, err := end, e;
    case 1 => next := at + 8;
    case 2 =>
      var word, end, e := ReadVarint(d, at, 64);
      Pow2Literals();
      if e.Some? {
        return next, deeper, e;
      }
      var length := ToInt64(word);
      if length < 0 {
        return next, deeper, Some(InvalidLength);
      }
      next := end + length;
    case 3 => deeper := depth + 1;
    case 4 =>
      if depth == 0 {
        return next, deeper, Some(UnexpectedEndOfGroup);
      }
      deeper := depth - 1;
    case 5 => next := at + 4;
    case _ => err := Some(IllegalWireType(wireType));
  }

  lemma PayloadShift(wireType: nat, at: Positive, rest: Bytes, depth: nat, offset: nat, next: nat, deeper: nat, err: Option<WireError>)
    requires Returns(PayloadReach(wireType, offset + at, rest, depth), 0, next, deeper, err)
    ensures Returns(PayloadReach(wireType, at, rest, depth), offset, next, deeper, err)
  {
  }

  lemma {:induction false} SkipOneAt(s: Bytes, depth: nat, wireType: nat, rest: Bytes)
    requires var t := ReadVar(s, 0);
             t.err.None? && wireType == (t.raw % TWO_64) % 8 && rest == s[t.used..]
    ensures SkipOne(s, depth) == PayloadReach(wireType, ReadVar(s, 0).used, rest, depth)
  {
    var raw := ReadVar(s, 0).raw;
    assert wireType == raw % 8 by { ModMod(raw, 8, TWO_64 / 8); }
  }

  /** One turn of the skipping loop, from index `pre`. */
  method SkipTag(d: Bytes, pre: nat, depth: nat) returns (next: nat, deeper: nat, err: Option<WireError>)
    requires pre < |d|
    ensures Returns(SkipOne(d[pre..], depth), pre, next, deeper, err)
  {
    var wire, at, e := ReadVarint(d, pre, 64);
    if e.Some? {
      return pre, depth, e;
    }
    Pow2Literals();
    var wireType := wire % 8;
    next, deeper, err := SkipPayload(d, at, wireType, depth);
    PayloadShift(wireType, at - pre, d[at..], depth, pre, next, deeper, err);
    assert d[pre..][at - pre..] == d[at..];
    SkipOneAt(d[pre..], depth, wireType, d[at..]);
  }

  lemma {:induction false} SkipWithStep(one: (Bytes, nat) -> Reach, s: Bytes, used: nat, depth: nat, next: nat, deeper: nat, err: Option<WireError>)
    requires s != [] && Returns(one(s, depth), used, next, deeper, err)
    ensures var r := SkipWith(one, s, used, depth);
            if err.Some? then r == SkipErr(err.value)
            else if next >= TWO_63 then r == SkipErr(InvalidLength)
            else if deeper == 0 then r == SkipOk(next)
            else if next > used + |s| then r == SkipErr(UnexpectedEOF)
            else used < next && r == SkipWith(one, s[next - used..], next, deeper)
  {
  }

  /** `skipMessageCons`. */
  method SkipMessage(d: Bytes) returns (n: nat, err: Option<WireError>)
    requires |d| < TWO_63
    ensures Skip(d) == if err.None? then SkipOk(n) else SkipErr(err.value)
  {
    var idx: nat, depth: nat := 0, 0;
    ghost var whole := Skip(d);
    assert d[0..] == d;
    while idx < |d|
      invariant idx <= |d| ==> whole == SkipWith(SkipOne, d[idx..], idx, depth)
      invariant idx > |d| ==> whole == SkipErr(UnexpectedEOF)
    {
      var next, deeper, e := SkipTag(d, idx, depth);
      SkipWithStep(SkipOne, d[idx..], idx, depth, next, deeper, e);
      if e.Some? {
        return 0, e;
      }
      if next >= TWO_63 {
        return 0, Some(InvalidLength);
      }
      if deeper == 0 {
        return next, None;
      }
      assert next <= |d| ==> d[idx..][next - idx..] == d[next..];
      idx, depth := next, deeper;
    }
    return 0, Some(UnexpectedEOF);
  }

  // ----- the message -----

  /** What one turn of the unmarshalling loop leaves and returns, for a step that started at index
      `offset`. */
  ghost predicate Did(r: Step, offset: nat, m: Msg, next: nat, err: Option<WireError>) {
    && m == r.msg
    && match r
       case Next(_, used) => err.None? && next == offset + used
       case Halt(_, stop) => err == ErrorOf(Shift(stop, offset))
  }

  lemma SliceOfSuffix(d: Bytes, at: nat, lo: nat, hi: nat)
    requires at <= lo <= hi <= |d|
    ensures d[at..][lo - at..hi - at] == d[lo..hi]
  {
  }

  lemma {:induction false} RunStep(step: (Msg, Bytes) -> Step, m: Msg, s: Bytes, offset: nat, m': Msg, next: nat, err: Option<WireError>)
    requires s != [] && Did(step(m, s), offset, m', next, err) && (err.None? ==> next <= offset + |s|)
    ensures var r := Run(step, m, s);
            if err.Some? then Then(r, offset).msg == m' && ErrorOf(Then(r, offset).stop) == err
            else offset < next && Then(r, offset) == Then(Run(step, m', s[next - offset..]), next)
  {
  }

  class Message {
    const schema: Schema
    var vals: seq<Value>
    var unknown: Bytes

    /** The message as a value. */
    ghost function Val(): Msg
      reads this
    {
      Msg(vals, unknown)
    }

    ghost predicate Valid()
      reads this
    {
      WellFormed(schema) && Typed(schema, Val())
    }

    constructor (schema: Schema)
      requires WellFormed(schema)
      ensures Valid() && this.schema == schema && Val() == Fresh(schema)
    {
      this.schema := schema;
      vals := Fresh(schema).vals;
      unknown := [];
    }

    method Size() returns (n: nat)
      requires Valid()
      ensures n == |Encode(schema, Val())|
    {
      n := FieldsSize(schema, vals, Val());
      n := n + |unknown|;
    }

    /** Fills the buffer backwards from index `end`: the unknown tail, then the fields from the last
        to the first. Bytes before the message and from `end` on do not change. */
    method MarshalToSizedBuffer(buf: array<Byte>, end: nat) returns (n: nat)
      requires Valid()
      requires |Encode(schema, Val())| <= end <= buf.Length < TWO_63
      modifies buf
      ensures n == |Encode(schema, Val())|
      ensures buf[..] == old(buf[..])[..end - n] + Encode(schema, Val()) + old(buf[..])[end..]
    {
      ghost var b0, rest := buf[..], EncodeFields(schema, Val(), 0);
      var i := PutBytes(buf, end, unknown);
      ghost var b1, mid := buf[..], i;
      i := PutFields(buf, i, schema, vals, Val());
      WrittenBefore(b0, b1, buf[..], i, mid, end, unknown, rest);
      n := end - i;
    }

    /** A buffer of exactly the computed size is filled down to index 0. */
    method Marshal() returns (data: Bytes)
      requires Valid() && |Encode(schema, Val())| < TWO_63
      ensures data == Encode(schema, Val())
    {
      var size := Size();
      var buf := new Byte[size](_ => 0);
      var n := MarshalToSizedBuffer(buf, size);
      data := buf[..n];
    }

    /** The varint field at index `i` of the schema, whose payload starts at `at`. */
    method StoreVarint(d: Bytes, i: nat, at: nat, ghost pre: nat) returns (next: nat, err: Option<WireError>)
      requires Valid() && i < |schema| && IsVarint(schema[i].kind) && pre < at <= |d|
      modifies this`vals
      ensures Did(VarintStep(schema[i].kind, old(Val()), i, d[at..], at - pre), pre, Val(), next, err)
    {
      Pow2Literals();
      var word;
      if schema[i].kind.UInt64? {
        word, next, err := ReadVarint(d, at, 64);
        vals := vals[i := Num(word)];
      } else {
        word, next, err := ReadVarint(d, at, 32);
        vals := vals[i := Num(if schema[i].kind.Enum32? then ToInt32(word) else word)];
      }
    }

    /** A payload of `byteLen` bytes from index `start` on, for the field at index `i` of the schema. */
    method StoreBlobAt(d: Bytes, i: nat, at: nat, start: nat, byteLen: int, ghost pre: nat)
      returns (next: nat, err: Option<WireError>)
      requires i < |vals| && pre < at <= start <= |d| < TWO_63
      modifies this`vals
      ensures Did(BlobAt(old(Val()), i, d[at..], at - pre, start - at, byteLen), pre, Val(), next, err)
    {
      if byteLen < 0 {
        return at, Some(InvalidLength);
      }
      var postIndex := start + byteLen;
      if postIndex >= TWO_63 {
        return at, Some(InvalidLength);
      }
      if postIndex > |d| {
        return at, Some(UnexpectedEOF);
      }
      SliceOfSuffix(d, at, start, postIndex);
      vals := vals[i := Store(vals[i], d[start..postIndex])];
      return postIndex, None;
    }

    /** The length-delimited field at index `i` of the schema. */
    method StoreBlob(d: Bytes, i: nat, at: nat, ghost pre: nat) returns (next: nat, err: Option<WireError>)
      requires i < |vals| && pre < at <= |d| < TWO_63
      modifies this`vals
      ensures Did(BlobStep(old(Val()), i, d[at..], at - pre), pre, Val(), next, err)
    {
      Pow2Literals();
      var word, start, e := ReadVarint(d, at, 64);
      if e.Some? {
        return at, e;
      }
      next, err := StoreBlobAt(d, i, at, start, ToInt64(word), pre);
    }

    /** A field the schema does not know, from its tag at `pre`. */
    method StoreUnknown(d: Bytes, pre: nat) returns (next: nat, err: Option<WireError>)
      requires pre < |d| < TWO_63
      modifies this`unknown
      ensures Did(UnknownStep(old(Val()), d[pre..]), pre, Val(), next, err)
    {
      var skippy, e := SkipMessage(d[pre..]);
      if e.Some? {
        return pre, e;
      }
      if pre + skippy >= TWO_63 {
        return pre, Some(InvalidLength);
      }
      if pre + skippy > |d| {
        return pre, Some(UnexpectedEOF);
      }
      assert d[pre..][..skippy] == d[pre..pre + skippy];
      unknown := unknown + d[pre..pre + skippy];
      return pre + skippy, None;
    }

    /** The field with a given tag, which lies between indices `pre` and `at`. */
    method StoreField(d: Bytes, pre: nat, at: nat, fieldNum: int, wireType: nat)
      returns (next: nat, err: Option<WireError>)
      requires Valid() && pre < at <= |d| < TWO_63
      modifies this
      ensures Did(FieldStep(schema, old(Val()), fieldNum, wireType, d[pre..], at - pre), pre, Val(), next, err)
    {
      assert d[pre..][at - pre..] == d[at..];
      var f := FindFrom(schema, fieldNum, 0);
      if f.None? {
        next, err := StoreUnknown(d, pre);
      } else if IsVarint(schema[f.value].kind) {
        if wireType != VARINT_TYPE {
          return pre, Some(WrongWireType(wireType, fieldNum));
        }
        next, err := StoreVarint(d, f.value, at, pre);
      } else {
        if wireType != BYTES_TYPE {
          return pre, Some(WrongWireType(wireType, fieldNum));
        }
        next, err := StoreBlob(d, f.value, at, pre);
      }
    }

    /** One turn of the unmarshalling loop, from index `pre`. */
    method UnmarshalField(d: Bytes, pre: nat) returns (next: nat, err: Option<WireError>)
      requires Valid() && pre < |d| < TWO_63
      modifies this
      ensures Did(OneField(schema, old(Val()), d[pre..]), pre, Val(), next, err)
    {
      Pow2Literals();
      var wire, at, e := ReadVarint(d, pre, 64);
      if e.Some? {
        return pre, e;
      }
      var fieldNum, wireType := FieldNum(wire), wire % 8;
      if wireType == END_GROUP_TYPE {
        return pre, Some(EndGroupForNonGroup);
      }
      if fieldNum <= 0 {
        return pre, Some(IllegalTag(fieldNum, wire));
      }
      next, err := StoreField(d, pre, at, fieldNum, wireType);
    }

    /** Decodes `d` into this message: it ends with an error or with every byte consumed. */
    method Unmarshal(d: Bytes) returns (err: Option<WireError>)
      requires Valid() && |d| < TWO_63
      modifies this
      ensures Valid()
      ensures var o := Decode(schema, old(Val()), d);
              Val() == o.msg && err == ErrorOf(o.stop)
    {
      var idx: nat := 0;
      ghost var whole := Decode(schema, Val(), d);
      assert d[0..] == d;
      while idx < |d|
        invariant idx <= |d| && Valid()
        invariant whole == Then(Decode(schema, Val(), d[idx..]), idx)
        decreases |d| - idx
      {
        ghost var m := Val();
        OneFieldKeepsTyped(schema, m, d[idx..]);
        OneFieldInside(schema, m, d[idx..]);
        var next, e := UnmarshalField(d, idx);
        RunStep(Fields(schema), m, d[idx..], idx, Val(), next, e);
        if e.Some? {
          return e;
        }
        assert d[idx..][next - idx..] == d[next..];
        idx := next;
      }
      return None;
    }
  }

  /** A successful step stays inside the data. */
  lemma OneFieldInside(sc: Schema, m: Msg, s: Bytes)
    ensures OneField(sc, m, s).Next? ==> OneField(sc, m, s).used <= |s|
  {
  }
}
