/** How much a message grows when it is decoded and marshalled again: by at most five bytes for each
    field, because only a negative enum takes more bytes marshalled than it may take on the wire. */
module WireSize {
  import opened Bits
  import opened Varint
  import opened Wire
  import opened WireLaws

  // ----- varints -----

  lemma {:induction false} VarintMono(a: nat, b: nat)
    requires a <= b
    ensures |VarintBytes(a)| <= |VarintBytes(b)|
  {
    if a >= 128 {
      VarintMono(a / 128, b / 128);
    }
  }

  /** No varint on the wire is shorter than the one the writer chooses. */
  lemma {:induction false} ShortestVarint(s: Bytes, k: nat)
    requires k <= MAX_VARINT_LEN && ReadVar(s, k).err.None?
    ensures |VarintBytes(ReadVar(s, k).raw)| <= ReadVar(s, k).used
    decreases MAX_VARINT_LEN - k
  {
    if s[0] >= 128 {
      ShortestVarint(s[1..], k + 1);
    }
  }

  lemma {:induction false} AtMostRead(s: Bytes, v: nat)
    requires ReadVar(s, 0).err.None? && v <= ReadVar(s, 0).raw
    ensures |VarintBytes(v)| <= ReadVar(s, 0).used
  {
    ShortestVarint(s, 0);
    VarintMono(v, ReadVar(s, 0).raw);
  }

  lemma {:induction false} FiveBytes(v: nat)
    requires v >= TWO_31
    ensures |VarintBytes(v)| >= 5
  {
    var a, b, c := v / 128, v / 128 / 128, v / 128 / 128 / 128;
    assert a >= 128 && b >= 128 && c >= 128;
    assert |VarintBytes(c)| >= 2;
    assert |VarintBytes(b)| >= 3;
    assert |VarintBytes(a)| >= 4;
  }

  // ----- the weight of a message -----

  /** The bytes a field marshals to, a negative enum counting five less. */
  ghost function FieldWeight(f: Field, v: Value): int {
    if HasKind(f.kind, v) then |EncodeField(f, v)| - (if v.Num? && v.n < 0 then 5 else 0) else 0
  }

  lemma FieldWeightNonNegative(f: Field, v: Value)
    ensures FieldWeight(f, v) >= 0
  {
    if HasKind(f.kind, v) && v.Num? && v.n < 0 {
      FiveBytes(Word(v.n));
    }
  }

  /** The sum of any weight over the fields from index `i` on. */
  ghost function Sum(w: (Field, Value) -> int, sc: Schema, vals: seq<Value>, i: nat): int
    requires |vals| == |sc| && i <= |sc|
    decreases |sc| - i
  {
    if i == |sc| then 0 else w(sc[i], vals[i]) + Sum(w, sc, vals, i + 1)
  }

  lemma {:induction false} SumSet(w: (Field, Value) -> int, sc: Schema, vals: seq<Value>, i: nat, v: Value, k: nat)
    requires |vals| == |sc| && i < |sc| && k <= |sc|
    ensures Sum(w, sc, vals[i := v], k) - Sum(w, sc, vals, k)
            == if k <= i then w(sc[i], v) - w(sc[i], vals[i]) else 0
    decreases |sc| - k
  {
    if k < |sc| {
      SumSet(w, sc, vals, i, v, k + 1);
    }
  }

  /** The weight of the fields and the length of the unknown tail. */
  ghost function Weight(sc: Schema, m: Msg): int {
    if |m.vals| == |sc| then Sum(FieldWeight, sc, m.vals, 0) + |m.unknown| else 0
  }

  lemma {:induction false} EncodedWeight(sc: Schema, m: Msg, i: nat)
    requires Typed(sc, m) && i <= |sc|
    ensures |EncodeFields(sc, m, i)| <= Sum(FieldWeight, sc, m.vals, i) + 5 * (|sc| - i)
    decreases |sc| - i
  {
    if i < |sc| {
      EncodedWeight(sc, m, i + 1);
    }
  }

  lemma {:induction false} FreshWeight(sc: Schema, i: nat)
    requires i <= |sc|
    ensures Sum(FieldWeight, sc, Fresh(sc).vals, i) == 0
    decreases |sc| - i
  {
    if i < |sc| {
      FreshWeight(sc, i + 1);
    }
  }

  /** Setting a field to a value that weighs at most `used` more. */
  lemma SetGrows(sc: Schema, m: Msg, i: nat, v: Value, used: nat)
    requires Typed(sc, m) && i < |sc| && HasKind(sc[i].kind, v)
    requires FieldWeight(sc[i], v) <= FieldWeight(sc[i], m.vals[i]) + used
    ensures Typed(sc, SetField(m, i, v)) && Weight(sc, SetField(m, i, v)) <= Weight(sc, m) + used
  {
    SumSet(FieldWeight, sc, m.vals, i, v, 0);
  }

  // ----- one field -----

  /** The tag the writer chooses is no longer than the one that was read. */
  lemma {:induction false} TagFits(s: Bytes, num: int, wireType: nat)
    requires ReadVar(s, 0).err.None?
    requires var wire := ReadVar(s, 0).raw % TWO_64; num == FieldNum(wire) > 0 && wireType == wire % 8
    ensures |TagBytes(num, wireType)| <= ReadVar(s, 0).used
  {
    var wire := ReadVar(s, 0).raw % TWO_64;
    assert wire <= ReadVar(s, 0).raw;
    assert num <= wire / 8;
    AtMostRead(s, num * 8 + wireType);
  }

  /** A negative enum was read from at least five bytes and is written as ten. */
  lemma {:induction false} NegativeFits(f: Field, rest: Bytes, n: int)
    requires f.kind.Enum32? && ReadVar(rest, 0).err.None? && n == Truncate(f.kind, ReadVar(rest, 0).raw) < 0
    ensures HasKind(f.kind, Num(n)) && |VarintBytes(Word(n))| - 5 <= ReadVar(rest, 0).used
  {
    var raw := ReadVar(rest, 0).raw;
    assert raw >= TWO_31;
    ShortestVarint(rest, 0);
    FiveBytes(raw);
    VarintLength64(Word(n));
  }

  lemma {:induction false} PositiveFits(f: Field, rest: Bytes, n: int)
    requires IsVarint(f.kind) && ReadVar(rest, 0).err.None? && n == Truncate(f.kind, ReadVar(rest, 0).raw) >= 0
    ensures HasKind(f.kind, Num(n)) && |VarintBytes(Word(n))| <= ReadVar(rest, 0).used
  {
    assert n <= ReadVar(rest, 0).raw;
    AtMostRead(rest, n);
  }

  lemma {:induction false} NumberFits(f: Field, rest: Bytes, at: Positive, n: int)
    requires IsVarint(f.kind) && ReadVar(rest, 0).err.None? && |TagBytes(f.num, VARINT_TYPE)| <= at
    requires n == Truncate(f.kind, ReadVar(rest, 0).raw)
    ensures HasKind(f.kind, Num(n)) && FieldWeight(f, Num(n)) <= at + ReadVar(rest, 0).used
  {
    if n < 0 {
      NegativeFits(f, rest, n);
    } else {
      PositiveFits(f, rest, n);
    }
  }

  lemma VarintStepGrows(sc: Schema, m: Msg, i: nat, rest: Bytes, at: Positive)
    requires Typed(sc, m) && i < |sc| && IsVarint(sc[i].kind) && |TagBytes(sc[i].num, VARINT_TYPE)| <= at
    ensures var r := VarintStep(sc[i].kind, m, i, rest, at);
            r.Next? ==> Typed(sc, r.msg) && Weight(sc, r.msg) <= Weight(sc, m) + r.used
  {
    var r := ReadVar(rest, 0);
    if r.err.None? {
      NumberFits(sc[i], rest, at, Truncate(sc[i].kind, r.raw));
      FieldWeightNonNegative(sc[i], m.vals[i]);
      SetGrows(sc, m, i, Num(Truncate(sc[i].kind, r.raw)), at + r.used);
    }
  }

  lemma {:induction false} EncodeBlobsAppend(num: nat, bs: seq<Bytes>, b: Bytes)
    ensures EncodeBlobs(num, bs + [b]) == EncodeBlobs(num, bs) + EncodeBlob(num, b)
  {
    if bs == [] {
      assert ([b])[1..] == [] && [] + [b] == [b];
    } else {
      assert (bs + [b])[1..] == bs[1..] + [b];
      EncodeBlobsAppend(num, bs[1..], b);
    }
  }

  lemma StoreGrows(f: Field, v: Value, b: Bytes)
    requires !IsVarint(f.kind) && HasKind(f.kind, v)
    ensures HasKind(f.kind, Store(v, b))
    ensures FieldWeight(f, Store(v, b)) <= FieldWeight(f, v) + |EncodeBlob(f.num, b)|
  {
    if v.DataList? {
      EncodeBlobsAppend(f.num, v.bs, b);
    }
  }

  /** A payload that was read with its length prefix marshals to no more bytes. */
  lemma {:induction false} BlobFits(num: nat, rest: Bytes, at: Positive, b: Bytes)
    requires ReadVar(rest, 0).err.None? && |b| == Length(ReadVar(rest, 0).raw) && |TagBytes(num, BYTES_TYPE)| <= at
    ensures |EncodeBlob(num, b)| <= at + (ReadVar(rest, 0).used + |b|)
  {
    assert |b| <= ReadVar(rest, 0).raw;
    AtMostRead(rest, |b|);
  }

  lemma BlobAtGrows(sc: Schema, m: Msg, i: nat, b: Bytes, used: nat)
    requires Typed(sc, m) && i < |sc| && !IsVarint(sc[i].kind) && |EncodeBlob(sc[i].num, b)| <= used
    ensures var m' := SetField(m, i, Store(m.vals[i], b));
            Typed(sc, m') && Weight(sc, m') <= Weight(sc, m) + used
  {
    StoreGrows(sc[i], m.vals[i], b);
    SetGrows(sc, m, i, Store(m.vals[i], b), used);
  }

  /** Storing a payload of `len` bytes after `used` bytes of length, if it marshals to no more. */
  lemma BlobReadGrows(sc: Schema, m: Msg, i: nat, rest: Bytes, at: Positive, used: nat, len: int)
    requires Typed(sc, m) && i < |sc| && !IsVarint(sc[i].kind)
    requires 0 <= len && used + len <= |rest| ==>
               |EncodeBlob(sc[i].num, rest[used..used + len])| <= at + (used + len)
    ensures var r := BlobAt(m, i, rest, at, used, len);
            r.Next? ==> Typed(sc, r.msg) && Weight(sc, r.msg) <= Weight(sc, m) + r.used
  {
    if 0 <= len && used + len <= |rest| {
      BlobAtGrows(sc, m, i, rest[used..used + len], at + (used + len));
    }
  }

  lemma BlobStepGrows(sc: Schema, m: Msg, i: nat, rest: Bytes, at: Positive)
    requires Typed(sc, m) && i < |sc| && !IsVarint(sc[i].kind) && |TagBytes(sc[i].num, BYTES_TYPE)| <= at
    ensures var r := BlobStep(m, i, rest, at);
            r.Next? ==> Typed(sc, r.msg) && Weight(sc, r.msg) <= Weight(sc, m) + r.used
  {
    var r := ReadVar(rest, 0);
    if r.err.None? {
      var len := Length(r.raw);
      if 0 <= len && r.used + len <= |rest| {
        BlobFits(sc[i].num, rest, at, rest[r.used..r.used + len]);
      }
      BlobReadGrows(sc, m, i, rest, at, r.used, len);
    }
  }

  lemma UnknownStepGrows(sc: Schema, m: Msg, s: Bytes)
    requires Typed(sc, m)
    ensures var r := UnknownStep(m, s);
            r.Next? ==> Typed(sc, r.msg) && Weight(sc, r.msg) <= Weight(sc, m) + r.used
  {
  }

  lemma FieldStepGrows(sc: Schema, m: Msg, num: int, wireType: nat, s: Bytes, at: Positive)
    requires Typed(sc, m) && at <= |s| && num > 0 && |TagBytes(num, wireType)| <= at
    ensures var r := FieldStep(sc, m, num, wireType, s, at);
            r.Next? ==> Typed(sc, r.msg) && Weight(sc, r.msg) <= Weight(sc, m) + r.used
  {
    var f := FindFrom(sc, num, 0);
    if f.None? {
      UnknownStepGrows(sc, m, s);
    } else if IsVarint(sc[f.value].kind) {
      if wireType == VARINT_TYPE {
        VarintStepGrows(sc, m, f.value, s[at..], at);
      }
    } else if wireType == BYTES_TYPE {
      BlobStepGrows(sc, m, f.value, s[at..], at);
    }
  }

  /** One turn of the decoding loop adds no more weight than the bytes it consumes. */
  lemma OneFieldGrows(sc: Schema, m: Msg, s: Bytes)
    requires Typed(sc, m)
    ensures var r := OneField(sc, m, s);
            r.Next? ==> Typed(sc, r.msg) && Weight(sc, r.msg) <= Weight(sc, m) + r.used
  {
    var t := ReadVar(s, 0);
    if t.err.None? {
      var wire := t.raw % TWO_64;
      if wire % 8 != END_GROUP_TYPE && FieldNum(wire) > 0 {
        TagFits(s, FieldNum(wire), wire % 8);
        FieldStepGrows(sc, m, FieldNum(wire), wire % 8, s, t.used);
      }
    }
  }

  // ----- whole messages -----

  ghost predicate Grows(sc: Schema, step: (Msg, Bytes) -> Step) {
    forall m: Msg, s: Bytes {:trigger step(m, s)} ::
      Typed(sc, m) && step(m, s).Next? ==>
        Typed(sc, step(m, s).msg) && Weight(sc, step(m, s).msg) <= Weight(sc, m) + step(m, s).used
  }

  lemma {:induction false} RunGrows(sc: Schema, step: (Msg, Bytes) -> Step, m: Msg, s: Bytes)
    requires Grows(sc, step) && Typed(sc, m) && Run(step, m, s).stop.Done?
    ensures Typed(sc, Run(step, m, s).msg) && Weight(sc, Run(step, m, s).msg) <= Weight(sc, m) + |s|
    decreases |s|
  {
    if s != [] {
      var r := step(m, s);
      RunGrows(sc, step, r.msg, s[r.used..]);
    }
  }

  /** A message that was decoded from `s` marshals to at most five bytes more for each field. */
  lemma ReencodedSize(sc: Schema, s: Bytes)
    requires Decode(sc, Fresh(sc), s).stop.Done?
    ensures var x := Decode(sc, Fresh(sc), s).msg;
            Typed(sc, x) && |Encode(sc, x)| <= |s| + 5 * |sc|
  {
    forall m: Msg, s: Bytes | Typed(sc, m)
      ensures var r := Fields(sc)(m, s);
              r.Next? ==> Typed(sc, r.msg) && Weight(sc, r.msg) <= Weight(sc, m) + r.used
    {
      OneFieldGrows(sc, m, s);
    }
    RunGrows(sc, Fields(sc), Fresh(sc), s);
    FreshWeight(sc, 0);
    EncodedWeight(sc, Decode(sc, Fresh(sc), s).msg, 0);
  }

  /** Re-encoding is stable: for every byte string that decodes into a fresh message, whatever
      its field order, repeats, overlong varints, unknown fields or groups, marshalling the
      result and decoding again gives the same message, as long as its marshalled length fits an
      index; a little room above the length of the input is enough for that. */
  lemma ReencodeStable(sc: Schema, s: Bytes)
    requires WellFormed(sc) && Decode(sc, Fresh(sc), s).stop.Done?
    ensures var x := Decode(sc, Fresh(sc), s).msg;
            && Valid(sc, x)
            && (|s| + 5 * |sc| < TWO_63 ==> |Encode(sc, x)| < TWO_63)
            && (|Encode(sc, x)| < TWO_63 ==> Decode(sc, Fresh(sc), Encode(sc, x)) == Outcome(x, Done))
  {
    DecodeKeepsValid(sc, Fresh(sc), s);
    ReencodedSize(sc, s);
    var x := Decode(sc, Fresh(sc), s).msg;
    if |Encode(sc, x)| < TWO_63 {
      RoundTrip(sc, x);
    }
  }
}
