/** Laws of the message codec that hold for every schema and every byte string: decoding is
    local to the bytes it consumes, decoding a concatenation is decoding the parts in turn,
    decoding an encoded message merges it, so encoding is inverted and re-encoding is stable. */
module WireLaws {
  import opened Bits
  import opened Varint
  import opened Wire

  // ----- the two loops, over any step -----

  /** A step that does not notice bytes added at the end. */
  ghost predicate SkipLocality(one: (Bytes, nat) -> Reach) {
    forall s: Bytes, t: Bytes, d: nat {:trigger one(s + t, d)} ::
      one(s, d).Reach? ==> one(s + t, d) == one(s, d)
  }

  lemma {:induction false} SkipWithLocal(one: (Bytes, nat) -> Reach, s: Bytes, t: Bytes, used: nat, depth: nat)
    requires SkipLocality(one)
    requires SkipWith(one, s, used, depth).SkipOk? && SkipWith(one, s, used, depth).n <= used + |s|
    ensures SkipWith(one, s + t, used, depth) == SkipWith(one, s, used, depth)
    decreases |s|
  {
    var r := one(s, depth);
    assert one(s + t, depth) == r;
    if r.depth != 0 {
      assert (s + t)[r.n..] == s[r.n..] + t;
      SkipWithLocal(one, s[r.n..], t, used + r.n, r.depth);
    }
  }

  /** A step that does not notice what is cut off past its reach. */
  ghost predicate SkipCuttable(one: (Bytes, nat) -> Reach) {
    forall s: Bytes, n: nat, d: nat {:trigger one(s[..n], d)} ::
      one(s, d).Reach? && one(s, d).n <= n <= |s| ==> one(s[..n], d) == one(s, d)
  }

  lemma {:induction false} SkipWithCut(one: (Bytes, nat) -> Reach, s: Bytes, used: nat, depth: nat, n: nat)
    requires SkipCuttable(one)
    requires SkipWith(one, s, used, depth).SkipOk? && SkipWith(one, s, used, depth).n <= used + n <= used + |s|
    ensures SkipWith(one, s[..n], used, depth) == SkipWith(one, s, used, depth)
    decreases |s|
  {
    var r := one(s, depth);
    assert one(s[..n], depth) == r;
    if r.depth != 0 {
      assert s[..n][r.n..] == s[r.n..][..n - r.n];
      SkipWithCut(one, s[r.n..], used + r.n, r.depth, n - r.n);
    }
  }

  ghost predicate Locality(step: (Msg, Bytes) -> Step) {
    forall m: Msg, s: Bytes, t: Bytes {:trigger step(m, s + t)} ::
      step(m, s).Next? && step(m, s).used <= |s| ==> step(m, s + t) == step(m, s)
  }

  function Then(o: Outcome, offset: nat): Outcome {
    Outcome(o.msg, Shift(o.stop, offset))
  }

  lemma {:induction false} RunConcat(step: (Msg, Bytes) -> Step, m: Msg, a: Bytes, b: Bytes)
    requires Locality(step) && Run(step, m, a).stop.Done?
    ensures Run(step, m, a + b) == Then(Run(step, Run(step, m, a).msg, b), |a|)
    decreases |a|
  {
    if a == [] {
      assert a + b == b;
    } else {
      var r := step(m, a);
      assert step(m, a + b) == r;
      assert (a + b)[r.used..] == a[r.used..] + b;
      RunConcat(step, r.msg, a[r.used..], b);
    }
  }

  /** Two accepted parts, one after the other. */
  lemma {:induction false} RunThen(step: (Msg, Bytes) -> Step, m: Msg, a: Bytes, m': Msg, b: Bytes, m'': Msg)
    requires Locality(step)
    requires Run(step, m, a) == Outcome(m', Done) && Run(step, m', b) == Outcome(m'', Done)
    ensures Run(step, m, a + b) == Outcome(m'', Done)
  {
    RunConcat(step, m, a, b);
  }

  lemma {:induction false} RunOne(step: (Msg, Bytes) -> Step, m: Msg, s: Bytes, m': Msg)
    requires s != [] && step(m, s) == Next(m', |s|)
    ensures Run(step, m, s) == Outcome(m', Done)
  {
  }

  lemma {:induction false} RunInvariant(step: (Msg, Bytes) -> Step, inv: Msg -> bool, m: Msg, s: Bytes)
    requires inv(m)
    requires forall m', s' {:trigger step(m', s')} :: inv(m') ==> inv(step(m', s').msg)
    ensures inv(Run(step, m, s).msg)
    decreases |s|
  {
    if s != [] {
      var r := step(m, s);
      if r.Next? && r.used <= |s| {
        RunInvariant(step, inv, r.msg, s[r.used..]);
      }
    }
  }

  // ----- locality of the codec's steps, and the merge law -----

  lemma PayloadLocal(wireType: nat, at: Positive, rest: Bytes, t: Bytes, depth: nat)
    requires PayloadReach(wireType, at, rest, depth).Reach?
    ensures PayloadReach(wireType, at, rest + t, depth) == PayloadReach(wireType, at, rest, depth)
  {
    if wireType == 0 || wireType == 2 {
      ReadVarLocal(rest, t, 0);
    }
  }

  lemma SkipOneLocal(s: Bytes, t: Bytes, depth: nat)
    requires SkipOne(s, depth).Reach?
    ensures SkipOne(s + t, depth) == SkipOne(s, depth)
  {
    ReadVarLocal(s, t, 0);
    var tag := ReadVar(s, 0);
    assert (s + t)[tag.used..] == s[tag.used..] + t;
    PayloadLocal(tag.raw % 8, tag.used, s[tag.used..], t, depth);
  }

  /** Skipping a complete field depends only on the bytes it consumes. */
  lemma SkipLocal(s: Bytes, t: Bytes)
    requires Skip(s).SkipOk? && Skip(s).n <= |s|
    ensures Skip(s + t) == Skip(s)
  {
    forall s: Bytes, t: Bytes, d: nat | SkipOne(s, d).Reach?
      ensures SkipOne(s + t, d) == SkipOne(s, d)
    {
      SkipOneLocal(s, t, d);
    }
    SkipWithLocal(SkipOne, s, t, 0, 0);
  }

  lemma BlobAtLocal(m: Msg, i: nat, s: Bytes, t: Bytes, at: Positive, used: nat, len: int)
    requires i < |m.vals| && BlobAt(m, i, s, at, used, len).Next?
    ensures BlobAt(m, i, s + t, at, used, len) == BlobAt(m, i, s, at, used, len)
  {
    assert (s + t)[used..used + len] == s[used..used + len];
  }

  lemma BlobStepLocal(m: Msg, i: nat, s: Bytes, t: Bytes, at: Positive)
    requires i < |m.vals| && BlobStep(m, i, s, at).Next?
    ensures BlobStep(m, i, s + t, at) == BlobStep(m, i, s, at)
  {
    ReadVarLocal(s, t, 0);
    var r := ReadVar(s, 0);
    BlobAtLocal(m, i, s, t, at, r.used, Length(r.raw));
  }

  lemma UnknownStepLocal(m: Msg, s: Bytes, t: Bytes)
    requires UnknownStep(m, s).Next?
    ensures UnknownStep(m, s + t) == UnknownStep(m, s)
  {
    var n := Skip(s).n;
    SkipLocal(s, t);
    assert (s + t)[..n] == s[..n];
  }

  lemma FieldStepLocal(sc: Schema, m: Msg, num: int, wireType: nat, s: Bytes, at: Positive, t: Bytes)
    requires at <= |s| && |m.vals| == |sc| && FieldStep(sc, m, num, wireType, s, at).Next?
    ensures FieldStep(sc, m, num, wireType, s + t, at) == FieldStep(sc, m, num, wireType, s, at)
  {
    assert (s + t)[at..] == s[at..] + t;
    var f := FindFrom(sc, num, 0);
    if f.None? {
      UnknownStepLocal(m, s, t);
    } else if IsVarint(sc[f.value].kind) {
      ReadVarLocal(s[at..], t, 0);
    } else {
      BlobStepLocal(m, f.value, s[at..], t, at);
    }
  }

  lemma OneFieldLocal(sc: Schema, m: Msg, s: Bytes, t: Bytes)
    requires OneField(sc, m, s).Next?
    ensures OneField(sc, m, s + t) == OneField(sc, m, s)
  {
    ReadVarLocal(s, t, 0);
    var tag := ReadVar(s, 0);
    var wire := tag.raw % TWO_64;
    FieldStepLocal(sc, m, FieldNum(wire), wire % 8, s, tag.used, t);
  }

  lemma FieldsLocal(sc: Schema)
    ensures Locality(Fields(sc))
  {
    var step := Fields(sc);
    forall m: Msg, s: Bytes, t: Bytes | step(m, s).Next? && step(m, s).used <= |s|
      ensures step(m, s + t) == step(m, s)
    {
      OneFieldLocal(sc, m, s, t);
    }
  }

  /** The merge law: if `a` is accepted, decoding `a + b` is decoding `a` and then `b` into the
      result. The message is the same even when `b` fails half way, and so is the place where
      decoding stops. */
  lemma DecodeConcat(sc: Schema, m: Msg, a: Bytes, b: Bytes)
    requires Decode(sc, m, a).stop.Done?
    ensures Decode(sc, m, a + b) == Then(Decode(sc, Decode(sc, m, a).msg, b), |a|)
  {
    FieldsLocal(sc);
    RunConcat(Fields(sc), m, a, b);
  }

  /** When the error of the second part survives concatenation: exactly when the declared end
      it stopped on, if any, does not move across 2^63. Acceptance always survives. */
  lemma ConcatErrors(sc: Schema, m: Msg, a: Bytes, b: Bytes)
    requires Decode(sc, m, a).stop.Done?
    ensures var second := Decode(sc, Decode(sc, m, a).msg, b).stop;
            && (ErrorOf(Decode(sc, m, a + b).stop) == ErrorOf(second)
                <==> !(second.PastEnd? && second.end < TWO_63 <= |a| + second.end))
            && (ErrorOf(Decode(sc, m, a + b).stop).None? <==> ErrorOf(second).None?)
  {
    DecodeConcat(sc, m, a, b);
  }

  /** The error need not survive: a length prefix of 2^63 - 11 overruns the data either way, but
      after a two-byte field the declared end no longer fits an index. */
  lemma ConcatErrorChanges(sc: Schema, a: Bytes, b: Bytes)
    requires sc == [Field(1, UInt64), Field(2, Blob)] && a == [8, 1]
    requires b == [18, 245, 255, 255, 255, 255, 255, 255, 255, 127]
    ensures ErrorOf(Decode(sc, Fresh(sc), a).stop).None?
    ensures ErrorOf(Decode(sc, Decode(sc, Fresh(sc), a).msg, b).stop) == Some(UnexpectedEOF)
    ensures ErrorOf(Decode(sc, Fresh(sc), a + b).stop) == Some(InvalidLength)
  {
    var m := Fresh(sc);
    AcceptedPrefix(sc, m, a);
    OverrunStops(sc, Decode(sc, m, a).msg, b);
    ConcatErrors(sc, m, a, b);
    DecodeConcat(sc, m, a, b);
  }

  lemma AcceptedPrefix(sc: Schema, m: Msg, a: Bytes)
    requires sc == [Field(1, UInt64), Field(2, Blob)] && a == [8, 1] && |m.vals| == 2
    ensures Decode(sc, m, a) == Outcome(SetField(m, 0, Num(1)), Done)
  {
    assert ReadVar(a, 0) == VarRead(8, 1, None);
    assert ReadVar(a[1..], 0) == VarRead(1, 1, None);
    assert FindFrom(sc, 1, 0) == Some(0);
    var m' := SetField(m, 0, Num(1));
    assert VarintStep(UInt64, m, 0, a[1..], 1) == Next(m', 2);
    RunOne(Fields(sc), m, a, m');
  }

  lemma OverrunStops(sc: Schema, m: Msg, b: Bytes)
    requires sc == [Field(1, UInt64), Field(2, Blob)] && |m.vals| == 2
    requires b == [18, 245, 255, 255, 255, 255, 255, 255, 255, 127]
    ensures Decode(sc, m, b).stop == PastEnd(0x7FFF_FFFF_FFFF_FFFF)
  {
    LongLength(b);
    assert FindFrom(sc, 2, 1) == Some(1);
    assert FindFrom(sc, 2, 0) == Some(1);
    var stop: Trouble := PastEnd(0x7FFF_FFFF_FFFF_FFFF);
    LengthSmall(0x7FFF_FFFF_FFFF_FFF5);
    assert BlobAt(m, 1, b[1..], 1, 9, 0x7FFF_FFFF_FFFF_FFF5) == Halt(m, stop);
    assert FieldStep(sc, m, 2, 2, b, 1) == Halt(m, stop);
    assert TagBytes(2, 2) + b[1..] == b;
    TagLeads(sc, m, 2, 2, b[1..]);
  }

  lemma {:induction false} LongLength(b: Bytes)
    requires b == [18, 245, 255, 255, 255, 255, 255, 255, 255, 127]
    ensures ReadVar(b, 0) == VarRead(18, 1, None)
    ensures ReadVar(b[1..], 0) == VarRead(0x7FFF_FFFF_FFFF_FFF5, 9, None)
  {
    ReadVarInverts(18, b[1..], 0);
    assert VarintBytes(18) + b[1..] == b;
    var v: nat := 0x7FFF_FFFF_FFFF_FFF5;
    assert VarintBytes(v / 128 / 128 / 128 / 128 / 128 / 128 / 128 / 128) == [127];
    assert VarintBytes(v) == b[1..];
    ReadVarInverts(v, [], 0);
    assert VarintBytes(v) + [] == b[1..];
  }

  lemma LengthSmall(n: nat)
    requires n < TWO_63
    ensures Length(n) == n
  {
    DivModUnique(n, TWO_64, 0, n);
  }

  // ----- decoding an encoded field -----

  /** What decoding an encoded field does to the value already there. */
  function MergeValue(into: Value, v: Value): Value {
    match v
    case Num(n) => if n == 0 then into else v
    case Data(b) => if b == [] then into else v
    case DataList(bs) => if into.DataList? then DataList(into.bs + bs) else v
  }

  function Merge(sc: Schema, m: Msg, x: Msg): Msg
    requires Typed(sc, m) && Typed(sc, x)
  {
    Msg(seq(|sc|, i requires 0 <= i < |sc| => MergeValue(m.vals[i], x.vals[i])), m.unknown + x.unknown)
  }

  lemma {:induction false} FindIndex(sc: Schema, i: nat, from: nat)
    requires WellFormed(sc) && from <= i < |sc|
    ensures FindFrom(sc, sc[i].num, from) == Some(i)
    decreases i - from
  {
  }

  lemma TagParts(num: nat, wireType: nat)
    requires 0 < num <= MAX_FIELD_NUM && wireType < 8
    ensures var w := num * 8 + wireType;
            w < TWO_64 && w % TWO_64 == w && FieldNum(w) == num && w % 8 == wireType
  {
    var w := num * 8 + wireType;
    DivModUnique(w, TWO_64, 0, w);
    DivModUnique(w, 8, num, wireType);
    DivModUnique(num, TWO_32, 0, num);
  }

  /** A well-formed tag leads to its field's step. */
  lemma TagLeads(sc: Schema, m: Msg, num: nat, wireType: nat, payload: Bytes)
    requires 0 < num <= MAX_FIELD_NUM && wireType < 8 && wireType != END_GROUP_TYPE && |m.vals| == |sc|
    ensures var tag := TagBytes(num, wireType);
            OneField(sc, m, tag + payload) == FieldStep(sc, m, num, wireType, tag + payload, |tag|)
  {
    var w := num * 8 + wireType;
    TagParts(num, wireType);
    ReadVar64(w, payload);
    var t := ReadVar(VarintBytes(w) + payload, 0);
    assert t.raw % TWO_64 == w && t.used == |VarintBytes(w)|;
  }

  lemma TruncateWord(k: Kind, n: int)
    requires IsVarint(k) && HasKind(k, Num(n))
    ensures Truncate(k, Word(n)) == n
  {
    if n < 0 {
      DivModUnique(n + TWO_64, TWO_32, TWO_32 - 1, n + TWO_32);
    } else if k.UInt64? {
      DivModUnique(n, TWO_64, 0, n);
    } else {
      DivModUnique(n, TWO_32, 0, n);
    }
  }

  lemma VarintFieldDecodes(sc: Schema, m: Msg, i: nat, n: int)
    requires WellFormed(sc) && |m.vals| == |sc| && i < |sc|
    requires IsVarint(sc[i].kind) && HasKind(sc[i].kind, Num(n)) && n != 0
    ensures Decode(sc, m, EncodeField(sc[i], Num(n))) == Outcome(SetField(m, i, Num(n)), Done)
  {
    var e := EncodeField(sc[i], Num(n));
    var tag, w := TagBytes(sc[i].num, VARINT_TYPE), VarintBytes(Word(n));
    TagLeads(sc, m, sc[i].num, VARINT_TYPE, w);
    FindIndex(sc, i, 0);
    assert e[|tag|..] == w == w + [];
    ReadVar64(Word(n), []);
    TruncateWord(sc[i].kind, n);
    RunOne(Fields(sc), m, e, SetField(m, i, Num(n)));
  }

  lemma {:induction false} BlobStepDecodes(m: Msg, i: nat, b: Bytes, at: Positive)
    requires i < |m.vals| && |b| < TWO_63
    ensures BlobStep(m, i, VarintBytes(|b|) + b, at)
            == Next(SetField(m, i, Store(m.vals[i], b)), at + (|VarintBytes(|b|)| + |b|))
  {
    var w := VarintBytes(|b|);
    ReadVar64(|b|, b);
    LengthSmall(|b|);
    assert (w + b)[|w|..|w| + |b|] == b;
    assert BlobAt(m, i, w + b, at, |w|, |b|) == Next(SetField(m, i, Store(m.vals[i], b)), at + (|w| + |b|));
  }

  lemma BlobFieldDecodes(sc: Schema, m: Msg, i: nat, b: Bytes)
    requires WellFormed(sc) && |m.vals| == |sc| && i < |sc|
    requires !IsVarint(sc[i].kind) && |b| < TWO_63
    ensures Decode(sc, m, EncodeBlob(sc[i].num, b)) == Outcome(SetField(m, i, Store(m.vals[i], b)), Done)
  {
    var tag, payload := TagBytes(sc[i].num, BYTES_TYPE), VarintBytes(|b|) + b;
    var e := EncodeBlob(sc[i].num, b);
    assert e == tag + payload;
    TagLeads(sc, m, sc[i].num, BYTES_TYPE, payload);
    FindIndex(sc, i, 0);
    assert e[|tag|..] == payload;
    BlobStepDecodes(m, i, b, |tag|);
    RunOne(Fields(sc), m, e, SetField(m, i, Store(m.vals[i], b)));
  }

  lemma AppendTwice(m: Msg, i: nat, b: Bytes, bs: seq<Bytes>)
    requires i < |m.vals| && m.vals[i].DataList?
    ensures SetField(m, i, MergeValue(m.vals[i], DataList([]))) == m
    ensures var m' := SetField(m, i, Store(m.vals[i], b));
            SetField(m', i, MergeValue(m'.vals[i], DataList(bs)))
            == SetField(m, i, MergeValue(m.vals[i], DataList([b] + bs)))
  {
    var cur := m.vals[i].bs;
    assert cur + [] == cur;
    assert (cur + [b]) + bs == cur + ([b] + bs);
  }

  lemma {:induction false} BlobListDecodes(sc: Schema, m: Msg, i: nat, bs: seq<Bytes>)
    requires WellFormed(sc) && |m.vals| == |sc| && i < |sc| && sc[i].kind.BlobList? && m.vals[i].DataList?
    requires |EncodeBlobs(sc[i].num, bs)| < TWO_63
    ensures Decode(sc, m, EncodeBlobs(sc[i].num, bs))
            == Outcome(SetField(m, i, MergeValue(m.vals[i], DataList(bs))), Done)
    decreases |bs|
  {
    var all := SetField(m, i, MergeValue(m.vals[i], DataList(bs)));
    if bs == [] {
      AppendTwice(m, i, [], []);
    } else {
      var head, tail := EncodeBlob(sc[i].num, bs[0]), EncodeBlobs(sc[i].num, bs[1..]);
      var m' := SetField(m, i, Store(m.vals[i], bs[0]));
      assert [bs[0]] + bs[1..] == bs;
      AppendTwice(m, i, bs[0], bs[1..]);
      BlobFieldDecodes(sc, m, i, bs[0]);
      BlobListDecodes(sc, m', i, bs[1..]);
      FieldsLocal(sc);
      RunThen(Fields(sc), m, head, m', tail, all);
    }
  }

  /** Decoding one encoded field merges its value. */
  lemma FieldDecodes(sc: Schema, m: Msg, i: nat, v: Value)
    requires WellFormed(sc) && Typed(sc, m) && i < |sc| && HasKind(sc[i].kind, v)
    requires |EncodeField(sc[i], v)| < TWO_63
    ensures Decode(sc, m, EncodeField(sc[i], v)) == Outcome(SetField(m, i, MergeValue(m.vals[i], v)), Done)
  {
    match v
    case DataList(bs) => BlobListDecodes(sc, m, i, bs);
    case Num(n) =>
      if n == 0 {
        assert SetField(m, i, m.vals[i]) == m;
      } else {
        VarintFieldDecodes(sc, m, i, n);
      }
    case Data(b) =>
      if b == [] {
        assert SetField(m, i, m.vals[i]) == m;
      } else {
        BlobFieldDecodes(sc, m, i, b);
      }
  }

  /** The message reached after the first `i` fields of `x` have been merged into `m`. */
  ghost function MergedUpTo(sc: Schema, m: Msg, x: Msg, i: nat): (r: Msg)
    requires Typed(sc, m) && Typed(sc, x) && i <= |sc|
    ensures Typed(sc, r)
  {
    Msg(seq(|sc|, j requires 0 <= j < |sc| => if j < i then MergeValue(m.vals[j], x.vals[j]) else m.vals[j]),
        m.unknown)
  }

  lemma MergedNext(sc: Schema, m: Msg, x: Msg, i: nat)
    requires Typed(sc, m) && Typed(sc, x) && i < |sc|
    ensures var here := MergedUpTo(sc, m, x, i);
            SetField(here, i, MergeValue(here.vals[i], x.vals[i])) == MergedUpTo(sc, m, x, i + 1)
  {
  }

  lemma {:induction false} FieldsDecode(sc: Schema, m: Msg, x: Msg, i: nat)
    requires WellFormed(sc) && Typed(sc, m) && Typed(sc, x) && i <= |sc|
    requires |EncodeFields(sc, x, i)| < TWO_63
    ensures Decode(sc, MergedUpTo(sc, m, x, i), EncodeFields(sc, x, i))
            == Outcome(MergedUpTo(sc, m, x, |sc|), Done)
    decreases |sc| - i
  {
    if i < |sc| {
      var here, next := MergedUpTo(sc, m, x, i), MergedUpTo(sc, m, x, i + 1);
      FieldDecodes(sc, here, i, x.vals[i]);
      MergedNext(sc, m, x, i);
      FieldsDecode(sc, m, x, i + 1);
      FieldsLocal(sc);
      RunThen(Fields(sc), here, EncodeField(sc[i], x.vals[i]), next,
              EncodeFields(sc, x, i + 1), MergedUpTo(sc, m, x, |sc|));
    }
  }

  // ----- unknown tails -----

  /** The length of the complete field that `s` starts with, if the schema does not know it. */
  ghost function UnknownLen(sc: Schema, s: Bytes): (r: Option<Positive>)
    ensures r.Some? ==> r.value <= |s|
  {
    var t := ReadVar(s, 0);
    var wire := t.raw % TWO_64;
    if t.err.None? && wire % 8 != END_GROUP_TYPE && FieldNum(wire) > 0 && FindFrom(sc, FieldNum(wire), 0).None?
       && Skip(s).SkipOk? && Skip(s).n <= |s|
    then Some(Skip(s).n) else None
  }

  /** `s` is a sequence of pieces whose lengths `len` tells from what lies ahead. */
  ghost predicate Pieces(len: Bytes -> Option<Positive>, s: Bytes)
    decreases |s|
  {
    s == [] || (len(s).Some? && len(s).value <= |s| && Pieces(len, s[len(s).value..]))
  }

  lemma {:induction false} PiecesConcat(len: Bytes -> Option<Positive>, a: Bytes, b: Bytes)
    requires forall s: Bytes, t: Bytes {:trigger len(s + t)} :: len(s).Some? ==> len(s + t) == len(s)
    requires Pieces(len, a) && Pieces(len, b)
    ensures Pieces(len, a + b)
    decreases |a|
  {
    if a == [] {
      assert a + b == b;
    } else {
      var n := len(a).value;
      assert len(a + b) == len(a);
      assert (a + b)[n..] == a[n..] + b;
      PiecesConcat(len, a[n..], b);
    }
  }

  /** `s` is a sequence of complete fields that the schema does not know. */
  ghost predicate UnknownRun(sc: Schema, s: Bytes) {
    Pieces(UnknownLens(sc), s)
  }

  ghost function UnknownLens(sc: Schema): Bytes -> Option<Positive> {
    s => UnknownLen(sc, s)
  }

  lemma UnknownLenLocal(sc: Schema, s: Bytes, t: Bytes)
    requires UnknownLen(sc, s).Some?
    ensures UnknownLen(sc, s + t) == UnknownLen(sc, s)
  {
    ReadVarLocal(s, t, 0);
    SkipLocal(s, t);
  }

  lemma UnknownRunConcat(sc: Schema, a: Bytes, b: Bytes)
    requires UnknownRun(sc, a) && UnknownRun(sc, b)
    ensures UnknownRun(sc, a + b)
  {
    var len := UnknownLens(sc);
    forall s: Bytes, t: Bytes | len(s).Some?
      ensures len(s + t) == len(s)
    {
      UnknownLenLocal(sc, s, t);
    }
    PiecesConcat(len, a, b);
  }

  /** An unknown field is what the loop appends to the unknown tail, and nothing else is. */
  lemma UnknownFieldStep(sc: Schema, m: Msg, s: Bytes)
    requires |m.vals| == |sc|
    ensures var n := UnknownLen(sc, s);
            if n.Some? then OneField(sc, m, s) == Next(m.(unknown := m.unknown + s[..n.value]), n.value)
            else OneField(sc, m, s).msg.unknown == m.unknown
  {
    var t := ReadVar(s, 0);
    if t.err.None? {
      var wire := t.raw % TWO_64;
      KnownStepKeepsUnknown(sc, m, FieldNum(wire), wire % 8, s, t.used);
    }
  }

  lemma {:induction false} KnownStepKeepsUnknown(sc: Schema, m: Msg, num: int, wireType: nat, s: Bytes, at: Positive)
    requires at <= |s| && |m.vals| == |sc|
    ensures FindFrom(sc, num, 0).Some? ==> FieldStep(sc, m, num, wireType, s, at).msg.unknown == m.unknown
  {
  }

  /** The step keeps a first field of a length that `len` tells as unknown bytes, and adds none otherwise. */
  ghost predicate Unknowns(sc: Schema, step: (Msg, Bytes) -> Step, len: Bytes -> Option<Positive>) {
    forall m: Msg, s: Bytes {:trigger step(m, s)} ::
      |m.vals| == |sc| ==>
        if len(s).Some?
        then len(s).value <= |s| && step(m, s) == Next(m.(unknown := m.unknown + s[..len(s).value]), len(s).value)
        else step(m, s).msg.unknown == m.unknown
  }

  ghost predicate KeepsWidth(sc: Schema, step: (Msg, Bytes) -> Step) {
    forall m: Msg, s: Bytes {:trigger step(m, s)} :: |m.vals| == |sc| ==> |step(m, s).msg.vals| == |sc|
  }

  lemma FieldsUnknowns(sc: Schema)
    ensures Unknowns(sc, Fields(sc), UnknownLens(sc)) && KeepsWidth(sc, Fields(sc))
  {
    forall m: Msg, s: Bytes | |m.vals| == |sc|
      ensures var n := UnknownLen(sc, s);
              if n.Some? then OneField(sc, m, s) == Next(m.(unknown := m.unknown + s[..n.value]), n.value)
              else OneField(sc, m, s).msg.unknown == m.unknown
    {
      UnknownFieldStep(sc, m, s);
    }
  }

  lemma {:induction false} PiecesRun(sc: Schema, step: (Msg, Bytes) -> Step, len: Bytes -> Option<Positive>, m: Msg, u: Bytes)
    requires Unknowns(sc, step, len) && |m.vals| == |sc| && Pieces(len, u)
    ensures Run(step, m, u) == Outcome(m.(unknown := m.unknown + u), Done)
    decreases |u|
  {
    if u == [] {
      assert m.unknown + u == m.unknown;
    } else {
      var n := len(u).value;
      var m' := m.(unknown := m.unknown + u[..n]);
      assert step(m, u) == Next(m', n);
      PiecesRun(sc, step, len, m', u[n..]);
      assert (m.unknown + u[..n]) + u[n..] == m.unknown + u;
    }
  }

  /** The loop never invents unknown bytes, and keeps them all only if there was nothing else. */
  lemma {:induction false} UnknownBytesCount(sc: Schema, step: (Msg, Bytes) -> Step, len: Bytes -> Option<Positive>, m: Msg, s: Bytes)
    requires Unknowns(sc, step, len) && KeepsWidth(sc, step) && |m.vals| == |sc|
    ensures var o := Run(step, m, s);
            && |o.msg.unknown| <= |m.unknown| + |s|
            && (o.stop.Done? && |o.msg.unknown| == |m.unknown| + |s| ==> Pieces(len, s))
    decreases |s|
  {
    if s != [] {
      var r := step(m, s);
      if r.Next? && r.used <= |s| {
        UnknownBytesCount(sc, step, len, r.msg, s[r.used..]);
      }
    }
  }

  // ----- the main theorems -----

  /** A message whose unknown tail is what decoding can produce. */
  ghost predicate Valid(sc: Schema, m: Msg) {
    Typed(sc, m) && UnknownRun(sc, m.unknown)
  }

  /** Decoding the encoding of `x` into `m` merges the fields of `x` into `m` and then decodes the
      unknown tail. */
  lemma {:induction false} DecodeEncodedThen(sc: Schema, m: Msg, x: Msg)
    requires WellFormed(sc) && Typed(sc, m) && Typed(sc, x) && |Encode(sc, x)| < TWO_63
    ensures Decode(sc, m, Encode(sc, x))
            == Then(Decode(sc, MergedUpTo(sc, m, x, |sc|), x.unknown), |EncodeFields(sc, x, 0)|)
  {
    FieldsDecode(sc, m, x, 0);
    assert MergedUpTo(sc, m, x, 0) == m;
    DecodeConcat(sc, m, EncodeFields(sc, x, 0), x.unknown);
  }

  /** Decoding the encoding of `x` into `m` merges `x` into `m`: non-default scalars and blobs
      replace, repeated fields append, unknown bytes append. */
  lemma DecodeEncoded(sc: Schema, m: Msg, x: Msg)
    requires WellFormed(sc) && Typed(sc, m) && Valid(sc, x) && |Encode(sc, x)| < TWO_63
    ensures Decode(sc, m, Encode(sc, x)) == Outcome(Merge(sc, m, x), Done)
  {
    DecodeEncodedThen(sc, m, x);
    var all := MergedUpTo(sc, m, x, |sc|);
    FieldsUnknowns(sc);
    PiecesRun(sc, Fields(sc), UnknownLens(sc), all, x.unknown);
    assert all.(unknown := m.unknown + x.unknown) == Merge(sc, m, x);
  }

  lemma MergeFresh(sc: Schema, x: Msg)
    requires Typed(sc, x)
    ensures Merge(sc, Fresh(sc), x) == x
  {
    var r := Merge(sc, Fresh(sc), x);
    forall i | 0 <= i < |sc|
      ensures r.vals[i] == x.vals[i]
    {
      assert HasKind(sc[i].kind, x.vals[i]);
      match x.vals[i]
      case Num(_) =>
      case Data(_) =>
      case DataList(bs) => assert [] + bs == bs;
    }
    assert r.vals == x.vals;
  }

  /** Round trip: a typed message survives marshalling exactly when its unknown tail is a
      sequence of complete fields that the schema does not know. */
  lemma RoundTrip(sc: Schema, x: Msg)
    requires WellFormed(sc) && Typed(sc, x) && |Encode(sc, x)| < TWO_63
    ensures Decode(sc, Fresh(sc), Encode(sc, x)) == Outcome(x, Done) <==> UnknownRun(sc, x.unknown)
  {
    if UnknownRun(sc, x.unknown) {
      DecodeEncoded(sc, Fresh(sc), x);
      MergeFresh(sc, x);
    } else {
      DecodeEncodedThen(sc, Fresh(sc), x);
      FieldsUnknowns(sc);
      UnknownBytesCount(sc, Fields(sc), UnknownLens(sc), MergedUpTo(sc, Fresh(sc), x, |sc|), x.unknown);
    }
  }

  lemma {:induction false} ReadVarCut(s: Bytes, k: nat, n: nat)
    requires k <= MAX_VARINT_LEN && ReadVar(s, k).err.None? && ReadVar(s, k).used <= n <= |s|
    ensures ReadVar(s[..n], k) == ReadVar(s, k)
    decreases MAX_VARINT_LEN - k
  {
    if s[0] >= 128 {
      assert s[..n][1..] == s[1..][..n - 1];
      ReadVarCut(s[1..], k + 1, n - 1);
    }
  }

  lemma PayloadCut(wireType: nat, at: Positive, rest: Bytes, depth: nat, n: nat)
    requires var r := PayloadReach(wireType, at, rest, depth); r.Reach? && r.n <= at + n <= at + |rest|
    ensures PayloadReach(wireType, at, rest[..n], depth) == PayloadReach(wireType, at, rest, depth)
  {
    if wireType == 0 || wireType == 2 {
      ReadVarCut(rest, 0, n);
    }
  }

  lemma PayloadInside(wireType: nat, at: Positive, rest: Bytes, depth: nat)
    ensures var r := PayloadReach(wireType, at, rest, depth); r.Reach? ==> at <= r.n
  {
  }

  lemma SkipOneCut(s: Bytes, depth: nat, n: nat)
    requires SkipOne(s, depth).Reach? && SkipOne(s, depth).n <= n <= |s|
    ensures SkipOne(s[..n], depth) == SkipOne(s, depth)
  {
    var tag := ReadVar(s, 0);
    PayloadInside(tag.raw % 8, tag.used, s[tag.used..], depth);
    ReadVarCut(s, 0, n);
    assert s[..n][tag.used..] == s[tag.used..][..n - tag.used];
    PayloadCut(tag.raw % 8, tag.used, s[tag.used..], depth, n - tag.used);
  }

  /** Cutting off what follows a complete field does not change how it is skipped. */
  lemma SkipCut(s: Bytes, n: nat)
    requires Skip(s).SkipOk? && Skip(s).n <= n <= |s|
    ensures Skip(s[..n]) == Skip(s)
  {
    forall s: Bytes, n: nat, d: nat | SkipOne(s, d).Reach? && SkipOne(s, d).n <= n <= |s|
      ensures SkipOne(s[..n], d) == SkipOne(s, d)
    {
      SkipOneCut(s, d, n);
    }
    SkipWithCut(SkipOne, s, 0, 0, n);
  }

  lemma {:induction false} SkipOneInside(one: (Bytes, nat) -> Reach, s: Bytes, used: nat, depth: nat)
    requires SkipWith(one, s, used, depth).SkipOk?
    ensures s != [] && one(s, depth).Reach? && used + one(s, depth).n <= SkipWith(one, s, used, depth).n
  {
  }

  /** The first field of `s`, cut out, is an unknown run by itself. */
  lemma UnknownPrefix(sc: Schema, s: Bytes)
    requires UnknownLen(sc, s).Some?
    ensures UnknownRun(sc, s[..UnknownLen(sc, s).value])
  {
    var n := UnknownLen(sc, s).value;
    var u := s[..n];
    SkipCut(s, n);
    SkipOneInside(SkipOne, s, 0, 0);
    var tag := ReadVar(s, 0);
    PayloadInside(tag.raw % 8, tag.used, s[tag.used..], 0);
    ReadVarCut(s, 0, n);
    assert UnknownLen(sc, u) == Some(n);
    assert u[n..] == [];
    assert Pieces(UnknownLens(sc), u[n..]);
  }

  lemma OneFieldKeepsValid(sc: Schema, m: Msg, s: Bytes)
    requires Valid(sc, m)
    ensures Valid(sc, OneField(sc, m, s).msg)
  {
    UnknownFieldStep(sc, m, s);
    if UnknownLen(sc, s).Some? {
      UnknownPrefix(sc, s);
      UnknownRunConcat(sc, m.unknown, s[..UnknownLen(sc, s).value]);
    } else {
      OneFieldKeepsTyped(sc, m, s);
    }
  }

  lemma FieldStepKeepsTyped(sc: Schema, m: Msg, num: int, wireType: nat, s: Bytes, at: Positive)
    requires Typed(sc, m) && at <= |s|
    ensures Typed(sc, FieldStep(sc, m, num, wireType, s, at).msg)
  {
  }

  lemma OneFieldKeepsTyped(sc: Schema, m: Msg, s: Bytes)
    requires Typed(sc, m)
    ensures Typed(sc, OneField(sc, m, s).msg)
  {
    var t := ReadVar(s, 0);
    if t.err.None? {
      var wire := t.raw % TWO_64;
      FieldStepKeepsTyped(sc, m, FieldNum(wire), wire % 8, s, t.used);
    }
  }

  /** Whatever is decoded into a valid message leaves a valid message, on errors too. */
  lemma DecodeKeepsValid(sc: Schema, m: Msg, s: Bytes)
    requires Valid(sc, m)
    ensures Valid(sc, Decode(sc, m, s).msg)
  {
    forall m', s' | Valid(sc, m')
      ensures Valid(sc, Fields(sc)(m', s').msg)
    {
      OneFieldKeepsValid(sc, m', s');
    }
    RunInvariant(Fields(sc), m' => Valid(sc, m'), m, s);
  }

  /** Two valid messages with the same bytes are the same message. */
  lemma EncodeInjective(sc: Schema, x: Msg, y: Msg)
    requires WellFormed(sc) && Valid(sc, x) && Valid(sc, y) && |Encode(sc, x)| < TWO_63
    requires Encode(sc, x) == Encode(sc, y)
    ensures x == y
  {
    RoundTrip(sc, x);
    RoundTrip(sc, y);
  }

  /** Last one wins, repeated fields append: decoding two encoded messages back to back. */
  lemma DecodeTwoEncoded(sc: Schema, x: Msg, y: Msg)
    requires WellFormed(sc) && Valid(sc, x) && Valid(sc, y)
    requires |Encode(sc, x)| < TWO_63 && |Encode(sc, y)| < TWO_63
    ensures Decode(sc, Fresh(sc), Encode(sc, x) + Encode(sc, y)) == Outcome(Merge(sc, x, y), Done)
  {
    RoundTrip(sc, x);
    DecodeEncoded(sc, x, y);
    DecodeConcat(sc, Fresh(sc), Encode(sc, x), Encode(sc, y));
  }
}
