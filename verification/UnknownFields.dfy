/** What an unknown field is, written down without the skipping loop: a varint, eight bytes, a
    length-delimited payload or four bytes, each after its tag, or a group of fields between a start
    and an end tag. Tags and lengths may be any varint that reads back, not only the shortest. */
module UnknownFields {
  import opened Bits
  import opened Varint
  import opened Wire
  import opened WireLaws

  // ----- nesting, over any kind of leaves and brackets -----

  datatype Item = Leaf(b: Bytes) | Group(open: Bytes, items: seq<Item>, close: Bytes)

  function Print(x: Item): Bytes {
    match x
    case Leaf(b) => b
    case Group(open, items, close) => open + PrintAll(items) + close
  }

  function PrintAll(items: seq<Item>): Bytes {
    if items == [] then [] else Print(items[0]) + PrintAll(items[1..])
  }

  /** Which bytes are a leaf, a start tag and an end tag. */
  datatype Lexer = Lexer(leaf: Bytes -> bool, open: Bytes -> bool, close: Bytes -> bool)

  ghost predicate Good(lx: Lexer, x: Item) {
    match x
    case Leaf(b) => lx.leaf(b)
    case Group(open, items, close) => lx.open(open) && AllGood(lx, items) && lx.close(close)
  }

  ghost predicate AllGood(lx: Lexer, items: seq<Item>) {
    items != [] ==> Good(lx, items[0]) && AllGood(lx, items[1..])
  }

  /** The step passes over a leaf at any depth, and over a bracket with the change it makes. */
  ghost predicate Passes(lx: Lexer, one: (Bytes, nat) -> Reach) {
    && (forall b: Bytes, t: Bytes, d: nat {:trigger one(b + t, d), lx.leaf(b)} ::
          lx.leaf(b) ==> b != [] && one(b + t, d) == Reach(|b|, d))
    && (forall b: Bytes, t: Bytes, d: nat {:trigger one(b + t, d), lx.open(b)} ::
          lx.open(b) ==> b != [] && one(b + t, d) == Reach(|b|, d + 1))
    && (forall b: Bytes, t: Bytes, d: nat {:trigger one(b + t, d), lx.close(b)} ::
          lx.close(b) && d > 0 ==> b != [] && one(b + t, d) == Reach(|b|, d - 1))
  }

  /** One turn of the skipping loop over a first piece. */
  lemma {:induction false} SkipPiece(one: (Bytes, nat) -> Reach, piece: Bytes, t: Bytes, used: nat, depth: nat, deeper: nat)
    requires piece != [] && one(piece + t, depth) == Reach(|piece|, deeper) && used + |piece| < TWO_63
    ensures SkipWith(one, piece + t, used, depth) ==
            if deeper == 0 then SkipOk(used + |piece|) else SkipWith(one, t, used + |piece|, deeper)
  {
    assert (piece + t)[|piece|..] == t;
  }

  /** Inside a group, the loop passes over a printed field and is where it was in the nesting. */
  lemma {:induction false} SkipsInside(lx: Lexer, one: (Bytes, nat) -> Reach, x: Item, t: Bytes, used: nat, depth: nat)
    requires Passes(lx, one) && Good(lx, x) && depth > 0 && used + |Print(x)| < TWO_63
    ensures SkipWith(one, Print(x) + t, used, depth) == SkipWith(one, t, used + |Print(x)|, depth)
    decreases x, 1
  {
    match x
    case Leaf(b) =>
      assert one(b + t, depth).Reach? && b != [];
      SkipPiece(one, b, t, used, depth, depth);
    case Group(open, items, close) =>
      var rest := PrintAll(items) + (close + t);
      assert Print(x) + t == open + rest;
      assert one(open + rest, depth).Reach? && open != [];
      SkipPiece(one, open, rest, used, depth, depth + 1);
      SkipsItems(lx, one, x, items, close, t, used + |open|, depth + 1);
  }

  /** The fields of a group and its end tag. */
  lemma {:induction false} SkipsItems(lx: Lexer, one: (Bytes, nat) -> Reach, x: Item, items: seq<Item>,
                                      close: Bytes, t: Bytes, used: nat, depth: nat)
    requires Passes(lx, one) && x.Group? && (forall i :: 0 <= i < |items| ==> items[i] in x.items)
    requires AllGood(lx, items) && lx.close(close) && depth > 0 && used + |PrintAll(items)| + |close| < TWO_63
    ensures SkipWith(one, PrintAll(items) + (close + t), used, depth) ==
            var n := used + |PrintAll(items)| + |close|;
            if depth == 1 then SkipOk(n) else SkipWith(one, t, n, depth - 1)
    decreases x, 0, |items|
  {
    if items == [] {
      assert PrintAll(items) + (close + t) == close + t;
      assert one(close + t, depth).Reach? && close != [];
      SkipPiece(one, close, t, used, depth, depth - 1);
    } else {
      var rest := PrintAll(items[1..]) + (close + t);
      assert PrintAll(items) + (close + t) == Print(items[0]) + rest;
      SkipsInside(lx, one, items[0], rest, used, depth);
      SkipsItems(lx, one, x, items[1..], close, t, used + |Print(items[0])|, depth);
    }
  }

  lemma {:induction false} SkipsWhole(lx: Lexer, one: (Bytes, nat) -> Reach, x: Item, t: Bytes)
    requires Passes(lx, one) && Good(lx, x) && |Print(x)| < TWO_63
    ensures SkipWith(one, Print(x) + t, 0, 0) == SkipOk(|Print(x)|)
  {
    match x
    case Leaf(b) =>
      assert one(b + t, 0).Reach? && b != [];
      SkipPiece(one, b, t, 0, 0, 0);
    case Group(open, items, close) =>
      var rest := PrintAll(items) + (close + t);
      assert Print(x) + t == open + rest;
      assert one(open + rest, 0).Reach? && open != [];
      SkipPiece(one, open, rest, 0, 0, 1);
      SkipsItems(lx, one, x, items, close, t, |open|, 1);
  }

  /** Whatever the step reaches inside the data is a leaf or a bracket. */
  ghost predicate Recognises(lx: Lexer, one: (Bytes, nat) -> Reach) {
    forall s: Bytes, d: nat {:trigger one(s, d)} :: one(s, d).Reach? ==> Recognised(lx, s, d, one(s, d))
  }

  ghost predicate Recognised(lx: Lexer, s: Bytes, d: nat, r: Reach)
    requires r.Reach?
  {
    if r.depth == d then r.n <= |s| ==> lx.leaf(s[..r.n])
    else if r.depth == d + 1 then r.n <= |s| && lx.open(s[..r.n])
    else d > 0 && r.depth == d - 1 && r.n <= |s| && lx.close(s[..r.n])
  }

  /** What is left of nested groups: for each, the fields still to come and its end tag. */
  type Layers = seq<(seq<Item>, Bytes)>

  function PrintLayers(ls: Layers): Bytes {
    if ls == [] then [] else PrintAll(ls[0].0) + ls[0].1 + PrintLayers(ls[1..])
  }

  ghost predicate GoodLayers(lx: Lexer, ls: Layers) {
    ls != [] ==> AllGood(lx, ls[0].0) && lx.close(ls[0].1) && GoodLayers(lx, ls[1..])
  }

  lemma {:induction false} ConsItem(lx: Lexer, x: Item, items: seq<Item>)
    requires Good(lx, x) && AllGood(lx, items)
    ensures AllGood(lx, [x] + items) && PrintAll([x] + items) == Print(x) + PrintAll(items)
  {
    assert ([x] + items)[1..] == items;
  }

  lemma {:induction false} ConsLayer(lx: Lexer, items: seq<Item>, close: Bytes, ls: Layers)
    requires AllGood(lx, items) && lx.close(close) && GoodLayers(lx, ls)
    ensures GoodLayers(lx, [(items, close)] + ls)
    ensures PrintLayers([(items, close)] + ls) == PrintAll(items) + close + PrintLayers(ls)
  {
    var all: Layers := [(items, close)] + ls;
    assert all[1..] == ls;
  }

  lemma {:induction false} PutFirst(lx: Lexer, x: Item, ls: Layers) returns (rest: Layers)
    requires ls != [] && GoodLayers(lx, ls) && Good(lx, x)
    ensures GoodLayers(lx, rest) && PrintLayers(rest) == Print(x) + PrintLayers(ls) && |rest| == |ls|
  {
    rest := [([x] + ls[0].0, ls[0].1)] + ls[1..];
    ConsItem(lx, x, ls[0].0);
    ConsLayer(lx, [x] + ls[0].0, ls[0].1, ls[1..]);
    Associate(Print(x), PrintAll(ls[0].0), ls[0].1, PrintLayers(ls[1..]));
  }

  lemma Associate(a: Bytes, b: Bytes, c: Bytes, d: Bytes)
    ensures a + b + c + d == a + (b + c + d)
  {
  }

  lemma {:induction false} CloseFirst(lx: Lexer, open: Bytes, ls: Layers) returns (rest: Layers)
    requires |ls| >= 2 && GoodLayers(lx, ls) && lx.open(open)
    ensures GoodLayers(lx, rest) && PrintLayers(rest) == open + PrintLayers(ls) && |rest| == |ls| - 1
  {
    rest := PutFirst(lx, Group(open, ls[0].0, ls[0].1), ls[1..]);
    Associate(open, PrintAll(ls[0].0), ls[0].1, PrintLayers(ls[1..]));
  }

  lemma Joins(s: Bytes, a: nat, b: nat)
    requires a <= b <= |s|
    ensures s[..a] + s[a..][..b - a] == s[..b]
  {
  }

  /** A first piece, recognised at `depth`, in front of the layers that follow it. */
  lemma {:induction false} AddPiece(lx: Lexer, piece: Bytes, depth: nat, deeper: nat, tail: Layers) returns (ls: Layers)
    requires depth > 0 && |tail| == deeper && GoodLayers(lx, tail)
    requires if deeper == depth then lx.leaf(piece)
             else if deeper == depth + 1 then lx.open(piece)
             else deeper == depth - 1 && lx.close(piece)
    ensures |ls| == depth && GoodLayers(lx, ls) && PrintLayers(ls) == piece + PrintLayers(tail)
  {
    if deeper == depth {
      ls := PutFirst(lx, Leaf(piece), tail);
    } else if deeper == depth + 1 {
      ls := CloseFirst(lx, piece, tail);
    } else {
      ls := [([], piece)] + tail;
      ConsLayer(lx, [], piece, tail);
    }
  }

  /** The layers a successful skip passes over from inside `depth` groups. */
  lemma {:induction false} LayersOf(lx: Lexer, one: (Bytes, nat) -> Reach, s: Bytes, used: nat, depth: nat, n: nat)
    returns (ls: Layers)
    requires Recognises(lx, one) && depth > 0 && SkipWith(one, s, used, depth) == SkipOk(n) && n <= used + |s|
    ensures |ls| == depth && GoodLayers(lx, ls) && used < n && PrintLayers(ls) == s[..n - used]
    decreases |s|
  {
    var r := one(s, depth);
    assert Recognised(lx, s, depth, r);
    var tail: Layers := [];
    if r.depth > 0 {
      tail := LayersOf(lx, one, s[r.n..], used + r.n, r.depth, n);
      Joins(s, r.n, n - used);
    }
    ls := AddPiece(lx, s[..r.n], depth, r.depth, tail);
  }

  lemma {:induction false} FieldOf(lx: Lexer, one: (Bytes, nat) -> Reach, s: Bytes, n: nat) returns (x: Item)
    requires Recognises(lx, one) && SkipWith(one, s, 0, 0) == SkipOk(n) && n <= |s|
    ensures Good(lx, x) && Print(x) == s[..n]
  {
    var r := one(s, 0);
    assert Recognised(lx, s, 0, r);
    if r.depth == 0 {
      x := Leaf(s[..n]);
    } else {
      var ls := LayersOf(lx, one, s[r.n..], r.n, 1, n);
      x := Group(s[..r.n], ls[0].0, ls[0].1);
      Joins(s, r.n, n);
      assert PrintLayers(ls[1..]) == [];
      assert s[..r.n] + PrintAll(ls[0].0) + ls[0].1 == s[..r.n] + (PrintAll(ls[0].0) + ls[0].1 + []);
    }
  }

  // ----- the leaves and brackets of the wire format -----

  const FIXED64_TYPE: nat := 1
  const START_GROUP_TYPE: nat := 3
  const FIXED32_TYPE: nat := 5

  /** The bytes are one varint. */
  ghost predicate IsVarintCode(e: Bytes) {
    ReadVar(e, 0).err.None? && ReadVar(e, 0).used == |e|
  }

  ghost predicate IsTag(e: Bytes, wireType: nat) {
    IsVarintCode(e) && ReadVar(e, 0).raw % 8 == wireType
  }

  /** A field that is no group. */
  datatype Simple =
    | VarintField(tag: Bytes, value: Bytes)
    | EightBytes(tag: Bytes, b: Bytes)
    | BlobField(tag: Bytes, len: Bytes, b: Bytes)
    | FourBytes(tag: Bytes, b: Bytes)

  function PrintSimple(f: Simple): Bytes {
    match f
    case VarintField(tag, value) => tag + value
    case EightBytes(tag, b) => tag + b
    case BlobField(tag, len, b) => tag + (len + b)
    case FourBytes(tag, b) => tag + b
  }

  ghost predicate GoodSimple(f: Simple) {
    match f
    case VarintField(tag, value) => IsTag(tag, VARINT_TYPE) && IsVarintCode(value)
    case EightBytes(tag, b) => IsTag(tag, FIXED64_TYPE) && |b| == 8
    case BlobField(tag, len, b) => IsTag(tag, BYTES_TYPE) && IsVarintCode(len) && Length(ReadVar(len, 0).raw) == |b|
    case FourBytes(tag, b) => IsTag(tag, FIXED32_TYPE) && |b| == 4
  }

  ghost predicate IsSimple(b: Bytes) {
    exists f :: GoodSimple(f) && PrintSimple(f) == b
  }

  ghost function WireLexer(): Lexer {
    Lexer(b => IsSimple(b), b => IsTag(b, START_GROUP_TYPE), b => IsTag(b, END_GROUP_TYPE))
  }

  lemma {:induction false} CodeReads(e: Bytes, t: Bytes)
    requires IsVarintCode(e)
    ensures ReadVar(e + t, 0) == VarRead(ReadVar(e, 0).raw, |e|, None) && |e| > 0 && (e + t)[|e|..] == t
  {
    ReadVarLocal(e, t, 0);
  }

  /** The reach of a tag is the reach of its payload. */
  lemma {:induction false} TagReach(tag: Bytes, wireType: nat, rest: Bytes, depth: nat)
    requires IsTag(tag, wireType)
    ensures |tag| > 0 && SkipOne(tag + rest, depth) == PayloadReach(wireType, |tag|, rest, depth)
  {
    CodeReads(tag, rest);
  }

  lemma {:induction false} BlobReach(at: Positive, len: Bytes, b: Bytes, t: Bytes, depth: nat)
    requires IsVarintCode(len) && Length(ReadVar(len, 0).raw) == |b|
    ensures PayloadReach(BYTES_TYPE, at, len + (b + t), depth) == Reach(at + |len| + |b|, depth)
  {
    CodeReads(len, b + t);
  }

  lemma {:induction false} VarintReach(at: Positive, value: Bytes, t: Bytes, depth: nat)
    requires IsVarintCode(value)
    ensures PayloadReach(VARINT_TYPE, at, value + t, depth) == Reach(at + |value|, depth)
  {
    CodeReads(value, t);
  }

  lemma Regroup(a: Bytes, b: Bytes, c: Bytes)
    ensures a + b + c == a + (b + c)
  {
  }

  /** A tag and a payload that keeps the depth. */
  lemma {:induction false} TaggedReach(tag: Bytes, wireType: nat, payload: Bytes, t: Bytes, depth: nat)
    requires IsTag(tag, wireType) && tag != []
    requires PayloadReach(wireType, |tag|, payload + t, depth) == Reach(|tag| + |payload|, depth)
    ensures SkipOne(tag + payload + t, depth) == Reach(|tag| + |payload|, depth)
  {
    Regroup(tag, payload, t);
    TagReach(tag, wireType, payload + t, depth);
  }

  lemma {:induction false} TagNotEmpty(tag: Bytes)
    requires IsVarintCode(tag)
    ensures tag != []
  {
  }

  lemma {:induction false} SimpleReach(f: Simple, t: Bytes, depth: nat)
    requires GoodSimple(f)
    ensures PrintSimple(f) != [] && SkipOne(PrintSimple(f) + t, depth) == Reach(|PrintSimple(f)|, depth)
  {
    TagNotEmpty(f.tag);
    match f
    case VarintField(tag, value) =>
      VarintReach(|tag|, value, t, depth);
      TaggedReach(tag, VARINT_TYPE, value, t, depth);
    case EightBytes(tag, b) =>
      TaggedReach(tag, FIXED64_TYPE, b, t, depth);
    case BlobField(tag, len, b) =>
      Regroup(len, b, t);
      BlobReach(|tag|, len, b, t, depth);
      TaggedReach(tag, BYTES_TYPE, len + b, t, depth);
    case FourBytes(tag, b) =>
      TaggedReach(tag, FIXED32_TYPE, b, t, depth);
  }

  lemma {:induction false} LeafReach(b: Bytes, t: Bytes, d: nat)
    requires IsSimple(b)
    ensures b != [] && SkipOne(b + t, d) == Reach(|b|, d)
  {
    var f :| GoodSimple(f) && PrintSimple(f) == b;
    SimpleReach(f, t, d);
  }

  lemma {:induction false} OpenReach(b: Bytes, t: Bytes, d: nat)
    requires IsTag(b, START_GROUP_TYPE)
    ensures b != [] && SkipOne(b + t, d) == Reach(|b|, d + 1)
  {
    TagReach(b, START_GROUP_TYPE, t, d);
  }

  lemma {:induction false} CloseReach(b: Bytes, t: Bytes, d: nat)
    requires IsTag(b, END_GROUP_TYPE) && d > 0
    ensures b != [] && SkipOne(b + t, d) == Reach(|b|, d - 1)
  {
    TagReach(b, END_GROUP_TYPE, t, d);
  }

  lemma {:induction false} WirePasses()
    ensures Passes(WireLexer(), SkipOne)
  {
    forall b: Bytes, t: Bytes, d: nat | WireLexer().leaf(b)
      ensures b != [] && SkipOne(b + t, d) == Reach(|b|, d)
    {
      LeafReach(b, t, d);
    }
    forall b: Bytes, t: Bytes, d: nat | WireLexer().open(b)
      ensures b != [] && SkipOne(b + t, d) == Reach(|b|, d + 1)
    {
      OpenReach(b, t, d);
    }
    forall b: Bytes, t: Bytes, d: nat | WireLexer().close(b) && d > 0
      ensures b != [] && SkipOne(b + t, d) == Reach(|b|, d - 1)
    {
      CloseReach(b, t, d);
    }
  }

  lemma {:induction false} CodeOf(s: Bytes) returns (e: Bytes, rest: Bytes)
    requires ReadVar(s, 0).err.None?
    ensures |e| == ReadVar(s, 0).used && IsVarintCode(e) && ReadVar(e, 0).raw == ReadVar(s, 0).raw
    ensures s == e + rest && rest == s[|e|..] && e == s[..|e|]
  {
    e, rest := s[..ReadVar(s, 0).used], s[ReadVar(s, 0).used..];
    ReadVarCut(s, 0, ReadVar(s, 0).used);
  }

  /** A payload that keeps the depth and stays in the data makes a field with its tag. */
  lemma {:induction false} SimpleOf(tag: Bytes, wireType: nat, rest: Bytes, depth: nat) returns (f: Simple)
    requires IsTag(tag, wireType) && tag != []
    requires var r := PayloadReach(wireType, |tag|, rest, depth); r.Reach? && r.depth == depth && r.n <= |tag| + |rest|
    ensures GoodSimple(f) && PrintSimple(f) == (tag + rest)[..PayloadReach(wireType, |tag|, rest, depth).n]
  {
    match wireType
    case 0 =>
      var e, tail := CodeOf(rest);
      f := VarintField(tag, e);
    case 1 => f := EightBytes(tag, rest[..8]);
    case 2 =>
      var e, tail := CodeOf(rest);
      f := BlobField(tag, e, tail[..Length(ReadVar(rest, 0).raw)]);
    case _ => f := FourBytes(tag, rest[..4]);
  }

  lemma {:induction false} WireRecognises()
    ensures Recognises(WireLexer(), SkipOne)
  {
    forall s: Bytes, d: nat | SkipOne(s, d).Reach?
      ensures Recognised(WireLexer(), s, d, SkipOne(s, d))
    {
      RecognisedAt(s, d);
    }
  }

  lemma {:induction false} RecognisedAt(s: Bytes, d: nat)
    requires SkipOne(s, d).Reach?
    ensures Recognised(WireLexer(), s, d, SkipOne(s, d))
  {
    var tag, rest := CodeOf(s);
    RecognisedTag(tag, ReadVar(s, 0).raw % 8, rest, d);
  }

  lemma {:induction false} RecognisedTag(tag: Bytes, wireType: nat, rest: Bytes, d: nat)
    requires IsTag(tag, wireType) && tag != [] && PayloadReach(wireType, |tag|, rest, d).Reach?
    ensures Recognised(WireLexer(), tag + rest, d, PayloadReach(wireType, |tag|, rest, d))
  {
    var r := PayloadReach(wireType, |tag|, rest, d);
    if r.depth == d {
      if r.n <= |tag + rest| {
        var f := SimpleOf(tag, wireType, rest, d);
        assert IsSimple((tag + rest)[..r.n]);
      }
    } else {
      assert (tag + rest)[..|tag|] == tag;
    }
  }

  // ----- the skipping loop, exactly -----

  /** A printed field is skipped whole, whatever follows. */
  lemma {:induction false} SkipsPrinted(x: Item, t: Bytes)
    requires Good(WireLexer(), x) && |Print(x)| < TWO_63
    ensures Skip(Print(x) + t) == SkipOk(|Print(x)|)
  {
    WirePasses();
    SkipsWhole(WireLexer(), SkipOne, x, t);
  }

  /** The bytes `b` are one printed field. */
  ghost predicate IsField(b: Bytes) {
    exists x :: Good(WireLexer(), x) && Print(x) == b
  }

  lemma {:induction false} SkippedIsField(s: Bytes, n: nat)
    requires Skip(s) == SkipOk(n) && n <= |s|
    ensures IsField(s[..n])
  {
    WireRecognises();
    var x := FieldOf(WireLexer(), SkipOne, s, n);
  }

  lemma {:induction false} FieldIsSkipped(s: Bytes, n: nat)
    requires n <= |s| && n < TWO_63 && IsField(s[..n])
    ensures Skip(s) == SkipOk(n)
  {
    var x :| Good(WireLexer(), x) && Print(x) == s[..n];
    SkipsPrinted(x, s[n..]);
    assert s == s[..n] + s[n..];
  }

  /** The skipping loop finds exactly the complete fields: it succeeds with `n` inside the data if and
      only if the first `n` bytes are a field. */
  lemma {:induction false} SkipExactly(s: Bytes, n: nat)
    requires n <= |s| && n < TWO_63
    ensures Skip(s) == SkipOk(n) <==> IsField(s[..n])
  {
    if Skip(s) == SkipOk(n) {
      SkippedIsField(s, n);
    }
    if IsField(s[..n]) {
      FieldIsSkipped(s, n);
    }
  }

  // ----- decoding unknown fields -----

  /** The number in the tag at the front of a field. */
  function NumOf(b: Bytes): int {
    FieldNum(ReadVar(b, 0).raw % TWO_64)
  }

  /** A field whose number the schema lacks. */
  ghost predicate Unknown(sc: Schema, b: Bytes) {
    IsField(b) && NumOf(b) > 0 && FindFrom(sc, NumOf(b), 0).None? && |b| < TWO_63
  }

  lemma WireTypeOfWord(raw: nat)
    ensures (raw % TWO_64) % 8 == raw % 8
  {
    ModMod(raw, 8, TWO_64 / 8);
  }

  /** A field begins with a tag that is no end tag. */
  lemma {:induction false} TagFirst(b: Bytes)
    requires Skip(b).SkipOk?
    ensures ReadVar(b, 0).err.None? && ReadVar(b, 0).raw % 8 != END_GROUP_TYPE && b != []
  {
    SkipOneInside(SkipOne, b, 0, 0);
  }

  /** A field the schema lacks joins the unknown bytes whole and leaves every value alone. */
  lemma {:induction false} UnknownDecodes(sc: Schema, m: Msg, b: Bytes)
    requires |m.vals| == |sc| && Unknown(sc, b)
    ensures Decode(sc, m, b) == Outcome(m.(unknown := m.unknown + b), Done)
  {
    assert b[..|b|] == b;
    SkipExactly(b, |b|);
    TagFirst(b);
    WireTypeOfWord(ReadVar(b, 0).raw);
    assert UnknownStep(m, b) == Next(m.(unknown := m.unknown + b), |b|);
    RunOne(Fields(sc), m, b, m.(unknown := m.unknown + b));
  }

  function Concat(bs: seq<Bytes>): Bytes {
    if bs == [] then [] else bs[0] + Concat(bs[1..])
  }

  /** So do any number of them. */
  lemma {:induction false} AllUnknownDecode(sc: Schema, m: Msg, bs: seq<Bytes>)
    requires |m.vals| == |sc| && forall i :: 0 <= i < |bs| ==> Unknown(sc, bs[i])
    ensures Decode(sc, m, Concat(bs)) == Outcome(m.(unknown := m.unknown + Concat(bs)), Done)
    decreases |bs|
  {
    if bs == [] {
      assert m.unknown + [] == m.unknown;
    } else {
      UnknownDecodes(sc, m, bs[0]);
      AllUnknownDecode(sc, m.(unknown := m.unknown + bs[0]), bs[1..]);
      FieldsLocal(sc);
      UnknownThen(Fields(sc), m, bs[0], Concat(bs[1..]));
    }
  }

  lemma {:induction false} UnknownThen(step: (Msg, Bytes) -> Step, m: Msg, b: Bytes, rest: Bytes)
    requires Locality(step) && Run(step, m, b) == Outcome(m.(unknown := m.unknown + b), Done)
    requires Run(step, m.(unknown := m.unknown + b), rest) == Outcome(m.(unknown := m.unknown + b + rest), Done)
    ensures Run(step, m, b + rest) == Outcome(m.(unknown := m.unknown + (b + rest)), Done)
  {
    RunThen(step, m, b, m.(unknown := m.unknown + b), rest, m.(unknown := m.unknown + b + rest));
    assert m.unknown + b + rest == m.unknown + (b + rest);
  }

  lemma {:induction false} NumIsLocal(b: Bytes, t: Bytes)
    requires ReadVar(b, 0).err.None?
    ensures ReadVar(b + t, 0) == ReadVar(b, 0) && NumOf(b + t) == NumOf(b)
  {
    ReadVarLocal(b, t, 0);
  }

  /** The length of the first field of `s`, if the schema lacks it, is that of an unknown field. */
  lemma {:induction false} FirstUnknown(sc: Schema, s: Bytes)
    requires UnknownLen(sc, s).Some? && |s| < TWO_63
    ensures Unknown(sc, s[..UnknownLen(sc, s).value])
  {
    var n := UnknownLen(sc, s).value;
    SkipExactly(s, n);
    SkipExactly(s[..n], n);
    assert s[..n][..n] == s[..n] && s == s[..n] + s[n..];
    TagFirst(s[..n]);
    NumIsLocal(s[..n], s[n..]);
  }

  lemma {:induction false} UnknownLenOf(sc: Schema, b: Bytes, t: Bytes)
    requires Unknown(sc, b) && |b + t| < TWO_63
    ensures UnknownLen(sc, b + t) == Some(|b|)
  {
    assert b[..|b|] == b && (b + t)[..|b|] == b;
    SkipExactly(b, |b|);
    SkipExactly(b + t, |b|);
    TagFirst(b);
    NumIsLocal(b, t);
    WireTypeOfWord(ReadVar(b, 0).raw);
  }

  /** The tail that survives marshalling is exactly a sequence of unknown fields. */
  lemma {:induction false} UnknownRunExactly(sc: Schema, s: Bytes)
    requires |s| < TWO_63
    ensures UnknownRun(sc, s) <==> exists bs :: AllUnknown(sc, bs) && Concat(bs) == s
  {
    if UnknownRun(sc, s) {
      var bs := FieldsOf(sc, s);
    }
    if bs :| AllUnknown(sc, bs) && Concat(bs) == s {
      FieldsAreRun(sc, bs);
    }
  }

  ghost predicate AllUnknown(sc: Schema, bs: seq<Bytes>) {
    forall i :: 0 <= i < |bs| ==> Unknown(sc, bs[i])
  }

  /** The pieces themselves, all of them good if every first piece is. */
  lemma {:induction false} PiecesOf(len: Bytes -> Option<Positive>, good: Bytes -> bool, s: Bytes) returns (bs: seq<Bytes>)
    requires Pieces(len, s)
    requires forall u: Bytes {:trigger len(u)} ::
               |u| <= |s| && len(u).Some? && len(u).value <= |u| ==> good(u[..len(u).value])
    ensures (forall i :: 0 <= i < |bs| ==> good(bs[i])) && Concat(bs) == s
    decreases |s|
  {
    if s == [] {
      bs := [];
    } else {
      var n := len(s).value;
      var rest := PiecesOf(len, good, s[n..]);
      bs := [s[..n]] + rest;
      assert bs[1..] == rest && s == s[..n] + s[n..];
    }
  }

  lemma {:induction false} FieldsOf(sc: Schema, s: Bytes) returns (bs: seq<Bytes>)
    requires UnknownRun(sc, s) && |s| < TWO_63
    ensures AllUnknown(sc, bs) && Concat(bs) == s
  {
    forall u: Bytes | |u| <= |s| && UnknownLens(sc)(u).Some?
      ensures Unknown(sc, u[..UnknownLens(sc)(u).value])
    {
      FirstUnknown(sc, u);
    }
    bs := PiecesOf(UnknownLens(sc), b => Unknown(sc, b), s);
  }

  lemma {:induction false} FieldsAreRun(sc: Schema, bs: seq<Bytes>)
    requires AllUnknown(sc, bs) && |Concat(bs)| < TWO_63
    ensures UnknownRun(sc, Concat(bs))
    decreases |bs|
  {
    if bs != [] {
      var b, rest := bs[0], Concat(bs[1..]);
      FieldsAreRun(sc, bs[1..]);
      UnknownLenOf(sc, b, rest);
      UnknownNotEmpty(sc, b);
      assert (b + rest)[|b|..] == rest;
    }
  }

  lemma {:induction false} UnknownNotEmpty(sc: Schema, b: Bytes)
    requires Unknown(sc, b)
    ensures b != []
  {
    assert b[..|b|] == b;
    SkipExactly(b, |b|);
    TagFirst(b);
  }

  /** The four bytes of a two-byte payload under field 3 are skipped and kept together. */
  lemma {:induction false} PayloadIsKept(sc: Schema, m: Msg, b: Bytes)
    requires sc == [Field(1, Enum32), Field(2, Blob)] && |m.vals| == 2 && b == [26, 2, 8, 1]
    ensures Decode(sc, m, b) == Outcome(m.(unknown := m.unknown + b), Done)
  {
    var tag, len, payload: Bytes := [26], [2], [8, 1];
    assert ReadVar(tag, 0) == VarRead(26, 1, None) && ReadVar(len, 0) == VarRead(2, 1, None);
    var f := BlobField(tag, len, payload);
    assert GoodSimple(f) && PrintSimple(f) == b;
    assert Good(WireLexer(), Leaf(b)) && Print(Leaf(b)) == b;
    UnknownDecodes(sc, m, b);
  }
}
