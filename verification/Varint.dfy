/** Base-128 varints: the size formula, the back-to-front writer and the reader loop
    that the generated code repeats for every field. */
module Varint {
  import opened Bits

  datatype WireError =
    | IntOverflow
    | UnexpectedEOF
    | InvalidLength
    | UnexpectedEndOfGroup
    | EndGroupForNonGroup
    | IllegalTag(fieldNum: int, wire: nat)
    | WrongWireType(wireType: nat, fieldNum: int)
    | IllegalWireType(wireType: nat)

  /** A varint occupies at most this many bytes: shifts 0, 7, ..., 63. */
  const MAX_VARINT_LEN: nat := 10

  /** The shortest base-128 form of `v`, least significant group first. */
  function VarintBytes(v: nat): (r: Bytes)
    ensures |r| > 0
  {
    if v < 128 then [v] else [v % 128 + 128] + VarintBytes(v / 128)
  }

  /** `sovMessageCons`. */
  function Sov(x: nat): nat {
    (BitLen(Or(x, 1)) + 6) / 7
  }

  lemma {:induction false} BitLenOrOne(x: nat)
    ensures BitLen(Or(x, 1)) == if x == 0 then 1 else BitLen(x)
  {
    if x != 0 {
      assert Or(x / 2, 0) == x / 2;
      assert Or(x, 1) == 2 * (x / 2) + 1;
    }
  }

  lemma {:induction false} BitLenShift7(x: nat)
    requires x >= 128
    ensures BitLen(x) == 7 + BitLen(x / 128)
  {
    assert BitLen(x) == 1 + BitLen(x / 2);
    assert BitLen(x / 2) == 1 + BitLen(x / 4);
    assert BitLen(x / 4) == 1 + BitLen(x / 8);
    assert BitLen(x / 8) == 1 + BitLen(x / 16);
    assert BitLen(x / 16) == 1 + BitLen(x / 32);
    assert BitLen(x / 32) == 1 + BitLen(x / 64);
    assert BitLen(x / 64) == 1 + BitLen(x / 128);
  }

  lemma {:induction false} BitLenBound(x: nat, k: nat)
    requires x < Pow2(k)
    ensures BitLen(x) <= k
  {
    if x != 0 {
      BitLenBound(x / 2, k - 1);
    }
  }

  /** The closed form counts exactly the bytes the writer loop emits. */
  lemma {:induction false} SovIsVarintLength(x: nat)
    ensures Sov(x) == |VarintBytes(x)|
  {
    BitLenOrOne(x);
    if x >= 128 {
      BitLenShift7(x);
      BitLenOrOne(x / 128);
      SovIsVarintLength(x / 128);
    } else if x > 0 {
      Pow2Literals();
      BitLenBound(x, 7);
    }
  }

  lemma {:induction false} VarintLengthBound(v: nat, k: nat)
    requires k > 0 && v < Pow2(7 * k)
    ensures |VarintBytes(v)| <= k
  {
    if v >= 128 {
      Pow2Literals();
      if k == 1 { assert false; }
      Pow2Add(7, 7 * (k - 1));
      assert v / 128 < Pow2(7 * (k - 1));
      VarintLengthBound(v / 128, k - 1);
    }
  }

  lemma {:induction false} VarintLength64(v: nat)
    requires v < TWO_64
    ensures |VarintBytes(v)| <= MAX_VARINT_LEN
  {
    Pow2Literals();
    Pow2Add(64, 6);
    VarintLengthBound(v, 10);
  }

  /** `uint8(v&0x7f | 0x80)`: the low group with the continuation bit set. */
  method ContinuationByte(v: nat) returns (b: Byte)
    ensures b == v % 128 + 128
  {
    Pow2Literals();
    AndMask(v, 7);
    OrDisjoint(v % 128, 128, 7);
    b := Or(And(v, 0x7f), 0x80);
  }

  lemma {:induction false} VarintTail(all: Bytes, j: nat, rest: nat)
    requires j < |all| && all[j..] == VarintBytes(rest)
    ensures if rest < 128 then all[j] == rest && j + 1 == |all|
            else all[j] == rest % 128 + 128 && j + 1 < |all| && all[j + 1..] == VarintBytes(rest / 128)
  {
  }

  /** `encodeVarintMessageCons`: writes `v` so that it ends just before `offset` and
      returns where it starts. Nothing else in the buffer changes. */
  method EncodeVarint(buf: array<Byte>, offset: nat, v: nat) returns (base: nat)
    requires v < TWO_64
    requires |VarintBytes(v)| <= offset <= buf.Length
    modifies buf
    ensures base == offset - |VarintBytes(v)|
    ensures buf[..] == old(buf[..])[..base] + VarintBytes(v) + old(buf[..])[offset..]
  {
    SovIsVarintLength(v);
    base := offset - Sov(v);
    ghost var all := VarintBytes(v);
    var at, rest := base, v;
    while rest >= 0x80
      invariant base <= at < offset && all[at - base..] == VarintBytes(rest)
      invariant forall j :: base <= j < at ==> buf[j] == all[j - base]
      invariant forall j :: 0 <= j < base || offset <= j < buf.Length ==> buf[j] == old(buf[j])
      decreases rest
    {
      var b := ContinuationByte(rest);
      VarintTail(all, at - base, rest);
      buf[at] := b;
      rest := rest / 128;
      at := at + 1;
    }
    VarintTail(all, at - base, rest);
    buf[at] := rest;
  }

  /** What a reader loop leaves behind: the groups accumulated so far without truncation,
      how many bytes it consumed, and the error it stopped on, if any. */
  datatype VarRead = VarRead(raw: nat, used: nat, err: Option<WireError>)

  /** Reading from the front of `s` when `k` groups have been consumed before. */
  function ReadVar(s: Bytes, k: nat): (r: VarRead)
    requires k <= MAX_VARINT_LEN
    ensures r.used <= |s|
    ensures r.err.None? ==> r.used > 0
    decreases MAX_VARINT_LEN - k
  {
    if k == MAX_VARINT_LEN then VarRead(0, 0, Some(IntOverflow))
    else if s == [] then VarRead(0, 0, Some(UnexpectedEOF))
    else if s[0] < 128 then VarRead(s[0], 1, None)
    else
      var r := ReadVar(s[1..], k + 1);
      VarRead(s[0] % 128 + 128 * r.raw, r.used + 1, r.err)
  }

  /** A successful read looks at no byte past the ones it consumes. */
  lemma {:induction false} ReadVarLocal(s: Bytes, t: Bytes, k: nat)
    requires k <= MAX_VARINT_LEN
    requires ReadVar(s, k).err.None?
    ensures ReadVar(s + t, k) == ReadVar(s, k)
    decreases MAX_VARINT_LEN - k
  {
    assert (s + t)[0] == s[0];
    if s[0] >= 128 {
      assert (s + t)[1..] == s[1..] + t;
      ReadVarLocal(s[1..], t, k + 1);
    }
  }

  /** The reader inverts the writer, whatever follows. */
  lemma {:induction false} ReadVarInverts(v: nat, t: Bytes, k: nat)
    requires k + |VarintBytes(v)| <= MAX_VARINT_LEN
    ensures ReadVar(VarintBytes(v) + t, k) == VarRead(v, |VarintBytes(v)|, None)
    decreases v
  {
    var s := VarintBytes(v) + t;
    if v >= 128 {
      assert s[0] == v % 128 + 128;
      assert s[1..] == VarintBytes(v / 128) + t;
      ReadVarInverts(v / 128, t, k + 1);
    } else {
      assert s[0] == v;
    }
  }

  lemma {:induction false} ReadVar64(v: nat, t: Bytes)
    requires v < TWO_64
    ensures ReadVar(VarintBytes(v) + t, 0) == VarRead(v, |VarintBytes(v)|, None)
  {
    VarintLength64(v);
    ReadVarInverts(v, t, 0);
  }

  lemma Distribute(q: nat, m: nat, r: nat, p: nat)
    ensures (q * m + r) * p == q * (p * m) + r * p
  {
    assert (q * m + r) * p == (q * m) * p + r * p;
    assert (q * m) * p == q * (p * m);
  }

  /** The part of a shifted group that stays inside the word when the shift does. */
  lemma ShiftedGroup(low: nat, p: nat, m: nat) returns (q: nat, r: nat)
    requires p > 0 && m > 0
    ensures low * p == q * (p * m) + r * p && r * p + p <= p * m
  {
    q, r := low / m, low % m;
    Distribute(q, m, r, p);
    MulAtLeast(m - r, p);
    assert (m - r) * p == p * m - r * p;
  }

  /** One turn of the accumulator: or-ing in a shifted group adds it modulo the width. */
  lemma {:induction false} AccumulateInside(acc: nat, low: nat, shift: nat, width: nat)
    requires acc < Pow2(shift) && shift <= width
    ensures Or(acc % Pow2(width), Shl(low, shift, width)) == (acc + low * Pow2(shift)) % Pow2(width)
  {
    var w, p, m := Pow2(width), Pow2(shift), Pow2(width - shift);
    Pow2Add(shift, width - shift);
    var q, r := ShiftedGroup(low, p, m);
    DivModUnique(acc, w, 0, acc);
    DivModUnique(low * p, w, q, r * p);
    MulMod(r, p);
    OrDisjoint(acc, r * p, shift);
    DivModUnique(acc + low * p, w, q, acc + r * p);
  }

  lemma {:induction false} AccumulateBeyond(acc: nat, low: nat, shift: nat, width: nat)
    requires shift > width
    ensures Or(acc % Pow2(width), Shl(low, shift, width)) == (acc + low * Pow2(shift)) % Pow2(width)
  {
    var w, m := Pow2(width), low * Pow2(shift - width);
    Pow2Add(width, shift - width);
    assert low * (w * Pow2(shift - width)) == m * w;
    MulMod(m, w);
    AddMultiple(acc, m, w);
    assert Or(acc % w, 0) == acc % w;
  }

  lemma AddMultiple(x: nat, m: nat, w: nat)
    requires w > 0
    ensures (x + m * w) % w == x % w
  {
    var q, a := x / w, x % w;
    assert x + m * w == (q + m) * w + a;
    DivModUnique(x + m * w, w, q + m, a);
  }

  /** What a sequence of 7-bit groups is worth, least significant first. */
  function GroupsValue(g: Bytes): nat {
    if g == [] then 0 else g[0] % 128 + 128 * GroupsValue(g[1..])
  }

  lemma {:induction false} Pow2Next(k: nat)
    ensures Pow2(7 * (k + 1)) == 128 * Pow2(7 * k)
  {
    Pow2Literals();
    Pow2Add(7, 7 * k);
  }

  lemma {:induction false} GroupsAppend(g: Bytes, b: Byte)
    ensures GroupsValue(g + [b]) == GroupsValue(g) + (b % 128) * Pow2(7 * |g|)
    ensures GroupsValue(g) < Pow2(7 * |g|)
  {
    if g == [] {
      assert [b][1..] == [];
    } else {
      var p := Pow2(7 * |g[1..]|);
      GroupsAppend(g[1..], b);
      Pow2Next(|g[1..]|);
      assert (g + [b])[1..] == g[1..] + [b];
      assert 128 * ((b % 128) * p) == (b % 128) * (128 * p);
    }
  }

  /** `word |= uintN(b&0x7F) << shift`, after the groups `g`. */
  method OrGroup(word: nat, b: Byte, shift: nat, width: nat, ghost g: Bytes) returns (r: nat)
    requires word == GroupsValue(g) % Pow2(width) && shift == 7 * |g|
    ensures r == GroupsValue(g + [b]) % Pow2(width)
  {
    Pow2Literals();
    AndMask(b, 7);
    GroupsAppend(g, b);
    if shift <= width {
      AccumulateInside(GroupsValue(g), b % 128, shift, width);
    } else {
      AccumulateBeyond(GroupsValue(g), b % 128, shift, width);
    }
    r := Or(word, Shl(And(b, 0x7f), shift, width));
  }

  /** Where reading ends after `n` continuation bytes, when `k` groups have been consumed before. */
  lemma {:induction false} ReadVarEnds(s: Bytes, n: nat, k: nat)
    requires n <= |s| && k + n <= MAX_VARINT_LEN && forall j :: 0 <= j < n ==> s[j] >= 128
    ensures k + n == MAX_VARINT_LEN ==> ReadVar(s, k) == VarRead(GroupsValue(s[..n]), n, Some(IntOverflow))
    ensures k + n < MAX_VARINT_LEN && n == |s| ==> ReadVar(s, k) == VarRead(GroupsValue(s[..n]), n, Some(UnexpectedEOF))
    ensures k + n < MAX_VARINT_LEN && n < |s| && s[n] < 128 ==> ReadVar(s, k) == VarRead(GroupsValue(s[..n + 1]), n + 1, None)
    decreases n
  {
    if n > 0 {
      ReadVarEnds(s[1..], n - 1, k + 1);
      assert s[..n][1..] == s[1..][..n - 1];
      assert n < |s| ==> s[..n + 1][1..] == s[1..][..n];
    } else if s != [] {
      assert s[..1][1..] == [];
    }
  }

  /** The reader loop: from index `start` it or-s 7-bit groups into a word of `width`
      bits, stopping at the first byte below 0x80, past 64 bits of shift, or at the end
      of the data. The word is left holding what was read, on an error too. */
  method ReadVarint(d: Bytes, start: nat, width: nat) returns (word: nat, next: nat, err: Option<WireError>)
    requires start <= |d|
    ensures var r := ReadVar(d[start..], 0);
            word == r.raw % Pow2(width) && next == start + r.used && err == r.err
  {
    ghost var s := d[start..];
    var shift: nat := 0;
    word, next, err := 0, start, None;
    DivModUnique(0, Pow2(width), 0, 0);
    while true
      invariant start <= next <= |d| && shift == 7 * (next - start) <= 70
      invariant forall j :: 0 <= j < next - start ==> s[j] >= 128
      invariant word == GroupsValue(s[..next - start]) % Pow2(width)
      decreases 70 - shift
    {
      ReadVarEnds(s, next - start, 0);
      if shift >= 64 {
        return word, next, Some(IntOverflow);
      }
      if next >= |d| {
        return word, next, Some(UnexpectedEOF);
      }
      var b := d[next];
      assert s[..next - start] + [b] == s[..next + 1 - start];
      word := OrGroup(word, b, shift, width, s[..next - start]);
      next := next + 1;
      if b < 0x80 {
        return word, next, None;
      }
      shift := shift + 7;
    }
  }
}
