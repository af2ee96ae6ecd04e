/** The RPC frame: a start byte, five 32-bit sizes, a type byte and five fields. Offsets are
    32-bit words that wrap around, and a slice outside the data panics. */
module RpcFrame {
  import opened Bits

  const START_CIPHER: Byte := 0x05
  const HEAD_SIZE: nat := 21

  datatype Header = Header(requestIdSize: nat, methodNameSize: nat, authCodeSize: nat, errMsgSize: nat, payloadSize: nat)

  /** A decoded message; `E` is the type of error messages, whose JSON form is a parameter. */
  datatype Message<E> = Message(
    header: Header, msgType: Byte, requestId: Bytes, methodName: Bytes, authCode: Bytes, errMsg: E, payload: Bytes)

  /** What a call yields: a message, a returned error, or a run-time panic. */
  datatype Outcome<E> = Ok(msg: Message<E>) | Failed | Panic

  // ----- 32-bit words -----

  /** `binary.BigEndian.PutUint32(_, uint32(n))`. */
  function Put32(n: nat): (b: Bytes)
    ensures |b| == 4
  {
    var w := n % TWO_32;
    [w / 0x100_0000, w / 0x1_0000 % 256, w / 0x100 % 256, w % 256]
  }

  function Get32(b: Bytes): (n: nat)
    requires |b| == 4
    ensures n < TWO_32
  {
    0x100_0000 * (b[0] as int) + 0x1_0000 * (b[1] as int) + 0x100 * (b[2] as int) + b[3]
  }

  lemma GetPut32(n: nat)
    ensures Get32(Put32(n)) == n % TWO_32
  {
    var w := n % TWO_32;
    assert w == w / 0x100 * 0x100 + w % 256;
    assert w / 0x100 == w / 0x1_0000 * 0x100 + w / 0x100 % 256;
    assert w / 0x1_0000 == w / 0x100_0000 * 0x100 + w / 0x1_0000 % 256;
  }

  lemma WordSurvives(n: nat)
    ensures n < TWO_32 ==> Get32(Put32(n)) == n
  {
    GetPut32(n);
    if n < TWO_32 {
      DivModUnique(n, TWO_32, 0, n);
    }
  }

  // ----- the frame -----

  /** The parts of a frame as its encoder is given them, the error message already in JSON. */
  datatype Parts = Parts(msgType: Byte, requestId: Bytes, methodName: Bytes, authCode: Bytes, errBytes: Bytes, payload: Bytes)

  function Body(p: Parts): Bytes {
    [p.msgType] + p.requestId + p.methodName + p.authCode + p.errBytes + p.payload
  }

  function Head(p: Parts): (h: Bytes)
    ensures |h| == HEAD_SIZE
  {
    [START_CIPHER] + Put32(|p.requestId|) + Put32(|p.methodName|) + Put32(|p.authCode|)
    + Put32(|p.errBytes|) + Put32(|p.payload|)
  }

  function Frame(p: Parts): Bytes {
    Head(p) + Body(p)
  }

  /** The bytes from index `i` on are `n`, most significant byte first. */
  predicate WordAt(data: Bytes, i: nat, n: nat) {
    i + 4 <= |data| &&
    n == data[i] as int * 0x100_0000 + data[i + 1] as int * 0x1_0000 + data[i + 2] as int * 0x100 + data[i + 3] as int
  }

  lemma WordFromSlice(data: Bytes, i: nat, n: nat)
    requires i + 4 <= |data| && data[i..i + 4] == Put32(n) && n < TWO_32
    ensures WordAt(data, i, n)
  {
    WordSurvives(n);
    var w := data[i..i + 4];
    assert w[0] == data[i] && w[1] == data[i + 1] && w[2] == data[i + 2] && w[3] == data[i + 3];
  }

  /** The frame by index: the start byte, five sizes of four bytes, and, from byte 21 on, the type and the
      five fields one after the other. */
  lemma FrameLayout(p: Parts, data: Bytes)
    requires |Frame(p)| < TWO_32 && data == Frame(p)
    ensures var a := 22 + |p.requestId|;
            var b := a + |p.methodName|;
            var c := b + |p.authCode|;
            var d := c + |p.errBytes|;
            && |data| == d + |p.payload| && data[0] == 5 && data[21] == p.msgType
            && data[22..a] == p.requestId && data[a..b] == p.methodName && data[b..c] == p.authCode
            && data[c..d] == p.errBytes && data[d..] == p.payload
    ensures WordAt(data, 1, |p.requestId|) && WordAt(data, 5, |p.methodName|) && WordAt(data, 9, |p.authCode|)
    ensures WordAt(data, 13, |p.errBytes|) && WordAt(data, 17, |p.payload|)
  {
    HeadWords(p, data);
    BodySlices(Head(p), p.msgType, p.requestId, p.methodName, p.authCode, p.errBytes, p.payload, data);
  }

  lemma HeadWords(p: Parts, data: Bytes)
    requires |Frame(p)| < TWO_32 && data == Frame(p)
    ensures WordAt(data, 1, |p.requestId|) && WordAt(data, 5, |p.methodName|) && WordAt(data, 9, |p.authCode|)
    ensures WordAt(data, 13, |p.errBytes|) && WordAt(data, 17, |p.payload|) && data[0] == 5
  {
    HeadSlices(p, Body(p));
    WordFromSlice(data, 1, |p.requestId|);
    WordFromSlice(data, 5, |p.methodName|);
    WordFromSlice(data, 9, |p.authCode|);
    WordFromSlice(data, 13, |p.errBytes|);
    WordFromSlice(data, 17, |p.payload|);
  }

  // ----- decoding, on values -----

  /** `DecodeHeader`: the first byte is looked at before the length is. */
  datatype HeaderOutcome = HeaderOk(h: Header) | HeaderFailed | HeaderPanic

  function DecodeHeader(data: Bytes): HeaderOutcome {
    if data == [] then HeaderPanic
    else if data[0] != START_CIPHER then HeaderFailed
    else if |data| < HEAD_SIZE then HeaderPanic
    else HeaderOk(Header(Get32(data[1..5]), Get32(data[5..9]), Get32(data[9..13]), Get32(data[13..17]), Get32(data[17..21])))
  }

  ghost predicate Words(h: Header) {
    h.requestIdSize < TWO_32 && h.methodNameSize < TWO_32 && h.authCodeSize < TWO_32
    && h.errMsgSize < TWO_32 && h.payloadSize < TWO_32
  }

  /** The end of the error message, and of the whole body, when the body starts at `st`. */
  function ErrEnd(h: Header, st: nat): nat {
    st + 1 + h.requestIdSize + h.methodNameSize + h.authCodeSize + h.errMsgSize
  }

  function BodyEnd(h: Header, st: nat): nat {
    ErrEnd(h, st) + h.payloadSize
  }

  /** An index that a 32-bit offset can name inside the data. */
  predicate InRange(end: nat, data: Bytes) {
    end <= |data| && end < TWO_32
  }

  /** `DecodeMessageV2`: the fields lie one after the other from `st` on. */
  ghost function DecodeBody<E>(dec: Bytes -> Option<E>, data: Bytes, h: Header, st: nat): Outcome<E> {
    if !InRange(ErrEnd(h, st), data) then Panic
    else
      var a := st + 1 + h.requestIdSize;
      var b := a + h.methodNameSize;
      var c := b + h.authCodeSize;
      var d := ErrEnd(h, st);
      var e := dec(data[c..d]);
      if e.None? then Failed
      else if !InRange(BodyEnd(h, st), data) then Panic
      else Ok(Message(h, data[st], data[st + 1..a], data[a..b], data[b..c], e.value, data[d..BodyEnd(h, st)]))
  }

  /** `DecodeMessage`. */
  ghost function DecodeFrame<E>(dec: Bytes -> Option<E>, data: Bytes): Outcome<E> {
    match DecodeHeader(data)
    case HeaderPanic => Panic
    case HeaderFailed => Failed
    case HeaderOk(h) => DecodeBody(dec, data, h, HEAD_SIZE)
  }

  // ----- decoding inverts encoding -----

  ghost function Decoded<E>(p: Parts, e: E): Message<E> {
    Message(Header(|p.requestId|, |p.methodName|, |p.authCode|, |p.errBytes|, |p.payload|),
            p.msgType, p.requestId, p.methodName, p.authCode, e, p.payload)
  }

  lemma HeadSlices(p: Parts, rest: Bytes)
    ensures var data := Head(p) + rest;
            && data[0] == START_CIPHER
            && data[1..5] == Put32(|p.requestId|) && data[5..9] == Put32(|p.methodName|)
            && data[9..13] == Put32(|p.authCode|) && data[13..17] == Put32(|p.errBytes|)
            && data[17..21] == Put32(|p.payload|)
  {
  }

  lemma SixParts(a: Bytes, b: Bytes, c: Bytes, d: Bytes, e: Bytes, data: Bytes, rest: Bytes)
    requires |a| == 4 && |b| == 4 && |c| == 4 && |d| == 4 && |e| == 4
    requires data == [START_CIPHER] + a + b + c + d + e + rest
    ensures data[0] == START_CIPHER && data[1..5] == a && data[5..9] == b && data[9..13] == c
    ensures data[13..17] == d && data[17..21] == e
  {
  }

  lemma HeadDecodes(p: Parts, rest: Bytes)
    requires |Frame(p)| < TWO_32
    ensures DecodeHeader(Head(p) + rest)
            == HeaderOk(Header(|p.requestId|, |p.methodName|, |p.authCode|, |p.errBytes|, |p.payload|))
  {
    HeadSlices(p, rest);
    WordSurvives(|p.requestId|);
    WordSurvives(|p.methodName|);
    WordSurvives(|p.authCode|);
    WordSurvives(|p.errBytes|);
    WordSurvives(|p.payload|);
  }

  lemma BodySlices(before: Bytes, t: Byte, r: Bytes, n: Bytes, u: Bytes, e: Bytes, p: Bytes, data: Bytes)
    requires data == before + ([t] + r + n + u + e + p)
    ensures var st := |before|;
            var a := st + 1 + |r|;
            var b := a + |n|;
            var c := b + |u|;
            var d := c + |e|;
            && d + |p| == |data| && data[st] == t && data[st + 1..a] == r && data[a..b] == n
            && data[b..c] == u && data[c..d] == e && data[d..d + |p|] == p
  {
    assert data == before + [t] + r + n + u + e + p;
  }

  /** The body decodes wherever it lies in the data. */
  lemma BodyDecodes<E>(dec: Bytes -> Option<E>, p: Parts, e: E, before: Bytes)
    requires |before| + |Body(p)| < TWO_32 && dec(p.errBytes) == Some(e)
    ensures DecodeBody(dec, before + Body(p), Decoded(p, e).header, |before|) == Ok(Decoded(p, e))
  {
    BodySlices(before, p.msgType, p.requestId, p.methodName, p.authCode, p.errBytes, p.payload, before + Body(p));
  }

  /** Decoding a frame of 32-bit length gives back what was encoded, sizes included. */
  lemma FrameDecodes<E>(dec: Bytes -> Option<E>, p: Parts, e: E)
    requires |Frame(p)| < TWO_32 && dec(p.errBytes) == Some(e)
    ensures DecodeFrame(dec, Frame(p)) == Ok(Decoded(p, e))
  {
    HeadDecodes(p, Body(p));
    BodyDecodes(dec, p, e, Head(p));
  }

  // ----- reading from a stream -----

  /** What reading one message from a stream yields, and what is left of the stream. */
  datatype Read<E> = Read(outcome: Outcome<E>, rest: Bytes)

  /** The body length as the reader computes it, in 32 bits. */
  function BodyLen(h: Header): nat {
    BodyEnd(h, 0) % TWO_32
  }

  /** `IODecodeMessage`. A short read fails with the stream used up. */
  ghost function ReadMessage<E>(dec: Bytes -> Option<E>, s: Bytes): Read<E> {
    if s == [] then Read(Failed, [])
    else if s[0] != START_CIPHER then Read(Failed, s[1..])
    else if |s| < HEAD_SIZE then Read(Failed, [])
    else
      var h := DecodeHeader(s[..HEAD_SIZE]).h;
      var rest := s[HEAD_SIZE..];
      if |rest| < BodyLen(h) then Read(Failed, [])
      else Read(DecodeBody(dec, rest[..BodyLen(h)], h, 0), rest[BodyLen(h)..])
  }

  /** Reading takes exactly one frame off the stream. */
  lemma ReadOneFrame<E>(dec: Bytes -> Option<E>, p: Parts, e: E, rest: Bytes)
    requires |Frame(p)| < TWO_32 && dec(p.errBytes) == Some(e)
    ensures ReadMessage(dec, Frame(p) + rest) == Read(Ok(Decoded(p, e)), rest)
  {
    var s := Frame(p) + rest;
    assert s[..HEAD_SIZE] == Head(p) + [];
    HeadDecodes(p, []);
    var h := Decoded(p, e).header;
    var n := BodyEnd(h, 0);
    assert n == |Body(p)|;
    DivModUnique(n, TWO_32, 0, n);
    assert s[HEAD_SIZE..] == Body(p) + rest;
    assert s[HEAD_SIZE..][..n] == [] + Body(p);
    assert s[HEAD_SIZE..][n..] == rest;
    BodyDecodes(dec, p, e, []);
  }

  function Flatten(ps: seq<Parts>): Bytes {
    if ps == [] then [] else Frame(ps[0]) + Flatten(ps[1..])
  }

  /** Reading messages until the stream is empty or a read does not yield one. */
  ghost function ReadAll<E>(dec: Bytes -> Option<E>, s: Bytes): seq<Outcome<E>>
    decreases |s|
  {
    if s == [] then [] else
    var r := ReadMessage(dec, s);
    if r.outcome.Ok? then [r.outcome] + ReadAll(dec, r.rest) else [r.outcome]
  }

  /** A stream of frames decodes to the same messages in the same order, and to nothing else. */
  lemma {:induction false} StreamDecodes<E>(dec: Bytes -> Option<E>, ps: seq<Parts>, es: seq<E>)
    requires |ps| == |es|
    requires forall i :: 0 <= i < |ps| ==> |Frame(ps[i])| < TWO_32 && dec(ps[i].errBytes) == Some(es[i])
    ensures |ReadAll(dec, Flatten(ps))| == |ps|
    ensures forall i :: 0 <= i < |ps| ==> ReadAll(dec, Flatten(ps))[i] == Ok(Decoded(ps[i], es[i]))
    decreases |ps|
  {
    if ps != [] {
      ReadOneFrame(dec, ps[0], es[0], Flatten(ps[1..]));
      StreamDecodes(dec, ps[1..], es[1..]);
      var first: Outcome<E> := Ok(Decoded(ps[0], es[0]));
      assert ReadAll(dec, Flatten(ps)) == [first] + ReadAll(dec, Flatten(ps[1..]));
    }
  }

  /** The sizes in the header at the front of the stream add up past 32 bits, and the stream has as
      many bytes as the wrapped length asks for. */
  predicate Overflows(s: Bytes) {
    && |s| >= HEAD_SIZE && s[0] == START_CIPHER
    && var h := DecodeHeader(s[..HEAD_SIZE]).h;
       BodyEnd(h, 0) >= TWO_32 && BodyLen(h) <= |s| - HEAD_SIZE
  }

  /** Exactly when reading from a stream panics. */
  lemma ReadPanics<E>(dec: Bytes -> Option<E>, s: Bytes)
    ensures ReadMessage(dec, s).outcome.Panic? <==> Overflows(s)
  {
    if |s| >= HEAD_SIZE && s[0] == START_CIPHER {
      var h := DecodeHeader(s[..HEAD_SIZE]).h;
      var end, n := BodyEnd(h, 0), BodyLen(h);
      if end < TWO_32 {
        DivModUnique(end, TWO_32, 0, end);
      } else {
        assert n <= end - TWO_32 < ErrEnd(h, 0);
      }
    }
  }

  /** Such streams exist: 21 bytes whose first size is the largest word. */
  lemma ReadCanPanic<E>(dec: Bytes -> Option<E>, s: Bytes, zero: Bytes)
    requires zero == [0, 0, 0, 0] && s == [START_CIPHER] + [255, 255, 255, 255] + zero + zero + zero + zero
    ensures ReadMessage(dec, s).outcome.Panic?
  {
    assert s + [] == s && s[..HEAD_SIZE] == s;
    SixParts([255, 255, 255, 255], zero, zero, zero, zero, s, []);
    assert DecodeHeader(s) == HeaderOk(Header(0xFFFF_FFFF, 0, 0, 0, 0));
  }

  // ----- the methods -----

  /** `copy(buf[st:endI], src)`, or a 32-bit store, into the next part of the buffer. */
  method Fill(buf: array<Byte>, st: nat, src: Bytes) returns (endI: nat)
    requires st + |src| <= buf.Length
    modifies buf
    ensures endI == st + |src|
    ensures buf[..endI] == old(buf[..st]) + src
  {
    endI := st + |src|;
    for k := 0 to |src|
      invariant forall j :: 0 <= j < st ==> buf[j] == old(buf[j])
      invariant forall j :: 0 <= j < k ==> buf[st + j] == src[j]
    {
      buf[st + k] := src[k];
    }
  }

  /** `EncodeMessage`, after the error message has been turned into JSON. */
  method EncodeMessage(p: Parts) returns (buf: array<Byte>)
    ensures fresh(buf) && buf[..] == Frame(p)
  {
    var size := HEAD_SIZE + 1 + |p.requestId| + |p.methodName| + |p.authCode| + |p.errBytes| + |p.payload|;
    buf := new Byte[size](_ => 0);
    var st := EncodeHead(buf, p);
    st := EncodeBody(buf, st, p);
    assert buf[..] == buf[..st];
  }

  method EncodeBody(buf: array<Byte>, start: nat, p: Parts) returns (st: nat)
    requires start + |Body(p)| <= buf.Length
    modifies buf
    ensures st == start + |Body(p)| && buf[..st] == old(buf[..start]) + Body(p)
  {
    ghost var w := buf[..start];
    st := Fill(buf, start, [p.msgType]);
    st := Fill(buf, st, p.requestId);
    st := Fill(buf, st, p.methodName);
    st := Fill(buf, st, p.authCode);
    st := Fill(buf, st, p.errBytes);
    st := Fill(buf, st, p.payload);
    Reassociate(w, [p.msgType], p.requestId, p.methodName, p.authCode, p.errBytes, p.payload);
  }

  lemma Reassociate(w: Bytes, t: Bytes, r: Bytes, n: Bytes, u: Bytes, e: Bytes, p: Bytes)
    ensures w + t + r + n + u + e + p == w + (t + r + n + u + e + p)
  {
  }

  method EncodeHead(buf: array<Byte>, p: Parts) returns (st: nat)
    requires HEAD_SIZE <= buf.Length
    modifies buf
    ensures st == HEAD_SIZE && buf[..st] == Head(p)
  {
    st := Fill(buf, 0, [START_CIPHER]);
    st := Fill(buf, st, Put32(|p.requestId|));
    st := Fill(buf, st, Put32(|p.methodName|));
    st := Fill(buf, st, Put32(|p.authCode|));
    st := Fill(buf, st, Put32(|p.errBytes|));
    st := Fill(buf, st, Put32(|p.payload|));
  }

  /** `data[st:endI]` for `endI := st + size` in 32 bits: none if the slice expression panics. */
  method Slice(data: Bytes, st: nat, size: nat) returns (part: Option<Bytes>, endI: nat)
    requires st < TWO_32 && size < TWO_32
    ensures if InRange(st + size, data) then part == Some(data[st..st + size]) && endI == st + size
            else part.None?
  {
    endI := (st + size) % TWO_32;
    if st + size < TWO_32 {
      DivModUnique(st + size, TWO_32, 0, st + size);
    } else {
      DivModUnique(st + size, TWO_32, 1, st + size - TWO_32);
    }
    if st <= endI <= |data| {
      part := Some(data[st..endI]);
    } else {
      part := None;
    }
  }

  /** `DecodeMessageV2`. */
  method DecodeMessageV2<E>(dec: Bytes -> Option<E>, data: Bytes, h: Header, headSize: nat) returns (r: Outcome<E>)
    requires Words(h) && headSize <= HEAD_SIZE
    ensures r == DecodeBody(dec, data, h, headSize)
  {
    var st := headSize;
    if st >= |data| {
      return Panic;
    }
    var msgType := data[st];
    st := st + 1;
    var requestId, methodName, authCode, errBytes, payload;
    requestId, st := Slice(data, st, h.requestIdSize);
    if requestId.None? { return Panic; }
    methodName, st := Slice(data, st, h.methodNameSize);
    if methodName.None? { return Panic; }
    authCode, st := Slice(data, st, h.authCodeSize);
    if authCode.None? { return Panic; }
    errBytes, st := Slice(data, st, h.errMsgSize);
    if errBytes.None? { return Panic; }
    var errMsg := dec(errBytes.value);
    if errMsg.None? { return Failed; }
    payload, st := Slice(data, st, h.payloadSize);
    if payload.None? { return Panic; }
    return Ok(Message(h, msgType, requestId.value, methodName.value, authCode.value, errMsg.value, payload.value));
  }

  /** `DecodeMessage`. */
  method DecodeMessage<E>(dec: Bytes -> Option<E>, data: Bytes) returns (r: Outcome<E>)
    ensures r == DecodeFrame(dec, data)
  {
    match DecodeHeader(data)
    case HeaderPanic => r := Panic;
    case HeaderFailed => r := Failed;
    case HeaderOk(h) => r := DecodeMessageV2(dec, data, h, HEAD_SIZE);
  }

  /** The bytes a connection has yet to deliver. */
  class Reader {
    var rest: Bytes

    /** `io.ReadFull`: all of the bytes asked for, or a failure that uses up the stream. */
    method ReadFull(n: nat) returns (data: Option<Bytes>)
      modifies this
      ensures if n <= |old(rest)| then data == Some(old(rest)[..n]) && rest == old(rest)[n..]
              else data.None? && rest == []
    {
      if n <= |rest| {
        data := Some(rest[..n]);
        rest := rest[n..];
      } else {
        data := None;
        rest := [];
      }
    }
  }

  /** `IODecodeMessage`. */
  method IODecodeMessage<E>(dec: Bytes -> Option<E>, r: Reader) returns (o: Outcome<E>)
    modifies r
    ensures ReadMessage(dec, old(r.rest)) == Read(o, r.rest)
  {
    ghost var s := r.rest;
    var first := r.ReadFull(1);
    if first.None? {
      return Failed;
    }
    if first.value[0] != START_CIPHER {
      return Failed;
    }
    var more := r.ReadFull(HEAD_SIZE - 1);
    if more.None? {
      return Failed;
    }
    var headerByte := first.value + more.value;
    assert headerByte == s[..HEAD_SIZE];
    var h := DecodeHeader(headerByte).h;
    assert r.rest == s[HEAD_SIZE..];
    var bodyData := r.ReadFull(BodyLen(h));
    if bodyData.None? {
      return Failed;
    }
    o := DecodeMessageV2(dec, bodyData.value, h, 0);
  }
}
