/** The message framing of `cowrie/output/hpfeeds.py`. */
module Hpfeeds {
  import opened Options
  import opened Struct

  const MAXBUF := 0x10_0000

  /** `SIZES.get(opcode, MAXBUF)`. */
  function Limit(op: Byte): nat {
    if op == 0 || op == 3 then 5 + MAXBUF
    else if op == 1 || op == 2 then 5 + 256 + 20
    else if op == 4 then 5 + 256 * 2
    else MAXBUF
  }

  datatype Message = Message(op: Byte, data: Bytes)

  /** None is struct.error: the length does not fit. */
  function Header(m: Message): Option<Bytes> {
    if 5 + |m.data| >= TWO_31 then None
    else Some(Pack32(5 + |m.data|) + [m.op] + m.data)
  }

  /** What one call of `unpack` does.  A header that announces fewer than its own five bytes is
      Short; what the original does then is not modelled. */
  datatype Answer = Wait | Bad | Short | Got(message: Message)

  function Length(buf: Bytes): int
    requires |buf| >= 5
  {
    ToSigned(Unpack32(buf[..4]))
  }

  function Peek(buf: Bytes): (a: Answer)
    ensures a.Got? ==> |buf| >= 5 && 5 <= Length(buf) <= |buf| && a.message == Message(buf[4], buf[5..Length(buf)])
  {
    if |buf| < 5 then Wait
    else
      var ml := Length(buf);
      if ml > Limit(buf[4]) then Bad
      else if ml < 5 then Short
      else if |buf| < ml then Wait
      else Got(Message(buf[4], buf[5..ml]))
  }

  datatype Parsed = Parsed(messages: seq<Message>, rest: Bytes, stop: Answer)

  /** All messages in front of a buffer, what is left, and why it stopped. */
  function Parse(buf: Bytes): Parsed
    decreases |buf|
  {
    var a := Peek(buf);
    if !a.Got? then Parsed([], buf, a)
    else
      var more := Parse(buf[Length(buf)..]);
      more.(messages := [a.message] + more.messages)
  }

  class FeedUnpack {
    var buf: Bytes

    constructor ()
      ensures buf == []
    {
      buf := [];
    }

    method Feed(data: Bytes)
      modifies this
      ensures buf == old(buf) + data
    {
      buf := buf + data;
    }

    method Unpack() returns (a: Answer)
      modifies this
      ensures a == Peek(old(buf))
      ensures buf == if a.Got? then old(buf)[Length(old(buf))..] else old(buf)
    {
      if |buf| < 5 {
        return Wait;
      }
      var ml, op := ToSigned(Unpack32(buf[..4])), buf[4];
      if ml > Limit(op) {
        return Bad;
      }
      if ml < 5 {
        return Short;
      }
      if |buf| < ml {
        return Wait;
      }
      var data := buf[5..ml];
      buf := buf[ml..];
      a := Got(Message(op, data));
    }

    /** Iterating over the unpacker until it stops. */
    method Drain() returns (messages: seq<Message>, stop: Answer)
      modifies this
      ensures Parsed(messages, buf, stop) == Parse(old(buf))
    {
      hide Parse, Peek, Length;
      messages := [];
      Regroup([], [], Parse(buf).messages);
      while true
        invariant var p := Parse(buf); Parse(old(buf)) == p.(messages := messages + p.messages)
        decreases |buf|
      {
        ParseTurn(buf);
        stop := Unpack();
        if !stop.Got? {
          Regroup([], [], messages);
          return;
        }
        Regroup(messages, [stop.message], Parse(buf).messages);
        messages := messages + [stop.message];
      }
    }

    /** The socket loop: each chunk is fed and the unpacker drained.  It ends with the first answer that
        is not "wait for more". */
    method Receive(chunks: seq<Bytes>) returns (messages: seq<Message>, stop: Answer)
      requires buf == []
      modifies this
      ensures stop == Wait ==> Parsed(messages, buf, stop) == Parse(Flat(chunks))
      ensures stop != Wait ==> Parse(Flat(chunks)).messages == messages && Parse(Flat(chunks)).stop == stop
    {
      messages, stop := [], Wait;
      assert Parse([]) == Parsed([], [], Wait);
      assert chunks[..0] == [];
      for i := 0 to |chunks|
        invariant Parsed(messages, buf, Wait) == Parse(Flat(chunks[..i]))
      {
        FlatSnoc(chunks, i);
        ParseMore(Flat(chunks[..i]), chunks[i]);
        Feed(chunks[i]);
        var more, s := Drain();
        messages := messages + more;
        if s != Wait {
          FlatSplit(chunks, i + 1);
          ParseMore(Flat(chunks[..i + 1]), Flat(chunks[i + 1..]));
          return messages, s;
        }
      }
      assert chunks[..|chunks|] == chunks;
    }
  }

  function Flat(parts: seq<Bytes>): Bytes {
    if |parts| == 0 then [] else parts[0] + Flat(parts[1..])
  }

  lemma {:induction false} FlatSplit(parts: seq<Bytes>, i: nat)
    requires i <= |parts|
    ensures Flat(parts) == Flat(parts[..i]) + Flat(parts[i..])
  {
    if i == 0 {
      assert parts[0..] == parts && Flat(parts[..0]) == [];
    } else {
      FlatSplit(parts[1..], i - 1);
      assert parts[..i][1..] == parts[1..][..i - 1] && parts[i..] == parts[1..][i - 1..];
    }
  }

  lemma FlatSnoc(parts: seq<Bytes>, i: nat)
    requires i < |parts|
    ensures Flat(parts[..i + 1]) == Flat(parts[..i]) + parts[i]
  {
    FlatSplit(parts[..i + 1], i);
    assert parts[..i + 1][..i] == parts[..i] && parts[..i + 1][i..] == [parts[i]];
    assert Flat([parts[i]]) == parts[i] + [];
  }

  /** More bytes never change an answer other than Wait. */
  lemma PeekMore(buf: Bytes, more: Bytes)
    ensures Peek(buf) != Wait ==> Peek(buf + more) == Peek(buf)
    ensures Peek(buf).Got? ==>
      (buf + more)[Length(buf)..] == buf[Length(buf)..] + more && Length(buf + more) == Length(buf)
  {
    if |buf| >= 5 {
      assert (buf + more)[..4] == buf[..4];
      var ml := Length(buf);
      if 5 <= ml <= |buf| {
        assert (buf + more)[5..ml] == buf[5..ml];
      }
    }
  }

  /** Parsing is incremental: what follows is parsed together with the bytes left over.  Once the
      stream is bad, nothing that follows is looked at. */
  lemma {:induction false} ParseMore(buf: Bytes, more: Bytes)
    ensures var p := Parse(buf);
      if p.stop == Wait then
        Parse(buf + more) == (var q := Parse(p.rest + more); q.(messages := p.messages + q.messages))
      else Parse(buf + more) == p.(rest := p.rest + more)
    decreases |buf|
  {
    hide Parse, Peek, Length;
    PeekMore(buf, more);
    ParseTurn(buf);
    if Peek(buf).Got? {
      var tail := buf[Length(buf)..];
      ParseMore(tail, more);
      ParseTurn(buf + more);
      var p := Parse(tail);
      if p.stop == Wait {
        Regroup([Peek(buf).message], p.messages, Parse(p.rest + more).messages);
      }
    } else if Peek(buf) == Wait {
      Regroup([], [], Parse(buf + more).messages);
    } else {
      ParseTurn(buf + more);
    }
  }

  lemma Regroup<T>(a: seq<T>, b: seq<T>, c: seq<T>)
    ensures a + (b + c) == a + b + c && [] + c == c && c + [] == c
  {
  }

  /** One turn of the parser. */
  lemma ParseTurn(buf: Bytes)
    ensures if !Peek(buf).Got? then Parse(buf) == Parsed([], buf, Peek(buf))
            else && |buf| >= 5 && 5 <= Length(buf) <= |buf|
                 && var more := Parse(buf[Length(buf)..]);
                    Parse(buf) == more.(messages := [Peek(buf).message] + more.messages)
  {
  }

  /** What the unpacker accepts, and `msghdr` can build. */
  predicate Sendable(m: Message) {
    5 + |m.data| <= Limit(m.op)
  }

  function Encode(ms: seq<Message>): Bytes
    requires forall m | m in ms :: Sendable(m)
  {
    if |ms| == 0 then []
    else
      assert ms[0] in ms && Sendable(ms[0]) && 5 + |ms[0].data| < TWO_31;
      Header(ms[0]).value + Encode(ms[1..])
  }

  lemma PeekHeader(m: Message, more: Bytes)
    requires 5 + |m.data| < TWO_31
    ensures var buf := Header(m).value + more;
      && |buf| >= 5 && Length(buf) == 5 + |m.data| && buf[Length(buf)..] == more
      && Peek(buf) == if Sendable(m) then Got(m) else Bad
  {
    var buf := Header(m).value + more;
    Unpack32Pack(5 + |m.data|);
    assert buf[..4] == Pack32(5 + |m.data|);
    assert buf[5..5 + |m.data|] == m.data;
  }

  lemma {:induction false} ParseEncode(ms: seq<Message>)
    requires forall m | m in ms :: Sendable(m)
    ensures Parse(Encode(ms)) == Parsed(ms, [], Wait)
  {
    hide Parse, Peek, Header, Length;
    if |ms| == 0 {
      ParseNone();
    } else {
      assert ms[0] in ms && Sendable(ms[0]);
      PeekHeader(ms[0], Encode(ms[1..]));
      ParseTurn(Encode(ms));
      ParseEncode(ms[1..]);
      assert ms == [ms[0]] + ms[1..];
    }
  }

  lemma ParseNone()
    ensures Parse([]) == Parsed([], [], Wait)
  {
  }

  /** However the bytes of a list of messages are cut into chunks, exactly these messages arrive, in
      order, and nothing stays in the buffer. */
  method Transmit(ms: seq<Message>, chunks: seq<Bytes>) returns (received: seq<Message>, stop: Answer, rest: Bytes)
    requires forall m | m in ms :: Sendable(m)
    requires Flat(chunks) == Encode(ms)
    ensures received == ms && stop == Wait && rest == []
  {
    var unpacker := new FeedUnpack();
    ParseEncode(ms);
    received, stop := unpacker.Receive(chunks);
    rest := unpacker.buf;
  }

  /** The size limit is exact: a message beyond it stops the receiver for good, whatever came before
      and whatever follows. */
  lemma OversizeStops(ms: seq<Message>, m: Message, more: Bytes)
    requires (forall k | k in ms :: Sendable(k)) && !Sendable(m) && 5 + |m.data| < TWO_31
    ensures var p := Parse(Encode(ms) + (Header(m).value + more)); p.messages == ms && p.stop == Bad
  {
    ParseEncode(ms);
    PeekHeader(m, more);
    var tail := Header(m).value + more;
    ParseMore(Encode(ms), tail);
    assert [] + tail == tail;
    assert ms + [] == ms;
  }

  // Publish bodies --------------------------------------------------------------------------------

  /** `strpack8`; None is struct.error. */
  function StrPack8(x: Bytes): Option<Bytes> {
    if |x| > 255 then None else Some([|x|] + x)
  }

  /** `strunpack8`; None is IndexError. */
  function StrUnpack8(x: Bytes): Option<(Bytes, Bytes)> {
    if |x| == 0 then None
    else
      var line: nat := x[0];
      Some((Slice(x, 1, 1 + line), Slice(x, 1 + line, 1 + line + |x|)))
  }

  lemma StrUnpackPack(x: Bytes, more: Bytes)
    requires |x| <= 255
    ensures StrUnpack8(StrPack8(x).value + more) == Some((x, more))
  {
    var b := StrPack8(x).value + more;
    assert b[0] == |x| && |b| == 1 + |x| + |more|;
    assert Slice(b, 1, 1 + |x|) == b[1..1 + |x|] == x;
    assert Slice(b, 1 + |x|, 1 + |x| + |b|) == b[1 + |x|..] == more;
  }

  /** The body that `msgpublish` frames. */
  function PublishBody(ident: Bytes, chan: Bytes, data: Bytes): Option<Bytes> {
    if StrPack8(ident) == None || StrPack8(chan) == None then None
    else Some(StrPack8(ident).value + StrPack8(chan).value + data)
  }

  /** The three parts of a published body; None is IndexError. */
  function Parts(body: Bytes): Option<Publication> {
    var first := StrUnpack8(body);
    if first == None then None
    else
      var second := StrUnpack8(first.value.1);
      if second == None then None else Some(Publication(first.value.0, second.value.0, second.value.1))
  }

  datatype Publication = Publication(ident: Bytes, chan: Bytes, data: Bytes)

  const OP_PUBLISH: Byte := 3

  /** What can be published and will be accepted. */
  predicate Publishable(p: Publication) {
    |p.ident| <= 255 && |p.chan| <= 255 && 2 + |p.ident| + |p.chan| + |p.data| <= MAXBUF
  }

  /** `msgpublish` for each publication, up to the framing. */
  function Published(ps: seq<Publication>): (ms: seq<Message>)
    requires forall p | p in ps :: Publishable(p)
    ensures |ms| == |ps| && forall m | m in ms :: Sendable(m)
  {
    if |ps| == 0 then []
    else
      assert ps[0] in ps && Publishable(ps[0]);
      [Message(OP_PUBLISH, PublishBody(ps[0].ident, ps[0].chan, ps[0].data).value)] + Published(ps[1..])
  }

  /** That is exactly what can be built and keeps the limit of the receiver. */
  lemma PublishableExactly(p: Publication)
    ensures var body := PublishBody(p.ident, p.chan, p.data);
      Publishable(p) <==> body.Some? && Sendable(Message(OP_PUBLISH, body.value))
  {
  }

  lemma {:induction false} PublishedParts(ps: seq<Publication>)
    requires forall p | p in ps :: Publishable(p)
    ensures forall i | 0 <= i < |ps| :: Parts(Published(ps)[i].data) == Some(ps[i])
  {
    if |ps| > 0 {
      assert ps[0] in ps && Publishable(ps[0]);
      PublishSplits(ps[0].ident, ps[0].chan, ps[0].data);
      PublishedParts(ps[1..]);
    }
  }

  /** Everything that is published arrives, whole and in order, however the stream is cut into chunks. */
  method Deliver(ps: seq<Publication>, chunks: seq<Bytes>) returns (got: seq<Publication>, rest: Bytes)
    requires forall p | p in ps :: Publishable(p)
    requires Flat(chunks) == Encode(Published(ps))
    ensures got == ps && rest == []
  {
    hide Published, Parts;
    PublishedParts(ps);
    var received, stop, left := Transmit(Published(ps), chunks);
    rest := left;
    got := [];
    for i := 0 to |received|
      invariant got == ps[..i]
    {
      assert received[i] == Published(ps)[i];
      got := got + [Parts(received[i].data).value];
    }
    assert ps[..|ps|] == ps;
  }

  /** A published body can be built exactly when ident and channel have at most 255 bytes, and then it
      splits back into ident, channel and data. */
  lemma PublishSplits(ident: Bytes, chan: Bytes, data: Bytes)
    ensures PublishBody(ident, chan, data).Some? <==> |ident| <= 255 && |chan| <= 255
    ensures PublishBody(ident, chan, data).Some? ==>
      var first := StrUnpack8(PublishBody(ident, chan, data).value);
      && first.Some? && first.value.0 == ident
      && StrUnpack8(first.value.1) == Some((chan, data))
  {
    if |ident| <= 255 && |chan| <= 255 {
      var tail := StrPack8(chan).value + data;
      assert PublishBody(ident, chan, data).value == StrPack8(ident).value + tail;
      StrUnpackPack(ident, tail);
      StrUnpackPack(chan, data);
    }
  }

  /** The size limits by op code: error, info, auth, publish and subscribe, and any other. */
  lemma Limits(op: Byte)
    ensures Limit(op) ==
      match op
      case 0 => 1048581
      case 1 => 281
      case 2 => 281
      case 3 => 1048581
      case 4 => 517
      case _ => 1048576
  {
  }

  /** A published message byte by byte: length, op code 3, ident, channel, payload. */
  lemma PublishedExample()
    ensures PublishBody([105], [99, 104], [1, 2, 3]) == Some([1, 105, 2, 99, 104, 1, 2, 3])
    ensures Header(Message(OP_PUBLISH, [1, 105, 2, 99, 104, 1, 2, 3])) ==
      Some([0, 0, 0, 13, 3, 1, 105, 2, 99, 104, 1, 2, 3])
  {
    var ident, chan, data: Bytes := [105], [99, 104], [1, 2, 3];
    assert StrPack8(ident).value + StrPack8(chan).value + data == [1, 105, 2, 99, 104, 1, 2, 3];
    var body: Bytes := [1, 105, 2, 99, 104, 1, 2, 3];
    assert Pack32(13) == [0, 0, 0, 13];
    assert Pack32(5 + |body|) + [OP_PUBLISH] + body == [0, 0, 0, 13, 3, 1, 105, 2, 99, 104, 1, 2, 3];
  }
}
