/** The tty log of `cowrie/core/ttylog.py`: records appended to a file, and the reader that collects
    what was typed. */
module TtyLog {
  import opened Options
  import opened Struct

  const OP_OPEN := 1
  const OP_CLOSE := 2
  const OP_WRITE := 3
  const TYPE_OUTPUT := 2

  /** The size of '<iLiiLL'. */
  const HEADER := 24

  predicate Int32(n: int) { -TWO_31 <= n < TWO_31 }

  predicate UInt32(n: int) { 0 <= n < TWO_32 }

  function LittleInt(n: int): (b: Bytes)
    requires Int32(n)
    ensures |b| == 4
  {
    Reverse(Pack32(ToUnsigned(n)))
  }

  function LittleLong(n: int): (b: Bytes)
    requires UInt32(n)
    ensures |b| == 4
  {
    Reverse(Pack32(n))
  }

  function ReadInt(b: Bytes): int
    requires |b| == 4
  {
    ToSigned(Unpack32(Reverse(b)))
  }

  /** `struct.pack(TTYSTRUCT, op, 0, length, direction, sec, usec)`. */
  function Pack(op: int, length: int, direction: int, sec: int, usec: int): (b: Bytes)
    requires Int32(op) && Int32(length) && Int32(direction) && UInt32(sec) && UInt32(usec)
    ensures |b| == HEADER
  {
    LittleInt(op) + LittleLong(0) + LittleInt(length) + LittleInt(direction) + LittleLong(sec) + LittleLong(usec)
  }

  lemma ReadBack(n: int)
    requires Int32(n)
    ensures ReadInt(LittleInt(n)) == n
  {
    Unpack32Pack(ToUnsigned(n));
    assert Reverse(LittleInt(n)) == Pack32(ToUnsigned(n));
  }

  lemma PackFields(op: int, length: int, direction: int, sec: int, usec: int)
    requires Int32(op) && Int32(length) && Int32(direction) && UInt32(sec) && UInt32(usec)
    ensures var b := Pack(op, length, direction, sec, usec);
      ReadInt(b[..4]) == op && ReadInt(b[8..12]) == length && ReadInt(b[12..16]) == direction
  {
    var b := Pack(op, length, direction, sec, usec);
    assert b[..4] == LittleInt(op) && b[8..12] == LittleInt(length) && b[12..16] == LittleInt(direction);
    ReadBack(op);
    ReadBack(length);
    ReadBack(direction);
  }

  /** One call of `ttylog_open`, `ttylog_write` (with `length == len(data)`) or `ttylog_close`. */
  datatype Record =
    | Open(sec: int, usec: int)
    | Write(direction: int, sec: int, usec: int, data: Bytes)
    | Close(sec: int, usec: int)

  predicate Packable(r: Record) {
    UInt32(r.sec) && UInt32(r.usec) && (r.Write? ==> Int32(r.direction) && |r.data| < TWO_31)
  }

  function Written(r: Record): Bytes
    requires Packable(r)
  {
    match r
    case Open(sec, usec) => Pack(OP_OPEN, 0, 0, sec, usec)
    case Write(direction, sec, usec, data) => Pack(OP_WRITE, |data|, direction, sec, usec) + data
    case Close(sec, usec) => Pack(OP_CLOSE, 0, 0, sec, usec)
  }

  function File(rs: seq<Record>): Bytes
    requires forall r | r in rs :: Packable(r)
  {
    if |rs| == 0 then [] else assert rs[0] in rs; Written(rs[0]) + File(rs[1..])
  }

  /** What the session's inputs were. */
  function Typed(rs: seq<Record>): Bytes {
    if |rs| == 0 then []
    else (if rs[0].Write? && rs[0].direction != TYPE_OUTPUT then rs[0].data else []) + Typed(rs[1..])
  }

  /** The log file, opened for appending in each call. */
  class LogFile {
    var file: Bytes

    constructor ()
      ensures file == []
    {
      file := [];
    }

    method Append(r: Record)
      requires Packable(r)
      modifies this
      ensures file == old(file) + Written(r)
    {
      match r
      case Open(sec, usec) => file := file + Pack(OP_OPEN, 0, 0, sec, usec);
      case Write(direction, sec, usec, data) =>
        file := file + Pack(OP_WRITE, |data|, direction, sec, usec);
        file := file + data;
        assert file == old(file) + Written(r);
      case Close(sec, usec) => file := file + Pack(OP_CLOSE, 0, 0, sec, usec);
    }
  }

  /** What the reader collects from a file position on; None is the ValueError that reading a
      negative number of bytes other than -1 raises. */
  function Collect(f: Bytes): Option<Bytes>
    decreases |f|
  {
    if |f| < HEADER then Some([])
    else
      var op, length, direction := ReadInt(f[..4]), ReadInt(f[8..12]), ReadInt(f[12..16]);
      if length < -1 then None
      else
        var end := if length == -1 || HEADER + length > |f| then |f| else HEADER + length;
        var rest := Collect(f[end..]);
        if rest == None then None
        else Some((if op == OP_WRITE && direction == TYPE_OUTPUT then [] else f[HEADER..end]) + rest.value)
  }

  /** The bytes collected so far, and what is still to come. */
  function Onto(input: Bytes, more: Option<Bytes>): Option<Bytes> {
    if more == None then None else Some(input + more.value)
  }

  lemma OntoOnto(a: Bytes, b: Bytes, more: Option<Bytes>)
    ensures Onto(a, Onto(b, more)) == Onto(a + b, more) && Onto([], more) == more
  {
    if more.Some? {
      assert a + (b + more.value) == a + b + more.value;
      assert [] + more.value == more.value;
    }
  }

  lemma Prefix(b: Bytes, n: nat, i: nat, j: nat)
    requires i <= j <= n <= |b|
    ensures b[..n][i..j] == b[i..j]
  {
  }

  /** One turn of the reader at file position `pos`. */
  lemma CollectAt(file: Bytes, pos: nat)
    requires pos + HEADER <= |file|
    ensures var head := file[pos..pos + HEADER];
      var op, length, direction := ReadInt(head[..4]), ReadInt(head[8..12]), ReadInt(head[12..16]);
      var start := pos + HEADER;
      var end := if length == -1 || start + length > |file| then |file| else start + length;
      Collect(file[pos..]) ==
        if length < -1 then None
        else Onto(if op == OP_WRITE && direction == TYPE_OUTPUT then [] else file[start..end], Collect(file[end..]))
  {
    var f, head := file[pos..], file[pos..pos + HEADER];
    assert head == f[..HEADER];
    Prefix(f, HEADER, 0, 4);
    Prefix(f, HEADER, 8, 12);
    Prefix(f, HEADER, 12, 16);
    var length := ReadInt(head[8..12]);
    if length >= -1 {
      var start := pos + HEADER;
      var end := if length == -1 || start + length > |file| then |file| else start + length;
      assert f[end - pos..] == file[end..];
      assert f[HEADER..end - pos] == file[start..end];
    }
  }

  /** The loop of `ttylog_inputhash`, up to the bytes that it hashes. */
  method InputBytes(file: Bytes) returns (r: Option<Bytes>)
    ensures r == Collect(file)
  {
    hide Collect, Onto, ReadInt;
    var pos := 0;
    var input: Bytes := [];
    assert file[0..] == file;
    OntoOnto([], [], Collect(file));
    while pos + HEADER <= |file|
      invariant pos <= |file|
      invariant Collect(file) == Onto(input, Collect(file[pos..]))
      decreases |file| - pos
    {
      CollectAt(file, pos);
      var head := file[pos..pos + HEADER];
      var op, length, direction := ReadInt(head[..4]), ReadInt(head[8..12]), ReadInt(head[12..16]);
      if length < -1 {
        OntoNone(input);
        return None;
      }
      var start := pos + HEADER;
      var end := if length == -1 || start + length > |file| then |file| else start + length;
      OntoOnto([], [], Collect(file[end..]));
      OntoOnto(input, file[start..end], Collect(file[end..]));
      if !(op == OP_WRITE && direction == TYPE_OUTPUT) {
        input := input + file[start..end];
      }
      pos := end;
    }
    CollectEnd(input, file[pos..]);
    return Some(input);
  }

  lemma OntoNone(input: Bytes)
    ensures Onto(input, None) == None
  {
  }

  lemma CollectEnd(input: Bytes, f: Bytes)
    requires |f| < HEADER
    ensures Onto(input, Collect(f)) == Some(input)
  {
    assert input + [] == input;
  }

  /** One record in front of a file. */
  lemma CollectWritten(r: Record, more: Bytes)
    requires Packable(r)
    ensures var rest := Collect(more);
      Collect(Written(r) + more) == if rest == None then None
        else Some((if r.Write? && r.direction != TYPE_OUTPUT then r.data else []) + rest.value)
  {
    var data := if r.Write? then r.data else [];
    var direction := if r.Write? then r.direction else 0;
    var op := if r.Write? then OP_WRITE else if r.Open? then OP_OPEN else OP_CLOSE;
    PackFields(op, |data|, direction, r.sec, r.usec);
    var head := Pack(op, |data|, direction, r.sec, r.usec);
    var f := Written(r) + more;
    assert f == head + data + more;
    FieldsInFront(head, data, more);
  }

  lemma FieldsInFront(head: Bytes, data: Bytes, more: Bytes)
    requires |head| == HEADER
    ensures var f := head + data + more;
      && f[..4] == head[..4] && f[8..12] == head[8..12] && f[12..16] == head[12..16]
      && f[HEADER..HEADER + |data|] == data && f[HEADER + |data|..] == more
  {
  }

  /** Reading a log back gives exactly the data of the writes that are not output, in order, whatever
      bytes they hold; a truncated record header at the end is ignored. */
  lemma {:induction false} ReadBackInputs(rs: seq<Record>, tail: Bytes)
    requires (forall r | r in rs :: Packable(r)) && |tail| < HEADER
    ensures Collect(File(rs) + tail) == Some(Typed(rs))
  {
    if |rs| == 0 {
      assert [] + tail == tail;
    } else {
      assert rs[0] in rs;
      var more := File(rs[1..]) + tail;
      assert File(rs) + tail == Written(rs[0]) + more;
      CollectWritten(rs[0], more);
      ReadBackInputs(rs[1..], tail);
    }
  }

  /** A whole session through the file object: open, any writes, close, and reading it back. */
  method Session(start: Record, writes: seq<Record>, finish: Record) returns (r: Option<Bytes>)
    requires start.Open? && Packable(start) && finish.Close? && Packable(finish)
    requires forall w | w in writes :: w.Write? && Packable(w)
    ensures r == Some(Typed(writes))
  {
    hide Packable, Written, Typed, Collect;
    var log := new LogFile();
    ghost var all: seq<Record> := [];
    FileSnoc(all, start);
    log.Append(start);
    all := all + [start];
    for i := 0 to |writes|
      invariant all == [start] + writes[..i] && forall r | r in all :: Packable(r)
      invariant log.file == File(all)
    {
      log.Append(writes[i]);
      FileSnoc(all, writes[i]);
      all := all + [writes[i]];
    }
    log.Append(finish);
    FileSnoc(all, finish);
    all := all + [finish];
    assert all == [start] + writes + [finish];
    ReadBackInputs(all, []);
    assert log.file + [] == log.file;
    r := InputBytes(log.file);
    TypedSession(start, writes, finish);
  }

  lemma TypedSession(start: Record, writes: seq<Record>, finish: Record)
    requires !start.Write? && !finish.Write?
    ensures Typed([start] + writes + [finish]) == Typed(writes)
  {
    var all := [start] + writes + [finish];
    assert all[1..] == writes + [finish];
    TypedSnoc(writes, finish);
  }

  lemma {:induction false} FileSnoc(rs: seq<Record>, r: Record)
    requires (forall s | s in rs :: Packable(s)) && Packable(r)
    ensures File(rs + [r]) == File(rs) + Written(r)
  {
    if |rs| == 0 {
      assert rs + [r] == [r];
      assert File([r]) == Written(r) + File([]);
    } else {
      assert rs[0] in rs;
      assert (rs + [r])[1..] == rs[1..] + [r];
      FileSnoc(rs[1..], r);
    }
  }

  lemma {:induction false} TypedSnoc(rs: seq<Record>, r: Record)
    requires !r.Write?
    ensures Typed(rs + [r]) == Typed(rs)
  {
    if |rs| > 0 {
      assert (rs + [r])[1..] == rs[1..] + [r];
      TypedSnoc(rs[1..], r);
    }
  }

  // The bytes themselves --------------------------------------------------------------------------

  /** A record header field by field, in the order of the original: op code, the unused field, length,
      direction, seconds and microseconds. */
  lemma HeaderFields(op: int, length: int, direction: int, sec: int, usec: int)
    requires Int32(op) && Int32(length) && Int32(direction) && UInt32(sec) && UInt32(usec)
    ensures var b := Pack(op, length, direction, sec, usec);
      && |b| == 24
      && b[..4] == LittleInt(op) && b[4..8] == LittleLong(0) && b[8..12] == LittleInt(length)
      && b[12..16] == LittleInt(direction) && b[16..20] == LittleLong(sec) && b[20..24] == LittleLong(usec)
  {
  }

  /** Little-endian numbers: the last byte weighs most, and negative ones are taken modulo 2 to the 32. */
  lemma LittleEndian(n: int)
    requires Int32(n)
    ensures var b := LittleInt(n);
      (b[0] as int + b[1] as int * 256 + b[2] as int * 65536 + b[3] as int * 16777216 - n) % 0x1_0000_0000 == 0
    ensures n >= 0 ==> LittleLong(n) == LittleInt(n)
  {
    Unpack32Pack(ToUnsigned(n));
    TwosComplement(n);
  }

  /** What the three calls write: op codes 1, 2 and 3, and for a write the length of its data. */
  lemma RecordBytes(r: Record)
    requires Packable(r)
    ensures var b := Written(r);
      && |b| == 24 + (if r.Write? then |r.data| else 0)
      && b[..4] == (if r.Open? then [1, 0, 0, 0] else if r.Close? then [2, 0, 0, 0] else [3, 0, 0, 0])
      && b[8..12] == LittleInt(if r.Write? then |r.data| else 0)
      && b[12..16] == LittleInt(if r.Write? then r.direction else 0)
      && b[16..20] == LittleLong(r.sec) && b[20..24] == LittleLong(r.usec)
      && b[24..] == if r.Write? then r.data else []
  {
    hide LittleInt, LittleLong;
    SmallInts();
    var op := if r.Open? then OP_OPEN else if r.Close? then OP_CLOSE else OP_WRITE;
    var length, direction := if r.Write? then |r.data| else 0, if r.Write? then r.direction else 0;
    HeaderFields(op, length, direction, r.sec, r.usec);
    var head, b := Pack(op, length, direction, r.sec, r.usec), Written(r);
    assert b == head + if r.Write? then r.data else [];
    Prefix(b, 24, 0, 4);
    Prefix(b, 24, 8, 12);
    Prefix(b, 24, 12, 16);
    Prefix(b, 24, 16, 20);
    Prefix(b, 24, 20, 24);
    assert b[..24] == head;
  }

  lemma SmallInts()
    ensures LittleInt(1) == [1, 0, 0, 0] && LittleInt(2) == [2, 0, 0, 0] && LittleInt(3) == [3, 0, 0, 0]
  {
  }

  /** The direction 2 is the output of the honeypot: its data is left out, that of any other is kept. */
  lemma OnlyOutputLeftOut(direction: int, sec: int, usec: int, data: Bytes)
    requires Int32(direction) && UInt32(sec) && UInt32(usec) && |data| < TWO_31
    ensures Collect(Written(Write(direction, sec, usec, data))) == Some(if direction == 2 then [] else data)
  {
    var r := Write(direction, sec, usec, data);
    assert Written(r) + [] == Written(r);
    CollectWritten(r, []);
    assert data + [] == data;
  }

  /** A record that is broken off: what is there of its data is kept. A length of -1 takes all the rest. */
  lemma BrokenRecord(op: int, length: int, direction: int, sec: int, usec: int, data: Bytes)
    requires Int32(op) && Int32(length) && Int32(direction) && UInt32(sec) && UInt32(usec)
    requires length == -1 || length > |data|
    ensures Collect(Pack(op, length, direction, sec, usec) + data) ==
      Some(if op == 3 && direction == 2 then [] else data)
  {
    hide Collect;
    var f := Pack(op, length, direction, sec, usec) + data;
    PackFields(op, length, direction, sec, usec);
    assert f[0..] == f && f[0..HEADER] == Pack(op, length, direction, sec, usec);
    CollectAt(f, 0);
    assert f[HEADER..|f|] == data && f[|f|..] == [];
    CollectEnd([], []);
    assert data + [] == data;
  }

  /** A length below -1 raises. */
  lemma NegativeLength(op: int, length: int, direction: int, sec: int, usec: int, data: Bytes)
    requires Int32(op) && Int32(length) && Int32(direction) && UInt32(sec) && UInt32(usec) && length < -1
    ensures Collect(Pack(op, length, direction, sec, usec) + data) == None
  {
    hide Collect;
    var f := Pack(op, length, direction, sec, usec) + data;
    PackFields(op, length, direction, sec, usec);
    assert f[0..] == f && f[0..HEADER] == Pack(op, length, direction, sec, usec);
    CollectAt(f, 0);
  }
}
