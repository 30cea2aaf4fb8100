/** Sending a cached response: the stored message is a chain of fixed-size
    blocks holding records, each a 4-byte header and a payload, and is sent
    piecemeal into whatever room the client side has at the time. */
module CacheReader {
  import opened Common
  import opened RingSpec

  // The stored form.

  const HDR := 2
  const DATA := 4
  const TLR := 5

  /** One record: its 32-bit header holds a type and the payload's size. */
  datatype RawRecord = Record(info: nat, payload: seq<Byte>)

  function TypeOf(info: nat): (t: nat) {
    info / 0x1000_0000
  }

  function SizeOf(info: nat): (n: nat) {
    if TypeOf(info) == HDR || TypeOf(info) == TLR then info % 256 + (info / 256) % 0x10_0000
    else info % 0x1000_0000
  }

  predicate WellFormed(r: RawRecord) {
    r.info < 0x1_0000_0000 && |r.payload| == SizeOf(r.info)
  }

  type Record = r: RawRecord | WellFormed(r) witness Record(0, [])

  function InfoBytes(info: nat): (s: seq<Byte>)
    requires info < 0x1_0000_0000
    ensures |s| == 4
  {
    [(info % 256) as Byte, (info / 256 % 256) as Byte, (info / 0x1_0000 % 256) as Byte, (info / 0x100_0000) as Byte]
  }

  function InfoOf(s: seq<Byte>): (info: nat)
    requires |s| == 4
    ensures info < 0x1_0000_0000
  {
    s[0] as nat + 256 * s[1] as nat + 0x1_0000 * s[2] as nat + 0x100_0000 * s[3] as nat
  }

  lemma InfoRoundTrip(info: nat)
    requires info < 0x1_0000_0000
    ensures InfoOf(InfoBytes(info)) == info
  {
    var a, b := info / 256, info / 0x1_0000;
    assert b == a / 256 && info / 0x100_0000 == b / 256;
    assert info == info % 256 + 256 * (a % 256 + 256 * (b % 256 + 256 * (b / 256)));
  }

  function Serialize(rs: seq<Record>): (s: seq<Byte>) {
    if rs == [] then [] else InfoBytes(rs[0].info) + rs[0].payload + Serialize(rs[1..])
  }

  /** What the client gets: data bytes, and the other records whole. */
  datatype Atom = Datum(byte: Byte) | Whole(record: Record)

  function DataAtoms(s: seq<Byte>): (r: seq<Atom>)
    ensures |r| == |s|
  {
    seq(|s|, i requires 0 <= i < |s| => Datum(s[i]))
  }

  function Atoms(rs: seq<Record>): (r: seq<Atom>) {
    if rs == [] then []
    else (if TypeOf(rs[0].info) == DATA then DataAtoms(rs[0].payload) else [Whole(rs[0])]) + Atoms(rs[1..])
  }

  function DataSize(rs: seq<Record>): (n: nat) {
    if rs == [] then 0
    else (if TypeOf(rs[0].info) == DATA then |rs[0].payload| else 0) + DataSize(rs[1..])
  }

  function Flat(blocks: seq<seq<Byte>>): (s: seq<Byte>) {
    if blocks == [] then [] else blocks[0] + Flat(blocks[1..])
  }

  /** The bytes found from offset `offset` of block number `next` on. */
  function Rest(blocks: seq<seq<Byte>>, next: nat, offset: nat): (s: seq<Byte>)
    requires next < |blocks| ==> offset <= |blocks[next]|
  {
    if next >= |blocks| then [] else blocks[next][offset..] + Flat(blocks[next + 1..])
  }

  lemma RestSkip(blocks: seq<seq<Byte>>, next: nat, offset: nat, n: nat)
    requires next < |blocks| && offset + n <= |blocks[next]|
    ensures Rest(blocks, next, offset) == blocks[next][offset..offset + n] + Rest(blocks, next, offset + n)
  {
    hide Flat;
    var b, tail := blocks[next], Flat(blocks[next + 1..]);
    assert b[offset..] == b[offset..offset + n] + b[offset + n..];
    assert b[offset..offset + n] + b[offset + n..] + tail == b[offset..offset + n] + (b[offset + n..] + tail);
  }

  /** Once `n` of the bytes to come have been taken, the others come next. */
  lemma TakeChunk(blocks: seq<seq<Byte>>, next: nat, offset: nat, n: nat, d: seq<Byte>, tail: seq<Byte>)
    requires next < |blocks| && offset + n <= |blocks[next]| && n <= |d|
    requires d + tail <= Rest(blocks, next, offset)
    ensures d[..n] == blocks[next][offset..offset + n]
    ensures d[n..] + tail <= Rest(blocks, next, offset + n)
    ensures |Rest(blocks, next, offset)| == n + |Rest(blocks, next, offset + n)|
  {
    RestSkip(blocks, next, offset, n);
    hide Rest;
    var rest := Rest(blocks, next, offset);
    assert d[..n] == (d + tail)[..n] == rest[..n];
    assert d[n..] + tail == (d + tail)[n..];
    assert rest[n..] == Rest(blocks, next, offset + n);
  }

  lemma RestNext(blocks: seq<seq<Byte>>, next: nat)
    requires next < |blocks|
    ensures Rest(blocks, next, |blocks[next]|) == Rest(blocks, next + 1, 0)
  {
    if next + 1 < |blocks| {
      assert blocks[next + 1..][1..] == blocks[next + 2..];
      assert blocks[next + 1][0..] == blocks[next + 1];
    }
  }

  lemma DataAtomsSplit(s: seq<Byte>, n: nat)
    requires n <= |s|
    ensures DataAtoms(s) == DataAtoms(s[..n]) + DataAtoms(s[n..])
  {
  }

  lemma EmptyAtoms(s: seq<Byte>)
    ensures DataAtoms(s[..0]) == []
  {
  }

  lemma MoreAtoms(s: seq<Byte>, done: nat, n: nat)
    requires done + n <= |s|
    ensures DataAtoms(s[..done]) + DataAtoms(s[done..][..n]) == DataAtoms(s[..done + n])
  {
    DataAtomsSplit(s[..done + n], done);
    assert s[..done + n][..done] == s[..done] && s[..done + n][done..] == s[done..][..n];
  }

  lemma RestEnd(blocks: seq<seq<Byte>>, next: nat, offset: nat)
    requires next < |blocks| ==> offset <= |blocks[next]|
    ensures next >= |blocks| ==> Rest(blocks, next, offset) == []
  {
  }

  /** The client side, which accepts what it has room for. */
  class Sink {
    var got: seq<Atom>

    method AddData(s: seq<Byte>) returns (sz: nat)
      modifies this
      ensures sz <= |s| && got == old(got) + DataAtoms(s[..sz])
    {
      sz :| 0 <= sz <= |s|;
      got := got + DataAtoms(s[..sz]);
    }

    method AddRecord(r: Record) returns (ok: bool)
      modifies this
      ensures got == old(got) + if ok then [Whole(r)] else []
    {
      ok := *;
      if ok {
        got := got + [Whole(r)];
      }
    }
  }

  class Reader {
    const blocks: seq<seq<Byte>>
    const blockSize: nat
    const header: nat           // size of the entry that precedes the message in the row
    const length: nat           // amount of data in the row, entry included
    var next: nat
    var offset: nat
    var sent: nat
    var remData: nat
    var toForward: int
    ghost var left: seq<Byte>   // what remains of the data record being sent
    ghost var todo: seq<Record> // the records after it

    ghost predicate At(next: nat, offset: nat) {
      && 4 <= blockSize && (forall i | 0 <= i < |blocks| :: |blocks[i]| == blockSize)
      && next <= |blocks| && offset <= blockSize && (next == |blocks| ==> offset == 0)
    }

    /** `s` is what comes next at that place. */
    ghost predicate Ahead(next: nat, offset: nat, s: seq<Byte>)
      requires At(next, offset)
    {
      s <= Rest(blocks, next, offset)
    }

    ghost function Position(next: nat, offset: nat): (p: int)
      requires At(next, offset)
    {
      |Flat(blocks)| - |Rest(blocks, next, offset)|
    }

    ghost predicate Valid()
      reads this
    {
      && At(next, offset)
      && Ahead(next, offset, left + Serialize(todo))
      && Position(next, offset) == header + sent
      && header + sent + |left| + |Serialize(todo)| == length <= |Flat(blocks)|
      && remData == |left|
      && toForward == |left| + DataSize(todo)
    }

    /** What the client has not got yet. */
    ghost function Owed(): (r: seq<Atom>)
      reads this
    {
      DataAtoms(left) + Atoms(todo)
    }

    /** Starts sending the body, at the place where the headers ended. */
    constructor (blocks: seq<seq<Byte>>, blockSize: nat, header: nat, length: nat,
                 next: nat, offset: nat, sent: nat, bodySize: nat, ghost body: seq<Record>)
      requires 4 <= blockSize && (forall i | 0 <= i < |blocks| :: |blocks[i]| == blockSize)
      requires next <= |blocks| && offset <= blockSize && (next == |blocks| ==> offset == 0)
      requires Serialize(body) <= Rest(blocks, next, offset)
      requires |Flat(blocks)| - |Rest(blocks, next, offset)| == header + sent
      requires header + sent + |Serialize(body)| == length <= |Flat(blocks)|
      requires bodySize == DataSize(body)
      ensures Valid() && Owed() == Atoms(body)
    {
      this.blocks, this.blockSize, this.header, this.length := blocks, blockSize, header, length;
      this.next, this.offset, this.sent, this.remData, this.toForward := next, offset, sent, 0, bodySize;
      left, todo := [], body;
      new;
      assert left + Serialize(todo) == Serialize(body);
      assert DataAtoms(left) + Atoms(todo) == Atoms(body);
    }

    /** The copy loop: sends up to `want` bytes of `d`, which come next, until
        the client refuses some. */
    method CopyOut(sink: Sink, want: nat, next0: nat, offset0: nat, ghost d: seq<Byte>, ghost tail: seq<Byte>)
      returns (next1: nat, offset1: nat, done: nat)
      requires At(next0, offset0) && want <= |d| && Ahead(next0, offset0, d + tail)
      modifies sink
      ensures done <= want && At(next1, offset1)
      ensures sink.got == old(sink.got) + DataAtoms(d[..done])
      ensures Ahead(next1, offset1, d[done..] + tail)
      ensures Position(next1, offset1) == Position(next0, offset0) + done
    {
      hide Rest, DataAtoms;
      next1, offset1, done := next0, offset0, 0;
      var blksz := want;
      ghost var e := d;
      EmptyAtoms(d);
      while blksz > 0
        invariant 0 <= blksz && done + blksz == want && e == d[done..]
        invariant At(next1, offset1) && Ahead(next1, offset1, e + tail)
        invariant Position(next1, offset1) == Position(next0, offset0) + done
        invariant sink.got == old(sink.got) + DataAtoms(d[..done])
        decreases blksz, |blocks| - next1
      {
        RestEnd(blocks, next1, offset1);
        var max := if blksz <= blockSize - offset1 then blksz else blockSize - offset1;
        var sz := sink.AddData(blocks[next1][offset1..offset1 + max]);
        TakeChunk(blocks, next1, offset1, sz, e, tail);
        assert blocks[next1][offset1..offset1 + max][..sz] == e[..sz];
        MoreAtoms(d, done, sz);
        e := e[sz..];
        offset1, blksz, done := offset1 + sz, blksz - sz, done + sz;
        if sz < max {
          break;
        }
        if blksz > 0 || offset1 == blockSize {
          RestNext(blocks, next1);
          next1, offset1 := next1 + 1, 0;
        }
      }
    }

    /** The data record `d` comes next at that place: it is the one being sent,
        or the next one of which the header was just read. */
    ghost predicate DataAhead(info: nat, next1: nat, offset1: nat, d: seq<Byte>, rest: seq<Record>)
      reads this
    {
      && Valid() && At(next1, offset1) && Ahead(next1, offset1, d + Serialize(rest))
      && (if remData > 0 then d == left && rest == todo && next1 == next && offset1 == offset
          else && todo != [] && d == todo[0].payload && rest == todo[1..]
               && info == todo[0].info && TypeOf(info) == DATA
               && Position(next1, offset1) == header + sent + 4)
    }

    /** Sends at most `limit` bytes of that record and remembers the others. */
    method SendData(sink: Sink, limit: nat, info: nat, next0: nat, offset0: nat,
                    ghost d: seq<Byte>, ghost rest: seq<Record>)
      returns (done: nat)
      requires DataAhead(info, next0, offset0, d, rest)
      modifies this, sink
      ensures Valid() && done <= limit && done <= |d| && left == d[done..] && todo == rest
      ensures sent == old(sent) + done + (if old(remData) > 0 then 0 else 4)
      ensures sink.got + Owed() == old(sink.got + Owed())
    {
      hide Rest, DataAtoms;
      OwedData(left, todo);
      var base := if remData > 0 then 0 else 4;
      var blksz := if remData > 0 then remData else info % 0x1000_0000;
      assert blksz == |d|;
      SerializeHead(todo);
      var extra := 0;
      if blksz > limit {
        extra := blksz - limit;
        blksz := limit;
      }
      var next1, offset1;
      next1, offset1, done := CopyOut(sink, blksz, next0, offset0, d, Serialize(rest));
      next, offset, sent := next1, offset1, sent + base + done;
      remData := extra + (blksz - done);
      toForward := toForward - done;
      left, todo := d[done..], rest;
      SentData(old(sink.got), d, done, rest);
    }

    /** Reads the header of the next record, which two blocks may share. */
    method ReadInfo() returns (info: nat, next1: nat, offset1: nat)
      requires Valid() && remData == 0 && todo != []
      ensures info == todo[0].info && At(next1, offset1)
      ensures Ahead(next1, offset1, todo[0].payload + Serialize(todo[1..]))
      ensures Position(next1, offset1) == header + sent + 4
    {
      hide Rest, InfoBytes, InfoOf, Serialize;
      ghost var d, tail := InfoBytes(todo[0].info), todo[0].payload + Serialize(todo[1..]);
      FirstRecord(left, todo);
      InfoRoundTrip(todo[0].info);
      var bytes;
      bytes, next1, offset1 := ReadFour(d, tail);
      info := InfoOf(bytes);
    }

    method ReadFour(ghost d: seq<Byte>, ghost tail: seq<Byte>) returns (bytes: seq<Byte>, next1: nat, offset1: nat)
      requires At(next, offset) && |d| == 4 && Ahead(next, offset, d + tail)
      ensures bytes == d && At(next1, offset1) && Ahead(next1, offset1, tail)
      ensures Position(next1, offset1) == Position(next, offset) + 4
    {
      hide Rest;
      RestEnd(blocks, next, offset);
      var sz := if 4 <= blockSize - offset then 4 else blockSize - offset;
      bytes := blocks[next][offset..offset + sz];
      TakeChunk(blocks, next, offset, sz, d, tail);
      next1, offset1 := next, offset + sz;
      if sz < 4 {
        RestNext(blocks, next);
        RestEnd(blocks, next + 1, 0);
        next1, offset1 := next + 1, 4 - sz;
        TakeChunk(blocks, next1, 0, 4 - sz, d[sz..], tail);
        bytes := bytes + blocks[next1][0..4 - sz];
        assert d[sz..][4 - sz..] + tail == tail;
      } else {
        assert d[4..] + tail == tail;
      }
    }

    /** Gathers a payload spread over any number of blocks. */
    method ReadPayload(size: nat, next0: nat, offset0: nat, ghost d: seq<Byte>, ghost tail: seq<Byte>)
      returns (payload: seq<Byte>, next1: nat, offset1: nat)
      requires At(next0, offset0) && size == |d| && Ahead(next0, offset0, d + tail)
      ensures payload == d && At(next1, offset1) && Ahead(next1, offset1, tail)
      ensures Position(next1, offset1) == Position(next0, offset0) + |d|
    {
      hide Rest;
      next1, offset1, payload := next0, offset0, [];
      var blksz := size;
      ghost var e := d;
      while blksz > 0
        invariant 0 <= blksz == |e| && payload + e == d
        invariant At(next1, offset1) && Ahead(next1, offset1, e + tail)
        invariant Position(next1, offset1) == Position(next0, offset0) + |payload|
        decreases blksz, |blocks| - next1
      {
        RestEnd(blocks, next1, offset1);
        var max := if blksz <= blockSize - offset1 then blksz else blockSize - offset1;
        TakeChunk(blocks, next1, offset1, max, e, tail);
        payload := payload + blocks[next1][offset1..offset1 + max];
        assert e == e[..max] + e[max..];
        e := e[max..];
        offset1, blksz := offset1 + max, blksz - max;
        if blksz > 0 || offset1 == blockSize {
          RestNext(blocks, next1);
          next1, offset1 := next1 + 1, 0;
        }
      }
      assert e + tail == tail;
    }

    /** Sends a record that is not data, whole or not at all. */
    method DumpRecord(sink: Sink, space: nat, info: nat, next0: nat, offset0: nat) returns (total: nat)
      requires Valid() && remData == 0 && todo != [] && info == todo[0].info && TypeOf(info) != DATA
      requires At(next0, offset0) && Ahead(next0, offset0, todo[0].payload + Serialize(todo[1..]))
      requires Position(next0, offset0) == header + sent + 4
      modifies this, sink
      ensures Valid() && remData == 0 && sent == old(sent) + total
      ensures sink.got + Owed() == old(sink.got + Owed())
    {
      hide Rest, DataAtoms, Atoms, Serialize, DataSize;
      var blksz := SizeOf(info);
      if space == 0 || blksz > space {
        return 0;
      }
      var payload, next1, offset1 := ReadPayload(blksz, next0, offset0, todo[0].payload, Serialize(todo[1..]));
      var ok := sink.AddRecord(Record(info, payload));
      if !ok {
        return 0;
      }
      total := 4 + |payload|;
      SerializeHead(todo);
      SentRecord(old(sink.got), left, todo);
      next, offset, sent := next1, offset1, sent + total;
      assert left + Serialize(todo[1..]) == Serialize(todo[1..]);
      todo := todo[1..];
    }

    /** Sends as many records as the client takes, stopping after one of type
        `mark`: the message path. `len` is what the row still holds. */
    method DumpMessage(sink: Sink, len0: nat, mark: nat) returns (total: nat)
      requires Valid() && len0 == length - header - sent
      modifies this, sink
      ensures Valid() && total <= len0 && sent == old(sent) + total
      ensures sink.got + Owed() == old(sink.got + Owed())
      ensures total == len0 ==> toForward == 0 && Owed() == []
    {
      hide Rest;
      var len := len0;
      total := 0;
      while len > 0
        invariant Valid() && 0 <= len == length - header - sent && len + total == len0
        invariant sink.got + Owed() == old(sink.got + Owed())
        decreases len
      {
        NothingLeft(left, todo);
        var space: nat :| true;
        var ret, t := 0, DATA;
        if remData > 0 {
          ret := DumpData(sink, space, 0, next, offset, left, todo);
        } else {
          var info, next1, offset1 := ReadInfo();
          t := TypeOf(info);
          if t != DATA {
            ret := DumpRecord(sink, space, info, next1, offset1);
          } else {
            ret := DumpData(sink, space, info, next1, offset1, todo[0].payload, todo[1..]);
          }
        }
        if ret == 0 {
          break;
        }
        total, len := total + ret, len - ret;
        if remData > 0 || t == mark {
          break;
        }
      }
      NothingLeft(left, todo);
    }

    /** Sends a part of a data record that the message has `space` for. */
    method DumpData(sink: Sink, space: nat, info: nat, next0: nat, offset0: nat,
                    ghost d: seq<Byte>, ghost rest: seq<Record>)
      returns (total: nat)
      requires DataAhead(info, next0, offset0, d, rest)
      modifies this, sink
      ensures Valid() && sent == old(sent) + total
      ensures sink.got + Owed() == old(sink.got + Owed())
    {
      if space == 0 {
        return 0;
      }
      var base := if remData > 0 then 0 else 4;
      var done := SendData(sink, space, info, next0, offset0, d, rest);
      total := base + done;
    }

    /** Sends at most `count` bytes of data, stopping before any other record:
        the fast-forward path. */
    method ForwardData(sink: Sink, count: nat) returns (total: nat)
      requires Valid() && count <= toForward
      modifies this, sink
      ensures Valid() && total <= count
      ensures sink.got + Owed() == old(sink.got + Owed())
    {
      hide Rest;
      var len := count;
      total := 0;
      while len > 0 && sent != length - header
        invariant Valid() && 0 <= len && len + total == count
        invariant sink.got + Owed() == old(sink.got + Owed())
        decreases len
      {
        NothingLeft(left, todo);
        var ret := 0;
        if remData > 0 {
          ret := SendData(sink, len, 0, next, offset, left, todo);
        } else {
          var info, next1, offset1 := ReadInfo();
          if TypeOf(info) == DATA {
            ret := SendData(sink, len, info, next1, offset1, todo[0].payload, todo[1..]);
          }
        }
        if ret == 0 {
          break;
        }
        total, len := total + ret, len - ret;
        if remData > 0 {
          break;
        }
      }
    }
  }

  lemma NothingLeft(left: seq<Byte>, todo: seq<Record>)
    ensures |left| + |Serialize(todo)| == 0 <==> left == [] && todo == []
    ensures left == [] && todo == [] ==> DataAtoms(left) + Atoms(todo) == [] && DataSize(todo) == 0
  {
  }

  lemma FirstRecord(left: seq<Byte>, rs: seq<Record>)
    requires left == [] && rs != []
    ensures left + Serialize(rs) == InfoBytes(rs[0].info) + (rs[0].payload + Serialize(rs[1..]))
  {
  }

  datatype Turn = Message | Forward(count: nat)

  /** Any number of turns of either kind, each finding whatever room there is:
      what was sent and what is still owed always make the stored body, and
      once the row is exhausted nothing is owed nor left to forward. */
  method Serve(reader: Reader, sink: Sink, turns: seq<Turn>)
    requires reader.Valid()
    modifies reader, sink
    ensures reader.Valid()
    ensures sink.got + reader.Owed() == old(sink.got + reader.Owed())
    ensures reader.sent == reader.length - reader.header ==>
              sink.got == old(sink.got + reader.Owed()) && reader.toForward == 0
  {
    for i := 0 to |turns|
      invariant reader.Valid()
      invariant sink.got + reader.Owed() == old(sink.got + reader.Owed())
    {
      match turns[i]
      case Message =>
        var ret := reader.DumpMessage(sink, reader.length - reader.header - reader.sent, 15);
      case Forward(count) =>
        if count <= reader.toForward {
          var ret := reader.ForwardData(sink, count);
        }
    }
    NothingLeft(reader.left, reader.todo);
  }

  lemma OwedData(left: seq<Byte>, todo: seq<Record>)
    ensures left == [] && todo != [] && TypeOf(todo[0].info) == DATA ==>
      DataAtoms(left) + Atoms(todo) == DataAtoms(todo[0].payload) + Atoms(todo[1..])
  {
    if left == [] {
      assert DataAtoms(left) == [];
    }
  }

  lemma SentData(got: seq<Atom>, d: seq<Byte>, done: nat, rest: seq<Record>)
    requires done <= |d|
    ensures got + DataAtoms(d[..done]) + (DataAtoms(d[done..]) + Atoms(rest)) == got + (DataAtoms(d) + Atoms(rest))
  {
    DataAtomsSplit(d, done);
    hide Atoms, DataAtoms;
    var sent, left, after := DataAtoms(d[..done]), DataAtoms(d[done..]), Atoms(rest);
    Reassociate(got, sent, left + after);
    Reassociate(sent, left, after);
  }

  lemma SentRecord(got: seq<Atom>, left: seq<Byte>, todo: seq<Record>)
    requires left == [] && todo != [] && TypeOf(todo[0].info) != DATA
    ensures got + [Whole(todo[0])] + (DataAtoms(left) + Atoms(todo[1..])) == got + (DataAtoms(left) + Atoms(todo))
  {
    RecordFirst(left, todo);
    hide Atoms, DataAtoms;
    Reassociate(got, [Whole(todo[0])], Atoms(todo[1..]));
  }

  lemma RecordFirst(left: seq<Byte>, todo: seq<Record>)
    requires left == [] && todo != [] && TypeOf(todo[0].info) != DATA
    ensures DataAtoms(left) + Atoms(todo) == [Whole(todo[0])] + Atoms(todo[1..])
    ensures DataAtoms(left) + Atoms(todo[1..]) == Atoms(todo[1..])
  {
    assert DataAtoms(left) == [];
  }

  lemma SerializeHead(rs: seq<Record>)
    ensures rs != [] ==>
      && |Serialize(rs)| == 4 + |rs[0].payload| + |Serialize(rs[1..])|
      && DataSize(rs) == (if TypeOf(rs[0].info) == DATA then |rs[0].payload| else 0) + DataSize(rs[1..])
  {
  }
}
