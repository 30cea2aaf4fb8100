/** Storing a response: the blocks of the message are appended as records to a row
    of fixed-size blocks, in as many calls as the message takes to arrive. */
module CacheWriter {
  import opened RingSpec
  import opened CacheReader
  import opened Common

  // Rows.

  ghost predicate AllOfSize(blocks: seq<seq<Byte>>, size: nat) {
    forall i | 0 <= i < |blocks| :: |blocks[i]| == size
  }

  lemma {:induction false} FlatSplit(blocks: seq<seq<Byte>>, i: nat, size: nat)
    requires i < |blocks| && AllOfSize(blocks, size)
    ensures |Flat(blocks[..i])| == i * size
    ensures Flat(blocks) == Flat(blocks[..i]) + (blocks[i] + Flat(blocks[i + 1..]))
    decreases i
  {
    if i > 0 {
      var tail := blocks[1..];
      FlatSplit(tail, i - 1, size);
      assert blocks[..i][0] == blocks[0] && blocks[..i][1..] == tail[..i - 1];
      assert tail[i - 1] == blocks[i] && tail[i..] == blocks[i + 1..];
      assert Flat(blocks[..i]) == blocks[0] + Flat(tail[..i - 1]);
      hide Flat;
      Distribute(i - 1, 1, size);
      Reassociate(blocks[0], Flat(tail[..i - 1]), blocks[i] + Flat(blocks[i + 1..]));
    }
  }

  lemma {:induction false} FlatLength(blocks: seq<seq<Byte>>, size: nat)
    requires AllOfSize(blocks, size)
    ensures |Flat(blocks)| == |blocks| * size
  {
    if blocks != [] {
      FlatLength(blocks[1..], size);
    }
  }

  lemma {:induction false} FlatConcat(a: seq<seq<Byte>>, b: seq<seq<Byte>>)
    ensures Flat(a + b) == Flat(a) + Flat(b)
  {
    if a == [] {
      assert a + b == b;
    } else {
      FlatConcat(a[1..], b);
      assert (a + b)[0] == a[0] && (a + b)[1..] == a[1..] + b;
      assert Flat(a + b) == a[0] + Flat(a[1..] + b) && Flat(a) == a[0] + Flat(a[1..]);
      hide Flat;
      Reassociate(a[0], Flat(a[1..]), Flat(b));
    }
  }

  /** A block with `c` written at `start`. */
  function Overwritten(block: seq<Byte>, start: nat, c: seq<Byte>): (r: seq<Byte>)
    requires start + |c| <= |block|
    ensures |r| == |block|
  {
    block[..start] + c + block[start + |c|..]
  }

  /** Writing right after the data of a row appends to its content. */
  lemma WriteBlock(blocks: seq<seq<Byte>>, size: nat, i: nat, start: nat, c: seq<Byte>)
    requires i < |blocks| && AllOfSize(blocks, size) && start + |c| <= size
    ensures var len := i * size + start;
            var after := Flat(blocks[i := Overwritten(blocks[i], start, c)]);
            0 <= len && len + |c| <= |Flat(blocks)| == |after| && after[..len + |c|] == Flat(blocks)[..len] + c
  {
    var b := Overwritten(blocks[i], start, c);
    var blocks' := blocks[i := b];
    FlatSplit(blocks, i, size);
    FlatSplit(blocks', i, size);
    assert blocks'[..i] == blocks[..i] && blocks'[i + 1..] == blocks[i + 1..];
    var front, tail := Flat(blocks[..i]), Flat(blocks[i + 1..]);
    hide Flat;
    assert (front + (b + tail))[..|front| + start + |c|] == front + b[..start + |c|];
    assert (front + (blocks[i] + tail))[..|front| + start] == front + blocks[i][..start];
    assert b[..start + |c|] == blocks[i][..start] + c;
  }

  class Row {
    const blockSize: nat
    var blocks: seq<seq<Byte>>
    var len: nat
    var lastAppend: nat

    ghost predicate Valid()
      reads this
    {
      && blockSize > 0 && AllOfSize(blocks, blockSize) && len <= |blocks| * blockSize
      && (len < |blocks| * blockSize ==>
            lastAppend < |blocks| && lastAppend * blockSize <= len < lastAppend * blockSize + blockSize)
    }

    constructor (blockSize: nat)
      requires blockSize > 0
      ensures Valid() && Content() == []
    {
      this.blockSize, blocks, len, lastAppend := blockSize, [], 0, 0;
    }

    ghost function Content(): (s: seq<Byte>)
      requires Valid()
      reads this
      ensures |s| == len
    {
      FlatLength(blocks, blockSize);
      Flat(blocks)[..len]
    }

    /** Takes more blocks, whatever they hold, or refuses. */
    method Reserve() returns (ok: bool)
      requires Valid()
      modifies this
      ensures Valid() && Content() == old(Content())
    {
      ok := *;
      if ok {
        var more: nat :| true;
        var junk: seq<Byte> :| |junk| == blockSize by {
          assert |seq(blockSize, i => 0 as Byte)| == blockSize;
        }
        var added := seq(more, i => junk);
        GrowRow(blocks, blockSize, added);
        FlatLength(blocks + added, blockSize);
        hide Flat, AllOfSize;
        if more > 0 && len == |blocks| * blockSize {
          lastAppend := |blocks|;
        }
        blocks := blocks + added;
      }
    }

    /** Copies data at the end of the row, block after block, if it fits there. */
    method Append(data: seq<Byte>) returns (ret: int)
      requires Valid()
      modifies this
      ensures Valid() && |blocks| == old(|blocks|)
      ensures ret == if |data| <= old(|blocks| * blockSize - len) then 0 else old(|blocks| * blockSize - len) - |data|
      ensures Content() == old(Content()) + if ret == 0 then data else []
    {
      hide Overwritten, Flat, AllOfSize;
      if |data| > |blocks| * blockSize - len {
        return |blocks| * blockSize - len - |data|;
      }
      var done := 0;
      while done < |data|
        invariant Valid() && |blocks| == old(|blocks|) && done <= |data| && len == old(len) + done
        invariant Content() == old(Content()) + data[..done]
      {
        var remain := (blockSize * |blocks| - len) % blockSize;
        PlaceInBlock(blockSize, |blocks|, len, lastAppend);
        var start := 0;
        if remain == 0 {
          remain := blockSize;
        } else {
          start := blockSize - remain;
        }
        if remain > |data| - done {
          remain := |data| - done;
        }
        CopyIn(start, data[done..done + remain]);
        assert data[..done + remain] == data[..done] + data[done..done + remain];
        done := done + remain;
      }
      assert data[..done] == data;
      ret := |data| - done;
    }

    /** Writes into the block where the data of the row ends. */
    method CopyIn(start: nat, c: seq<Byte>)
      requires Valid() && len < |blocks| * blockSize
      requires len == lastAppend * blockSize + start && start + |c| <= blockSize
      modifies this
      ensures Valid() && |blocks| == old(|blocks|) && Content() == old(Content()) + c && len == old(len) + |c|
    {
      WriteBlock(blocks, blockSize, lastAppend, start, c);
      NextBlock(blockSize, |blocks|, lastAppend);
      hide Flat, Overwritten;
      blocks := blocks[lastAppend := Overwritten(blocks[lastAppend], start, c)];
      len := len + |c|;
      if start + |c| == blockSize {
        lastAppend := if lastAppend + 1 == |blocks| then 0 else lastAppend + 1;
      }
    }

    /** Replaces all that follows the first `header` bytes by `hints` and frees the
        blocks that are not needed any more, only if there are some. */
    method Strip(header: nat, hints: seq<Byte>) returns (ok: bool)
      requires Valid() && header <= len && 0 < header
      modifies this
      ensures Valid()
      ensures ok <==> Needed(header + |hints|, blockSize) < old(|blocks|)
      ensures ok ==> Content() == old(Content())[..header] + hints && |blocks| == Needed(len, blockSize)
      ensures !ok ==> Content() == old(Content()) && blocks == old(blocks)
    {
      var newLen := header + |hints|;
      var count := Needed(newLen, blockSize);
      if count >= |blocks| {
        return false;
      }
      NeededHolds(newLen, blockSize);
      MultiplesApart(count, |blocks|, blockSize);
      hide Needed, Flat, AllOfSize;
      ghost var was := Content()[..header];
      Overwrite(header, hints);
      Truncated(blocks, blockSize, count, newLen);
      len, lastAppend := newLen, count - 1;
      blocks := blocks[..count];
      ok := true;
    }

    /** Writes over the data of the row from an offset, block after block. */
    method Overwrite(at: nat, data: seq<Byte>)
      requires blockSize > 0 && AllOfSize(blocks, blockSize) && at + |data| <= |blocks| * blockSize
      modifies this`blocks
      ensures AllOfSize(blocks, blockSize) && |blocks| == old(|blocks|)
      ensures at + |data| <= |Flat(blocks)| == old(|Flat(blocks)|)
      ensures Flat(blocks)[..at + |data|] == old(Flat(blocks))[..at] + data
    {
      FlatLength(blocks, blockSize);
      ghost var was, total := Flat(blocks)[..at], |blocks| * blockSize;
      var block: nat, off: nat := Locate(at, blockSize);
      InPlace(at, block, off, blockSize, |blocks|);
      hide Flat, AllOfSize, Overwritten, Place;
      var done := 0;
      assert was + data[..0] == was;
      while done < |data|
        invariant done <= |data| && AllOfSize(blocks, blockSize) && |blocks| == old(|blocks|) && |Flat(blocks)| == total
        invariant done < |data| ==> Place(at + done, block, off, blockSize, |blocks|)
        invariant Flat(blocks)[..at + done] == was + data[..done]
      {
        NextPlace(at + done, block, off, blockSize, |blocks|);
        var chunk := blockSize - off;
        if chunk > |data| - done {
          chunk := |data| - done;
        }
        var c := data[done..done + chunk];
        WriteAt(blocks, blockSize, at + done, block, off, c);
        blocks := blocks[block := Overwritten(blocks[block], off, c)];
        TakeMore(was, data, done, chunk);
        done, off, block := done + chunk, 0, block + 1;
      }
      assert data[..done] == data;
    }

    /** Copies data of the row from an offset; what is missing is not copied. */
    method Get(offset: nat, len0: nat) returns (dst: seq<Byte>, ret: nat)
      requires Valid()
      ensures offset >= len ==> dst == [] && ret == len0
      ensures offset < len ==>
        ret == 0 && dst == Content()[offset..if len0 > len - offset then len else offset + len0]
    {
      dst, ret := [], len0;
      if offset >= len {
        return;
      }
      if ret > len - offset {
        ret := len - offset;
      }
      ghost var end := offset + ret;
      FlatLength(blocks, blockSize);
      ghost var all := Flat(blocks);
      ContentSlice(all, len, offset, end);
      var block: nat, start: nat := Locate(offset, blockSize);
      InPlace(offset, block, start, blockSize, |blocks|);
      hide Flat, AllOfSize, Place;
      assert all[offset..offset] == [];
      while ret > 0
        invariant offset + |dst| + ret == end <= |all| && dst == all[offset..offset + |dst|]
        invariant ret > 0 ==> Place(offset + |dst|, block, start, blockSize, |blocks|)
      {
        NextPlace(offset + |dst|, block, start, blockSize, |blocks|);
        var size := blockSize - start;
        if size > ret {
          size := ret;
        }
        ReadAt(blocks, blockSize, offset + |dst|, block, start, size);
        var c := blocks[block][start..start + size];
        SliceGrows(all, offset, offset + |dst|, size);
        dst := dst + c;
        ret, start, block := ret - size, 0, block + 1;
      }
    }
  }

  lemma ContentSlice(all: seq<Byte>, len: nat, lo: nat, hi: nat)
    requires lo <= hi <= len <= |all|
    ensures all[..len][lo..hi] == all[lo..hi]
  {
  }

  lemma SliceGrows(all: seq<Byte>, lo: nat, at: nat, n: nat)
    requires lo <= at && at + n <= |all|
    ensures all[lo..at + n] == all[lo..at] + all[at..at + n]
  {
  }

  /** The hints kept by stripping an entry can be read after the entry. */
  method StripAndRead(row: Row, header: nat, hints: seq<Byte>) returns (ok: bool, got: seq<Byte>)
    requires row.Valid() && 0 < header <= row.len
    modifies row
    ensures ok ==> got == hints && row.len == header + |hints|
  {
    got := [];
    ok := row.Strip(header, hints);
    if ok {
      var ret;
      got, ret := row.Get(header, row.len - header);
      assert row.Content()[header..] == hints;
    }
  }

  /** Where a position of a row of blocks is. */
  ghost predicate Place(pos: nat, block: nat, off: nat, size: nat, count: nat) {
    off < size && block < count && pos == block * size + off
  }

  lemma InPlace(pos: nat, block: nat, off: nat, size: nat, count: nat)
    requires off < size && pos == block * size + off
    ensures pos < count * size ==> Place(pos, block, off, size, count)
  {
    MultiplesApart(block, count, size);
    if block >= count {
      MultiplesApart(count, block, size);
    }
  }

  /** What follows the end of a block starts the next one. */
  lemma NextPlace(pos: nat, block: nat, off: nat, size: nat, count: nat)
    requires Place(pos, block, off, size, count)
    ensures off < size && block < count
    ensures pos + (size - off) < count * size ==> Place(pos + (size - off), block + 1, 0, size, count)
  {
    NextStart(block, size);
    InPlace(pos + (size - off), block + 1, 0, size, count);
  }

  lemma WriteAt(blocks: seq<seq<Byte>>, size: nat, pos: nat, block: nat, off: nat, c: seq<Byte>)
    requires AllOfSize(blocks, size) && Place(pos, block, off, size, |blocks|) && off + |c| <= size
    ensures off + |c| <= |blocks[block]|
    ensures var after := blocks[block := Overwritten(blocks[block], off, c)];
            && AllOfSize(after, size) && |Flat(after)| == |Flat(blocks)| && pos + |c| <= |Flat(blocks)|
            && Flat(after)[..pos + |c|] == Flat(blocks)[..pos] + c
  {
    WriteBlock(blocks, size, block, off, c);
  }

  lemma ReadAt(blocks: seq<seq<Byte>>, size: nat, pos: nat, block: nat, off: nat, n: nat)
    requires AllOfSize(blocks, size) && Place(pos, block, off, size, |blocks|) && off + n <= size
    ensures off + n <= |blocks[block]| && pos + n <= |Flat(blocks)|
    ensures blocks[block][off..off + n] == Flat(blocks)[pos..pos + n]
  {
    BlockSlice(blocks, size, block, off, n);
  }

  lemma TakeMore(was: seq<Byte>, data: seq<Byte>, done: nat, n: nat)
    requires done + n <= |data|
    ensures was + data[..done] + data[done..done + n] == was + data[..done + n]
  {
    assert data[..done + n] == data[..done] + data[done..done + n];
    Reassociate(was, data[..done], data[done..done + n]);
  }

  /** The blocks that so many bytes take. */
  function Needed(n: nat, size: nat): (count: nat)
    requires size > 0
  {
    (n + size - 1) / size
  }

  lemma NeededHolds(n: nat, size: nat)
    requires 0 < n && size > 0
    ensures 0 < Needed(n, size) && Needed(n, size) * size - size < n <= Needed(n, size) * size
  {
    var k := Needed(n, size);
    DivisionIs(n + size - 1, size, k);
    MultiplesApart(k, 1, size);
  }

  lemma NextStart(i: nat, size: nat)
    ensures (i + 1) * size == i * size + size
  {
  }

  /** The blocks that are kept hold the start of the data. */
  lemma Truncated(blocks: seq<seq<Byte>>, size: nat, count: nat, n: nat)
    requires AllOfSize(blocks, size) && count <= |blocks| && n <= count * size
    ensures AllOfSize(blocks[..count], size) && n <= |Flat(blocks[..count])| == count * size
    ensures n <= |Flat(blocks)| && Flat(blocks[..count])[..n] == Flat(blocks)[..n]
  {
    FlatConcat(blocks[..count], blocks[count..]);
    assert blocks[..count] + blocks[count..] == blocks;
    FlatLength(blocks[..count], size);
  }

  lemma BlockSlice(blocks: seq<seq<Byte>>, size: nat, i: nat, start: nat, n: nat)
    requires AllOfSize(blocks, size) && i < |blocks| && start + n <= size && |blocks[i]| == size
    ensures i * size + start + n <= |Flat(blocks)|
    ensures blocks[i][start..start + n] == Flat(blocks)[i * size + start..i * size + start + n]
  {
    FlatSplit(blocks, i, size);
    var front, b, tail := Flat(blocks[..i]), blocks[i], Flat(blocks[i + 1..]);
    hide Flat;
    assert (front + (b + tail))[|front|..] == b + tail;
    assert b[start..start + n] == (b + tail)[start..start + n];
  }

  lemma GrowRow(blocks: seq<seq<Byte>>, size: nat, more: seq<seq<Byte>>)
    requires AllOfSize(blocks, size) && AllOfSize(more, size)
    ensures AllOfSize(blocks + more, size)
    ensures |blocks + more| * size == |blocks| * size + |more| * size
    ensures |Flat(blocks)| == |blocks| * size && Flat(blocks) <= Flat(blocks + more)
  {
    FlatConcat(blocks, more);
    FlatLength(blocks, size);
    hide Flat;
    Distribute(|blocks|, |more|, size);
  }

  lemma Distribute(a: nat, b: nat, size: nat)
    ensures (a + b) * size == a * size + b * size
  {
  }

  lemma NextBlock(size: nat, count: nat, i: nat)
    requires i < count
    ensures i * size + size == (i + 1) * size <= count * size
    ensures i + 1 < count ==> (i + 1) * size + size <= count * size
  {
    MultiplesApart(i, count, size);
    MultiplesApart(i + 1, count, size);
  }

  /** Where the data of a row ends, found from what remains. */
  lemma PlaceInBlock(size: nat, count: nat, len: nat, last: nat)
    requires size > 0 && last < count && last * size <= len < last * size + size
    ensures (size * count - len) % size == if len == last * size then 0 else last * size + size - len
  {
    var k, r := count - last - 1, last * size + size - len;
    assert size * count == k * size + last * size + size;
    if r == size {
      Remainder(k + 1, size, 0);
      assert (k + 1) * size == k * size + size;
    } else {
      Remainder(k, size, r);
    }
  }

  lemma Remainder(k: nat, size: nat, r: nat)
    requires r < size
    ensures (k * size + r) % size == r
  {
    DivisionIs(k * size + r, size, k);
  }

  // What a call stores.

  predicate IsData(r: Record) {
    TypeOf(r.info) == DATA
  }

  /** The record of a piece of data. */
  function DataRecord(v: seq<Byte>): (r: Record)
    requires |v| < 0x1000_0000
    ensures r.payload == v && IsData(r) && r.info == DATA * 0x1000_0000 + |v|
  {
    Record(DATA * 0x1000_0000 + |v|, v)
  }

  lemma WholeData(r: Record)
    requires IsData(r)
    ensures |r.payload| < 0x1000_0000 && r == DataRecord(r.payload)
  {
  }

  function Total(htx: seq<Record>): (n: nat) {
    if htx == [] then 0 else |htx[0].payload| + Total(htx[1..])
  }

  /** Every block that is not data has some content. */
  ghost predicate Solid(htx: seq<Record>) {
    forall i | 0 <= i < |htx| && !IsData(htx[i]) :: htx[i].payload != []
  }

  /** The offset falls inside of a block which is not data. */
  predicate Splits(htx: seq<Record>, offset: nat) {
    htx != [] && offset > 0 &&
    if offset < |htx[0].payload| then !IsData(htx[0]) else Splits(htx[1..], offset - |htx[0].payload|)
  }

  /** What remains of a message past an offset. */
  function From(htx: seq<Record>, offset: nat): (r: seq<Record>) {
    if htx == [] || offset == 0 then htx
    else if offset >= |htx[0].payload| then From(htx[1..], offset - |htx[0].payload|)
    else if IsData(htx[0]) then
      WholeData(htx[0]);
      [DataRecord(htx[0].payload[offset..])] + htx[1..]
    else htx
  }

  /** The records that a call stores for at most `len` bytes of a message. */
  function Picked(ms: seq<Record>, len: nat): (r: seq<Record>) {
    if ms == [] || len == 0 then []
    else if IsData(ms[0]) then
      WholeData(ms[0]);
      var n := if |ms[0].payload| <= len then |ms[0].payload| else len;
      [DataRecord(ms[0].payload[..n])] + Picked(ms[1..], len - n)
    else if |ms[0].payload| > len then []
    else [ms[0]] + Picked(ms[1..], len - |ms[0].payload|)
  }

  lemma AtomsHead(rs: seq<Record>)
    requires rs != []
    ensures Atoms(rs) == (if IsData(rs[0]) then DataAtoms(rs[0].payload) else [Whole(rs[0])]) + Atoms(rs[1..])
    ensures Total(rs) == |rs[0].payload| + Total(rs[1..])
  {
  }

  lemma NoAtoms()
    ensures Atoms([]) == [] && Total([]) == 0
  {
  }

  /** The first record stored, and the others. */
  lemma PickedHead(ms: seq<Record>, len: nat, n: nat, first: Record)
    requires ms != [] && len > 0 && n == |first.payload| <= len && n <= |ms[0].payload|
    requires if IsData(ms[0])
             then first.payload == ms[0].payload[..n] && IsData(first) && (n < |ms[0].payload| ==> n == len)
             else first == ms[0]
    ensures Picked(ms, len) == [first] + Picked(ms[1..], len - n)
    ensures Total(Picked(ms, len)) == n + Total(Picked(ms[1..], len - n))
    ensures Atoms(Picked(ms, len)) ==
            (if IsData(first) then DataAtoms(first.payload) else [Whole(first)]) + Atoms(Picked(ms[1..], len - n))
  {
    if IsData(ms[0]) {
      WholeData(first);
    }
    var picked := Picked(ms, len);
    assert picked == [first] + Picked(ms[1..], len - n);
    assert picked[1..] == Picked(ms[1..], len - n);
    hide Picked;
    AtomsHead(picked);
  }

  lemma PastHead(ms: seq<Record>, k: nat)
    requires ms != [] && k > 0 && k >= |ms[0].payload|
    ensures From(ms, k) == From(ms[1..], k - |ms[0].payload|)
    ensures Splits(ms, k) == Splits(ms[1..], k - |ms[0].payload|)
  {
  }

  /** What a call stores and what is past it make the message. */
  ghost predicate Covers(ms: seq<Record>, len: nat) {
    var fwd := Total(Picked(ms, len));
    fwd <= len && !Splits(ms, fwd) && Atoms(Picked(ms, len)) + Atoms(From(ms, fwd)) == Atoms(ms)
  }

  lemma {:induction false} PickedAndRest(ms: seq<Record>, len: nat)
    requires Solid(ms)
    ensures Covers(ms, len)
    decreases |ms|
  {
    if ms == [] || len == 0 {
      NoAtoms();
    } else if IsData(ms[0]) {
      hide Covers;
      var n := if |ms[0].payload| <= len then |ms[0].payload| else len;
      PickedAndRest(ms[1..], len - n);
      DataPicked(ms, len, n);
    } else if |ms[0].payload| <= len {
      hide Covers;
      PickedAndRest(ms[1..], len - |ms[0].payload|);
      BlockPicked(ms, len);
    } else {
      NoAtoms();
    }
  }

  lemma DataPicked(ms: seq<Record>, len: nat, n: nat)
    requires ms != [] && len > 0 && IsData(ms[0])
    requires n == if |ms[0].payload| <= len then |ms[0].payload| else len
    requires Covers(ms[1..], len - n)
    ensures Covers(ms, len)
  {
    if n < |ms[0].payload| {
      CutData(ms, len);
    } else {
      AllDataPicked(ms, len);
    }
  }

  lemma AtStart(ms: seq<Record>)
    ensures From(ms, 0) == ms && !Splits(ms, 0)
  {
  }

  lemma AllDataPicked(ms: seq<Record>, len: nat)
    requires ms != [] && IsData(ms[0]) && len > 0 && |ms[0].payload| <= len
    requires Covers(ms[1..], len - |ms[0].payload|)
    ensures Covers(ms, len)
  {
    hide Atoms, DataAtoms, Picked, Total, From, Splits;
    WholeData(ms[0]);
    var p, tail, n := ms[0].payload, ms[1..], |ms[0].payload|;
    assert p[..n] == p;
    PickedHead(ms, len, n, ms[0]);
    AtomsHead(ms);
    var rest := Picked(tail, len - n);
    if n + Total(rest) == 0 {
      EmptyAtoms(p);
      assert p == p[..0];
      AtStart(ms);
      AtStart(tail);
    } else {
      PastHead(ms, n + Total(rest));
    }
    Reassociate(DataAtoms(p), Atoms(rest), Atoms(From(tail, Total(rest))));
  }

  /** A block of data of which only a part is stored. */
  lemma CutData(ms: seq<Record>, len: nat)
    requires ms != [] && IsData(ms[0]) && 0 < len < |ms[0].payload|
    ensures Covers(ms, len)
  {
    WholeData(ms[0]);
    var p := ms[0].payload;
    PickedHead(ms, len, len, DataRecord(p[..len]));
    NoAtoms();
    assert Picked(ms[1..], 0) == [];
    var cut := From(ms, len);
    assert cut == [DataRecord(p[len..])] + ms[1..] && cut[1..] == ms[1..];
    AtomsHead(cut);
    AtomsHead(ms);
    DataAtomsSplit(p, len);
    hide Atoms, DataAtoms, Picked, Total, From;
    Reassociate(DataAtoms(p[..len]), DataAtoms(p[len..]), Atoms(ms[1..]));
  }

  lemma BlockPicked(ms: seq<Record>, len: nat)
    requires ms != [] && !IsData(ms[0]) && 0 < |ms[0].payload| <= len
    requires Covers(ms[1..], len - |ms[0].payload|)
    ensures Covers(ms, len)
  {
    var n, tail := |ms[0].payload|, ms[1..];
    PickedHead(ms, len, n, ms[0]);
    AtomsHead(ms);
    var rest := Picked(tail, len - n);
    PastHead(ms, n + Total(rest));
    hide Atoms, Picked, Total, From, Splits;
    Reassociate([Whole(ms[0])], Atoms(rest), Atoms(From(tail, Total(rest))));
  }

  /** Going on from where a call stopped. */
  lemma {:induction false} FromAgain(htx: seq<Record>, a: nat, b: nat)
    requires !Splits(htx, a)
    ensures Splits(htx, a + b) == Splits(From(htx, a), b)
    ensures From(htx, a + b) == From(From(htx, a), b)
    decreases |htx|
  {
    if htx != [] && a > 0 {
      var p := htx[0].payload;
      if a >= |p| {
        PastHead(htx, a);
        PastHead(htx, a + b);
        FromAgain(htx[1..], a - |p|, b);
      } else if b > 0 {
        WholeData(htx[0]);
        var cut := From(htx, a);
        assert cut == [DataRecord(p[a..])] + htx[1..] && cut[1..] == htx[1..];
        if b >= |p| - a {
          PastHead(cut, b);
          PastHead(htx, a + b);
        } else {
          assert p[a..][b..] == p[a + b..];
        }
      }
    }
  }

  lemma {:induction false} FromSolid(htx: seq<Record>, a: nat)
    requires Solid(htx)
    ensures Solid(From(htx, a))
    decreases |htx|
  {
    if htx != [] && a > 0 {
      if a >= |htx[0].payload| {
        assert Solid(htx[1..]);
        FromSolid(htx[1..], a - |htx[0].payload|);
      } else if IsData(htx[0]) {
        var cut := From(htx, a);
        forall i | 0 <= i < |cut| && !IsData(cut[i])
          ensures cut[i].payload != []
        {
          assert i > 0 && cut[i] == htx[i];
        }
      }
    }
  }

  /** Nothing is left past the end. */
  lemma {:induction false} PastEnd(htx: seq<Record>, a: nat)
    requires Solid(htx) && a >= Total(htx)
    ensures Atoms(From(htx, a)) == []
  {
    if htx != [] {
      if a > 0 {
        PastHead(htx, a);
        PastEnd(htx[1..], a - |htx[0].payload|);
      } else {
        PastEnd(htx[1..], 0);
        assert IsData(htx[0]);
        EmptyAtoms(htx[0].payload);
        assert htx[0].payload == htx[0].payload[..0];
      }
    }
  }

  lemma {:induction false} SerializeAppend(a: seq<Record>, r: Record)
    ensures Serialize(a + [r]) == Serialize(a) + (InfoBytes(r.info) + r.payload)
    decreases |a|
  {
    hide InfoBytes;
    if a == [] {
      assert a + [r] == [r] && [r][1..] == [];
    } else {
      SerializeAppend(a[1..], r);
      assert (a + [r])[1..] == a[1..] + [r];
    }
  }

  lemma {:induction false} DataSizeConcat(a: seq<Record>, b: seq<Record>)
    ensures DataSize(a + b) == DataSize(a) + DataSize(b)
  {
    if a == [] {
      assert a + b == b;
    } else {
      DataSizeConcat(a[1..], b);
      assert (a + b)[1..] == a[1..] + b;
    }
  }

  lemma {:induction false} AtomsConcat(a: seq<Record>, b: seq<Record>)
    ensures Atoms(a + b) == Atoms(a) + Atoms(b)
  {
    hide DataAtoms, Atoms;
    NoAtoms();
    if a == [] {
      assert a + b == b;
    } else {
      AtomsConcat(a[1..], b);
      assert (a + b)[0] == a[0] && (a + b)[1..] == a[1..] + b;
      AtomsHead(a);
      AtomsHead(a + b);
      var head := if IsData(a[0]) then DataAtoms(a[0].payload) else [Whole(a[0])];
      Reassociate(head, Atoms(a[1..]), Atoms(b));
    }
  }

  // The filter that stores.

  /** What a call finds at an offset: nothing at the end of the message. */
  function StartAt(htx: seq<Record>, offset: nat): (ms: seq<Record>) {
    if offset >= Total(htx) then [] else From(htx, offset)
  }

  class Store {
    const row: Row
    const header: nat            // what the row holds before the body
    var bodySize: nat
    var enabled: bool
    ghost var records: seq<Record>

    /** The row holds the records of the body, and their data is counted. */
    ghost predicate Valid()
      reads this, row
    {
      && row.Valid() && header <= row.len
      && (enabled ==> row.Content()[header..] == Serialize(records) && bodySize == DataSize(records))
    }

    /** Starts storing a body after what the row holds already. */
    constructor (row: Row)
      requires row.Valid()
      ensures Valid() && fresh(this) && this.row == row && enabled && records == []
    {
      this.row, header, bodySize, enabled, records := row, row.len, 0, true, [];
    }

    /** Appends a record, its 4-byte header first, or gives up in the middle. */
    method Add(r: Record) returns (ok: bool)
      requires Valid() && enabled
      modifies row, this`bodySize, this`records, this`enabled
      ensures Valid() && enabled == ok
      ensures records == if ok then old(records) + [r] else old(records)
    {
      hide InfoBytes, Serialize, DataSize;
      enabled := false;
      ok := row.Reserve();
      if !ok {
        return;
      }
      var ret := row.Append(InfoBytes(r.info));
      if ret < 0 {
        return false;
      }
      ret := row.Append(r.payload);
      if ret < 0 {
        return false;
      }
      SerializeAppend(records, r);
      CountAppend(records, r);
      var was := old(row.Content());
      assert row.Content() == was + InfoBytes(r.info) + r.payload;
      assert row.Content()[header..] == was[header..] + (InfoBytes(r.info) + r.payload);
      enabled, records := true, records + [r];
      if TypeOf(r.info) == DATA {
        bodySize := bodySize + |r.payload|;
      }
    }

    /** Stores what comes at an offset of the message, for at most `len0` bytes.
        A failure gives up caching and lets everything pass. */
    method StorePayload(htx: seq<Record>, offset0: nat, len0: nat) returns (fwd: nat)
      requires Valid()
      modifies row, this`bodySize, this`records, this`enabled
      ensures Valid() && (enabled ==> old(enabled))
      ensures !enabled ==> fwd == len0
      ensures enabled ==>
        && records == old(records) + Picked(StartAt(htx, offset0), len0)
        && fwd == Total(Picked(StartAt(htx, offset0), len0))
        && (len0 > 0 && offset0 < Total(htx) ==> !Splits(htx, offset0))
    {
      if len0 == 0 {
        return 0;
      }
      if !enabled {
        return len0;
      }
      var k, offset := FindOffset(htx, offset0);
      hide Splits, Total, Picked, StartAt, From, Valid;
      fwd := StoreBlocks(htx, k, offset, len0);
    }

    method StoreBlocks(htx: seq<Record>, k0: nat, offset0: nat, len0: nat) returns (fwd: nat)
      requires Valid() && enabled && k0 <= |htx| && len0 > 0
      requires k0 < |htx| && offset0 > 0 ==> offset0 < |htx[k0].payload|
      modifies row, this`bodySize, this`records, this`enabled
      ensures Valid()
      ensures !enabled ==> fwd == len0
      ensures enabled ==>
        && records == old(records) + Picked(From(htx[k0..], offset0), len0)
        && fwd == Total(Picked(From(htx[k0..], offset0), len0))
        && !Splits(htx[k0..], offset0)
    {
      hide Splits, Total, Picked, From, Valid;
      ghost var was, picked := records, Picked(From(htx[k0..], offset0), len0);
      ghost var todo := picked;
      var k, offset, len: nat := k0, offset0, len0;
      fwd := 0;
      while k < |htx| && len > 0
        invariant 0 <= k <= |htx| && 0 <= offset && len <= len0 && Valid() && enabled
        invariant k < |htx| && offset > 0 ==> offset < |htx[k].payload|
        invariant todo == Picked(From(htx[k..], offset), len)
        invariant records + todo == was + picked && fwd + Total(todo) == Total(picked)
        invariant if k > k0 then !Splits(htx[k0..], offset0) else k == k0 && offset == offset0 && len == len0
      {
        var more, n := StoreBlock(htx, k, offset, len);
        if !enabled {
          return len0;
        }
        if !more {
          assert records + [] == records;
          return;
        }
        NextBlockOf(htx, k);
        fwd, len, k, offset := fwd + n, len - n, k + 1, 0;
        todo := Picked(htx[k..], len);
      }
      NothingPicked(From(htx[k..], offset), len, htx[k..], offset);
      assert records + [] == records;
    }

    /** Stores one block of the message, or a part of it if it is data; stops
        before a block which does not fit in `len` bytes. */
    method StoreBlock(htx: seq<Record>, k: nat, offset: nat, len: nat) returns (more: bool, n: nat)
      requires Valid() && enabled && k < |htx| && (offset > 0 ==> offset < |htx[k].payload|) && len > 0
      modifies row, this`bodySize, this`records, this`enabled
      ensures Valid() && n <= len && (enabled ==> !Splits(htx[k..], offset))
      ensures var all := Picked(From(htx[k..], offset), len);
              enabled ==> if !more then records == old(records) && all == [] && Total(all) == 0
                          else && records + Picked(htx[k + 1..], len - n) == old(records) + all
                               && n + Total(Picked(htx[k + 1..], len - n)) == Total(all)
    {
      hide Splits, Total, Picked, From;
      ghost var ms := From(htx[k..], offset);
      var r := htx[k];
      if TypeOf(r.info) == DATA {
        FromData(htx, k, offset);
        var v := r.payload[offset..];
        n := if |v| <= len then |v| else len;
        r := DataRecord(v[..n]);
      } else {
        FromBlock(htx, k, offset, len);
        if offset > 0 {
          enabled := false;
          return false, 0;
        }
        if |r.payload| > len {
          return false, 0;
        }
        n := |r.payload|;
      }
      PickedHead(ms, len, n, r);
      MoreRecords(records, r, Picked(ms[1..], len - n));
      more := Add(r);
    }
  }

  lemma CountAppend(rs: seq<Record>, r: Record)
    ensures DataSize(rs + [r]) == DataSize(rs) + if TypeOf(r.info) == DATA then |r.payload| else 0
  {
    DataSizeConcat(rs, [r]);
    assert [r][1..] == [];
  }

  lemma MoreRecords(a: seq<Record>, r: Record, b: seq<Record>)
    ensures (a + [r]) + b == a + ([r] + b)
  {
  }

  lemma NothingPicked(ms: seq<Record>, len: nat, rest: seq<Record>, offset: nat)
    requires ms == From(rest, offset) && (rest == [] || len == 0)
    ensures Picked(ms, len) == [] && Total([]) == 0 && (rest == [] ==> !Splits(rest, offset))
  {
  }

  lemma NextBlockOf(htx: seq<Record>, k: nat)
    requires k < |htx|
    ensures htx[k..][1..] == htx[k + 1..] && From(htx[k + 1..], 0) == htx[k + 1..] && !Splits(htx[k + 1..], 0)
  {
  }

  lemma FromData(htx: seq<Record>, k: nat, offset: nat)
    requires k < |htx| && IsData(htx[k]) && (offset > 0 ==> offset < |htx[k].payload|)
    ensures |htx[k].payload| < 0x1000_0000 && !Splits(htx[k..], offset)
    ensures var ms := From(htx[k..], offset);
            ms != [] && IsData(ms[0]) && ms[0].payload == htx[k].payload[offset..] && ms[1..] == htx[k + 1..]
  {
    WholeData(htx[k]);
  }

  lemma FromBlock(htx: seq<Record>, k: nat, offset: nat, len: nat)
    requires k < |htx| && !IsData(htx[k]) && (offset > 0 ==> offset < |htx[k].payload|) && len > 0
    ensures Splits(htx[k..], offset) == (offset > 0)
    ensures From(htx[k..], offset) == htx[k..] && htx[k..][0] == htx[k] && htx[k..][1..] == htx[k + 1..]
    ensures |htx[k].payload| > len ==> Picked(htx[k..], len) == [] && Total([]) == 0
  {
  }

  /** Looks for the block that holds an offset, and the offset in it. */
  method FindOffset(htx: seq<Record>, offset0: nat) returns (k: nat, offset: nat)
    ensures k <= |htx| && (k < |htx| && offset > 0 ==> offset < |htx[k].payload|)
    ensures From(htx[k..], offset) == StartAt(htx, offset0)
    ensures offset0 < Total(htx) ==> Splits(htx, offset0) == Splits(htx[k..], offset)
    ensures offset0 >= Total(htx) ==> k == |htx|
  {
    if offset0 >= Total(htx) {
      return |htx|, 0;
    }
    k, offset := 0, offset0;
    assert htx[0..] == htx;
    while k < |htx| && offset > 0
      invariant k <= |htx| && From(htx[k..], offset) == From(htx, offset0)
      invariant Splits(htx, offset0) == Splits(htx[k..], offset)
    {
      var sz := |htx[k].payload|;
      if offset < sz {
        break;
      }
      PastHead(htx[k..], offset);
      NextBlockOf(htx, k);
      k, offset := k + 1, offset - sz;
    }
  }

  /** Any number of calls, each where the previous one stopped: unless caching was
      given up, what is stored and what is still to come make the message. */
  method StoreAll(store: Store, htx: seq<Record>, lens: seq<nat>) returns (offset: nat)
    requires store.Valid() && Solid(htx)
    modifies store.row, store`bodySize, store`records, store`enabled
    ensures store.Valid() && (store.enabled ==> old(store.enabled))
    ensures store.enabled ==> Atoms(store.records) + Atoms(From(htx, offset)) == Atoms(old(store.records)) + Atoms(htx)
    ensures store.enabled && offset >= Total(htx) ==> Atoms(store.records) == Atoms(old(store.records)) + Atoms(htx)
  {
    hide Atoms, Picked, Total;
    offset := 0;
    for i := 0 to |lens|
      invariant store.Valid() && (store.enabled ==> old(store.enabled))
      invariant store.enabled ==> !Splits(htx, offset)
      invariant store.enabled ==>
        Atoms(store.records) + Atoms(From(htx, offset)) == Atoms(old(store.records)) + Atoms(htx)
    {
      ghost var rs := store.records;
      var fwd := store.StorePayload(htx, offset, lens[i]);
      if store.enabled {
        CallCovers(htx, offset, lens[i], rs);
      }
      offset := offset + fwd;
    }
    if offset >= Total(htx) {
      PastEnd(htx, offset);
    }
  }

  lemma CallCovers(htx: seq<Record>, offset: nat, len: nat, rs: seq<Record>)
    requires Solid(htx) && !Splits(htx, offset)
    ensures var picked := Picked(StartAt(htx, offset), len);
            && !Splits(htx, offset + Total(picked))
            && Atoms(rs + picked) + Atoms(From(htx, offset + Total(picked))) == Atoms(rs) + Atoms(From(htx, offset))
  {
    var picked := Picked(StartAt(htx, offset), len);
    hide Atoms;
    AtomsConcat(rs, picked);
    if offset < Total(htx) {
      var ms := From(htx, offset);
      hide Picked, Splits;
      FromSolid(htx, offset);
      PickedAndRest(ms, len);
      FromAgain(htx, offset, Total(picked));
      hide Total, From;
      Reassociate(Atoms(rs), Atoms(picked), Atoms(From(ms, Total(picked))));
    } else {
      NoAtoms();
    }
  }

  // From the writer to the reader.

  lemma RestAt(blocks: seq<seq<Byte>>, size: nat, next: nat, offset: nat)
    requires AllOfSize(blocks, size) && next < |blocks| && offset <= size
    ensures next * size + offset <= |Flat(blocks)|
    ensures Rest(blocks, next, offset) == Flat(blocks)[next * size + offset..]
  {
    FlatSplit(blocks, next, size);
    var front, b, tail := Flat(blocks[..next]), blocks[next], Flat(blocks[next + 1..]);
    hide Flat;
    assert (front + (b + tail))[|front| + offset..] == (b + tail)[offset..] == b[offset..] + tail;
  }

  /** The place in a row where an offset is. */
  lemma PlaceOf(blocks: seq<seq<Byte>>, size: nat, at: nat, next: nat, offset: nat)
    requires AllOfSize(blocks, size) && at <= |blocks| * size && at == next * size + offset && offset < size
    ensures next <= |blocks| && (next == |blocks| ==> offset == 0)
    ensures at <= |Flat(blocks)| == |blocks| * size && Rest(blocks, next, offset) == Flat(blocks)[at..]
  {
    FlatLength(blocks, size);
    MultiplesApart(|blocks|, next, size);
    hide Flat;
    if next < |blocks| {
      RestAt(blocks, size, next, offset);
    }
  }

  method Locate(at: nat, size: nat) returns (next: nat, offset: nat)
    requires size > 0
    ensures at == next * size + offset && offset < size
  {
    next, offset := 0, at;
    while offset >= size
      invariant at == next * size + offset
    {
      next, offset := next + 1, offset - size;
    }
  }

  /** Starts reading what was stored. */
  method OpenReader(store: Store) returns (reader: Reader)
    requires store.Valid() && store.enabled && store.row.blockSize >= 4
    ensures fresh(reader) && reader.Valid() && reader.Owed() == Atoms(store.records)
  {
    var row, header := store.row, store.header;
    var next, offset := Locate(header, row.blockSize);
    PlaceOf(row.blocks, row.blockSize, header, next, offset);
    hide Rest, Serialize, Atoms, DataSize, Flat;
    ghost var all, stored := Flat(row.blocks), row.Content();
    StoredAhead(all, row.len, header);
    reader := new Reader(row.blocks, row.blockSize, header, row.len, next, offset, 0, store.bodySize, store.records);
  }

  lemma StoredAhead(all: seq<Byte>, len: nat, header: nat)
    requires header <= len <= |all|
    ensures all[..len][header..] <= all[header..] && |all[..len][header..]| == len - header
  {
  }

  /** Storing a message in any number of calls, then sending it in any number of
      turns: once it is all stored and all sent, the client got the message. */
  method StoreAndServe(row: Row, htx: seq<Record>, lens: seq<nat>, sink: Sink, turns: seq<Turn>)
    returns (complete: bool)
    requires row.Valid() && row.blockSize >= 4 && Solid(htx)
    modifies row, sink
    ensures complete ==> sink.got == old(sink.got) + Atoms(htx)
  {
    hide Atoms;
    NoAtoms();
    var store := new Store(row);
    var offset := StoreAll(store, htx, lens);
    if !store.enabled || offset < Total(htx) {
      return false;
    }
    assert [] + Atoms(htx) == Atoms(htx);
    var reader := OpenReader(store);
    Serve(reader, sink, turns);
    complete := reader.sent == reader.length - reader.header;
  }
}
