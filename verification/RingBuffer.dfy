/** The wrapping buffer: a storage area edited in place, a head offset and an
    amount of data. Every operation is specified on the logical content. */
module RingBuffer {
  import opened RingMove
  import opened RingSpec
  import opened Common
  import Varint

  class Buffer {
    var area: array<Byte>
    var head: nat
    var data: nat

    ghost predicate Valid()
      reads this
    {
      data <= area.Length && (head < area.Length || head == area.Length == 0)
    }

    ghost function Contents(): (c: seq<Byte>)
      requires data <= area.Length && head <= area.Length
      reads this, area
      ensures |c| == data
    {
      Content(area[..], head, data)
    }

    function PeekOfs(ofs: nat): (p: int)
      reads this
    {
      Wrap(head + ofs, area.Length)
    }

    function TailOfs(): (p: int)
      reads this
    {
      PeekOfs(data)
    }

    function Room(): (r: int)
      reads this
    {
      area.Length - data
    }

    function ContigSpace(): (r: int)
      reads this
    {
      var left := area.Length - (head + data);
      if left <= 0 then left + head else left
    }

    /** memmove() inside the area. */
    method MoveContiguous(to: nat, from: nat, cnt: nat)
      requires to + cnt <= area.Length && from + cnt <= area.Length
      modifies area
      ensures area[..] == Chunk(old(area[..]), to, from, cnt)
    {
      forall i | 0 <= i < cnt {
        area[to + i] := area[from + i];
      }
    }

    /** memcpy() of a foreign block into the area, which must not wrap. */
    method WriteContiguous(at: nat, blk: seq<Byte>)
      requires at + |blk| <= area.Length
      modifies area
      ensures forall p {:trigger area[p]} | 0 <= p < area.Length ::
                area[p] == if at <= p < at + |blk| then blk[p - at] else old(area[p])
    {
      forall i | 0 <= i < |blk| {
        area[at + i] := blk[i];
      }
    }

    /** Moves `len` bytes found at `src` by `shift` bytes, as long as this stays
        in the area: if they fit there together with the shift, or if neither
        range wraps, all of them land as they were before. */
    method Move(src: nat, len: nat, shift: int)
      requires Arguments(area.Length, src, len, shift) && Outcome(area[..], src, len, shift).Some?
      modifies area
      ensures Outcome(old(area[..]), src, len, shift) == Some(area[..])
      ensures Movable(area.Length, src, len, shift) ==>
                area[..] == Moved(old(area[..]), src, Shifted(src, shift, area.Length), 0, len)
    {
      hide RightLoop, LeftLoop, Moved;
      ghost var a := area[..];
      var size := area.Length;
      var dst := src + size + shift;
      if dst >= size {
        dst := dst - size;
      }
      if shift < 0 {
        assert dst == Shifted(src, shift, size);
        MoveRightward(src, dst, len);
      } else if shift > 0 {
        MoveLeftward(src, dst, len);
      }
      if Movable(size, src, len, shift) {
        MovableMoves(a, src, len, shift);
      }
    }

    /** The left-to-right loop, for shifts to the left. */
    method MoveRightward(src0: nat, dst0: nat, len0: nat)
      requires src0 <= area.Length && dst0 < area.Length && len0 <= area.Length
      modifies area
      ensures area[..] == RightLoop(old(area[..]), src0, dst0, len0)
    {
      hide Chunk, RightLoop;
      var size := area.Length;
      var src, dst, len := src0, dst0, len0;
      while len > 0
        invariant 0 <= len <= len0 && 0 <= src <= size && 0 <= dst < size
        invariant RightLoop(area[..], src, dst, len) == RightLoop(old(area[..]), src0, dst0, len0)
        decreases len, src
      {
        RightStep(area[..], src, dst, len);
        var cnt := len;
        if cnt > size - src {
          cnt := size - src;
        }
        if cnt > size - dst {
          cnt := size - dst;
        }
        MoveContiguous(dst, src, cnt);
        dst := dst + cnt;
        src := src + cnt;
        if dst >= size {
          dst := dst - size;
        }
        if src >= size {
          src := src - size;
        }
        len := len - cnt;
      }
      NothingToMove(area[..], src, dst);
    }

    /** The right-to-left loop, for shifts to the right. */
    method MoveLeftward(src: nat, dst: nat, len0: nat)
      requires LeftLoop(area[..], src, dst, len0).Some?
      modifies area
      ensures LeftLoop(old(area[..]), src, dst, len0) == Some(area[..])
    {
      hide Chunk, LeftLoop;
      var size := area.Length;
      var len := len0;
      while len > 0
        invariant 0 <= len <= len0
        invariant LeftLoop(area[..], src, dst, len) == LeftLoop(old(area[..]), src, dst, len0)
      {
        StaysInside(area[..], src, dst, len);
        var cnt := len;
        var srcEnd := src + len;
        var dstEnd := dst + len;
        if dstEnd > size {
          dstEnd := dstEnd - size;
        }
        if srcEnd > size {
          srcEnd := srcEnd - size;
        }
        if cnt > dstEnd {
          cnt := dstEnd;
        }
        if cnt > srcEnd {
          cnt := srcEnd;
        }
        MoveContiguous(dstEnd - cnt, srcEnd - cnt, cnt);
        len := len - cnt;
      }
      NothingToMove(area[..], src, dst);
    }

    /** Replaces the contiguous bytes between offsets `pos` and `end` by `blk`. */
    method ReplaceBlock(pos: nat, end: nat, blk: seq<Byte>) returns (delta: int)
      requires Valid() && pos < area.Length && pos <= end <= area.Length
      requires Dist(head, pos, area.Length) + (end - pos) <= data
      requires data + |blk| - (end - pos) <= area.Length
      modifies this`head, this`data, area
      ensures Valid() && area == old(area)
      ensures delta == |blk| - (end - pos)
      ensures head == if data == 0 then 0 else old(head)
      ensures var i := Dist(old(head), pos, area.Length);
              Contents() == old(Contents())[..i] + blk + old(Contents())[i + (end - pos)..]
    {
      ghost var a, i := area[..], Dist(head, pos, area.Length);
      delta := |blk| - (end - pos);
      if delta > 0 {
        GrowInPlace(pos, end, blk, i);
      } else {
        ShrinkInPlace(pos, end, blk, i);
      }
      data := data + delta;
      if data == 0 {
        head := 0;
      }
    }

    /** Shifts the data found between `end` and the tail, if any. */
    method ShiftAfter(end: nat, tail: nat, shift: int, ghost after: nat, ghost dst: nat)
      requires end <= area.Length && dst < area.Length
      requires after == if tail < end then area.Length - (end - tail) else tail - end
      requires after + (if shift < 0 then -shift else shift) <= area.Length
      requires after > 0 ==> dst == Shifted(end, shift, area.Length)
      modifies area
      ensures area[..] == Moved(old(area[..]), end, dst, 0, after)
    {
      var cnt := if tail < end then area.Length - (end - tail) else tail - end;
      if cnt > 0 {
        MovableMoves(area[..], end, cnt, shift);
        Move(end, cnt, shift);
      } else {
        MovedNothing(area[..], end, dst, 0);
      }
    }

    /** Makes room after `end`, then writes the block. */
    method GrowInPlace(pos: nat, end: nat, blk: seq<Byte>, ghost i: nat)
      requires Valid() && pos < area.Length && pos <= end <= area.Length
      requires pos == Wrap(head + i, area.Length) && i + (end - pos) <= data
      requires end - pos < |blk| && data + |blk| - (end - pos) <= area.Length
      modifies area
      ensures Content(area[..], head, data + |blk| - (end - pos))
           == old(Contents())[..i] + blk + old(Contents())[i + (end - pos)..]
    {
      ghost var a, j := area[..], i + (end - pos);
      ghost var dst := Wrap(pos + |blk|, area.Length);
      DataAfter(head, data, i, pos, end, area.Length);
      GrowContent(a, head, data, i, j, blk, pos, end, dst);
      ShiftAfter(end, TailOfs(), |blk| - (end - pos), data - j, dst);
      WriteBlock(pos, blk);
    }

    /** Writes the block, then closes the hole it leaves before `end`. */
    method ShrinkInPlace(pos: nat, end: nat, blk: seq<Byte>, ghost i: nat)
      requires Valid() && pos < area.Length && pos <= end <= area.Length
      requires pos == Wrap(head + i, area.Length) && i + (end - pos) <= data
      requires |blk| <= end - pos
      modifies area
      ensures Content(area[..], head, data + |blk| - (end - pos))
           == old(Contents())[..i] + blk + old(Contents())[i + (end - pos)..]
    {
      ghost var a, j := area[..], i + (end - pos);
      ghost var dst := Wrap(pos + |blk|, area.Length);
      ShrinkContent(a, head, data, i, j, blk, pos, end, dst);
      WriteBlock(pos, blk);
      if |blk| < end - pos {
        DataAfter(head, data, i, pos, end, area.Length);
        ShiftAfter(end, TailOfs(), |blk| - (end - pos), data - j, dst);
      } else {
        assert dst == Shifted(end, 0, area.Length);
        MovedByZero(area[..], end, data - j);
      }
    }

    /** Writes a block from `pos`, in two parts when it wraps. */
    method WriteBlock(pos: nat, blk: seq<Byte>)
      requires pos < area.Length && |blk| <= area.Length
      modifies area
      ensures area[..] == Written(old(area[..]), pos, blk)
    {
      var block1 := if |blk| <= area.Length - pos then |blk| else area.Length - pos;
      WriteContiguous(pos, blk[..block1]);
      WriteContiguous(0, blk[block1..]);
    }

    /** Appends `blk`, for which there must be room. */
    method PutBlock(blk: seq<Byte>)
      requires Valid() && 0 < |blk| && data + |blk| <= area.Length
      modifies this`data, area
      ensures Valid() && area[..] == Written(old(area[..]), old(TailOfs()), blk)
      ensures data == old(data) + |blk|
      ensures Contents() == old(Contents()) + blk
    {
      AppendContent(area[..], head, data, blk);
      var half := ContigSpace();
      if half > |blk| {
        half := |blk|;
      }
      WriteContiguous(TailOfs(), blk[..half]);
      if |blk| > half {
        WriteContiguous(PeekOfs(data + half), blk[half..]);
      }
      assert area[..] == Written(old(area[..]), TailOfs(), blk);
      data := data + |blk|;
    }

    /** Inserts `blk` after the first `off` bytes, or does nothing and returns
        zero when it is empty or does not fit. */
    method InsertBlock(off: nat, blk: seq<Byte>) returns (ret: nat)
      requires Valid() && off <= data
      modifies this`data, area
      ensures Valid()
      ensures ret == if |blk| <= area.Length - old(data) then |blk| else 0
      ensures Contents() == if ret > 0 then old(Contents())[..off] + blk + old(Contents())[off..] else old(Contents())
      ensures ret == 0 ==> area[..] == old(area[..])
    {
      if |blk| == 0 || |blk| > Room() {
        return 0;
      }
      if PeekOfs(off) == TailOfs() {
        assert off == data;
        PutBlock(blk);
      } else {
        InsertInside(off, blk);
      }
      ret := |blk|;
    }

    /** Protects the end of the data, then appends the block to what precedes. */
    method InsertInside(off: nat, blk: seq<Byte>)
      requires Valid() && off < data && 0 < |blk| && data + |blk| <= area.Length
      modifies this`data, area
      ensures Valid() && data == old(data) + |blk|
      ensures Contents() == old(Contents())[..off] + blk + old(Contents())[off..]
    {
      var pos, delta := PeekOfs(off), data - off;
      ghost var dst := Shifted(pos, |blk|, area.Length);
      GrowContent(area[..], head, data, off, off, blk, pos, pos, dst);
      MovableMoves(area[..], pos, delta, |blk|);
      Move(pos, delta, |blk|);
      data := data - delta;
      PutBlock(blk);
      data := data + delta;
    }

    /** Skips the first `del` bytes. */
    method Delete(del: nat)
      requires Valid() && del <= data
      modifies this`head, this`data
      ensures Valid() && data == old(data) - del
      ensures Contents() == old(Contents())[del..]
    {
      if area.Length > 0 {
        SkipContent(area[..], head, data, del);
      }
      data := data - del;
      head := head + del;
      if head >= area.Length {
        head := head - area.Length;
      }
    }

    /** memcpy() between two distinct areas. */
    static method CopyBetween(dst: array<Byte>, to: nat, src: array<Byte>, from: nat, cnt: nat)
      requires dst != src && to + cnt <= dst.Length && from + cnt <= src.Length
      modifies dst
      ensures forall p {:trigger dst[p]} | 0 <= p < dst.Length ::
                dst[p] == if to <= p < to + cnt then src[from + p - to] else old(dst[p])
    {
      forall i | 0 <= i < cnt {
        dst[to + i] := src[from + i];
      }
    }

    /** Realigns the ring so that its first `output` bytes end the area and the
        other ones start it, through a swap area. */
    method Realign(swap: array<Byte>, output: nat)
      requires Valid() && swap != area && area.Length <= swap.Length && output <= data
      modifies this`head, area, swap
      ensures Valid() && area == old(area)
      ensures head == if output > 0 then area.Length - output else 0
      ensures Contents() == old(Contents())
    {
      hide Content;
      var size := area.Length;
      ghost var c := Contents();
      SaveOutput(swap, output);
      SaveInput(swap, output);
      RestoreAround(swap, output);
      head := if output > 0 then size - output else 0;
      assert c == c[..output] + c[output..];
    }

    /** Saves the first `output` bytes at the end of the swap area. */
    method SaveOutput(swap: array<Byte>, output: nat)
      requires Valid() && swap != area && area.Length <= swap.Length && output <= data
      modifies swap
      ensures swap[area.Length - output..area.Length] == Contents()[..output]
    {
      var size := area.Length;
      var block1, block2 := output, 0;
      if block1 > size - head {
        block2 := PeekOfs(block1);
        block1 := block1 - block2;
      }
      CopyBetween(swap, size - output, area, head, block1);
      CopyBetween(swap, size - block2, area, 0, block2);
      ContentIndex(area[..], head, data);
    }

    /** Saves what follows the first `output` bytes at the start of the swap area. */
    method SaveInput(swap: array<Byte>, output: nat)
      requires Valid() && swap != area && area.Length <= swap.Length && output <= data
      modifies swap
      ensures swap[..data - output] == Contents()[output..]
      ensures swap[area.Length - output..area.Length] == old(swap[area.Length - output..area.Length])
    {
      var block1, block2 := data - output, 0;
      if block1 > TailOfs() {
        block2 := TailOfs();
        block1 := block1 - block2;
      }
      hide Content;
      var at := PeekOfs(output);
      CopyTwo(swap, area, at, block1, block2);
      TailInParts(area[..], head, data, output, at, block1, block2);
      assert swap[..][area.Length - output..area.Length] == old(swap[..])[area.Length - output..area.Length] by {
        SliceKept(old(swap[..]), swap[..], data - output, area.Length - output, area.Length);
      }
    }

    /** Copies two blocks, the second one from the start, to the start of another
        area. */
    static method CopyTwo(dst: array<Byte>, src: array<Byte>, at: nat, block1: nat, block2: nat)
      requires dst != src && at + block1 <= src.Length && block2 <= src.Length && block1 + block2 <= dst.Length
      modifies dst
      ensures dst[..block1 + block2] == src[at..at + block1] + src[..block2]
      ensures dst[..][block1 + block2..] == old(dst[..])[block1 + block2..]
    {
      CopyBetween(dst, 0, src, at, block1);
      CopyBetween(dst, block1, src, 0, block2);
    }

    /** Puts both saved parts back, each at its own end of the area. */
    method RestoreAround(swap: array<Byte>, output: nat)
      requires Valid() && swap != area && area.Length <= swap.Length && output <= data
      modifies area
      ensures Content(area[..], if output > 0 then area.Length - output else 0, data)
           == swap[area.Length - output..area.Length] + swap[..data - output]
    {
      CopyBetween(area, 0, swap, 0, data - output);
      CopyBetween(area, area.Length - output, swap, area.Length - output, output);
      ContentIndex(area[..], if output > 0 then area.Length - output else 0, data);
    }

    /** Realigns the ring so that its head is at `ofs`, through a swap area.
        The head is left out of the area when `ofs` is the size itself. */
    method RealignAt(swap: array<Byte>, ofs: nat)
      requires Valid() && swap != area && area.Length <= swap.Length && ofs <= area.Length
      modifies this`head, area, swap
      ensures area == old(area) && head == ofs
      ensures Valid() <==> (ofs < area.Length || ofs == 0)
      ensures Contents() == old(Contents())
    {
      Linearize(swap);
      SpreadFrom(swap, ofs);
      head := ofs;
    }

    /** Copies the swap area back from `ofs`, in two steps when it wraps. */
    method SpreadFrom(swap: array<Byte>, ofs: nat)
      requires Valid() && swap != area && area.Length <= swap.Length && ofs <= area.Length
      modifies area
      ensures Content(area[..], ofs, data) == swap[..data]
    {
      var block1, block2 := data, 0;
      if block1 > area.Length - ofs {
        block1 := area.Length - ofs;
        block2 := data - block1;
      }
      CopyBetween(area, ofs, swap, 0, block1);
      CopyBetween(area, 0, swap, block1, block2);
      ContentIndex(area[..], ofs, data);
    }

    /** Copies the data to the swap area, in two steps when it wraps. */
    method Linearize(swap: array<Byte>)
      requires Valid() && swap != area && area.Length <= swap.Length
      modifies swap
      ensures swap[..data] == Contents()
    {
      var block1, block2 := data, 0;
      if head + data >= area.Length {
        block2 := TailOfs();
        block1 := block1 - block2;
      }
      CopyBetween(swap, 0, area, head, block1);
      CopyBetween(swap, block1, area, 0, block2);
      ContentIndex(area[..], head, data);
    }

    /** Transfers at most `count` bytes from the front of `src` to the end of
        `dst`, by swapping the buffers when that does the same. */
    static method Transfer(dst: Buffer, src: Buffer, count: nat) returns (ret: nat)
      requires dst.Valid() && src.Valid() && dst != src && dst.area != src.area
      requires count <= dst.Room()
      modifies dst, src, dst.area
      ensures dst.Valid() && src.Valid() && {dst.area, src.area} == old({dst.area, src.area})
      ensures ret == if count < |old(src.Contents())| then count else |old(src.Contents())|
      ensures dst.Contents() == old(dst.Contents()) + old(src.Contents())[..ret]
      ensures src.Contents() == old(src.Contents())[ret..]
    {
      ret := 0;
      if count == 0 || src.data == 0 {
        return;
      }
      ret := src.data;
      if ret > count {
        ret := count;
      } else if dst.data == 0 && dst.area.Length == src.area.Length {
        dst.area, src.area := src.area, dst.area;
        dst.head, src.head := src.head, dst.head;
        dst.data, src.data := src.data, dst.data;
        return;
      }
      CopyFront(dst, src, ret);
      src.Delete(ret);
    }

    /** Appends the first `ret` bytes of `src`, one or two blocks, to `dst`. */
    static method CopyFront(dst: Buffer, src: Buffer, ret: nat)
      requires dst.Valid() && src.Valid() && dst != src && dst.area != src.area
      requires 0 < ret <= src.data && ret <= dst.Room()
      modifies dst`data, dst.area
      ensures dst.Valid() && dst.Contents() == old(dst.Contents()) + src.Contents()[..ret]
    {
      var block1 := src.area.Length - src.head;
      if block1 > ret {
        block1 := ret;
      }
      var block2 := ret - block1;
      ContentIndex(src.area[..], src.head, src.data);
      assert src.area[src.head..src.head + block1] == src.Contents()[..block1];
      dst.PutBlock(src.area[src.head..src.head + block1]);
      if block2 > 0 {
        var at := src.PeekOfs(block1);
        assert src.area[at..at + block2] == src.Contents()[block1..ret];
        dst.PutBlock(src.area[at..at + block2]);
      }
    }

    /** Writes one byte after the `d` first ones of the ring. */
    method PutAt(d: nat, b: Byte)
      requires Valid() && data <= d < area.Length
      modifies area
      ensures Content(area[..], head, d + 1) == old(Content(area[..], head, d)) + [b]
    {
      AppendContent(area[..], head, d, [b]);
      area[Wrap(head + d, area.Length)] := b;
      assert area[..] == Written(old(area[..]), Wrap(head + d, area.Length), [b]);
    }

    /** Appends the encoding of `v0` byte by byte, or gives up when the area is
        full: what was written then stays out of the content. */
    method PutVarint(v0: nat) returns (ret: nat)
      requires Valid()
      modifies this`data, area
      ensures Valid()
      ensures ret == if |Varint.Encode(v0)| <= area.Length - old(data) then |Varint.Encode(v0)| else 0
      ensures Contents() == old(Contents()) + if ret > 0 then Varint.Encode(v0) else []
    {
      Varint.Bytes(v0);
      hide Content, Varint.Encode, Varint.EncodeTail;
      var v, d := v0, data;
      ghost var c, out, rest := Contents(), [], Varint.Encode(v0);
      if d != area.Length && v >= 240 {
        out := [(240 + v % 16) as Byte];
        PutAt(d, (240 + v % 16) as Byte);
        v := (v - 240) / 16;
        d := d + 1;
        rest := Varint.EncodeTail(v);
        while d != area.Length && v >= 128
          invariant rest == Varint.EncodeTail(v) && |rest| >= 1
          invariant data < d == data + |out| <= area.Length
          invariant out + rest == Varint.Encode(v0)
          invariant Content(area[..], head, d) == c + out
          decreases v
        {
          Varint.TailStep(out, v);
          Varint.TailBytes(v);
          PutAt(d, (128 + v % 128) as Byte);
          out := out + [(128 + v % 128) as Byte];
          v := (v - 128) / 128;
          d := d + 1;
          rest := Varint.EncodeTail(v);
        }
        Varint.TailEnd(v);
      }
      assert |out| + |rest| == |Varint.Encode(v0)| && |rest| >= 1;
      if d == area.Length {
        PrefixContent(area[..], head, d, data);
        return 0;
      }
      PutAt(d, v as Byte);
      ret := d + 1 - data;
      data := d + 1;
    }

    /** Appends the encoding of `v0`, for which there is room. */
    method PutVarintUnchecked(v0: nat)
      requires Valid() && |Varint.Encode(v0)| <= Room()
      modifies this`data, area
      ensures Valid() && Contents() == old(Contents()) + Varint.Encode(v0)
    {
      Varint.Bytes(v0);
      hide Content, Varint.Encode, Varint.EncodeTail;
      var v, d := v0, data;
      if v >= 240 {
        PutAt(d, (240 + v % 16) as Byte);
        v := (v - 240) / 16;
        d := d + 1;
        ghost var c, out := old(Contents()), [(240 + v0 % 16) as Byte];
        ghost var rest := Varint.EncodeTail(v);
        while v >= 128
          invariant rest == Varint.EncodeTail(v) && |rest| >= 1
          invariant data < d == data + |out| && d + |rest| <= area.Length
          invariant out + rest == Varint.Encode(v0)
          invariant Content(area[..], head, d) == c + out
          decreases v
        {
          Varint.TailStep(out, v);
          Varint.TailBytes(v);
          PutAt(d, (128 + v % 128) as Byte);
          out := out + [(128 + v % 128) as Byte];
          v := (v - 128) / 128;
          d := d + 1;
          rest := Varint.EncodeTail(v);
        }
        Varint.TailEnd(v);
      }
      PutAt(d, v as Byte);
      data := d + 1;
    }

    /** The value encoded at relative offset `ofs` and its length, zero if its
        last byte is not there. */
    method PeekVarint(ofs: nat) returns (value: nat, size: nat)
      requires Valid() && ofs <= data
      ensures size <= data - ofs
      ensures Varint.Decode(Contents()[ofs..]) ==
              if size == 0 then None else Some((value, size))
    {
      if ofs == data {
        return 0, 0;
      }
      var b := area[PeekOfs(ofs)];
      assert b == Contents()[ofs..][0];
      if b < 240 {
        return b as nat, 1;
      }
      assert Contents()[ofs..][1..] == Contents()[ofs + 1..];
      value, size := PeekVarintTail(ofs + 1, b as nat, 16, 1);
    }

    /** Goes on with the bytes found from relative offset `ofs0`, the first of
        which counts `weight0` times, after `used0` bytes worth `value0`. */
    method PeekVarintTail(ofs0: nat, value0: nat, weight0: nat, used0: nat) returns (value: nat, size: nat)
      requires Valid() && used0 <= ofs0 <= data
      ensures size <= data - ofs0 + used0
      ensures Varint.Resumed(value0, weight0, used0, Contents()[ofs0..]) ==
              if size == 0 then None else Some((value, size))
    {
      ghost var c := Contents();
      var ofs, weight: nat := ofs0, weight0;
      value, size := value0, used0;
      while ofs < data && area[PeekOfs(ofs)] >= 128
        invariant ofs0 <= ofs <= data && size == used0 + (ofs - ofs0)
        invariant Varint.Resumed(value0, weight0, used0, c[ofs0..]) == Varint.Resumed(value, weight, size, c[ofs..])
      {
        assert area[PeekOfs(ofs)] == c[ofs..][0];
        assert c[ofs..][1..] == c[ofs + 1..];
        Varint.ResumedStep(value, weight, size, c[ofs..]);
        value := value + weight * area[PeekOfs(ofs)] as nat;
        ofs, weight, size := ofs + 1, weight * 128, size + 1;
      }
      if ofs == data {
        return 0, 0;
      }
      assert area[PeekOfs(ofs)] == c[ofs..][0];
      value, size := value + weight * area[PeekOfs(ofs)] as nat, size + 1;
    }

    /** Takes the integer encoded at the head out of the ring. */
    method GetVarint() returns (value: nat, size: nat)
      requires Valid()
      modifies this`head, this`data
      ensures size <= old(data)
      ensures Valid() && Contents() == old(Contents())[size..]
      ensures Varint.Decode(old(Contents())) == if size == 0 then None else Some((value, size))
    {
      value, size := PeekVarint(0);
      assert Contents()[0..] == Contents();
      Delete(size);
    }
  }
}
