/** Byte rings as values: the storage area is a sequence, the logical content
    starts at an offset and may wrap around the end of the area. */
module RingSpec {

  newtype Byte = x: int | 0 <= x < 256

  /** An offset that may exceed the area's size once, brought back inside. */
  function Wrap(p: int, n: int): int {
    if p >= n then p - n else p
  }

  /** How far to walk rightwards, wrapping, from offset `from` to offset `to`. */
  function Dist(from: int, to: int, n: int): int {
    if to >= from then to - from else to - from + n
  }

  /** The logical content of a ring. */
  function Content<T>(a: seq<T>, head: nat, data: nat): (c: seq<T>)
    requires head <= |a| && data <= |a|
    ensures |c| == data
  {
    seq(data, i requires 0 <= i < data => a[Wrap(head + i, |a|)])
  }

  lemma ContentIndex<T>(a: seq<T>, head: nat, data: nat)
    requires head <= |a| && data <= |a|
    ensures forall i {:trigger Content(a, head, data)[i]} | 0 <= i < data ::
              Content(a, head, data)[i] == a[Wrap(head + i, |a|)]
  {
  }

  /** The area once the bytes numbered `lo` to `hi` of the source range, which
      starts at `src`, have all been copied at once to the range that starts
      at `dst`. Both ranges may wrap and they may overlap. */
  function Moved<T>(a: seq<T>, src: nat, dst: nat, lo: nat, hi: nat): (r: seq<T>)
    requires src <= |a| && dst < |a| && lo <= hi <= |a|
    ensures |r| == |a|
  {
    seq(|a|, p requires 0 <= p < |a| =>
      if lo <= Dist(dst, p, |a|) < hi then a[Wrap(src + Dist(dst, p, |a|), |a|)] else a[p])
  }

  /** Where a range found at `src` starts once shifted by `shift`. */
  function Shifted(src: nat, shift: int, n: nat): (d: nat)
    requires src <= n && shift < n && 0 < n + shift
    ensures d < n
  {
    if src + shift < 0 then src + shift + n else Wrap(src + shift, n)
  }

  lemma MovedByZero<T>(a: seq<T>, src: nat, len: nat)
    requires 0 < |a| && src <= |a| && len <= |a|
    ensures Moved(a, src, Shifted(src, 0, |a|), 0, len) == a
  {
    var r := Moved(a, src, Shifted(src, 0, |a|), 0, len);
    assert forall p | 0 <= p < |a| :: r[p] == a[p];
  }

  lemma MovedNothing<T>(a: seq<T>, src: nat, dst: nat, at: nat)
    requires src <= |a| && dst < |a| && at <= |a|
    ensures Moved(a, src, dst, at, at) == a
  {
    var r := Moved(a, src, dst, at, at);
    assert forall p | 0 <= p < |a| :: r[p] == a[p];
  }

  /** The area once `blk` has been written from offset `at`, wrapping. */
  function Written<T>(a: seq<T>, at: nat, blk: seq<T>): (r: seq<T>)
    requires at < |a| && |blk| <= |a|
    ensures |r| == |a|
  {
    seq(|a|, p requires 0 <= p < |a| =>
      if Dist(at, p, |a|) < |blk| then blk[Dist(at, p, |a|)] else a[p])
  }

  /** The area once `cnt` contiguous bytes have been moved from `from` to `to`. */
  ghost predicate Copied<T>(a: seq<T>, r: seq<T>, to: nat, from: nat, cnt: nat)
    requires to + cnt <= |a| && from + cnt <= |a|
  {
    && |r| == |a|
    && forall p {:trigger r[p]} | 0 <= p < |a| :: r[p] == if to <= p < to + cnt then a[from + p - to] else a[p]
  }

  /** A left-to-right move goes on with the next contiguous chunk. */
  lemma MoveChunkRightward<T>(a: seq<T>, now: seq<T>, next: seq<T>, src0: nat, dst0: nat, done: nat, cnt: nat,
                              from: nat, to: nat, s: nat)
    requires src0 <= |a| && dst0 < |a| && 0 < s && done + cnt + s <= |a|
    requires dst0 == (if src0 >= s then src0 - s else src0 + |a| - s)
    requires from + cnt <= |a| && to + cnt <= |a|
    requires cnt > 0 ==> from == Wrap(src0 + done, |a|) && to == Wrap(dst0 + done, |a|)
    requires now == Moved(a, src0, dst0, 0, done)
    requires Copied(now, next, to, from, cnt)
    ensures next == Moved(a, src0, dst0, 0, done + cnt)
  {
    var want := Moved(a, src0, dst0, 0, done + cnt);
    forall p | 0 <= p < |a|
      ensures next[p] == want[p]
    {
      if cnt > 0 && to <= p < to + cnt {
        var q := from + p - to;
        assert Dist(dst0, p, |a|) == done + (p - to);
        assert Dist(dst0, q, |a|) == done + (p - to) + s;
        assert q == Wrap(src0 + Dist(dst0, p, |a|), |a|);
        assert now[q] == a[q];
      } else {
        assert !(done <= Dist(dst0, p, |a|) < done + cnt);
      }
    }
  }

  /** A right-to-left move goes on with the next contiguous chunk. */
  lemma MoveChunkLeftward<T>(a: seq<T>, now: seq<T>, next: seq<T>, src0: nat, dst0: nat, left: nat, len: nat, cnt: nat,
                             from: nat, to: nat, s: nat)
    requires src0 <= |a| && dst0 < |a| && 0 < s && len + s <= |a|
    requires cnt <= left <= len
    requires dst0 == Wrap(src0 + s, |a|)
    requires from + cnt <= |a| && to + cnt <= |a|
    requires cnt > 0 ==> from == Wrap(src0 + left - cnt, |a|) && to == Wrap(dst0 + left - cnt, |a|)
    requires now == Moved(a, src0, dst0, left, len)
    requires Copied(now, next, to, from, cnt)
    ensures next == Moved(a, src0, dst0, left - cnt, len)
  {
    var want := Moved(a, src0, dst0, left - cnt, len);
    forall p | 0 <= p < |a|
      ensures next[p] == want[p]
    {
      if cnt > 0 && to <= p < to + cnt {
        var q := from + p - to;
        assert Dist(dst0, p, |a|) == left - cnt + (p - to);
        assert q == Wrap(src0 + Dist(dst0, p, |a|), |a|);
        assert now[q] == a[q];
      } else {
        assert !(left - cnt <= Dist(dst0, p, |a|) < left);
      }
    }
  }

  /** Growing a ring: shift what follows the replaced part rightwards, then
      write the block over it. */
  lemma GrowContent<T>(a: seq<T>, head: nat, data: nat, i: nat, j: nat, blk: seq<T>, pos: nat, end: nat, dst: nat)
    requires head < |a| && data <= |a| && i <= j <= data
    requires j - i <= |blk| && data + |blk| - (j - i) <= |a|
    requires pos == Wrap(head + i, |a|) && end == pos + j - i <= |a|
    requires j < data ==> dst == Wrap(pos + |blk|, |a|)
    requires dst < |a|
    ensures |blk| <= |a|
    ensures Content(Written(Moved(a, end, dst, 0, data - j), pos, blk), head, data + |blk| - (j - i))
         == Content(a, head, data)[..i] + blk + Content(a, head, data)[j..]
  {
    var area := Written(Moved(a, end, dst, 0, data - j), pos, blk);
    var c := Content(a, head, data);
    ContentIndex(area, head, data + |blk| - (j - i));
    ContentIndex(a, head, data);
    hide Content, Moved, Written;
    forall k | 0 <= k < i + |blk| + (data - j)
      ensures area[Wrap(head + k, |a|)] == (c[..i] + blk + c[j..])[k]
    {
      GrowAt(a, head, data, i, j, blk, pos, end, dst, k);
    }
  }

  lemma GrowAt<T>(a: seq<T>, head: nat, data: nat, i: nat, j: nat, blk: seq<T>, pos: nat, end: nat, dst: nat, k: nat)
    requires head < |a| && data <= |a| && i <= j <= data
    requires j - i <= |blk| && data + |blk| - (j - i) <= |a|
    requires pos == Wrap(head + i, |a|) && end == pos + j - i <= |a|
    requires j < data ==> dst == Wrap(pos + |blk|, |a|)
    requires dst < |a| && k < data + |blk| - (j - i)
    ensures Written(Moved(a, end, dst, 0, data - j), pos, blk)[Wrap(head + k, |a|)]
         == if k < i then a[Wrap(head + k, |a|)]
            else if k < i + |blk| then blk[k - i]
            else a[Wrap(head + (k - |blk| + (j - i)), |a|)]
  {
    var n := |a|;
    var p := Wrap(head + k, n);
    if k < i {
      assert Dist(pos, p, n) == k - i + n;
    } else {
      assert Dist(pos, p, n) == k - i;
      if k >= i + |blk| {
        assert Dist(dst, p, n) == k - i - |blk|;
      }
    }
  }

  /** Shrinking a ring: write the block, then shift what followed the replaced
      part leftwards over the hole. */
  lemma ShrinkContent<T>(a: seq<T>, head: nat, data: nat, i: nat, j: nat, blk: seq<T>, pos: nat, end: nat, dst: nat)
    requires head < |a| && data <= |a| && i <= j <= data
    requires |blk| <= j - i
    requires pos == Wrap(head + i, |a|) && end == pos + j - i <= |a|
    requires j < data ==> dst == Wrap(pos + |blk|, |a|)
    requires dst < |a|
    ensures Content(Moved(Written(a, pos, blk), end, dst, 0, data - j), head, data + |blk| - (j - i))
         == Content(a, head, data)[..i] + blk + Content(a, head, data)[j..]
  {
    var area := Moved(Written(a, pos, blk), end, dst, 0, data - j);
    var c := Content(a, head, data);
    ContentIndex(area, head, data + |blk| - (j - i));
    ContentIndex(a, head, data);
    hide Content, Moved, Written;
    forall k | 0 <= k < i + |blk| + (data - j)
      ensures area[Wrap(head + k, |a|)] == (c[..i] + blk + c[j..])[k]
    {
      ShrinkAt(a, head, data, i, j, blk, pos, end, dst, k);
    }
  }

  lemma ShrinkAt<T>(a: seq<T>, head: nat, data: nat, i: nat, j: nat, blk: seq<T>, pos: nat, end: nat, dst: nat, k: nat)
    requires head < |a| && data <= |a| && i <= j <= data
    requires |blk| <= j - i
    requires pos == Wrap(head + i, |a|) && end == pos + j - i <= |a|
    requires j < data ==> dst == Wrap(pos + |blk|, |a|)
    requires dst < |a| && k < data + |blk| - (j - i)
    ensures Moved(Written(a, pos, blk), end, dst, 0, data - j)[Wrap(head + k, |a|)]
         == if k < i then a[Wrap(head + k, |a|)]
            else if k < i + |blk| then blk[k - i]
            else a[Wrap(head + (k - |blk| + (j - i)), |a|)]
  {
    var n := |a|;
    var p := Wrap(head + k, n);
    if k < i + |blk| {
      assert Dist(pos, p, n) == if k < i then k - i + n else k - i;
      assert j < data ==> Dist(dst, p, n) == k - i - |blk| + n;
    } else {
      var q := Wrap(end + (k - i - |blk|), n);
      assert Dist(dst, p, n) == k - i - |blk|;
      assert q == Wrap(head + (k - |blk| + (j - i)), n);
      assert Dist(pos, q, n) >= |blk|;
    }
  }

  /** The amount of data that follows the replaced part, computed from the
      tail's offset, which may be on either side of `end`. */
  lemma DataAfter(head: nat, data: nat, i: nat, pos: nat, end: nat, n: nat)
    requires head < n && data <= n && pos == Wrap(head + i, n) && pos <= end <= n
    requires i + (end - pos) <= data
    requires data < n || pos < end
    ensures var tail := Wrap(head + data, n);
            (if tail < end then n - (end - tail) else tail - end) == data - i - (end - pos)
  {
  }

  /** Writing a block at the tail appends it. */
  lemma AppendContent<T>(a: seq<T>, head: nat, data: nat, blk: seq<T>)
    requires head < |a| && data + |blk| <= |a|
    requires Wrap(head + data, |a|) < |a|
    ensures Content(Written(a, Wrap(head + data, |a|), blk), head, data + |blk|) == Content(a, head, data) + blk
  {
    var pos := Wrap(head + data, |a|);
    MovedNothing(a, pos, 0, 0);
    GrowContent(a, head, data, data, data, blk, pos, pos, 0);
  }

  /** Skipping bytes at the head drops them. */
  lemma SkipContent<T>(a: seq<T>, head: nat, data: nat, del: nat)
    requires head < |a| && del <= data <= |a|
    ensures Wrap(head + del, |a|) < |a|
    ensures Content(a, Wrap(head + del, |a|), data - del) == Content(a, head, data)[del..]
  {
    ContentIndex(a, head, data);
    ContentIndex(a, Wrap(head + del, |a|), data - del);
  }

  /** A shorter ring holds a prefix of the content. */
  lemma PrefixContent<T>(a: seq<T>, head: nat, data: nat, n: nat)
    requires head <= |a| && n <= data <= |a|
    ensures Content(a, head, n) == Content(a, head, data)[..n]
  {
    ContentIndex(a, head, data);
    ContentIndex(a, head, n);
  }

  /** The end of the content, in two parts when it wraps. */
  lemma TailInParts<T>(a: seq<T>, head: nat, data: nat, from: nat, at: nat, block1: nat, block2: nat)
    requires head <= |a| && from <= data <= |a| && block1 + block2 == data - from
    requires at == Wrap(head + from, |a|) && at + block1 <= |a| && (block2 > 0 ==> at + block1 == |a|)
    requires head < |a| || data == 0
    ensures Content(a, head, data)[from..] == a[at..at + block1] + a[..block2]
  {
    ContentIndex(a, head, data);
    var c, r := Content(a, head, data)[from..], a[at..at + block1] + a[..block2];
    forall i | 0 <= i < data - from
      ensures c[i] == r[i]
    {
      assert c[i] == Content(a, head, data)[from + i];
    }
  }

  lemma SliceKept<T>(was: seq<T>, now: seq<T>, from: nat, lo: nat, hi: nat)
    requires |was| == |now| && from <= lo <= hi <= |now| && was[from..] == now[from..]
    ensures was[lo..hi] == now[lo..hi]
  {
    forall i | lo <= i < hi
      ensures was[i] == now[i]
    {
      assert was[i] == was[from..][i - from] == now[from..][i - from];
    }
  }
}
