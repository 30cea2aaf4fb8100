/** Moving bytes inside a ring, chunk by chunk: what the two loops leave, for any
    arguments, and exactly when it is what was asked for. */
module RingMove {
  import opened Common
  import opened RingSpec

  /** memmove() of a contiguous range. */
  function Chunk<T>(a: seq<T>, to: nat, from: nat, cnt: nat): (r: seq<T>)
    requires to + cnt <= |a| && from + cnt <= |a|
    ensures |r| == |a|
  {
    seq(|a|, p requires 0 <= p < |a| => if to <= p < to + cnt then a[from + p - to] else a[p])
  }

  function Min(x: nat, y: nat): (m: nat) {
    if x <= y then x else y
  }

  /** The left-to-right loop. Its first chunk is empty when the source starts at
      the end of the area. */
  function RightLoop<T>(a: seq<T>, src: nat, dst: nat, len: nat): (r: seq<T>)
    requires src <= |a| && dst < |a| && len <= |a|
    ensures |r| == |a|
    decreases len, src
  {
    if len == 0 then a
    else
      var cnt := Min(Min(len, |a| - src), |a| - dst);
      RightLoop(Chunk(a, dst, src, cnt), Wrap(src + cnt, |a|), Wrap(dst + cnt, |a|), len - cnt)
  }

  /** The end of a range, brought back once. */
  function EndOf(start: nat, len: nat, n: nat): (e: nat) {
    if start + len > n then start + len - n else start + len
  }

  /** The right-to-left loop. Nothing comes out when it goes past the area. */
  function LeftLoop<T>(a: seq<T>, src: nat, dst: nat, len: nat): (r: Option<seq<T>>)
    ensures r.Some? ==> |r.value| == |a|
    decreases len
  {
    if len == 0 then Some(a)
    else
      var srcEnd, dstEnd := EndOf(src, len, |a|), EndOf(dst, len, |a|);
      var cnt := Min(Min(len, dstEnd), srcEnd);
      if srcEnd > |a| || dstEnd > |a| then None
      else LeftLoop(Chunk(a, dstEnd - cnt, srcEnd - cnt, cnt), src, dst, len - cnt)
  }

  lemma RightStep<T>(a: seq<T>, src: nat, dst: nat, len: nat)
    requires src <= |a| && dst < |a| && 0 < len <= |a|
    ensures var cnt := Min(Min(len, |a| - src), |a| - dst);
            RightLoop(a, src, dst, len)
            == RightLoop(Chunk(a, dst, src, cnt), Wrap(src + cnt, |a|), Wrap(dst + cnt, |a|), len - cnt)
  {
    hide Chunk;
  }

  lemma LeftStep<T>(a: seq<T>, src: nat, dst: nat, len: nat)
    requires 0 < len && EndOf(src, len, |a|) <= |a| && EndOf(dst, len, |a|) <= |a|
    ensures var srcEnd, dstEnd := EndOf(src, len, |a|), EndOf(dst, len, |a|);
            var cnt := Min(Min(len, dstEnd), srcEnd);
            && 0 < cnt
            && LeftLoop(a, src, dst, len) == LeftLoop(Chunk(a, dstEnd - cnt, srcEnd - cnt, cnt), src, dst, len - cnt)
  {
    hide Chunk;
  }

  lemma StaysInside<T>(a: seq<T>, src: nat, dst: nat, len: nat)
    requires 0 < len && LeftLoop(a, src, dst, len).Some?
    ensures var srcEnd, dstEnd := EndOf(src, len, |a|), EndOf(dst, len, |a|);
            var cnt := Min(Min(len, dstEnd), srcEnd);
            && srcEnd <= |a| && dstEnd <= |a| && 0 < cnt
            && LeftLoop(a, src, dst, len) == LeftLoop(Chunk(a, dstEnd - cnt, srcEnd - cnt, cnt), src, dst, len - cnt)
  {
    hide Chunk;
  }

  lemma NothingToMove<T>(a: seq<T>, src: nat, dst: nat)
    ensures LeftLoop(a, src, dst, 0) == Some(a)
    ensures src <= |a| && dst < |a| ==> RightLoop(a, src, dst, 0) == a
  {
  }

  predicate Arguments(n: nat, src: nat, len: nat, shift: int) {
    src <= n && len <= n && shift < n && 0 < n + shift
  }

  /** What a move leaves of the area. */
  function Outcome<T>(a: seq<T>, src: nat, len: nat, shift: int): (r: Option<seq<T>>)
    requires Arguments(|a|, src, len, shift)
  {
    if shift < 0 then Some(RightLoop(a, src, Shifted(src, shift, |a|), len))
    else if shift > 0 then LeftLoop(a, src, src + shift, len)
    else Some(a)
  }

  /** The bytes and the shift fit in the area together, or neither range wraps. */
  predicate Movable(n: nat, src: nat, len: nat, shift: int)
    requires Arguments(n, src, len, shift)
  {
    || shift == 0
    || len + (if shift < 0 then -shift else shift) <= n
    || (Wrap(src, n) + len <= n && Shifted(src, shift, n) + len <= n)
  }

  // It is enough.

  lemma ChunkCopies<T>(a: seq<T>, to: nat, from: nat, cnt: nat)
    requires to + cnt <= |a| && from + cnt <= |a|
    ensures Copied(a, Chunk(a, to, from, cnt), to, from, cnt)
  {
  }

  lemma {:induction false} RightLoopMoves<T>(a: seq<T>, now: seq<T>, src0: nat, dst0: nat, len0: nat, done: nat,
                                             src: nat, dst: nat, s: nat)
    requires src0 <= |a| && 0 < s && len0 + s <= |a| && done <= len0 && src <= |a|
    requires dst0 == if src0 >= s then src0 - s else src0 + |a| - s
    requires src == Wrap(src0 + done, |a|) || (src == src0 == |a| && done == 0)
    requires dst == Wrap(dst0 + done, |a|)
    requires now == Moved(a, src0, dst0, 0, done)
    ensures RightLoop(now, src, dst, len0 - done) == Moved(a, src0, dst0, 0, len0)
    decreases len0 - done, src
  {
    hide Moved, Chunk, RightLoop;
    NothingToMove(now, src, dst);
    if done < len0 {
      RightStep(now, src, dst, len0 - done);
      var cnt := Min(Min(len0 - done, |a| - src), |a| - dst);
      var next := Chunk(now, dst, src, cnt);
      ChunkCopies(now, dst, src, cnt);
      MoveChunkRightward(a, now, next, src0, dst0, done, cnt, src, dst, s);
      RightLoopMoves(a, next, src0, dst0, len0, done + cnt, Wrap(src + cnt, |a|), Wrap(dst + cnt, |a|), s);
    }
  }

  lemma {:induction false} LeftLoopMoves<T>(a: seq<T>, now: seq<T>, src: nat, len0: nat, left: nat, s: nat)
    requires src <= |a| && 0 < s && len0 + s <= |a| && left <= len0 && s < |a|
    requires now == Moved(a, src, Wrap(src + s, |a|), left, len0)
    ensures LeftLoop(now, src, src + s, left) == Some(Moved(a, src, Wrap(src + s, |a|), 0, len0))
    decreases left
  {
    hide Moved, Chunk, LeftLoop;
    NothingToMove(now, src, src + s);
    if left > 0 {
      LeftStep(now, src, src + s, left);
      var srcEnd, dstEnd := EndOf(src, left, |a|), EndOf(src + s, left, |a|);
      var cnt := Min(Min(left, dstEnd), srcEnd);
      var next := Chunk(now, dstEnd - cnt, srcEnd - cnt, cnt);
      ChunkCopies(now, dstEnd - cnt, srcEnd - cnt, cnt);
      MoveChunkLeftward(a, now, next, src, Wrap(src + s, |a|), left, len0, cnt, srcEnd - cnt, dstEnd - cnt, s);
      LeftLoopMoves(a, next, src, len0, left - cnt, s);
    }
  }

  /** A move of which neither range wraps is a single memmove(). */
  lemma SingleChunk<T>(a: seq<T>, src: nat, len: nat, shift: int)
    requires Arguments(|a|, src, len, shift) && shift != 0 && 0 < len
    requires Wrap(src, |a|) + len <= |a| && Shifted(src, shift, |a|) + len <= |a|
    ensures Outcome(a, src, len, shift) == Some(Chunk(a, Shifted(src, shift, |a|), Wrap(src, |a|), len))
  {
    var dst := Shifted(src, shift, |a|);
    var moved := Chunk(a, dst, Wrap(src, |a|), len);
    if shift < 0 {
      FromStart(a, dst, len);
      assert RightLoop(a, Wrap(src, |a|), dst, len) == moved;
    } else {
      assert EndOf(src, len, |a|) == Wrap(src, |a|) + len && EndOf(src + shift, len, |a|) == dst + len;
      assert LeftLoop(moved, src, src + shift, 0) == Some(moved);
    }
  }

  lemma ChunkIsMoved<T>(a: seq<T>, src: nat, dst: nat, len: nat)
    requires src <= |a| && dst < |a| && Wrap(src, |a|) + len <= |a| && dst + len <= |a|
    ensures Chunk(a, dst, Wrap(src, |a|), len) == Moved(a, src, dst, 0, len)
  {
  }

  lemma MovableMoves<T>(a: seq<T>, src: nat, len: nat, shift: int)
    requires Arguments(|a|, src, len, shift) && Movable(|a|, src, len, shift)
    ensures Outcome(a, src, len, shift) == Some(Moved(a, src, Shifted(src, shift, |a|), 0, len))
  {
    hide Moved, Chunk, RightLoop, LeftLoop;
    var dst := Shifted(src, shift, |a|);
    MovedNothing(a, src, dst, 0);
    MovedNothing(a, src, dst, len);
    if shift == 0 {
      MovedByZero(a, src, len);
    } else if len + (if shift < 0 then -shift else shift) <= |a| {
      if shift < 0 {
        RightLoopMoves(a, a, src, dst, len, 0, src, dst, -shift);
      } else {
        LeftLoopMoves(a, a, src, len, len, shift);
      }
    } else {
      SingleChunk(a, src, len, shift);
      ChunkIsMoved(a, src, dst, len);
    }
  }

  // It is needed.

  /** A ring that holds zeros, and maybe a one. */
  function Zeros(n: nat): (z: seq<Byte>)
    ensures |z| == n
  {
    seq(n, i => 0)
  }

  function OneAt(n: nat, p: nat): (r: seq<Byte>)
    requires p < n
    ensures |r| == n
  {
    Zeros(n)[p := 1]
  }

  lemma ZerosChunk(n: nat, to: nat, from: nat, cnt: nat)
    requires to + cnt <= n && from + cnt <= n
    ensures Chunk(Zeros(n), to, from, cnt) == Zeros(n)
  {
  }

  lemma {:induction false} ZerosStayRight(n: nat, src: nat, dst: nat, len: nat)
    requires src <= n && dst < n && len <= n
    ensures RightLoop(Zeros(n), src, dst, len) == Zeros(n)
    decreases len, src
  {
    hide Chunk, Zeros, RightLoop;
    NothingToMove(Zeros(n), src, dst);
    if len > 0 {
      var cnt := Min(Min(len, n - src), n - dst);
      ZerosChunk(n, dst, src, cnt);
      RightStep(Zeros(n), src, dst, len);
      ZerosStayRight(n, Wrap(src + cnt, n), Wrap(dst + cnt, n), len - cnt);
    }
  }

  lemma {:induction false} ZerosStayLeft(n: nat, src: nat, dst: nat, len: nat)
    ensures LeftLoop(Zeros(n), src, dst, len) == None || LeftLoop(Zeros(n), src, dst, len) == Some(Zeros(n))
    decreases len
  {
    var srcEnd, dstEnd := EndOf(src, len, n), EndOf(dst, len, n);
    if len > 0 && srcEnd <= n && dstEnd <= n {
      var cnt := Min(Min(len, dstEnd), srcEnd);
      ZerosChunk(n, dstEnd - cnt, srcEnd - cnt, cnt);
      hide Chunk, Zeros;
      ZerosStayLeft(n, src, dst, len - cnt);
    }
  }

  /** A chunk that overwrites the one and does not read it leaves only zeros. */
  lemma OneLost(n: nat, p: nat, to: nat, from: nat, cnt: nat)
    requires p < n && to + cnt <= n && from + cnt <= n && to <= p < to + cnt && !(from <= p < from + cnt)
    ensures Chunk(OneAt(n, p), to, from, cnt) == Zeros(n)
  {
  }

  /** The byte number `j` of the source must end up in the destination. */
  lemma OneWanted(n: nat, src: nat, dst: nat, len: nat, j: nat)
    requires src <= n && dst < n && j < len <= n
    ensures Moved(OneAt(n, Wrap(src + j, n)), src, dst, 0, len) != Zeros(n)
  {
    var r := Moved(OneAt(n, Wrap(src + j, n)), src, dst, 0, len);
    var q := Wrap(dst + j, n);
    assert Dist(dst, q, n) == j;
    assert r[q] == 1;
  }

  /** Where the first chunk goes and a byte of the source, number `j`, that it
      overwrites and that comes later. */
  lemma LostToTheLeft(n: nat, src: nat, len: nat, shift: int) returns (cnt: nat, j: nat)
    requires Arguments(n, src, len, shift) && shift < 0 && !Movable(n, src, len, shift)
    ensures var from, to, p := Wrap(src, n), Shifted(src, shift, n), Wrap(src + j, n);
            && cnt == Min(Min(len, n - from), n - to) && 0 < cnt < len && j < len
            && to <= p < to + cnt && !(from <= p < from + cnt)
  {
    var from, to := Wrap(src, n), Shifted(src, shift, n);
    cnt := Min(Min(len, n - from), n - to);
    j := Min(cnt - 1, len - 1 - (n + shift)) + n + shift;
  }

  lemma LostToTheRight(n: nat, src: nat, len: nat, shift: int) returns (cnt: nat, j: nat)
    requires Arguments(n, src, len, shift) && shift > 0 && !Movable(n, src, len, shift)
    requires EndOf(src + shift, len, n) <= n
    ensures var srcEnd, dstEnd, p := EndOf(src, len, n), EndOf(src + shift, len, n), Wrap(src + j, n);
            && cnt == Min(Min(len, dstEnd), srcEnd) && 0 < cnt < len && srcEnd <= n && j < len
            && dstEnd - cnt <= p < dstEnd && !(srcEnd - cnt <= p < srcEnd)
  {
    cnt := Min(Min(len, EndOf(src + shift, len, n)), EndOf(src, len, n));
    j := if len - cnt >= n - shift then len - cnt - (n - shift) else 0;
  }

  /** The left-to-right loop starts over from the start of the area. */
  lemma FromStart<T>(a: seq<T>, dst: nat, len: nat)
    requires dst < |a| && len <= |a|
    ensures RightLoop(a, |a|, dst, len) == RightLoop(a, 0, dst, len)
  {
    assert Chunk(a, dst, |a|, 0) == a;
  }

  /** Some content for which a move to the left goes wrong. */
  lemma RightLoopFails(n: nat, src: nat, len: nat, shift: int) returns (a: seq<Byte>)
    requires Arguments(n, src, len, shift) && shift < 0 && !Movable(n, src, len, shift)
    ensures |a| == n && Outcome(a, src, len, shift) != Some(Moved(a, src, Shifted(src, shift, n), 0, len))
  {
    hide Moved, OneAt, Zeros, Chunk, RightLoop, Movable;
    var dst, from := Shifted(src, shift, n), Wrap(src, n);
    var cnt, j := LostToTheLeft(n, src, len, shift);
    a := OneAt(n, Wrap(src + j, n));
    OneLost(n, Wrap(src + j, n), dst, from, cnt);
    ZerosStayRight(n, Wrap(from + cnt, n), Wrap(dst + cnt, n), len - cnt);
    OneWanted(n, src, dst, len, j);
    FromStart(a, dst, len);
    RightStep(a, from, dst, len);
  }

  /** The same of a move to the right, which may also go past the area. */
  lemma LeftLoopFails(n: nat, src: nat, len: nat, shift: int) returns (a: seq<Byte>)
    requires Arguments(n, src, len, shift) && shift > 0 && !Movable(n, src, len, shift)
    ensures |a| == n && LeftLoop(a, src, src + shift, len) != Some(Moved(a, src, Shifted(src, shift, n), 0, len))
  {
    if EndOf(src + shift, len, n) > n {
      LeftOut(n, src, len, shift);
      hide Moved, Zeros, LeftLoop;
      a := Zeros(n);
    } else {
      hide LeftLoop, Moved;
      var cnt, j := LostToTheRight(n, src, len, shift);
      a := OneAt(n, Wrap(src + j, n));
      LostAtOnce(n, src, len, shift, cnt, j);
    }
  }

  lemma LostAtOnce(n: nat, src: nat, len: nat, shift: int, cnt: nat, j: nat)
    requires Arguments(n, src, len, shift) && shift > 0 && 0 < cnt < len && j < len
    requires var srcEnd, dstEnd, p := EndOf(src, len, n), EndOf(src + shift, len, n), Wrap(src + j, n);
             && cnt == Min(Min(len, dstEnd), srcEnd) && srcEnd <= n && dstEnd <= n && p < n
             && dstEnd - cnt <= p < dstEnd && !(srcEnd - cnt <= p < srcEnd)
    ensures LeftLoop(OneAt(n, Wrap(src + j, n)), src, src + shift, len)
            != Some(Moved(OneAt(n, Wrap(src + j, n)), src, Shifted(src, shift, n), 0, len))
  {
    hide Moved, OneAt, Zeros, Chunk, LeftLoop;
    var a, srcEnd, dstEnd := OneAt(n, Wrap(src + j, n)), EndOf(src, len, n), EndOf(src + shift, len, n);
    var dst := Shifted(src, shift, n);
    OneLost(n, Wrap(src + j, n), dstEnd - cnt, srcEnd - cnt, cnt);
    LeftStep(a, src, src + shift, len);
    ZerosStayLeft(n, src, src + shift, len - cnt);
    OneWanted(n, src, dst, len, j);
  }

  lemma LeftOut(n: nat, src: nat, len: nat, shift: int)
    requires Arguments(n, src, len, shift) && shift > 0 && !Movable(n, src, len, shift)
    ensures EndOf(src + shift, len, n) > n ==> LeftLoop(Zeros(n), src, src + shift, len).None?
  {
    hide Zeros, Chunk;
  }

  /** The loops do what is asked for, whatever the content, if and only if the
      bytes and the shift fit in the area together or neither range wraps. */
  lemma MovesExactlyWhen(n: nat, src: nat, len: nat, shift: int)
    requires Arguments(n, src, len, shift)
    ensures (forall a: seq<Byte> | |a| == n ::
               Outcome(a, src, len, shift) == Some(Moved(a, src, Shifted(src, shift, n), 0, len)))
            <==> Movable(n, src, len, shift)
  {
    if Movable(n, src, len, shift) {
      forall a: seq<Byte> | |a| == n
        ensures Outcome(a, src, len, shift) == Some(Moved(a, src, Shifted(src, shift, n), 0, len))
      {
        MovableMoves(a, src, len, shift);
      }
    } else if shift < 0 {
      var a := RightLoopFails(n, src, len, shift);
    } else {
      var a := LeftLoopFails(n, src, len, shift);
    }
  }

  /** Two bytes and a shift by one, within the documented bound. */
  lemma TwoBytesLost(x: Byte, y: Byte)
    ensures Outcome([x, y], 0, 2, -1) == Some([x, x]) && Moved([x, y], 0, Shifted(0, -1, 2), 0, 2) == [y, x]
  {
    assert Chunk([x, y], 1, 0, 1) == [x, x] && Chunk([x, x], 0, 1, 1) == [x, x];
    assert RightLoop([x, x], 1, 0, 1) == [x, x];
  }
}
