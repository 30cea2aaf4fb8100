/** Block accounting of the cache: rows of blocks, one per entry, listed from
    the oldest to the latest used on the list of full entries or on the one of
    entries stripped down to their early hints. */
module CacheLru {
  import opened Common

  /** A row: the data it holds, the room reserved for more and not filled yet,
      the blocks it takes, its users, and the entry's place in the index and
      flags. */
  datatype Row = Row(len: nat, reserved: nat, blocks: nat, refcount: nat, indexed: bool, complete: bool,
                     stripped: bool)

  type Rows = map<nat, Row>

  // Lists without duplicates.

  ghost predicate Distinct(s: seq<nat>) {
    forall i, j | 0 <= i < j < |s| :: s[i] != s[j]
  }

  function Without(s: seq<nat>, id: nat): (r: seq<nat>)
    ensures forall x :: x in r <==> x in s && x != id
    ensures id !in s ==> r == s
  {
    if s == [] then []
    else if s[|s| - 1] == id then Without(s[..|s| - 1], id)
    else Without(s[..|s| - 1], id) + [s[|s| - 1]]
  }

  lemma {:induction false} WithoutDistinct(s: seq<nat>, id: nat)
    requires Distinct(s)
    ensures Distinct(Without(s, id))
  {
    if s != [] {
      var init := s[..|s| - 1];
      WithoutDistinct(init, id);
      assert s[|s| - 1] !in init;
      assert forall i | 0 <= i < |Without(init, id)| :: Without(init, id)[i] in Without(init, id);
    }
  }

  /** The blocks taken by the rows of a list. */
  function Blocks(s: seq<nat>, rows: Rows): (n: nat)
    requires forall x | x in s :: x in rows
  {
    if s == [] then 0 else Blocks(s[..|s| - 1], rows) + rows[s[|s| - 1]].blocks
  }

  lemma {:induction false} BlocksWithout(s: seq<nat>, rows: Rows, id: nat)
    requires Distinct(s) && forall x | x in s :: x in rows
    ensures Blocks(Without(s, id), rows) == Blocks(s, rows) - (if id in s then rows[id].blocks else 0)
  {
    if s != [] {
      var init, last := s[..|s| - 1], s[|s| - 1];
      BlocksWithout(init, rows, id);
      assert last !in init;
      if last != id {
        assert Without(s, id) == Without(init, id) + [last];
        BlocksAppend(Without(init, id), rows, last);
      }
    }
  }

  /** Only the rows of the list matter. */
  lemma {:induction false} BlocksFrame(s: seq<nat>, rows: Rows, rows': Rows)
    requires forall x | x in s :: x in rows && x in rows' && rows[x].blocks == rows'[x].blocks
    ensures Blocks(s, rows) == Blocks(s, rows')
  {
    if s != [] {
      BlocksFrame(s[..|s| - 1], rows, rows');
    }
  }

  lemma BlocksAppend(s: seq<nat>, rows: Rows, id: nat)
    requires id in rows && forall x | x in s :: x in rows
    ensures Blocks(s + [id], rows) == Blocks(s, rows) + rows[id].blocks
  {
    assert (s + [id])[..|s|] == s;
  }

  /** The blocks taken by all rows. */
  ghost function Total(rows: Rows): (n: nat) {
    if rows == map[] then 0 else
      var id :| id in rows;
      rows[id].blocks + Total(rows - {id})
  }

  lemma {:induction false} TotalWithout(rows: Rows, id: nat)
    requires id in rows
    ensures Total(rows) == rows[id].blocks + Total(rows - {id})
    decreases |rows|
  {
    var x :| x in rows && Total(rows) == rows[x].blocks + Total(rows - {x});
    if x != id {
      TotalWithout(rows - {x}, id);
      assert rows - {x} - {id} == rows - {id} - {x};
      TotalWithout(rows - {id}, x);
    }
  }

  lemma TotalUpdate(rows: Rows, id: nat, row: Row)
    requires id in rows
    ensures Total(rows[id := row]) == Total(rows) - rows[id].blocks + row.blocks
  {
    TotalWithout(rows, id);
    TotalWithout(rows[id := row], id);
    assert rows[id := row] - {id} == rows - {id};
  }

  lemma BelowMultiple(y: nat, d: nat, k: nat)
    requires 0 < d
    ensures y / d < k ==> y < d * k
  {
    var q := y / d;
    assert y < d * q + d;
    assert q < k ==> d * (q + 1) <= d * k;
  }

  lemma DivMonotone(x: nat, y: nat, d: nat)
    requires 0 < d && x <= y
    ensures x / d <= y / d
  {
    BelowMultiple(y, d, x / d);
    assert d * (x / d) <= x;
  }

  /** Moving a row to the tail of its list, or adding it there. */
  lemma MoveToTail(s: seq<nat>, rows: Rows, id: nat)
    requires Distinct(s) && id in rows && forall x | x in s :: x in rows
    ensures Distinct(Without(s, id) + [id])
    ensures forall x :: x in Without(s, id) + [id] <==> x in s || x == id
    ensures Blocks(Without(s, id) + [id], rows) == Blocks(s, rows) + (if id in s then 0 else rows[id].blocks)
  {
    WithoutDistinct(s, id);
    BlocksWithout(s, rows, id);
    BlocksAppend(Without(s, id), rows, id);
  }

  // The invariant.

  datatype Config = Config(blockSize: nat, entrySize: nat, earlyHints: bool, hintsCap: nat) {
    function Needed(len: nat): (n: nat)
      requires 0 < blockSize
    {
      (len + blockSize - 1) / blockSize
    }
  }

  type Settings = c: Config | 0 < c.blockSize && 0 < c.entrySize witness Config(1, 1, false, 0)

  /** A row without data was abandoned by its writer and keeps its blocks until
      somebody takes them. */
  ghost predicate RowFine(c: Settings, r: Row, inFull: bool, inHints: bool) {
    && 0 < r.blocks && (0 < r.len ==> c.entrySize <= r.len && r.blocks == c.Needed(r.len + r.reserved))
    && (r.complete ==> 0 < r.len && r.reserved == 0)
    && (inHints <==> r.stripped)
    && (inFull <==> c.earlyHints && r.complete && !r.stripped)
    && (r.stripped ==> r.complete && c.earlyHints)
  }

  lemma NeedsBlocks(c: Settings, len: nat)
    requires 0 < len
    ensures 0 < c.Needed(len)
  {
    DivMonotone(c.blockSize, len + c.blockSize - 1, c.blockSize);
  }

  /** Each list holds distinct rows; with early hints enabled, a row is on the
      hints list exactly when it is stripped, and on the full list exactly when
      it is complete and not stripped; the counter is that of the hints list. */
  ghost predicate Good(c: Settings, rows: Rows, full: seq<nat>, hints: seq<nat>, hintsBlocks: int) {
    && Distinct(full) && Distinct(hints)
    && (forall x | x in full :: x in rows)
    && (forall x | x in hints :: x in rows)
    && (forall id | id in rows :: RowFine(c, rows[id], id in full, id in hints))
    && hintsBlocks == Blocks(hints, rows)
  }

  /** A change of one row that leaves the lists alone. */
  lemma GoodRow(c: Settings, rows: Rows, full: seq<nat>, hints: seq<nat>, n: int, id: nat, r: Row)
    requires Good(c, rows, full, hints, n)
    requires RowFine(c, r, id in full, id in hints)
    requires id in hints ==> rows[id].blocks == r.blocks
    ensures Good(c, rows[id := r], full, hints, n)
  {
    BlocksFrame(hints, rows, rows[id := r]);
  }

  /** A row not on the full list yet, or already there, ends up at its tail. */
  lemma GoodFull(c: Settings, rows: Rows, full: seq<nat>, hints: seq<nat>, n: int, id: nat, r: Row)
    requires Good(c, rows, full, hints, n) && id in rows && id !in hints
    requires RowFine(c, r, true, false)
    ensures Good(c, rows[id := r], Without(full, id) + [id], hints, n)
  {
    MoveToTail(full, rows, id);
    BlocksFrame(hints, rows, rows[id := r]);
  }

  /** A row that joins the hints list, from the full list or from none. */
  lemma GoodHints(c: Settings, rows: Rows, full: seq<nat>, hints: seq<nat>, n: int, id: nat, r: Row)
    requires Good(c, rows, full, hints, n) && id in rows && id !in hints
    requires RowFine(c, r, false, true)
    ensures Good(c, rows[id := r], Without(full, id), hints + [id], n + r.blocks)
  {
    WithoutDistinct(full, id);
    BlocksFrame(hints, rows, rows[id := r]);
    BlocksAppend(hints, rows[id := r], id);
  }

  /** A row already on the hints list moves to its tail. */
  lemma GoodRefresh(c: Settings, rows: Rows, full: seq<nat>, hints: seq<nat>, n: int, id: nat)
    requires Good(c, rows, full, hints, n) && id in hints
    ensures Good(c, rows, full, Without(hints, id) + [id], n)
  {
    MoveToTail(hints, rows, id);
  }

  lemma GoodEvict(c: Settings, rows: Rows, full: seq<nat>, hints: seq<nat>, n: int, id: nat)
    requires Good(c, rows, full, hints, n) && id in rows
    ensures Good(c, rows - {id}, Without(full, id), Without(hints, id),
                 n - if rows[id].stripped then rows[id].blocks else 0)
  {
    WithoutDistinct(full, id);
    WithoutDistinct(hints, id);
    BlocksWithout(hints, rows, id);
    BlocksFrame(Without(hints, id), rows, rows - {id});
  }

  // Whose blocks to free.

  /** The oldest entry of a list that nobody uses. */
  function OldestIdle(s: seq<nat>, rows: Rows): (r: Option<nat>)
    requires forall x | x in s :: x in rows
    ensures r.Some? ==> r.value in s && rows[r.value].refcount == 0
    ensures r.None? ==> forall x | x in s :: 0 < rows[x].refcount
    ensures r.Some? ==> exists i | 0 <= i < |s| :: s[i] == r.value && forall j | 0 <= j < i :: 0 < rows[s[j]].refcount
  {
    if s == [] then None
    else if rows[s[0]].refcount == 0 then Some(s[0])
    else
      var r := OldestIdle(s[1..], rows);
      assert r.Some? ==>
        exists i | 0 <= i < |s| :: s[i] == r.value && forall j | 0 <= j < i :: 0 < rows[s[j]].refcount by {
        if r.Some? {
          var i :| 0 <= i < |s[1..]| && s[1..][i] == r.value && forall j | 0 <= j < i :: 0 < rows[s[1..][j]].refcount;
          assert s[i + 1] == r.value;
          assert forall j | 0 <= j < i + 1 :: 0 < rows[s[j]].refcount by {
            forall j | 0 <= j < i + 1
              ensures 0 < rows[s[j]].refcount
            {
              if j > 0 {
                assert s[1..][j - 1] == s[j];
              }
            }
          }
        }
      }
      r
  }

  datatype Plan = Nothing | EvictRow(id: nat) | StripRow(id: nat, len: nat)

  /** At the cap the oldest idle hints entry goes first. Otherwise the oldest
      idle full entry is stripped if it is still indexed, if hints are below
      their cap, and if its hints take fewer blocks; if not it goes. */
  function Victim(c: Settings, rows: Rows, full: seq<nat>, hints: seq<nat>, hintsBlocks: int,
                  hintLens: map<nat, nat>): (p: Plan)
    requires (forall x | x in full :: x in rows) && (forall x | x in hints :: x in rows)
  {
    if hintsBlocks >= c.hintsCap && OldestIdle(hints, rows).Some? then EvictRow(OldestIdle(hints, rows).value)
    else match OldestIdle(full, rows)
      case None => Nothing
      case Some(id) =>
        if && rows[id].indexed && hintsBlocks < c.hintsCap && id in hintLens && 0 < hintLens[id]
           && c.Needed(c.entrySize + hintLens[id]) < rows[id].blocks
        then StripRow(id, c.entrySize + hintLens[id])
        else EvictRow(id)
  }

  lemma CompleteGood(c: Settings, rows: Rows, full: seq<nat>, hints: seq<nat>, n: int, id: nat, r: Row)
    requires Good(c, rows, full, hints, n) && id in rows && 0 < rows[id].refcount
    requires !rows[id].complete && 0 < rows[id].len && rows[id].reserved == 0
    requires r == rows[id].(complete := true, refcount := rows[id].refcount - 1)
    ensures id !in full && id !in hints && !rows[id].stripped
    ensures Good(c, rows[id := r], if c.earlyHints then Without(full, id) + [id] else full, hints, n)
  {
    assert RowFine(c, rows[id], id in full, id in hints);
    if c.earlyHints {
      GoodFull(c, rows, full, hints, n, id, r);
    } else {
      GoodRow(c, rows, full, hints, n, id, r);
    }
  }

  lemma CompleteHintsGood(c: Settings, rows: Rows, full: seq<nat>, hints: seq<nat>, n: int, id: nat, r: Row)
    requires Good(c, rows, full, hints, n) && c.earlyHints && id in rows && 0 < rows[id].refcount
    requires !rows[id].complete && 0 < rows[id].len && rows[id].reserved == 0
    requires r == rows[id].(complete := true, stripped := true, refcount := rows[id].refcount - 1)
    ensures id !in full && id !in hints
    ensures Good(c, rows[id := r], full, hints + [id], n + rows[id].blocks)
  {
    assert RowFine(c, rows[id], id in full, id in hints);
    GoodHints(c, rows, full, hints, n, id, r);
  }

  /** What remains of a row of which only the hints are kept. */
  function Stripped(c: Settings, r: Row, hintLen: nat): (r': Row) {
    r.(len := c.entrySize + hintLen, blocks := c.Needed(c.entrySize + hintLen), stripped := true)
  }

  lemma StripGood(c: Settings, rows: Rows, full: seq<nat>, hints: seq<nat>, n: int, id: nat, hintLen: nat)
    requires Good(c, rows, full, hints, n) && id in full && c.Needed(c.entrySize + hintLen) < rows[id].blocks
    ensures var r := Stripped(c, rows[id], hintLen);
            && r.len < rows[id].len && Good(c, rows[id := r], Without(full, id), hints + [id], n + r.blocks)
            && Total(rows[id := r]) == Total(rows) - rows[id].blocks + r.blocks
  {
    var r := Stripped(c, rows[id], hintLen);
    assert RowFine(c, rows[id], id in full, id in hints);
    NeedsBlocks(c, r.len);
    if rows[id].len <= r.len {
      DivMonotone(rows[id].len + c.blockSize - 1, r.len + c.blockSize - 1, c.blockSize);
    }
    GoodHints(c, rows, full, hints, n, id, r);
    TotalUpdate(rows, id, r);
  }

  class Cache {
    const config: Settings
    var rows: Rows
    var fullLru: seq<nat>
    var hintsLru: seq<nat>
    var hintsBlocks: int

    ghost predicate Valid()
      reads this
    {
      Good(config, rows, fullLru, hintsLru, hintsBlocks)
    }

    constructor (config: Settings)
      ensures Valid() && this.config == config && rows == map[]
    {
      this.config := config;
      rows, fullLru, hintsLru, hintsBlocks := map[], [], [], 0;
    }

    /** Reserves a row for a new entry, in use by its writer. */
    method Reserve(id: nat)
      requires Valid() && id !in rows
      modifies this`rows
      ensures Valid()
      ensures rows == old(rows)[id := Row(config.entrySize, 0, config.Needed(config.entrySize), 1, true, false, false)]
    {
      var r := Row(config.entrySize, 0, config.Needed(config.entrySize), 1, true, false, false);
      NeedsBlocks(config, config.entrySize);
      GoodRow(config, rows, fullLru, hintsLru, hintsBlocks, id, r);
      rows := rows[id := r];
    }

    /** Reserves room for more in a row being written. */
    method ReserveMore(id: nat, n: nat)
      requires Valid() && id in rows && 0 < rows[id].refcount && !rows[id].complete && 0 < rows[id].len
      modifies this`rows
      ensures Valid()
      ensures var r := old(rows)[id];
              rows == old(rows)[id := r.(reserved := r.reserved + n, blocks := config.Needed(r.len + r.reserved + n))]
    {
      assert RowFine(config, rows[id], id in fullLru, id in hintsLru);
      var room := rows[id].reserved + n;
      var r := rows[id].(reserved := room, blocks := config.Needed(rows[id].len + room));
      NeedsBlocks(config, r.len + room);
      GoodRow(config, rows, fullLru, hintsLru, hintsBlocks, id, r);
      rows := rows[id := r];
    }

    /** Fills room that was reserved. */
    method Append(id: nat, n: nat)
      requires Valid() && id in rows && 0 < rows[id].refcount && !rows[id].complete && 0 < rows[id].len
      requires n <= rows[id].reserved
      modifies this`rows
      ensures Valid()
      ensures var r := old(rows)[id];
              rows == old(rows)[id := r.(len := r.len + n, reserved := r.reserved - n)]
    {
      assert RowFine(config, rows[id], id in fullLru, id in hintsLru);
      var r := rows[id].(len := rows[id].len + n, reserved := rows[id].reserved - n);
      assert r.len + r.reserved == rows[id].len + rows[id].reserved;
      GoodRow(config, rows, fullLru, hintsLru, hintsBlocks, id, r);
      rows := rows[id := r];
    }

    /** Takes the row for one more user. */
    method Detach(id: nat)
      requires Valid() && id in rows
      modifies this`rows
      ensures Valid() && rows == old(rows)[id := old(rows)[id].(refcount := old(rows)[id].refcount + 1)]
    {
      var r := rows[id].(refcount := rows[id].refcount + 1);
      GoodRow(config, rows, fullLru, hintsLru, hintsBlocks, id, r);
      rows := rows[id := r];
    }

    /** Removes the entry from the index. Its row stays on its list. */
    method Delete(id: nat)
      requires Valid() && id in rows
      modifies this`rows
      ensures Valid() && rows == old(rows)[id := old(rows)[id].(indexed := false)]
    {
      var r := rows[id].(indexed := false);
      GoodRow(config, rows, fullLru, hintsLru, hintsBlocks, id, r);
      rows := rows[id := r];
    }

    /** Moves the entry to the tail of the list of its kind, if it has to be on
        one, and drops a user. */
    method Reattach(id: nat)
      requires id in rows && 0 < rows[id].refcount
      modifies this`rows, this`fullLru, this`hintsLru
      ensures old(Valid()) ==> Valid()
      ensures rows == old(rows)[id := old(rows)[id].(refcount := old(rows)[id].refcount - 1)]
      ensures
        var listed := config.earlyHints && (id in old(fullLru) || id in old(hintsLru) || old(rows)[id].complete);
        && fullLru == (if listed && !old(rows)[id].stripped then Without(old(fullLru), id) + [id] else old(fullLru))
        && hintsLru == (if listed && old(rows)[id].stripped then Without(old(hintsLru), id) + [id] else old(hintsLru))
    {
      hide Good, RowFine;
      var r := rows[id].(refcount := rows[id].refcount - 1);
      ReattachGood(id, r);
      if config.earlyHints && (id in fullLru || id in hintsLru || r.complete) {
        if r.stripped {
          hintsLru := Without(hintsLru, id) + [id];
        } else {
          fullLru := Without(fullLru, id) + [id];
        }
      }
      rows := rows[id := r];
    }

    lemma ReattachGood(id: nat, r: Row)
      requires id in rows && 0 < rows[id].refcount && r == rows[id].(refcount := rows[id].refcount - 1)
      ensures Valid() ==>
        if config.earlyHints && (id in fullLru || id in hintsLru || r.complete) then
          if r.stripped then Good(config, rows[id := r], fullLru, Without(hintsLru, id) + [id], hintsBlocks)
          else Good(config, rows[id := r], Without(fullLru, id) + [id], hintsLru, hintsBlocks)
        else Good(config, rows[id := r], fullLru, hintsLru, hintsBlocks)
    {
      if Valid() {
        assert RowFine(config, rows[id], id in fullLru, id in hintsLru);
        GoodRow(config, rows, fullLru, hintsLru, hintsBlocks, id, r);
        if id in hintsLru {
          GoodRefresh(config, rows[id := r], fullLru, hintsLru, hintsBlocks, id);
        } else if id in fullLru {
          GoodFull(config, rows, fullLru, hintsLru, hintsBlocks, id, r);
        }
      }
    }

    /** The response will not be stored after all: the row has no data any more,
        its entry is not indexed, and it is on no list. */
    method Abandon(id: nat)
      requires Valid() && id in rows && 0 < rows[id].refcount && !rows[id].complete
      modifies this`rows, this`fullLru, this`hintsLru
      ensures Valid() && id !in fullLru && id !in hintsLru
      ensures var r := old(rows)[id];
              rows == old(rows)[id := r.(len := 0, indexed := false, refcount := r.refcount - 1)]
      ensures fullLru == old(fullLru) && hintsLru == old(hintsLru)
    {
      assert RowFine(config, rows[id], id in fullLru, id in hintsLru);
      var r := rows[id].(len := 0, indexed := false);
      GoodRow(config, rows, fullLru, hintsLru, hintsBlocks, id, r);
      rows := rows[id := r];
      Reattach(id);
      assert rows == old(rows)[id := r.(refcount := r.refcount - 1)];
    }

    /** The whole response was stored, and all the room reserved for it filled:
        the entry can be used. */
    method Complete(id: nat)
      requires Valid() && id in rows && 0 < rows[id].refcount && !rows[id].complete
      requires 0 < rows[id].len && rows[id].reserved == 0
      modifies this`rows, this`fullLru, this`hintsLru
      ensures Valid()
      ensures rows == old(rows)[id := old(rows)[id].(complete := true, refcount := old(rows)[id].refcount - 1)]
      ensures fullLru == old(fullLru) + if config.earlyHints then [id] else []
      ensures hintsLru == old(hintsLru)
    {
      hide Good, Without;
      ghost var r := rows[id].(complete := true, refcount := rows[id].refcount - 1);
      CompleteGood(config, rows, fullLru, hintsLru, hintsBlocks, id, r);
      rows := rows[id := rows[id].(complete := true)];
      Reattach(id);
      assert rows == old(rows)[id := r];
    }

    /** Only the hints were stored: the entry is complete and stripped at once. */
    method CompleteHints(id: nat)
      requires Valid() && config.earlyHints && id in rows && 0 < rows[id].refcount
      requires !rows[id].complete && 0 < rows[id].len && rows[id].reserved == 0
      modifies this`rows, this`fullLru, this`hintsLru, this`hintsBlocks
      ensures Valid()
      ensures var r := old(rows)[id];
              rows == old(rows)[id := r.(complete := true, stripped := true, refcount := r.refcount - 1)]
      ensures fullLru == old(fullLru) && hintsLru == old(hintsLru) + [id]
      ensures hintsBlocks == old(hintsBlocks) + old(rows)[id].blocks
    {
      hide Good, Without;
      ghost var r := rows[id].(complete := true, stripped := true, refcount := rows[id].refcount - 1);
      CompleteHintsGood(config, rows, fullLru, hintsLru, hintsBlocks, id, r);
      rows := rows[id := rows[id].(complete := true, stripped := true)];
      hintsBlocks := hintsBlocks + rows[id].blocks;
      Reattach(id);
      assert rows == old(rows)[id := r];
    }

    /** Frees all the blocks of a row nobody uses. */
    method Evict(id: nat)
      requires Valid() && id in rows && rows[id].refcount == 0
      modifies this
      ensures Valid() && rows == old(rows) - {id}
      ensures fullLru == Without(old(fullLru), id) && hintsLru == Without(old(hintsLru), id)
      ensures Total(rows) == Total(old(rows)) - old(rows)[id].blocks
    {
      assert RowFine(config, rows[id], id in fullLru, id in hintsLru);
      GoodEvict(config, rows, fullLru, hintsLru, hintsBlocks, id);
      TotalWithout(rows, id);
      hide Good, Total;
      if id in fullLru || id in hintsLru {
        fullLru, hintsLru := Without(fullLru, id), Without(hintsLru, id);
        if rows[id].stripped {
          hintsBlocks := hintsBlocks - rows[id].blocks;
        }
      }
      rows := rows - {id};
    }

    /** Replaces the stored response by `hintLen` bytes of hints and moves the
        entry to the hints list, only if this frees at least one block. The row
        then gets shorter, as the truncation requires. */
    method Strip(id: nat, hintLen: nat) returns (ok: bool)
      requires Valid() && id in fullLru && rows[id].refcount == 0
      modifies this
      ensures Valid()
      ensures ok <==> config.Needed(config.entrySize + hintLen) < old(rows)[id].blocks
      ensures !ok ==> rows == old(rows) && fullLru == old(fullLru) && hintsLru == old(hintsLru)
      ensures ok ==>
        var r, r' := old(rows)[id], Stripped(config, old(rows)[id], hintLen);
        && rows == old(rows)[id := r'] && r'.len < r.len && Total(rows) == Total(old(rows)) - r.blocks + r'.blocks
        && fullLru == Without(old(fullLru), id) && hintsLru == old(hintsLru) + [id]
        && hintsBlocks == old(hintsBlocks) + r'.blocks
    {
      assert id in rows;
      hide Good, Total, Without, RowFine, Stripped;
      if config.Needed(config.entrySize + hintLen) >= rows[id].blocks {
        return false;
      }
      var r := Stripped(config, rows[id], hintLen);
      StripGood(config, rows, fullLru, hintsLru, hintsBlocks, id, hintLen);
      rows := rows[id := r];
      fullLru, hintsLru := Without(fullLru, id), hintsLru + [id];
      hintsBlocks := hintsBlocks + r.blocks;
      ok := true;
    }

    /** Refreshes a stripped entry whose hints were used. */
    method Refresh(id: nat)
      requires Valid() && id in rows && rows[id].stripped
      modifies this`hintsLru
      ensures Valid() && hintsLru == Without(old(hintsLru), id) + [id]
    {
      assert RowFine(config, rows[id], id in fullLru, id in hintsLru);
      GoodRefresh(config, rows, fullLru, hintsLru, hintsBlocks, id);
      hintsLru := Without(hintsLru, id) + [id];
    }

    /** Frees one entry's blocks: the oldest idle hints entry when the hints are
        at their cap, otherwise the oldest idle full entry, of which the hints
        are kept if it has some and if that frees a block. `hintLens` gives the
        size of the hints each entry would be stripped to. */
    method MakeRoom(hintLens: map<nat, nat>) returns (ok: bool)
      requires Valid()
      modifies this
      ensures Valid()
      ensures ok ==> Total(rows) < Total(old(rows))
      ensures match old(Victim(config, rows, fullLru, hintsLru, hintsBlocks, hintLens))
        case Nothing =>
          !ok && rows == old(rows) && fullLru == old(fullLru) && hintsLru == old(hintsLru)
        case EvictRow(id) =>
          && ok && rows == old(rows) - {id}
          && fullLru == Without(old(fullLru), id) && hintsLru == Without(old(hintsLru), id)
        case StripRow(id, len) =>
          && ok && id in old(rows)
          && rows == old(rows)[id := old(rows)[id].(len := len, blocks := config.Needed(len), stripped := true)]
          && fullLru == Without(old(fullLru), id) && hintsLru == old(hintsLru) + [id]
    {
      hide Good, Total, Without, RowFine;
      ListsInRows();
      ghost var plan := Victim(config, rows, fullLru, hintsLru, hintsBlocks, hintLens);
      var canStrip := hintsBlocks < config.hintsCap;
      if !canStrip {
        var i := 0;
        while i < |hintsLru|
          invariant 0 <= i <= |hintsLru| && unchanged(this)
          invariant OldestIdle(hintsLru, rows) == OldestIdle(hintsLru[i..], rows)
        {
          var id := hintsLru[i];
          assert hintsLru[i..][0] == id && hintsLru[i..][1..] == hintsLru[i + 1..];
          if rows[id].refcount == 0 {
            RowTakesBlocks(id);
            Evict(id);
            return true;
          }
          i := i + 1;
        }
      }
      var i := 0;
      while i < |fullLru|
        invariant 0 <= i <= |fullLru| && unchanged(this)
        invariant OldestIdle(fullLru, rows) == OldestIdle(fullLru[i..], rows)
      {
        var id := fullLru[i];
        assert fullLru[i..][0] == id && fullLru[i..][1..] == fullLru[i + 1..];
        if rows[id].refcount == 0 {
          FreeFull(id, canStrip, hintLens);
          return true;
        }
        i := i + 1;
      }
      ok := false;
    }

    lemma ListsInRows()
      requires Valid()
      ensures (forall x | x in fullLru :: x in rows) && (forall x | x in hintsLru :: x in rows)
    {
    }

    /** Frees blocks of an idle full entry, keeping its hints if possible. */
    method FreeFull(id: nat, canStrip: bool, hintLens: map<nat, nat>)
      requires Valid() && id in fullLru && id in rows && rows[id].refcount == 0
      modifies this
      ensures Valid() && Total(rows) < Total(old(rows))
      ensures
        if old(rows)[id].indexed && canStrip && id in hintLens && 0 < hintLens[id]
           && config.Needed(config.entrySize + hintLens[id]) < old(rows)[id].blocks
        then
          var len := config.entrySize + hintLens[id];
          && rows == old(rows)[id := old(rows)[id].(len := len, blocks := config.Needed(len), stripped := true)]
          && fullLru == Without(old(fullLru), id) && hintsLru == old(hintsLru) + [id]
        else
          rows == old(rows) - {id} && fullLru == Without(old(fullLru), id) && hintsLru == Without(old(hintsLru), id)
    {
      hide Good, Total, Without, RowFine;
      RowTakesBlocks(id);
      if !rows[id].indexed {
        Evict(id);
        return;
      }
      var hintLen := if canStrip && id in hintLens then hintLens[id] else 0;
      var stripped := false;
      if hintLen > 0 {
        stripped := Strip(id, hintLen);
      }
      if !stripped {
        Evict(id);
      }
    }

    lemma RowTakesBlocks(id: nat)
      requires Valid() && id in rows
      ensures 0 < rows[id].blocks
    {
      assert RowFine(config, rows[id], id in fullLru, id in hintsLru);
    }

    /** Room can be made again and again, only so many times, whatever the size of
        the hints that are found each time. */
    method MakeAllRoom()
      requires Valid()
      modifies this
      ensures Valid() && Total(rows) <= Total(old(rows))
    {
      var ok := true;
      while ok
        invariant Valid() && Total(rows) <= Total(old(rows))
        decreases ok, Total(rows)
      {
        var hintLens: map<nat, nat> := *;
        ok := MakeRoom(hintLens);
      }
    }
  }
}
