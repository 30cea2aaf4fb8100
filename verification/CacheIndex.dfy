/** The cache's index: entries are found by the first 32 bits of their hash,
    those that share them form a list in insertion order. */
module CacheIndex {
  import opened Common

  /** A 20-byte hash, split after its first 32 bits. */
  datatype Hash = Hash(key: nat, rest: nat)

  /** The part of a response's identity that depends on request headers:
      encodings as bit numbers, then one hash per header. */
  datatype SecKey = SecKey(encodings: set<nat>, referer: nat, origin: nat)

  const ENCODING_OTHER := 10

  datatype Entry = Entry(id: nat, hash: Hash, signature: nat, secKey: SecKey, expire: int,
                         refcount: int, count: nat, lastClear: int)

  /** What identifies an entry, without its counters. */
  datatype Core = Core(id: nat, hash: Hash, signature: nat, secKey: SecKey, expire: int)

  function CoreOf(e: Entry): (c: Core) {
    Core(e.id, e.hash, e.signature, e.secKey, e.expire)
  }

  function Cores(l: seq<Entry>): (c: seq<Core>)
    ensures |c| == |l|
  {
    seq(|l|, i requires 0 <= i < |l| => CoreOf(l[i]))
  }

  lemma CoresAt(l: seq<Entry>, i: nat)
    requires i < |l|
    ensures Cores(l)[i] == CoreOf(l[i])
  {
  }

  /** All entries of a list have one full hash, and only the first one may have
      been stored without a Vary signature. */
  ghost predicate ListFine(key: nat, l: seq<Entry>) {
    forall i {:trigger l[i]} | 0 <= i < |l| ::
      l[i].hash.key == key && l[i].hash == l[0].hash && (i > 0 ==> l[i].signature != 0)
  }

  function Dec32(n: nat): (r: nat) {
    if n == 0 then 0xFFFF_FFFF else n - 1
  }

  lemma AppendFine(key: nat, l: seq<Entry>, e: Entry)
    requires ListFine(key, l) && l != [] && e.hash == l[0].hash && e.signature != 0
    ensures ListFine(key, l + [e]) && Cores(l + [e]) == Cores(l) + [CoreOf(e)]
  {
  }

  /** Counters do not matter. */
  lemma CountersFine(key: nat, l: seq<Entry>, i: nat, e: Entry)
    requires ListFine(key, l) && i < |l| && CoreOf(e) == CoreOf(l[i])
    ensures ListFine(key, l[i := e]) && Cores(l[i := e]) == Cores(l)
  {
  }

  /** Removes an entry and updates the counter of the last one. */
  function Deleted(l: seq<Entry>, i: nat): (r: seq<Entry>)
    requires i < |l|
    ensures |r| == |l| - 1
  {
    var e, n := l[i], |l| - 1;
    var l' := if e.signature == 0 then l
              else if i < n then l[n := l[n].(count := Dec32(l[n].count))]
              else if i > 0 then l[i - 1 := l[i - 1].(count := Dec32(e.count))]
              else l;
    l'[..i] + l'[i + 1..]
  }

  lemma DeletedCores(l: seq<Entry>, i: nat)
    requires i < |l|
    ensures Cores(Deleted(l, i)) == Cores(l)[..i] + Cores(l)[i + 1..]
  {
  }

  lemma DeletedFine(key: nat, l: seq<Entry>, i: nat)
    requires i < |l| && ListFine(key, l)
    ensures ListFine(key, Deleted(l, i))
  {
    DeletedCores(l, i);
    var r, c := Deleted(l, i), Cores(l);
    forall j | 0 <= j < |r|
      ensures r[j].hash.key == key && r[j].hash == r[0].hash && (j > 0 ==> r[j].signature != 0)
    {
      assert CoreOf(r[j]) == c[if j < i then j else j + 1];
      assert CoreOf(r[0]) == c[if 0 < i then 0 else 1];
    }
  }

  /** Drops a reference; the entry leaves the list with the last one. */
  function Released(l: seq<Entry>, i: nat): (r: seq<Entry>)
    requires i < |l|
  {
    var l' := l[i := l[i].(refcount := l[i].refcount - 1)];
    if l'[i].refcount <= 0 then Deleted(l', i) else l'
  }

  lemma ReleasedFine(key: nat, l: seq<Entry>, i: nat)
    requires i < |l| && ListFine(key, l)
    ensures ListFine(key, Released(l, i))
    ensures Cores(Released(l, i)) == if l[i].refcount <= 1 then Cores(l)[..i] + Cores(l)[i + 1..] else Cores(l)
  {
    var l' := l[i := l[i].(refcount := l[i].refcount - 1)];
    assert Cores(l') == Cores(l);
    assert ListFine(key, l');
    if l'[i].refcount <= 0 {
      DeletedFine(key, l', i);
      DeletedCores(l', i);
    }
  }

  /** Releases the expired entries among the `n` first, from the last one. */
  function Cleared(l: seq<Entry>, n: nat, now: int): (r: seq<Entry>)
    requires n <= |l|
    decreases n
  {
    if n == 0 then l
    else if l[n - 1].expire <= now then
      var l' := Released(l, n - 1);
      Cleared(l', n - 1, now)
    else Cleared(l, n - 1, now)
  }

  function Alive(l: seq<Entry>, n: nat, now: int): (c: nat)
    requires n <= |l|
  {
    if n == 0 then 0 else Alive(l, n - 1, now) + if l[n - 1].expire <= now then 0 else 1
  }

  /** The same list in the same order, but for some expired entries. */
  ghost predicate Thinned(c: seq<Core>, c': seq<Core>, now: int)
    decreases |c|
  {
    if c == [] then c' == []
    else
      var n, m := |c| - 1, |c'| - 1;
      || (c' != [] && c'[m] == c[n] && Thinned(c[..n], c'[..m], now))
      || (c[n].expire <= now && Thinned(c[..n], c', now))
  }

  /** Nothing is new or more frequent, and what has not expired is still there. */
  lemma {:induction false} ThinnedMeaning(c: seq<Core>, c': seq<Core>, now: int)
    requires Thinned(c, c', now)
    ensures multiset(c') <= multiset(c)
    ensures forall x: Core | x.expire > now :: multiset(c')[x] == multiset(c)[x]
    decreases |c|
  {
    if c != [] {
      var n, m := |c| - 1, |c'| - 1;
      assert c == c[..n] + [c[n]];
      if c' != [] && c'[m] == c[n] && Thinned(c[..n], c'[..m], now) {
        assert c' == c'[..m] + [c'[m]];
        ThinnedMeaning(c[..n], c'[..m], now);
      } else {
        ThinnedMeaning(c[..n], c', now);
      }
    }
  }

  lemma {:induction false} ThinnedSame(c: seq<Core>, now: int)
    ensures Thinned(c, c, now)
    decreases |c|
  {
    if c != [] {
      ThinnedSame(c[..|c| - 1], now);
    }
  }

  lemma {:induction false} AliveBefore(l: seq<Entry>, e: Entry, n: nat, now: int)
    requires n <= |l|
    ensures Alive(l + [e], n, now) == Alive(l, n, now)
    decreases n
  {
    if n > 0 {
      AliveBefore(l, e, n - 1, now);
    }
  }

  /** What a list keeps when entries among its `n` first are released: all but
      some expired ones of these, in order, and all that follows. */
  ghost predicate Keeps(c: seq<Core>, n: nat, now: int, c': seq<Core>)
    requires n <= |c|
  {
    |c'| >= |c| - n &&
    var m := |c'| - (|c| - n);
    c'[m..] == c[n..] && Thinned(c[..n], c'[..m], now)
  }

  lemma KeepsStep(c: seq<Core>, n: nat, now: int, c1: seq<Core>, c': seq<Core>)
    requires 0 < n <= |c|
    requires c1 == c || (c1 == c[..n - 1] + c[n..] && c[n - 1].expire <= now)
    requires Keeps(c1, n - 1, now, c')
    ensures Keeps(c, n, now, c')
  {
    var k := |c'| - (|c1| - (n - 1));
    var m := |c'| - (|c| - n);
    assert c[..n][..n - 1] == c[..n - 1];
    if c1 == c {
      assert m == k + 1 && c'[k..][1..] == c'[m..] && c[n - 1..][1..] == c[n..];
      assert c'[k] == c'[k..][0] == c[n - 1..][0] == c[n - 1];
      assert c'[..m][..k] == c'[..k];
    } else {
      assert c1[n - 1..] == c[n..] && c1[..n - 1] == c[..n - 1];
    }
  }

  lemma KeepsAll(c: seq<Core>, now: int)
    ensures Keeps(c, 0, now, c)
  {
  }

  lemma {:induction false} ClearedKeeps(key: nat, l: seq<Entry>, n: nat, now: int)
    requires n <= |l| && ListFine(key, l)
    ensures ListFine(key, Cleared(l, n, now))
    ensures Keeps(Cores(l), n, now, Cores(Cleared(l, n, now)))
    decreases n
  {
    hide Keeps, ListFine, Cores, Released;
    if n == 0 {
      KeepsAll(Cores(l), now);
    } else {
      var l' := if l[n - 1].expire <= now then Released(l, n - 1) else l;
      if l[n - 1].expire <= now {
        ReleasedFine(key, l, n - 1);
      }
      ClearedKeeps(key, l', n - 1, now);
      CoresAt(l, n - 1);
      KeepsStep(Cores(l), n, now, Cores(l'), Cores(Cleared(l, n, now)));
    }
  }

  /** An entry that follows the cleared ones keeps its references. */
  lemma {:induction false} ClearedLast(l: seq<Entry>, n: nat, now: int)
    requires n < |l|
    ensures var r := Cleared(l, n, now); r != [] && r[|r| - 1].refcount == l[|l| - 1].refcount
    decreases n
  {
    if n > 0 {
      var l' := if l[n - 1].expire <= now then Released(l, n - 1) else l;
      assert |l'| > n - 1 && l'[|l'| - 1].refcount == l[|l| - 1].refcount;
      hide Released;
      ClearedLast(l', n - 1, now);
    }
  }

  lemma ReleasedPrefix(l: seq<Entry>, i: nat)
    requires i + 1 < |l|
    ensures i < |Released(l, i)| && Released(l, i)[..i] == l[..i]
  {
  }

  /** Taking the last entry out again. */
  lemma LastOut(c: seq<Core>, e: Core, now: int, c': seq<Core>)
    requires Keeps(c + [e], |c|, now, c')
    ensures c' != [] && Keeps(c, |c|, now, c'[..|c'| - 1])
  {
    assert (c + [e])[..|c|] == c && c[..|c|] == c;
    var c1 := c'[..|c'| - 1];
    assert c1[..|c1|] == c1;
  }

  lemma KeepsWhole(c: seq<Core>, e: Core, now: int)
    ensures Keeps(c, |c|, now, c) && Keeps(c + [e], |c|, now, c + [e])
  {
    ThinnedSame(c, now);
    assert c[..|c|] == c && (c + [e])[..|c|] == c;
  }

  /** The last entry that has not expired among the `n` first. */
  function LastAlive(l: seq<Entry>, n: nat, now: int): (r: Option<nat>)
    requires n <= |l|
    ensures r.Some? ==> r.value < n
  {
    if n == 0 then None else if l[n - 1].expire > now then Some(n - 1) else LastAlive(l, n - 1, now)
  }

  /** Whether a stored response suits a request: it has known encodings, all
      accepted by the client, and was made for the same two other headers. */
  predicate Compatible(ref: SecKey, wanted: SecKey) {
    && ENCODING_OTHER !in ref.encodings && ref.encodings * wanted.encodings == ref.encodings
    && ref.referer == wanted.referer && ref.origin == wanted.origin
  }

  function FirstCompatible(c: seq<Core>, wanted: SecKey): (r: Option<Core>)
    ensures r.Some? ==> r.value in c && Compatible(r.value.secKey, wanted)
    ensures r.None? ==> forall x | x in c :: !Compatible(x.secKey, wanted)
  {
    if c == [] then None else if Compatible(c[0].secKey, wanted) then Some(c[0]) else FirstCompatible(c[1..], wanted)
  }

  /** The entry a request gets from a list of variants, if any: the first one
      that suits it, provided it has the wanted hash and has not expired. */
  function Chosen(c: seq<Core>, primary: Option<Hash>, wanted: SecKey, now: int): (r: Option<Core>)
    ensures r.Some? ==>
      && r.value in c && r.value.expire > now && (primary.Some? ==> r.value.hash == primary.value)
      && r.value.secKey.encodings <= wanted.encodings && ENCODING_OTHER !in r.value.secKey.encodings
      && r.value.secKey.referer == wanted.referer && r.value.secKey.origin == wanted.origin
  {
    match FirstCompatible(c, wanted)
    case None => None
    case Some(x) => if x.expire <= now || (primary.Some? && x.hash != primary.value) then None else Some(x)
  }

  /** Releases the expired entries among the `n` first, and counts the others. */
  method ClearExpired(l: seq<Entry>, n: nat, now: int, ghost key: nat) returns (r: seq<Entry>, count: nat)
    requires n < |l| && ListFine(key, l)
    ensures r == Cleared(l, n, now) && count == Alive(l, n, now)
  {
    hide Released, ListFine;
    var i := n;
    r, count := l, 0;
    while i > 0
      invariant 0 <= i <= n && i < |r| && ListFine(key, r)
      invariant Cleared(r, i, now) == Cleared(l, n, now)
      invariant r[..i] == l[..i] && count + Alive(l, i, now) == Alive(l, n, now)
    {
      i := i - 1;
      assert r[i] == r[..i + 1][i] == l[i];
      assert r[..i] == r[..i + 1][..i] == l[..i + 1][..i] == l[..i];
      if r[i].expire <= now {
        ReleasedFine(key, r, i);
        ReleasedPrefix(r, i);
        r := Released(r, i);
      } else {
        count := count + 1;
      }
    }
  }

  /** The list is full: room is looked for once per second among the expired
      entries, while the new one is already at the end. */
  method InsertIntoFull(l: seq<Entry>, e: Entry, now: int, lastClear: int, max: nat, ghost key: nat)
    returns (ok: bool, r: seq<Entry>)
    requires l != [] && ListFine(key, l) && e.refcount == 1 && e.hash == l[0].hash && e.signature != 0
    ensures ListFine(key, r)
    ensures ok <==> lastClear != now && Alive(l, |l|, now) < max
    ensures ok ==> Keeps(Cores(l) + [CoreOf(e)], |l|, now, Cores(r))
    ensures !ok ==> Keeps(Cores(l), |l|, now, Cores(r))
  {
    AppendFine(key, l, e);
    AliveBefore(l, e, |l|, now);
    hide Keeps, Cleared, ListFine, Cores, Released, Alive;
    r := l + [e];
    if lastClear == now {
      KeepsWhole(Cores(l), CoreOf(e), now);
      LastOut(Cores(l), CoreOf(e), now, Cores(r));
      ReleasedLast(key, r);
      return false, Released(r, |r| - 1);
    }
    ClearedKeeps(key, r, |l|, now);
    ClearedLast(r, |l|, now);
    var count;
    r, count := ClearExpired(r, |l|, now, key);
    var n := |r| - 1;
    if count >= max {
      var tail := LastAlive(r, n, now);
      LastOut(Cores(l), CoreOf(e), now, Cores(r));
      if tail.Some? {
        CountersFine(key, r, tail.value, r[tail.value].(lastClear := now));
        r := r[tail.value := r[tail.value].(lastClear := now)];
      }
      ReleasedLast(key, r);
      return false, Released(r, n);
    }
    CountersFine(key, r, n, r[n].(count := (count + 1) % 0x1_0000_0000, lastClear := lastClear));
    r := r[n := r[n].(count := (count + 1) % 0x1_0000_0000, lastClear := lastClear)];
    ok := true;
  }

  lemma ReleasedLast(key: nat, l: seq<Entry>)
    requires l != [] && ListFine(key, l) && l[|l| - 1].refcount == 1
    ensures ListFine(key, Released(l, |l| - 1))
    ensures Cores(Released(l, |l| - 1)) == Cores(l)[..|l| - 1]
  {
    ReleasedFine(key, l, |l| - 1);
  }

  /** Looks for the variant that suits a request from the `start`th one. With
      `purge`, the expired entries met on the way are released. */
  method Search(l: seq<Entry>, start: nat, primary: Option<Hash>, wanted: SecKey, now: int, purge: bool, ghost key: nat)
    returns (r: Option<Entry>, list: seq<Entry>)
    requires start < |l| && ListFine(key, l)
    ensures ListFine(key, list) && (!purge ==> list == l)
    ensures (if r.None? then None else Some(CoreOf(r.value))) == Chosen(Cores(l)[start..], primary, wanted, now)
    ensures forall x | x in Cores(l) && x.expire > now :: x in Cores(list)
  {
    var i;
    list, i := SkipUnsuited(l, start, wanted, now, purge, key);
    hide Released, Cores, ListFine;
    if i == |list| {
      return None, list;
    }
    FirstCompatibleHead(list, i, wanted);
    if primary.Some? && list[i].hash != primary.value {
      return None, list;
    }
    if list[i].expire > now {
      return Some(list[i]), list;
    }
    r := None;
    if purge {
      ReleasedFine(key, list, i);
      ReleasedRest(list, i, now);
      list := Released(list, i);
    }
  }

  lemma FirstCompatibleHead(l: seq<Entry>, i: nat, wanted: SecKey)
    requires i < |l|
    ensures FirstCompatible(Cores(l)[i..], wanted)
         == if Compatible(l[i].secKey, wanted) then Some(CoreOf(l[i])) else FirstCompatible(Cores(l)[i + 1..], wanted)
  {
    assert Cores(l)[i..][0] == CoreOf(l[i]) && Cores(l)[i..][1..] == Cores(l)[i + 1..];
  }

  method SkipUnsuited(l: seq<Entry>, start: nat, wanted: SecKey, now: int, purge: bool, ghost key: nat)
    returns (list: seq<Entry>, i: nat)
    requires start < |l| && ListFine(key, l)
    ensures ListFine(key, list) && (!purge ==> list == l) && i <= |list|
    ensures i < |list| ==> Compatible(list[i].secKey, wanted)
    ensures FirstCompatible(Cores(l)[start..], wanted) == FirstCompatible(Cores(list)[i..], wanted)
    ensures i == |list| ==> FirstCompatible(Cores(list)[i..], wanted) == None
    ensures forall x | x in Cores(l) && x.expire > now :: x in Cores(list)
  {
    hide ListFine, Released, Compatible, FirstCompatible, Cores;
    list, i := l, start;
    while i < |list| && !Compatible(list[i].secKey, wanted)
      invariant 0 <= i <= |list| && ListFine(key, list) && (!purge ==> list == l)
      invariant FirstCompatible(Cores(list)[i..], wanted) == FirstCompatible(Cores(l)[start..], wanted)
      invariant forall x | x in Cores(l) && x.expire > now :: x in Cores(list)
      decreases |list| - i
    {
      FirstCompatibleHead(list, i, wanted);
      var shorter := false;
      if list[i].expire <= now && purge {
        ReleasedFine(key, list, i);
        ReleasedRest(list, i, now);
        shorter := list[i].refcount <= 1;
        list := Released(list, i);
      }
      if !shorter {
        i := i + 1;
      }
    }
    NoneCompatible(Cores(list), i, wanted);
  }

  lemma NoneCompatible(c: seq<Core>, i: nat, wanted: SecKey)
    requires i <= |c|
    ensures i == |c| ==> FirstCompatible(c[i..], wanted) == None
  {
  }

  class Tree {
    const maxSecondary: nat
    var dups: map<nat, seq<Entry>>

    ghost predicate Valid()
      reads this
    {
      0 < maxSecondary && forall k | k in dups :: dups[k] != [] && ListFine(k, dups[k])
    }

    constructor (maxSecondary: nat)
      requires 0 < maxSecondary
      ensures Valid() && dups == map[] && this.maxSecondary == maxSecondary
    {
      this.maxSecondary := maxSecondary;
      dups := map[];
    }

    /** Stores back the list of a key, which disappears with its last entry. */
    method SetList(key: nat, l: seq<Entry>)
      requires Valid() && ListFine(key, l)
      modifies this`dups
      ensures Valid() && dups == if l == [] then old(dups) - {key} else old(dups)[key := l]
    {
      if l == [] {
        dups := dups - {key};
      } else {
        dups := dups[key := l];
      }
    }

    ghost function List(key: nat): (l: seq<Entry>)
      reads this
    {
      if key in dups then dups[key] else []
    }

    /** Drops a reference on an entry, removing it with the last one. */
    method Release(key: nat, i: nat)
      requires Valid() && key in dups && i < |dups[key]|
      modifies this`dups
      ensures Valid() && List(key) == Released(old(dups)[key], i)
      ensures forall k | k != key :: List(k) == old(List(k))
    {
      ReleasedFine(key, dups[key], i);
      SetList(key, Released(dups[key], i));
    }

    /** Adds an entry at the end of its list, unless the list belongs to another
        hash, the entry has no Vary signature while the list is not empty, or
        the list is full, which it is taken for until its expired entries are
        cleared, once per second at most. */
    method Insert(new_: Entry, now: int) returns (ok: bool)
      requires Valid()
      modifies this`dups
      ensures Valid()
      ensures forall k | k != new_.hash.key :: List(k) == old(List(k))
      ensures var l := old(List(new_.hash.key));
              ok <==> l == [] || (&& l[0].hash == new_.hash && new_.signature != 0
                                  && var last := l[|l| - 1];
                                     last.count < maxSecondary ||
                                     (last.lastClear != now && Alive(l, |l|, now) < maxSecondary))
      ensures var l := old(List(new_.hash.key));
              l != [] && (l[0].hash != new_.hash || new_.signature == 0) ==> dups == old(dups)
      ensures var l, l' := Cores(old(List(new_.hash.key))), Cores(List(new_.hash.key));
              && (ok ==> Keeps(l + [CoreOf(new_)], |l|, now, l'))
              && (!ok ==> Keeps(l, |l|, now, l'))
    {
      hide Keeps;
      var key, e := new_.hash.key, new_.(refcount := 1);
      var l := if key in dups then dups[key] else [];
      if l == [] {
        SetList(key, [e.(count := 1, lastClear := now)]);
        assert Cores(List(key)) == Cores([]) + [CoreOf(new_)];
        KeepsWhole([], CoreOf(new_), now);
        return true;
      }
      var prev := l[|l| - 1];
      KeepsWhole(Cores(l), CoreOf(new_), now);
      if prev.hash != e.hash || e.signature == 0 {
        return false;
      }
      var count, lastClear := prev.count, prev.lastClear;
      if count >= maxSecondary {
        var r;
        ok, r := InsertIntoFull(l, e, now, lastClear, maxSecondary, key);
        SetList(key, r);
        return;
      }
      var l' := l + [e.(count := (count + 1) % 0x1_0000_0000, lastClear := lastClear)];
      SetList(key, l');
      assert Cores(l') == Cores(l) + [CoreOf(new_)];
      ok := true;
    }

    /** Finds an entry by its hash. Looking only at the first entry that has the
        same 32 bits misses none. */
    method Get(hash: Hash) returns (r: Option<Entry>)
      requires Valid()
      ensures r.Some? <==> exists k, i | k in dups && 0 <= i < |dups[k]| :: dups[k][i].hash == hash
      ensures r.Some? ==> hash.key in dups && r.value == dups[hash.key][0] && r.value.hash == hash
    {
      if hash.key !in dups {
        return None;
      }
      var e := dups[hash.key][0];
      if e.hash != hash {
        return None;
      }
      r := Some(e);
    }

    /** The same, with an expired entry being released instead of returned. */
    method GetFresh(hash: Hash, now: int) returns (r: Option<Entry>)
      requires Valid()
      modifies this`dups
      ensures Valid() && forall k | k != hash.key :: List(k) == old(List(k))
      ensures var l := old(List(hash.key));
              && r == (if l != [] && l[0].hash == hash && l[0].expire > now then Some(l[0]) else None)
              && List(hash.key) == if l != [] && l[0].hash == hash && l[0].expire <= now then Released(l, 0) else l
    {
      r := Get(hash);
      if r.Some? && r.value.expire <= now {
        Release(hash.key, 0);
        r := None;
      }
    }

    /** Finds the variant that suits a request, starting from one of the list.
        With `purge`, the expired entries met on the way are released. */
    method GetSecondary(key: nat, start: nat, primary: Option<Hash>, wanted: SecKey, now: int, purge: bool)
      returns (r: Option<Entry>)
      requires Valid() && key in dups && start < |dups[key]|
      modifies this`dups
      ensures Valid() && (!purge ==> dups == old(dups))
      ensures var c := Cores(old(dups)[key])[start..];
              (if r.None? then None else Some(CoreOf(r.value)))
              == if old(dups)[key][start].signature == 0 then None else Chosen(c, primary, wanted, now)
      ensures forall x | x in Cores(old(List(key))) && x.expire > now :: x in Cores(List(key))
    {
      if dups[key][start].signature == 0 {
        return None;
      }
      var list;
      r, list := Search(dups[key], start, primary, wanted, now, purge, key);
      if purge {
        SetList(key, list);
      }
    }
  }

  lemma ReleasedRest(l: seq<Entry>, i: nat, now: int)
    requires i < |l| && l[i].expire <= now
    requires Cores(Released(l, i)) == if l[i].refcount <= 1 then Cores(l)[..i] + Cores(l)[i + 1..] else Cores(l)
    ensures l[i].refcount <= 1 ==> Cores(Released(l, i))[i..] == Cores(l)[i + 1..]
    ensures forall x | x in Cores(l) && x.expire > now :: x in Cores(Released(l, i))
  {
    hide Released;
    assert Cores(l) == Cores(l)[..i] + [Cores(l)[i]] + Cores(l)[i + 1..];
  }
}
