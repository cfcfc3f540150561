/** The proxy's response cache (Labs/Lab08-proxy/cache.c, cache.h): a doubly
    linked list of entries between a head and a rear sentinel, most recently
    used first, with a running payload size `cache_sz`.

    The list is modelled as a sequence of nodes whose first and last elements
    are the sentinels; a node's `prev` and `next` are its neighbours in the
    sequence.  `size_t` arithmetic on `cache_sz` is modelled modulo 2^64. */
module LruCache {
  import opened Common

  /** 2^64: the range of `size_t`. */
  const SIZE_T_MOD: int := 0x1_0000_0000_0000_0000

  /** `a - b` on `size_t` values, wrapping around like C's unsigned subtraction. */
  function SizeSub(a: int, b: int): (r: int)
    ensures 0 <= r < SIZE_T_MOD
    ensures 0 <= b <= a < SIZE_T_MOD ==> r == a - b
  {
    (a - b) % SIZE_T_MOD
  }

  /** A list node: a sentinel (key NULL, size 0) or a cached item. */
  datatype CacheItem = Sentinel | Item(key: string, value: seq<byte>, size: nat)

  /** The `size` field of a node; a sentinel's is 0. */
  function Size(x: CacheItem): nat {
    if x.Item? then x.size else 0
  }

  /** Does node `x` carry `key`?  A sentinel, whose key is NULL, never does. */
  predicate Matches(x: CacheItem, key: string) {
    x.Item? && x.key == key
  }

  /** The sum of the sizes of a run of nodes. */
  function Total(es: seq<CacheItem>): nat {
    if es == [] then 0 else Size(es[0]) + Total(es[1..])
  }

  /** Every node of `es` is an item (no sentinel among the entries). */
  predicate AllItems(es: seq<CacheItem>) {
    forall i :: 0 <= i < |es| ==> es[i].Item?
  }

  /** No two entries share a key. */
  predicate UniqueKeys(es: seq<CacheItem>) {
    forall i, j :: 0 <= i < j < |es| && es[i].Item? && es[j].Item? ==> es[i].key != es[j].key
  }

  /** The position of the first entry carrying `key`, walking from the front. */
  function Find(es: seq<CacheItem>, key: string): (r: Option<nat>)
    ensures r.Some? ==> r.value < |es| && Matches(es[r.value], key)
    ensures r.Some? ==> forall j :: 0 <= j < r.value ==> !Matches(es[j], key)
    ensures r.None? <==> forall j :: 0 <= j < |es| ==> !Matches(es[j], key)
  {
    if es == [] then None
    else if Matches(es[0], key) then Some(0)
    else match Find(es[1..], key)
      case None => None
      case Some(i) => Some(i + 1)
  }

  /** The entries with the one at position `i` taken out (the others keep their order). */
  function Without(es: seq<CacheItem>, i: nat): (r: seq<CacheItem>)
    requires i < |es|
    ensures |r| == |es| - 1
  {
    es[..i] + es[i + 1..]
  }

  /** The entries that remain after `cache_evict(sz)` as written: it drops
      entries from the least recently used end while the free space
      `max_cache_sz - cache_sz` is at least `sz`. */
  function EvictAsWritten(es: seq<CacheItem>, maxCacheSz: nat, sz: nat): seq<CacheItem>
    decreases |es|
  {
    if es == [] || SizeSub(maxCacheSz, Total(es)) < sz then es
    else EvictAsWritten(es[..|es| - 1], maxCacheSz, sz)
  }

  /** The eviction step of `cache_insert`: `cache_evict` is called only when
      the free space is below `sz`. */
  function EvictIfShort(es: seq<CacheItem>, maxCacheSz: nat, sz: nat): seq<CacheItem> {
    if SizeSub(maxCacheSz, Total(es)) < sz then EvictAsWritten(es, maxCacheSz, sz) else es
  }

  /** The entries after `cache_insert(key, value, sz)` as written. */
  function InsertAsWritten(es: seq<CacheItem>, maxCacheSz: nat, maxObjectSz: nat,
                           key: string, value: seq<byte>, sz: nat): seq<CacheItem>
  {
    match Find(es, key)
    case None =>
      if maxObjectSz < sz then es
      else [Item(key, value, sz)] + EvictIfShort(es, maxCacheSz, sz)
    case Some(i) =>
      if maxObjectSz < sz then Without(es, i)
      else [es[i]] + EvictIfShort(Without(es, i), maxCacheSz, sz)
  }

  /** The entries after `cache_get(key)`: a hit moves the entry to the front. */
  function GetResult(es: seq<CacheItem>, key: string): seq<CacheItem> {
    match Find(es, key)
    case None => es
    case Some(i) => [es[i]] + Without(es, i)
  }

  // ---------------------------------------------------------------------
  // Facts about the entry sequence

  lemma {:induction false} TotalAppend(a: seq<CacheItem>, b: seq<CacheItem>)
    ensures Total(a + b) == Total(a) + Total(b)
  {
    if a == [] {
      assert a + b == b;
    } else {
      assert (a + b)[1..] == a[1..] + b;
      TotalAppend(a[1..], b);
    }
  }

  /** Taking an entry out lowers the total by exactly its size. */
  lemma {:induction false} TotalWithout(es: seq<CacheItem>, i: nat)
    requires i < |es|
    ensures Total(Without(es, i)) == Total(es) - Size(es[i])
  {
    var a, b := es[..i], es[i + 1..];
    TotalAppend(a, b);
    assert es == a + ([es[i]] + b);
    TotalAppend(a, [es[i]] + b);
    assert Total([es[i]] + b) == Size(es[i]) + Total(b) by {
      assert ([es[i]] + b)[1..] == b;
    }
  }

  /** Dropping the last entry lowers the total by its size. */
  lemma {:induction false} TotalDropLast(es: seq<CacheItem>)
    requires es != []
    ensures Total(es) == Total(es[..|es| - 1]) + Size(es[|es| - 1])
  {
    assert es == es[..|es| - 1] + [es[|es| - 1]];
    TotalAppend(es[..|es| - 1], [es[|es| - 1]]);
  }

  /** When keys are unique, the entry found is the only one with that key. */
  lemma FindUnique(es: seq<CacheItem>, key: string, i: nat)
    requires UniqueKeys(es) && i < |es| && Matches(es[i], key)
    ensures Find(es, key) == Some(i)
  {
  }

  /** Removing an entry keeps the keys unique and the key it carried absent. */
  lemma {:induction false} WithoutUnique(es: seq<CacheItem>, i: nat)
    requires UniqueKeys(es) && AllItems(es) && i < |es|
    ensures UniqueKeys(Without(es, i)) && AllItems(Without(es, i))
    ensures Find(Without(es, i), es[i].key).None?
  {
    var r := Without(es, i);
    forall j | 0 <= j < |r| ensures !Matches(r[j], es[i].key) {
      if j < i { assert r[j] == es[j]; } else { assert r[j] == es[j + 1]; }
    }
  }

  /** Removing an entry keeps every entry an item, the keys unique and the
      sizes bounded, and lowers the total by the entry's size. */
  lemma {:induction false} WithoutValid(es: seq<CacheItem>, i: nat, maxObjectSz: nat)
    requires UniqueKeys(es) && AllItems(es) && i < |es|
    requires forall j :: 0 <= j < |es| ==> Size(es[j]) <= maxObjectSz
    ensures UniqueKeys(Without(es, i)) && AllItems(Without(es, i))
    ensures forall j :: 0 <= j < |Without(es, i)| ==> Size(Without(es, i)[j]) <= maxObjectSz
    ensures Total(Without(es, i)) == Total(es) - Size(es[i])
  {
    WithoutUnique(es, i);
    TotalWithout(es, i);
    var r := Without(es, i);
    forall j | 0 <= j < |r| ensures Size(r[j]) <= maxObjectSz {
      assert r[j] == if j < i then es[j] else es[j + 1];
    }
  }

  // ---------------------------------------------------------------------
  // size_t arithmetic

  lemma ModAdd(x: int, y: int)
    ensures (x % SIZE_T_MOD + y) % SIZE_T_MOD == (x + y) % SIZE_T_MOD
  {
    var q := x / SIZE_T_MOD;
    assert x == q * SIZE_T_MOD + x % SIZE_T_MOD;
    ModShift(x % SIZE_T_MOD + y, q);
  }

  lemma ModShift(z: int, q: int)
    ensures (z + q * SIZE_T_MOD) % SIZE_T_MOD == z % SIZE_T_MOD
  {
    var r := z % SIZE_T_MOD;
    var d := z / SIZE_T_MOD;
    assert z == d * SIZE_T_MOD + r;
    assert z + q * SIZE_T_MOD == (d + q) * SIZE_T_MOD + r;
  }

  /** Taking `s` off a `size_t` and adding it back gives the value again. */
  lemma SubThenAdd(c: int, s: int)
    requires 0 <= c < SIZE_T_MOD
    ensures ((c - s) % SIZE_T_MOD + s) % SIZE_T_MOD == c
  {
    ModAdd(c - s, s);
    assert c - s + s == c;
  }

  /** Subtracting `s` from the wrapped total is the wrapped total minus `s`. */
  lemma SizeSubMod(t: int, s: int)
    ensures SizeSub(t % SIZE_T_MOD, s) == (t - s) % SIZE_T_MOD
  {
    ModAdd(t, -s);
  }

  /** The free space computed from the wrapped total is that of the true total. */
  lemma FreeSpace(a: int, t: int)
    ensures SizeSub(a, t % SIZE_T_MOD) == SizeSub(a, t)
  {
    ModAdd(a - t, 0);
    var q := t / SIZE_T_MOD;
    assert t == q * SIZE_T_MOD + t % SIZE_T_MOD;
    assert a - t % SIZE_T_MOD == (a - t) + q * SIZE_T_MOD;
    ModShift(a - t, q);
  }

  /** Dropping the last entry raises the free space by its size. */
  lemma {:induction false} FreeSpaceAfterDrop(maxCacheSz: nat, es: seq<CacheItem>)
    requires es != []
    ensures (SizeSub(maxCacheSz, Total(es)) + Size(es[|es| - 1])) % SIZE_T_MOD
         == SizeSub(maxCacheSz, Total(es[..|es| - 1]))
  {
    TotalDropLast(es);
    ModAdd(maxCacheSz - Total(es), Size(es[|es| - 1]));
  }

  /** `max - (max - t)` is `t` again in `size_t`. */
  lemma SizeSubTwice(a: int, t: int)
    ensures SizeSub(a, SizeSub(a, t)) == t % SIZE_T_MOD
  {
    ModAdd(a - t, 0);
    var q := (a - t) / SIZE_T_MOD;
    assert a - t == q * SIZE_T_MOD + (a - t) % SIZE_T_MOD;
    assert a - SizeSub(a, t) == t + q * SIZE_T_MOD;
    ModShift(t, q);
  }

  // ---------------------------------------------------------------------
  // Node list updates

  /** Unlinking node `k` of a list between sentinels takes entry `k - 1`
      out and keeps both sentinels. */
  lemma UnlinkShape(l: seq<CacheItem>, k: nat)
    requires 0 < k < |l| - 1
    ensures var l' := l[..k] + l[k + 1..];
      && |l'| == |l| - 1 && l'[0] == l[0] && l'[|l'| - 1] == l[|l| - 1]
      && l'[1..|l'| - 1] == Without(l[1..|l| - 1], k - 1)
  {
    var l' := l[..k] + l[k + 1..];
    assert l'[1..|l'| - 1] == l[1..k] + l[k + 1..|l| - 1] by {
      assert forall m :: 1 <= m < |l'| - 1 ==> l'[m] == (if m < k then l[m] else l[m + 1]);
    }
    assert l[1..|l| - 1][..k - 1] == l[1..k];
    assert l[1..|l| - 1][k..] == l[k + 1..|l| - 1];
  }

  /** Linking `x` right after the head sentinel puts it first among the
      entries. */
  lemma HeadShape(l: seq<CacheItem>, x: CacheItem)
    requires |l| >= 2
    ensures var l' := [l[0], x] + l[1..];
      && |l'| == |l| + 1 && l'[0] == l[0] && l'[1] == x && l'[|l'| - 1] == l[|l| - 1]
      && l'[1..|l'| - 1] == [x] + l[1..|l| - 1]
  {
    var l' := [l[0], x] + l[1..];
    var t := l[1..];
    assert l'[1..] == [x] + t;
    assert l'[1..|l'| - 1] == ([x] + t)[..|t|];
    assert ([x] + t)[..|t|] == [x] + t[..|t| - 1];
    assert t[..|t| - 1] == l[1..|l| - 1];
  }

  /** Unlinking `rear->prev` drops the last entry. */
  lemma DropLastShape(es: seq<CacheItem>)
    requires es != []
    ensures var l := [Sentinel] + es + [Sentinel];
      && l[|es|] == es[|es| - 1]
      && l[..|es|] + l[|es| + 1..] == [Sentinel] + es[..|es| - 1] + [Sentinel]
  {
  }

  /** What `Valid` asks of the entries holds of every prefix. */
  lemma PrefixEntries(es: seq<CacheItem>, n: nat, maxObjectSz: nat)
    requires n <= |es| && AllItems(es) && UniqueKeys(es)
    requires forall i :: 0 <= i < |es| ==> Size(es[i]) <= maxObjectSz
    ensures AllItems(es[..n]) && UniqueKeys(es[..n])
    ensures forall i :: 0 <= i < n ==> Size(es[..n][i]) <= maxObjectSz
  {
    assert forall i :: 0 <= i < n ==> es[..n][i] == es[i];
  }

  // ---------------------------------------------------------------------
  // The cache object

  /** The `LruCache` record (cache.h): `list` holds the head sentinel, the
      entries from most to least recently used, and the rear sentinel. */
  class Lru {
    var list: seq<CacheItem>
    var cacheSz: nat
    const maxCacheSz: nat
    const maxObjectSz: nat

    /** The entries strictly between `head` and `rear`. */
    function Entries(): seq<CacheItem>
      reads this
      requires |list| >= 2
    {
      list[1..|list| - 1]
    }

    ghost predicate Valid()
      reads this
    {
      && |list| >= 2
      && list[0] == Sentinel && list[|list| - 1] == Sentinel
      && AllItems(Entries()) && UniqueKeys(Entries())
      && (forall i :: 0 <= i < |Entries()| ==> Size(Entries()[i]) <= maxObjectSz)
      && maxCacheSz < SIZE_T_MOD && maxObjectSz < SIZE_T_MOD
      && cacheSz == Total(Entries()) % SIZE_T_MOD
    }

    /** `cache_create`: two linked sentinels and an empty payload. */
    constructor (maxCacheSz: nat, maxObjectSz: nat)
      requires maxCacheSz < SIZE_T_MOD && maxObjectSz < SIZE_T_MOD
      ensures Valid()
      ensures this.maxCacheSz == maxCacheSz && this.maxObjectSz == maxObjectSz
      ensures list == [Sentinel, Sentinel] && Entries() == [] && cacheSz == 0
    {
      this.maxCacheSz := maxCacheSz;
      this.maxObjectSz := maxObjectSz;
      cacheSz := 0;
      list := [Sentinel, Sentinel];
    }

    /** `cache_index`: walk from `head`, skipping nodes whose key is NULL. */
    method Index(key: string) returns (r: Option<nat>)
      requires Valid()
      ensures r.Some? ==> 0 < r.value < |list| - 1 && Matches(list[r.value], key)
      ensures r.Some? ==> Find(Entries(), key) == Some(r.value - 1)
      ensures r.None? <==> Find(Entries(), key).None?
    {
      var i := 0;
      while i < |list|
        invariant 0 <= i <= |list|
        invariant forall j :: 0 <= j < i ==> !Matches(list[j], key)
      {
        if list[i].Item? && list[i].key == key {
          assert Entries()[i - 1] == list[i];
          FindUnique(Entries(), key, i - 1);
          return Some(i);
        }
        i := i + 1;
      }
      assert forall j :: 0 <= j < |Entries()| ==> Entries()[j] == list[j + 1];
      return None;
    }

    /** `cache_unlink`: detach the entry carrying `key` and subtract its size. */
    method Unlink(key: string) returns (item: Option<CacheItem>)
      requires Valid()
      modifies this
      ensures Valid()
      ensures match Find(old(Entries()), key)
        case None => item.None? && list == old(list) && cacheSz == old(cacheSz)
        case Some(i) =>
          && item == Some(old(Entries())[i])
          && Entries() == Without(old(Entries()), i)
          && cacheSz == SizeSub(old(cacheSz), old(Entries())[i].size)
    {
      var p := Index(key);
      if p.None? {
        return None;
      }
      var k := p.value;
      ghost var es := Entries();
      item := Some(list[k]);
      ghost var l := list;
      var l' := list[..k] + list[k + 1..];
      UnlinkShape(l, k);
      WithoutValid(es, k - 1, maxObjectSz);
      SizeSubMod(Total(es), es[k - 1].size);
      list := l';
      cacheSz := SizeSub(cacheSz, item.value.size);
      assert Entries() == l'[1..|l'| - 1];
    }

    /** `cache_remove`: unlink the entry carrying `key` and release it.  The
        source frees the result unconditionally, so `key` must be present. */
    method Remove(key: string)
      requires Valid() && Find(Entries(), key).Some?
      modifies this
      ensures Valid()
      ensures Entries() == Without(old(Entries()), Find(old(Entries()), key).value)
    {
      var item := Unlink(key);
    }

    /** `cache_head`: link `item` right after `head` and add its size. */
    method Head(item: CacheItem)
      requires Valid() && item.Item? && Find(Entries(), item.key).None?
      requires item.size <= maxObjectSz
      modifies this
      ensures Valid()
      ensures list[1] == item && Entries() == [item] + old(Entries())
      ensures cacheSz == (old(cacheSz) + item.size) % SIZE_T_MOD
    {
      ghost var es := Entries();
      HeadShape(list, item);
      list := [list[0], item] + list[1..];
      TotalAppend([item], es);
      ModAdd(Total(es), item.size);
      cacheSz := (cacheSz + item.size) % SIZE_T_MOD;
      forall i | 0 <= i < |Entries()| ensures Size(Entries()[i]) <= maxObjectSz {
        if i > 0 { assert Entries()[i] == es[i - 1]; }
      }
    }

    /** `cache_evict(sz)` as written: from `rear->prev` toward `head`, unlink
        entries while the free space is at least `sz`, then recompute
        `cache_sz` from the free space. */
    method Evict(sz: nat)
      requires Valid()
      modifies this
      ensures Valid()
      ensures list[0] == old(list)[0] && list[|list| - 1] == old(list)[|old(list)| - 1]
      ensures Entries() == EvictAsWritten(old(Entries()), maxCacheSz, sz)
    {
      ghost var es0 := Entries();
      var nodes := list;
      var p := |nodes| - 2;
      var fSz := SizeSub(maxCacheSz, cacheSz);
      FreeSpace(maxCacheSz, Total(es0));
      ghost var cur := es0;
      assert nodes == [Sentinel] + cur + [Sentinel];
      while p != 0 && fSz >= sz
        invariant p == |cur| && nodes == [Sentinel] + cur + [Sentinel]
        invariant cur == es0[..p]
        invariant fSz == SizeSub(maxCacheSz, Total(cur))
        invariant EvictAsWritten(es0, maxCacheSz, sz) == EvictAsWritten(cur, maxCacheSz, sz)
      {
        FreeSpaceAfterDrop(maxCacheSz, cur);
        DropLastShape(cur);
        fSz := (fSz + Size(nodes[p])) % SIZE_T_MOD;
        nodes := nodes[..p] + nodes[p + 1..];
        cur := cur[..p - 1];
        p := p - 1;
      }
      SizeSubTwice(maxCacheSz, Total(cur));
      list := nodes;
      cacheSz := SizeSub(maxCacheSz, fSz);
      PrefixEntries(es0, |cur|, maxObjectSz);
      assert Entries() == cur;
    }

    /** `cache_insert` as written.  An oversize object is never stored and
        drops an existing entry for its key; otherwise an existing entry is
        unlinked, `cache_evict` runs when the free space is below `sz`, and the
        entry goes to the front.  An existing entry keeps its old value and
        size: the new value is dropped. */
    method Insert(key: string, value: seq<byte>, sz: nat)
      requires Valid() && sz < SIZE_T_MOD
      modifies this
      ensures Valid()
      ensures Entries() == InsertAsWritten(old(Entries()), maxCacheSz, maxObjectSz, key, value, sz)
    {
      ghost var es0 := Entries();
      var p := Index(key);
      if maxObjectSz < sz {
        if p.None? {
          return;
        }
        Remove(key);
        return;
      }
      var old_item: Option<CacheItem> := None;
      if p.Some? {
        old_item := Some(list[p.value]);
        var unlinked := Unlink(key);
      }
      var item := if old_item.None? then Item(key, value, sz) else old_item.value;
      assert Find(Entries(), key).None? && item.key == key && item.size <= maxObjectSz by {
        if p.Some? {
          WithoutUnique(es0, p.value - 1);
        }
      }
      EvictAndLink(item, sz);
    }

    /** The tail of `cache_insert`: when the free space is below `sz` run
        `cache_evict(sz)`, then link `item` at the front. */
    method EvictAndLink(item: CacheItem, sz: nat)
      requires Valid() && item.Item? && Find(Entries(), item.key).None?
      requires item.size <= maxObjectSz
      modifies this
      ensures Valid()
      ensures Entries() == [item] + EvictIfShort(old(Entries()), maxCacheSz, sz)
    {
      ghost var es1 := Entries();
      assert SizeSub(maxCacheSz, cacheSz) == SizeSub(maxCacheSz, Total(es1)) by {
        FreeSpace(maxCacheSz, Total(es1));
      }
      if SizeSub(maxCacheSz, cacheSz) < sz {
        Evict(sz);
      }
      assert Entries() == EvictIfShort(es1, maxCacheSz, sz);
      EvictKeepsAbsent(es1, maxCacheSz, sz, item.key);
      Head(item);
    }

    /** `cache_get`: on a hit, move the entry to the front; on a miss, change nothing. */
    method Get(key: string) returns (r: Option<CacheItem>)
      requires Valid()
      modifies this
      ensures Valid()
      ensures r == (match Find(old(Entries()), key)
                    case None => None
                    case Some(i) => Some(old(Entries())[i]))
      ensures Entries() == GetResult(old(Entries()), key)
      ensures r.None? ==> list == old(list)
      ensures cacheSz == old(cacheSz)
    {
      ghost var es0 := Entries();
      ghost var c0 := cacheSz;
      r := Unlink(key);
      if r.None? {
        return;
      }
      ghost var i := Find(es0, key).value;
      ghost var sz := es0[i].size;
      assert es0[i].Item? && Size(es0[i]) <= maxObjectSz;
      WithoutUnique(es0, i);
      ghost var c1 := cacheSz;
      assert c1 == SizeSub(c0, sz) == (c0 - sz) % SIZE_T_MOD;
      Head(r.value);
      assert cacheSz == (c1 + sz) % SIZE_T_MOD;
      SubThenAdd(c0, sz);
      assert cacheSz == c0;
    }
  }

  /** Eviction only drops entries, so a key absent before stays absent. */
  lemma {:induction false} EvictKeepsAbsent(es: seq<CacheItem>, maxCacheSz: nat, sz: nat, key: string)
    requires Find(es, key).None?
    ensures Find(EvictIfShort(es, maxCacheSz, sz), key).None?
  {
    EvictIsPrefix(es, maxCacheSz, sz);
  }

  /** `cache_evict` only removes entries from the least recently used end; it
      stops when the list is empty or the free space is below `sz`, and the
      total drops by exactly the sizes of the removed entries. */
  lemma {:induction false} EvictIsPrefix(es: seq<CacheItem>, maxCacheSz: nat, sz: nat)
    ensures var r := EvictAsWritten(es, maxCacheSz, sz);
      && |r| <= |es| && r == es[..|r|]
      && (r == [] || SizeSub(maxCacheSz, Total(r)) < sz)
      && Total(es) == Total(r) + Total(es[|r|..])
    decreases |es|
  {
    var r := EvictAsWritten(es, maxCacheSz, sz);
    if !(es == [] || SizeSub(maxCacheSz, Total(es)) < sz) {
      var es' := es[..|es| - 1];
      EvictIsPrefix(es', maxCacheSz, sz);
      assert es'[..|r|] == es[..|r|];
      assert es == es'[..|r|] + es[|r|..];
      TotalAppend(es[..|r|], es[|r|..]);
    } else {
      assert es[|r|..] == [];
    }
  }

  // ---------------------------------------------------------------------
  // What `cache_insert` and `cache_get` guarantee

  /** As called from `cache_insert` (free space below `sz`), `cache_evict`
      removes nothing: its loop guard `f_sz >= sz` is false on entry. */
  lemma {:induction false} EvictIfShortRemovesNothing(es: seq<CacheItem>, maxCacheSz: nat, sz: nat)
    ensures EvictIfShort(es, maxCacheSz, sz) == es
  {
  }

  /** An oversize object is never retrievable afterwards; if its key was
      absent the cache is unchanged, if present that entry alone is removed. */
  lemma {:induction false} InsertOversize(es: seq<CacheItem>, maxCacheSz: nat, maxObjectSz: nat,
                       key: string, value: seq<byte>, sz: nat)
    requires AllItems(es) && UniqueKeys(es) && maxObjectSz < sz
    ensures var r := InsertAsWritten(es, maxCacheSz, maxObjectSz, key, value, sz);
      && Find(r, key).None?
      && (Find(es, key).None? ==> r == es)
      && (Find(es, key).Some? ==> r == Without(es, Find(es, key).value))
  {
    if Find(es, key).Some? {
      WithoutUnique(es, Find(es, key).value);
    }
  }

  /** An object that fits the per-object limit ends up first, with exactly one
      entry for its key; an existing entry keeps its old value and size. No
      other key is lost, because eviction as called removes nothing. */
  lemma {:induction false} InsertFront(es: seq<CacheItem>, maxCacheSz: nat, maxObjectSz: nat,
                    key: string, value: seq<byte>, sz: nat)
    requires AllItems(es) && UniqueKeys(es) && sz <= maxObjectSz
    ensures var r := InsertAsWritten(es, maxCacheSz, maxObjectSz, key, value, sz);
      && r != [] && Matches(r[0], key) && Find(r[1..], key).None?
      && AllItems(r) && UniqueKeys(r)
      && r[0] == (match Find(es, key) case None => Item(key, value, sz) case Some(i) => es[i])
      && (forall k :: k != key ==> (Find(r, k).Some? <==> Find(es, k).Some?))
      && Total(r) == Total(es) + (if Find(es, key).None? then sz else 0)
  {
    var r := InsertAsWritten(es, maxCacheSz, maxObjectSz, key, value, sz);
    var rest := if Find(es, key).None? then es else Without(es, Find(es, key).value);
    assert r == [r[0]] + rest;
    assert r[1..] == rest;
    TotalAppend([r[0]], rest);
    if Find(es, key).Some? {
      var i := Find(es, key).value;
      WithoutUnique(es, i);
      TotalWithout(es, i);
      forall k | k != key ensures Find(rest, k).Some? <==> Find(es, k).Some? {
        WithoutKeepsOthers(es, i, k);
      }
    }
    forall k | k != key ensures Find(r, k).Some? <==> Find(rest, k).Some? {
      ConsKeys(r[0], rest, k);
    }
    ConsUnique(r[0], rest);
  }

  /** Taking out one entry keeps every other key as retrievable as it was. */
  lemma {:induction false} WithoutKeepsOthers(es: seq<CacheItem>, i: nat, k: string)
    requires i < |es| && !Matches(es[i], k)
    ensures Find(Without(es, i), k).Some? <==> Find(es, k).Some?
  {
    var rest := Without(es, i);
    if Find(es, k).Some? {
      var j := Find(es, k).value;
      if j < i { assert rest[j] == es[j]; } else { assert rest[j - 1] == es[j]; }
    }
    if Find(rest, k).Some? {
      var j := Find(rest, k).value;
      if j < i { assert rest[j] == es[j]; } else { assert rest[j] == es[j + 1]; }
    }
  }

  /** Putting an entry with another key in front changes nothing for `k`. */
  lemma {:induction false} ConsKeys(x: CacheItem, rest: seq<CacheItem>, k: string)
    requires !Matches(x, k)
    ensures Find([x] + rest, k).Some? <==> Find(rest, k).Some?
  {
    assert ([x] + rest)[1..] == rest;
  }

  /** An entry whose key is absent can go in front without a duplicate key. */
  lemma {:induction false} ConsUnique(x: CacheItem, rest: seq<CacheItem>)
    requires x.Item? && AllItems(rest) && UniqueKeys(rest) && Find(rest, x.key).None?
    ensures AllItems([x] + rest) && UniqueKeys([x] + rest)
  {
    var r := [x] + rest;
    forall i, j | 0 <= i < j < |r| ensures r[i].key != r[j].key {
      assert r[j] == rest[j - 1];
      if i > 0 { assert r[i] == rest[i - 1]; }
    }
  }

  /** `cache_get` on a hit moves the entry to the front and keeps the total;
      on a miss nothing changes. */
  lemma {:induction false} GetMovesToFront(es: seq<CacheItem>, key: string)
    requires AllItems(es) && UniqueKeys(es)
    ensures var r := GetResult(es, key);
      && (Find(es, key).None? ==> r == es)
      && (Find(es, key).Some? ==> r[0] == es[Find(es, key).value] && r[1..] == Without(es, Find(es, key).value))
      && Total(r) == Total(es)
      && |r| == |es| && AllItems(r) && UniqueKeys(r)
  {
    if Find(es, key).Some? {
      var i := Find(es, key).value;
      var r := GetResult(es, key);
      TotalAppend([es[i]], Without(es, i));
      TotalWithout(es, i);
      WithoutUnique(es, i);
      ConsUnique(es[i], Without(es, i));
    }
  }

  /** Each item's `value` holds exactly the `size` bytes its `size` field
      counts, "the size of the payload of value". */
  predicate PayloadSized(es: seq<CacheItem>) {
    forall i :: 0 <= i < |es| && es[i].Item? ==> |es[i].value| == es[i].size
  }

  lemma WithoutSized(es: seq<CacheItem>, i: nat)
    requires i < |es| && PayloadSized(es)
    ensures PayloadSized(Without(es, i))
  {
    var r := Without(es, i);
    forall j | 0 <= j < |r| ensures r[j] == es[if j < i then j else j + 1] {
    }
  }

  /** `cache_insert` of a value that holds its `sz` bytes keeps every
      payload sized; an oversize value is never stored, whatever it holds. */
  lemma InsertKeepsSized(es: seq<CacheItem>, maxCacheSz: nat, maxObjectSz: nat,
                         key: string, value: seq<byte>, sz: nat)
    requires PayloadSized(es) && (sz <= maxObjectSz ==> |value| == sz)
    ensures PayloadSized(InsertAsWritten(es, maxCacheSz, maxObjectSz, key, value, sz))
  {
    var rest := if Find(es, key).None? then es else Without(es, Find(es, key).value);
    if Find(es, key).Some? {
      WithoutSized(es, Find(es, key).value);
    }
    if sz <= maxObjectSz {
      var e := EvictIfShort(rest, maxCacheSz, sz);
      EvictIsPrefix(rest, maxCacheSz, sz);
      assert forall j :: 0 <= j < |e| ==> e[j] == rest[j];
      var x := match Find(es, key) case None => Item(key, value, sz) case Some(i) => es[i];
      assert InsertAsWritten(es, maxCacheSz, maxObjectSz, key, value, sz) == [x] + e;
    }
  }

  /** `cache_get` keeps every payload sized: it only reorders the items. */
  lemma GetKeepsSized(es: seq<CacheItem>, key: string)
    requires PayloadSized(es)
    ensures PayloadSized(GetResult(es, key))
  {
    if Find(es, key).Some? {
      var i := Find(es, key).value;
      WithoutSized(es, i);
      assert GetResult(es, key) == [es[i]] + Without(es, i);
    }
  }

  // ---------------------------------------------------------------------
  // The eviction rule the comments describe

  /** `cache_evict` as its comment intends: drop least recently used entries
      until `sz` more bytes fit within `max_cache_sz`, or the cache is empty. */
  function EvictToFit(es: seq<CacheItem>, maxCacheSz: nat, sz: nat): seq<CacheItem>
    decreases |es|
  {
    if es == [] || Total(es) + sz <= maxCacheSz then es
    else EvictToFit(es[..|es| - 1], maxCacheSz, sz)
  }

  /** `cache_insert` with the intended eviction rule and nothing else
      changed: an existing entry is still relinked with its old item. */
  function InsertIntended(es: seq<CacheItem>, maxCacheSz: nat, maxObjectSz: nat,
                          key: string, value: seq<byte>, sz: nat): seq<CacheItem>
  {
    match Find(es, key)
    case None =>
      if maxObjectSz < sz then es
      else [Item(key, value, sz)] + EvictToFit(es, maxCacheSz, sz)
    case Some(i) =>
      if maxObjectSz < sz then Without(es, i)
      else [es[i]] + EvictToFit(Without(es, i), maxCacheSz, sz)
  }

  /** The intended eviction removes a suffix, makes room for `sz` when
      `sz <= max_cache_sz`, and removes no more entries than necessary. */
  lemma {:induction false} EvictToFitCorrect(es: seq<CacheItem>, maxCacheSz: nat, sz: nat)
    ensures var r := EvictToFit(es, maxCacheSz, sz);
      && |r| <= |es| && r == es[..|r|]
      && (sz <= maxCacheSz ==> Total(r) + sz <= maxCacheSz)
      && (|r| < |es| ==> Total(es[..|r| + 1]) + sz > maxCacheSz)
    decreases |es|
  {
    var r := EvictToFit(es, maxCacheSz, sz);
    if !(es == [] || Total(es) + sz <= maxCacheSz) {
      var es' := es[..|es| - 1];
      EvictToFitCorrect(es', maxCacheSz, sz);
      assert es'[..|r|] == es[..|r|];
      if |r| < |es'| {
        assert es'[..|r| + 1] == es[..|r| + 1];
      } else {
        assert es[..|r| + 1] == es;
      }
    }
  }

  /** With the intended rule the capacity invariant holds after every insert. */
  lemma {:induction false} InsertIntendedWithinCapacity(es: seq<CacheItem>, maxCacheSz: nat, maxObjectSz: nat,
                                     key: string, value: seq<byte>, sz: nat)
    requires Total(es) <= maxCacheSz && maxObjectSz <= maxCacheSz
    ensures Total(InsertIntended(es, maxCacheSz, maxObjectSz, key, value, sz)) <= maxCacheSz
  {
    if sz <= maxObjectSz {
      match Find(es, key)
      case None =>
        var e := EvictToFit(es, maxCacheSz, sz);
        EvictToFitCorrect(es, maxCacheSz, sz);
        TotalAppend([Item(key, value, sz)], e);
      case Some(i) =>
        // The relinked item was already counted: the total cannot grow.
        var rest := Without(es, i);
        TotalWithout(es, i);
        var e := EvictToFit(rest, maxCacheSz, sz);
        EvictToFitCorrect(rest, maxCacheSz, sz);
        TotalAppend(e, rest[|e|..]);
        assert e + rest[|e|..] == rest;
        TotalAppend([es[i]], e);
    } else if Find(es, key).Some? {
      TotalWithout(es, Find(es, key).value);
    }
  }

  /** Three entries A, B, C fill a cache of capacity 4 (per-object limit 3). */
  function ThreeEntries(): seq<CacheItem> {
    var e1 := InsertAsWritten([], 4, 3, "A", [1], 1);
    var e2 := InsertAsWritten(e1, 4, 3, "B", [2], 1);
    InsertAsWritten(e2, 4, 3, "C", [3, 3], 2)
  }

  /** As written, inserting D into the full cache evicts nothing: the least
      recently used entry A stays and the total exceeds the capacity. */
  lemma OverCapacityAsWritten()
    ensures ThreeEntries() == [Item("C", [3, 3], 2), Item("B", [2], 1), Item("A", [1], 1)]
    ensures var r := InsertAsWritten(ThreeEntries(), 4, 3, "D", [4], 1);
      Total(r) == 5 && Find(r, "A").Some?
  {
    var e1 := InsertAsWritten([], 4, 3, "A", [1], 1);
    assert e1 == [Item("A", [1], 1)];
    var e2 := InsertAsWritten(e1, 4, 3, "B", [2], 1);
    assert Find(e1, "B") == None;
    assert e2 == [Item("B", [2], 1), Item("A", [1], 1)];
    assert Find(e2, "C") == None;
    var e3 := ThreeEntries();
    assert e3 == [Item("C", [3, 3], 2)] + EvictIfShort(e2, 4, 2);
    assert Find(e3, "D") == None;
    var r := InsertAsWritten(e3, 4, 3, "D", [4], 1);
    assert r == [Item("D", [4], 1)] + e3;
    assert r[3] == Item("A", [1], 1);
    assert Total(e3) == 4;
  }

  /** With the intended rule the same insert evicts exactly A. */
  lemma EvictsLeastRecentlyUsedIntended()
    ensures InsertIntended(ThreeEntries(), 4, 3, "D", [4], 1)
      == [Item("D", [4], 1), Item("C", [3, 3], 2), Item("B", [2], 1)]
  {
    OverCapacityAsWritten();
    var e3 := ThreeEntries();
    EvictOneOfThree(e3);
    assert Find(e3, "D") == None;
  }

  /** Making room for one byte in the full cache of capacity 4 drops only
      the last entry. */
  lemma EvictOneOfThree(es: seq<CacheItem>)
    requires es == [Item("C", [3, 3], 2), Item("B", [2], 1), Item("A", [1], 1)]
    ensures EvictToFit(es, 4, 1) == [Item("C", [3, 3], 2), Item("B", [2], 1)]
  {
    var cb := es[..2];
    assert es[2..] == [Item("A", [1], 1)] && Total(es[2..]) == 1;
    assert es[1..][1..] == es[2..] && Total(es[1..]) == 2;
    assert Total(es) == 4;
    assert cb == [Item("C", [3, 3], 2), Item("B", [2], 1)];
    assert cb[1..] == [Item("B", [2], 1)] && Total(cb[1..]) == 1;
    assert Total(cb) == 3;
  }
}
