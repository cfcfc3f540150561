/** The set-associative cache simulator (Labs/Lab04-cache/csim.c).

    The masks that `constructCache` stores are C `int`s, modelled as `bv32`.
    Addresses are non-negative C `int`s; on those, masking and shifting select
    the set index `(address / 2^b) % 2^s` and the tag `address / 2^(s+b)`,
    which is how the model computes them.  Line ages and the record counter
    (C `long`) are unbounded integers.  The trace is given already parsed,
    one `TraceLine` per line of the file. */
module CacheSim {
  import opened Common

  // ---------------------------------------------------------------------
  // Masks (constructCache)

  /** The geometry `constructCache` can represent: every mask and shift fits
      a 32-bit `int`.  Shift amounts are small, so they are bytes. */
  predicate Geometry(s: bv8, b: bv8)
  {
    s <= 31 && b <= 31 && s + b <= 31
  }

  lemma GeometryOf(s: nat, b: nat)
    requires s + b <= 31
    ensures Geometry(s as bv8, b as bv8)
  {
  }

  /** `offMask = (1 << b) - 1`: the block-offset bits. */
  function OffMask(b: bv8): bv32
    requires b <= 31
  {
    ((1 as bv32) << b) - 1
  }

  /** `setMask = (1 << (b + s)) - 1 - offMask`: the set-index bits. */
  function SetMask(s: bv8, b: bv8): bv32
    requires Geometry(s, b)
  {
    ((1 as bv32) << (b + s)) - 1 - OffMask(b)
  }

  /** `tagMask = ~0 - (setMask | offMask)`: every other bit. */
  function TagMask(s: bv8, b: bv8): bv32
    requires Geometry(s, b)
  {
    0xFFFF_FFFF - (SetMask(s, b) | OffMask(b))
  }

  /** Is bit `k` of `m` set? */
  predicate Bit(m: bv32, k: bv8)
    requires k < 32
  {
    (m >> k) & 1 == 1
  }

  /** `offMask` holds exactly the low `c` bits. */
  lemma OffMaskBits(c: bv8)
    requires c <= 31
    ensures forall k: bv8 :: k < 32 ==> (Bit(OffMask(c), k) <==> k < c)
  {
    forall k: bv8 | k < 32 ensures Bit(OffMask(c), k) <==> k < c {
      OffMaskBit(c, k);
    }
  }

  lemma OffMaskBit(c: bv8, k: bv8)
    requires c <= 31 && k < 32
    ensures Bit(OffMask(c), k) <==> k < c
  {
  }

  lemma OffMaskNested(s: bv8, b: bv8)
    requires Geometry(s, b)
    ensures OffMask(b) & OffMask(b + s) == OffMask(b)
  {
  }

  lemma SubIsAndNot(x: bv32, y: bv32)
    requires y & x == y
    ensures x - y == x & !y
  {
  }

  /** `setMask` is the bits below `b + s` that are not below `b`. */
  lemma SetMaskIs(s: bv8, b: bv8)
    requires Geometry(s, b)
    ensures SetMask(s, b) == OffMask(b + s) & !OffMask(b)
  {
    OffMaskNested(s, b);
    SubIsAndNot(OffMask(b + s), OffMask(b));
  }

  /** `tagMask` is every bit from `b + s` up. */
  lemma TagMaskIs(s: bv8, b: bv8)
    requires Geometry(s, b)
    ensures TagMask(s, b) == !OffMask(b + s)
  {
    SetMaskIs(s, b);
    OffMaskNested(s, b);
  }

  lemma BitAndNot(x: bv32, y: bv32, k: bv8)
    requires k < 32
    ensures Bit(x & !y, k) <==> Bit(x, k) && !Bit(y, k)
  {
  }

  lemma BitNot(x: bv32, k: bv8)
    requires k < 32
    ensures Bit(!x, k) <==> !Bit(x, k)
  {
  }

  lemma BitRange(x: bv32, y: bv32, z: bv32, k: bv8, lo: bv8, hi: bv8)
    requires k < 32 && z == x & !y && (Bit(x, k) <==> k < hi) && (Bit(y, k) <==> k < lo)
    ensures Bit(z, k) <==> lo <= k < hi
  {
    BitAndNot(x, y, k);
  }

  /** `setMask` holds exactly the bits `[b, b + s)`. */
  lemma SetMaskBits(s: bv8, b: bv8)
    requires Geometry(s, b)
    ensures forall k: bv8 :: k < 32 ==> (Bit(SetMask(s, b), k) <==> b <= k < b + s)
  {
    forall k: bv8 | k < 32 ensures Bit(SetMask(s, b), k) <==> b <= k < b + s {
      SetMaskBit(s, b, k);
    }
  }

  lemma SetMaskBit(s: bv8, b: bv8, k: bv8)
    requires Geometry(s, b) && k < 32
    ensures Bit(SetMask(s, b), k) <==> b <= k < b + s
  {
    SetMaskIs(s, b);
    OffMaskBit(b, k);
    OffMaskBit(b + s, k);
    BitRange(OffMask(b + s), OffMask(b), SetMask(s, b), k, b, b + s);
  }

  /** `tagMask` holds exactly the bits `[b + s, 32)`. */
  lemma TagMaskBits(s: bv8, b: bv8)
    requires Geometry(s, b)
    ensures forall k: bv8 :: k < 32 ==> (Bit(TagMask(s, b), k) <==> b + s <= k)
  {
    TagMaskIs(s, b);
    forall k: bv8 | k < 32 ensures Bit(TagMask(s, b), k) <==> b + s <= k {
      OffMaskBit(b + s, k);
      BitNot(OffMask(b + s), k);
    }
  }

  /** The three masks are pairwise disjoint and together cover all 32 bits. */
  lemma MasksPartition(s: bv8, b: bv8)
    requires Geometry(s, b)
    ensures OffMask(b) & SetMask(s, b) == 0 && OffMask(b) & TagMask(s, b) == 0
    ensures SetMask(s, b) & TagMask(s, b) == 0
    ensures OffMask(b) | SetMask(s, b) | TagMask(s, b) == 0xFFFF_FFFF
  {
  }

  // ---------------------------------------------------------------------
  // Address decomposition (loadFromCache)

  /** A non-negative C `int` address. */
  type Address = a: int | 0 <= a < 0x8000_0000

  lemma MulDistrib(x: int, y: int, z: int)
    ensures x * (y + z) == x * y + x * z
  {
  }
  lemma MulAssoc(x: int, y: int, z: int)
    ensures x * (y * z) == (x * y) * z
  {
  }
  lemma MulMono(x: nat, y: int, z: int)
    requires y <= z
    ensures x * y <= x * z
  {
  }
  lemma QuotientsEqual(d: int, q0: int, q: int, r0: int, r: int)
    requires d > 0 && 0 <= r0 < d && 0 <= r < d && d * q0 + r0 == d * q + r
    ensures q0 == q
  {
    MulDistrib(d, q, q0 - q);
    if q0 > q {
      MulMono(d, 1, q0 - q);
    } else if q0 < q {
      MulMono(d, q0 - q, -1);
    }
  }
  lemma DivUnique(a: int, d: int, q: int, r: int)
    requires d > 0 && 0 <= r < d && a == d * q + r
    ensures a / d == q && a % d == r
  {
    QuotientsEqual(d, a / d, q, a % d, r);
  }
  lemma DivDiv(a: nat, x: nat, y: nat)
    requires x > 0 && y > 0
    ensures a / x / y == a / (x * y)
  {
    var q, r := a / x, a % x;
    var q2, r2 := q / y, q % y;
    MulDistrib(x, y * q2, r2);
    MulAssoc(x, y, q2);
    MulMono(x, r2, y - 1);
    MulDistrib(x, y, -1);
    DivUnique(a, x * y, q2, x * r2 + r);
  }
  lemma DivMod(a: int, d: int)
    requires d > 0
    ensures a == d * (a / d) + a % d && 0 <= a % d < d
  {
  }
  lemma DivDivSwap(a: nat, x: nat, y: nat)
    requires x > 0 && y > 0
    ensures a / x / y == a / (y * x)
  {
    DivDiv(a, x, y);
    assert x * y == y * x;
  }
  /** The set index `(SetMask & address) >> b`. */
  function SetIndex(address: Address, s: nat, b: nat): (k: nat)
    ensures k < Pow2(s)
  {
    (address / Pow2(b)) % Pow2(s)
  }
  /** The tag `(TagMask & address) >> (s + b)`. */
  function Tag(address: Address, s: nat, b: nat): int
  {
    address / Pow2(s + b)
  }
  /** The tag is the block number divided by the number of sets. */
  lemma TagOfBlock(address: Address, s: nat, b: nat)
    ensures Tag(address, s, b) == (address / Pow2(b)) / Pow2(s)
  {
    Pow2Add(s, b);
    DivDivSwap(address, Pow2(b), Pow2(s));
  }
  lemma Combine(q: int, t: int, k: int, S: int, B: int)
    requires q == S * t + k
    ensures B * q == t * (S * B) + k * B
  {
    MulDistrib(B, S * t, k);
    MulAssoc(B, S, t);
    assert t * (S * B) == (B * S) * t;
  }

  /** Tag, set index and block offset put back together give the address. */
  lemma Decompose(address: Address, s: nat, b: nat)
    ensures Tag(address, s, b) * Pow2(s + b) + SetIndex(address, s, b) * Pow2(b)
              + address % Pow2(b) == address
  {
    var B, S := Pow2(b), Pow2(s);
    var q := address / B;
    TagOfBlock(address, s, b);
    Pow2Add(s, b);
    DivMod(address, B);
    DivMod(q, S);
    Combine(q, q / S, q % S, S, B);
  }
  /** Two addresses get the same set and the same tag exactly when they lie
      in the same block of `2^b` bytes. */
  lemma SameBlock(a1: Address, a2: Address, s: nat, b: nat)
    ensures (SetIndex(a1, s, b) == SetIndex(a2, s, b) && Tag(a1, s, b) == Tag(a2, s, b))
        <==> a1 / Pow2(b) == a2 / Pow2(b)
  {
    var B, S := Pow2(b), Pow2(s);
    var q1, q2 := a1 / B, a2 / B;
    TagOfBlock(a1, s, b);
    TagOfBlock(a2, s, b);
    DivMod(q1, S);
    DivMod(q2, S);
  }

  // ---------------------------------------------------------------------
  // One set: the hit / miss / eviction rule of loadFromCache

  /** A cache line; the block's data is not simulated. */
  datatype CacheLine = CacheLine(valid: bool, tag: int, age: int)

  /** What `loadFromCache` returns (0 hit, 1 miss, 2 miss with eviction)
      together with the set's lines afterwards. */
  datatype LoadOutcome = LoadOutcome(code: int, row: seq<CacheLine>)

  /** The `minAge`/`minIdx` pair the scan keeps. */
  datatype MinPick = MinPick(age: int, idx: int)

  predicate Hit(l: CacheLine, tag: int)
  {
    l.valid && l.tag == tag
  }

  /** Where the scan of `loadFromCache` stops: the first line that hits or is
      invalid, or `|row|` when there is none. */
  function FirstStop(row: seq<CacheLine>, tag: int): (i: nat)
    ensures i <= |row|
    ensures forall j :: 0 <= j < i ==> row[j].valid && row[j].tag != tag
    ensures i < |row| ==> !row[i].valid || row[i].tag == tag
  {
    if row == [] then 0
    else if !row[0].valid || row[0].tag == tag then 0
    else 1 + FirstStop(row[1..], tag)
  }

  /** The `minAge`/`minIdx` pair after scanning `row` from `minAge = counter`,
      `minIdx = -1`: the first line of smallest age, if that age is below
      `counter`. */
  function MinScan(row: seq<CacheLine>, counter: int): (m: MinPick)
    ensures -1 <= m.idx < |row| && m.age <= counter
    ensures forall j :: 0 <= j < |row| ==> m.age <= row[j].age
    ensures m.idx == -1 ==> m.age == counter
    ensures m.idx >= 0 ==> m.age == row[m.idx].age < counter
    ensures m.idx >= 0 ==> forall j :: 0 <= j < m.idx ==> m.age < row[j].age
    decreases |row|
  {
    if row == [] then MinPick(counter, -1)
    else
      var m := MinScan(row[..|row| - 1], counter);
      if row[|row| - 1].age < m.age then MinPick(row[|row| - 1].age, |row| - 1) else m
  }

  /** `loadFromCache` is defined on this set: some line is invalid, hits, or
      is older than `counter` (otherwise it would write `lines[-1]`). */
  predicate Loadable(row: seq<CacheLine>, tag: int, counter: int)
  {
    exists j :: 0 <= j < |row| && (!row[j].valid || row[j].tag == tag || row[j].age < counter)
  }

  /** Valid lines come first in every set. */
  predicate ValidPrefix(row: seq<CacheLine>)
  {
    forall i, j :: 0 <= i < j < |row| && row[j].valid ==> row[i].valid
  }

  /** Every valid line was last used at or before `bound`. */
  predicate AgesAtMost(row: seq<CacheLine>, bound: int)
  {
    forall j :: 0 <= j < |row| && row[j].valid ==> row[j].age <= bound
  }

  /** The effect of `loadFromCache(address, cache, counter)` on one set. */
  function Load(row: seq<CacheLine>, tag: int, counter: int): LoadOutcome
    requires Loadable(row, tag, counter)
  {
    var i := FirstStop(row, tag);
    if i < |row| && row[i].valid then
      LoadOutcome(0, row[i := row[i].(age := counter)])
    else if i < |row| then
      LoadOutcome(1, row[i := CacheLine(true, tag, counter)])
    else
      var m := MinScan(row, counter).idx;
      LoadOutcome(2, row[m := row[m].(tag := tag, age := counter)])
  }

  /** The line `Load` writes. */
  function ChangedLine(row: seq<CacheLine>, tag: int, counter: int): int
    requires Loadable(row, tag, counter)
  {
    var i := FirstStop(row, tag);
    if i < |row| then i else MinScan(row, counter).idx
  }

  lemma ChangedLineWritten(row: seq<CacheLine>, tag: int, counter: int)
    requires Loadable(row, tag, counter)
    ensures var j := ChangedLine(row, tag, counter);
      0 <= j < |row| && j <= FirstStop(row, tag)
      && Load(row, tag, counter).row == row[j := CacheLine(true, tag, counter)]
  {
  }

  /** Whatever the outcome, exactly one line changes, and it becomes a valid
      line holding `tag` used at `counter`. */
  lemma LoadChangesOneLine(row: seq<CacheLine>, tag: int, counter: int)
    requires Loadable(row, tag, counter)
    ensures var o := Load(row, tag, counter);
      |o.row| == |row|
      && exists j :: 0 <= j < |row| && o.row[j] == CacheLine(true, tag, counter)
                     && forall x :: 0 <= x < |row| && x != j ==> o.row[x] == row[x]
  {
    ChangedLineWritten(row, tag, counter);
    var j := ChangedLine(row, tag, counter);
    assert Load(row, tag, counter).row[j] == CacheLine(true, tag, counter);
  }

  /** A hit (code 0) exactly when some valid line holds the tag; then
      only that line's age changes. */
  lemma LoadHit(row: seq<CacheLine>, tag: int, counter: int)
    requires Loadable(row, tag, counter) && ValidPrefix(row)
    ensures var o := Load(row, tag, counter);
      (o.code == 0 <==> exists j :: 0 <= j < |row| && Hit(row[j], tag))
      && (o.code == 0 ==> exists j :: 0 <= j < |row| && Hit(row[j], tag)
                                      && o.row == row[j := row[j].(age := counter)])
  {
    var i := FirstStop(row, tag);
    if exists j :: 0 <= j < |row| && Hit(row[j], tag) {
      var j :| 0 <= j < |row| && Hit(row[j], tag);
      assert i <= j;
      assert row[i].valid;
    }
  }

  /** A plain miss (code 1) exactly when no line hits and some line is
      invalid; the first invalid line is filled. */
  lemma LoadMiss(row: seq<CacheLine>, tag: int, counter: int)
    requires Loadable(row, tag, counter) && ValidPrefix(row)
    ensures var o := Load(row, tag, counter);
      (o.code == 1 <==> (forall j :: 0 <= j < |row| ==> !Hit(row[j], tag))
                        && exists j :: 0 <= j < |row| && !row[j].valid)
      && (o.code == 1 ==> exists j :: 0 <= j < |row| && !row[j].valid
                           && (forall i :: 0 <= i < j ==> row[i].valid)
                           && o.row == row[j := CacheLine(true, tag, counter)])
  {
    var i := FirstStop(row, tag);
    LoadHit(row, tag, counter);
    if exists j :: 0 <= j < |row| && !row[j].valid {
      var j :| 0 <= j < |row| && !row[j].valid;
      assert i <= j;
    }
  }

  /** An eviction (code 2) exactly when every line is valid and none hits;
      the least recently used line (the first of smallest age) gets the new
      tag and stays valid. */
  lemma LoadEvict(row: seq<CacheLine>, tag: int, counter: int)
    requires Loadable(row, tag, counter)
    ensures var o := Load(row, tag, counter);
      (o.code == 2 <==> forall j :: 0 <= j < |row| ==> row[j].valid && row[j].tag != tag)
      && (o.code == 2 ==> exists m :: 0 <= m < |row|
                           && (forall j :: 0 <= j < |row| ==> row[m].age <= row[j].age)
                           && (forall j :: 0 <= j < m ==> row[m].age < row[j].age)
                           && o.row == row[m := CacheLine(true, tag, counter)])
  {
    var i := FirstStop(row, tag);
    if i == |row| {
      var m := MinScan(row, counter);
      assert m.idx >= 0;
      assert Load(row, tag, counter).row == row[m.idx := CacheLine(true, tag, counter)];
    }
  }

  /** Loading keeps valid lines a prefix, stamps only `counter`, and leaves
      the block present, so loading it again at once is a hit that changes
      nothing (the second access of an `M` record). */
  lemma LoadThenHit(row: seq<CacheLine>, tag: int, counter: int, bound: int)
    requires Loadable(row, tag, counter) && ValidPrefix(row) && AgesAtMost(row, bound)
    requires bound <= counter
    ensures var o := Load(row, tag, counter);
      ValidPrefix(o.row) && AgesAtMost(o.row, counter) && |o.row| == |row|
      && Loadable(o.row, tag, counter)
      && Load(o.row, tag, counter) == LoadOutcome(0, o.row)
  {
    var o := Load(row, tag, counter);
    ChangedLineWritten(row, tag, counter);
    var j := ChangedLine(row, tag, counter);
    var i := FirstStop(row, tag);
    if i < |row| && !row[i].valid {
      assert j == i;
      forall x, y | 0 <= x < y < |o.row| && o.row[y].valid ensures o.row[x].valid {
        if y != i && x != i {
          assert row[y].valid;
        } else if y == i {
          assert x < i;
        }
      }
    } else {
      assert row[j].valid;
      assert ValidPrefix(o.row);
    }
    assert Hit(o.row[j], tag);
    LoadHit(o.row, tag, counter);
    var k := FirstStop(o.row, tag);
    assert k <= j;
    assert o.row[k].valid && o.row[k].tag == tag;
    assert k == j;
    assert o.row[k := o.row[k].(age := counter)] == o.row;
  }

  // ---------------------------------------------------------------------
  // The whole cache and the trace loop of simulateCache

  /** One line of the trace file after `fgets`/`sscanf`: an instruction
      fetch (first character `'I'`), a data access ` op address,size`, or a
      line the simulator rejects.  The size is only printed, so it is not kept. */
  datatype TraceLine = Instruction | Access(op: char, address: Address) | Malformed

  /** The simulator's variables: exit status, the three counters, the sets
      and `counter`. */
  datatype Sim = Sim(status: int, hits: nat, misses: nat, evictions: nat,
                     sets: seq<seq<CacheLine>>, counter: int)

  /** Every set has `E` lines, valid lines first, none used after `bound`. */
  predicate SetsWithin(sets: seq<seq<CacheLine>>, E: nat, bound: int)
  {
    forall k :: 0 <= k < |sets| ==> |sets[k]| == E && ValidPrefix(sets[k]) && AgesAtMost(sets[k], bound)
  }

  /** The simulator state at the start of a record. */
  predicate Ready(st: Sim, s: nat, E: nat)
  {
    E >= 1 && |st.sets| == Pow2(s) && SetsWithin(st.sets, E, st.counter - 1)
  }

  /** Bump the counters for one `loadFromCache` result. */
  function Tally(st: Sim, code: int): Sim
  {
    if code == 0 then st.(hits := st.hits + 1)
    else if code == 1 then st.(misses := st.misses + 1)
    else st.(misses := st.misses + 1, evictions := st.evictions + 1)
  }

  /** One call of `loadFromCache` (or `saveIntoCache`, which is the same)
      at the current counter, counted. */
  function AccessOnce(st: Sim, s: nat, b: nat, address: Address): Sim
    requires |st.sets| == Pow2(s)
    requires Loadable(st.sets[SetIndex(address, s, b)], Tag(address, s, b), st.counter)
  {
    var k := SetIndex(address, s, b);
    var o := Load(st.sets[k], Tag(address, s, b), st.counter);
    Tally(st.(sets := st.sets[k := o.row]), o.code)
  }

  lemma AccessOnceIs(st: Sim, s: nat, b: nat, address: Address, code: int, sets: seq<seq<CacheLine>>)
    requires |st.sets| == Pow2(s)
    requires Loadable(st.sets[SetIndex(address, s, b)], Tag(address, s, b), st.counter)
    requires var o := Load(st.sets[SetIndex(address, s, b)], Tag(address, s, b), st.counter);
      code == o.code && sets == st.sets[SetIndex(address, s, b) := o.row]
    ensures AccessOnce(st, s, b, address) == Tally(st.(sets := sets), code)
  {
  }

  /** A ready state can take an access; afterwards all ages are at most the
      counter, and the same address can be accessed again. */
  lemma AccessReady(st: Sim, s: nat, b: nat, E: nat, address: Address)
    requires Ready(st, s, E)
    ensures Loadable(st.sets[SetIndex(address, s, b)], Tag(address, s, b), st.counter)
    ensures var st1 := AccessOnce(st, s, b, address);
      |st1.sets| == Pow2(s) && SetsWithin(st1.sets, E, st1.counter) && st1.counter == st.counter
      && Loadable(st1.sets[SetIndex(address, s, b)], Tag(address, s, b), st1.counter)
      && AccessOnce(st1, s, b, address) == Tally(st1, 0)
  {
    var k := SetIndex(address, s, b);
    var row := st.sets[k];
    var tag := Tag(address, s, b);
    assert !row[0].valid || row[0].age < st.counter;
    LoadThenHit(row, tag, st.counter, st.counter - 1);
    var st1 := AccessOnce(st, s, b, address);
    forall x | 0 <= x < |st1.sets|
      ensures |st1.sets[x]| == E && ValidPrefix(st1.sets[x]) && AgesAtMost(st1.sets[x], st1.counter)
    {
      if x != k {
        assert st1.sets[x] == st.sets[x];
      }
    }
    assert st1.sets[k := st1.sets[k]] == st1.sets;
  }

  /** Every data record's access count: one for `L` and `S`, two for `M`. */
  function Accesses(trace: seq<TraceLine>): nat
  {
    if trace == [] then 0
    else (match trace[0]
          case Access(op, _) => if op == 'M' then 2 else 1
          case _ => 0) + Accesses(trace[1..])
  }

  /** Number of data records. */
  function Records(trace: seq<TraceLine>): nat
  {
    if trace == [] then 0
    else (if trace[0].Access? then 1 else 0) + Records(trace[1..])
  }

  predicate IsDataOp(op: char)
  {
    op == 'L' || op == 'S' || op == 'M'
  }

  /** One data record: load (`L`, `M`), then store (`S`, `M`), then advance
      `counter`. */
  function Step(st: Sim, s: nat, b: nat, E: nat, op: char, address: Address): Sim
    requires Ready(st, s, E) && IsDataOp(op)
  {
    AccessReady(st, s, b, E, address);
    var st1 := if op == 'L' || op == 'M' then AccessOnce(st, s, b, address) else st;
    var st2 := if op == 'S' || op == 'M' then AccessOnce(st1, s, b, address) else st1;
    st2.(counter := st2.counter + 1)
  }

  /** A record keeps the state ready, counts one access per `L`/`S` and two
      per `M`, and counts an eviction only together with a miss. */
  lemma StepFacts(st: Sim, s: nat, b: nat, E: nat, op: char, address: Address)
    requires Ready(st, s, E) && IsDataOp(op)
    ensures var r := Step(st, s, b, E, op, address);
      Ready(r, s, E) && r.status == st.status && r.counter == st.counter + 1
      && r.hits + r.misses == st.hits + st.misses + (if op == 'M' then 2 else 1)
      && r.hits >= st.hits && r.misses >= st.misses && r.evictions >= st.evictions
      && r.evictions - st.evictions <= r.misses - st.misses
      && (op == 'M' ==> r.hits >= st.hits + 1)
  {
    AccessReady(st, s, b, E, address);
  }

  /** `simulateCache` over the records of `trace`, from state `st`: an `I`
      line is skipped, a malformed line or an operation other than `L`, `S`,
      `M` stops with status 1 (`EXIT_FAILURE`). */
  function Run(st: Sim, s: nat, b: nat, E: nat, trace: seq<TraceLine>): Sim
    requires Ready(st, s, E)
    decreases |trace|
  {
    if trace == [] then st
    else match trace[0]
      case Instruction => Run(st, s, b, E, trace[1..])
      case Malformed => st.(status := 1)
      case Access(op, address) =>
        if !IsDataOp(op) then st.(status := 1)
        else
          StepFacts(st, s, b, E, op, address);
          Run(Step(st, s, b, E, op, address), s, b, E, trace[1..])
  }

  lemma RunSkip(st: Sim, s: nat, b: nat, E: nat, trace: seq<TraceLine>, n: nat)
    requires Ready(st, s, E) && n < |trace| && trace[n].Instruction?
    ensures Run(st, s, b, E, trace[n..]) == Run(st, s, b, E, trace[n + 1..])
  {
    assert trace[n..][1..] == trace[n + 1..];
  }

  lemma RunStop(st: Sim, s: nat, b: nat, E: nat, trace: seq<TraceLine>, n: nat)
    requires Ready(st, s, E) && n < |trace|
    requires trace[n].Malformed? || (trace[n].Access? && !IsDataOp(trace[n].op))
    ensures Run(st, s, b, E, trace[n..]) == st.(status := 1)
  {
  }

  lemma RunStep(st: Sim, s: nat, b: nat, E: nat, trace: seq<TraceLine>, n: nat)
    requires Ready(st, s, E) && n < |trace| && trace[n].Access? && IsDataOp(trace[n].op)
    ensures Ready(Step(st, s, b, E, trace[n].op, trace[n].address), s, E)
    ensures Run(st, s, b, E, trace[n..])
         == Run(Step(st, s, b, E, trace[n].op, trace[n].address), s, b, E, trace[n + 1..])
  {
    StepFacts(st, s, b, E, trace[n].op, trace[n].address);
    assert trace[n..][1..] == trace[n + 1..];
  }

  /** The final state of a run is again ready: valid lines first, every
      stored age below the counter. */
  lemma {:induction false} RunReady(st: Sim, s: nat, b: nat, E: nat, trace: seq<TraceLine>)
    requires Ready(st, s, E)
    ensures Ready(Run(st, s, b, E, trace), s, E)
    decreases |trace|
  {
    if trace != [] {
      match trace[0]
      case Instruction => RunReady(st, s, b, E, trace[1..]);
      case Malformed =>
      case Access(op, address) =>
        if IsDataOp(op) {
          StepFacts(st, s, b, E, op, address);
          RunReady(Step(st, s, b, E, op, address), s, b, E, trace[1..]);
        }
    }
  }

  /** Every eviction is also counted as a miss. */
  lemma {:induction false} RunEvictionsAreMisses(st: Sim, s: nat, b: nat, E: nat, trace: seq<TraceLine>)
    requires Ready(st, s, E)
    ensures var r := Run(st, s, b, E, trace);
      r.evictions - st.evictions <= r.misses - st.misses
      && r.hits >= st.hits && r.misses >= st.misses && r.evictions >= st.evictions
    decreases |trace|
  {
    if trace != [] {
      match trace[0]
      case Instruction => RunEvictionsAreMisses(st, s, b, E, trace[1..]);
      case Malformed =>
      case Access(op, address) =>
        if IsDataOp(op) {
          StepFacts(st, s, b, E, op, address);
          RunEvictionsAreMisses(Step(st, s, b, E, op, address), s, b, E, trace[1..]);
        }
    }
  }

  /** A run that succeeds counts one hit or miss per access and advances the
      counter once per data record; `I` lines count nothing. */
  lemma {:induction false} RunCounts(st: Sim, s: nat, b: nat, E: nat, trace: seq<TraceLine>)
    requires Ready(st, s, E) && st.status == 0
    ensures var r := Run(st, s, b, E, trace);
      r.status == 0 ==>
        r.hits + r.misses == st.hits + st.misses + Accesses(trace)
        && r.counter == st.counter + Records(trace)
    decreases |trace|
  {
    if trace != [] {
      match trace[0]
      case Instruction => RunCounts(st, s, b, E, trace[1..]);
      case Malformed =>
      case Access(op, address) =>
        if IsDataOp(op) {
          StepFacts(st, s, b, E, op, address);
          RunCounts(Step(st, s, b, E, op, address), s, b, E, trace[1..]);
        }
    }
  }

  /** The store half of an `M` record always hits. */
  lemma ModifyHitsOnStore(st: Sim, s: nat, b: nat, E: nat, address: Address)
    requires Ready(st, s, E)
    ensures var r := Run(st, s, b, E, [Access('M', address)]);
      r.hits >= st.hits + 1 && r.hits + r.misses == st.hits + st.misses + 2
  {
    StepFacts(st, s, b, E, 'M', address);
    assert [Access('M', address)][1..] == [];
  }

  // ---------------------------------------------------------------------
  // The simulator over arrays

  /** The `Cache` record: geometry, masks and `2^s` sets of `E` lines. */
  class Cache {
    const s: nat
    const E: nat
    const b: nat
    const setMask: bv32
    const tagMask: bv32
    const offMask: bv32
    const lines: array2<CacheLine>

    ghost predicate Valid()
      reads this
    {
      && s + b <= 31 && Geometry(s as bv8, b as bv8)
      && lines.Length0 == Pow2(s) && lines.Length1 == E
      && setMask == SetMask(s as bv8, b as bv8)
      && tagMask == TagMask(s as bv8, b as bv8)
      && offMask == OffMask(b as bv8)
    }

    /** Set `k` as a sequence of lines. */
    ghost function Row(k: nat): seq<CacheLine>
      reads this, lines
      requires k < lines.Length0
    {
      seq(lines.Length1, j requires 0 <= j < lines.Length1 reads lines => lines[k, j])
    }

    /** All sets. */
    ghost function Sets(): seq<seq<CacheLine>>
      reads this, lines
    {
      seq(lines.Length0, k requires 0 <= k < lines.Length0 reads this, lines => Row(k))
    }

    /** `constructCache(s, E, b)`: the masks above and `2^s` sets of `E`
        invalid lines of age 0. */
    constructor (s: nat, E: nat, b: nat)
      requires s + b <= 31
      ensures Valid() && this.s == s && this.E == E && this.b == b && fresh(lines)
      ensures forall k, j :: 0 <= k < lines.Length0 && 0 <= j < lines.Length1 ==>
                !lines[k, j].valid && lines[k, j].age == 0
    {
      GeometryOf(s, b);
      this.s, this.E, this.b := s, E, b;
      offMask := OffMask(b as bv8);
      setMask := SetMask(s as bv8, b as bv8);
      tagMask := TagMask(s as bv8, b as bv8);
      var a := Cache.NewSets(Pow2(s), E);
      lines := a;
    }

    /** The allocation loops of `constructCache`: `setNum` sets of `E`
        invalid lines of age 0. */
    static method NewSets(setNum: nat, E: nat) returns (a: array2<CacheLine>)
      ensures fresh(a) && a.Length0 == setNum && a.Length1 == E
      ensures forall k, j :: 0 <= k < setNum && 0 <= j < E ==> !a[k, j].valid && a[k, j].age == 0
    {
      a := new CacheLine[setNum, E];
      var i := 0;
      while i < setNum
        invariant 0 <= i <= setNum
        invariant forall k, j :: 0 <= k < i && 0 <= j < E ==> !a[k, j].valid && a[k, j].age == 0
      {
        var j := 0;
        while j < E
          invariant 0 <= j <= E
          invariant forall k, j' :: 0 <= k < i && 0 <= j' < E ==> !a[k, j'].valid && a[k, j'].age == 0
          invariant forall j' :: 0 <= j' < j ==> !a[i, j'].valid && a[i, j'].age == 0
        {
          a[i, j] := CacheLine(false, 0, 0);
          j := j + 1;
        }
        i := i + 1;
      }
    }

    /** `loadFromCache(address, cache, counter)`, proved against `Load`. */
    method LoadFromCache(address: Address, counter: int) returns (r: int)
      requires Valid()
      requires Loadable(Sets()[SetIndex(address, s, b)], Tag(address, s, b), counter)
      modifies lines
      ensures var k := SetIndex(address, s, b);
        var o := Load(old(Sets())[k], Tag(address, s, b), counter);
        r == o.code && Sets() == old(Sets())[k := o.row]
    {
      var setIndex := SetIndex(address, s, b);
      var tag := Tag(address, s, b);
      r := LoadSet(setIndex, tag, counter);
    }

    /** The loop of `loadFromCache` over the lines of set `k`: a hit renews
        the line's age, else the first invalid line is filled, else the
        first line older than every other is replaced. */
    method LoadSet(k: nat, tag: int, counter: int) returns (r: int)
      requires k < lines.Length0 && lines.Length1 == E && Loadable(Row(k), tag, counter)
      modifies lines
      ensures var o := Load(old(Row(k)), tag, counter);
        r == o.code && Sets() == old(Sets())[k := o.row]
    {
      var minAge := counter;
      var minIdx := -1;
      ghost var row := Row(k);
      var i := 0;
      while i < E
        invariant 0 <= i <= E
        invariant unchanged(lines)
        invariant forall j :: 0 <= j < i ==> row[j].valid && row[j].tag != tag
        invariant MinPick(minAge, minIdx) == MinScan(row[..i], counter)
      {
        if lines[k, i].valid && lines[k, i].tag == tag {
          LoadAtHit(row, tag, counter, i);
          WriteLine(k, i, lines[k, i].(age := counter));
          return 0;
        }
        if !lines[k, i].valid {
          LoadAtFree(row, tag, counter, i);
          WriteLine(k, i, CacheLine(true, tag, counter));
          return 1;
        }
        assert row[..i + 1][..i] == row[..i];
        if lines[k, i].age < minAge {
          minAge := lines[k, i].age;
          minIdx := i;
        }
        i := i + 1;
      }
      assert row[..E] == row;
      LoadAtEvict(row, tag, counter, minIdx);
      WriteLine(k, minIdx, lines[k, minIdx].(tag := tag, age := counter));
      return 2;
    }

    /** Store one line: set `k` of `Sets()` changes at position `j` only. */
    method WriteLine(k: nat, j: nat, v: CacheLine)
      requires k < lines.Length0 && j < lines.Length1
      modifies lines
      ensures Sets() == old(Sets())[k := old(Sets())[k][j := v]]
    {
      lines[k, j] := v;
      assert Row(k) == old(Row(k))[j := v];
      forall x | 0 <= x < lines.Length0
        ensures Sets()[x] == old(Sets())[k := old(Sets())[k][j := v]][x]
      {
        if x != k {
          assert Row(x) == old(Row(x));
        }
      }
    }

    /** `saveIntoCache` is `loadFromCache`. */
    method SaveIntoCache(address: Address, counter: int) returns (r: int)
      requires Valid()
      requires Loadable(Sets()[SetIndex(address, s, b)], Tag(address, s, b), counter)
      modifies lines
      ensures var k := SetIndex(address, s, b);
        var o := Load(old(Sets())[k], Tag(address, s, b), counter);
        r == o.code && Sets() == old(Sets())[k := o.row]
    {
      r := LoadFromCache(address, counter);
    }

    /** The counting after each `loadFromCache`/`saveIntoCache` call in
        `simulateCache`: a hit, a miss, or a miss and an eviction. */
    static method Count(t: int, hits: nat, misses: nat, evictions: nat)
      returns (h: nat, m: nat, e: nat)
      ensures t == 0 ==> h == hits + 1 && m == misses && e == evictions
      ensures t == 1 ==> h == hits && m == misses + 1 && e == evictions
      ensures t != 0 && t != 1 ==> h == hits && m == misses + 1 && e == evictions + 1
    {
      h, m, e := hits, misses, evictions;
      if t == 0 {
        h := h + 1;
      } else if t == 1 {
        m := m + 1;
      } else {
        m, e := m + 1, e + 1;
      }
    }

    /** One data record `op address` of the loop in `simulateCache`: a load
        for `L` and `M`, then a store for `S` and `M`, each counted. */
    method ProcessRecord(op: char, address: Address, counter: int, hits0: nat, misses0: nat, evictions0: nat)
      returns (hits: nat, misses: nat, evictions: nat)
      requires Valid() && IsDataOp(op) && Ready(Sim(0, hits0, misses0, evictions0, Sets(), counter), s, E)
      modifies lines
      ensures Sim(0, hits, misses, evictions, Sets(), counter + 1)
           == Step(Sim(0, hits0, misses0, evictions0, old(Sets()), counter), s, b, E, op, address)
    {
      ghost var st := Sim(0, hits0, misses0, evictions0, Sets(), counter);
      hits, misses, evictions := hits0, misses0, evictions0;
      AccessReady(st, s, b, E, address);
      if op == 'L' || op == 'M' {
        hits, misses, evictions := CountedAccess(false, address, counter, hits, misses, evictions);
      }
      ghost var st1 := if op == 'L' || op == 'M' then AccessOnce(st, s, b, address) else st;
      assert st1 == Sim(0, hits, misses, evictions, Sets(), counter);
      if op == 'S' || op == 'M' {
        hits, misses, evictions := CountedAccess(true, address, counter, hits, misses, evictions);
      }
      ghost var st2 := if op == 'S' || op == 'M' then AccessOnce(st1, s, b, address) else st1;
      assert st2 == Sim(0, hits, misses, evictions, Sets(), counter);
    }

    /** A `loadFromCache` (or, when `store`, `saveIntoCache`) call of
        `simulateCache` together with the counting of its result. */
    method CountedAccess(store: bool, address: Address, counter: int, hits0: nat, misses0: nat, evictions0: nat)
      returns (hits: nat, misses: nat, evictions: nat)
      requires Valid() && |Sets()| == Pow2(s)
      requires Loadable(Sets()[SetIndex(address, s, b)], Tag(address, s, b), counter)
      modifies lines
      ensures Sim(0, hits, misses, evictions, Sets(), counter)
           == AccessOnce(Sim(0, hits0, misses0, evictions0, old(Sets()), counter), s, b, address)
    {
      ghost var pre := Sim(0, hits0, misses0, evictions0, Sets(), counter);
      var t;
      if store {
        t := SaveIntoCache(address, counter);
      } else {
        t := LoadFromCache(address, counter);
      }
      hits, misses, evictions := Count(t, hits0, misses0, evictions0);
      AccessOnceIs(pre, s, b, address, t, Sets());
    }

    /** `simulateCache` over an already-parsed trace, starting from a cache
        whose valid lines (if any) come first in each set and were used
        before record 0; proved against `Run`. */
    method SimulateCache(trace: seq<TraceLine>) returns (status: int, hits: nat, misses: nat, evictions: nat)
      requires Valid() && E >= 1 && SetsWithin(Sets(), E, -1)
      modifies lines
      ensures var r := Run(Sim(0, 0, 0, 0, old(Sets()), 0), s, b, E, trace);
        status == r.status && hits == r.hits && misses == r.misses
        && evictions == r.evictions && Sets() == r.sets
    {
      hits, misses, evictions := 0, 0, 0;
      var counter := 0;
      ghost var start := Sim(0, 0, 0, 0, Sets(), 0);
      assert Ready(start, s, E);
      var n := 0;
      while n < |trace|
        invariant 0 <= n <= |trace|
        invariant Ready(Sim(0, hits, misses, evictions, Sets(), counter), s, E)
        invariant Run(start, s, b, E, trace)
               == Run(Sim(0, hits, misses, evictions, Sets(), counter), s, b, E, trace[n..])
      {
        ghost var st := Sim(0, hits, misses, evictions, Sets(), counter);
        match trace[n] {
          case Instruction =>
            RunSkip(st, s, b, E, trace, n);
          case Malformed =>
            RunStop(st, s, b, E, trace, n);
            return 1, hits, misses, evictions;
          case Access(op, address) =>
            if op != 'L' && op != 'S' && op != 'M' {
              RunStop(st, s, b, E, trace, n);
              return 1, hits, misses, evictions;
            }
            RunStep(st, s, b, E, trace, n);
            hits, misses, evictions := ProcessRecord(op, address, counter, hits, misses, evictions);
            counter := counter + 1;
        }
        n := n + 1;
      }
      assert trace[n..] == [];
      return 0, hits, misses, evictions;
    }
  }

  lemma LoadAtHit(row: seq<CacheLine>, tag: int, counter: int, i: nat)
    requires i < |row| && row[i].valid && row[i].tag == tag
    requires forall j :: 0 <= j < i ==> row[j].valid && row[j].tag != tag
    ensures Loadable(row, tag, counter)
    ensures Load(row, tag, counter) == LoadOutcome(0, row[i := row[i].(age := counter)])
  {
    FirstStopAt(row, tag, i);
  }

  lemma LoadAtFree(row: seq<CacheLine>, tag: int, counter: int, i: nat)
    requires i < |row| && !row[i].valid
    requires forall j :: 0 <= j < i ==> row[j].valid && row[j].tag != tag
    ensures Loadable(row, tag, counter)
    ensures Load(row, tag, counter) == LoadOutcome(1, row[i := CacheLine(true, tag, counter)])
  {
    FirstStopAt(row, tag, i);
  }

  lemma LoadAtEvict(row: seq<CacheLine>, tag: int, counter: int, m: int)
    requires Loadable(row, tag, counter)
    requires forall j :: 0 <= j < |row| ==> row[j].valid && row[j].tag != tag
    requires m == MinScan(row, counter).idx
    ensures 0 <= m < |row|
    ensures Load(row, tag, counter) == LoadOutcome(2, row[m := row[m].(tag := tag, age := counter)])
  {
    FirstStopAt(row, tag, |row|);
  }

  /** `FirstStop` is the index the scan reaches. */
  lemma FirstStopAt(row: seq<CacheLine>, tag: int, i: nat)
    requires i <= |row|
    requires forall j :: 0 <= j < i ==> row[j].valid && row[j].tag != tag
    requires i < |row| ==> !row[i].valid || row[i].tag == tag
    ensures FirstStop(row, tag) == i
  {
  }
}
