/** Remotery's hash table. */
module HashTable {
  import opened Words

  // Non-zero 32-bit keys to 64-bit values: open addressing with linear probing, no removal, growth
  // beyond a load of two thirds.

  const NOT_FOUND := 0xffff_ffff_ffff_ffff

  datatype Slot = Slot(key: nat, value: nat)

  // ---------------------------------------------------------------------------------------------
  // Probing, on the sequence of slots
  // ---------------------------------------------------------------------------------------------

  /** The slot `d` probes after slot `home`. */
  function At(home: nat, d: nat, n: nat): (i: nat)
    requires n > 0
    ensures i < n
  {
    (home + d) % n
  }

  /** How many probes from `home` to `i`. */
  function Distance(home: nat, i: nat, n: nat): (d: nat)
    requires n > 0 && home < n && i < n
    ensures d < n && At(home, d, n) == i
  {
    if i >= home then
      ModUnique(i, n, 0, i);
      i - home
    else
      ModUnique(i + n, n, 1, i);
      i + n - home
  }

  lemma DistanceUnique(home: nat, d: nat, n: nat)
    requires n > 0 && home < n && d < n
    ensures Distance(home, At(home, d, n), n) == d
  {
    var d' := Distance(home, At(home, d, n), n);
    ModInjective(home + d, home + d', n);
  }

  predicate Used(slots: seq<Slot>, i: nat) {
    i < |slots| && slots[i].key != 0
  }

  /** Probing from a key's home slot meets no free slot before the key. */
  ghost predicate Connected(slots: seq<Slot>) {
    forall i: nat, d: nat :: Used(slots, i) && d < Distance(Home(slots, i), i, |slots|) ==>
      ProbeUsed(slots, Home(slots, i), d)
  }

  predicate ProbeUsed(slots: seq<Slot>, home: nat, d: nat) {
    |slots| > 0 && Used(slots, At(home, d, |slots|))
  }

  function Home(slots: seq<Slot>, i: nat): (h: nat)
    requires i < |slots|
    ensures h < |slots|
  {
    slots[i].key % |slots|
  }

  ghost predicate KeysDistinct(slots: seq<Slot>) {
    forall i: nat, j: nat :: i < j && Used(slots, i) && Used(slots, j) ==> slots[i].key != slots[j].key
  }

  /** The map the slots represent is `m`. */
  ghost predicate Represents(slots: seq<Slot>, m: map<nat, nat>) {
    && (forall i: nat :: Used(slots, i) ==> slots[i].key in m && m[slots[i].key] == slots[i].value)
    && (forall k :: k in m ==> exists i: nat :: Used(slots, i) && slots[i].key == k)
  }

  ghost function UsedSet(slots: seq<Slot>): set<nat> {
    set i: nat | i < |slots| && Used(slots, i)
  }

  /** `key` was not met at any of the first `d` probes, all of which were occupied. */
  ghost predicate Passed(slots: seq<Slot>, key: nat, d: nat)
    requires |slots| > 0
  {
    forall e: nat :: e < d ==> PassedAt(slots, key, e)
  }

  predicate PassedAt(slots: seq<Slot>, key: nat, e: nat)
    requires |slots| > 0
  {
    var i := At(key % |slots|, e, |slots|);
    Used(slots, i) && slots[i].key != key
  }

  /** A key in the table is met before any free slot on its path. */
  lemma KeyBeforeFree(slots: seq<Slot>, d: nat, i: nat)
    requires Connected(slots) && Used(slots, i)
    requires d < |slots| && !Used(slots, At(Home(slots, i), d, |slots|))
    ensures Distance(Home(slots, i), i, |slots|) < d
  {
    assert d < Distance(Home(slots, i), i, |slots|) ==> ProbeUsed(slots, Home(slots, i), d);
  }

  lemma NotPassed(slots: seq<Slot>, d: nat, i: nat)
    requires Connected(slots) && Used(slots, i)
    requires d < |slots| && !Used(slots, At(Home(slots, i), d, |slots|))
    ensures !Passed(slots, slots[i].key, d)
  {
    KeyBeforeFree(slots, d, i);
    assert !PassedAt(slots, slots[i].key, Distance(Home(slots, i), i, |slots|));
  }

  /** Where a probe for an absent key stops. */
  ghost predicate StoppedAt(slots: seq<Slot>, key: nat, i: nat) {
    |slots| > 0 && exists d: nat :: d < |slots| && Passed(slots, key, d) && i == At(key % |slots|, d, |slots|)
  }

  /** Masking the next index wraps the probe around the table. */
  lemma NextProbe(home: nat, d: nat, bits: nat, n: nat)
    requires n == Pow2(bits) && home < n
    ensures BitAnd(At(home, d, n) + 1, n - 1) == At(home, d + 1, n)
  {
    MaskMod(At(home, d, n) + 1, bits, n);
    NextMod(home + d, n);
  }

  lemma MaskMod(x: nat, bits: nat, n: nat)
    requires n == Pow2(bits)
    ensures BitAnd(x, n - 1) == x % n
  {
    MaskIsMod(x, bits);
  }

  lemma NextMod(x: nat, n: nat)
    requires n > 0
    ensures (x % n + 1) % n == (x + 1) % n
  {
    ModSub(x, -1, n);
  }

  /** A probe that reaches a free slot without meeting the key proves it absent. */
  lemma FreeMeansAbsent(slots: seq<Slot>, m: map<nat, nat>, key: nat, i: nat)
    requires Connected(slots) && Represents(slots, m) && key != 0
    requires i < |slots| && !Used(slots, i) && StoppedAt(slots, key, i)
    ensures key !in m
  {
    var d: nat :| d < |slots| && Passed(slots, key, d) && i == At(key % |slots|, d, |slots|);
    if key in m {
      var j: nat :| Used(slots, j) && slots[j].key == key;
      NotPassed(slots, d, j);
    }
  }

  /** Fewer used slots than slots means one is free. */
  lemma SomeSlotFree(slots: seq<Slot>) returns (free: nat)
    requires |UsedSet(slots)| < |slots|
    ensures free < |slots| && !Used(slots, free)
  {
    FullTable(slots);
    free :| free < |slots| && !Used(slots, free);
  }

  function Indices(n: nat): (r: set<nat>)
    ensures |r| == n && forall i: nat :: i in r <==> i < n
  {
    if n == 0 then {} else Indices(n - 1) + {n - 1}
  }

  lemma FullTable(slots: seq<Slot>)
    ensures (forall i: nat :: i < |slots| ==> Used(slots, i)) ==> |UsedSet(slots)| == |slots|
  {
    if forall i: nat :: i < |slots| ==> Used(slots, i) {
      assert UsedSet(slots) == Indices(|slots|);
    }
  }

  /** Storing a new key in the free slot a probe stopped at keeps the table sound. */
  lemma StoreNew(slots: seq<Slot>, m: map<nat, nat>, key: nat, value: nat, i: nat)
    requires Connected(slots) && KeysDistinct(slots) && Represents(slots, m) && key != 0
    requires i < |slots| && !Used(slots, i) && StoppedAt(slots, key, i)
    ensures var slots' := slots[i := Slot(key, value)];
      && Connected(slots') && KeysDistinct(slots') && Represents(slots', m[key := value])
      && key !in m && |UsedSet(slots')| == |UsedSet(slots)| + 1
  {
    var slots' := slots[i := Slot(key, value)];
    FreeMeansAbsent(slots, m, key, i);
    StoreNewConnected(slots, key, value, i);
    StoreNewDistinct(slots, m, key, value, i);
    StoreRepresents(slots, slots', m, key, value, i);
  }

  lemma StoreNewConnected(slots: seq<Slot>, key: nat, value: nat, i: nat)
    requires Connected(slots) && key != 0 && i < |slots| && !Used(slots, i) && StoppedAt(slots, key, i)
    ensures Connected(slots[i := Slot(key, value)])
  {
    var n := |slots|;
    var d: nat :| d < n && Passed(slots, key, d) && i == At(key % n, d, n);
    var slots' := slots[i := Slot(key, value)];
    DistanceUnique(key % n, d, n);
    forall j: nat, e: nat | Used(slots', j) && e < Distance(Home(slots', j), j, n)
      ensures ProbeUsed(slots', Home(slots', j), e)
    {
      if j != i {
        assert Used(slots, j) && ProbeUsed(slots, Home(slots, j), e);
      } else {
        assert PassedAt(slots, key, e);
      }
    }
  }

  lemma StoreNewDistinct(slots: seq<Slot>, m: map<nat, nat>, key: nat, value: nat, i: nat)
    requires KeysDistinct(slots) && Represents(slots, m) && key !in m && key != 0 && i < |slots| && !Used(slots, i)
    ensures KeysDistinct(slots[i := Slot(key, value)])
    ensures |UsedSet(slots[i := Slot(key, value)])| == |UsedSet(slots)| + 1
  {
    var slots' := slots[i := Slot(key, value)];
    forall j: nat | Used(slots', j) && j != i ensures Used(slots, j) && slots'[j] == slots[j] {
    }
    assert UsedSet(slots') == UsedSet(slots) + {i};
  }

  lemma StoreRepresents(slots: seq<Slot>, slots': seq<Slot>, m: map<nat, nat>, key: nat, value: nat, i: nat)
    requires Represents(slots, m) && key != 0 && i < |slots| && slots' == slots[i := Slot(key, value)]
    requires !Used(slots, i) || slots[i].key == key
    requires forall j: nat :: Used(slots, j) && slots[j].key == key ==> j == i
    ensures Represents(slots', m[key := value])
  {
    var m' := m[key := value];
    forall k | k in m' ensures exists j: nat :: Used(slots', j) && slots'[j].key == k {
      if k == key {
        assert Used(slots', i);
      } else {
        var j: nat :| Used(slots, j) && slots[j].key == k;
        assert Used(slots', j) && slots'[j].key == k;
      }
    }
    forall j: nat | Used(slots', j) ensures slots'[j].key in m' && m'[slots'[j].key] == slots'[j].value {
      if j != i {
        assert Used(slots, j);
      }
    }
  }

  /** Overwriting the value of a key already there moves nothing. */
  lemma StoreOld(slots: seq<Slot>, m: map<nat, nat>, key: nat, value: nat, i: nat)
    requires |slots| > 0 && Connected(slots) && KeysDistinct(slots) && Represents(slots, m)
    requires Used(slots, i) && slots[i].key == key
    ensures var slots' := slots[i := Slot(key, value)];
      && Connected(slots') && KeysDistinct(slots') && Represents(slots', m[key := value])
      && key in m && UsedSet(slots') == UsedSet(slots)
  {
    var slots' := slots[i := Slot(key, value)];
    SameKeys(slots, slots');
    StoreRepresents(slots, slots', m, key, value, i);
  }

  /** Probing, distinctness and the occupied slots depend on the keys alone. */
  lemma SameKeys(slots: seq<Slot>, slots': seq<Slot>)
    requires |slots| == |slots'| && Connected(slots) && KeysDistinct(slots)
    requires forall i: nat :: i < |slots| ==> slots[i].key == slots'[i].key
    ensures Connected(slots') && KeysDistinct(slots') && UsedSet(slots') == UsedSet(slots)
  {
    assert forall j: nat :: Used(slots', j) == Used(slots, j);
    forall j: nat, e: nat | Used(slots', j) && e < Distance(Home(slots', j), j, |slots|)
      ensures ProbeUsed(slots', Home(slots', j), e)
    {
      assert Used(slots, j) && Home(slots', j) == Home(slots, j);
      assert ProbeUsed(slots, Home(slots, j), e);
    }
  }

  /** The entries of the first `n` slots. */
  ghost predicate RepresentsPrefix(slots: seq<Slot>, n: nat, m: map<nat, nat>)
    requires n <= |slots|
  {
    Represents(slots[..n], m)
  }

  lemma PrefixStep(slots: seq<Slot>, n: nat, m: map<nat, nat>)
    requires n < |slots| && KeysDistinct(slots) && RepresentsPrefix(slots, n, m)
    ensures Used(slots, n) ==>
      slots[n].key !in m && RepresentsPrefix(slots, n + 1, m[slots[n].key := slots[n].value])
    ensures !Used(slots, n) ==> RepresentsPrefix(slots, n + 1, m)
  {
    var a, b := slots[..n], slots[..n + 1];
    forall i: nat | i < n ensures Used(a, i) == Used(b, i) == Used(slots, i) {
    }
    if Used(slots, n) {
      var m' := m[slots[n].key := slots[n].value];
      forall k | k in m ensures k != slots[n].key {
        var i: nat :| Used(a, i) && a[i].key == k;
        assert Used(slots, i);
      }
      forall k | k in m' ensures exists i: nat :: Used(b, i) && b[i].key == k {
        if k == slots[n].key {
          assert Used(b, n);
        } else {
          var i: nat :| Used(a, i) && a[i].key == k;
          assert Used(b, i) && b[i].key == k;
        }
      }
      forall i: nat | Used(b, i) ensures b[i].key in m' && m'[b[i].key] == b[i].value {
        if i < n {
          assert Used(a, i) && Used(slots, i);
        }
      }
    } else {
      forall k | k in m ensures exists i: nat :: Used(b, i) && b[i].key == k {
        var i: nat :| Used(a, i) && a[i].key == k;
        assert Used(b, i) && b[i].key == k;
      }
      forall i: nat | Used(b, i) ensures b[i].key in m && m[b[i].key] == b[i].value {
        assert Used(a, i);
      }
    }
  }

  lemma RepresentsUnique(slots: seq<Slot>, a: map<nat, nat>, b: map<nat, nat>)
    requires Represents(slots, a) && Represents(slots, b)
    ensures a == b
  {
    forall k | k in a ensures k in b && a[k] == b[k] {
      var i: nat :| Used(slots, i) && slots[i].key == k;
    }
    forall k | k in b ensures k in a {
      var i: nat :| Used(slots, i) && slots[i].key == k;
    }
  }

  lemma UsedPrefix(slots: seq<Slot>, n: nat)
    requires n < |slots|
    ensures |UsedSet(slots[..n + 1])| == |UsedSet(slots[..n])| + if Used(slots, n) then 1 else 0
    ensures Used(slots, n) ==> |UsedSet(slots[..n])| < |UsedSet(slots)|
  {
    var a, b := UsedSet(slots[..n]), UsedSet(slots[..n + 1]);
    assert b == a + if Used(slots, n) then {n} else {};
    if Used(slots, n) {
      Subset(a, UsedSet(slots) - {n});
    }
  }

  lemma {:induction false} Subset(a: set<nat>, b: set<nat>)
    requires a <= b
    ensures |a| <= |b|
  {
    if a != {} {
      var x :| x in a;
      Subset(a - {x}, b - {x});
    }
  }

  lemma UsedIsPositive(slots: seq<Slot>, i: nat)
    requires Used(slots, i)
    ensures |UsedSet(slots)| > 0
  {
    assert i in UsedSet(slots);
  }

  lemma ZeroAbsent(slots: seq<Slot>, m: map<nat, nat>)
    requires Represents(slots, m)
    ensures 0 !in m
  {
  }

  lemma EmptyTable(slots: seq<Slot>)
    requires |slots| > 0 && forall i :: 0 <= i < |slots| ==> slots[i] == Slot(0, 0)
    ensures Holds(slots, map[], 0)
  {
  }

  /** The slots hold exactly the entries of `contents`, each reachable by probing, and `count` is
      the number of occupied slots. */
  ghost predicate Holds(slots: seq<Slot>, contents: map<nat, nat>, count: nat) {
    && Connected(slots) && KeysDistinct(slots) && Represents(slots, contents)
    && EntriesInRange(slots) && count == |UsedSet(slots)|
  }

  ghost predicate EntriesInRange(slots: seq<Slot>) {
    forall i: nat :: Used(slots, i) ==> EntryInRange(slots[i].key, slots[i].value)
  }

  predicate EntryInRange(key: nat, value: nat) {
    0 < key < WORD && value < NOT_FOUND
  }

  /** Storing at the slot where probing stopped updates the map. */
  lemma Store(slots: seq<Slot>, contents: map<nat, nat>, count: nat, key: nat, value: nat, i: nat)
    requires Holds(slots, contents, count) && EntryInRange(key, value)
    requires i < |slots| && (slots[i].key == key || (slots[i].key == 0 && StoppedAt(slots, key, i)))
    ensures Holds(slots[i := Slot(key, value)], contents[key := value],
                  count + if slots[i].key == key then 0 else 1)
    ensures slots[i].key == key <==> key in contents
  {
    if slots[i].key == key {
      assert Used(slots, i);
      StoreOld(slots, contents, key, value, i);
    } else {
      StoreNew(slots, contents, key, value, i);
    }
    StoreInRange(slots, key, value, i);
  }

  lemma StoreInRange(slots: seq<Slot>, key: nat, value: nat, i: nat)
    requires EntriesInRange(slots) && EntryInRange(key, value) && i < |slots|
    ensures EntriesInRange(slots[i := Slot(key, value)])
  {
    var slots' := slots[i := Slot(key, value)];
    forall j: nat | Used(slots', j) ensures EntryInRange(slots'[j].key, slots'[j].value) {
      assert j != i ==> Used(slots, j);
    }
  }

  /** `nbSlots` counts the distinct keys held. */
  lemma CountIsSize(slots: seq<Slot>, contents: map<nat, nat>, count: nat)
    requires Holds(slots, contents, count)
    ensures count == |contents|
  {
    assert slots[..|slots|] == slots;
    PrefixCount(slots, contents, |slots|);
  }

  lemma {:induction false} PrefixCount(slots: seq<Slot>, m: map<nat, nat>, n: nat)
    requires n <= |slots| && KeysDistinct(slots) && RepresentsPrefix(slots, n, m)
    ensures |UsedSet(slots[..n])| == |m|
  {
    if n == 0 {
      NothingHeld(slots, m);
    } else {
      UsedPrefix(slots, n - 1);
      DropLast(slots, m, n);
      if Used(slots, n - 1) {
        var key := slots[n - 1].key;
        PrefixCount(slots, m - {key}, n - 1);
        assert Used(slots[..n], n - 1);
        OneKeyLess(m, key);
      } else {
        PrefixCount(slots, m, n - 1);
      }
    }
  }

  lemma NothingHeld(slots: seq<Slot>, m: map<nat, nat>)
    requires RepresentsPrefix(slots, 0, m)
    ensures UsedSet(slots[..0]) == {} && m == map[]
  {
    forall k ensures k !in m {
    }
  }

  lemma OneKeyLess(m: map<nat, nat>, key: nat)
    requires key in m
    ensures |m| == |m - {key}| + 1
  {
    assert m.Keys == (m - {key}).Keys + {key};
    assert |m| == |m.Keys| && |m - {key}| == |(m - {key}).Keys|;
  }

  lemma DropLast(slots: seq<Slot>, m: map<nat, nat>, n: nat)
    requires 0 < n <= |slots| && KeysDistinct(slots) && RepresentsPrefix(slots, n, m)
    ensures RepresentsPrefix(slots, n - 1, if Used(slots, n - 1) then m - {slots[n - 1].key} else m)
  {
    var a, b := slots[..n - 1], slots[..n];
    var m' := if Used(slots, n - 1) then m - {slots[n - 1].key} else m;
    forall i: nat | i < n - 1 ensures Used(a, i) == Used(b, i) == Used(slots, i) {
    }
    forall i: nat | Used(a, i) ensures a[i].key in m' && m'[a[i].key] == a[i].value {
      assert Used(b, i) && Used(slots, i);
    }
    forall k | k in m' ensures exists i: nat :: Used(a, i) && a[i].key == k {
      var i: nat :| Used(b, i) && b[i].key == k;
      assert Used(slots, i);
      assert Used(a, i);
    }
  }

  // ---------------------------------------------------------------------------------------------
  // The table
  // ---------------------------------------------------------------------------------------------

  /** The most slots a table may have before it grows, so that neither growing nor the load test
      overflows the table's 32-bit counters. */
  const MOST_SLOTS := 0x2000_0000

  /** Growing leaves room for every entry of a table one over its load limit. */
  lemma GrowthRoom(n: nat, bits: nat)
    requires n == Pow2(bits)
    ensures Pow2(bits + 1) == 2 * n && Pow2(bits + 2) == 4 * n
    ensures n * 2 / 3 + 1 <= (if n < 8192 * 4 then 4 * n else 2 * n) * 2 / 3
  {
  }

  /** On tables of at most twice that many slots the load test does not overflow. */
  lemma LoadTest(n: nat)
    requires n <= 2 * MOST_SLOTS
    ensures Wrap32(n * 2) / 3 == n * 2 / 3
  {
  }

  /** The bound is where the code stops working: of the powers of two that are 32-bit sizes, just the
      next one breaks both the load test, which then finds every table with an entry over its limit,
      and growing, which then makes a table of no slots. */
  lemma LoadTestExactly(n: nat, bits: nat)
    requires n == Pow2(bits) && n < WORD
    ensures Wrap32(n * 2) / 3 == n * 2 / 3 <==> n <= 2 * MOST_SLOTS
    ensures n > 2 * MOST_SLOTS ==> Wrap32(n * 2) == 0
  {
    Pow2Of30();
    if bits >= 32 {
      Pow2Monotone(32, bits);
      Pow2Of32();
    } else if bits <= 30 {
      Pow2Monotone(bits, 30);
    } else {
      assert bits == 31 && n == 2 * Pow2(30);
    }
  }

  /** How many slots a table that grows gets: four times as many, from 32768 on twice as many. */
  function Grown(maxNbSlots: nat): nat {
    if maxNbSlots < 32768 then 4 * maxNbSlots else 2 * maxNbSlots
  }

  class Table {
    var maxNbSlots: nat
    var nbSlots: nat
    var slots: array<Slot>
    ghost var Contents: map<nat, nat>
    ghost var bits: nat  // maxNbSlots is 2^bits

    /** All that holds even while the load is over the limit, just before growing. */
    ghost predicate Sound()
      reads this, slots
    {
      slots.Length == maxNbSlots && maxNbSlots == Pow2(bits) && Holds(slots[..], Contents, nbSlots)
    }

    ghost predicate Valid()
      reads this, slots
    {
      Sound() && nbSlots <= maxNbSlots * 2 / 3
    }

    constructor (maxNbSlots: nat, ghost bits: nat)
      requires maxNbSlots == Pow2(bits)
      ensures Valid() && Contents == map[] && this.maxNbSlots == maxNbSlots && fresh(slots)
    {
      this.maxNbSlots := maxNbSlots;
      this.bits := bits;
      nbSlots := 0;
      slots := new Slot[maxNbSlots](_ => Slot(0, 0));
      Contents := map[];
      new;
      EmptyTable(slots[..]);
    }

    /** The probe loop of both insertion and lookup: it stops at the key or at the free slot that
        proves its absence. */
    method Probe(key: nat) returns (index: nat)
      requires Sound() && nbSlots < maxNbSlots && key < WORD
      ensures index < slots.Length
      ensures slots[index].key != 0 ==> slots[index].key == key
      ensures slots[index].key == 0 ==> StoppedAt(slots[..], key, index)
    {
      ghost var free := SomeSlotFree(slots[..]);
      var indexMask := maxNbSlots - 1;
      index := BitAnd(key, indexMask);
      MaskIsMod(key, bits);
      ghost var home, n := index, maxNbSlots;
      ghost var d := 0;
      ModUnique(home, n, 0, home);
      while slots[index].key != 0
        invariant d < n && index == At(home, d, n) && home == key % n
        invariant Passed(slots[..], key, d)
        invariant d <= Distance(home, free, n)
        decreases n - d
      {
        if slots[index].key == key {
          return;
        }
        assert PassedAt(slots[..], key, d);
        assert d < Distance(home, free, n);
        NextProbe(home, d, bits, n);
        index := BitAnd(index + 1, indexMask);
        d := d + 1;
      }
    }

    /** The body of insertion up to the load test. */
    method StoreEntry(key: nat, value: nat)
      requires Valid() && EntryInRange(key, value)
      modifies this`nbSlots, this`Contents, slots
      ensures Sound() && Contents == old(Contents)[key := value]
      ensures nbSlots == old(nbSlots) + if key in old(Contents) then 0 else 1
    {
      var index := Probe(key);
      Store(slots[..], Contents, nbSlots, key, value, index);
      if slots[index].key == key {
        assert Used(slots[..], index);
        UsedIsPositive(slots[..], index);
        nbSlots := nbSlots - 1;
      }
      ghost var before := slots[..];
      slots[index] := Slot(key, value);
      assert slots[..] == before[index := Slot(key, value)];
      nbSlots := nbSlots + 1;
      Contents := Contents[key := value];
    }

    method Insert(key: nat, value: nat)
      requires Valid() && EntryInRange(key, value)
      requires maxNbSlots <= if nbSlots < maxNbSlots * 2 / 3 || key in Contents then 2 * MOST_SLOTS else MOST_SLOTS
      modifies this, slots
      ensures Valid() && Contents == old(Contents)[key := value]
      ensures slots == old(slots) || fresh(slots)
      ensures old(nbSlots < maxNbSlots * 2 / 3) || key in old(Contents) ==>
        slots == old(slots) && maxNbSlots == old(maxNbSlots)
      ensures !(old(nbSlots < maxNbSlots * 2 / 3) || key in old(Contents)) ==>
        maxNbSlots == Grown(old(maxNbSlots))
      ensures maxNbSlots <= 2 * MOST_SLOTS
      decreases if nbSlots < maxNbSlots * 2 / 3 then 0 else 3
    {
      StoreEntry(key, value);
      LoadTest(maxNbSlots);
      if nbSlots > Wrap32(maxNbSlots * 2) / 3 {
        Resize();
      }
    }

    method Resize()
      requires Sound() && maxNbSlots <= MOST_SLOTS && nbSlots <= maxNbSlots * 2 / 3 + 1
      modifies this
      ensures Valid() && Contents == old(Contents) && fresh(slots)
      ensures maxNbSlots == Grown(old(maxNbSlots)) <= 2 * MOST_SLOTS
      decreases 2
    {
      var oldMaxNbSlots, oldSlots := maxNbSlots, slots;
      ghost var all, contents, count := slots[..], Contents, nbSlots;
      Allocate();
      assert all[..0] == [];
      ghost var bigger := slots;
      var i := 0;
      while i < oldMaxNbSlots
        invariant 0 <= i <= oldMaxNbSlots == |all| && oldSlots[..] == all
        invariant fresh(slots) && slots == bigger && maxNbSlots == Grown(oldMaxNbSlots)
        invariant count <= maxNbSlots * 2 / 3 && maxNbSlots <= 2 * MOST_SLOTS
        invariant Sound() && Reinserted(all, i)
      {
        ReinsertSlot(all, contents, count, i, oldSlots[i]);
        i := i + 1;
      }
      assert all[..|all|] == all;
      RepresentsUnique(all, Contents, contents);
    }

    /** The larger, cleared table. */
    method Allocate()
      requires Sound() && maxNbSlots <= MOST_SLOTS && nbSlots <= maxNbSlots * 2 / 3 + 1
      modifies this
      ensures Sound() && fresh(slots) && Contents == map[] && nbSlots == 0
      ensures old(nbSlots) <= maxNbSlots * 2 / 3 && maxNbSlots == Grown(old(maxNbSlots)) <= 2 * MOST_SLOTS
    {
      var newMaxNbSlots := maxNbSlots;
      GrowthRoom(newMaxNbSlots, bits);
      ghost var newBits;
      if newMaxNbSlots < 8192 * 4 {
        newMaxNbSlots := Wrap32(newMaxNbSlots * 4);
        newBits := bits + 2;
      } else {
        newMaxNbSlots := Wrap32(newMaxNbSlots * 2);
        newBits := bits + 1;
      }
      Clear(newMaxNbSlots, newBits);
    }

    /** A table with no entries. */
    method Clear(newMaxNbSlots: nat, ghost newBits: nat)
      requires newMaxNbSlots == Pow2(newBits)
      modifies this
      ensures Sound() && fresh(slots) && Contents == map[] && nbSlots == 0 && maxNbSlots == newMaxNbSlots
    {
      bits := newBits;
      slots := new Slot[newMaxNbSlots](_ => Slot(0, 0));
      maxNbSlots := newMaxNbSlots;
      nbSlots := 0;
      Contents := map[];
      EmptyTable(slots[..]);
    }

    /** The table holds exactly the entries of the first `i` of the old slots. */
    ghost predicate Reinserted(all: seq<Slot>, i: nat)
      reads this
    {
      i <= |all| && RepresentsPrefix(all, i, Contents) && nbSlots == |UsedSet(all[..i])|
    }

    /** One turn of the loop above. The room left makes the insertion stop short of growing again,
        which is what the termination measure of the three methods rests on. */
    method ReinsertSlot(ghost all: seq<Slot>, ghost contents: map<nat, nat>, ghost count: nat, ghost i: nat, slot: Slot)
      requires i < |all| && slot == all[i] && Holds(all, contents, count)
      requires Sound() && Reinserted(all, i) && count <= maxNbSlots * 2 / 3 && maxNbSlots <= 2 * MOST_SLOTS
      modifies this, slots
      ensures slots == old(slots) && maxNbSlots == old(maxNbSlots)
      ensures Sound() && Reinserted(all, i + 1)
      decreases 1
    {
      PrefixStep(all, i, Contents);
      UsedPrefix(all, i);
      if slot.key != 0 {
        assert Used(all, i);
        Insert(slot.key, slot.value);
        CountIsSize(slots[..], Contents, nbSlots);
        PrefixCount(all, Contents, i + 1);
      }
    }

    method Find(key: nat) returns (value: nat)
      requires Valid() && key < WORD
      ensures value == if key in Contents then Contents[key] else NOT_FOUND
      ensures value == NOT_FOUND <==> key !in Contents
    {
      var index := Probe(key);
      if slots[index].key != 0 {
        assert Used(slots[..], index);
        return slots[index].value;
      }
      if key != 0 {
        FreeMeansAbsent(slots[..], Contents, key, index);
      } else {
        ZeroAbsent(slots[..], Contents);
      }
      return NOT_FOUND;
    }
  }
}
