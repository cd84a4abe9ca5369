/** The open-addressing index over startups and the lookup through it (src/appsupport.c). */
module AppLookup {
  import opened Text

  /** appHashStartup over the first n characters. */
  function HashBits(key: string, n: nat): bv32
    requires n <= |key|
    decreases n
  {
    if n == 0 then 5381 else
      var h := HashBits(key, n - 1);
      ((h << 5) + h) ^ ((key[n - 1] as int % 256) as bv32)
  }

  function Hash(key: string): nat {
    HashBits(key, |key|) as nat
  }

  /** Bitwise and. */
  function And(a: nat, b: nat): nat {
    if a == 0 || b == 0 then 0 else (if a % 2 == 1 && b % 2 == 1 then 1 else 0) + 2 * And(a / 2, b / 2)
  }

  ghost predicate IsPow2(size: nat) {
    exists k: nat :: size == Pow2(k)
  }

  lemma AndOdd(a: nat, p: nat)
    requires p > 0
    ensures And(a, 2 * p - 1) == a % 2 + 2 * And(a / 2, p - 1)
  {
    var b := 2 * p - 1;
    assert b % 2 == 1 && b / 2 == p - 1;
  }

  lemma HalfMod(a: nat, p: nat)
    requires p > 0
    ensures a % (2 * p) == a % 2 + 2 * (a / 2 % p)
  {
    var h := a / 2;
    var q, r := h / p, h % p;
    assert h == q * p + r && a == 2 * h + a % 2;
    Doubled(q, p);
    ModOf(a, q, 2 * r + a % 2, 2 * p);
  }

  lemma Doubled(q: nat, p: nat)
    ensures q * (2 * p) == 2 * (q * p)
  {
  }

  /** Masking with a power of two less one is the remainder. */
  lemma {:induction false} MaskIsMod(a: nat, k: nat)
    ensures And(a, Pow2(k) - 1) == a % Pow2(k)
    decreases k
  {
    if k > 0 {
      hide And;
      MaskIsMod(a / 2, k - 1);
      AndOdd(a, Pow2(k - 1));
      HalfMod(a, Pow2(k - 1));
    }
  }

  lemma Masks(a: nat, size: nat)
    requires IsPow2(size)
    ensures size > 0 && And(a, size - 1) == a % size
  {
    hide And;
    var k: nat :| size == Pow2(k);
    MaskIsMod(a, k);
  }

  /** The slot d steps after a key's own. */
  function Slot(key: string, d: nat, size: nat): (s: nat)
    requires size > 0
    ensures s < size
  {
    (Hash(key) + d) % size
  }

  lemma OwnSlot(key: string, size: nat)
    requires IsPow2(size)
    ensures size > 0 && And(Hash(key), size - 1) == Slot(key, 0, size)
  {
    hide IsPow2, And, Hash;
    Masks(Hash(key), size);
  }

  lemma SlotWraps(key: string, d: nat, size: nat)
    requires size > 0
    ensures Slot(key, d + 1, size) == (Slot(key, d, size) + 1) % size
  {
    NextMod(Hash(key) + d, size);
  }

  lemma NextMod(a: nat, size: nat)
    requires size > 0
    ensures (a + 1) % size == (a % size + 1) % size
  {
    var q, r := a / size, a % size;
    assert a == q * size + r;
    if r + 1 < size {
      ModOf(a + 1, q, r + 1, size);
      ModOf(r + 1, 0, r + 1, size);
    } else {
      assert (q + 1) * size == q * size + size;
      ModOf(a + 1, q + 1, 0, size);
      ModOf(r + 1, 1, 0, size);
    }
  }

  lemma ModOf(a: nat, q: nat, r: nat, size: nat)
    requires size > 0 && a == q * size + r && r < size
    ensures a % size == r
  {
    var d := a / size - q;
    assert a == (a / size) * size + a % size;
    assert (a / size) * size - q * size == d * size;
    assert d > 0 ==> d * size >= size;
    assert d < 0 ==> d * size + size <= 0;
  }

  // ----- the table -----

  /** A slot holds -1 or the index of a record with a startup. */
  ghost predicate Filled(table: seq<int>, keys: seq<string>, n: nat) {
    n <= |keys| && forall s :: 0 <= s < |table| ==> table[s] == -1 || (0 <= table[s] < n && keys[table[s]] != "")
  }

  /** Record i is d steps from its own slot, behind earlier records only. */
  ghost predicate At(table: seq<int>, keys: seq<string>, i: nat, d: nat)
    requires i < |keys|
  {
    && |table| > 0 && table[Slot(keys[i], d, |table|)] == i
    && forall e: nat :: e < d ==> 0 <= table[Slot(keys[i], e, |table|)] < i
  }

  ghost predicate Placed(table: seq<int>, keys: seq<string>, i: nat)
    requires i < |keys|
  {
    exists d: nat :: At(table, keys, i, d)
  }

  /** The table of the first n records. */
  ghost predicate TableOk(table: seq<int>, keys: seq<string>, n: nat) {
    && |table| > 0 && Filled(table, keys, n)
    && (forall i :: 0 <= i < n && keys[i] != "" ==> Placed(table, keys, i))
    && Empties(table) + n >= |table|
  }

  /** How many slots are empty. */
  function Empties(table: seq<int>): nat
    decreases |table|
  {
    if table == [] then 0 else Empties(table[..|table| - 1]) + if table[|table| - 1] == -1 then 1 else 0
  }

  lemma {:induction false} EmptiesUpdate(table: seq<int>, s: nat, i: int)
    requires s < |table|
    ensures Empties(table[s := i]) + 1 >= Empties(table)
    decreases |table|
  {
    var m := |table| - 1;
    if s < m {
      assert table[s := i][..m] == table[..m][s := i];
      EmptiesUpdate(table[..m], s, i);
    } else {
      assert table[s := i][..m] == table[..m];
    }
  }

  lemma {:induction false} EmptySlot(table: seq<int>) returns (s: nat)
    requires Empties(table) > 0
    ensures s < |table| && table[s] == -1
    decreases |table|
  {
    var m := |table| - 1;
    if table[m] == -1 {
      s := m;
    } else {
      s := EmptySlot(table[..m]);
    }
  }

  lemma {:induction false} NoneEmpty(n: nat)
    ensures Empties(seq(n, i => -1)) == n
  {
    if n > 0 {
      assert seq(n, i => -1)[..n - 1] == seq(n - 1, i => -1);
      NoneEmpty(n - 1);
    }
  }

  /** Every slot is some steps away from a key's own slot. */
  lemma Reach(key: string, s: nat, size: nat) returns (d: nat)
    requires s < size
    ensures d < size && Slot(key, d, size) == s
  {
    d := ReachMod(Hash(key), s, size);
  }

  lemma ReachMod(h: nat, s: nat, size: nat) returns (d: nat)
    requires s < size
    ensures d < size && (h + d) % size == s
  {
    var q, r := h / size, h % size;
    assert h == q * size + r;
    if r <= s {
      d := s - r;
      ModOf(h + d, q, s, size);
    } else {
      d := s + size - r;
      assert (q + 1) * size == q * size + size;
      ModOf(h + d, q + 1, s, size);
    }
  }

  /** Filling an empty slot moves no record. */
  lemma PlacedKept(table: seq<int>, keys: seq<string>, i: nat, s: nat, v: int)
    requires i < |keys| && Placed(table, keys, i) && s < |table| && table[s] == -1
    ensures Placed(table[s := v], keys, i)
  {
    hide Slot;
    var d: nat :| At(table, keys, i, d);
    assert At(table[s := v], keys, i, d);
  }

  /** appBuildArtLookup puts record n into the first empty slot from its own on. */
  lemma Inserted(table: seq<int>, keys: seq<string>, n: nat, d: nat)
    requires n < |keys| && TableOk(table, keys, n) && keys[n] != ""
    requires table[Slot(keys[n], d, |table|)] == -1 && forall e: nat :: e < d ==> table[Slot(keys[n], e, |table|)] != -1
    ensures TableOk(table[Slot(keys[n], d, |table|) := n], keys, n + 1)
  {
    hide Slot, At, Empties;
    var s := Slot(keys[n], d, |table|);
    var table' := table[s := n];
    EmptiesUpdate(table, s, n);
    forall i | 0 <= i < n + 1 && keys[i] != "" ensures Placed(table', keys, i) {
      if i < n {
        PlacedKept(table, keys, i, s, n);
      } else {
        AtNew(table, keys, n, d);
      }
    }
  }

  lemma AtNew(table: seq<int>, keys: seq<string>, n: nat, d: nat)
    requires n < |keys| && |table| > 0 && Filled(table, keys, n)
    requires table[Slot(keys[n], d, |table|)] == -1 && forall e: nat :: e < d ==> table[Slot(keys[n], e, |table|)] != -1
    ensures Placed(table[Slot(keys[n], d, |table|) := n], keys, n)
  {
    hide Slot;
    assert At(table[Slot(keys[n], d, |table|) := n], keys, n, d);
  }

  lemma Skipped(table: seq<int>, keys: seq<string>, n: nat)
    requires n < |keys| && TableOk(table, keys, n) && keys[n] == ""
    ensures TableOk(table, keys, n + 1)
  {
    hide Placed, Empties;
  }

  // ----- lookups -----

  /** The linear scan: the first record with the startup, or how many there are. */
  function Scan(keys: seq<string>, key: string, i: nat): (r: nat)
    requires i <= |keys|
    ensures i <= r <= |keys| && (r < |keys| ==> keys[r] == key) && forall j :: i <= j < r ==> keys[j] != key
    decreases |keys| - i
  {
    if i == |keys| || keys[i] == key then i else Scan(keys, key, i + 1)
  }

  /** From d steps on, probing ends at an empty slot without a match, or at this record. */
  ghost predicate Probes(table: seq<int>, keys: seq<string>, key: string, d: nat, found: Option<nat>)
    requires |table| > 0 && Filled(table, keys, |keys|)
  {
    var v := table[Slot(key, d, |table|)];
    && (found.None? ==> v == -1)
    && (found.Some? ==> v == found.value && keys[v] == key)
    && forall e: nat :: e < d ==>
         var w := table[Slot(key, e, |table|)]; w != -1 && keys[w] != key
  }

  /**
   Probing agrees with the scan: for a startup that is not empty it ends at the record of least index with it, and
   at an empty slot when there is none. So the scan after it never finds what the table missed.
   */
  lemma ProbeIsScan(table: seq<int>, keys: seq<string>, key: string, d: nat, found: Option<nat>)
    requires TableOk(table, keys, |keys|) && key != "" && Probes(table, keys, key, d, found)
    ensures found == if Scan(keys, key, 0) < |keys| then Some(Scan(keys, key, 0)) else None
  {
    hide Slot, Empties;
    var i := Scan(keys, key, 0);
    if i < |keys| {
      assert Placed(table, keys, i);
      var d': nat :| At(table, keys, i, d');
      var v, w := table[Slot(key, d, |table|)], table[Slot(key, d', |table|)];
      assert !(d < d') && !(d' < d);
    }
  }

  /** A record without a startup is never in the table, so looking up the empty string falls through to the scan. */
  lemma EmptyNeverProbed(table: seq<int>, keys: seq<string>, d: nat, found: Option<nat>)
    requires TableOk(table, keys, |keys|) && Probes(table, keys, "", d, found)
    ensures found == None
  {
    hide Slot, Empties, Placed;
  }

  /** The list of startups and its index; an empty table stands for none. */
  class Apps {
    var keys: seq<string>
    var table: seq<int>

    ghost predicate Valid()
      reads this
    {
      table != [] ==> |keys| > 0 && |table| > |keys| && IsPow2(|table|) && TableOk(table, keys, |keys|)
    }

    constructor (keys: seq<string>)
      ensures Valid() && this.keys == keys && table == []
    {
      this.keys, table := keys, [];
    }

    /** The probing loop of appBuildArtLookup for record i. */
    method Insert(t: seq<int>, i: nat) returns (t': seq<int>)
      requires i < |keys| < |t| && IsPow2(|t|) && TableOk(t, keys, i) && keys[i] != ""
      ensures |t'| == |t| && TableOk(t', keys, i + 1)
    {
      hide Slot, Empties, Filled, Placed, IsPow2, And;
      var slot := And(Hash(keys[i]), |t| - 1);
      OwnSlot(keys[i], |t|);
      ghost var d := 0;
      ghost var s := EmptySlot(t);
      ghost var end := Reach(keys[i], s, |t|);
      while t[slot] != -1
        invariant d <= end && slot == Slot(keys[i], d, |t|)
        invariant forall e: nat :: e < d ==> t[Slot(keys[i], e, |t|)] != -1
        decreases end - d
      {
        SlotWraps(keys[i], d, |t|);
        Masks(slot + 1, |t|);
        slot := And(slot + 1, |t| - 1);
        d := d + 1;
      }
      Inserted(t, keys, i, d);
      t' := t[slot := i];
    }

    /** appBuildArtLookup; the flag says whether memory for the table was there. */
    method BuildLookup(memory: bool)
      modifies this
      ensures Valid() && keys == old(keys)
      ensures table != [] <==> memory && keys != []
    {
      table := [];
      if keys == [] {
        return;
      }
      var size := 1;
      ghost var k := 0;
      while size < |keys| * 2
        invariant size == Pow2(k)
        decreases |keys| * 2 - size
      {
        size := size * 2;
        k := k + 1;
      }
      if size < 2 {
        size := 2;
        k := 1;
      }
      assert size == Pow2(k);
      if !memory {
        return;
      }
      var t: seq<int> := seq(size, i => -1);
      NoneEmpty(size);
      for i := 0 to |keys|
        invariant |t| == size && IsPow2(size) && TableOk(t, keys, i) && keys == old(keys) && table == []
      {
        hide TableOk, IsPow2;
        if keys[i] != "" {
          t := Insert(t, i);
        } else {
          Skipped(t, keys, i);
        }
      }
      table := t;
    }

    /** The probing loop of appLookupByStartup: it ends, and where Probes says. */
    method Probe(key: string) returns (found: Option<nat>)
      requires Valid() && table != []
      ensures Filled(table, keys, |keys|) && exists d: nat :: Probes(table, keys, key, d, found)
    {
      hide Slot, Empties, Placed, IsPow2, And;
      var slot := And(Hash(key), |table| - 1);
      OwnSlot(key, |table|);
      ghost var d := 0;
      ghost var s := EmptySlot(table);
      ghost var end := Reach(key, s, |table|);
      while table[slot] != -1
        invariant d <= end && slot == Slot(key, d, |table|)
        invariant forall e: nat :: e < d ==> var w := table[Slot(key, e, |table|)]; w != -1 && keys[w] != key
        decreases end - d
      {
        var index := table[slot];
        if keys[index] == key {
          assert Probes(table, keys, key, d, Some(index));
          return Some(index);
        }
        SlotWraps(key, d, |table|);
        Masks(slot + 1, |table|);
        slot := And(slot + 1, |table| - 1);
        d := d + 1;
      }
      found := None;
      assert Probes(table, keys, key, d, found);
    }

    /** appLookupByStartup is the linear scan, with or without a table, for every startup. */
    method LookupByStartup(key: string) returns (found: Option<nat>)
      requires Valid()
      ensures found == if Scan(keys, key, 0) < |keys| then Some(Scan(keys, key, 0)) else None
    {
      if table != [] {
        hide TableOk, Probes, Filled;
        found := Probe(key);
        ghost var d: nat :| Probes(table, keys, key, d, found);
        if found.Some? {
          if key == "" {
            EmptyNeverProbed(table, keys, d, found);
          } else {
            ProbeIsScan(table, keys, key, d, found);
          }
          return;
        }
      }
      var i := 0;
      while i < |keys|
        invariant i <= |keys| && Scan(keys, key, i) == Scan(keys, key, 0)
      {
        if keys[i] == key {
          return Some(i);
        }
        i := i + 1;
      }
      found := None;
    }
  }
}
