/** The picks as numbered keys of a configuration set (src/cheatconfig.c, src/config.c). */
module CheatPicksStore {
  import opened Text
  import opened ConfigStore
  import opened CheatPicks

  const PREFIX: string := "$CheatSel"

  function Digit(n: nat): char
    requires n < 10
  {
    (48 + n) as char
  }

  /** "%s%03d" for the numbers in use. */
  function PickKey(n: nat): (k: string)
    requires n < 1000
    ensures |k| == 12 && KeyValid(k)
  {
    PREFIX + [Digit(n / 100), Digit(n / 10 % 10), Digit(n % 10)]
  }

  lemma ThreeDigits(n: nat)
    requires n < 1000
    ensures n == 100 * (n / 100) + 10 * (n / 10 % 10) + n % 10
  {
  }

  lemma DigitInjective(a: nat, b: nat)
    requires a < 10 && b < 10 && Digit(a) == Digit(b)
    ensures a == b
  {
    assert Digit(a) as int == 48 + a && Digit(b) as int == 48 + b;
  }

  lemma PickKeyInjective(m: nat, n: nat)
    requires m < 1000 && n < 1000 && PickKey(m) == PickKey(n)
    ensures m == n
  {
    hide Digit;
    var a, b := PickKey(m), PickKey(n);
    assert a[9] == Digit(m / 100) && a[10] == Digit(m / 10 % 10) && a[11] == Digit(m % 10);
    assert b[9] == Digit(n / 100) && b[10] == Digit(n / 10 % 10) && b[11] == Digit(n % 10);
    DigitInjective(m / 100, n / 100);
    DigitInjective(m / 10 % 10, n / 10 % 10);
    DigitInjective(m % 10, n % 10);
    ThreeDigits(m);
    ThreeDigits(n);
  }

  /** configGetStr. */
  function Value(es: seq<Entry>, key: string): Option<string> {
    var i := Find(es, key);
    if i < |es| then Some(es[i].1) else None
  }

  lemma {:induction false} ValueRemoved(es: seq<Entry>, k: string, key: string)
    ensures Value(RemoveEntries(es, k), key) == if key == k then None else Value(es, key)
    decreases |es|
  {
    if es != [] {
      ValueRemoved(es[1..], k, key);
      if es[0].0 != k {
        var r := RemoveEntries(es[1..], k);
        assert ([es[0]] + r)[1..] == r;
      }
    }
  }

  lemma ValueSet(es: seq<Entry>, k: string, v: string, key: string)
    requires |k| < KEY_LEN && |v| < VAL_LEN
    ensures Value(SetEntry(es, k, v), key) == if key == k then Some(v) else Value(es, key)
  {
    var i, j := Find(es, k), Find(es, key);
    var es' := SetEntry(es, k, v);
    if key == k {
      FindIs(es', key, i);
    } else if j < |es| {
      FindIs(es', key, j);
    } else {
      FindIs(es', key, |es'|);
    }
  }

  /** The entries with the first n numbered keys cleared. */
  function Cleared(es: seq<Entry>, n: nat): seq<Entry>
    requires n < 1000
    decreases n
  {
    if n == 0 then es else RemoveEntries(Cleared(es, n - 1), PickKey(n - 1))
  }

  /** ... and with the first n names stored under numbered keys. */
  function Stored(es: seq<Entry>, names: seq<string>, n: nat): seq<Entry>
    requires n <= |names| && n < 1000
    decreases n
  {
    if n == 0 then es else SetEntry(Stored(es, names, n - 1), PickKey(n - 1), names[n - 1])
  }

  /** cheatConfigSaveSelections. */
  function SavedIn(es: seq<Entry>, names: seq<string>): seq<Entry>
    requires |names| < 1000
  {
    Stored(Cleared(es, MAX_CODES), names, |names|)
  }

  /** cheatConfigLoadSelections' reading loop from number n on: it ends at the first key that is missing. */
  function ReadFrom(es: seq<Entry>, n: nat): seq<string>
    requires n <= MAX_CODES
    decreases MAX_CODES - n
  {
    if n == MAX_CODES then [] else
      match Value(es, PickKey(n))
      case None => []
      case Some(v) => [v] + ReadFrom(es, n + 1)
  }

  lemma {:induction false} ValueCleared(es: seq<Entry>, n: nat, key: string)
    requires n < 1000
    ensures (exists m: nat :: m < n && key == PickKey(m)) ==> Value(Cleared(es, n), key) == None
    ensures (forall m: nat :: m < n ==> key != PickKey(m)) ==> Value(Cleared(es, n), key) == Value(es, key)
    decreases n
  {
    hide PickKey, Value;
    if n > 0 {
      ValueCleared(es, n - 1, key);
      ValueRemoved(Cleared(es, n - 1), PickKey(n - 1), key);
    }
  }

  ghost predicate ShortNames(names: seq<string>) {
    forall i :: 0 <= i < |names| ==> |names[i]| < NAME_SIZE
  }

  lemma {:induction false} ValueStored(es: seq<Entry>, names: seq<string>, n: nat, m: nat)
    requires n <= |names| && n < 1000 && m < 1000 && ShortNames(names)
    ensures Value(Stored(es, names, n), PickKey(m)) == if m < n then Some(names[m]) else Value(es, PickKey(m))
    decreases n
  {
    hide Value;
    if n > 0 {
      ValueStored(es, names, n - 1, m);
      StoreOne(Stored(es, names, n - 1), n - 1, names[n - 1], m);
    }
  }

  lemma StoreOne(es: seq<Entry>, n: nat, v: string, m: nat)
    requires n < 1000 && m < 1000 && |v| < NAME_SIZE
    ensures Value(SetEntry(es, PickKey(n), v), PickKey(m)) == if m == n then Some(v) else Value(es, PickKey(m))
  {
    hide PickKey, Value, SetEntry;
    ValueSet(es, PickKey(n), v, PickKey(m));
    if PickKey(m) == PickKey(n) {
      PickKeyInjective(m, n);
    }
  }

  lemma {:induction false} ReadIs(es: seq<Entry>, names: seq<string>, n: nat)
    requires n <= |names| <= MAX_CODES
    requires forall m: nat :: m < |names| ==> Value(es, PickKey(m)) == Some(names[m])
    requires |names| < MAX_CODES ==> Value(es, PickKey(|names|)) == None
    ensures ReadFrom(es, n) == names[n..]
    decreases MAX_CODES - n
  {
    hide PickKey, Value;
    if n < |names| {
      ReadIs(es, names, n + 1);
      assert names[n..] == [names[n]] + names[n + 1..];
    }
  }

  /** Whatever picks were there before, exactly the ones just saved are read back. */
  lemma SavedIsRead(es: seq<Entry>, names: seq<string>)
    requires |names| <= MAX_CODES && ShortNames(names)
    ensures ReadFrom(SavedIn(es, names), 0) == names
  {
    hide PickKey, Value, ReadFrom;
    var es' := SavedIn(es, names);
    forall m: nat | m <= |names| && m < MAX_CODES
      ensures Value(es', PickKey(m)) == if m < |names| then Some(names[m]) else None
    {
      ValueStored(Cleared(es, MAX_CODES), names, |names|, m);
      ValueCleared(es, MAX_CODES, PickKey(m));
    }
    ReadIs(es', names, 0);
    assert names[0..] == names;
  }

  /** No other key of the set is touched. */
  lemma {:induction false} OthersKept(es: seq<Entry>, names: seq<string>, n: nat, key: string)
    requires n <= |names| && n < 1000 && ShortNames(names) && forall m: nat :: m < 1000 ==> key != PickKey(m)
    ensures Value(Stored(Cleared(es, MAX_CODES), names, n), key) == Value(es, key)
    decreases n
  {
    hide PickKey, Value;
    if n == 0 {
      ValueCleared(es, MAX_CODES, key);
    } else {
      OthersKept(es, names, n - 1, key);
      ValueSet(Stored(Cleared(es, MAX_CODES), names, n - 1), PickKey(n - 1), names[n - 1], key);
    }
  }

  lemma {:induction false} PicksShort(t: seq<Cheat>, n: nat)
    requires n <= |t| && forall i :: 0 <= i < |t| ==> |t[i].name| < NAME_SIZE
    ensures |Picks(t, n)| <= n && ShortNames(Picks(t, n))
    decreases n
  {
    hide IsMaster;
    if n > 0 {
      PicksShort(t, n - 1);
    }
  }

  /** Saving into a set and loading from it restores as many cheats of each optional name as were on. */
  lemma SaveThenLoad(es: seq<Entry>, saved: seq<Cheat>, t: seq<Cheat>, w: string)
    requires |saved| <= MAX_CODES && (forall i :: 0 <= i < |saved| ==> |saved[i].name| < NAME_SIZE) && !MasterName(w)
    ensures |Picks(saved, |saved|)| < 1000
    ensures var r := Loaded(t, ReadFrom(SavedIn(es, Picks(saved, |saved|)), 0));
            |r| == |t| && On(r, w, |r|) == Min(On(saved, w, |saved|), Total(t, w, |t|))
  {
    hide ReadFrom, SavedIn, Loaded, Picks, On, Total;
    PicksShort(saved, |saved|);
    SavedIsRead(es, Picks(saved, |saved|));
    LoadRestores(saved, t, w);
  }

  // ----- in place -----

  /** cheatConfigNormalize. */
  method Normalize(source: string) returns (out: string)
    ensures out == Norm(source)
  {
    var i, pending := 0, false;
    out := "";
    while i < |source| && IsSpace(source[i])
      invariant 0 <= i <= |source| && NormFrom(source, i, "", false) == Norm(source)
    {
      i := i + 1;
    }
    while i < |source| && |out| + 1 < NAME_SIZE
      invariant 0 <= i <= |source| && NormFrom(source, i, out, pending) == Norm(source)
    {
      var c := source[i];
      i := i + 1;
      if IsSpace(c) {
        pending := |out| > 0;
      } else {
        out := out + (if pending then " " else "") + [Lower(c)];
        pending := false;
      }
    }
  }

  /** The search for the first optional cheat of a name that is off, and turning it on. */
  method RestoreOne(table: array<Cheat>, saved: string)
    modifies table
    ensures table[..] == Restore(old(table[..]), saved)
  {
    hide Optional, FirstOff;
    var w := Normalize(saved);
    var i := 0;
    while i < table.Length
      invariant 0 <= i <= table.Length && table[..] == old(table[..])
      invariant FirstOff(table[..], w, i) == FirstOff(table[..], w, 0)
    {
      OffNext(table[..], w, i);
      if !table[i].enabled && Optional(table[i], w) {
        table[i] := table[i].(enabled := true);
        assert table[..] == old(table[..])[i := table[i]];
        return;
      }
      i := i + 1;
    }
  }

  lemma OffNext(t: seq<Cheat>, w: string, i: nat)
    requires i < |t|
    ensures FirstOff(t, w, i) == if !t[i].enabled && Optional(t[i], w) then i else FirstOff(t, w, i + 1)
  {
    hide Optional;
  }

  /** The table as it is before any pick: only master codes on. */
  method ResetTable(table: array<Cheat>)
    modifies table
    ensures table[..] == Reset(old(table[..]))
  {
    hide IsMaster;
    var i := 0;
    while i < table.Length
      invariant 0 <= i <= table.Length
      invariant forall k :: 0 <= k < table.Length ==>
                  table[k] == if k < i then old(table[k]).(enabled := IsMaster(old(table[k]))) else old(table[k])
    {
      table[i] := table[i].(enabled := IsMaster(table[i]));
      i := i + 1;
    }
  }

  /** cheatConfigLoadSelections over the named part of the table. */
  method LoadSelections(cfg: ConfigSet, table: array<Cheat>)
    requires cfg.Valid()
    modifies table
    ensures table[..] == Loaded(old(table[..]), ReadFrom(cfg.Entries(), 0))
  {
    hide IsMaster, ReadFrom, RestoreAll, PickKey, Reset, Restore, Value;
    ResetTable(table);
    ghost var start, saved := table[..], ReadFrom(cfg.Entries(), 0);
    var n := 0;
    RestoreNone(start, saved);
    assert saved[0..] == saved;
    while n < MAX_CODES
      invariant n <= MAX_CODES && n <= |saved| && cfg.Valid() && cfg.Entries() == old(cfg.Entries())
      invariant ReadFrom(cfg.Entries(), n) == saved[n..] && table[..] == RestoreAll(start, saved, n)
    {
      ReadNext(cfg.Entries(), n);
      var pick := GetPick(cfg, n);
      if pick.None? {
        assert |saved[n..]| == 0;
        return;
      }
      assert saved[n..][0] == saved[n] && saved[n..][1..] == saved[n + 1..];
      RestoreNext(start, saved, n);
      RestoreOne(table, pick.value);
      n := n + 1;
    }
    ReadLast(cfg.Entries(), n);
    assert |saved[n..]| == 0;
  }

  /** configGetStrCopy of a numbered key. */
  method GetPick(cfg: ConfigSet, n: nat) returns (v: Option<string>)
    requires cfg.Valid() && n < 1000
    ensures v == Value(cfg.Entries(), PickKey(n))
  {
    hide PickKey;
    var it, at := cfg.Item(PickKey(n));
    v := if it == null then None else Some(it.val);
  }

  lemma RestoreNone(t: seq<Cheat>, saved: seq<string>)
    ensures RestoreAll(t, saved, 0) == t
  {
  }

  lemma RestoreNext(t: seq<Cheat>, saved: seq<string>, n: nat)
    requires n < |saved|
    ensures RestoreAll(t, saved, n + 1) == Restore(RestoreAll(t, saved, n), saved[n])
  {
  }

  lemma ReadNext(es: seq<Entry>, n: nat)
    requires n < MAX_CODES
    ensures var v := Value(es, PickKey(n));
            ReadFrom(es, n) == if v.Some? then [v.value] + ReadFrom(es, n + 1) else []
  {
  }

  lemma ReadLast(es: seq<Entry>, n: nat)
    requires n == MAX_CODES
    ensures ReadFrom(es, n) == []
  {
  }

  method ClearPicks(cfg: ConfigSet)
    requires cfg.Valid()
    modifies cfg, cfg.nodes
    ensures cfg.Valid() && cfg.Entries() == Cleared(old(cfg.Entries()), MAX_CODES)
    ensures forall k :: 0 <= k < |cfg.nodes| ==> cfg.nodes[k] in old(cfg.nodes)
  {
    hide PickKey, RemoveEntries, Cleared;
    ghost var es := cfg.Entries();
    var i := 0;
    ClearedNext(es, 0);
    while i < MAX_CODES
      invariant i <= MAX_CODES && cfg.Valid() && cfg.Entries() == Cleared(es, i)
      invariant forall k :: 0 <= k < |cfg.nodes| ==> cfg.nodes[k] in old(cfg.nodes)
    {
      ghost var before := cfg.nodes;
      ClearedNext(es, i);
      var _ := cfg.RemoveKey(PickKey(i));
      assert forall k :: 0 <= k < |cfg.nodes| ==> cfg.nodes[k] in before;
      i := i + 1;
    }
  }

  lemma ClearedNext(es: seq<Entry>, n: nat)
    requires n < 999
    ensures Cleared(es, 0) == es && Cleared(es, n + 1) == RemoveEntries(Cleared(es, n), PickKey(n))
  {
  }

  /** One more pick under the next numbered key. */
  method StorePick(cfg: ConfigSet, n: nat, name: string)
    requires cfg.Valid() && n < 1000
    modifies cfg, cfg.nodes
    ensures cfg.Valid() && cfg.Entries() == SetEntry(old(cfg.Entries()), PickKey(n), name)
    ensures forall k :: 0 <= k < |cfg.nodes| ==> cfg.nodes[k] in old(cfg.nodes) || fresh(cfg.nodes[k])
  {
    hide Find, SetMarks, SetEntry;
    var _ := cfg.SetStr(PickKey(n), name, true);
  }

  lemma PicksNext(t: seq<Cheat>, names: seq<string>, i: nat)
    requires i < |t| && names == Picks(t, |t|)
    ensures Picks(t, i) <= names && Picks(t, i + 1) <= names
    ensures Picks(t, i + 1) == Picks(t, i) + if t[i].enabled && !IsMaster(t[i]) then [t[i].name] else []
  {
    hide IsMaster;
    PicksGrow(t, i, |t|);
    PicksGrow(t, i + 1, |t|);
  }

  method StorePicks(cfg: ConfigSet, table: seq<Cheat>)
    requires cfg.Valid() && |table| <= MAX_CODES && |Picks(table, |table|)| <= |table|
    modifies cfg, cfg.nodes
    ensures cfg.Valid() && cfg.Entries() == Stored(old(cfg.Entries()), Picks(table, |table|), |Picks(table, |table|)|)
  {
    hide PickKey, IsMaster, SetEntry, Picks;
    ghost var es, names := cfg.Entries(), Picks(table, |table|);
    var i, n := 0, 0;
    NonePicked(table);
    while i < |table|
      invariant i <= |table| && n == |Picks(table, i)| <= |names|
      invariant cfg.Valid() && cfg.Entries() == Stored(es, names, n)
      invariant forall k :: 0 <= k < |cfg.nodes| ==> cfg.nodes[k] in old(cfg.nodes) || fresh(cfg.nodes[k])
    {
      PicksNext(table, names, i);
      if table[i].enabled && !IsMaster(table[i]) {
        assert names[n] == table[i].name;
        StorePick(cfg, n, table[i].name);
        n := n + 1;
      }
      i := i + 1;
    }
  }

  lemma NonePicked(t: seq<Cheat>)
    ensures Picks(t, 0) == []
  {
  }

  /** cheatConfigSaveSelections, with memory for every entry. */
  method SaveSelections(cfg: ConfigSet, table: seq<Cheat>)
    requires cfg.Valid() && |table| <= MAX_CODES && forall i :: 0 <= i < |table| ==> |table[i].name| < NAME_SIZE
    modifies cfg, cfg.nodes
    ensures cfg.Valid() && |Picks(table, |table|)| <= |table|
    ensures cfg.Entries() == SavedIn(old(cfg.Entries()), Picks(table, |table|))
  {
    hide Cleared, Stored, Picks;
    PicksShort(table, |table|);
    ClearPicks(cfg);
    StorePicks(cfg, table);
  }

  lemma {:induction false} PicksGrow(t: seq<Cheat>, i: nat, n: nat)
    requires i <= n <= |t|
    ensures Picks(t, i) <= Picks(t, n)
    decreases n
  {
    hide IsMaster;
    if i < n {
      PicksGrow(t, i, n - 1);
    }
  }
}
