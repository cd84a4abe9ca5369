/** The linked list refines an insertion-ordered map, over every run of set and remove (src/config.c). */
module ConfigOrder {
  import opened ConfigStore

  /** The reference: keys in order of first insertion, and their values. */
  datatype OrderedMap = OrderedMap(order: seq<string>, vals: map<string, string>)

  datatype Op = Set(key: string, val: string) | Remove(key: string)

  function Without(order: seq<string>, key: string): seq<string> {
    if order == [] then []
    else (if order[0] == key then [] else [order[0]]) + Without(order[1..], key)
  }

  function ApplyMap(m: OrderedMap, op: Op): OrderedMap {
    match op
    case Set(k, v) =>
      OrderedMap(if k in m.order then m.order else m.order + [k], m.vals[k := Fit(v, VAL_LEN)])
    case Remove(k) => OrderedMap(Without(m.order, k), m.vals - {k})
  }

  /** A configuration set as a value: its entries and its modified flag; what the class methods do. */
  datatype Config = Config(entries: seq<Entry>, modified: bool)

  function Apply(c: Config, op: Op): Config {
    match op
    case Set(k, v) => Config(SetEntry(c.entries, k, v), c.modified || SetMarks(c.entries, k, v))
    case Remove(k) =>
      Config(RemoveEntries(c.entries, k), c.modified || (Persistent(k) && Has(c.entries, |c.entries|, k)))
  }

  function Run(c: Config, ops: seq<Op>): Config {
    if ops == [] then c else Apply(Run(c, ops[..|ops| - 1]), ops[|ops| - 1])
  }

  function RunMap(m: OrderedMap, ops: seq<Op>): OrderedMap {
    if ops == [] then m else ApplyMap(RunMap(m, ops[..|ops| - 1]), ops[|ops| - 1])
  }

  predicate Unique(es: seq<Entry>) {
    forall i, j :: 0 <= i < j < |es| ==> es[i].0 != es[j].0
  }

  function Keys(es: seq<Entry>): seq<string> {
    seq(|es|, i requires 0 <= i < |es| => es[i].0)
  }

  /** Unique keys in the reference's order, with the reference's values, all within the value buffer. */
  ghost predicate Refines(es: seq<Entry>, m: OrderedMap) {
    && Unique(es) && Keys(es) == m.order
    && (forall k :: k in m.vals <==> k in m.order)
    && (forall i :: 0 <= i < |es| ==> es[i].0 in m.vals && m.vals[es[i].0] == es[i].1 && |es[i].1| < VAL_LEN)
  }

  lemma AppendRefines(es: seq<Entry>, m: OrderedMap, k: string, v: string)
    requires Refines(es, m) && Find(es, k) == |es| && |v| < VAL_LEN
    ensures k !in m.order
    ensures Refines(es + [(k, v)], OrderedMap(m.order + [k], m.vals[k := v]))
  {
    assert forall j :: 0 <= j < |es| ==> Keys(es)[j] == es[j].0;
    assert k !in Keys(es);
    assert Keys(es + [(k, v)]) == Keys(es) + [k];
  }

  lemma OverwriteRefines(es: seq<Entry>, m: OrderedMap, i: nat, v: string)
    requires Refines(es, m) && i < |es| && |v| < VAL_LEN
    ensures es[i].0 in m.order
    ensures Refines(es[i := (es[i].0, v)], OrderedMap(m.order, m.vals[es[i].0 := v]))
  {
    assert Keys(es)[i] == es[i].0;
    assert Keys(es[i := (es[i].0, v)]) == Keys(es);
  }

  lemma SetRefines(es: seq<Entry>, m: OrderedMap, k: string, v: string)
    requires Refines(es, m) && |k| < KEY_LEN
    ensures Refines(SetEntry(es, k, v), ApplyMap(m, Set(k, v)))
  {
    var i := Find(es, k);
    if i == |es| {
      AppendRefines(es, m, k, Fit(v, VAL_LEN));
    } else {
      OverwriteRefines(es, m, i, Fit(v, VAL_LEN));
      assert es[i := (es[i].0, es[i].1)] == es;
    }
  }

  /** Removal keeps the order of the survivors and drops exactly the key. */
  lemma {:induction false} RemoveMembers(es: seq<Entry>, k: string)
    ensures Keys(RemoveEntries(es, k)) == Without(Keys(es), k)
    ensures forall e :: e in RemoveEntries(es, k) <==> e in es && e.0 != k
    ensures Unique(es) ==> Unique(RemoveEntries(es, k))
  {
    if es != [] {
      RemoveMembers(es[1..], k);
      KeysCons(es[0], es[1..]);
      assert es == [es[0]] + es[1..];
      var rest := RemoveEntries(es[1..], k);
      KeysCons(es[0], rest);
      if es[0].0 != k && Unique(es) {
        UniqueCons(es[0], es[1..], rest);
      }
    }
  }

  lemma KeysCons(e: Entry, es: seq<Entry>)
    ensures Keys([e] + es) == [e.0] + Keys(es)
  {
  }

  lemma UniqueCons(e: Entry, es: seq<Entry>, rest: seq<Entry>)
    requires Unique([e] + es) && Unique(rest) && forall x :: x in rest ==> x in es
    ensures Unique([e] + rest)
  {
    forall j | 0 <= j < |rest|
      ensures rest[j].0 != e.0
    {
      assert rest[j] in es;
      var i :| 0 <= i < |es| && es[i] == rest[j];
      assert ([e] + es)[0] == e && ([e] + es)[i + 1] == es[i];
    }
  }

  lemma {:induction false} WithoutMembers(order: seq<string>, k: string)
    ensures forall x :: x in Without(order, k) <==> x in order && x != k
  {
    if order != [] {
      WithoutMembers(order[1..], k);
      assert order == [order[0]] + order[1..];
    }
  }

  lemma RemoveRefines(es: seq<Entry>, m: OrderedMap, k: string)
    requires Refines(es, m)
    ensures Refines(RemoveEntries(es, k), ApplyMap(m, Remove(k)))
  {
    RemoveMembers(es, k);
    WithoutMembers(m.order, k);
    var es' := RemoveEntries(es, k);
    forall i | 0 <= i < |es'|
      ensures es'[i].0 in m.vals - {k} && m.vals[es'[i].0] == es'[i].1 && |es'[i].1| < VAL_LEN
    {
      assert es'[i] in es;
    }
  }

  predicate ShortKeys(ops: seq<Op>) {
    forall i :: 0 <= i < |ops| ==> |ops[i].key| < KEY_LEN
  }

  /** Over any run with keys of at most 47 characters the list is the ordered map. */
  lemma {:induction false} RunRefines(c: Config, m: OrderedMap, ops: seq<Op>)
    requires Refines(c.entries, m) && ShortKeys(ops)
    ensures Refines(Run(c, ops).entries, RunMap(m, ops))
  {
    if ops != [] {
      var init := ops[..|ops| - 1];
      RunRefines(c, m, init);
      match ops[|ops| - 1]
      case Set(k, v) => SetRefines(Run(c, init).entries, RunMap(m, init), k, v);
      case Remove(k) => RemoveRefines(Run(c, init).entries, RunMap(m, init), k);
    }
  }

  /** Setting the first of several further unique entries appends it. */
  lemma AppendNext(acc: seq<Entry>, es: seq<Entry>)
    requires es != [] && Unique(acc + es) && |es[0].0| < KEY_LEN && |es[0].1| < VAL_LEN
    ensures SetEntry(acc, es[0].0, es[0].1) == acc + [es[0]]
    ensures acc + [es[0]] + es[1..] == acc + es
  {
    hide Find;
    NotYetThere(acc, es);
    FindIs(acc, es[0].0, |acc|);
    Regroup(acc, es);
  }

  lemma NotYetThere(acc: seq<Entry>, es: seq<Entry>)
    requires es != [] && Unique(acc + es)
    ensures forall k :: 0 <= k < |acc| ==> acc[k].0 != es[0].0
  {
    var all := acc + es;
    forall k | 0 <= k < |acc| ensures acc[k].0 != es[0].0 {
      assert all[k] == acc[k] && all[|acc|] == es[0];
    }
  }

  lemma Regroup(acc: seq<Entry>, es: seq<Entry>)
    requires es != []
    ensures acc + [es[0]] + es[1..] == acc + es
  {
  }

  // ----- the modified flag -----

  /** What a save would write. */
  function Saved(es: seq<Entry>): seq<Entry> {
    if es == [] then []
    else (if Persistent(es[0].0) then [es[0]] else []) + Saved(es[1..])
  }

  lemma SavedCons(e: Entry, es: seq<Entry>)
    ensures Saved([e] + es) == (if Persistent(e.0) then [e] else []) + Saved(es)
  {
    hide Persistent;
    assert ([e] + es)[0] == e && ([e] + es)[1..] == es;
  }

  lemma {:induction false} SavedConcat(a: seq<Entry>, b: seq<Entry>)
    ensures Saved(a + b) == Saved(a) + Saved(b)
  {
    hide Persistent;
    if a == [] {
      assert a + b == b;
    } else {
      SavedConcat(a[1..], b);
      assert a + b == [a[0]] + (a[1..] + b);
      SavedCons(a[0], a[1..] + b);
      SavedCons(a[0], a[1..]);
      assert a == [a[0]] + a[1..];
    }
  }

  lemma {:induction false} RemoveRuntimeKey(es: seq<Entry>, k: string)
    requires !Persistent(k) || !Has(es, |es|, k)
    ensures Saved(RemoveEntries(es, k)) == Saved(es)
  {
    if es != [] {
      assert !Persistent(k) || !Has(es[1..], |es[1..]|, k) by {
        if j :| 0 <= j < |es[1..]| && es[1..][j].0 == k {
          assert es[j + 1].0 == k;
        }
      }
      RemoveRuntimeKey(es[1..], k);
      var rest := RemoveEntries(es[1..], k);
      assert ([es[0]] + rest)[1..] == rest;
    }
  }

  lemma UnmarkedSet(es: seq<Entry>, k: string, v: string)
    requires KeyValid(k) && !SetMarks(es, k, v)
    ensures Saved(SetEntry(es, k, v)) == Saved(es)
  {
    var i := Find(es, k);
    if i == |es| {
      SavedConcat(es, [(Fit(k, KEY_LEN), Fit(v, VAL_LEN))]);
    } else if es[i].1 != v {
      var e := (es[i].0, Fit(v, VAL_LEN));
      assert es == es[..i] + ([es[i]] + es[i + 1..]) && es[i := e] == es[..i] + ([e] + es[i + 1..]);
      SavedConcat(es[..i], [es[i]] + es[i + 1..]);
      SavedConcat(es[..i], [e] + es[i + 1..]);
      SavedConcat([es[i]], es[i + 1..]);
      SavedConcat([e], es[i + 1..]);
    }
  }

  /** A run that leaves the flag down has changed nothing a save would write. */
  lemma {:induction false} UnmodifiedMeansNothingToSave(c: Config, ops: seq<Op>)
    requires forall i :: 0 <= i < |ops| ==> KeyValid(ops[i].key)
    requires !Run(c, ops).modified
    ensures Saved(Run(c, ops).entries) == Saved(c.entries)
  {
    if ops != [] {
      var init := ops[..|ops| - 1];
      UnmodifiedMeansNothingToSave(c, init);
      match ops[|ops| - 1]
      case Set(k, v) => UnmarkedSet(Run(c, init).entries, k, v);
      case Remove(k) => RemoveRuntimeKey(Run(c, init).entries, k);
    }
  }

  lemma {:induction false} SavedLength(es: seq<Entry>, k: string)
    ensures |Saved(RemoveEntries(es, k))| <= |Saved(es)|
    ensures Persistent(k) && Has(es, |es|, k) ==> |Saved(RemoveEntries(es, k))| < |Saved(es)|
  {
    hide Persistent;
    if es != [] {
      SavedLength(es[1..], k);
      var rest := RemoveEntries(es[1..], k);
      SavedCons(es[0], rest);
      SavedCons(es[0], es[1..]);
      assert es == [es[0]] + es[1..];
      if es[0].0 != k && Has(es, |es|, k) {
        var j :| 0 <= j < |es| && es[j].0 == k;
        assert es[1..][j - 1].0 == k;
      }
    }
  }

  lemma SavedChanges(a: seq<Entry>, e: Entry, e': Entry, b: seq<Entry>)
    requires Persistent(e.0) && Persistent(e'.0) && e != e'
    ensures Saved(a + ([e] + b)) != Saved(a + ([e'] + b))
  {
    hide Saved, Persistent;
    SavedConcat(a, [e] + b);
    SavedConcat(a, [e'] + b);
    SavedCons(e, b);
    SavedCons(e', b);
    assert Saved(a + ([e] + b))[|Saved(a)|] == e && Saved(a + ([e'] + b))[|Saved(a)|] == e';
  }

  /** Setting a value that fits raises the flag exactly when it changes what a save would write. */
  lemma SetMarksIff(es: seq<Entry>, k: string, v: string)
    requires KeyValid(k) && |v| < VAL_LEN
    ensures SetMarks(es, k, v) <==> Saved(SetEntry(es, k, v)) != Saved(es)
  {
    hide Saved, Find;
    if !SetMarks(es, k, v) {
      UnmarkedSet(es, k, v);
    } else {
      var i := Find(es, k);
      if i == |es| {
        var e := (Fit(k, KEY_LEN), v);
        SavedConcat(es, [e]);
        SavedCons(e, []);
        assert [e] + [] == [e];
        assert |Saved(es + [e])| > |Saved(es)|;
      } else {
        var e := (es[i].0, v);
        assert es == es[..i] + ([es[i]] + es[i + 1..]) && es[i := e] == es[..i] + ([e] + es[i + 1..]);
        SavedChanges(es[..i], es[i], e, es[i + 1..]);
      }
    }
  }

  /** Removing raises it exactly when that changes what a save would write. */
  lemma RemoveMarksIff(es: seq<Entry>, k: string)
    ensures Persistent(k) && Has(es, |es|, k) <==> Saved(RemoveEntries(es, k)) != Saved(es)
  {
    hide Saved, Persistent, Has;
    if Persistent(k) && Has(es, |es|, k) {
      SavedLength(es, k);
    } else {
      RemoveRuntimeKey(es, k);
    }
  }

  // ----- the length limit -----

  /** A stored key is found under its own name exactly when it is at most 47 characters long. */
  lemma FoundIffShort(es: seq<Entry>, k: string, v: string)
    requires forall i :: 0 <= i < |es| ==> |es[i].0| < KEY_LEN
    ensures Find(SetEntry(es, k, v), k) < |SetEntry(es, k, v)| <==> |k| < KEY_LEN
  {
    var es' := SetEntry(es, k, v);
    assert forall i :: 0 <= i < |es'| ==> |es'[i].0| < KEY_LEN;
    if |k| < KEY_LEN {
      assert es'[if Find(es, k) == |es| then |es| else Find(es, k)].0 == k;
    }
  }

  /** Setting one overlong key twice leaves two nodes with the same stored key. */
  lemma LongKeyDuplicates(k: string, v: string, w: string)
    requires |k| >= KEY_LEN
    ensures var es := Run(Config([], false), [Set(k, v), Set(k, w)]).entries;
            |es| == 2 && es[0].0 == es[1].0 == k[..KEY_LEN - 1]
  {
    var c := Config([], false);
    var ops := [Set(k, v), Set(k, w)];
    assert ops[..1] == [Set(k, v)] && [Set(k, v)][..0] == [];
    assert Run(c, ops[..1]) == Apply(c, Set(k, v));
    FoundIffShort([], k, v);
  }
}
