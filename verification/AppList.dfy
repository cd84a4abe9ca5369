/** Dropping duplicate discoveries from the application list (src/appsupport.c). */
module AppList {
  import opened AppKeys

  datatype App = App(title: string, path: string, boot: string, startup: string, argv1: string, legacy: bool)

  predicate Same(a: App, b: App) {
    SameApp(a.startup, b.startup)
  }

  lemma SameTransitive(a: App, b: App, c: App)
    ensures Same(a, b) ==> Same(b, a)
    ensures Same(a, b) && Same(b, c) ==> Same(a, c)
    ensures Same(a, b) ==> Same(a, a)
  {
  }

  /** The first of the kept records with the same startup, or how many there are. */
  function FirstSame(kept: seq<App>, a: App, j: nat): (r: nat)
    requires j <= |kept|
    ensures j <= r <= |kept| && (r < |kept| ==> Same(kept[r], a)) && forall i :: j <= i < r ==> !Same(kept[i], a)
    decreases |kept| - j
  {
    if j == |kept| || Same(kept[j], a) then j else FirstSame(kept, a, j + 1)
  }

  /** A survivor without an argument takes the dropped record's. */
  function Donate(to: App, from: App): App {
    if to.argv1 == "" then to.(argv1 := from.argv1) else to
  }

  /** One turn of appDedupList. */
  function Add(kept: seq<App>, a: App): seq<App> {
    var dup := FirstSame(kept, a, 0);
    if dup < |kept| && !a.legacy then kept[dup := Donate(kept[dup], a)] else kept + [a]
  }

  /** appDedupList after n records. */
  function Dedup(list: seq<App>, n: nat): seq<App>
    requires n <= |list|
    decreases n
  {
    if n == 0 then [] else Add(Dedup(list, n - 1), list[n - 1])
  }

  // ----- what it should keep -----

  /** An earlier record of the list has the same startup. */
  ghost predicate Seen(list: seq<App>, i: nat)
    requires i < |list|
  {
    exists j: nat :: j < i && Same(list[j], list[i])
  }

  /** The records kept: legacy ones, and those not seen before. */
  ghost function Kept(list: seq<App>, n: nat): (r: seq<nat>)
    requires n <= |list|
    ensures forall k :: 0 <= k < |r| ==> r[k] < n
    ensures forall k, l :: 0 <= k < l < |r| ==> r[k] < r[l]
    decreases n
  {
    if n == 0 then []
    else if list[n - 1].legacy || !Seen(list, n - 1) then Kept(list, n - 1) + [n - 1]
    else Kept(list, n - 1)
  }

  /** The first argument among the scanned records after i with the same startup. */
  function Donated(list: seq<App>, i: nat, n: nat): string
    requires i < |list| && n <= |list|
    decreases n
  {
    if n <= i + 1 then ""
    else if Donated(list, i, n - 1) != "" then Donated(list, i, n - 1)
    else if !list[n - 1].legacy && Same(list[i], list[n - 1]) then list[n - 1].argv1
    else ""
  }

  /** A kept record: unchanged but for an argument donated to the first of its kind. */
  ghost function Expected(list: seq<App>, i: nat, n: nat): App
    requires i < |list| && n <= |list|
  {
    if list[i].argv1 != "" || Seen(list, i) then list[i] else list[i].(argv1 := Donated(list, i, n))
  }

  ghost predicate AsExpected(kept: seq<App>, list: seq<App>, n: nat)
    requires n <= |list|
  {
    && |kept| == |Kept(list, n)|
    && forall k :: 0 <= k < |kept| ==> kept[k] == Expected(list, Kept(list, n)[k], n)
  }

  /** Every record has a survivor with the same startup, no later than itself. */
  lemma {:induction false} Survives(list: seq<App>, n: nat, j: nat) returns (k: nat)
    requires j < n <= |list| && Same(list[j], list[j])
    ensures k < |Kept(list, n)| && Kept(list, n)[k] <= j && Same(list[Kept(list, n)[k]], list[j])
    decreases n, j
  {
    hide Same;
    if j < n - 1 {
      k := Survives(list, n - 1, j);
    } else if list[j].legacy || !Seen(list, j) {
      k := |Kept(list, n)| - 1;
    } else {
      var i: nat :| i < j && Same(list[i], list[j]);
      SameTransitive(list[i], list[j], list[i]);
      k := Survives(list, n - 1, i);
      SameTransitive(list[Kept(list, n - 1)[k]], list[i], list[j]);
    }
  }

  /** Among the kept records, a match is found exactly when the startup was seen before. */
  lemma FoundIffSeen(kept: seq<App>, list: seq<App>, n: nat)
    requires n < |list| && AsExpected(kept, list, n)
    ensures FirstSame(kept, list[n], 0) < |kept| <==> Seen(list, n)
  {
    hide Same, Donated;
    ExpectedSame(kept, list, n);
    var dup := FirstSame(kept, list[n], 0);
    if dup < |kept| {
      assert Same(list[Kept(list, n)[dup]], list[n]);
    }
    if Seen(list, n) {
      var j: nat :| j < n && Same(list[j], list[n]);
      SameTransitive(list[j], list[n], list[j]);
      var k := Survives(list, n, j);
      SameTransitive(list[Kept(list, n)[k]], list[j], list[n]);
      assert Same(kept[k], list[n]);
    }
  }

  lemma ExpectedSame(kept: seq<App>, list: seq<App>, n: nat)
    requires n <= |list| && AsExpected(kept, list, n)
    ensures forall k, a :: 0 <= k < |kept| ==> (Same(kept[k], a) <==> Same(list[Kept(list, n)[k]], a))
  {
    forall k, a | 0 <= k < |kept| ensures Same(kept[k], a) <==> Same(list[Kept(list, n)[k]], a) {
      assert kept[k].startup == list[Kept(list, n)[k]].startup;
    }
  }

  /** A kept record with a match before it among the kept ones was seen before. */
  lemma LaterIsSeen(kept: seq<App>, list: seq<App>, n: nat, dup: nat, k: nat)
    requires n < |list| && AsExpected(kept, list, n) && dup < k < |kept| && Same(kept[dup], list[n]) && Same(kept[k], list[n])
    ensures Seen(list, Kept(list, n)[k])
  {
    hide Same, Expected;
    ExpectedSame(kept, list, n);
    var d, i := Kept(list, n)[dup], Kept(list, n)[k];
    SameTransitive(list[i], list[n], list[i]);
    SameTransitive(list[d], list[n], list[i]);
    assert d < i && Same(list[d], list[i]);
  }

  /** A kept record that was seen before has a match before it among the kept ones. */
  lemma SeenIsLater(kept: seq<App>, list: seq<App>, n: nat, k: nat) returns (l: nat)
    requires n < |list| && AsExpected(kept, list, n) && k < |kept| && Same(kept[k], list[n]) && Seen(list, Kept(list, n)[k])
    ensures l < k && Same(kept[l], list[n])
  {
    hide Same, Expected;
    ExpectedSame(kept, list, n);
    var i := Kept(list, n)[k];
    var j: nat :| j < i && Same(list[j], list[i]);
    SameTransitive(list[j], list[i], list[n]);
    SameTransitive(list[j], list[i], list[j]);
    l := Survives(list, n, j);
    SameTransitive(list[Kept(list, n)[l]], list[j], list[n]);
  }

  /** Of the kept records that match, only the first was not seen before. */
  lemma FirstIsUnseen(kept: seq<App>, list: seq<App>, n: nat, k: nat)
    requires n < |list| && AsExpected(kept, list, n) && k < |kept| && Same(kept[k], list[n])
    ensures !Seen(list, Kept(list, n)[k]) <==> k == FirstSame(kept, list[n], 0)
  {
    hide Same, Expected, Seen;
    var dup := FirstSame(kept, list[n], 0);
    if dup < k {
      LaterIsSeen(kept, list, n, dup, k);
    } else if Seen(list, Kept(list, n)[k]) {
      var l := SeenIsLater(kept, list, n, k);
    }
  }

  /** What one more record changes of an expected one. */
  lemma ExpectedNext(list: seq<App>, i: nat, n: nat)
    requires i < n < |list|
    ensures !list[n].legacy && Same(list[i], list[n]) && !Seen(list, i) ==>
              Expected(list, i, n + 1) == Donate(Expected(list, i, n), list[n])
    ensures list[n].legacy || !Same(list[i], list[n]) || Seen(list, i) ==> Expected(list, i, n + 1) == Expected(list, i, n)
  {
    hide Same, Seen;
  }

  lemma {:induction false} AddExpected(kept: seq<App>, list: seq<App>, n: nat)
    requires n < |list| && AsExpected(kept, list, n)
    ensures AsExpected(Add(kept, list[n]), list, n + 1)
  {
    hide Same, Seen, Expected, Donate;
    var a, ks := list[n], Kept(list, n);
    var dup := FirstSame(kept, a, 0);
    FoundIffSeen(kept, list, n);
    ExpectedSame(kept, list, n);
    forall k | 0 <= k < |kept|
      ensures Expected(list, ks[k], n + 1) == if k == dup && !a.legacy then Donate(kept[k], a) else kept[k]
    {
      ExpectedNext(list, ks[k], n);
      if Same(kept[k], a) {
        FirstIsUnseen(kept, list, n, k);
      }
    }
    ExpectedFresh(list, n);
  }

  lemma ExpectedFresh(list: seq<App>, n: nat)
    requires n < |list|
    ensures Expected(list, n, n + 1) == list[n]
  {
  }

  /**
   appDedupList keeps exactly the legacy records and the scanned ones with no earlier record of the same startup,
   in order, each unchanged but for a donated argument.
   */
  lemma {:induction false} DedupKeeps(list: seq<App>, n: nat)
    requires n <= |list|
    ensures AsExpected(Dedup(list, n), list, n)
    decreases n
  {
    hide AsExpected, Add;
    if n == 0 {
      NoneExpected(list);
    } else {
      DedupKeeps(list, n - 1);
      AddExpected(Dedup(list, n - 1), list, n - 1);
    }
  }

  lemma NoneExpected(list: seq<App>)
    ensures AsExpected([], list, 0)
  {
  }

  /** Legacy records come first. */
  ghost predicate LegacyFirst(list: seq<App>, legacy: nat) {
    legacy <= |list| && forall i :: 0 <= i < |list| ==> (list[i].legacy <==> i < legacy)
  }

  lemma {:induction false} LegacyKept(list: seq<App>, legacy: nat, n: nat, i: nat)
    requires LegacyFirst(list, legacy) && i < legacy && i < n <= |list|
    ensures i < |Kept(list, n)| && Kept(list, n)[i] == i
    decreases n
  {
    if n <= legacy {
      AllKept(list, legacy, n);
    } else {
      LegacyKept(list, legacy, n - 1, i);
    }
  }

  lemma {:induction false} AllKept(list: seq<App>, legacy: nat, n: nat)
    requires LegacyFirst(list, legacy) && n <= legacy
    ensures |Kept(list, n)| == n && forall i :: 0 <= i < n ==> Kept(list, n)[i] == i
    decreases n
  {
    if n > 0 {
      AllKept(list, legacy, n - 1);
    }
  }

  /** Every legacy record keeps its index, and everything but its argument. */
  lemma LegacyKeepsIndex(list: seq<App>, legacy: nat, i: nat)
    requires LegacyFirst(list, legacy) && i < legacy
    ensures i < |Dedup(list, |list|)|
    ensures var a := Dedup(list, |list|)[i]; a == list[i].(argv1 := a.argv1) && (list[i].argv1 != "" ==> a == list[i])
  {
    DedupKeeps(list, |list|);
    LegacyKept(list, legacy, |list|, i);
  }

  /** Nothing disappears without a survivor of the same startup. */
  lemma DroppedHasSurvivor(list: seq<App>, j: nat) returns (k: nat)
    requires j < |list| && list[j].startup != ""
    ensures k < |Dedup(list, |list|)| && Same(Dedup(list, |list|)[k], list[j])
  {
    hide SameApp;
    assert Same(list[j], list[j]) by { SameAppIsPartialEquivalence(list[j].startup, "", ""); }
    k := Survives(list, |list|, j);
    DedupKeeps(list, |list|);
    ExpectedSame(Dedup(list, |list|), list, |list|);
  }

  /** No two scanned survivors have the same startup, so a second pass finds nothing to drop. */
  lemma ScannedAreDistinct(list: seq<App>, k: nat, l: nat)
    requires k < l < |Dedup(list, |list|)| && !Dedup(list, |list|)[l].legacy
    ensures !Same(Dedup(list, |list|)[k], Dedup(list, |list|)[l])
  {
    hide SameApp;
    DedupKeeps(list, |list|);
    var ks := Kept(list, |list|);
    KeptUnseen(list, |list|, l);
    assert !Seen(list, ks[l]) && ks[k] < ks[l];
  }

  lemma {:induction false} KeptUnseen(list: seq<App>, n: nat, l: nat)
    requires n <= |list| && l < |Kept(list, n)|
    ensures list[Kept(list, n)[l]].legacy || !Seen(list, Kept(list, n)[l])
    decreases n
  {
    hide Seen;
    if l < |Kept(list, n - 1)| {
      KeptUnseen(list, n - 1, l);
    }
  }

  // ----- in place -----

  method FindSame(list: array<App>, kept: nat, a: App) returns (dup: nat)
    requires kept <= list.Length
    ensures dup == FirstSame(list[..kept], a, 0)
  {
    dup := 0;
    while dup < kept
      invariant dup <= kept && FirstSame(list[..kept], a, dup) == FirstSame(list[..kept], a, 0)
    {
      var same := StartupKeyEqual(list[dup].startup, a.startup);
      if same {
        return;
      }
      dup := dup + 1;
    }
  }

  lemma DedupNext(list: seq<App>, i: nat)
    requires i < |list|
    ensures var kept, a := Dedup(list, i), list[i];
            var dup := FirstSame(kept, a, 0);
            Dedup(list, i + 1) == if dup < |kept| && !a.legacy then kept[dup := Donate(kept[dup], a)] else kept + [a]
  {
    hide FirstSame, Donate;
  }

  lemma DedupShort(list: seq<App>)
    requires |list| <= 1
    ensures Dedup(list, |list|) == list
  {
    if |list| == 1 {
      assert Dedup(list, 0) == [] && FirstSame([], list[0], 0) == 0;
      DedupNext(list, 0);
    } else {
      assert list == [];
    }
  }

  /** One record of the loop: it is dropped, with its argument donated, or moved up behind the kept ones. */
  method Turn(list: array<App>, kept: nat, i: nat) returns (kept': nat)
    requires kept <= i < list.Length
    modifies list
    ensures kept <= kept' <= kept + 1 && list[..kept'] == Add(old(list[..kept]), old(list[i]))
    ensures forall j :: i < j < list.Length ==> list[j] == old(list[j])
  {
    hide FirstSame, Donate;
    var a := list[i];
    ghost var before := list[..kept];
    var dup := FindSame(list, kept, a);
    if dup < kept && !a.legacy {
      if list[dup].argv1 == "" && a.argv1 != "" {
        list[dup] := list[dup].(argv1 := a.argv1);
      }
      Donating(before[dup], a);
      assert list[..kept] == before[dup := Donate(before[dup], a)];
      kept' := kept;
    } else {
      if kept != i {
        list[kept] := a;
      }
      kept' := kept + 1;
      assert list[..kept'] == before + [a];
    }
  }

  /** appDedupList: the list is compacted in place over its first count records. */
  method DedupInPlace(list: array<App>, count: nat) returns (kept: nat, dropped: nat)
    requires count <= list.Length
    modifies list
    ensures kept <= count && list[..kept] == Dedup(old(list[..count]), count) && dropped == count - kept
    ensures list[count..] == old(list[count..])
  {
    hide Dedup, Add;
    kept, dropped := 0, 0;
    ghost var was := list[..count];
    if count <= 1 {
      DedupShort(was);
      kept := count;
      return;
    }
    DedupNone(was);
    for i := 0 to count
      invariant kept <= i && dropped == i - kept && list[..kept] == Dedup(was, i)
      invariant forall j :: i <= j < list.Length ==> list[j] == old(list[j])
    {
      DedupAdds(was, i);
      var kept' := Turn(list, kept, i);
      if kept' == kept {
        dropped := dropped + 1;
      }
      kept := kept';
    }
  }

  lemma DedupAdds(list: seq<App>, i: nat)
    requires i < |list|
    ensures Dedup(list, i + 1) == Add(Dedup(list, i), list[i])
  {
  }

  lemma DedupNone(list: seq<App>)
    ensures Dedup(list, 0) == []
  {
  }

  lemma Donating(to: App, from: App)
    ensures Donate(to, from) == if to.argv1 == "" && from.argv1 != "" then to.(argv1 := from.argv1) else to
  {
  }
}
