/** What rewriting a settings file guarantees (src/cuesupport.c). */
module CueRewrite {
  import opened Text
  import opened CueLines

  function OutLines(t: string, want: seq<Setting>): seq<string> {
    Keep(RawLines(t), want) + Wanted(want)
  }

  lemma {:induction false} WantedNoBreak(want: seq<Setting>)
    requires AllWritable(want)
    ensures AllNoBreak(Wanted(want))
    decreases |want|
  {
    if want != [] {
      WantedNoBreak(want[1..]);
      if want[0].value.Some? {
        NoBreakCons(Line(want[0]), Wanted(want[1..]));
      } else {
        assert [] + Wanted(want[1..]) == Wanted(want[1..]);
      }
    }
  }

  lemma OutNoBreak(t: string, want: seq<Setting>)
    requires AllWritable(want)
    ensures AllNoBreak(Keep(RawLines(t), want)) && AllNoBreak(OutLines(t, want))
  {
    hide RawLines, Keep, Wanted, AllNoBreak;
    RawNoBreak(t);
    KeepNoBreak(RawLines(t), want);
    WantedNoBreak(want);
    NoBreakAppend(Keep(RawLines(t), want), Wanted(want));
  }

  /** The lines of the rewritten text are the kept ones and the wanted ones. */
  lemma RewrittenLines(t: string, want: seq<Setting>)
    requires AllWritable(want) && want != []
    ensures RawLines(Rewritten(t, want)) == OutLines(t, want)
  {
    hide RawLines, Keep, Wanted, AllNoBreak;
    OutNoBreak(t, want);
    LinesBack(OutLines(t, want));
  }

  // ----- which lines stay -----

  /** A line is managed when it sets one of the wanted keys. */
  lemma {:induction false} ManagedIff(line: string, want: seq<Setting>)
    ensures Managed(line, want) <==> exists j :: 0 <= j < |want| && SetsKey(line, want[j].key)
    decreases |want|
  {
    hide SetsKey;
    if want != [] {
      ManagedIff(line, want[1..]);
      if j :| 0 <= j < |want| && SetsKey(line, want[j].key) {
        assert j > 0 ==> want[1..][j - 1] == want[j];
      }
      if j :| 0 <= j < |want[1..]| && SetsKey(line, want[1..][j].key) {
        assert want[j + 1] == want[1..][j];
      }
    }
  }

  predicate Stays(lines: seq<string>, j: nat, want: seq<Setting>) {
    j < |lines| && !Managed(Chop(lines[j]), want)
  }

  predicate Increasing(ps: seq<nat>) {
    forall i, k :: 0 <= i < k < |ps| ==> ps[i] < ps[k]
  }

  /** The lines in r are those at the positions ps, all from j on, less one trailing CR each. */
  ghost predicate StandAt(lines: seq<string>, j: nat, ps: seq<nat>, r: seq<string>) {
    |ps| == |r| && forall i :: 0 <= i < |ps| ==> j <= ps[i] < |lines| && r[i] == Chop(lines[ps[i]])
  }

  /** ps are the positions from j on that stay. */
  ghost predicate AreStaying(lines: seq<string>, j: nat, ps: seq<nat>, want: seq<Setting>) {
    forall k: nat :: k in ps <==> k >= j && Stays(lines, k, want)
  }

  lemma StandAtCons(lines: seq<string>, j: nat, ps: seq<nat>, r: seq<string>)
    requires j < |lines| && Increasing(ps) && StandAt(lines, j + 1, ps, r)
    ensures Increasing([j] + ps) && StandAt(lines, j, [j] + ps, [Chop(lines[j])] + r)
  {
    hide Chop;
    var ps', r' := [j] + ps, [Chop(lines[j])] + r;
    forall i | 0 <= i < |ps'|
      ensures j <= ps'[i] < |lines| && r'[i] == Chop(lines[ps'[i]])
    {
      if i > 0 {
        assert ps'[i] == ps[i - 1] && r'[i] == r[i - 1];
      }
    }
  }

  lemma StayingCons(lines: seq<string>, j: nat, ps: seq<nat>, want: seq<Setting>)
    requires AreStaying(lines, j + 1, ps, want)
    ensures Stays(lines, j, want) ==> AreStaying(lines, j, [j] + ps, want)
    ensures !Stays(lines, j, want) ==> AreStaying(lines, j, ps, want)
  {
    hide Stays;
  }

  lemma KeepStep(lines: seq<string>, j: nat, want: seq<Setting>)
    requires j < |lines|
    ensures Keep(lines[j..], want) ==
            if Stays(lines, j, want) then [Chop(lines[j])] + Keep(lines[j + 1..], want) else Keep(lines[j + 1..], want)
  {
    hide Managed, Chop;
    assert lines[j..][0] == lines[j] && lines[j..][1..] == lines[j + 1..];
  }

  lemma {:induction false} KeepFrom(lines: seq<string>, j: nat, want: seq<Setting>) returns (ps: seq<nat>)
    requires j <= |lines|
    ensures Increasing(ps) && StandAt(lines, j, ps, Keep(lines[j..], want)) && AreStaying(lines, j, ps, want)
    decreases |lines| - j
  {
    if j == |lines| {
      ps := [];
    } else {
      hide Keep, Stays, Increasing, StandAt, AreStaying;
      var rest := KeepFrom(lines, j + 1, want);
      KeepStep(lines, j, want);
      StayingCons(lines, j, rest, want);
      if Stays(lines, j, want) {
        ps := [j] + rest;
        StandAtCons(lines, j, rest, Keep(lines[j + 1..], want));
      } else {
        ps := rest;
        StandAtLower(lines, j, rest, Keep(lines[j + 1..], want));
      }
    }
  }

  lemma StandAtLower(lines: seq<string>, j: nat, ps: seq<nat>, r: seq<string>)
    requires StandAt(lines, j + 1, ps, r)
    ensures StandAt(lines, j, ps, r)
  {
    hide Chop;
  }

  /** By position: the lines kept are exactly those that set no wanted key, in order, less one trailing CR each. */
  lemma KeptByPosition(lines: seq<string>, want: seq<Setting>) returns (ps: seq<nat>)
    ensures Increasing(ps) && |ps| == |Keep(lines, want)|
    ensures forall i :: 0 <= i < |ps| ==> ps[i] < |lines| && Keep(lines, want)[i] == Chop(lines[ps[i]])
    ensures forall k: nat :: k in ps <==>
              k < |lines| && !exists j :: 0 <= j < |want| && SetsKey(Chop(lines[k]), want[j].key)
  {
    hide Keep, Chop, Managed, SetsKey;
    ps := KeepFrom(lines, 0, want);
    assert lines[0..] == lines;
    forall k: nat | k < |lines|
      ensures Managed(Chop(lines[k]), want) <==> exists j :: 0 <= j < |want| && SetsKey(Chop(lines[k]), want[j].key)
    {
      ManagedIff(Chop(lines[k]), want);
    }
  }

  /** Behind them stands a line "key:value" for every wanted value, in order. */
  lemma {:induction false} WantedAt(want: seq<Setting>, i: nat) returns (k: nat)
    requires i < |want| && want[i].value.Some?
    ensures k < |Wanted(want)| && Wanted(want)[k] == want[i].key + ":" + want[i].value.value
    decreases |want|
  {
    if i == 0 {
      k := 0;
    } else {
      var at := WantedAt(want[1..], i - 1);
      k := if want[0].value.Some? then at + 1 else at;
    }
  }

  // ----- one line per wanted value -----

  /** How many lines set a key. */
  function Count(lines: seq<string>, key: string): nat
    decreases |lines|
  {
    if lines == [] then 0 else (if SetsKey(lines[0], key) then 1 else 0) + Count(lines[1..], key)
  }

  lemma {:induction false} CountAppend(a: seq<string>, b: seq<string>, key: string)
    ensures Count(a + b, key) == Count(a, key) + Count(b, key)
    decreases |a|
  {
    hide SetsKey;
    if a == [] {
      assert a + b == b;
    } else {
      assert (a + b)[1..] == a[1..] + b;
      CountAppend(a[1..], b, key);
    }
  }

  lemma {:induction false} ManagedBy(line: string, want: seq<Setting>, i: nat)
    requires i < |want| && SetsKey(line, want[i].key)
    ensures Managed(line, want)
    decreases |want|
  {
    if i > 0 {
      ManagedBy(line, want[1..], i - 1);
    }
  }

  lemma {:induction false} KeptSetNothing(lines: seq<string>, want: seq<Setting>, i: nat)
    requires i < |want|
    ensures Count(Keep(lines, want), want[i].key) == 0
    decreases |lines|
  {
    hide SetsKey, Managed;
    if lines != [] {
      KeptSetNothing(lines[1..], want, i);
      var line := Chop(lines[0]);
      if SetsKey(line, want[i].key) {
        ManagedBy(line, want, i);
      }
      var k := Keep(lines[1..], want);
      assert ([line] + k)[1..] == k;
    }
  }

  /** The line of setting j sets the key. */
  predicate Hits(want: seq<Setting>, j: nat, key: string) {
    j < |want| && want[j].value.Some? && SetsKey(Line(want[j]), key)
  }

  lemma CountFirst(want: seq<Setting>, key: string)
    requires want != []
    ensures Count(Wanted(want), key) == (if Hits(want, 0, key) then 1 else 0) + Count(Wanted(want[1..]), key)
    ensures forall j: nat :: Hits(want[1..], j, key) <==> Hits(want, j + 1, key)
  {
    hide SetsKey, Line;
    var rest := Wanted(want[1..]);
    if want[0].value.Some? {
      assert ([Line(want[0])] + rest)[1..] == rest;
    } else {
      assert [] + rest == rest;
    }
  }

  lemma {:induction false} NoneHit(want: seq<Setting>, key: string)
    ensures Count(Wanted(want), key) == 0 <==> forall j: nat :: !Hits(want, j, key)
    decreases |want|
  {
    hide Count, Wanted;
    if want == [] {
      NothingCounted(key);
    } else {
      CountFirst(want, key);
      NoneHit(want[1..], key);
      if forall j: nat :: !Hits(want[1..], j, key) {
        forall j: nat | j > 0 ensures !Hits(want, j, key) {
          assert !Hits(want[1..], j - 1, key);
        }
      } else {
        var j: nat :| Hits(want[1..], j, key);
        assert Hits(want, j + 1, key);
      }
    }
  }

  lemma NothingCounted(key: string)
    ensures Count(Wanted([]), key) == 0
  {
  }

  lemma {:induction false} OnlyHit(want: seq<Setting>, key: string, i: nat)
    requires Hits(want, i, key)
    ensures Count(Wanted(want), key) >= 1
    ensures Count(Wanted(want), key) == 1 <==> forall j: nat :: j != i ==> !Hits(want, j, key)
    decreases |want|
  {
    hide Count, Wanted, SetsKey;
    CountFirst(want, key);
    if i == 0 {
      NoneHit(want[1..], key);
      if forall j: nat :: !Hits(want[1..], j, key) {
        forall j: nat | j != 0 ensures !Hits(want, j, key) {
          assert !Hits(want[1..], j - 1, key);
        }
      } else {
        var j: nat :| Hits(want[1..], j, key);
        assert Hits(want, j + 1, key);
      }
    } else {
      OnlyHit(want[1..], key, i - 1);
      if forall j: nat :: j != i - 1 ==> !Hits(want[1..], j, key) {
        forall j: nat | j != i && j != 0 ensures !Hits(want, j, key) {
          assert !Hits(want[1..], j - 1, key);
        }
      } else {
        var j: nat :| j != i - 1 && Hits(want[1..], j, key);
        assert Hits(want, j + 1, key);
      }
    }
  }

  /** The key can be set, if it is to be, and no other wanted line sets it. */
  ghost predicate Alone(want: seq<Setting>, i: nat)
    requires i < |want|
  {
    (want[i].value.Some? ==> GoodStart(want[i].key)) && forall j: nat :: j != i ==> !Hits(want, j, want[i].key)
  }

  /**
   After a rewrite exactly one line sets a key with a wanted value, and none a removed one, if and only if the key is
   alone among the wanted settings.
   */
  lemma OneLinePerValue(t: string, want: seq<Setting>, i: nat)
    requires AllWritable(want) && i < |want|
    ensures Count(RawLines(Rewritten(t, want)), want[i].key) == (if want[i].value.Some? then 1 else 0) <==> Alone(want, i)
  {
    hide Count, RawLines, Keep, Wanted, AllWritable, Rewritten, SetsKey, GoodStart;
    var key := want[i].key;
    RewrittenLines(t, want);
    CountAppend(Keep(RawLines(t), want), Wanted(want), key);
    KeptSetNothing(RawLines(t), want, i);
    NoneHit(want, key);
    if want[i].value.Some? {
      OwnLine(key, want[i].value.value);
      assert Hits(want, i, key) <==> GoodStart(key);
      if Hits(want, i, key) {
        OnlyHit(want, key, i);
      } else {
        NeverSet(want, key);
      }
    } else {
      assert !Hits(want, i, key);
    }
  }

  lemma NeverSet(want: seq<Setting>, key: string)
    requires !GoodStart(key)
    ensures forall j: nat :: !Hits(want, j, key)
  {
    hide SetsKey, GoodStart, Line;
    forall j: nat ensures !Hits(want, j, key) {
      if Hits(want, j, key) {
        SetHasGoodStart(Line(want[j]), key);
      }
    }
  }

  /** Plain keys that differ by more than case are alone, whatever the values are. */
  lemma PlainKeysAreAlone(want: seq<Setting>, i: nat)
    requires i < |want| && forall j :: 0 <= j < |want| ==> PlainKey(want[j].key)
    requires forall j :: 0 <= j < |want| && j != i ==> !EqFold(want[j].key, want[i].key)
    ensures Alone(want, i)
  {
    hide SetsKey, EqFold;
    forall j: nat | j != i ensures !Hits(want, j, want[i].key) {
      if j < |want| && want[j].value.Some? {
        WrittenSets(want[j].key, want[j].value.value, want[i].key);
      }
    }
  }

  // ----- rewriting again -----

  lemma {:induction false} KeepAppend(a: seq<string>, b: seq<string>, want: seq<Setting>)
    ensures Keep(a + b, want) == Keep(a, want) + Keep(b, want)
    decreases |a|
  {
    hide Managed, Chop;
    if a == [] {
      assert a + b == b;
    } else {
      assert (a + b)[1..] == a[1..] + b;
      KeepAppend(a[1..], b, want);
    }
  }

  predicate AnyCr(lines: seq<string>)
    decreases |lines|
  {
    lines != [] && (EndsWith(lines[0], '\r') || AnyCr(lines[1..]))
  }

  /** An unmanaged line of the text ends in two carriage returns. */
  predicate DoubleCr(lines: seq<string>, want: seq<Setting>)
    decreases |lines|
  {
    lines != [] && ((EndsWith(lines[0], '\r') && EndsWith(Chop(lines[0]), '\r') && !Managed(Chop(lines[0]), want)) || DoubleCr(lines[1..], want))
  }

  lemma {:induction false} DoubleCrIsKept(lines: seq<string>, want: seq<Setting>)
    ensures AnyCr(Keep(lines, want)) <==> DoubleCr(lines, want)
    decreases |lines|
  {
    hide Managed;
    if lines != [] {
      DoubleCrIsKept(lines[1..], want);
      var k := Keep(lines[1..], want);
      assert ([Chop(lines[0])] + k)[1..] == k;
    }
  }

  predicate AllUnmanaged(lines: seq<string>, want: seq<Setting>)
    decreases |lines|
  {
    lines == [] || (!Managed(lines[0], want) && AllUnmanaged(lines[1..], want))
  }

  lemma {:induction false} KeptUnmanaged(lines: seq<string>, want: seq<Setting>)
    ensures AllUnmanaged(Keep(lines, want), want)
    decreases |lines|
  {
    hide Managed, Chop;
    if lines != [] {
      KeptUnmanaged(lines[1..], want);
      var k := Keep(lines[1..], want);
      assert ([Chop(lines[0])] + k)[1..] == k;
    }
  }

  /** Chopping a line does not make it managed. */
  lemma ChopUnmanaged(line: string, want: seq<Setting>)
    requires !Managed(line, want)
    ensures !Managed(Chop(line), want)
  {
    hide Managed;
    var short := Chop(line);
    assert short + line[|short|..] == line;
    if Managed(short, want) {
      ManagedLonger(short, line[|short|..], want);
    }
  }

  /** Unmanaged lines are all kept, each as it was exactly when none ends in a carriage return. */
  lemma {:induction false} KeepAgain(lines: seq<string>, want: seq<Setting>)
    requires AllUnmanaged(lines, want)
    ensures |Keep(lines, want)| == |lines| && (Keep(lines, want) == lines <==> !AnyCr(lines))
    decreases |lines|
  {
    hide Managed;
    if lines != [] {
      KeepAgain(lines[1..], want);
      ChopUnmanaged(lines[0], want);
      var k := Keep(lines[1..], want);
      var all := [Chop(lines[0])] + k;
      assert all[0] == Chop(lines[0]) && all[1..] == k && lines == [lines[0]] + lines[1..];
    }
  }

  /** Every line the rewriter adds is one it will recognise: depends on the settings only. */
  predicate Recognised(want: seq<Setting>) {
    Keep(Wanted(want), want) == []
  }

  /** It is so for all keys with a good start. */
  lemma {:induction false} GoodStartRecognised(part: seq<Setting>, want: seq<Setting>, from: nat)
    requires from <= |want| && part == want[from..]
    requires forall j :: 0 <= j < |want| && want[j].value.Some? ==> GoodStart(want[j].key)
    ensures Keep(Wanted(part), want) == []
    decreases |part|
  {
    hide Managed, SetsKey, GoodStart, Chop, Line;
    if part != [] {
      assert part[1..] == want[from + 1..] && part[0] == want[from];
      GoodStartRecognised(part[1..], want, from + 1);
      var rest := Wanted(part[1..]);
      if part[0].value.Some? {
        var line := Line(part[0]);
        ChopWritten(part[0]);
        OwnLine(part[0].key, Chop(part[0].value.value));
        ManagedBy(Chop(line), want, from);
        assert ([line] + rest)[1..] == rest;
      } else {
        assert [] + rest == rest;
      }
    }
  }

  lemma ChopWritten(s: Setting)
    requires s.value.Some?
    ensures Chop(Line(s)) == s.key + ":" + Chop(s.value.value)
  {
    var value := s.value.value;
    if value != "" {
      assert Line(s)[..|s.key| + |value|] == s.key + ":" + value[..|value| - 1];
    }
  }

  /**
   Rewriting twice is rewriting once if and only if no unmanaged line ends in two carriage returns and the rewriter
   recognises the lines it adds.
   */
  lemma RewriteIdempotent(t: string, want: seq<Setting>)
    requires AllWritable(want) && want != []
    ensures Rewritten(Rewritten(t, want), want) == Rewritten(t, want) <==> !DoubleCr(RawLines(t), want) && Recognised(want)
  {
    hide RawLines, Keep, Wanted, AnyCr, DoubleCr, AllWritable, Unlines, AllNoBreak, AllUnmanaged;
    var kept, added := Keep(RawLines(t), want), Wanted(want);
    var once := Rewritten(t, want);
    RewrittenLines(t, want);
    KeepAppend(kept, added, want);
    DoubleCrIsKept(RawLines(t), want);
    KeptUnmanaged(RawLines(t), want);
    KeepAgain(kept, want);
    var again, extra := Keep(kept, want), Keep(added, want);
    assert OutLines(once, want) == again + extra + added;
    RewrittenLines(once, want);
    assert extra == [] ==> again + extra == again;
    if Rewritten(once, want) == once {
      SameLists(again, extra, kept, added);
    }
  }

  lemma SameLists(again: seq<string>, extra: seq<string>, kept: seq<string>, added: seq<string>)
    requires again + extra + added == kept + added && |again| == |kept|
    ensures again == kept && extra == []
  {
    assert |extra| == 0;
    assert (again + extra + added)[..|kept|] == again && (kept + added)[..|kept|] == kept;
  }
}
