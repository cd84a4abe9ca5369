/**
 Concrete runs of the index: a picture found, and the two ways in which "absent" is answered about a file that
 exists (src/artindex.c).
 */
module ArtIndexLimits {
  import opened Text
  import opened ArtNames
  import opened ArtIndex

  const DIR := "m:"

  function Start0(): State {
    State(1, seq(SLOTS, _ => Slot("", false, [], None)), 0, 0, Idle, [], map[], seq(SLOTS, _ => Birth("", 0, false, {})))
  }

  function Last(run: seq<State>): State
    requires run != []
  {
    run[|run| - 1]
  }

  /** One more step at the end of a run. */
  lemma Extend(states: seq<State>, actions: seq<Action>, a: Action, s: State)
    returns (states': seq<State>, actions': seq<Action>)
    requires Run(states, actions) && Step(Last(states), a, s)
    ensures states' == states + [s] && actions' == actions + [a] && Run(states', actions')
  {
    states', actions' := states + [s], actions + [a];
  }

  /** The owner's own moves, which change nothing but its program point. */
  lemma Move(states: seq<State>, actions: seq<Action>, a: Action, owner: Owner)
    returns (states': seq<State>, actions': seq<Action>)
    requires Run(states, actions)
    requires Step(Last(states), a, Last(states).(now := Last(states).now + 1, owner := owner))
    ensures Run(states', actions') && |states'| == |states| + 1 && states' == states + [Last(states')]
    ensures Last(states') == Last(states).(now := Last(states).now + 1, owner := owner)
  {
    states', actions' := Extend(states, actions, a, Last(states).(now := Last(states).now + 1, owner := owner));
  }

  lemma SplitOf(base: string)
    requires base == "a" || base == ".a"
    ensures Indexable("m:/" + base) && Split("m:/" + base) == Some((DIR, base))
  {
    var path := "m:/" + base;
    assert path[2] == '/' && LastIndexOf(path, '/') >= 2;
    assert forall k :: 2 < k < |path| ==> path[k] != '/';
    assert path[..2] == DIR && path[3..] == base;
  }

  ghost predicate Untouched(s: State) {
    && |s.slots| == SLOTS && |s.births| == SLOTS && s.next == 0 && s.gen == 0 && s.invals == []
    && forall i :: 0 <= i < SLOTS ==> s.slots[i].dir == ""
  }

  lemma StartStep(s: State, picture: bool, base: string)
    requires |s.slots| == SLOTS && |s.births| == SLOTS && s.next < SLOTS && s.owner.Idle? && (base == "a" || base == ".a")
    ensures BuildStep(s, Start(picture, "m:/" + base), s.(now := s.now + 1, owner := Begun(Ask(picture, DIR, base, s.now, 0, 0))))
  {
    SplitOf(base);
    hide Split, Indexable;
  }

  lemma SampleStep(s: State, ask: Ask)
    requires |s.slots| == SLOTS && |s.births| == SLOTS && s.next < SLOTS && s.owner == Begun(ask)
    ensures BuildStep(s, Sample, s.(now := s.now + 1, owner := Scan(ask.(gen := s.gen, sampledAt := s.now), 0)))
  {
  }

  /** A query begins and samples gen. */
  lemma BeginAsk(states: seq<State>, actions: seq<Action>, picture: bool, base: string)
    returns (states': seq<State>, actions': seq<Action>, ask: Ask)
    requires Run(states, actions) && Last(states).owner.Idle?
    requires var s := Last(states); |s.slots| == SLOTS && |s.births| == SLOTS && s.next < SLOTS
    requires base == "a" || base == ".a"
    ensures Run(states', actions')
    ensures ask == Ask(picture, DIR, base, Last(states).now, Last(states).now + 1, Last(states).gen)
    ensures var s := Last(states); Last(states') == s.(now := s.now + 2, owner := Scan(ask, 0))
  {
    hide WorldStep, AnswerStep, BuildStep;
    var s := Last(states);
    ask := Ask(picture, DIR, base, s.now, 0, 0);
    StartStep(s, picture, base);
    states', actions' := Move(states, actions, Start(picture, "m:/" + base), Begun(ask));
    SampleStep(Last(states'), ask);
    ask := ask.(sampledAt := s.now + 1, gen := s.gen);
    states', actions' := Move(states', actions', Sample, Scan(ask, 0));
  }

  /** From an untouched index a first query scans three unnamed slots. */
  lemma FirstScan(states: seq<State>, actions: seq<Action>, ask: Ask)
    returns (states': seq<State>, actions': seq<Action>)
    requires Run(states, actions) && Untouched(Last(states)) && Last(states).owner == Scan(ask, 0) && ask.dir == DIR
    ensures Run(states', actions')
    ensures var s := Last(states); Last(states') == s.(now := s.now + 3, owner := Scan(ask, 3))
  {
    states', actions' := Move(states, actions, ScanSlot, Scan(ask, 1));
    states', actions' := Move(states', actions', ScanSlot, Scan(ask, 2));
    states', actions' := Move(states', actions', ScanSlot, Scan(ask, 3));
  }

  /** ... then claims and names slot 0 and opens the directory. */
  lemma FirstQuery(states: seq<State>, actions: seq<Action>, picture: bool, base: string)
    returns (states': seq<State>, actions': seq<Action>, ask: Ask)
    requires Run(states, actions) && Untouched(Last(states)) && Last(states).owner.Idle?
    requires base == "a" || base == ".a"
    ensures Run(states', actions') && ask.dir == DIR && ask.base == base && ask.picture == picture && ask.gen == 0
    ensures var s := Last(states');
            && s.owner == Sweep(ask, 0, [], if picture then Some([]) else None, NamesIn(s.files, DIR), {})
            && s.files == Last(states).files && s.invals == [] && s.gen == 0
            && |s.slots| == SLOTS && |s.births| == SLOTS && s.next < SLOTS && s.slots[0].dir == DIR
  {
    hide Run, WorldStep, AnswerStep;
    states', actions', ask := BeginAsk(states, actions, picture, base);
    states', actions' := FirstScan(states', actions', ask);
    states', actions' := ClaimFirst(states', actions', ask);
    var pics := if picture then Some([]) else None;
    states', actions' := Move(states', actions', OpenDir(true, picture), Sweep(ask, 0, [], pics, NamesIn(Last(states').files, DIR), {}));
  }

  lemma ClaimFirst(states: seq<State>, actions: seq<Action>, ask: Ask)
    returns (states': seq<State>, actions': seq<Action>)
    requires Run(states, actions) && ask.dir == DIR
    requires var s := Last(states);
             s.owner == Scan(ask, SLOTS) && s.next == 0 && |s.slots| == SLOTS && |s.births| == SLOTS
    ensures Run(states', actions') && states' != []
    ensures var s, s' := Last(states), Last(states');
            && s'.owner == Named(ask, 0) && s'.files == s.files && s'.invals == s.invals && s'.gen == s.gen
            && |s'.slots| == SLOTS && |s'.births| == SLOTS && s'.next < SLOTS && s'.slots[0].dir == DIR
  {
    hide WorldStep, AnswerStep;
    states', actions' := states, actions;
    var s := Last(states');
    var s1 := s.(now := s.now + 1, owner := Claimed(ask, 0), next := 1,
                 slots := s.slots[0 := Slot(s.slots[0].dir, false, [], None)],
                 births := s.births[0 := s.births[0].(complete := false)]);
    states', actions' := Extend(states', actions', ScanSlot, s1);
    var s2 := s1.(now := s1.now + 1, owner := Named(ask, 0),
                  slots := s1.slots[0 := s1.slots[0].(dir := DIR)],
                  births := s1.births[0 := Birth(DIR, s1.now, false, {})]);
    states', actions' := Extend(states', actions', NameDir, s2);
  }

  /** A sweep that collected nothing is published and the query answers "absent". */
  lemma PublishEmpty(states: seq<State>, actions: seq<Action>, ask: Ask)
    returns (states': seq<State>, actions': seq<Action>)
    requires Run(states, actions) && !ask.picture
    requires var s := Last(states); s.owner == Sweep(ask, 0, [], None, {}, {}) && s.gen == ask.gen && |s.slots| == SLOTS && |s.births| == SLOTS && s.next < SLOTS
    ensures Run(states', actions') && |states'| >= 2 && !states'[|states'| - 2].owner.Done?
    ensures var s, s' := Last(states), Last(states');
            && s'.owner == Done(ask, Absent) && s'.files == s.files && s'.invals == s.invals && s'.gen == s.gen
            && |s'.slots| == SLOTS && |s'.births| == SLOTS && s'.next < SLOTS
            && s'.slots[0] == Slot(s.slots[0].dir, true, [], None)
  {
    states', actions' := Move(states, actions, EndOfDir, Ended(ask, 0, [], None, {}));
    var s := Last(states');
    s := s.(now := s.now + 1, owner := Held(ask, 0),
            slots := s.slots[0 := Slot(s.slots[0].dir, true, [], None)],
            births := s.births[0 := s.births[0].(complete := true, read := {})]);
    states', actions' := Extend(states', actions', Publish([], None), s);
    states', actions' := Conclude(states', actions', ask);
  }

  /** Holding a valid slot with an empty listing, the search misses and the answer is "absent". */
  lemma Conclude(states: seq<State>, actions: seq<Action>, ask: Ask)
    returns (states': seq<State>, actions': seq<Action>)
    requires Run(states, actions) && !ask.picture
    requires var s := Last(states);
             && s.owner == Held(ask, 0) && s.gen == ask.gen && |s.slots| == SLOTS && |s.births| == SLOTS && s.next < SLOTS
             && s.slots[0].valid && s.slots[0].hashes == []
    ensures Run(states', actions') && |states'| >= 2 && !states'[|states'| - 2].owner.Done?
    ensures var s := Last(states); Last(states') == s.(now := s.now + 3, owner := Done(ask, Absent))
  {
    hide Run, WorldStep, BuildStep;
    states', actions' := Move(states, actions, ReadValid, Search(ask, 0));
    states', actions' := Move(states', actions', SearchSlot(None), Checked(ask, 0, None));
    states', actions' := Move(states', actions', Recheck(1), Done(ask, Absent));
  }

  /** A run hides name when its last step answers "absent" about it while the file is on the device. */
  ghost predicate Hides(states: seq<State>, actions: seq<Action>, name: string) {
    && Run(states, actions) && |states| >= 2 && !states[|states| - 2].owner.Done?
    && var s := Last(states);
       && s.owner.Done? && s.owner.answer == Absent
       && Matches(s.owner.ask, name) && (s.owner.ask.dir, name) in s.files
  }

  /**
   The in-flight exception is real: an invalidation that has bumped gen but not yet cleared the slot lets a
   query that starts now answer from the old listing, hiding a file older than that invalidation.
   */
  lemma StaleAbsentInFlight() returns (states: seq<State>, actions: seq<Action>)
    ensures Hides(states, actions, "a") && Listed("a")
    ensures var s := Last(states);
            |s.invals| == 1 && s.owner.ask.dir == DIR && s.files[(DIR, "a")] < s.invals[0].start && InFlight(s.invals[0], s.owner.ask)
  {
    states, actions := [Start0()], [];
    var ask;
    states, actions, ask := FirstQuery(states, actions, false, "a");
    states, actions := PublishEmpty(states, actions, ask);
    states, actions := FileThenBump(states, actions);
    states, actions, ask := BeginAsk(states, actions, false, "a");
    states, actions := Move(states, actions, ScanSlot, Held(ask, 0));
    states, actions := Conclude(states, actions, ask);
  }

  /** The query returns, the file appears, and an invalidation bumps gen. */
  lemma FileThenBump(states: seq<State>, actions: seq<Action>)
    returns (states': seq<State>, actions': seq<Action>)
    requires Run(states, actions) && Last(states).owner.Done? && (DIR, "a") !in Last(states).files
    requires var s := Last(states); |s.slots| == SLOTS && |s.births| == SLOTS && s.next < SLOTS
    ensures Run(states', actions')
    ensures var s := Last(states);
            Last(states') == s.(now := s.now + 3, owner := Idle, gen := s.gen + 1,
                                files := s.files[(DIR, "a") := s.now + 1],
                                invals := s.invals + [Inval(s.now + 2, 0, 0)])
  {
    states', actions' := Move(states, actions, Return, Idle);
    var s := Last(states');
    s := s.(now := s.now + 1, files := s.files[(DIR, "a") := s.now]);
    states', actions' := Extend(states', actions', Create(DIR, "a"), s);
    s := s.(now := s.now + 1, gen := s.gen + 1, invals := s.invals + [Inval(s.now, 0, 0)]);
    states', actions' := Extend(states', actions', Bump, s);
  }

  /** Names starting with '.' are skipped by the sweep, so a query about one is answered "absent" although it exists. */
  lemma DotNamesAreHidden() returns (states: seq<State>, actions: seq<Action>)
    ensures Hides(states, actions, ".a") && !Listed(".a")
    ensures Last(states).invals == []
  {
    var s := Start0();
    states, actions := [s], [];
    s := s.(now := s.now + 1, files := s.files[(DIR, ".a") := s.now]);
    states, actions := Extend(states, actions, Create(DIR, ".a"), s);
    var ask;
    states, actions, ask := FirstQuery(states, actions, false, ".a");
    var names := NamesIn(Last(states).files, DIR);
    states, actions := Move(states, actions, ReadDir(".a", false), Sweep(ask, 0, [], None, names - {".a"}, {}));
    assert names - {".a"} == {};
    states, actions := PublishEmpty(states, actions, ask);
  }

  lemma PngOfA()
    ensures PictureExt("a.png") == 1 && IsPicture("a.png", "a") && IsPng("a.png", "a") && "a.png"[..1] == "a"
  {
    var name := "a.png";
    assert name[1] == '.' && LastIndexOf(name, '.') >= 1 && forall k :: 1 < k < |name| ==> name[k] != '.';
    assert name[1..] == ".png" && name[..1] == "a";
  }

  /** The file "a.png" alone in the directory is found for the stem "m:/a", and answered under its own name. */
  lemma PictureIsFound() returns (states: seq<State>, actions: seq<Action>)
    ensures Run(states, actions)
    ensures var s := Last(states); s.owner.Done? && s.owner.ask.base == "a" && s.owner.answer == Picture("m:a.png")
  {
    PngOfA();
    var s := Start0();
    states, actions := [s], [];
    s := s.(now := s.now + 1, files := s.files[(DIR, "a.png") := s.now]);
    states, actions := Extend(states, actions, Create(DIR, "a.png"), s);
    var ask;
    states, actions, ask := FirstQuery(states, actions, true, "a");
    states, actions := SweepOne(states, actions, ask, "a.png");
    states, actions := AnswerOne(states, actions, ask, "a.png");
    assert DIR + "" + "a.png" == "m:a.png";
  }

  /** The sweep reads the one name there is, and its listing is published. */
  lemma SweepOne(states: seq<State>, actions: seq<Action>, ask: Ask, name: string)
    returns (states': seq<State>, actions': seq<Action>)
    requires Run(states, actions) && Listed(name) && PictureExt(name) > 0
    requires var s := Last(states);
             && s.owner == Sweep(ask, 0, [], Some([]), NamesIn(s.files, DIR), {}) && NamesIn(s.files, DIR) <= {name}
             && |s.slots| == SLOTS && |s.births| == SLOTS && s.next < SLOTS
    ensures Run(states', actions')
    ensures var s, s' := Last(states), Last(states');
            && s'.owner == Held(ask, 0) && s'.gen == s.gen && s'.next < SLOTS
            && |s'.slots| == SLOTS && |s'.births| == SLOTS && s'.slots[0].valid
            && s'.slots[0].pics == Some([Pic(Hash(name[..PictureExt(name)]), name)])
  {
    hide Hash, PictureExt, WorldStep, AnswerStep, Run;
    var h, p := Hash(name), Pic(Hash(name[..PictureExt(name)]), name);
    states', actions' := ReadOne(states, actions, ask, name);
    states', actions' := Move(states', actions', EndOfDir, Ended(ask, 0, [h], Some([p]), {name}));
    states', actions' := PublishOne(states', actions', ask, h, p, name);
  }

  lemma ReadOne(states: seq<State>, actions: seq<Action>, ask: Ask, name: string)
    returns (states': seq<State>, actions': seq<Action>)
    requires Run(states, actions) && Listed(name) && PictureExt(name) > 0
    requires var s := Last(states);
             && s.owner == Sweep(ask, 0, [], Some([]), NamesIn(s.files, DIR), {}) && NamesIn(s.files, DIR) <= {name}
             && |s.slots| == SLOTS && |s.births| == SLOTS && s.next < SLOTS
    ensures Run(states', actions')
    ensures var s := Last(states);
            Last(states') == s.(now := s.now + 1,
                                owner := Sweep(ask, 0, [Hash(name)], Some([Pic(Hash(name[..PictureExt(name)]), name)]), {}, {name}))
  {
    assert states != [];
    hide Hash, PictureExt, WorldStep, AnswerStep, Run;
    var h, p := Hash(name), Pic(Hash(name[..PictureExt(name)]), name);
    assert [] + [h] == [h] && [] + [p] == [p] && {} + {name} == {name} && NamesIn(Last(states).files, DIR) - {name} == {};
    states', actions' := Move(states, actions, ReadDir(name, true), Sweep(ask, 0, [h], Some([p]), {}, {name}));
  }

  lemma PublishOne(states: seq<State>, actions: seq<Action>, ask: Ask, h: nat, p: Pic, name: string)
    returns (states': seq<State>, actions': seq<Action>)
    requires Run(states, actions)
    requires var s := Last(states);
             s.owner == Ended(ask, 0, [h], Some([p]), {name}) && |s.slots| == SLOTS && |s.births| == SLOTS && s.next < SLOTS
    ensures Run(states', actions')
    ensures var s, s' := Last(states), Last(states');
            && s'.owner == Held(ask, 0) && s'.gen == s.gen && s'.next < SLOTS
            && |s'.slots| == SLOTS && |s'.births| == SLOTS && s'.slots[0].valid && s'.slots[0].pics == Some([p])
  {
    var s := Last(states);
    hide WorldStep, BuildStep, Run;
    s := s.(now := s.now + 1, owner := Held(ask, 0),
            slots := s.slots[0 := Slot(s.slots[0].dir, true, [h], Some([p]))],
            births := s.births[0 := s.births[0].(complete := true, read := {name})]);
    states', actions' := Extend(states, actions, Publish([h], Some([p])), s);
  }

  /** Holding a valid slot with that one picture, the search finds it. */
  lemma AnswerOne(states: seq<State>, actions: seq<Action>, ask: Ask, name: string)
    returns (states': seq<State>, actions': seq<Action>)
    requires Run(states, actions) && ask.picture && IsPicture(name, ask.base) && IsPng(name, ask.base)
    requires var s := Last(states);
             && s.owner == Held(ask, 0) && s.gen == ask.gen && |s.slots| == SLOTS && |s.births| == SLOTS && s.next < SLOTS
             && s.slots[0].valid && s.slots[0].pics == Some([Pic(Hash(name[..PictureExt(name)]), name)])
    ensures Run(states', actions') && Last(states').owner == Done(ask, Picture(OutPath(ask.dir, name)))
  {
    hide Run, WorldStep, BuildStep, Hash, PictureExt, IsPictureOf, IsPng;
    var p := Pic(Hash(name[..PictureExt(name)]), name);
    assert p in [p] && PictureResult([p], ask.base, Some(name));
    states', actions' := Move(states, actions, ReadValid, Search(ask, 0));
    states', actions' := Move(states', actions', SearchSlot(Some(name)), Checked(ask, 0, Some(name)));
    var path := OutPath(ask.dir, name);
    states', actions' := Move(states', actions', Recheck(|path| + 1), Done(ask, Picture(path)));
  }
}
