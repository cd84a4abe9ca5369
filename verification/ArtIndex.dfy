/**
 The art directory index as an interleaving of atomic steps (src/artindex.c): one owner thread that
 asks, scans the slots, sweeps and searches; any number of threads running artIndexInvalidate; and a
 device on which files come and go. Only `valid` and `dir` of a slot are shared between threads.
 */
module ArtIndex {
  import opened Text
  import opened ArtNames

  const SLOTS := 3
  const MAX_ENTRIES := 4096

  datatype Slot = Slot(dir: string, valid: bool, hashes: seq<nat>, pics: Option<seq<Pic>>)

  /**
   History of a slot: the directory it was last named for, when, whether its listing was published, and the names
   that listing was made from.
   */
  datatype Birth = Birth(dir: string, at: nat, complete: bool, read: set<string>)

  /** One call of artIndexInvalidate: when it bumped gen, how many of its six stores are done, when it ended. */
  datatype Inval = Inval(start: nat, cell: nat, doneAt: nat)

  datatype Ask = Ask(picture: bool, dir: string, base: string, startedAt: nat, sampledAt: nat, gen: nat)

  datatype Answer = Absent | Look | Picture(path: string)

  /** Where the owner thread stands. due and read are history: the names still to come, and those listed so far. */
  datatype Owner =
    | Idle
    | Begun(ask: Ask)
    | Scan(ask: Ask, k: nat)
    | Claimed(ask: Ask, i: nat)
    | Named(ask: Ask, i: nat)
    | Sweep(ask: Ask, i: nat, hashes: seq<nat>, pics: Option<seq<Pic>>, due: set<string>, read: set<string>)
    | Ended(ask: Ask, i: nat, hashes: seq<nat>, pics: Option<seq<Pic>>, read: set<string>)
    | Held(ask: Ask, i: nat)
    | Search(ask: Ask, i: nat)
    | Checked(ask: Ask, i: nat, best: Option<string>)
    | Done(ask: Ask, answer: Answer)

  /** files maps (directory, name) to the time the file appeared; now counts steps. */
  datatype State = State(
    now: nat,
    slots: seq<Slot>,
    next: nat,
    gen: nat,
    owner: Owner,
    invals: seq<Inval>,
    files: map<(string, string), nat>,
    births: seq<Birth>)

  datatype Action =
    | Create(dir: string, name: string)
    | Delete(dir: string, name: string)
    | Bump
    | Clear(j: nat)
    | Start(picture: bool, path: string)
    | Sample
    | ScanSlot
    | NameDir
    | OpenDir(ok: bool, keepNames: bool)
    | ReadDir(name: string, keepName: bool)
    | EndOfDir
    | ReadError
    | Publish(hashes: seq<nat>, pics: Option<seq<Pic>>)
    | ReadValid
    | SearchSlot(best: Option<string>)
    | Recheck(outSize: nat)
    | Return

  ghost predicate Init(s: State) {
    && s.now == 1 && s.next == 0 && s.gen == 0 && s.owner == Idle && s.invals == [] && s.files == map[]
    && s.slots == seq(SLOTS, _ => Slot("", false, [], None))
    && s.births == seq(SLOTS, _ => Birth("", 0, false, {}))
  }

  /** Entries the sweep does not skip. */
  predicate Listed(name: string) {
    name != "" && name[0] != '.'
  }

  /** Names a directory holds now. */
  function NamesIn(files: map<(string, string), nat>, dir: string): set<string> {
    set k | k in files && k.0 == dir :: k.1
  }

  function WithPic(pics: Option<seq<Pic>>, name: string, keepName: bool): Option<seq<Pic>> {
    if pics.None? || PictureExt(name) <= 0 then pics
    else if !keepName then None
    else Some(pics.value + [Pic(Hash(name[..PictureExt(name)]), name)])
  }

  ghost predicate Tick(s: State, s': State, owner: Owner) {
    s' == s.(now := s.now + 1, owner := owner)
  }

  /** Steps of other threads and of the device. */
  ghost predicate WorldStep(s: State, a: Action, s': State)
    requires |s.slots| == SLOTS
  {
    match a
    case Create(dir, name) =>
      && (dir, name) !in s.files
      && s' == s.(now := s.now + 1, files := s.files[(dir, name) := s.now])
    case Delete(dir, name) =>
      && (dir, name) in s.files
      && s' == s.(now := s.now + 1, files := s.files - {(dir, name)},
                  owner := if s.owner.Sweep? && s.owner.ask.dir == dir
                           then s.owner.(due := s.owner.due - {name}) else s.owner)
    case Bump =>
      s' == s.(now := s.now + 1, gen := s.gen + 1, invals := s.invals + [Inval(s.now, 0, 0)])
    case Clear(j) =>
      && j < |s.invals| && s.invals[j].cell < 2 * SLOTS
      && var v := s.invals[j];
         var i := v.cell / 2;
         s' == s.(now := s.now + 1,
                  invals := s.invals[j := Inval(v.start, v.cell + 1, s.now)],
                  slots := s.slots[i := if v.cell % 2 == 0 then s.slots[i].(valid := false)
                                        else s.slots[i].(dir := "")])
    case _ => false
  }

  /** Steps of the owner up to the end of the sweep. */
  ghost predicate BuildStep(s: State, a: Action, s': State)
    requires |s.slots| == SLOTS && |s.births| == SLOTS && s.next < SLOTS
  {
    match a
    case Start(picture, path) =>
      && s.owner.Idle? && Indexable(path)
      && var (dir, base) := Split(path).value;
         Tick(s, s', Begun(Ask(picture, dir, base, s.now, 0, 0)))
    case Sample =>
      && s.owner.Begun?
      && Tick(s, s', Scan(s.owner.ask.(gen := s.gen, sampledAt := s.now), 0))
    case ScanSlot =>
      && s.owner.Scan?
      && var ask, k := s.owner.ask, s.owner.k;
         if k < SLOTS then
           Tick(s, s', if s.slots[k].dir == ask.dir then Held(ask, k) else Scan(ask, k + 1))
         else
           var i := s.next;
           s' == s.(now := s.now + 1, owner := Claimed(ask, i), next := (i + 1) % SLOTS,
                    slots := s.slots[i := Slot(s.slots[i].dir, false, [], None)],
                    births := s.births[i := s.births[i].(complete := false)])
    case NameDir =>
      && s.owner.Claimed? && s.owner.i < SLOTS
      && var i, dir := s.owner.i, s.owner.ask.dir;
         s' == s.(now := s.now + 1, owner := Named(s.owner.ask, i),
                  slots := s.slots[i := s.slots[i].(dir := dir)],
                  births := s.births[i := Birth(dir, s.now, false, {})])
    case OpenDir(ok, keepNames) =>
      && s.owner.Named?
      && var ask, i := s.owner.ask, s.owner.i;
         Tick(s, s', if ok then Sweep(ask, i, [], if keepNames then Some([]) else None, NamesIn(s.files, ask.dir), {})
                     else Held(ask, i))
    case ReadDir(name, keepName) =>
      && s.owner.Sweep?
      && var o, due := s.owner, s.owner.due - {name};
         Tick(s, s', if !Listed(name) then o.(due := due)
                     else if |o.hashes| >= MAX_ENTRIES then Held(o.ask, o.i)
                     else Sweep(o.ask, o.i, o.hashes + [Hash(name)], WithPic(o.pics, name, keepName), due, o.read + {name}))
    case EndOfDir =>
      // POSIX: a name present throughout the sweep is returned before readdir reports the end.
      && s.owner.Sweep? && s.owner.due == {}
      && Tick(s, s', Ended(s.owner.ask, s.owner.i, s.owner.hashes, s.owner.pics, s.owner.read))
    case ReadError =>
      && s.owner.Sweep?
      && Tick(s, s', Held(s.owner.ask, s.owner.i))
    case _ => false
  }

  /** qsort on the two buffers. */
  ghost predicate SortedFrom(hashes: seq<nat>, pics: Option<seq<Pic>>, hs: seq<nat>, ps: Option<seq<Pic>>) {
    && Sorted(hs) && multiset(hs) == multiset(hashes)
    && (pics.None? <==> ps.None?)
    && (ps.Some? ==> PicsSorted(ps.value) && multiset(ps.value) == multiset(pics.value))
  }

  /** Steps of the owner from publishing to the answer. */
  ghost predicate AnswerStep(s: State, a: Action, s': State)
    requires |s.slots| == SLOTS && |s.births| == SLOTS
  {
    match a
    case Publish(hashes, pics) =>
      && s.owner.Ended? && s.owner.i < SLOTS && SortedFrom(s.owner.hashes, s.owner.pics, hashes, pics)
      && var i := s.owner.i;
         s' == s.(now := s.now + 1, owner := Held(s.owner.ask, i),
                  slots := s.slots[i := Slot(s.slots[i].dir, true, hashes, pics)],
                  births := s.births[i := s.births[i].(complete := true, read := s.owner.read)])
    case ReadValid =>
      && s.owner.Held? && s.owner.i < SLOTS
      && var ask, slot := s.owner.ask, s.slots[s.owner.i];
         Tick(s, s', if !slot.valid || (ask.picture && slot.pics.None?) then Done(ask, Look) else Search(ask, s.owner.i))
    case SearchSlot(best) =>
      && s.owner.Search? && s.owner.i < SLOTS
      && var ask, slot := s.owner.ask, s.slots[s.owner.i];
         if ask.picture then
           slot.pics.Some? && PictureResult(slot.pics.value, ask.base, best) && Tick(s, s', Checked(ask, s.owner.i, best))
         else
           Tick(s, s', if Hash(ask.base) in slot.hashes then Done(ask, Look) else Checked(ask, s.owner.i, None))
    case Recheck(outSize) =>
      && s.owner.Checked?
      && var ask, best := s.owner.ask, s.owner.best;
         Tick(s, s', Done(ask, if s.gen != ask.gen then Look
                               else if best.None? then Absent
                               else if |OutPath(ask.dir, best.value)| >= outSize then Look
                               else Picture(OutPath(ask.dir, best.value))))
    case Return =>
      s.owner.Done? && Tick(s, s', Idle)
    case _ => false
  }

  ghost predicate Step(s: State, a: Action, s': State) {
    && |s.slots| == SLOTS && |s.births| == SLOTS && s.next < SLOTS
    && (WorldStep(s, a, s') || BuildStep(s, a, s') || AnswerStep(s, a, s'))
  }

  // ----- what the index guarantees -----

  /** The file name the query is about. */
  predicate Matches(ask: Ask, name: string) {
    if ask.picture then IsPicture(name, ask.base) else EqFold(name, ask.base)
  }

  /** Invalidation v ended before the query began. */
  predicate EndedBefore(v: Inval, ask: Ask) {
    v.cell == 2 * SLOTS && v.doneAt < ask.startedAt
  }

  /** A file in dir since before `at`, and not skipped by the sweep. */
  predicate Old(files: map<(string, string), nat>, k: (string, string), dir: string, at: nat) {
    k in files && k.0 == dir && files[k] < at && Listed(k.1)
  }

  predicate HasPic(pics: seq<Pic>, name: string) {
    PictureExt(name) > 0 ==> exists p :: p in pics && p.name == name
  }

  /** Every old file of the directory has been read or is still to come. */
  ghost predicate Covers(files: map<(string, string), nat>, dir: string, at: nat, read: set<string>, due: set<string>) {
    forall k :: Old(files, k, dir, at) ==> k.1 in due || k.1 in read
  }

  /** The hashes held are those of the names read, no more and no less. */
  ghost predicate ListsHashes(read: set<string>, hashes: seq<nat>) {
    && (forall x :: x in read ==> Hash(x) in hashes)
    && (forall h :: h in hashes ==> exists x :: x in read && Hash(x) == h)
  }

  /** The pictures held are those among the names read. */
  ghost predicate ListsPics(read: set<string>, pics: seq<Pic>) {
    && (forall x :: x in read ==> HasPic(pics, x))
    && (forall p :: p in pics ==> PicOk(p) && p.name in read)
  }

  ghost predicate Lists(read: set<string>, hashes: seq<nat>, pics: Option<seq<Pic>>) {
    ListsHashes(read, hashes) && (pics.Some? ==> ListsPics(read, pics.value))
  }

  /** Slot i was named for the asked directory after every invalidation that ended before the query began. */
  ghost predicate Fresh(s: State, ask: Ask, i: nat)
    requires |s.births| == SLOTS
  {
    && i < SLOTS && s.births[i].dir == ask.dir
    && forall j :: 0 <= j < |s.invals| && EndedBefore(s.invals[j], ask) ==> s.invals[j].start < s.births[i].at
  }

  ghost predicate Shape(s: State) {
    && |s.slots| == SLOTS && |s.births| == SLOTS && s.next < SLOTS && s.gen == |s.invals|
    && (forall j :: 0 <= j < |s.invals| ==> s.invals[j].start < s.now && s.invals[j].cell <= 2 * SLOTS && s.invals[j].doneAt < s.now)
    && (forall k :: k in s.files ==> s.files[k] < s.now)
    && (forall i :: 0 <= i < SLOTS ==> s.births[i].at < s.now)
  }

  ghost predicate SlotInv(s: State, i: nat)
    requires Shape(s) && i < SLOTS
  {
    var slot, born := s.slots[i], s.births[i];
    && (slot.dir != "" ==>
          && born.dir == slot.dir
          && forall j :: 0 <= j < |s.invals| && s.invals[j].cell >= 2 * i + 2 ==> s.invals[j].start < born.at)
    && (slot.valid ==> born.complete)
    && (born.complete ==>
          && Sorted(slot.hashes) && Covers(s.files, born.dir, born.at, born.read, {})
          && Lists(born.read, slot.hashes, slot.pics)
          && (slot.pics.Some? ==> PicsSorted(slot.pics.value)))
  }

  /** gen was sampled at sampledAt: exactly the invalidations started before that moment are counted in ask.gen. */
  ghost predicate Sampled(s: State, ask: Ask) {
    && ask.gen <= |s.invals| && ask.sampledAt < s.now
    && (forall j :: 0 <= j < ask.gen ==> s.invals[j].start < ask.sampledAt)
    && (forall j :: ask.gen <= j < |s.invals| ==> s.invals[j].start >= ask.sampledAt)
  }

  /** The search found what the names read say: a matching picture, a PNG if one of them is; or nothing, as nothing matches. */
  ghost predicate Found(ask: Ask, read: set<string>, best: Option<string>) {
    match best
    case None => Unlisted(ask, read)
    case Some(n) => ask.picture && BestOf(ask.base, read, n)
  }

  /** No name read can be the one asked for: no picture of it, or none that hashes like it. */
  predicate Unlisted(ask: Ask, read: set<string>) {
    if ask.picture then forall x :: x in read ==> !Matches(ask, x)
    else forall x :: x in read ==> Hash(x) != Hash(ask.base)
  }

  predicate BestOf(base: string, read: set<string>, n: string) {
    && n in read && IsPicture(n, base)
    && (IsPng(n, base) || forall x :: x in read && IsPicture(x, base) ==> !IsPng(x, base))
  }

  ghost predicate OwnerInv(s: State)
    requires Shape(s)
  {
    match s.owner
    case Idle => true
    case Begun(ask) => ask.dir != "" && ask.startedAt < s.now
    case Scan(ask, k) => ask.dir != "" && ask.startedAt < s.now && k <= SLOTS && Sampled(s, ask)
    case Claimed(ask, i) => i < SLOTS && ask.dir != "" && ask.startedAt < s.now && Sampled(s, ask) && !s.births[i].complete
    case Named(ask, i) => Fresh(s, ask, i) && ask.startedAt < s.now && Sampled(s, ask) && !s.births[i].complete
    case Sweep(ask, i, hashes, pics, due, read) =>
      && Fresh(s, ask, i) && ask.startedAt < s.now && Sampled(s, ask) && !s.births[i].complete
      && Covers(s.files, ask.dir, s.births[i].at, read, due) && Lists(read, hashes, pics)
    case Ended(ask, i, hashes, pics, read) =>
      && Fresh(s, ask, i) && ask.startedAt < s.now && Sampled(s, ask) && !s.births[i].complete
      && Covers(s.files, ask.dir, s.births[i].at, read, {}) && Lists(read, hashes, pics)
    case Held(ask, i) => Fresh(s, ask, i) && ask.startedAt < s.now && Sampled(s, ask)
    case Search(ask, i) => Fresh(s, ask, i) && ask.startedAt < s.now && Sampled(s, ask) && s.births[i].complete
    case Checked(ask, i, best) =>
      && Fresh(s, ask, i) && ask.startedAt < s.now && Sampled(s, ask) && s.births[i].complete
      && Found(ask, s.births[i].read, best)
    case Done(ask, answer) => true
  }

  ghost predicate Inv(s: State) {
    && Shape(s)
    && (forall i :: 0 <= i < SLOTS ==> SlotInv(s, i))
    && OwnerInv(s)
  }

  lemma InitInv(s: State)
    requires Init(s)
    ensures Inv(s)
  {
  }

  /** Fewer or newer files leave a listing complete. */
  lemma CoversKept(files: map<(string, string), nat>, files': map<(string, string), nat>, dir: string, at: nat,
                   read: set<string>, due: set<string>, due': set<string>)
    requires Covers(files, dir, at, read, due)
    requires forall k :: Old(files', k, dir, at) ==> Old(files, k, dir, at) && (k.1 in due ==> k.1 in due')
    ensures Covers(files', dir, at, read, due')
  {
  }

  /** A step that moves only the owner keeps everything but the owner's own claim. */
  lemma TickKeeps(s: State, s': State, owner: Owner)
    requires Inv(s) && Tick(s, s', owner)
    ensures Shape(s') && forall i :: 0 <= i < SLOTS ==> SlotInv(s', i)
  {
    forall i | 0 <= i < SLOTS
      ensures SlotInv(s', i)
    {
      assert SlotInv(s, i);
    }
  }

  /** Files come and go: slots keep covering what is old. */
  lemma FileStepKeepsSlots(s: State, a: Action, s': State)
    requires Inv(s) && (a.Create? || a.Delete?) && WorldStep(s, a, s')
    ensures Shape(s') && forall i :: 0 <= i < SLOTS ==> SlotInv(s', i)
  {
    forall i | 0 <= i < SLOTS
      ensures SlotInv(s', i)
    {
      assert SlotInv(s, i);
      if s.births[i].complete {
        CoversKept(s.files, s'.files, s.births[i].dir, s.births[i].at, s.births[i].read, {}, {});
      }
    }
  }

  lemma FileStepKeepsOwner(s: State, a: Action, s': State)
    requires Inv(s) && Shape(s') && (a.Create? || a.Delete?) && WorldStep(s, a, s')
    ensures OwnerInv(s')
  {
    hide SlotInv, Covers;
    var o := s.owner;
    if o.Sweep? {
      CoversKept(s.files, s'.files, o.ask.dir, s.births[o.i].at, o.read, o.due, s'.owner.due);
    } else if o.Ended? {
      CoversKept(s.files, s'.files, o.ask.dir, s.births[o.i].at, o.read, {}, {});
    }
  }

  lemma FileStepKeeps(s: State, a: Action, s': State)
    requires Inv(s) && (a.Create? || a.Delete?) && WorldStep(s, a, s')
    ensures Inv(s')
  {
    FileStepKeepsSlots(s, a, s');
    FileStepKeepsOwner(s, a, s');
  }

  /** s' has the invalidations of s, some advanced or added, none of them newly ended before the query. */
  ghost predicate InvalsMove(s: State, s': State) {
    && s'.births == s.births && s'.files == s.files && s'.owner == s.owner && s'.now == s.now + 1
    && |s.invals| <= |s'.invals|
    && (forall j :: 0 <= j < |s.invals| ==> s'.invals[j].start == s.invals[j].start)
    && (forall j :: 0 <= j < |s.invals| && s'.invals[j] != s.invals[j] ==> s'.invals[j].doneAt == s.now)
    && (forall j :: |s.invals| <= j < |s'.invals| ==> s'.invals[j].start == s.now && s'.invals[j].cell == 0)
  }

  lemma OwnerIgnoresInvals(s: State, s': State)
    requires Shape(s) && Shape(s') && OwnerInv(s) && InvalsMove(s, s')
    ensures OwnerInv(s')
  {
    if !s.owner.Idle? && !s.owner.Done? {
      var ask := s.owner.ask;
      assert ask.startedAt < s.now;
      assert forall j :: 0 <= j < |s'.invals| && EndedBefore(s'.invals[j], ask) ==> j < |s.invals| && s'.invals[j] == s.invals[j];
      assert Sampled(s, ask) ==> Sampled(s', ask);
      assert forall i :: Fresh(s, ask, i) ==> Fresh(s', ask, i);
    }
  }

  lemma BumpKeeps(s: State, s': State)
    requires Inv(s) && WorldStep(s, Bump, s')
    ensures Inv(s')
  {
    forall i | 0 <= i < SLOTS
      ensures SlotInv(s', i)
    {
      assert SlotInv(s, i);
    }
    OwnerIgnoresInvals(s, s');
  }

  lemma ClearKeeps(s: State, j: nat, s': State)
    requires Inv(s) && WorldStep(s, Clear(j), s')
    ensures Inv(s')
  {
    forall i | 0 <= i < SLOTS
      ensures SlotInv(s', i)
    {
      assert SlotInv(s, i);
      assert s'.slots[i].hashes == s.slots[i].hashes && s'.slots[i].pics == s.slots[i].pics;
    }
    OwnerIgnoresInvals(s, s');
  }

  lemma ReadDirKeeps(s: State, name: string, keepName: bool, s': State)
    requires Inv(s) && BuildStep(s, ReadDir(name, keepName), s')
    ensures Inv(s')
  {
    hide SlotInv, ListsHashes, ListsPics, WithPic, Listed;
    TickKeeps(s, s', s'.owner);
    var o := s.owner;
    if s'.owner.Sweep? && Listed(name) {
      HashesNext(o.read, o.hashes, name);
      if s'.owner.pics.Some? {
        WithPicSome(o.pics, name, keepName);
        PicsNext(o.read, o.pics.value, name, keepName);
      }
    }
    if s'.owner.Sweep? {
      CoversNext(s.files, o.ask.dir, s.births[o.i].at, o.read, o.due, name);
    }
  }

  lemma CoversNext(files: map<(string, string), nat>, dir: string, at: nat, read: set<string>, due: set<string>, name: string)
    requires Covers(files, dir, at, read, due)
    ensures Covers(files, dir, at, read + {name}, due - {name})
    ensures !Listed(name) ==> Covers(files, dir, at, read, due - {name})
  {
  }

  lemma WithPicSome(pics: Option<seq<Pic>>, name: string, keepName: bool)
    requires WithPic(pics, name, keepName).Some?
    ensures pics.Some?
  {
  }

  lemma HashesNext(read: set<string>, hashes: seq<nat>, name: string)
    requires ListsHashes(read, hashes)
    ensures ListsHashes(read + {name}, hashes + [Hash(name)])
  {
    hide Hash;
  }

  /** Reading one more entry keeps the pictures already held and adds the entry if it is one. */
  lemma PicsNext(read: set<string>, pics: seq<Pic>, name: string, keepName: bool)
    requires ListsPics(read, pics) && WithPic(Some(pics), name, keepName).Some?
    ensures ListsPics(read + {name}, WithPic(Some(pics), name, keepName).value)
  {
    hide Hash, PictureExt;
    var pics' := WithPic(Some(pics), name, keepName).value;
    assert forall p :: p in pics ==> p in pics';
    if PictureExt(name) > 0 {
      var p := Pic(Hash(name[..PictureExt(name)]), name);
      assert pics' == pics + [p] && p in pics';
    }
  }

  lemma OpenDirKeeps(s: State, a: Action, s': State)
    requires Inv(s) && a.OpenDir? && BuildStep(s, a, s')
    ensures Inv(s')
  {
    TickKeeps(s, s', s'.owner);
    if s'.owner.Sweep? {
      forall k | Old(s.files, k, s.owner.ask.dir, s.births[s.owner.i].at)
        ensures k.1 in s'.owner.due
      {
      }
    }
  }

  lemma ScanStepKeeps(s: State, s': State)
    requires Inv(s) && BuildStep(s, ScanSlot, s')
    ensures Inv(s')
  {
    hide Covers, Lists, Found;
    forall i | 0 <= i < SLOTS
      ensures SlotInv(s', i)
    {
      assert SlotInv(s, i);
    }
    if s'.owner.Held? {
      assert SlotInv(s, s.owner.k);
    }
  }

  lemma NameDirKeeps(s: State, s': State)
    requires Inv(s) && BuildStep(s, NameDir, s')
    ensures Inv(s')
  {
    forall i | 0 <= i < SLOTS
      ensures SlotInv(s', i)
    {
      assert SlotInv(s, i);
      assert i != s.owner.i ==> s'.slots[i] == s.slots[i] && s'.births[i] == s.births[i];
    }
  }

  lemma StartKeeps(s: State, a: Action, s': State)
    requires Inv(s) && a.Start? && BuildStep(s, a, s')
    ensures Inv(s')
  {
    TickKeeps(s, s', s'.owner);
    SplitRebuilds(a.path);
  }

  lemma MoveKeeps(s: State, a: Action, s': State)
    requires Inv(s) && (a.Sample? || a.EndOfDir? || a.ReadError?) && BuildStep(s, a, s')
    ensures Inv(s')
  {
    hide SlotInv, Covers;
    TickKeeps(s, s', s'.owner);
  }

  lemma BuildKinds(s: State, a: Action, s': State)
    requires Inv(s) && BuildStep(s, a, s')
    ensures a.ReadDir? || a.OpenDir? || a.Start? || a.ScanSlot? || a.NameDir? || a.Sample? || a.EndOfDir? || a.ReadError?
  {
  }

  lemma BuildKeeps(s: State, a: Action, s': State)
    requires Inv(s) && BuildStep(s, a, s')
    ensures Inv(s')
  {
    hide Inv, BuildStep;
    BuildKinds(s, a, s');
    if a.ReadDir? {
      ReadDirKeeps(s, a.name, a.keepName, s');
    } else if a.OpenDir? {
      OpenDirKeeps(s, a, s');
    } else if a.Start? {
      StartKeeps(s, a, s');
    } else if a.ScanSlot? {
      ScanStepKeeps(s, s');
    } else if a.NameDir? {
      NameDirKeeps(s, s');
    } else {
      MoveKeeps(s, a, s');
    }
  }

  /** Sorting the two buffers changes nothing they list. */
  lemma ListsSorted(read: set<string>, hashes: seq<nat>, pics: Option<seq<Pic>>, hs: seq<nat>, ps: Option<seq<Pic>>)
    requires Lists(read, hashes, pics) && SortedFrom(hashes, pics, hs, ps)
    ensures Lists(read, hs, ps)
  {
    hide Hash, PicOk, PictureExt;
    SameMembers(hashes, hs);
    if ps.Some? {
      SameMembers(pics.value, ps.value);
    }
  }

  lemma PublishKeeps(s: State, a: Action, s': State)
    requires Inv(s) && a.Publish? && AnswerStep(s, a, s')
    ensures Inv(s')
  {
    hide Lists;
    var o := s.owner;
    ListsSorted(o.read, o.hashes, o.pics, a.hashes, a.pics);
    forall i | 0 <= i < SLOTS
      ensures SlotInv(s', i)
    {
      assert SlotInv(s, i);
      assert i != o.i ==> s'.slots[i] == s.slots[i] && s'.births[i] == s.births[i];
    }
    assert Fresh(s', o.ask, o.i);
  }

  lemma SameMembers<T>(a: seq<T>, b: seq<T>)
    requires multiset(a) == multiset(b)
    ensures forall x :: x in a <==> x in b
  {
    assert forall x :: x in a <==> x in multiset(a);
  }

  /** The search answers for the names read. */
  lemma SearchFinds(read: set<string>, pics: seq<Pic>, ask: Ask, best: Option<string>)
    requires ask.picture && ListsPics(read, pics) && PictureResult(pics, ask.base, best)
    ensures Found(ask, read, best)
  {
    hide Hash, PictureExt, IsPictureOf, IsPng;
    forall x | x in read && IsPicture(x, ask.base)
      ensures exists p :: p in pics && p.name == x
    {
      assert HasPic(pics, x);
    }
  }

  lemma MissFinds(read: set<string>, hashes: seq<nat>, ask: Ask)
    requires !ask.picture && ListsHashes(read, hashes)
    ensures Hash(ask.base) !in hashes <==> Found(ask, read, None)
  {
    hide Hash;
  }

  lemma SearchKeeps(s: State, best: Option<string>, s': State)
    requires Inv(s) && AnswerStep(s, SearchSlot(best), s')
    ensures Inv(s')
  {
    hide ListsHashes, ListsPics, Found, Unlisted, Covers, PictureResult, Hash;
    TickKeeps(s, s', s'.owner);
    var ask, slot := s.owner.ask, s.slots[s.owner.i];
    assert SlotInv(s, s.owner.i);
    if ask.picture {
      SearchFinds(s.births[s.owner.i].read, slot.pics.value, ask, best);
    } else {
      MissFinds(s.births[s.owner.i].read, slot.hashes, ask);
    }
  }

  lemma ReadValidKeeps(s: State, s': State)
    requires Inv(s) && AnswerStep(s, ReadValid, s')
    ensures Inv(s')
  {
    TickKeeps(s, s', s'.owner);
    assert SlotInv(s, s.owner.i);
  }

  lemma FinishKeeps(s: State, a: Action, s': State)
    requires Inv(s) && (a.Recheck? || a.Return?) && AnswerStep(s, a, s')
    ensures Inv(s')
  {
    TickKeeps(s, s', s'.owner);
  }

  lemma AnswerKinds(s: State, a: Action, s': State)
    requires Inv(s) && AnswerStep(s, a, s')
    ensures a.Publish? || a.ReadValid? || a.SearchSlot? || a.Recheck? || a.Return?
  {
  }

  lemma AnswerKeeps(s: State, a: Action, s': State)
    requires Inv(s) && AnswerStep(s, a, s')
    ensures Inv(s')
  {
    hide Inv, AnswerStep;
    AnswerKinds(s, a, s');
    if a.Publish? {
      PublishKeeps(s, a, s');
    } else if a.SearchSlot? {
      SearchKeeps(s, a.best, s');
    } else if a.ReadValid? {
      ReadValidKeeps(s, s');
    } else {
      FinishKeeps(s, a, s');
    }
  }

  lemma WorldKinds(s: State, a: Action, s': State)
    requires Inv(s) && WorldStep(s, a, s')
    ensures a.Create? || a.Delete? || a.Bump? || a.Clear?
  {
  }

  lemma WorldKeeps(s: State, a: Action, s': State)
    requires Inv(s) && WorldStep(s, a, s')
    ensures Inv(s')
  {
    hide Inv, WorldStep;
    WorldKinds(s, a, s');
    if a.Bump? {
      BumpKeeps(s, s');
    } else if a.Clear? {
      ClearKeeps(s, a.j, s');
    } else {
      FileStepKeeps(s, a, s');
    }
  }

  /** Every step of every thread keeps the invariant. */
  lemma StepKeeps(s: State, a: Action, s': State)
    requires Inv(s) && Step(s, a, s')
    ensures Inv(s')
  {
    hide Inv, WorldStep, BuildStep, AnswerStep;
    if WorldStep(s, a, s') {
      WorldKeeps(s, a, s');
    } else if BuildStep(s, a, s') {
      BuildKeeps(s, a, s');
    } else {
      AnswerKeeps(s, a, s');
    }
  }

  // ----- whole runs -----

  ghost predicate Run(states: seq<State>, actions: seq<Action>) {
    && |states| == |actions| + 1 && Init(states[0])
    && forall n :: 0 <= n < |actions| ==> Step(states[n], actions[n], states[n + 1])
  }

  /** Every reachable state satisfies the invariant. */
  lemma RunInv(states: seq<State>, actions: seq<Action>, n: nat)
    requires Run(states, actions) && n < |states|
    ensures Inv(states[n])
  {
    InitInv(states[0]);
    for m := 0 to n
      invariant Inv(states[m])
    {
      StepKeeps(states[m], actions[m], states[m + 1]);
    }
  }

  /** Invalidation v had bumped gen before the query sampled it, but had not ended when the query began. */
  predicate InFlight(v: Inval, ask: Ask) {
    v.start < ask.sampledAt && !EndedBefore(v, ask)
  }

  /** One step that answers "absent" about a present, listed, matching file. */
  lemma AbsentStep(s: State, a: Action, s': State, ask: Ask, name: string, v: Inval)
    requires Inv(s) && Step(s, a, s') && !s.owner.Done? && s'.owner == Done(ask, Absent)
    requires (ask.dir, name) in s'.files && Listed(name) && Matches(ask, name)
    requires v in s'.invals && s'.files[(ask.dir, name)] < v.start
    ensures InFlight(v, ask)
  {
    OnlyRecheckSaysAbsent(s, a, s');
    hide WorldStep, BuildStep, AnswerStep, Lists, Hash;
    var i := s.owner.i;
    assert SlotInv(s, i);
    UnlistedMatchesNone(ask, s.births[i].read, name);
    assert !Old(s.files, (ask.dir, name), ask.dir, s.births[i].at);
  }

  lemma UnlistedMatchesNone(ask: Ask, read: set<string>, name: string)
    requires Unlisted(ask, read) && Matches(ask, name)
    ensures name !in read
  {
    hide Hash;
    if !ask.picture {
      HashFolds(name, ask.base);
    }
  }

  lemma OnlyRecheckSaysAbsent(s: State, a: Action, s': State)
    requires Inv(s) && Step(s, a, s') && !s.owner.Done? && s'.owner.Done? && s'.owner.answer == Absent
    ensures s.owner.Checked? && s.owner.ask == s'.owner.ask && s.owner.best.None? && s.gen == s.owner.ask.gen
    ensures s'.files == s.files && s'.invals == s.invals
  {
    assert !WorldStep(s, a, s') && !BuildStep(s, a, s');
    AnswerKinds(s, a, s');
  }

  /**
   The safety rule of the index, over every interleaving. When a step answers "absent" about a file that
   is on the device, every invalidation begun after that file appeared was in flight around the start of the
   query: none had ended before the query began, and none began after the generation was sampled.
   */
  lemma AbsentIsCertain(states: seq<State>, actions: seq<Action>, n: nat, ask: Ask, name: string)
    requires Run(states, actions) && n < |actions|
    requires !states[n].owner.Done? && states[n + 1].owner == Done(ask, Absent)
    requires (ask.dir, name) in states[n + 1].files && Listed(name) && Matches(ask, name)
    ensures forall v :: v in states[n + 1].invals && states[n + 1].files[(ask.dir, name)] < v.start ==> InFlight(v, ask)
  {
    RunInv(states, actions, n);
    forall v | v in states[n + 1].invals && states[n + 1].files[(ask.dir, name)] < v.start
      ensures InFlight(v, ask)
    {
      AbsentStep(states[n], actions[n], states[n + 1], ask, name, v);
    }
  }

  /**
   The promise callers rely on: a file older than some invalidation that ended before the query began, or
   that ran into the query after its sample, is never hidden.
   */
  lemma InvalidatedFileNeverHidden(states: seq<State>, actions: seq<Action>, n: nat, ask: Ask, name: string, v: Inval)
    requires Run(states, actions) && n < |actions|
    requires !states[n].owner.Done? && states[n + 1].owner.Done? && states[n + 1].owner.ask == ask
    requires (ask.dir, name) in states[n + 1].files && Listed(name) && Matches(ask, name)
    requires v in states[n + 1].invals && states[n + 1].files[(ask.dir, name)] < v.start && !InFlight(v, ask)
    ensures states[n + 1].owner.answer != Absent
  {
    if states[n + 1].owner.answer == Absent {
      AbsentIsCertain(states, actions, n, ask, name);
    }
  }

  // ----- what is answered -----

  /** The name a sweep of dir read in this step. */
  ghost predicate ReadsName(s: State, a: Action, dir: string, name: string) {
    a.ReadDir? && a.name == name && Listed(name) && s.owner.Sweep? && s.owner.ask.dir == dir
  }

  ghost predicate WasRead(states: seq<State>, actions: seq<Action>, n: nat, dir: string, name: string)
    requires n <= |actions| <= |states|
  {
    exists m :: 0 <= m < n && ReadsName(states[m], actions[m], dir, name)
  }

  /** The names being read by the owner. */
  function Reading(owner: Owner): set<string> {
    match owner
    case Sweep(_, _, _, _, _, read) => read
    case Ended(_, _, _, _, read) => read
    case _ => {}
  }

  /** The owner's history grows only by reading. */
  lemma OwnerReads(s: State, a: Action, s': State, x: string)
    requires Inv(s) && Step(s, a, s') && x in Reading(s'.owner)
    ensures (s.owner.Sweep? || s.owner.Ended?) && s'.owner.ask.dir == s.owner.ask.dir
    ensures x in Reading(s.owner) || ReadsName(s, a, s.owner.ask.dir, x)
  {
    hide SlotInv, OwnerInv;
    if WorldStep(s, a, s') {
      WorldKinds(s, a, s');
    } else if BuildStep(s, a, s') {
      BuildKinds(s, a, s');
    } else {
      AnswerKinds(s, a, s');
    }
  }

  /** A slot's history is what the owner published. */
  lemma SlotReads(s: State, a: Action, s': State, i: nat, x: string)
    requires Inv(s) && Step(s, a, s') && i < SLOTS && |s'.births| == SLOTS && x in s'.births[i].read
    ensures || (s'.births[i].dir == s.births[i].dir && x in s.births[i].read)
            || (s.owner.Ended? && s.owner.ask.dir == s'.births[i].dir && x in s.owner.read)
  {
    hide SlotInv, Lists, Covers, Sampled;
    if WorldStep(s, a, s') {
      WorldKinds(s, a, s');
    } else if BuildStep(s, a, s') {
      BuildKinds(s, a, s');
    } else {
      AnswerKinds(s, a, s');
    }
  }

  ghost predicate AllWereRead(states: seq<State>, actions: seq<Action>, n: nat)
    requires n <= |actions| < |states|
  {
    && (forall i, x :: 0 <= i < |states[n].births| && x in states[n].births[i].read ==>
          WasRead(states, actions, n, states[n].births[i].dir, x))
    && (forall x :: x in Reading(states[n].owner) ==> WasRead(states, actions, n, states[n].owner.ask.dir, x))
  }

  lemma AllWereReadStep(states: seq<State>, actions: seq<Action>, n: nat)
    requires Run(states, actions) && n < |actions| && Inv(states[n]) && Inv(states[n + 1]) && AllWereRead(states, actions, n)
    ensures AllWereRead(states, actions, n + 1)
  {
    hide SlotInv, OwnerInv, WorldStep, BuildStep, AnswerStep;
    var s, a, s' := states[n], actions[n], states[n + 1];
    assert Step(s, a, s');
    forall i, x | 0 <= i < |s'.births| && x in s'.births[i].read
      ensures WasRead(states, actions, n + 1, s'.births[i].dir, x)
    {
      SlotReads(s, a, s', i, x);
      if s.owner.Ended? && s.owner.ask.dir == s'.births[i].dir && x in s.owner.read {
        assert x in Reading(s.owner);
      }
      assert WasRead(states, actions, n, s'.births[i].dir, x);
    }
    forall x | x in Reading(s'.owner)
      ensures WasRead(states, actions, n + 1, s'.owner.ask.dir, x)
    {
      OwnerReads(s, a, s', x);
      if x in Reading(s.owner) {
        assert WasRead(states, actions, n, s.owner.ask.dir, x);
      }
    }
  }

  /** In every run each name in a history was read by a sweep of that directory. */
  lemma RunReads(states: seq<State>, actions: seq<Action>, n: nat)
    requires Run(states, actions) && n < |states|
    ensures AllWereRead(states, actions, n)
  {
    for m := 0 to n
      invariant AllWereRead(states, actions, m)
    {
      RunInv(states, actions, m);
      RunInv(states, actions, m + 1);
      AllWereReadStep(states, actions, m);
    }
  }

  /** The steps that answer. */
  lemma AnswerCases(s: State, a: Action, s': State)
    requires Inv(s) && Step(s, a, s') && !s.owner.Done? && s'.owner.Done?
    ensures AnswerStep(s, a, s') && (a.ReadValid? || a.SearchSlot? || a.Recheck?)
  {
    hide SlotInv, OwnerInv;
    if WorldStep(s, a, s') {
      WorldKinds(s, a, s');
    } else if BuildStep(s, a, s') {
      BuildKinds(s, a, s');
    } else {
      AnswerKinds(s, a, s');
    }
  }

  /** What one answering step says, by the point it was given at and the names the slot was made from. */
  ghost predicate Answered(s: State, ask: Ask, answer: Answer, outSize: nat)
    requires |s.slots| == SLOTS && |s.births| == SLOTS
  {
    match s.owner
    case Held(_, i) =>
      && answer == Look && i < SLOTS
      && (!s.slots[i].valid || (ask.picture && s.slots[i].pics.None?))
    case Search(_, i) =>
      && answer == Look && !ask.picture && i < SLOTS
      && (exists x :: x in s.births[i].read && Hash(x) == Hash(ask.base))
    case Checked(_, i, _) =>
      && i < SLOTS && s.births[i].dir == ask.dir
      && (answer == Absent <==> s.gen == ask.gen && Unlisted(ask, s.births[i].read))
      && (answer.Picture? ==>
            && ask.picture && s.gen == ask.gen && |answer.path| < outSize
            && exists n :: BestOf(ask.base, s.births[i].read, n) && answer.path == OutPath(ask.dir, n))
      && (answer == Look ==>
            || s.gen != ask.gen
            || exists n :: BestOf(ask.base, s.births[i].read, n) && |OutPath(ask.dir, n)| >= outSize)
    case _ => false
  }

  /** A best picture and no match exclude each other. */
  lemma BestIsListed(ask: Ask, read: set<string>, n: string)
    requires ask.picture && BestOf(ask.base, read, n)
    ensures !Unlisted(ask, read)
  {
    assert Matches(ask, n);
  }

  lemma AnswersStep(s: State, a: Action, s': State)
    requires Inv(s) && Step(s, a, s') && !s.owner.Done? && s'.owner.Done?
    ensures Answered(s, s'.owner.ask, s'.owner.answer, if a.Recheck? then a.outSize else 0)
  {
    AnswerCases(s, a, s');
    hide WorldStep, BuildStep, Hash, Unlisted, BestOf, ListsHashes, ListsPics, Covers, OutPath;
    if a.Recheck? {
      if s.owner.best.Some? {
        BestIsListed(s.owner.ask, s.births[s.owner.i].read, s.owner.best.value);
      }
    } else if a.SearchSlot? {
      assert SlotInv(s, s.owner.i);
      HitIsListed(s.births[s.owner.i].read, s.slots[s.owner.i].hashes, s.owner.ask.base);
    }
  }

  lemma HitIsListed(read: set<string>, hashes: seq<nat>, base: string)
    requires ListsHashes(read, hashes) && Hash(base) in hashes
    ensures exists x :: x in read && Hash(x) == Hash(base)
  {
  }

  /** Every answer of every run is the one the names read call for. */
  lemma RunAnswers(states: seq<State>, actions: seq<Action>, n: nat, ask: Ask, answer: Answer)
    requires Run(states, actions) && n < |actions|
    requires !states[n].owner.Done? && states[n + 1].owner == Done(ask, answer)
    ensures |states[n].slots| == SLOTS && |states[n].births| == SLOTS
    ensures Answered(states[n], ask, answer, if actions[n].Recheck? then actions[n].outSize else 0)
  {
    RunInv(states, actions, n);
    hide Answered;
    AnswersStep(states[n], actions[n], states[n + 1]);
  }

  /**
   A picture that is answered is one: over every interleaving, the path is the asked directory and the name, as
   a sweep of that directory read it, of a picture of the asked base; and it is a PNG if any picture of that base the
   listing was made from is one.
   */
  lemma PictureIsReal(states: seq<State>, actions: seq<Action>, n: nat, ask: Ask, path: string)
    requires Run(states, actions) && n < |actions|
    requires !states[n].owner.Done? && states[n + 1].owner == Done(ask, Picture(path))
    ensures states[n].owner.Checked? && states[n].owner.i < |states[n].births|
    ensures exists name ::
              && path == OutPath(ask.dir, name) && WasRead(states, actions, n, ask.dir, name)
              && BestOf(ask.base, states[n].births[states[n].owner.i].read, name)
  {
    RunAnswers(states, actions, n, ask, Picture(path));
    RunReads(states, actions, n);
    hide BestOf, Run, WasRead;
    var i := states[n].owner.i;
    var read := states[n].births[i].read;
    var name :| BestOf(ask.base, read, name) && path == OutPath(ask.dir, name);
    BestIsRead(ask.base, read, name);
    assert WasRead(states, actions, n, states[n].births[i].dir, name);
  }

  lemma BestIsRead(base: string, read: set<string>, n: string)
    requires BestOf(base, read, n)
    ensures n in read
  {
  }

  /**
   artIndexMayExist, both halves over every interleaving: it sends the caller to the device only when the slot is not
   valid, when some name that a sweep of the directory read hashes like the one asked for, or when the generation moved.
   Otherwise the answer is "absent".
   */
  lemma LookHasReason(states: seq<State>, actions: seq<Action>, n: nat, ask: Ask, answer: Answer)
    requires Run(states, actions) && n < |actions| && !ask.picture
    requires !states[n].owner.Done? && states[n + 1].owner == Done(ask, answer)
    ensures answer == Absent || answer == Look
    ensures answer == Look <==>
            || (states[n].owner.Held? && states[n].owner.i < |states[n].slots| && !states[n].slots[states[n].owner.i].valid)
            || (states[n].owner.Search? && exists x :: WasRead(states, actions, n, ask.dir, x) && Hash(x) == Hash(ask.base))
            || (states[n].owner.Checked? && states[n].gen != ask.gen)
  {
    RunAnswers(states, actions, n, ask, answer);
    RunReads(states, actions, n);
    RunInv(states, actions, n);
    var s := states[n];
    SearchDir(s, actions[n], states[n + 1]);
    hide Run, WasRead, Hash, BestOf, Unlisted, SlotInv, OwnerInv;
    if s.owner.Search? {
      var x :| x in s.births[s.owner.i].read && Hash(x) == Hash(ask.base);
      assert WasRead(states, actions, n, s.births[s.owner.i].dir, x);
    } else if s.owner.Checked? && s.gen == ask.gen && answer == Look {
      OnlyPicturesFound(s, actions[n], states[n + 1]);
    }
  }

  lemma SearchDir(s: State, a: Action, s': State)
    requires Inv(s) && Step(s, a, s') && !s.owner.Done? && s'.owner.Done?
    ensures !s.owner.Idle? && s.owner.ask == s'.owner.ask
    ensures s.owner.Search? ==> s.owner.i < SLOTS && s.births[s.owner.i].dir == s.owner.ask.dir
  {
    AnswerCases(s, a, s');
    hide WorldStep, BuildStep, SlotInv;
  }

  lemma OnlyPicturesFound(s: State, a: Action, s': State)
    requires Inv(s) && Step(s, a, s') && !s.owner.Done? && s'.owner.Done? && s.owner.Checked? && !s.owner.ask.picture
    ensures s.gen == s.owner.ask.gen ==> s'.owner.answer == Absent
  {
    AnswerCases(s, a, s');
    hide WorldStep, BuildStep, SlotInv;
  }
}
