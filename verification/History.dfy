/** The launch history of the console's browser: update, eviction and insertion (src/OSDHistory.c). */
module History {
  import opened Text

  const ENTRIES: nat := 21
  const NAME_MAX: nat := 15
  const INT_MAX: nat := 0x7FFF_FFFF

  /** A record; bits are the positions set in its bitmask. Records without a name are blank. */
  datatype Record = Record(name: string, count: nat, bits: set<nat>, shift: nat, stamp: nat)

  /** The fields have their widths. */
  predicate RecordOk(r: Record) {
    |r.name| <= NAME_MAX && r.count < 0x100 && r.shift < 0x100 && r.stamp < 0x1_0000
  }

  ghost predicate HistoryOk(h: seq<Record>) {
    |h| == ENTRIES && forall i :: 0 <= i < |h| ==> RecordOk(h[i])
  }

  const LOW6: set<nat> := {0, 1, 2, 3, 4, 5}

  /** A record's launch count reached another threshold: 14, 24, 34, ... */
  predicate Threshold(n: nat) {
    n >= 14 && (n - 14) % 10 == 0
  }

  function NextCount(n: nat): nat {
    if n + 1 >= 0x80 then 0x7F else n + 1
  }

  /** A launch of a record that is already there; bit is the random bit, used where one is drawn. */
  function Launched(r: Record, stamp: nat, bit: nat): Record {
    if !(LOW6 <= r.bits) then
      var n := NextCount(r.count);
      if Threshold(n) then Record(r.name, n, r.bits + {bit}, bit, stamp) else Record(r.name, n, r.bits, r.shift, stamp)
    else if r.count < 0x3F then Record(r.name, r.count + 1, r.bits, r.shift, stamp)
    else Record(r.name, 0x3F, r.bits, 7, stamp)
  }

  function Fresh(name: string, stamp: nat): Record {
    Record(if |name| <= NAME_MAX then name else name[..NAME_MAX], 1, {0}, 0, stamp)
  }

  /** A bit the drawing loop can end with: it exists whenever the loop is entered. */
  lemma FreeBit(bits: set<nat>) returns (bit: nat)
    requires !(LOW6 <= bits)
    ensures bit < 6 && bit !in bits
  {
    bit :| bit in LOW6 && bit !in bits;
  }

  predicate Draws(r: Record) {
    !(LOW6 <= r.bits) && Threshold(NextCount(r.count))
  }

  ghost predicate LaunchOf(r: Record, r': Record, stamp: nat) {
    exists bit: nat :: (Draws(r) ==> bit < 6 && bit !in r.bits) && r' == Launched(r, stamp, bit)
  }

  // ----- the victim -----

  datatype Least = Least(at: nat, count: nat, stamp: nat)

  /** One more record for the running minimum. */
  function Next(l: Least, at: nat, r: Record): Least {
    var m := if r.count < l.count then Least(at, r.count, l.stamp) else l;
    if m.count == r.count && r.stamp < m.stamp then Least(at, m.count, r.stamp) else m
  }

  /** The running minimum of the scan over the first i records. */
  function Scan(h: seq<Record>, i: nat): Least
    requires i <= |h|
    decreases i
  {
    if i == 0 then Least(0, INT_MAX, INT_MAX) else Next(Scan(h, i - 1), i - 1, h[i - 1])
  }

  /** The record the scan ends with has the smallest launch count. */
  lemma {:induction false} ScanIsMinimal(h: seq<Record>, i: nat)
    requires HistoryOk(h) && 0 < i <= |h|
    ensures var l := Scan(h, i);
            && l.at < i && h[l.at].count == l.count && forall k :: 0 <= k < i ==> l.count <= h[k].count
    decreases i
  {
    hide Scan;
    assert RecordOk(h[i - 1]);
    ScanNext(h, i - 1);
    if i > 1 {
      ScanIsMinimal(h, i - 1);
    } else {
      ScanStart(h);
    }
  }

  function Victim(h: seq<Record>): nat
    requires |h| == ENTRIES
  {
    Scan(h, |h|).at
  }

  lemma VictimIsLeastUsed(h: seq<Record>)
    requires HistoryOk(h)
    ensures Victim(h) < |h| && forall k :: 0 <= k < |h| ==> h[Victim(h)].count <= h[k].count
  {
    ScanIsMinimal(h, |h|);
  }

  /** Record f is the first with the smallest launch count. */
  ghost predicate FirstLeast(h: seq<Record>, f: nat) {
    && f < |h| && (forall k :: 0 <= k < |h| ==> h[f].count <= h[k].count)
    && forall k :: 0 <= k < f ==> h[f].count < h[k].count
  }

  /** No record before j has a smaller launch count. */
  ghost predicate RunningLeast(h: seq<Record>, j: nat) {
    j < |h| && forall i :: 0 <= i < j ==> h[j].count <= h[i].count
  }

  /** The date is before those of all records before i that were no more used than all before them. */
  ghost predicate BeforeRunning(h: seq<Record>, i: nat, stamp: nat) {
    forall j: nat :: j < i && RunningLeast(h, j) ==> stamp < h[j].stamp
  }

  /** Record k has the smallest launch count, and is older than every record before f that was least used so far. */
  ghost predicate Earlier(h: seq<Record>, f: nat, k: nat) {
    f <= k < |h| && h[k].count == h[f].count && BeforeRunning(h, f, h[k].stamp)
  }

  lemma BeforeStep(h: seq<Record>, i: nat, stamp: nat)
    requires i < |h|
    ensures BeforeRunning(h, 0, stamp)
    ensures BeforeRunning(h, i + 1, stamp) <==> BeforeRunning(h, i, stamp) && (RunningLeast(h, i) ==> stamp < h[i].stamp)
  {
    hide RunningLeast;
  }

  /** The date the scan carries is the oldest among the records that were least used when it met them. */
  lemma {:induction false} CarriedStamp(h: seq<Record>, i: nat, stamp: nat)
    requires HistoryOk(h) && i <= |h| && stamp < INT_MAX
    ensures stamp < Scan(h, i).stamp <==> BeforeRunning(h, i, stamp)
    decreases i
  {
    hide Scan, BeforeRunning, RunningLeast;
    if i == 0 {
      ScanStart(h);
      BeforeStep(h, 0, stamp);
    } else {
      CarriedStamp(h, i - 1, stamp);
      ScanNext(h, i - 1);
      RunningIsScan(h, i - 1);
      BeforeStep(h, i - 1, stamp);
    }
  }

  lemma RunningIsScan(h: seq<Record>, i: nat)
    requires HistoryOk(h) && i < |h|
    ensures RunningLeast(h, i) <==> h[i].count <= Scan(h, i).count
  {
    hide Scan;
    if i == 0 {
      ScanStart(h);
      assert RecordOk(h[0]);
    } else {
      ScanIsMinimal(h, i);
    }
  }

  /** Between f and i, from the first least-used record on, the scan stands at l. */
  ghost predicate After(h: seq<Record>, f: nat, i: nat, l: Least)
    requires f < i <= |h|
  {
    var t := Scan(h, f).stamp;
    && l.count == h[f].count && f <= l.at < i && h[l.at].count == h[f].count && l.stamp <= t
    && (if l.stamp == t then l.at == f else h[l.at].stamp == l.stamp)
    && forall k :: f <= k < i && h[k].count == h[f].count ==> l.stamp <= h[k].stamp
  }

  lemma AfterStart(h: seq<Record>, f: nat)
    requires HistoryOk(h) && FirstLeast(h, f)
    ensures After(h, f, f + 1, Next(Scan(h, f), f, h[f]))
  {
    hide Scan;
    assert h[f].count < Scan(h, f).count by {
      if f > 0 {
        ScanIsMinimal(h, f);
      } else {
        ScanStart(h);
        assert RecordOk(h[f]);
      }
    }
  }

  lemma ScanStart(h: seq<Record>)
    ensures Scan(h, 0) == Least(0, INT_MAX, INT_MAX)
  {
  }

  lemma ScanNext(h: seq<Record>, i: nat)
    requires i < |h|
    ensures Scan(h, i + 1) == Next(Scan(h, i), i, h[i])
  {
  }

  lemma AfterStep(h: seq<Record>, f: nat, i: nat, l: Least)
    requires HistoryOk(h) && FirstLeast(h, f) && f < i < |h| && After(h, f, i, l)
    ensures After(h, f, i + 1, Next(l, i, h[i]))
  {
    hide Scan;
  }

  /** From the first least-used record on, dates are compared with what the scan carried over from before it. */
  lemma {:induction false} ScanAfter(h: seq<Record>, f: nat, i: nat)
    requires HistoryOk(h) && FirstLeast(h, f) && f < i <= |h|
    ensures After(h, f, i, Scan(h, i))
    decreases i
  {
    hide After, FirstLeast, HistoryOk, Next;
    if i == f + 1 {
      AfterStart(h, f);
    } else {
      ScanAfter(h, f, i - 1);
      AfterStep(h, f, i - 1, Scan(h, i - 1));
    }
  }

  /** Among the least used, record v is one of the oldest. */
  ghost predicate Oldest(h: seq<Record>, v: nat) {
    v < |h| && forall k :: 0 <= k < |h| && h[k].count == h[v].count ==> h[v].stamp <= h[k].stamp
  }

  /**
   The date is only a tie-break against what the scan saw before: the victim is the oldest of the least used exactly
   when the first of them is, or when one of them is older than every record that was least used when the scan met it.
   */
  lemma VictimOldestIff(h: seq<Record>, f: nat)
    requires HistoryOk(h) && FirstLeast(h, f)
    ensures Oldest(h, Victim(h)) <==> Oldest(h, f) || exists k :: Earlier(h, f, k)
  {
    hide Scan, Earlier;
    ScanAfter(h, f, |h|);
    var l, t := Scan(h, |h|), Scan(h, f).stamp;
    forall k: nat | f <= k < |h| && h[k].count == h[f].count ensures Earlier(h, f, k) <==> h[k].stamp < t {
      EarlierIsCarried(h, f, k);
    }
    if l.stamp != t {
      assert Earlier(h, f, l.at);
      forall k | 0 <= k < |h| && h[k].count == h[l.at].count ensures h[l.at].stamp <= h[k].stamp {
        assert k >= f;
      }
    } else {
      assert l.at == f;
      forall k: nat ensures !Earlier(h, f, k) {
        EarlierOnly(h, f, k);
      }
    }
  }

  lemma EarlierIsCarried(h: seq<Record>, f: nat, k: nat)
    requires HistoryOk(h) && f <= k < |h| && h[k].count == h[f].count
    ensures Earlier(h, f, k) <==> h[k].stamp < Scan(h, f).stamp
  {
    assert RecordOk(h[k]);
    CarriedStamp(h, f, h[k].stamp);
  }

  lemma EarlierOnly(h: seq<Record>, f: nat, k: nat)
    ensures Earlier(h, f, k) ==> f <= k < |h| && h[k].count == h[f].count
  {
  }

  // ----- one launch -----

  ghost predicate Known(h: seq<Record>, name: string) {
    exists i :: 0 <= i < |h| && h[i].name == name
  }

  /** Every record has reached the last stage; then nothing new is added. */
  ghost predicate Settled(h: seq<Record>) {
    forall i :: 0 <= i < |h| ==> h[i].name != "" && h[i].shift == 7
  }

  ghost predicate AnyBlank(h: seq<Record>) {
    exists i :: 0 <= i < |h| && h[i].name == ""
  }

  /** Records of that name were launched once more; no other record changed. */
  ghost predicate Relaunched(h: seq<Record>, h': seq<Record>, name: string, stamp: nat) {
    |h'| == |h| && forall i :: 0 <= i < |h| ==> if h[i].name == name then LaunchOf(h[i], h'[i], stamp) else h'[i] == h[i]
  }

  /** AddHistoryRecord: all that one launch may do, over the random choices. */
  ghost predicate Step(h: seq<Record>, h': seq<Record>, name: string, stamp: nat) {
    if Known(h, name) then Relaunched(h, h', name, stamp)
    else if Settled(h) then h' == h
    else exists slot: nat :: PlacedIn(h, slot) && h' == h[slot := Fresh(name, stamp)]
  }

  /** Where a new record may go: any blank slot, or the victim's when there is none. */
  ghost predicate PlacedIn(h: seq<Record>, slot: nat) {
    slot < |h| == ENTRIES && if AnyBlank(h) then h[slot].name == "" else slot == Victim(h)
  }

  // ----- what every run keeps -----

  ghost predicate Distinct(h: seq<Record>) {
    forall i, j :: 0 <= i < j < |h| && h[i].name != "" ==> h[i].name != h[j].name
  }

  lemma LaunchKeepsName(r: Record, r': Record, stamp: nat)
    requires LaunchOf(r, r', stamp)
    ensures r'.name == r.name
    ensures RecordOk(r) && stamp < 0x1_0000 ==> RecordOk(r')
  {
  }

  /** The stored form of a long name is already there, in a slot that the new record will not take. */
  ghost predicate Collides(h: seq<Record>, name: string) {
    && |h| == ENTRIES && |name| > NAME_MAX && !Settled(h)
    && exists k: nat :: k < |h| && h[k].name == name[..NAME_MAX] && (AnyBlank(h) || k != Victim(h))
  }

  /** A launch keeps names distinct unless, and only unless, a name too long for a record collides once it is cut. */
  lemma DistinctKept(h: seq<Record>, h': seq<Record>, name: string, stamp: nat)
    requires HistoryOk(h) && Distinct(h) && Step(h, h', name, stamp) && stamp < 0x1_0000
    ensures HistoryOk(h') && (Distinct(h') <==> !Collides(h, name))
  {
    hide LaunchOf, Victim;
    if Known(h, name) {
      RelaunchKeeps(h, h', name, stamp);
    } else if !Settled(h) {
      var slot: nat :| PlacedIn(h, slot) && h' == h[slot := Fresh(name, stamp)];
      PlacedDistinct(h, slot, Fresh(name, stamp));
    }
  }

  lemma RelaunchKeeps(h: seq<Record>, h': seq<Record>, name: string, stamp: nat)
    requires HistoryOk(h) && Distinct(h) && Known(h, name) && Relaunched(h, h', name, stamp) && stamp < 0x1_0000
    ensures HistoryOk(h') && Distinct(h') && |name| <= NAME_MAX
  {
    hide LaunchOf;
    forall i | 0 <= i < |h| ensures h'[i].name == h[i].name && RecordOk(h'[i]) {
      assert RecordOk(h[i]);
      if h[i].name == name {
        LaunchKeepsName(h[i], h'[i], stamp);
      }
    }
  }

  /** Putting a record into a slot keeps names distinct exactly when no other slot holds its name. */
  lemma PlacedDistinct(h: seq<Record>, slot: nat, r: Record)
    requires Distinct(h) && slot < |h|
    ensures Distinct(h[slot := r]) <==> r.name == "" || forall k :: 0 <= k < |h| && k != slot ==> h[k].name != r.name
  {
    var h' := h[slot := r];
    if Distinct(h') && r.name != "" {
      forall k | 0 <= k < |h| && k != slot ensures h[k].name != r.name {
        assert h'[k].name == h[k].name && h'[slot].name == r.name;
      }
    }
  }

  /** Some record is dropped only when there is no blank slot, and then it is a least used one. */
  lemma EvictedIsLeastUsed(h: seq<Record>, h': seq<Record>, name: string, stamp: nat, i: nat)
    requires HistoryOk(h) && Step(h, h', name, stamp) && i < |h| && h[i].name != "" && h'[i].name != h[i].name
    ensures !AnyBlank(h) && !Known(h, name) && h'[i] == Fresh(name, stamp) && forall k :: 0 <= k < |h| ==> h[i].count <= h[k].count
  {
    hide LaunchOf, Victim;
    if Known(h, name) {
      if h[i].name == name {
        LaunchKeepsName(h[i], h'[i], stamp);
      }
    }
    VictimIsLeastUsed(h);
  }

  // ----- the life of one record -----

  /** How many of the thresholds 14, 24, ..., 54 are at most n. */
  function Reached(n: nat): nat {
    if n < 14 then 0 else Min((n - 14) / 10 + 1, 5)
  }

  /** What a record looks like n launches after it was added, the first included. */
  ghost predicate Shape(r: Record, n: nat) {
    && n >= 1 && r.count == Min(n, 0x3F)
    && r.bits <= LOW6 && |r.bits| == 1 + Reached(n)
    && (r.shift == 7 <==> n >= 64) && (n < 64 ==> r.shift < 6)
  }

  lemma SixBits(bits: set<nat>)
    requires bits <= LOW6
    ensures |bits| <= 6 && (LOW6 <= bits <==> |bits| == 6)
  {
    SubsetSize(bits, LOW6);
    if LOW6 <= bits {
      assert bits == LOW6;
    } else {
      var b :| b in LOW6 && b !in bits;
      SubsetSize(bits, LOW6 - {b});
    }
  }

  lemma {:induction false} SubsetSize(a: set<nat>, b: set<nat>)
    requires a <= b
    ensures |a| <= |b|
    decreases |a|
  {
    if a != {} {
      var x :| x in a;
      SubsetSize(a - {x}, b - {x});
    }
  }

  /** One more launch, whatever bit is drawn. */
  lemma ShapeStep(r: Record, r': Record, stamp: nat, n: nat)
    requires Shape(r, n) && LaunchOf(r, r', stamp)
    ensures Shape(r', n + 1)
  {
    hide Reached;
    var bit: nat :| (Draws(r) ==> bit < 6 && bit !in r.bits) && r' == Launched(r, stamp, bit);
    ReachedStep(n);
    ReachedStep(n + 1);
    assert LOW6 <= r.bits <==> n >= 54 by { SixBits(r.bits); }
    BitsGrow(r.bits, bit);
    if n < 54 {
      assert r'.count == n + 1 && r'.bits == (if Threshold(n + 1) then r.bits + {bit} else r.bits);
    } else {
      assert r'.bits == r.bits;
    }
  }

  lemma BitsGrow(bits: set<nat>, bit: nat)
    requires bits <= LOW6
    ensures bit < 6 && bit !in bits ==> |bits + {bit}| == |bits| + 1 && bits + {bit} <= LOW6
  {
  }

  lemma ReachedStep(n: nat)
    ensures n < 54 ==> Reached(n) < 5 && Reached(n + 1) == Reached(n) + (if Threshold(n + 1) then 1 else 0)
    ensures n >= 54 ==> Reached(n) == 5
  {
  }

  lemma FreshShape(name: string, stamp: nat)
    ensures Shape(Fresh(name, stamp), 1)
  {
  }

  /** For each slot, the launches of its record since it was added. */
  ghost predicate Tally(h: seq<Record>, n: seq<nat>) {
    |h| == |n| == ENTRIES && forall i :: 0 <= i < |h| ==> h[i].name == "" || Shape(h[i], n[i])
  }

  /** The counts after a launch: one more for the records of that name, one for a new record. */
  ghost function Counted(h: seq<Record>, h': seq<Record>, name: string, n: seq<nat>): (n': seq<nat>)
    requires |h| == |h'| == |n|
    ensures |n'| == |n|
  {
    seq(|n|, i requires 0 <= i < |n| => if h[i].name == name then n[i] + 1 else if h'[i] == h[i] then n[i] else 1)
  }

  /** In every run, every record has the shape its number of launches gives it. */
  lemma TallyKept(h: seq<Record>, h': seq<Record>, name: string, stamp: nat, n: seq<nat>)
    requires Tally(h, n) && Step(h, h', name, stamp)
    ensures |h'| == |h| && Tally(h', Counted(h, h', name, n))
  {
    hide LaunchOf, Victim, Shape;
    if Known(h, name) {
      forall i | 0 <= i < |h| ensures h'[i].name == "" || Shape(h'[i], Counted(h, h', name, n)[i]) {
        if h[i].name == name {
          LaunchKeepsName(h[i], h'[i], stamp);
          if h[i].name != "" {
            ShapeStep(h[i], h'[i], stamp, n[i]);
          }
        }
      }
    } else if !Settled(h) {
      FreshShape(name, stamp);
    }
  }

  // ----- runs -----

  datatype Launch = Launch(name: string, stamp: nat)

  const BLANK: Record := Record("", 0, {}, 0, 0)

  /** hs are the states of a run from an empty history, one after each launch. */
  ghost predicate Run(hs: seq<seq<Record>>, launches: seq<Launch>) {
    && |hs| == |launches| + 1 && hs[0] == seq(ENTRIES, i => BLANK)
    && forall i {:trigger launches[i]} :: 0 <= i < |launches| ==>
         launches[i].stamp < 0x1_0000 && Step(hs[i], hs[i + 1], launches[i].name, launches[i].stamp)
  }

  lemma StepSize(h: seq<Record>, h': seq<Record>, name: string, stamp: nat)
    requires |h| == ENTRIES && Step(h, h', name, stamp)
    ensures |h'| == ENTRIES
  {
    hide LaunchOf, Victim;
  }

  lemma {:induction false} RunSizes(hs: seq<seq<Record>>, launches: seq<Launch>, k: nat)
    requires Run(hs, launches) && k < |hs|
    ensures |hs[k]| == ENTRIES
    decreases k
  {
    hide Step;
    if k > 0 {
      RunSizes(hs, launches, k - 1);
      var l := launches[k - 1];
      StepSize(hs[k - 1], hs[k], l.name, l.stamp);
    }
  }

  /** The launches each slot's record has had by the k-th state. */
  ghost function Tallies(hs: seq<seq<Record>>, launches: seq<Launch>, k: nat): (n: seq<nat>)
    requires Run(hs, launches) && k < |hs|
    ensures |n| == ENTRIES
    decreases k
  {
    if k == 0 then seq(ENTRIES, i => 0) else
      RunSizes(hs, launches, k - 1);
      RunSizes(hs, launches, k);
      Counted(hs[k - 1], hs[k], launches[k - 1].name, Tallies(hs, launches, k - 1))
  }

  lemma BlankHistory()
    ensures HistoryOk(seq(ENTRIES, i => BLANK)) && Distinct(seq(ENTRIES, i => BLANK))
  {
  }

  /** In every run, as long as no long name collides, names are distinct. */
  lemma {:induction false} RunDistinct(hs: seq<seq<Record>>, launches: seq<Launch>, k: nat)
    requires Run(hs, launches) && k < |hs| && forall i :: 0 <= i < k ==> !Collides(hs[i], launches[i].name)
    ensures HistoryOk(hs[k]) && Distinct(hs[k])
    decreases k
  {
    hide Step, Distinct, Collides, HistoryOk;
    if k > 0 {
      RunDistinct(hs, launches, k - 1);
      var l := launches[k - 1];
      DistinctKept(hs[k - 1], hs[k], l.name, l.stamp);
    } else {
      BlankHistory();
    }
  }

  /**
   In every run from an empty history, at every point, each record's launch count, bits and shift amount are those of
   the number of launches it has had since it was added.
   */
  lemma {:induction false} RunShapes(hs: seq<seq<Record>>, launches: seq<Launch>, k: nat)
    requires Run(hs, launches) && k < |hs|
    ensures Tally(hs[k], Tallies(hs, launches, k))
    decreases k
  {
    hide Step, Counted;
    RunSizes(hs, launches, k);
    if k > 0 {
      RunSizes(hs, launches, k - 1);
      RunShapes(hs, launches, k - 1);
      var l := launches[k - 1];
      TallyKept(hs[k - 1], hs[k], l.name, l.stamp, Tallies(hs, launches, k - 1));
    }
  }

  // ----- dates -----

  /**
   One launch: records of the name, if there are any, carry its date and are otherwise the only ones touched; a new name
   is put into one slot with that date, cut to a record's width, unless all records are settled, when nothing changes.
   */
  lemma LaunchIsDated(h: seq<Record>, h': seq<Record>, name: string, stamp: nat)
    requires HistoryOk(h) && Step(h, h', name, stamp)
    ensures |h'| == |h|
    ensures Known(h, name) ==>
              forall i :: 0 <= i < |h| ==> if h[i].name == name then h'[i].name == name && h'[i].stamp == stamp else h'[i] == h[i]
    ensures !Known(h, name) && !Settled(h) ==>
              exists slot: nat :: slot < |h| && Entered(h'[slot], name, stamp) && h' == h[slot := h'[slot]]
    ensures !Known(h, name) && Settled(h) ==> h' == h
  {
    hide Victim, Settled, Scan, HistoryOk, AnyBlank;
    if Known(h, name) {
      hide LaunchOf;
      forall i | 0 <= i < |h| && h[i].name == name ensures h'[i].name == name && h'[i].stamp == stamp {
        LaunchDates(h[i], h'[i], stamp);
      }
    } else if !Settled(h) {
      var slot: nat :| PlacedIn(h, slot) && h' == h[slot := Fresh(name, stamp)];
      assert Entered(h'[slot], name, stamp);
    }
  }

  /** A record as a first launch leaves it. */
  predicate Entered(r: Record, name: string, stamp: nat) {
    r.name <= name && (r.name == name || |r.name| == NAME_MAX) && r.count == 1 && r.stamp == stamp
  }

  lemma LaunchDates(r: Record, r': Record, stamp: nat)
    requires LaunchOf(r, r', stamp)
    ensures r'.name == r.name && r'.stamp == stamp
  {
  }

  /** The last of the first k launches of that name was on that date. */
  ghost predicate LastLaunch(launches: seq<Launch>, k: nat, name: string, stamp: nat)
    requires k <= |launches|
  {
    exists m: nat :: m < k && launches[m] == Launch(name, stamp) && forall i :: m < i < k ==> launches[i].name != name
  }

  ghost predicate Dated(h: seq<Record>, launches: seq<Launch>, k: nat)
    requires k <= |launches|
  {
    forall i :: 0 <= i < |h| && h[i].name != "" ==> LastLaunch(launches, k, h[i].name, h[i].stamp)
  }

  lemma LastNow(launches: seq<Launch>, k: nat)
    requires k < |launches|
    ensures LastLaunch(launches, k + 1, launches[k].name, launches[k].stamp)
  {
    assert launches[k] == Launch(launches[k].name, launches[k].stamp);
  }

  lemma LastKept(launches: seq<Launch>, k: nat, name: string, stamp: nat)
    requires k < |launches| && LastLaunch(launches, k, name, stamp) && launches[k].name != name
    ensures LastLaunch(launches, k + 1, name, stamp)
  {
    var m: nat :| m < k && launches[m] == Launch(name, stamp) && forall i :: m < i < k ==> launches[i].name != name;
    assert forall i :: m < i < k + 1 ==> launches[i].name != name;
  }

  lemma DatedStep(h: seq<Record>, h': seq<Record>, launches: seq<Launch>, k: nat)
    requires k < |launches| && HistoryOk(h) && |launches[k].name| <= NAME_MAX && Dated(h, launches, k)
    requires Step(h, h', launches[k].name, launches[k].stamp)
    requires !Settled(h) || Known(h, launches[k].name)
    ensures Dated(h', launches, k + 1)
  {
    hide Step, LastLaunch, Settled, HistoryOk;
    var l := launches[k];
    LaunchIsDated(h, h', l.name, l.stamp);
    LastNow(launches, k);
    forall i | 0 <= i < |h'| && h'[i].name != "" ensures LastLaunch(launches, k + 1, h'[i].name, h'[i].stamp) {
      if h'[i].name != l.name {
        assert h'[i] == h[i];
        LastKept(launches, k, h[i].name, h[i].stamp);
      } else if !Known(h, l.name) {
        assert h[i].name != l.name;
      }
    }
  }

  lemma SettledStep(h: seq<Record>, launches: seq<Launch>, k: nat)
    requires k < |launches| && !Known(h, launches[k].name) && Dated(h, launches, k)
    ensures Dated(h, launches, k + 1)
  {
    hide LastLaunch;
    forall i | 0 <= i < |h| && h[i].name != "" ensures LastLaunch(launches, k + 1, h[i].name, h[i].stamp) {
      LastKept(launches, k, h[i].name, h[i].stamp);
    }
  }

  /** In every run of names that fit a record, each record carries the date of the last launch of its name. */
  lemma {:induction false} RunDates(hs: seq<seq<Record>>, launches: seq<Launch>, k: nat)
    requires Run(hs, launches) && k < |hs| && forall i :: 0 <= i < |launches| ==> |launches[i].name| <= NAME_MAX
    ensures HistoryOk(hs[k]) && Dated(hs[k], launches, k)
    decreases k
  {
    hide Dated, Settled, HistoryOk, Distinct, Collides;
    if k == 0 {
      hide Step;
      BlankHistory();
      NoneDated(launches);
    } else {
      RunDates(hs, launches, k - 1);
      var h, l := hs[k - 1], launches[k - 1];
      assert Step(h, hs[k], l.name, l.stamp);
      hide Step;
      StepOk(h, hs[k], l.name, l.stamp);
      if !Known(h, l.name) && Settled(h) {
        LaunchIsDated(h, hs[k], l.name, l.stamp);
        SettledStep(h, launches, k - 1);
      } else {
        DatedStep(h, hs[k], launches, k - 1);
      }
    }
  }

  lemma NoneDated(launches: seq<Launch>)
    ensures Dated(seq(ENTRIES, i => BLANK), launches, 0)
  {
  }

  lemma StepOk(h: seq<Record>, h': seq<Record>, name: string, stamp: nat)
    requires HistoryOk(h) && Step(h, h', name, stamp) && stamp < 0x1_0000
    ensures HistoryOk(h')
  {
    hide Victim, Settled, Scan, AnyBlank;
    if Known(h, name) {
      hide LaunchOf;
      forall i | 0 <= i < |h| ensures RecordOk(h'[i]) {
        if h[i].name == name {
          LaunchKeepsName(h[i], h'[i], stamp);
        }
      }
    }
  }

  // ----- names as the program passes them -----

  predicate IsPathMark(c: char) {
    c == '\\' || c == ':' || c == '/'
  }

  /** The last mark of a path after its first character, or 0. */
  function LastMark(path: string, i: nat): (r: nat)
    requires i < |path| || i == 0
    ensures r <= i && (r > 0 ==> IsPathMark(path[r]))
  {
    if i == 0 then 0 else if IsPathMark(path[i]) then i else LastMark(path, i - 1)
  }

  function Cut15(s: string): (r: string)
    ensures |r| <= NAME_MAX && r <= s
  {
    if |s| > NAME_MAX then s[..NAME_MAX] else s
  }

  /** GetBootFilename, the only source of names: what follows the last mark, without ";1", cut to a record's width. */
  function BootName(path: string): (r: string)
    ensures |r| <= NAME_MAX
  {
    var i := if path == "" then 0 else LastMark(path, |path| - 1);
    if i == 0 then Cut15(path)
    else if |path| - i > 2 && path[|path| - 1] == '1' && path[|path| - 2] == ';' then Cut15(path[i + 1..|path| - 2])
    else Cut15(path[i + 1..])
  }

  predicate NoMark(s: string) {
    forall i :: 0 <= i < |s| ==> !IsPathMark(s[i])
  }

  predicate VersionOne(s: string) {
    |s| >= 2 && s[|s| - 2] == ';' && s[|s| - 1] == '1'
  }

  /** For a file in a directory it is the file's own name without its version, cut. */
  lemma BootNameOf(dir: string, mark: char, file: string)
    requires dir != "" && IsPathMark(mark) && NoMark(file)
    ensures BootName(dir + [mark] + file) == Cut15(if VersionOne(file) then file[..|file| - 2] else file)
  {
    hide Cut15, IsPathMark;
    var path, i := dir + [mark] + file, |dir|;
    assert path[i] == mark && forall k :: i < k < |path| ==> path[k] == file[k - i - 1];
    LastMarkAt(path, i, |path| - 1);
    assert path[i + 1..] == file;
    BootNameAfter(path, i);
  }

  lemma BootNameAfter(path: string, i: nat)
    requires 0 < i < |path| && LastMark(path, |path| - 1) == i
    ensures var file := path[i + 1..]; BootName(path) == Cut15(if VersionOne(file) then file[..|file| - 2] else file)
  {
    hide Cut15, LastMark;
    var file := path[i + 1..];
    if |file| >= 2 {
      assert file[|file| - 1] == path[|path| - 1] && file[|file| - 2] == path[|path| - 2];
      assert path[i + 1..|path| - 2] == file[..|file| - 2];
    }
  }

  lemma {:induction false} LastMarkAt(path: string, m: nat, i: nat)
    requires 0 < m <= i < |path| && IsPathMark(path[m]) && forall k :: m < k <= i ==> !IsPathMark(path[k])
    ensures LastMark(path, i) == m
    decreases i
  {
    if m < i {
      LastMarkAt(path, m, i - 1);
    }
  }

  /** So over any run of launches by path, names stay distinct. */
  lemma PathRunDistinct(hs: seq<seq<Record>>, launches: seq<Launch>, paths: seq<string>, k: nat)
    requires Run(hs, launches) && k < |hs| && |paths| == |launches|
    requires forall i :: 0 <= i < |paths| ==> launches[i].name == BootName(paths[i])
    ensures Distinct(hs[k])
  {
    hide BootName, Step;
    forall i | 0 <= i < k ensures !Collides(hs[i], launches[i].name) {
      assert launches[i].name == BootName(paths[i]);
    }
    RunDistinct(hs, launches, k);
  }

  // ----- two ways to be surprised -----

  /** A tie is not always broken by age. */
  lemma VictimNeedNotBeOldest() returns (h: seq<Record>)
    ensures HistoryOk(h) && !Oldest(h, Victim(h))
  {
    h := [Record("A", 5, {0}, 0, 10), Record("B", 1, {0}, 0, 50), Record("C", 1, {0}, 0, 40)] + seq(18, i => Record("D", 9, {0}, 0, 99));
    assert forall k :: 3 <= k < |h| ==> h[k].count == 9;
    assert h[0].count == 5 && h[1].count == 1 && h[2].count == 1;
    VictimOldestIff(h, 1);
    assert h[2].stamp < h[1].stamp;
    assert RunningLeast(h, 0) && h[0].stamp == 10;
    forall k: nat ensures !Earlier(h, 1, k) {
      if 1 <= k < |h| && h[k].count == 1 {
        assert k == 1 || k == 2;
      }
    }
  }

  /** A name longer than a record holds is stored cut and not found again: launched twice, it is there twice. */
  lemma LongNameRepeats(h: seq<Record>, h1: seq<Record>, h2: seq<Record>, name: string, stamp: nat)
    requires h == seq(ENTRIES, i => BLANK) && |name| > NAME_MAX && stamp < 0x1_0000
    requires Step(h, h1, name, stamp) && Step(h1, h2, name, stamp)
    ensures Collides(h1, name) && !Distinct(h2)
  {
    hide Victim;
    BlankHistory();
    assert h[0].name == "" && !Settled(h) && AnyBlank(h);
    var slot: nat :| PlacedIn(h, slot) && h1 == h[slot := Fresh(name, stamp)];
    var other: nat := if slot == 0 then 1 else 0;
    assert h1[slot].name == name[..NAME_MAX] && h1[other].name == "";
    assert AnyBlank(h1) && !Settled(h1) && Collides(h1, name);
    assert !Collides(h, name) by {
      assert forall k :: 0 <= k < |h| ==> h[k].name == "";
    }
    DistinctKept(h, h1, name, stamp);
    DistinctKept(h1, h2, name, stamp);
  }

  // ----- in place -----

  /** The update of a record that is already there; the bit is drawn until it is a free one. */
  method Relaunch(r: Record, stamp: nat) returns (r': Record)
    ensures LaunchOf(r, r', stamp)
  {
    var bit := 0;
    if !(LOW6 <= r.bits) {
      var n := NextCount(r.count);
      if Threshold(n) {
        ghost var free := FreeBit(r.bits);
        bit :| 0 <= bit < 6 && bit !in r.bits;
        r' := Record(r.name, n, r.bits + {bit}, bit, stamp);
      } else {
        r' := Record(r.name, n, r.bits, r.shift, stamp);
      }
    } else if r.count < 0x3F {
      r' := Record(r.name, r.count + 1, r.bits, r.shift, stamp);
    } else {
      r' := Record(r.name, 0x3F, r.bits, 7, stamp);
    }
    assert r' == Launched(r, stamp, bit);
  }

  /** The scan of AddHistoryRecord: it updates the records of the name and finds the victim. */
  method UpdateAndScan(h: array<Record>, name: string, stamp: nat) returns (isNew: bool, least: nat)
    requires h.Length == ENTRIES
    modifies h
    ensures isNew <==> !Known(old(h[..]), name)
    ensures isNew ==> h[..] == old(h[..]) && least == Victim(old(h[..]))
    ensures !isNew ==> Relaunched(old(h[..]), h[..], name, stamp)
  {
    hide LaunchOf, Scan;
    ghost var was := h[..];
    ScanStart(was);
    var l := Least(0, INT_MAX, INT_MAX);
    isNew := true;
    for i := 0 to h.Length
      invariant forall k :: i <= k < h.Length ==> h[k] == was[k]
      invariant forall k :: 0 <= k < i ==> if was[k].name == name then LaunchOf(was[k], h[k], stamp) else h[k] == was[k]
      invariant isNew <==> forall k :: 0 <= k < i ==> was[k].name != name
      invariant l == Scan(was, i)
    {
      ScanNext(was, i);
      if h[i].count < l.count {
        l := Least(i, h[i].count, l.stamp);
      }
      if l.count == h[i].count && h[i].stamp < l.stamp {
        l := Least(i, l.count, h[i].stamp);
      }
      if h[i].name == name {
        isNew := false;
        h[i] := Relaunch(h[i], stamp);
      }
    }
    least := l.at;
  }

  /** AddHistoryRecord on a loaded history; draw is the random choice among the blank slots. */
  method AddRecord(h: array<Record>, name: string, stamp: nat, draw: nat) returns (evicted: Option<Record>)
    requires h.Length == ENTRIES && HistoryOk(h[..])
    modifies h
    ensures Step(old(h[..]), h[..], name, stamp)
    ensures evicted.Some? <==> !Known(old(h[..]), name) && !Settled(old(h[..])) && !AnyBlank(old(h[..]))
    ensures evicted.Some? ==> evicted.value == old(h[..])[Victim(old(h[..]))]
  {
    hide Victim;
    evicted := None;
    ghost var was := h[..];
    var isNew, least := UpdateAndScan(h, name, stamp);
    if !isNew {
      return;
    }
    var blank: seq<nat>, settled := [], 0;
    for i := 0 to h.Length
      invariant h[..] == was && settled <= i - |blank|
      invariant forall k :: 0 <= k < |blank| ==> blank[k] < h.Length && h[blank[k]].name == ""
      invariant blank == [] <==> forall k :: 0 <= k < i ==> h[k].name != ""
      invariant settled == i <==> forall k :: 0 <= k < i ==> h[k].name != "" && h[k].shift == 7
    {
      if h[i].name == "" {
        blank := blank + [i];
      } else if h[i].shift == 7 {
        settled := settled + 1;
      }
    }
    if settled == ENTRIES {
      return;
    }
    VictimIsLeastUsed(was);
    var slot := least;
    if |blank| > 0 {
      slot := blank[draw % |blank|];
    } else {
      evicted := Some(h[least]);
    }
    assert PlacedIn(was, slot);
    h[slot] := Fresh(name, stamp);
    assert h[..] == was[slot := Fresh(name, stamp)];
  }
}
