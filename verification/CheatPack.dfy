/** Packing the loaded cheats for the in-game menu (src/cheatman.c, ee_core/include/igrcheats.h). */
module CheatPack {
  import opened Text

  /** An address and a value, 32 bits each. */
  datatype Code = Code(addr: nat, val: nat)

  /** A cheat of the loaded file; its codes end at the first address 0. */
  datatype Cheat = Cheat(name: string, codes: seq<Code>, enabled: bool)

  datatype Row = Row(first: nat, count: nat, on: bool, name: string)

  const ROWS_MAX: nat := 64
  const NAME_SIZE: nat := 24
  const CODES_MAX: nat := 512
  const SET_CODES: nat := 250
  const SPARE_WORDS: nat := 504
  const HEADER_BYTES: nat := 16
  const ROW_BYTES: nat := 32

  /** IGR_CHEATS_BYTES. */
  function Bytes(count: nat, pairs: nat): nat {
    HEADER_BYTES + SPARE_WORDS * 4 + count * ROW_BYTES + pairs * 8
  }

  /** A hook by its address: the top seven bits of 0x90 or 0x91. */
  predicate HookAddr(addr: nat) {
    addr / 0x200_0000 == 0x48
  }

  /** The first line of a two-line code of type 3 or 4; a hook address after it is data. */
  predicate TwoLine(addr: nat) {
    addr / 0x1000_0000 == 3 || addr / 0x1000_0000 == 4
  }

  /** The codes from j on that are not hooks. */
  function Real(codes: seq<Code>, j: nat, canHook: bool): seq<Code>
    decreases |codes| - j
  {
    if j >= |codes| || codes[j].addr == 0 then []
    else
      (if HookAddr(codes[j].addr) && canHook then [] else [codes[j]]) + Real(codes, j + 1, !TwoLine(codes[j].addr))
  }

  function RealCodes(c: Cheat): seq<Code> {
    Real(c.codes, 0, true)
  }

  /** Before the first address 0. */
  predicate Reached(codes: seq<Code>, j: nat) {
    j < |codes| && forall i :: 0 <= i <= j ==> codes[i].addr != 0
  }

  /** Which codes a row carries: all but those at 0x90000000 to 0x91FFFFFF that do not follow a line of type 3 or 4. */
  predicate RealAt(codes: seq<Code>, j: nat) {
    && Reached(codes, j)
    && (0x9000_0000 <= codes[j].addr < 0x9200_0000 ==> j > 0 && 0x3000_0000 <= codes[j - 1].addr < 0x5000_0000)
  }

  lemma HookByRange(codes: seq<Code>, j: nat)
    requires Reached(codes, j)
    ensures RealAt(codes, j) <==> !(HookAddr(codes[j].addr) && (j == 0 || !TwoLine(codes[j - 1].addr)))
  {
  }

  predicate Increasing(ps: seq<nat>) {
    forall i, k :: 0 <= i < k < |ps| ==> ps[i] < ps[k]
  }

  /** The codes in r stand at the positions ps, all from j on. */
  ghost predicate StandAt(codes: seq<Code>, j: nat, ps: seq<nat>, r: seq<Code>) {
    |ps| == |r| && forall i :: 0 <= i < |ps| ==> j <= ps[i] < |codes| && RealAt(codes, ps[i]) && codes[ps[i]] == r[i]
  }

  ghost predicate AllIn(codes: seq<Code>, j: nat, ps: seq<nat>) {
    forall k :: j <= k < |codes| && RealAt(codes, k) ==> k in ps
  }

  ghost predicate Places(codes: seq<Code>, j: nat, ps: seq<nat>, r: seq<Code>) {
    Increasing(ps) && StandAt(codes, j, ps, r) && AllIn(codes, j, ps)
  }

  lemma IncreasingCons(j: nat, ps: seq<nat>)
    requires Increasing(ps) && forall i :: 0 <= i < |ps| ==> j < ps[i]
    ensures Increasing([j] + ps)
  {
  }

  lemma StandAtCons(codes: seq<Code>, j: nat, ps: seq<nat>, r: seq<Code>)
    requires j < |codes| && StandAt(codes, j + 1, ps, r) && RealAt(codes, j)
    ensures StandAt(codes, j, [j] + ps, [codes[j]] + r)
  {
    hide RealAt;
    var ps', r' := [j] + ps, [codes[j]] + r;
    forall i | 0 <= i < |ps'|
      ensures j <= ps'[i] < |codes| && RealAt(codes, ps'[i]) && codes[ps'[i]] == r'[i]
    {
      if i > 0 {
        assert ps'[i] == ps[i - 1] && r'[i] == r[i - 1];
      }
    }
  }

  lemma AllInCons(codes: seq<Code>, j: nat, ps: seq<nat>)
    requires AllIn(codes, j + 1, ps)
    ensures AllIn(codes, j, [j] + ps)
    ensures !RealAt(codes, j) ==> AllIn(codes, j, ps)
  {
    hide RealAt;
  }

  lemma PlacesCons(codes: seq<Code>, j: nat, ps: seq<nat>, r: seq<Code>)
    requires j < |codes| && Places(codes, j + 1, ps, r)
    ensures RealAt(codes, j) ==> Places(codes, j, [j] + ps, [codes[j]] + r)
    ensures !RealAt(codes, j) ==> Places(codes, j, ps, r)
  {
    hide RealAt, AllIn, Increasing;
    AllInCons(codes, j, ps);
    if RealAt(codes, j) {
      IncreasingCons(j, ps);
      hide StandAt;
      StandAtCons(codes, j, ps, r);
    }
  }

  lemma RealStep(codes: seq<Code>, j: nat, canHook: bool)
    requires j < |codes| && codes[j].addr != 0
    ensures Real(codes, j, canHook) ==
            (if HookAddr(codes[j].addr) && canHook then [] else [codes[j]]) + Real(codes, j + 1, !TwoLine(codes[j].addr))
  {
    hide HookAddr, TwoLine;
  }

  lemma RealEnd(codes: seq<Code>, j: nat, canHook: bool)
    requires j >= |codes| || codes[j].addr == 0
    ensures Places(codes, j, [], Real(codes, j, canHook))
  {
  }

  /** No address before j is 0, and canHook says whether the line before j was no two-line code. */
  predicate Before(codes: seq<Code>, j: nat, canHook: bool) {
    && j <= |codes| && (forall i :: 0 <= i < j ==> codes[i].addr != 0)
    && canHook == (j == 0 || !TwoLine(codes[j - 1].addr))
  }

  lemma BeforeNext(codes: seq<Code>, j: nat, canHook: bool)
    requires Before(codes, j, canHook) && j < |codes| && codes[j].addr != 0
    ensures Before(codes, j + 1, !TwoLine(codes[j].addr))
    ensures RealAt(codes, j) <==> !(HookAddr(codes[j].addr) && canHook)
  {
    HookByRange(codes, j);
  }

  lemma {:induction false} RealFrom(codes: seq<Code>, j: nat, canHook: bool) returns (ps: seq<nat>)
    requires Before(codes, j, canHook)
    ensures Places(codes, j, ps, Real(codes, j, canHook))
    decreases |codes| - j
  {
    hide HookAddr, TwoLine, RealAt, Real, Places, Before;
    assert j <= |codes| by { BeforeIn(codes, j, canHook); }
    if j == |codes| || codes[j].addr == 0 {
      ps := [];
      RealEnd(codes, j, canHook);
    } else {
      BeforeNext(codes, j, canHook);
      RealStep(codes, j, canHook);
      var rest := RealFrom(codes, j + 1, !TwoLine(codes[j].addr));
      var more := Real(codes, j + 1, !TwoLine(codes[j].addr));
      PlacesCons(codes, j, rest, more);
      if RealAt(codes, j) {
        ps := [j] + rest;
      } else {
        ps := rest;
        assert [] + more == more;
      }
    }
  }

  lemma BeforeIn(codes: seq<Code>, j: nat, canHook: bool)
    requires Before(codes, j, canHook)
    ensures j <= |codes|
  {
  }

  /** By position: a cheat's row carries exactly the codes RealAt tells, in order. */
  lemma RealByPosition(c: Cheat) returns (ps: seq<nat>)
    ensures Increasing(ps) && |ps| == |RealCodes(c)| && forall j: nat :: j in ps <==> RealAt(c.codes, j)
    ensures forall i :: 0 <= i < |ps| ==> ps[i] < |c.codes| && RealCodes(c)[i] == c.codes[ps[i]]
  {
    hide RealAt, Real;
    ps := RealFrom(c.codes, 0, true);
    forall j: nat | RealAt(c.codes, j)
      ensures j in ps
    {
      assert j < |c.codes| by { InCodes(c.codes, j); }
    }
  }

  lemma InCodes(codes: seq<Code>, j: nat)
    requires RealAt(codes, j)
    ensures j < |codes|
  {
  }

  /** igrRowFits. */
  predicate RowFits(count: nat, pairs: nat, n: nat, room: nat) {
    count < ROWS_MAX && n <= SET_CODES && pairs + n <= CODES_MAX && Bytes(count + 1, pairs + n) <= room
  }

  predicate Takes(c: Cheat, count: nat, pairs: nat, room: nat) {
    RealCodes(c) != [] && RowFits(count, pairs, |RealCodes(c)|, room)
  }

  /** The menu's name for a cheat: cut to the menu's width. */
  function ShownName(name: string): (r: string)
    ensures |r| < NAME_SIZE && (name == "" ==> r == "CHEAT")
    ensures name != "" ==> r <= name && (r == name || |r| == NAME_SIZE - 1)
  {
    var full := if name == "" then "CHEAT" else name;
    if |full| < NAME_SIZE then full else full[..NAME_SIZE - 1]
  }

  datatype Page = Page(rows: seq<Row>, codes: seq<Code>)

  /** Rows and codes after the first n cheats. */
  function Laid(cheats: seq<Cheat>, n: nat, room: nat): Page
    requires n <= |cheats|
    decreases n
  {
    if n == 0 then Page([], []) else
      var p, c := Laid(cheats, n - 1, room), cheats[n - 1];
      if Takes(c, |p.rows|, |p.codes|, room) then
        Page(p.rows + [Row(|p.codes|, |RealCodes(c)|, c.enabled, ShownName(c.name))], p.codes + RealCodes(c))
      else p
  }

  /** A ticked cheat with codes was not taken. */
  predicate Refused(cheats: seq<Cheat>, n: nat, room: nat)
    requires n <= |cheats|
    decreases n
  {
    n > 0 && (Refused(cheats, n - 1, room) ||
              (cheats[n - 1].enabled && RealCodes(cheats[n - 1]) != [] &&
               var p := Laid(cheats, n - 1, room); !Takes(cheats[n - 1], |p.rows|, |p.codes|, room)))
  }

  // ----- what the pages hold -----

  /** The page fits the room it was given, and the menu's limits. */
  lemma {:induction false} LaidFits(cheats: seq<Cheat>, n: nat, room: nat)
    requires n <= |cheats|
    ensures var p := Laid(cheats, n, room);
            && |p.rows| <= ROWS_MAX && |p.codes| <= CODES_MAX
            && (p.rows != [] ==> Bytes(|p.rows|, |p.codes|) <= room) && (p.rows == [] ==> p.codes == [])
    decreases n
  {
    hide RealCodes, ShownName;
    if n > 0 {
      LaidFits(cheats, n - 1, room);
    }
  }

  /** Later cheats only add. */
  lemma {:induction false} LaidGrows(cheats: seq<Cheat>, i: nat, n: nat, room: nat)
    requires i <= n <= |cheats|
    ensures Laid(cheats, i, room).rows <= Laid(cheats, n, room).rows && Laid(cheats, i, room).codes <= Laid(cheats, n, room).codes
    ensures |Laid(cheats, i, room).rows| == |Laid(cheats, n, room).rows| ==> Laid(cheats, i, room) == Laid(cheats, n, room)
    decreases n
  {
    hide RealCodes, ShownName, Takes;
    if i < n {
      LaidGrows(cheats, i, n - 1, room);
    }
  }

  /** Row k of a page is a cheat's: its real codes, its tick and its name. */
  ghost predicate RowOf(p: Page, k: nat, c: Cheat) {
    && k < |p.rows|
    && var row := p.rows[k];
       && row.count == |RealCodes(c)| && row.on == c.enabled && row.name == ShownName(c.name)
       && row.first + row.count <= |p.codes| && p.codes[row.first..row.first + row.count] == RealCodes(c)
  }

  lemma RowOfKept(p: Page, q: Page, k: nat, c: Cheat)
    requires RowOf(p, k, c) && p.rows <= q.rows && p.codes <= q.codes
    ensures RowOf(q, k, c)
  {
    hide RealCodes, ShownName;
    var row := p.rows[k];
    assert q.rows[k] == row;
    assert q.codes[row.first..row.first + row.count] == p.codes[row.first..row.first + row.count];
  }

  lemma RowOfNew(p: Page, c: Cheat)
    ensures RowOf(Page(p.rows + [Row(|p.codes|, |RealCodes(c)|, c.enabled, ShownName(c.name))], p.codes + RealCodes(c)), |p.rows|, c)
  {
    hide RealCodes, ShownName;
    assert (p.codes + RealCodes(c))[|p.codes|..|p.codes| + |RealCodes(c)|] == RealCodes(c);
  }

  /** Every ticked cheat that has real codes has its row when nothing was refused. */
  lemma {:induction false} TickedIsListed(cheats: seq<Cheat>, n: nat, room: nat, i: nat) returns (k: nat)
    requires i < n <= |cheats| && !Refused(cheats, n, room) && cheats[i].enabled && RealCodes(cheats[i]) != []
    ensures RowOf(Laid(cheats, n, room), k, cheats[i])
    decreases n
  {
    hide RealCodes, ShownName, RowOf, Takes;
    LaidGrows(cheats, n - 1, n, room);
    if i < n - 1 {
      k := TickedIsListed(cheats, n - 1, room, i);
      RowOfKept(Laid(cheats, n - 1, room), Laid(cheats, n, room), k, cheats[i]);
    } else {
      RowOfNew(Laid(cheats, n - 1, room), cheats[i]);
      k := |Laid(cheats, n - 1, room).rows|;
    }
  }

  /** Every row is some cheat's. */
  lemma {:induction false} RowsAreCheats(cheats: seq<Cheat>, n: nat, room: nat, k: nat) returns (i: nat)
    requires n <= |cheats| && k < |Laid(cheats, n, room).rows|
    ensures i < n && RowOf(Laid(cheats, n, room), k, cheats[i])
    decreases n
  {
    hide RealCodes, ShownName, RowOf, Takes;
    LaidGrows(cheats, n - 1, n, room);
    if k < |Laid(cheats, n - 1, room).rows| {
      i := RowsAreCheats(cheats, n - 1, room, k);
      RowOfKept(Laid(cheats, n - 1, room), Laid(cheats, n, room), k, cheats[i]);
    } else {
      RowOfNew(Laid(cheats, n - 1, room), cheats[n - 1]);
      i := n - 1;
    }
  }

  // ----- when everything fits -----

  /** The cheats with real codes among the first n, and how many codes they have. */
  function RealCount(cheats: seq<Cheat>, n: nat): nat
    requires n <= |cheats|
  {
    if n == 0 then 0 else RealCount(cheats, n - 1) + if RealCodes(cheats[n - 1]) != [] then 1 else 0
  }

  function RealTotal(cheats: seq<Cheat>, n: nat): nat
    requires n <= |cheats|
  {
    if n == 0 then 0 else RealTotal(cheats, n - 1) + |RealCodes(cheats[n - 1])|
  }

  /** Counts within the limits: 64 rows, 512 codes, 250 to a row, and a page of that size within the room. */
  ghost predicate AllFit(cheats: seq<Cheat>, n: nat, room: nat)
    requires n <= |cheats|
  {
    && RealCount(cheats, n) <= 64 && RealTotal(cheats, n) <= 512
    && (forall i :: 0 <= i < n ==> |RealCodes(cheats[i])| <= 250)
    && 16 + 504 * 4 + 32 * RealCount(cheats, n) + 8 * RealTotal(cheats, n) <= room
  }

  /** Then every cheat with real codes, ticked or not, is taken and none is refused. */
  lemma {:induction false} AllTaken(cheats: seq<Cheat>, n: nat, room: nat)
    requires n <= |cheats| && AllFit(cheats, n, room)
    ensures !Refused(cheats, n, room)
    ensures var p := Laid(cheats, n, room); |p.rows| == RealCount(cheats, n) && |p.codes| == RealTotal(cheats, n)
    ensures forall i :: 0 <= i < n && RealCodes(cheats[i]) != [] ==>
              exists k: nat :: RowOf(Laid(cheats, n, room), k, cheats[i])
    decreases n
  {
    hide RealCodes, ShownName, RowOf;
    if n > 0 {
      AllTaken(cheats, n - 1, room);
      var p, q, c := Laid(cheats, n - 1, room), Laid(cheats, n, room), cheats[n - 1];
      LaidGrows(cheats, n - 1, n, room);
      RowOfNew(p, c);
      forall i | 0 <= i < n - 1 && RealCodes(cheats[i]) != []
        ensures exists k: nat :: RowOf(q, k, cheats[i])
      {
        var k: nat :| RowOf(p, k, cheats[i]);
        RowOfKept(p, q, k, cheats[i]);
      }
    }
  }

  // ----- too many ticks for one set -----

  /** The codes of the ticked rows before k. */
  function OnTotal(rows: seq<Row>, k: nat): nat
    requires k <= |rows|
    decreases k
  {
    if k == 0 then 0 else OnTotal(rows, k - 1) + if rows[k - 1].on then rows[k - 1].count else 0
  }

  /** The latest point at or before c up to which the ticks fit one set. */
  function CutAt(rows: seq<Row>, c: nat): (r: nat)
    requires c <= |rows|
    ensures r <= c && OnTotal(rows, r) <= SET_CODES && (r < c ==> OnTotal(rows, r + 1) > SET_CODES)
    decreases c
  {
    if OnTotal(rows, c) <= SET_CODES then c else CutAt(rows, c - 1)
  }

  /** Rows with the ticks from c on taken off. */
  function Unticked(rows: seq<Row>, c: nat): (r: seq<Row>)
    ensures |r| == |rows| && forall k :: 0 <= k < |r| ==> r[k] == if k < c then rows[k] else rows[k].(on := false)
  {
    seq(|rows|, k requires 0 <= k < |rows| => if k < c then rows[k] else rows[k].(on := false))
  }

  lemma {:induction false} UntickedTotal(rows: seq<Row>, c: nat, k: nat)
    requires c <= |rows| && k <= |rows|
    ensures OnTotal(Unticked(rows, c), k) == OnTotal(rows, if k < c then k else c)
    decreases k
  {
    hide Unticked;
    if k > 0 {
      UntickedTotal(rows, c, k - 1);
    }
  }

  /** igrCheatsPack: the page, or None for a return of 0. */
  function Packed(cheats: seq<Cheat>, room: nat): Option<Page> {
    var p := Laid(cheats, |cheats|, room);
    if room < Bytes(1, 1) || Refused(cheats, |cheats|, room) || p.rows == [] then None
    else Some(Page(Unticked(p.rows, CutAt(p.rows, |p.rows|)), p.codes))
  }

  /** A file with a real cheat whose cheats all fit is packed, with a row for each of them. */
  lemma AllFitIsPacked(cheats: seq<Cheat>, room: nat)
    requires AllFit(cheats, |cheats|, room) && RealCount(cheats, |cheats|) > 0
    ensures Packed(cheats, room).Some? && |Packed(cheats, room).value.rows| == RealCount(cheats, |cheats|)
  {
    hide Laid, Refused, CutAt, Unticked;
    AllTaken(cheats, |cheats|, room);
    CountedHasCodes(cheats, |cheats|);
  }

  lemma {:induction false} CountedHasCodes(cheats: seq<Cheat>, n: nat)
    requires n <= |cheats|
    ensures RealCount(cheats, n) <= RealTotal(cheats, n)
  {
    hide RealCodes;
    if n > 0 {
      CountedHasCodes(cheats, n - 1);
    }
  }

  /**
   A page that is returned fits its room, lists every ticked cheat that has real codes, and keeps exactly the ticks
   before one cut point; these fit one set, and the cut is as late as it can be.
   */
  lemma PackedPage(cheats: seq<Cheat>, room: nat) returns (cut: nat)
    requires Packed(cheats, room).Some?
    ensures var p, q := Laid(cheats, |cheats|, room), Packed(cheats, room).value;
            && Bytes(|q.rows|, |q.codes|) <= room && 0 < |q.rows| <= ROWS_MAX && |q.codes| <= CODES_MAX
            && cut <= |q.rows| == |p.rows| && OnTotal(q.rows, |q.rows|) <= SET_CODES
            && (cut < |q.rows| ==> OnTotal(p.rows, cut + 1) > SET_CODES)
            && forall k :: 0 <= k < |q.rows| ==> q.rows[k] == p.rows[k].(on := p.rows[k].on && k < cut)
  {
    hide Laid, OnTotal, Refused, CutAt, Unticked;
    var p := Laid(cheats, |cheats|, room);
    LaidFits(cheats, |cheats|, room);
    cut := CutAt(p.rows, |p.rows|);
    UntickedTotal(p.rows, cut, |p.rows|);
    assert forall k :: 0 <= k < |p.rows| ==> p.rows[k].(on := p.rows[k].on) == p.rows[k];
  }

  // ----- the set the engine builds from a page -----

  predicate RowsOk(p: Page) {
    forall k :: 0 <= k < |p.rows| ==> p.rows[k].first + p.rows[k].count <= |p.codes|
  }

  function RowCodes(p: Page, k: nat): seq<Code>
    requires k < |p.rows| && RowsOk(p)
  {
    p.codes[p.rows[k].first..p.rows[k].first + p.rows[k].count]
  }

  /** igrCheatsBuild over the first k rows: whole cheats while they fit. */
  function Built(p: Page, k: nat): seq<Code>
    requires k <= |p.rows| && RowsOk(p)
    decreases k
  {
    if k == 0 then [] else
      var built, row := Built(p, k - 1), p.rows[k - 1];
      if !row.on || |built| + row.count > SET_CODES then built else built + RowCodes(p, k - 1)
  }

  /** The codes of all ticked rows, fit or not. */
  function Ticked(p: Page, k: nat): seq<Code>
    requires k <= |p.rows| && RowsOk(p)
    decreases k
  {
    if k == 0 then [] else Ticked(p, k - 1) + if p.rows[k - 1].on then RowCodes(p, k - 1) else []
  }

  lemma {:induction false} OnTotalGrows(rows: seq<Row>, i: nat, k: nat)
    requires i <= k <= |rows|
    ensures OnTotal(rows, i) <= OnTotal(rows, k)
    decreases k
  {
    if i < k {
      OnTotalGrows(rows, i, k - 1);
    }
  }

  lemma RowSize(p: Page, k: nat)
    requires k < |p.rows| && RowsOk(p)
    ensures |RowCodes(p, k)| == p.rows[k].count
  {
  }

  /** When the ticks fit one set, the engine leaves none of them out. */
  lemma {:induction false} BuiltIsTicked(p: Page, k: nat)
    requires k <= |p.rows| && RowsOk(p) && OnTotal(p.rows, |p.rows|) <= SET_CODES
    ensures Built(p, k) == Ticked(p, k) && |Built(p, k)| == OnTotal(p.rows, k)
    decreases k
  {
    if k > 0 {
      hide RowCodes;
      BuiltIsTicked(p, k - 1);
      OnTotalGrows(p.rows, k, |p.rows|);
      RowSize(p, k - 1);
      assert Ticked(p, k - 1) + [] == Ticked(p, k - 1);
    }
  }

  lemma PackedRowsOk(cheats: seq<Cheat>, room: nat)
    requires Packed(cheats, room).Some?
    ensures RowsOk(Packed(cheats, room).value)
  {
    hide Laid, OnTotal, Refused, CutAt;
    var p := Laid(cheats, |cheats|, room);
    forall k | 0 <= k < |p.rows| ensures p.rows[k].first + p.rows[k].count <= |p.codes| {
      var i := RowsAreCheats(cheats, |cheats|, room, k);
    }
  }

  /** From a packed page the engine builds exactly the codes of all rows that say they are on. */
  lemma EngineRunsWhatRowsSay(cheats: seq<Cheat>, room: nat)
    requires Packed(cheats, room).Some?
    ensures var q := Packed(cheats, room).value;
            RowsOk(q) && Built(q, |q.rows|) == Ticked(q, |q.rows|)
  {
    hide Packed, Laid, OnTotal, Built, Ticked, RowsOk;
    PackedRowsOk(cheats, room);
    var cut := PackedPage(cheats, room);
    BuiltIsTicked(Packed(cheats, room).value, |Packed(cheats, room).value.rows|);
  }
}
