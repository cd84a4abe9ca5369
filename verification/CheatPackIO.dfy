/** The two walks of the cheat packer and the loop that takes ticks off (src/cheatman.c). */
module CheatPackIO {
  import opened Text
  import opened CheatPack

  /** cheatRealCodes. */
  method CountReal(c: Cheat) returns (n: nat)
    ensures n == |RealCodes(c)|
  {
    hide HookAddr, TwoLine;
    var j, canHook := 0, true;
    n := 0;
    while j < |c.codes| && c.codes[j].addr != 0
      invariant j <= |c.codes| && n + |Real(c.codes, j, canHook)| == |RealCodes(c)|
    {
      hide Real;
      RealStep(c.codes, j, canHook);
      if !(HookAddr(c.codes[j].addr) && canHook) {
        n := n + 1;
      }
      canHook := !TwoLine(c.codes[j].addr);
      j := j + 1;
    }
  }

  /** The counting walk: how many rows and codes there will be, or None when a ticked cheat is refused. */
  method CountRows(cheats: seq<Cheat>, room: nat) returns (r: Option<(nat, nat)>)
    ensures r.None? <==> Refused(cheats, |cheats|, room)
    ensures r.Some? ==> var p := Laid(cheats, |cheats|, room); r.value == (|p.rows|, |p.codes|)
  {
    hide RealCodes, ShownName, RowFits;
    var i, count, pairs := 0, 0, 0;
    while i < |cheats|
      invariant i <= |cheats| && !Refused(cheats, i, room)
      invariant count == |Laid(cheats, i, room).rows| && pairs == |Laid(cheats, i, room).codes|
    {
      var n := CountReal(cheats[i]);
      if n != 0 {
        if !RowFits(count, pairs, n, room) {
          if cheats[i].enabled {
            RefusedLater(cheats, i + 1, |cheats|, room);
            return None;
          }
        } else {
          count, pairs := count + 1, pairs + n;
        }
      }
      i := i + 1;
    }
    r := Some((count, pairs));
  }

  lemma {:induction false} RefusedLater(cheats: seq<Cheat>, i: nat, n: nat, room: nat)
    requires i <= n <= |cheats| && Refused(cheats, i, room)
    ensures Refused(cheats, n, room)
    decreases n
  {
    hide RealCodes, Takes, Laid;
    if i < n {
      RefusedLater(cheats, i, n - 1, room);
    }
  }

  /** The real codes of one cheat into the page from pair p on. */
  method WriteCodes(c: Cheat, codes: array<Code>, from: nat) returns (p: nat)
    requires from + |RealCodes(c)| <= codes.Length
    modifies codes
    ensures p == from + |RealCodes(c)| && codes[..p] == old(codes[..from]) + RealCodes(c)
  {
    hide HookAddr, TwoLine;
    var j, canHook := 0, true;
    p := from;
    while j < |c.codes| && c.codes[j].addr != 0
      invariant j <= |c.codes| && from <= p <= codes.Length && p + |Real(c.codes, j, canHook)| == from + |RealCodes(c)|
      invariant codes[..p] + Real(c.codes, j, canHook) == old(codes[..from]) + RealCodes(c)
    {
      hide Real;
      RealStep(c.codes, j, canHook);
      ghost var done, rest := codes[..p], Real(c.codes, j + 1, !TwoLine(c.codes[j].addr));
      if !(HookAddr(c.codes[j].addr) && canHook) {
        assert done + ([c.codes[j]] + rest) == done + [c.codes[j]] + rest;
        codes[p] := c.codes[j];
        p := p + 1;
        assert codes[..p] == done + [c.codes[j]];
      } else {
        assert [] + rest == rest;
      }
      canHook := !TwoLine(c.codes[j].addr);
      j := j + 1;
    }
    assert codes[..p] + [] == codes[..p];
  }

  /**
   The writing walk: it takes the rows the counting walk took, so that every write is inside the rows and codes
   the counting walk made room for, and all of them are written.
   */
  method WriteRows(cheats: seq<Cheat>, room: nat, rows: array<Row>, codes: array<Code>)
    requires rows.Length == |Laid(cheats, |cheats|, room).rows| && codes.Length == |Laid(cheats, |cheats|, room).codes|
    modifies rows, codes
    ensures Page(rows[..], codes[..]) == Laid(cheats, |cheats|, room)
  {
    hide RealCodes, ShownName, RowFits, Laid;
    var i, r, p := 0, 0, 0;
    LaidNone(cheats, room);
    while i < |cheats| && r < rows.Length
      invariant i <= |cheats| && r <= rows.Length && 0 <= p <= codes.Length
      invariant Page(rows[..r], codes[..p]) == Laid(cheats, i, room)
    {
      LaidNext(cheats, i, room);
      LaidGrows(cheats, i + 1, |cheats|, room);
      var n := CountReal(cheats[i]);
      if n != 0 && RowFits(r, p, n, room) {
        ghost var done := rows[..r];
        rows[r] := Row(p, n, cheats[i].enabled, ShownName(cheats[i].name));
        assert rows[..r + 1] == done + [rows[r]];
        p := WriteCodes(cheats[i], codes, p);
        r := r + 1;
      }
      i := i + 1;
    }
    LaidGrows(cheats, i, |cheats|, room);
    assert rows[..r] == rows[..] && codes[..p] == codes[..];
  }

  lemma LaidNone(cheats: seq<Cheat>, room: nat)
    ensures Laid(cheats, 0, room) == Page([], [])
  {
  }

  lemma LaidNext(cheats: seq<Cheat>, i: nat, room: nat)
    requires i < |cheats|
    ensures var p, c := Laid(cheats, i, room), cheats[i];
            Laid(cheats, i + 1, room) ==
            if Takes(c, |p.rows|, |p.codes|, room) then
              Page(p.rows + [Row(|p.codes|, |RealCodes(c)|, c.enabled, ShownName(c.name))], p.codes + RealCodes(c))
            else p
  {
  }

  method CountTicked(rows: array<Row>) returns (on: nat)
    ensures on == OnTotal(rows[..], rows.Length)
  {
    on := 0;
    for k := 0 to rows.Length
      invariant on == OnTotal(rows[..], k)
    {
      if rows[k].on {
        on := on + rows[k].count;
      }
    }
  }

  /** From the last row backwards, rows are switched off until the rest fits one set. */
  method TakeTicksOff(rows: array<Row>)
    modifies rows
    ensures rows[..] == Unticked(old(rows[..]), CutAt(old(rows[..]), rows.Length))
  {
    hide OnTotal, CutAt, Unticked;
    ghost var was := rows[..];
    var i := rows.Length;
    assert rows[..] == Unticked(was, i);
    while i > 0
      invariant 0 <= i <= rows.Length && rows[..] == Unticked(was, i) && CutAt(was, i) == CutAt(was, rows.Length)
    {
      var on := CountTicked(rows);
      UntickedTotal(was, i, rows.Length);
      CutNext(was, i);
      if on <= SET_CODES {
        return;
      }
      i := i - 1;
      rows[i] := rows[i].(on := false);
      assert rows[..] == Unticked(was, i);
    }
  }

  lemma CutNext(rows: seq<Row>, c: nat)
    requires c <= |rows|
    ensures OnTotal(rows, c) <= SET_CODES ==> CutAt(rows, c) == c
    ensures OnTotal(rows, c) > SET_CODES ==> c > 0 && CutAt(rows, c) == CutAt(rows, c - 1)
  {
  }

  /** igrCheatsPack: the size returned and the page written in that size. */
  method Pack(cheats: seq<Cheat>, room: nat) returns (size: nat, page: Page)
    ensures size == 0 <==> Packed(cheats, room).None?
    ensures size > 0 ==> Packed(cheats, room) == Some(page) && size == Bytes(|page.rows|, |page.codes|) <= room
  {
    hide Laid, Refused, CutAt, Unticked;
    page := Page([], []);
    if room < Bytes(1, 1) {
      return 0, page;
    }
    var counted := CountRows(cheats, room);
    if counted.None? {
      return 0, page;
    }
    var (count, pairs) := counted.value;
    if count == 0 {
      return 0, page;
    }
    LaidFits(cheats, |cheats|, room);
    var rows := new Row[count](_ => Row(0, 0, false, ""));
    var codes := new Code[pairs](_ => Code(0, 0));
    WriteRows(cheats, room, rows, codes);
    ghost var was := rows[..];
    TakeTicksOff(rows);
    size := Bytes(count, pairs);
    page := Page(rows[..], codes[..]);
  }
}
