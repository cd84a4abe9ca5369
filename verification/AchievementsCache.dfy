/** The scanner's loops, the cached list and its pages (src/achievements.c). */
module AchievementsCache {
  import opened Text
  import opened Json
  import opened JsonObjects
  import opened Achievements

  // ----- the scanner -----

  /** jsonWs. */
  method SkipBlanks(s: string, start: nat) returns (p: nat)
    requires start <= |s|
    ensures p == Ws(s, start)
  {
    p := start;
    while p < |s| && IsJsonWs(s[p])
      invariant start <= p <= |s| && Ws(s, p) == Ws(s, start)
    {
      p := p + 1;
    }
  }

  /** jsonString with no output buffer. */
  method ScanString(s: string, start: nat) returns (end: Option<nat>)
    requires start <= |s|
    ensures end == if start < |s| && s[start] == '"' then StringEnd(s, start + 1) else None
  {
    if start >= |s| || s[start] != '"' {
      return None;
    }
    var p := start + 1;
    while p < |s| && s[p] != '"'
      invariant start < p <= |s| && StringEnd(s, p) == StringEnd(s, start + 1)
    {
      if s[p] == '\\' {
        p := p + 1;
        if p >= |s| {
          return None;
        }
        if s[p] == 'u' {
          if p + 4 >= |s| {
            return None;
          }
          p := p + 4;
        }
      }
      p := p + 1;
    }
    end := if p < |s| then Some(p + 1) else None;
  }

  /** One turn of the decoding loop. */
  lemma DecodeTurn(s: string, p: nat, out: string, size: nat)
    requires p < |s| && s[p] != '"'
    ensures var r := Decode(s, p, out, size);
            if s[p] == '\\' then
              if p + 1 == |s| then r == None
              else if s[p + 1] != 'u' then r == Decode(s, p + 2, Fit(out, ShortBytes(s[p + 1]), size), size)
              else if p + 5 >= |s| then r == None
              else r == Decode(s, p + 6, Fit(out, HexBytes(s[p + 2], s[p + 3], s[p + 4], s[p + 5]), size), size)
            else if |out| + 1 >= size then r == Decode(s, p + 1, out, size)
            else if p + LeadLen(s[p]) > |s| then r == Decode(s, p + LeadLen(s[p]), out, size)
            else r == Decode(s, p + LeadLen(s[p]), Fit(out, s[p..p + LeadLen(s[p])], size), size)
  {
    hide Fit, HexBytes, ShortBytes, LeadLen;
  }

  lemma DecodeStops(s: string, p: nat, out: string, size: nat)
    requires p >= |s| || s[p] == '"'
    ensures Decode(s, p, out, size) == if p < |s| then Some((p + 1, out)) else None
  {
  }

  /** jsonString decoding into a buffer of the given size. */
  method DecodeString(s: string, start: nat, size: nat) returns (end: Option<nat>, text: string)
    ensures JsonString(s, start, size) == if end.Some? then Some((end.value, text)) else None
  {
    hide Decode, Fit, HexBytes, ShortBytes, LeadLen;
    text := "";
    if start >= |s| || s[start] != '"' {
      return None, text;
    }
    var p := start + 1;
    while p < |s| && s[p] != '"'
      invariant start < p
      invariant Decode(s, p, text, size) == Decode(s, start + 1, "", size)
      decreases |s| - p
    {
      DecodeTurn(s, p, text, size);
      if s[p] == '\\' {
        if p + 1 >= |s| {
          return None, text;
        }
        if s[p + 1] != 'u' {
          text := Fit(text, ShortBytes(s[p + 1]), size);
          p := p + 2;
        } else {
          if p + 5 >= |s| {
            return None, text;
          }
          text := Fit(text, HexBytes(s[p + 2], s[p + 3], s[p + 4], s[p + 5]), size);
          p := p + 6;
        }
      } else if |text| + 1 < size {
        var n := LeadLen(s[p]);
        if p + n <= |s| {
          text := Fit(text, s[p..p + n], size);
        }
        p := p + n;
      } else {
        p := p + 1;
      }
    }
    DecodeStops(s, p, text, size);
    end := if p < |s| then Some(p + 1) else None;
  }

  /** jsonSkip: its nesting counter stands for the depth of the recursive scan. */
  method SkipAny(s: string, start: nat) returns (end: Option<nat>)
    requires start <= |s|
    ensures end == Skip(s, start)
  {
    var p := SkipBlanks(s, start);
    ghost var from := p;
    var depth := 0;
    var first := true;
    while first || depth > 0
      invariant from <= p <= |s| && depth >= 0
      invariant first ==> depth == 0 && p == from
      invariant if first || depth > 0 then SkipFrom(s, p, depth) == SkipFrom(s, from, 0) else SkipFrom(s, from, 0) == Some(p)
      decreases |s| - p, if first then 1 else 0
    {
      first := false;
      if p >= |s| {
        return None;
      }
      if s[p] == '"' {
        var q := ScanString(s, p);
        if q.None? {
          return None;
        }
        p := q.value;
      } else if s[p] == '{' || s[p] == '[' {
        depth := depth + 1;
        p := p + 1;
      } else if s[p] == '}' || s[p] == ']' {
        if depth == 0 {
          return None;
        }
        depth := depth - 1;
        p := p + 1;
      } else if depth == 0 {
        ghost var q := p;
        while p < |s| && !IsDelimiter(s[p])
          invariant q <= p <= |s| && ScalarEnd(s, p) == ScalarEnd(s, q)
        {
          p := p + 1;
        }
        return Some(p);
      } else {
        p := p + 1;
      }
    }
    end := Some(p);
  }

  ghost function Onto(visits: seq<Visit>, more: Option<(nat, seq<Visit>)>): Option<(nat, seq<Visit>)> {
    if more.None? then None else Some((more.value.0, visits + more.value.1))
  }

  lemma OntoStep(s: string, p: nat, visits: seq<Visit>, visit: Visit, next: nat)
    requires Turns(s, p, visit, next) && s[next] == ','
    ensures Onto(visits, Walk(s, p)) == Onto(visits + [visit], Walk(s, next + 1))
  {
    hide WalkKey, WalkValue;
    if Walk(s, next + 1).Some? {
      assert visits + ([visit] + Walk(s, next + 1).value.1) == visits + [visit] + Walk(s, next + 1).value.1;
    }
  }

  lemma OntoLast(s: string, p: nat, visits: seq<Visit>, visit: Visit, next: nat)
    requires Turns(s, p, visit, next)
    ensures s[next] == '}' ==> Onto(visits, Walk(s, p)) == Some((next + 1, visits + [visit]))
    ensures s[next] != '}' && s[next] != ',' ==> Walk(s, p) == None
  {
    hide WalkKey, WalkValue;
  }

  /** The part of jsonObject's loop up to the callback. */
  method ScanKey(s: string, p: nat) returns (visit: Option<Visit>)
    requires p <= |s|
    ensures visit == WalkKey(s, p)
  {
    hide JsonString;
    var q := SkipBlanks(s, p);
    var end, key := DecodeString(s, q, KEY_SIZE);
    if end.None? {
      return None;
    }
    var colon := SkipBlanks(s, end.value);
    if colon >= |s| || s[colon] != ':' {
      return None;
    }
    var v := SkipBlanks(s, colon + 1);
    visit := Some(Visit(key, v));
  }

  /** What one turn adds to the callbacks made. */
  lemma CalledTurn(s: string, p: nat, visits: seq<Visit>)
    requires p <= |s|
    ensures p == |s| || WalkKey(s, p).None? ==> visits + Called(s, p) == visits
    ensures p < |s| && WalkKey(s, p).Some? ==>
              var visit := WalkKey(s, p).value; var next := WalkValue(s, visit.at);
              visits + Called(s, p) ==
              visits + [visit] + if next.Some? && s[next.value] == ',' then Called(s, next.value + 1) else []
  {
    hide WalkKey, WalkValue;
  }

  /** jsonObject's loop: where it ends, if it does, and the callbacks it makes in any case. */
  method ScanMembers(s: string, from: nat) returns (end: Option<nat>, visits: seq<Visit>)
    requires from <= |s|
    ensures Walk(s, from) == if end.Some? then Some((end.value, visits)) else None
    ensures visits == Called(s, from)
  {
    hide Walk, WalkKey, WalkValue, Ws, Skip, Called;
    var p := from;
    visits := [];
    assert [] + Called(s, p) == Called(s, p);
    assert Walk(s, p).Some? ==> [] + Walk(s, p).value.1 == Walk(s, p).value.1;
    while p < |s|
      invariant from <= p <= |s| && Onto(visits, Walk(s, p)) == Walk(s, from) && visits + Called(s, p) == Called(s, from)
    {
      var visit := ScanKey(s, p);
      WalkLost(s, p);
      CalledTurn(s, p, visits);
      if visit.None? {
        return None, visits;
      }
      ghost var before := visits;
      visits := visits + [visit.value];
      assert visits + [] == visits;
      var q := SkipAny(s, visit.value.at);
      if q.None? {
        ValueLost(s, visit.value.at);
        return None, visits;
      }
      var next := SkipBlanks(s, q.value);
      if next >= |s| {
        ValueLost(s, visit.value.at);
        return None, visits;
      }
      ValueEnds(s, visit.value.at);
      OntoLast(s, p, before, visit.value, next);
      if s[next] == '}' {
        return Some(next + 1), visits;
      }
      if s[next] != ',' {
        return None, visits;
      }
      OntoStep(s, p, before, visit.value, next);
      p := next + 1;
    }
    WalkLost(s, p);
    CalledTurn(s, p, visits);
    end := None;
  }

  /** jsonObject: where it ends, if it does, and the callbacks it makes in any case, in order. */
  method ScanObject(s: string, start: nat) returns (end: Option<nat>, visits: seq<Visit>)
    requires start <= |s|
    ensures Object(s, start) == if end.Some? then Some((end.value, visits)) else None
    ensures visits == CalledBy(s, start)
  {
    hide Walk, Called;
    var p := SkipBlanks(s, start);
    if p >= |s| || s[p] != '{' {
      return None, [];
    }
    p := SkipBlanks(s, p + 1);
    if p < |s| && s[p] == '}' {
      return Some(p + 1), [];
    }
    end, visits := ScanMembers(s, p);
  }

  lemma WalkLost(s: string, p: nat)
    requires p <= |s|
    ensures p == |s| || WalkKey(s, p).None? || WalkValue(s, WalkKey(s, p).value.at).None? ==> Walk(s, p) == None
  {
    hide WalkKey, WalkValue;
  }

  lemma ValueLost(s: string, v: nat)
    requires v <= |s| && (Skip(s, v).None? || Ws(s, Skip(s, v).value) == |s|)
    ensures WalkValue(s, v) == None
  {
  }

  lemma ValueEnds(s: string, v: nat)
    requires v <= |s| && Skip(s, v).Some? && Ws(s, Skip(s, v).value) < |s|
    ensures WalkValue(s, v) == Some(Ws(s, Skip(s, v).value))
  {
  }

  // ----- the cache -----

  /** Which entries a filter lets through: 0 all, 1 earned, 2 locked, 3 hardcore; only for one game's set. */
  predicate Shown(kind: char, filter: int, a: Entry) {
    kind == 'A' ==> (filter == 1 ==> a.earned != 0) && (filter == 2 ==> a.earned == 0) && (filter == 3 ==> a.hardcore != 0)
  }

  function Shows(kind: char, filter: int, list: seq<Entry>): (r: seq<Entry>)
    ensures |r| <= |list|
    decreases |list|
  {
    if list == [] then [] else
      var n := |list| - 1;
      Shows(kind, filter, list[..n]) + if Shown(kind, filter, list[n]) then [list[n]] else []
  }

  lemma ShowsNext(kind: char, filter: int, list: seq<Entry>, i: nat)
    requires i < |list|
    ensures Shows(kind, filter, list[..i + 1]) ==
            Shows(kind, filter, list[..i]) + if Shown(kind, filter, list[i]) then [list[i]] else []
  {
    assert list[..i + 1][..i] == list[..i];
  }

  const PAGE_SIZE: nat := 3

  /** The entries of a page: three from position 3 * page on, or fewer at the end. */
  function PageOf(matches: seq<Entry>, page: int): (r: seq<Entry>)
    ensures |r| <= PAGE_SIZE
  {
    var from := if page < 0 then 0 else if PAGE_SIZE * page <= |matches| then PAGE_SIZE * page else |matches|;
    if from + PAGE_SIZE <= |matches| then matches[from..from + PAGE_SIZE] else matches[from..]
  }

  lemma PageNext(matches: seq<Entry>, page: int, a: Entry)
    ensures PageOf(matches + [a], page) ==
            if |matches| >= page * PAGE_SIZE && |PageOf(matches, page)| < PAGE_SIZE then PageOf(matches, page) + [a]
            else PageOf(matches, page)
  {
    var m, n, k := matches + [a], |matches|, if page < 0 then 0 else PAGE_SIZE * page;
    if k + PAGE_SIZE <= n {
      assert m[k..k + PAGE_SIZE] == matches[k..k + PAGE_SIZE];
    } else if k <= n {
      assert m[k..] == matches[k..] + [a];
      assert k + PAGE_SIZE == n + 1 ==> m[k..k + PAGE_SIZE] == m[k..];
    } else {
      assert m[n + 1..] == [] && matches[n..] == [];
    }
  }

  lemma NothingShown(kind: char, filter: int, page: int)
    ensures Shows(kind, filter, []) == [] && PageOf([], page) == []
  {
  }

  /** Pages 0 .. n - 1 one after the other. */
  function Pages(matches: seq<Entry>, n: nat): seq<Entry> {
    if n == 0 then [] else Pages(matches, n - 1) + PageOf(matches, n - 1)
  }

  /** Paging loses nothing, repeats nothing and keeps the order. */
  lemma {:induction false} PagesAre(matches: seq<Entry>, n: nat)
    ensures Pages(matches, n) == if PAGE_SIZE * n <= |matches| then matches[..PAGE_SIZE * n] else matches
  {
    if n > 0 {
      PagesAre(matches, n - 1);
    }
  }

  datatype Page = Page(kind: char, page: int, gameId: int, earned: nat, maximum: nat, title: string, entries: seq<Entry>, total: nat)

  function SumTotals(list: seq<Entry>): nat
    decreases |list|
  {
    if list == [] then 0 else SumTotals(list[..|list| - 1]) + list[|list| - 1].total
  }

  function SumEarned(list: seq<Entry>): nat
    decreases |list|
  {
    if list == [] then 0 else SumEarned(list[..|list| - 1]) + list[|list| - 1].earned
  }

  /** The statics behind the achievement browser. */
  class Cache {
    var list: seq<Entry>
    var listKind: char
    var id: int
    var title: string
    var earned: nat
    var maximum: nat

    constructor ()
      ensures list == [] && id == -1
    {
      list, listKind, id, title, earned, maximum := [], 'G', -1, "", 0, 0;
    }

    /** The root walk of achievementsParseXerabora. */
    method TakeRoot(kind: char, visits: seq<Visit>, json: string) returns (place: Option<nat>)
      modifies this
      ensures var x := FoldRoot(kind, json, NO_ROOT, visits);
              title == x.title && earned == x.earned && maximum == x.maximum && place == x.place
      ensures list == old(list) && listKind == old(listKind) && id == old(id)
    {
      var x, i := NO_ROOT, 0;
      assert visits[0..] == visits;
      while i < |visits|
        invariant i <= |visits|
        invariant FoldRoot(kind, json, x, visits[i..]) == FoldRoot(kind, json, NO_ROOT, visits)
      {
        hide RootMember;
        assert visits[i..][1..] == visits[i + 1..];
        x := RootMember(kind, json, x, visits[i]);
        i := i + 1;
      }
      title, earned, maximum, place := x.title, x.earned, x.maximum, x.place;
    }

    /** The sums over a library's entries. */
    method AddTotals()
      modifies this`earned, this`maximum
      ensures maximum == old(maximum) + SumTotals(list) && earned == old(earned) + SumEarned(list)
    {
      var i := 0;
      while i < |list|
        invariant i <= |list|
        invariant maximum == old(maximum) + SumTotals(list[..i]) && earned == old(earned) + SumEarned(list[..i])
      {
        assert list[..i + 1][..i] == list[..i];
        maximum, earned := maximum + list[i].total, earned + list[i].earned;
        i := i + 1;
      }
      assert list[..i] == list;
    }

    /**
     achievementsParseXerabora: on success the list is replaced by what the document says, on failure it is kept. Title
     and totals are in any case those of the root members met; a library's totals are then the sums over its entries.
     */
    method Parse(kind: char, json: string) returns (ok: bool)
      modifies this
      ensures ok <==> ParseList(kind, json).Some?
      ensures id == old(id)
      ensures !ok ==> list == old(list) && listKind == old(listKind)
      ensures ok ==> list == ParseList(kind, json).value && listKind == kind
      ensures var x, sums := FoldRoot(kind, json, NO_ROOT, CalledBy(json, 0)), ok && kind == 'G';
              && title == x.title
              && maximum == x.maximum + (if sums then SumTotals(list) else 0)
              && earned == x.earned + (if sums then SumEarned(list) else 0)
    {
      hide Object, ParseItems, FoldRoot, CalledBy;
      var end, visits := ScanObject(json, 0);
      var place := TakeRoot(kind, visits, json);
      if end.None? || place.None? || place.value >= |json| {
        return false;
      }
      var p := SkipBlanks(json, place.value + 1);
      var entries := ScanItems(kind, json, p);
      if entries.None? {
        return false;
      }
      list, listKind := entries.value, kind;
      if kind == 'G' {
        AddTotals();
      }
      ok := true;
    }

    /** achievementsXeraboraPage. */
    method ServePage(kind: char, page: int, filter: int) returns (out: Page)
      ensures out == Page(kind, page, if kind == 'A' then id else 0, earned, maximum, if kind == 'A' then title else "",
                          PageOf(Shows(kind, filter, list), page), |Shows(kind, filter, list)|)
    {
      hide Shown, PageOf, Shows;
      var entries: seq<Entry>, matched, i := [], 0, 0;
      NothingShown(kind, filter, page);
      while i < |list|
        invariant i <= |list|
        invariant matched == |Shows(kind, filter, list[..i])| && entries == PageOf(Shows(kind, filter, list[..i]), page)
      {
        ShowsNext(kind, filter, list, i);
        assert Shows(kind, filter, list[..i]) + [] == Shows(kind, filter, list[..i]);
        PageNext(Shows(kind, filter, list[..i]), page, list[i]);
        if Shown(kind, filter, list[i]) {
          if matched >= page * PAGE_SIZE && |entries| < PAGE_SIZE {
            entries := entries + [list[i]];
          }
          matched := matched + 1;
        }
        i := i + 1;
      }
      assert list[..i] == list;
      out := Page(kind, page, if kind == 'A' then id else 0, earned, maximum, if kind == 'A' then title else "", entries, matched);
    }
  }

  /** jsonObject with the entry callback, on a cleared entry. */
  method ScanEntry(kind: char, json: string, visits: seq<Visit>) returns (a: Entry)
    ensures a == FoldEntry(kind, json, BLANK, visits)
  {
    var i := 0;
    a := BLANK;
    assert visits[0..] == visits;
    while i < |visits|
      invariant i <= |visits| && FoldEntry(kind, json, a, visits[i..]) == FoldEntry(kind, json, BLANK, visits)
    {
      hide EntryMember;
      assert visits[i..][1..] == visits[i + 1..];
      a := EntryMember(kind, json, a, visits[i]);
      i := i + 1;
    }
  }

  /** The element loop of achievementsParseXerabora. */
  method ScanItems(kind: char, json: string, from: nat) returns (r: Option<seq<Entry>>)
    requires from <= |json|
    ensures r == ParseItems(kind, json, from, [])
  {
    hide Object, FoldEntry;
    var p, list: seq<Entry> := from, [];
    while p < |json| && json[p] != ']'
      invariant from <= p <= |json| && ParseItems(kind, json, p, list) == ParseItems(kind, json, from, [])
      decreases |json| - p
    {
      if |list| == LIST_MAX {
        break;
      }
      var end, visits := ScanObject(json, p);
      if end.None? {
        return None;
      }
      var a := ScanEntry(kind, json, visits);
      list := Kept(list, a);
      p := SkipBlanks(json, end.value);
      if p < |json| && json[p] == ',' {
        p := SkipBlanks(json, p + 1);
      }
    }
    r := Some(list);
  }

  // ----- across calls -----

  /** No entry carries a hardcore mark. */
  ghost predicate NoMark(list: seq<Entry>) {
    forall i :: 0 <= i < |list| ==> list[i].hardcore == 0
  }

  lemma {:induction false} NoMarkEntry(s: string, a: Entry, visits: seq<Visit>)
    ensures FoldEntry('A', s, a, visits).hardcore == a.hardcore
    decreases |visits|
  {
    hide IntAt, Field, QuoteAt, CStr;
    if visits != [] {
      NoMarkEntry(s, EntryMember('A', s, a, visits[0]), visits[1..]);
    }
  }

  lemma {:induction false} NoMarkItems(s: string, p: nat, list: seq<Entry>)
    requires p <= |s| && NoMark(list) && ParseItems('A', s, p, list).Some?
    ensures NoMark(ParseItems('A', s, p, list).value)
    decreases |s| - p
  {
    hide Object, FoldEntry, AfterComma;
    if p < |s| && s[p] != ']' && |list| != LIST_MAX {
      var walk := Object(s, p).value;
      NoMarkEntry(s, BLANK, walk.1);
      NoMarkItems(s, AfterComma(s, walk.0), Kept(list, FoldEntry('A', s, BLANK, walk.1)));
    }
  }

  lemma {:induction false} NoMarkShows(list: seq<Entry>)
    requires NoMark(list)
    ensures Shows('A', 3, list) == []
    decreases |list|
  {
    if list != [] {
      NoMarkShows(list[..|list| - 1]);
    }
  }

  /** Whatever document is parsed as one game's set, its list carries no hardcore mark and that filter shows nothing. */
  lemma NoHardcore(s: string)
    requires ParseList('A', s).Some?
    ensures NoMark(ParseList('A', s).value) && Shows('A', 3, ParseList('A', s).value) == []
  {
    hide ParseItems, ParseRoot, Shows, Ws;
    var v := ParseRoot('A', s).value.place.value;
    NoMarkItems(s, Ws(s, v + 1), []);
    NoMarkShows(ParseList('A', s).value);
  }

  predicate AllEarned(list: seq<Entry>) {
    forall i :: 0 <= i < |list| ==> list[i].earned > 0
  }

  predicate AllLocked(list: seq<Entry>) {
    forall i :: 0 <= i < |list| ==> list[i].earned == 0
  }

  /** One game's filters show earned entries only and locked ones only; a library, and filter 0, show everything. */
  lemma {:induction false} FiltersShow(list: seq<Entry>, filter: int)
    ensures AllEarned(Shows('A', 1, list)) && AllLocked(Shows('A', 2, list))
    ensures Shows('G', filter, list) == list && Shows('A', 0, list) == list
    decreases |list|
  {
    if list != [] {
      var n := |list| - 1;
      assert list == list[..n] + [list[n]];
      FiltersShow(list[..n], filter);
    }
  }

  /** The filters 1 and 2 split one game's list: every entry is shown by exactly one of them. */
  lemma {:induction false} EarnedAndLockedSplit(list: seq<Entry>)
    ensures multiset(Shows('A', 1, list)) + multiset(Shows('A', 2, list)) == multiset(list)
    decreases |list|
  {
    if list != [] {
      var n := |list| - 1;
      assert list == list[..n] + [list[n]];
      EarnedAndLockedSplit(list[..n]);
    }
  }
}
