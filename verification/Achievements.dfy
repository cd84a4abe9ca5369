/** The cached achievement list: parsing a document into it and serving pages of it (src/achievements.c). */
module Achievements {
  import opened Text
  import opened Json
  import opened JsonObjects

  const LIST_MAX: nat := 1024
  const TITLE_SIZE: nat := 57
  const DESCRIPTION_SIZE: nat := 101
  const DATE_SIZE: nat := 20
  const INT_MAX: nat := 10000000

  /** kind is 'G' for a library of games, 'A' for one game's set. */
  datatype Entry = Entry(
    id: nat, title: string, description: string, date: string,
    points: nat, total: nat, earned: nat, hardcore: nat)

  const BLANK: Entry := Entry(0, "", "", "", 0, 0, 0, 0)

  /** A buffer as C reads it: up to the first NUL. */
  function CStr(t: string): string {
    t[..IndexOf(t, 0 as char)]
  }

  // ----- integers -----

  function SpaceEnd(s: string, p: nat): (q: nat)
    ensures p <= q
    decreases |s| - p
  {
    if p < |s| && IsSpace(s[p]) then SpaceEnd(s, p + 1) else p
  }

  function Digits(s: string, p: nat, n: nat): nat
    decreases |s| - p
  {
    if p < |s| && IsDigit(s[p]) then Digits(s, p + 1, 10 * n + (s[p] as int - '0' as int)) else n
  }

  /** jsonInt: strtol in base ten, clamped to 0 .. 10000000. */
  function IntAt(s: string, p: nat): (n: nat)
    ensures n <= INT_MAX
  {
    var q := SpaceEnd(s, p);
    if q < |s| && s[q] == '-' then 0 else
      var n := Digits(s, if q < |s| && s[q] == '+' then q + 1 else q, 0);
      if n > INT_MAX then INT_MAX else n
  }

  // ----- callbacks -----

  predicate QuoteAt(s: string, v: nat) {
    v < |s| && s[v] == '"'
  }

  /** What jsonString leaves in a cleared buffer. */
  function Field(s: string, v: nat, size: nat): string {
    match JsonString(s, v, size)
    case Some(r) => CStr(r.1)
    case None => ""
  }

  /** xeraEntryMember. */
  function EntryMember(kind: char, s: string, a: Entry, visit: Visit): Entry {
    var key, v := CStr(visit.key), visit.at;
    if key == "id" then a.(id := IntAt(s, v))
    else if key == "title" && QuoteAt(s, v) then a.(title := Field(s, v, TITLE_SIZE))
    else if key == "description" && QuoteAt(s, v) then a.(description := Field(s, v, DESCRIPTION_SIZE))
    else if key == "points" then a.(points := IntAt(s, v))
    else if kind == 'G' && key == "total" then a.(total := IntAt(s, v))
    else if kind == 'G' && key == "awarded" then a.(earned := IntAt(s, v))
    else if kind == 'G' && key == "hardcore" then a.(hardcore := IntAt(s, v))
    else if kind == 'A' && key == "earned" && QuoteAt(s, v) then
      var date := Field(s, v, DATE_SIZE);
      a.(date := date, earned := if date != "" then 1 else 0)
    else a
  }

  function FoldEntry(kind: char, s: string, a: Entry, visits: seq<Visit>): Entry
    decreases |visits|
  {
    if visits == [] then a else FoldEntry(kind, s, EntryMember(kind, s, a, visits[0]), visits[1..])
  }

  /** What the root members set; place is the position of the list. */
  datatype Root = Root(title: string, maximum: nat, earned: nat, place: Option<nat>)

  const NO_ROOT: Root := Root("", 0, 0, None)

  function ListKey(kind: char): string {
    if kind == 'G' then "games" else "achievements"
  }

  /** xeraRootMember. */
  function RootMember(kind: char, s: string, x: Root, visit: Visit): Root {
    var key, v := CStr(visit.key), visit.at;
    if key == ListKey(kind) && v < |s| && s[v] == '[' then x.(place := Some(v))
    else if kind == 'A' && key == "title" && QuoteAt(s, v) then x.(title := Field(s, v, TITLE_SIZE))
    else if kind == 'A' && key == "total" then x.(maximum := IntAt(s, v))
    else if kind == 'A' && key == "awarded" then x.(earned := IntAt(s, v))
    else x
  }

  function FoldRoot(kind: char, s: string, x: Root, visits: seq<Visit>): Root
    decreases |visits|
  {
    if visits == [] then x else FoldRoot(kind, s, RootMember(kind, s, x, visits[0]), visits[1..])
  }

  // ----- the document -----

  function Kept(list: seq<Entry>, a: Entry): seq<Entry> {
    if a.id > 0 then list + [a] else list
  }

  /** Past the comma after an element, if there is one. */
  function AfterComma(s: string, p: nat): (q: nat)
    requires p <= |s|
    ensures p <= q <= |s|
  {
    var q := Ws(s, p);
    if q < |s| && s[q] == ',' then Ws(s, q + 1) else q
  }

  /** The element loop of achievementsParseXerabora. */
  function ParseItems(kind: char, s: string, p: nat, list: seq<Entry>): Option<seq<Entry>>
    requires p <= |s|
    decreases |s| - p
  {
    if p == |s| || s[p] == ']' || |list| == LIST_MAX then Some(list) else
      var walk :- Object(s, p);
      ParseItems(kind, s, AfterComma(s, walk.0), Kept(list, FoldEntry(kind, s, BLANK, walk.1)))
  }

  function ParseRoot(kind: char, s: string): Option<Root> {
    var walk :- Object(s, 0);
    Some(FoldRoot(kind, s, NO_ROOT, walk.1))
  }

  function ParseList(kind: char, s: string): Option<seq<Entry>> {
    var x :- ParseRoot(kind, s);
    var v :- x.place;
    if v < |s| then ParseItems(kind, s, Ws(s, v + 1), []) else None
  }

  // ----- what a document says, read off its tree -----

  function IntOf(v: Json): (n: nat)
    ensures n <= INT_MAX
  {
    if v.Scalar? then IntAt(v.text, 0) else 0
  }

  function FieldOf(us: seq<Unit>, size: nat): string {
    CStr(TextOf(us, "", size))
  }

  function EntryWith(kind: char, a: Entry, name: string, v: Json): Entry {
    if name == "id" then a.(id := IntOf(v))
    else if name == "title" && v.Str? then a.(title := FieldOf(v.units, TITLE_SIZE))
    else if name == "description" && v.Str? then a.(description := FieldOf(v.units, DESCRIPTION_SIZE))
    else if name == "points" then a.(points := IntOf(v))
    else if kind == 'G' && name == "total" then a.(total := IntOf(v))
    else if kind == 'G' && name == "awarded" then a.(earned := IntOf(v))
    else if kind == 'G' && name == "hardcore" then a.(hardcore := IntOf(v))
    else if kind == 'A' && name == "earned" && v.Str? then
      var date := FieldOf(v.units, DATE_SIZE);
      a.(date := date, earned := if date != "" then 1 else 0)
    else a
  }

  /** The entry an object's members describe, later members over earlier ones. */
  function EntryOf(kind: char, a: Entry, m: Members): Entry
    decreases m
  {
    if m.NoMembers? then a else EntryOf(kind, EntryWith(kind, a, FieldOf(m.key, KEY_SIZE), m.value), m.rest)
  }

  predicate AllObjects(items: Items)
    decreases items
  {
    items.NoItems? || (items.value.Obj? && AllObjects(items.rest))
  }

  /** The entries with a positive id, in order. */
  function Entries(kind: char, items: Items): seq<Entry>
    requires AllObjects(items)
    decreases items
  {
    if items.NoItems? then [] else Kept([], EntryOf(kind, BLANK, items.value.members)) + Entries(kind, items.rest)
  }

  datatype Summary = Summary(title: string, maximum: nat, earned: nat, list: Option<Items>)

  const NO_SUMMARY: Summary := Summary("", 0, 0, None)

  function SummaryWith(kind: char, x: Summary, name: string, v: Json): Summary {
    if name == ListKey(kind) && v.Arr? then x.(list := Some(v.items))
    else if kind == 'A' && name == "title" && v.Str? then x.(title := FieldOf(v.units, TITLE_SIZE))
    else if kind == 'A' && name == "total" then x.(maximum := IntOf(v))
    else if kind == 'A' && name == "awarded" then x.(earned := IntOf(v))
    else x
  }

  /** What the root object says, later members over earlier ones. */
  function SummaryOf(kind: char, x: Summary, m: Members): Summary
    decreases m
  {
    if m.NoMembers? then x else SummaryOf(kind, SummaryWith(kind, x, FieldOf(m.key, KEY_SIZE), m.value), m.rest)
  }

  // ----- integers in a document -----

  /** Digits of a scalar in place are the digits of its text. */
  lemma {:induction false} DigitsAt(s: string, p: nat, t: string, i: nat, n: nat)
    requires i <= |t| && p + |t| < |s| && ScalarAt(s, p, t, i) && !IsDigit(s[p + |t|])
    ensures Digits(s, p + i, n) == Digits(t, i, n)
    decreases |t| - i
  {
    if i < |t| && IsDigit(t[i]) {
      DigitsAt(s, p, t, i + 1, 10 * n + (t[i] as int - '0' as int));
    }
  }

  lemma ScalarInt(s: string, p: nat, t: string)
    requires t != "" && p + |t| < |s| && ScalarAt(s, p, t, 0) && !IsDigit(s[p + |t|])
    ensures IntAt(s, p) == IntAt(t, 0)
  {
    assert s[p] == t[0];
    assert SpaceEnd(s, p) == p && SpaceEnd(t, 0) == 0;
    if t[0] == '+' {
      assert ScalarAt(s, p, t, 1);
      DigitsAt(s, p, t, 1, 0);
    } else {
      DigitsAt(s, p, t, 0, 0);
    }
  }

  /** The value is followed by a byte that cannot continue a number. */
  predicate Ended(s: string, p: nat) {
    p < |s| && !IsDigit(s[p])
  }

  lemma ValueInt(s: string, p: nat, v: Json)
    requires Match(s, p, v).Some? && Ended(s, Match(s, p, v).value)
    ensures IntAt(s, p) == IntOf(v)
  {
    FirstChar(s, p, v);
    if v.Scalar? {
      ScalarInt(s, p, v.text);
    } else {
      assert SpaceEnd(s, p) == p;
    }
  }

  /** One matched member: its value's place and what ends it. */
  lemma ValueEnded(s: string, q: nat, n: nat)
    requires MatchWs(s, q, n).Some? && Ended(s, MatchWs(s, q, n).value)
    ensures Ended(s, q)
  {
  }

  lemma ValueField(s: string, p: nat, v: Json, size: nat)
    requires Match(s, p, v).Some?
    ensures QuoteAt(s, p) <==> v.Str?
    ensures v.Str? ==> Field(s, p, size) == FieldOf(v.units, size)
  {
    FirstChar(s, p, v);
    if v.Str? {
      StringAt(s, p, v.units, size);
    }
  }

  // ----- callbacks on matched members -----

  lemma EntryMemberAt(kind: char, s: string, a: Entry, us: seq<Unit>, p: nat, v: Json)
    requires Match(s, p, v).Some? && Ended(s, Match(s, p, v).value)
    ensures EntryMember(kind, s, a, Visit(TextOf(us, "", KEY_SIZE), p)) == EntryWith(kind, a, FieldOf(us, KEY_SIZE), v)
  {
    hide Match, IntAt, CStr, Field, FieldOf, IntOf, QuoteAt;
    ValueInt(s, p, v);
    ValueField(s, p, v, TITLE_SIZE);
    ValueField(s, p, v, DESCRIPTION_SIZE);
    ValueField(s, p, v, DATE_SIZE);
    KeyText(us);
  }

  lemma KeyText(us: seq<Unit>)
    ensures CStr(TextOf(us, "", KEY_SIZE)) == FieldOf(us, KEY_SIZE)
  {
  }

  /** The position-based root agrees with the tree-based one. */
  ghost predicate Agrees(s: string, x: Root, y: Summary) {
    && x.title == y.title && x.maximum == y.maximum && x.earned == y.earned
    && (x.place.None? <==> y.list.None?)
    && (x.place.Some? ==> ListAt(s, x.place.value, y.list.value))
  }

  /** The text of an array with these elements stands at p. */
  ghost predicate ListAt(s: string, p: nat, items: Items) {
    exists ws: nat :: Match(s, p, Arr(ws, items)).Some?
  }

  lemma RootMemberAt(kind: char, s: string, x: Root, y: Summary, us: seq<Unit>, p: nat, v: Json)
    requires Match(s, p, v).Some? && Ended(s, Match(s, p, v).value) && Agrees(s, x, y)
    ensures Agrees(s, RootMember(kind, s, x, Visit(TextOf(us, "", KEY_SIZE), p)), SummaryWith(kind, y, FieldOf(us, KEY_SIZE), v))
  {
    hide Match, IntAt, CStr, Field, FieldOf, IntOf, QuoteAt, ListAt;
    ValueInt(s, p, v);
    ValueField(s, p, v, TITLE_SIZE);
    FirstChar(s, p, v);
    KeyText(us);
    if v.Arr? {
      ListHere(s, p, v);
    }
  }

  lemma ListHere(s: string, p: nat, v: Json)
    requires v.Arr? && Match(s, p, v).Some?
    ensures ListAt(s, p, v.items)
  {
    assert v == Arr(v.ws, v.items);
  }

  /** The first of matched members: its value is matched and ended, and the rest is matched. */
  lemma FirstMember(s: string, p: nat, m: Members)
    requires m.Member? && MatchMembers(s, p, m).Some? && Ended(s, MatchMembers(s, p, m).value)
    ensures MatchHead(s, p, m).Some? && Match(s, MatchHead(s, p, m).value, m.value).Some?
    ensures Ended(s, Match(s, MatchHead(s, p, m).value, m.value).value)
    ensures MatchMember(s, p, m).Some?
    ensures var c := MatchMember(s, p, m).value;
            m.rest.Member? ==> MatchMembers(s, c + 1, m.rest) == MatchMembers(s, p, m)
  {
    hide Match, MatchHead, MatchMember, MatchMembers, MatchWs;
    UnfoldMembers(s, p, m);
    ValueEnded(s, Match(s, MatchHead(s, p, m).value, m.value).value, m.w3);
  }

  lemma FoldEntryStep(kind: char, s: string, a: Entry, visit: Visit, rest: seq<Visit>)
    ensures FoldEntry(kind, s, a, [visit] + rest) == FoldEntry(kind, s, EntryMember(kind, s, a, visit), rest)
  {
    assert ([visit] + rest)[1..] == rest;
  }

  lemma FoldRootStep(kind: char, s: string, x: Root, visit: Visit, rest: seq<Visit>)
    ensures FoldRoot(kind, s, x, [visit] + rest) == FoldRoot(kind, s, RootMember(kind, s, x, visit), rest)
  {
    assert ([visit] + rest)[1..] == rest;
  }

  /** Folding the callbacks of matched members is reading the entry off the tree. */
  lemma {:induction false} EntryAt(kind: char, s: string, p: nat, a: Entry, m: Members)
    requires m.Member? ==> MatchMembers(s, p, m).Some? && Ended(s, MatchMembers(s, p, m).value)
    ensures FoldEntry(kind, s, a, Visits(s, p, m)) == EntryOf(kind, a, m)
    decreases m
  {
    hide MatchMembers, MatchHead, MatchMember, Match, EntryMember, EntryWith, FieldOf;
    if m.Member? {
      FirstMember(s, p, m);
      UnfoldVisits(s, p, m);
      var c := MatchMember(s, p, m).value;
      var visit := Visit(TextOf(m.key, "", KEY_SIZE), MatchHead(s, p, m).value);
      FoldEntryStep(kind, s, a, visit, Visits(s, c + 1, m.rest));
      EntryMemberAt(kind, s, a, m.key, visit.at, m.value);
      EntryAt(kind, s, c + 1, EntryMember(kind, s, a, visit), m.rest);
    }
  }

  lemma {:induction false} RootAt(kind: char, s: string, p: nat, x: Root, y: Summary, m: Members)
    requires m.Member? ==> MatchMembers(s, p, m).Some? && Ended(s, MatchMembers(s, p, m).value)
    requires Agrees(s, x, y)
    ensures Agrees(s, FoldRoot(kind, s, x, Visits(s, p, m)), SummaryOf(kind, y, m))
    decreases m
  {
    hide MatchMembers, MatchHead, MatchMember, Match, RootMember, SummaryWith, FieldOf, Agrees;
    if m.Member? {
      FirstMember(s, p, m);
      UnfoldVisits(s, p, m);
      var c := MatchMember(s, p, m).value;
      var visit := Visit(TextOf(m.key, "", KEY_SIZE), MatchHead(s, p, m).value);
      FoldRootStep(kind, s, x, visit, Visits(s, c + 1, m.rest));
      RootMemberAt(kind, s, x, y, m.key, visit.at, m.value);
      RootAt(kind, s, c + 1, RootMember(kind, s, x, visit), SummaryWith(kind, y, FieldOf(m.key, KEY_SIZE), m.value), m.rest);
    }
  }

  /** jsonObject with the entry callback on an object's text. */
  lemma ObjectEntry(kind: char, s: string, p: nat, n: nat, v: Json)
    requires v.Obj? && Blank(s, p, n) && Match(s, p + n, v).Some?
    ensures p <= |s| && Object(s, p).Some? && Object(s, p).value.0 == Match(s, p + n, v).value
    ensures FoldEntry(kind, s, BLANK, Object(s, p).value.1) == EntryOf(kind, BLANK, v.members)
  {
    hide MatchMembers, Match, Object, FoldEntry, EntryOf;
    ObjectAt(s, p, n, v);
    UnfoldObject(s, p + n, v);
    EntryAt(kind, s, p + n + 1, BLANK, v.members);
  }

  // ----- the whole document -----

  /** What the element loop should make of the elements: the kept entries, or failure at one that is not an object. */
  function Collect(kind: char, items: Items, list: seq<Entry>): Option<seq<Entry>>
    decreases items
  {
    if items.NoItems? || |list| == LIST_MAX then Some(list)
    else if !items.value.Obj? then None
    else Collect(kind, items.rest, Kept(list, EntryOf(kind, BLANK, items.value.members)))
  }

  function Capped(list: seq<Entry>): (r: seq<Entry>)
    ensures |r| <= LIST_MAX && r <= list
  {
    if |list| <= LIST_MAX then list else list[..LIST_MAX]
  }

  /** Of elements that are all objects, exactly the first 1024 entries with a positive id are kept. */
  lemma {:induction false} CollectIsFirst(kind: char, items: Items, list: seq<Entry>)
    requires AllObjects(items) && |list| <= LIST_MAX
    ensures Collect(kind, items, list) == Some(Capped(list + Entries(kind, items)))
    decreases items
  {
    hide EntryOf;
    if items.Item? {
      var a := EntryOf(kind, BLANK, items.value.members);
      var rest := Entries(kind, items.rest);
      assert list + (Kept([], a) + rest) == Kept(list, a) + rest;
      if |list| < LIST_MAX {
        CollectIsFirst(kind, items.rest, Kept(list, a));
      }
    } else {
      assert list + [] == list;
    }
  }

  /** Matching elements is matching the first, then a comma and the rest. */
  lemma UnfoldItems(s: string, p: nat, items: Items)
    requires items.Item? && MatchItems(s, p, items).Some?
    ensures Blank(s, p, items.before) && Match(s, p + items.before, items.value).Some?
    ensures Blank(s, Match(s, p + items.before, items.value).value, items.after)
    ensures var c := Match(s, p + items.before, items.value).value + items.after;
            if items.rest.NoItems? then MatchItems(s, p, items) == Some(c)
            else c < |s| && s[c] == ',' && MatchItems(s, c + 1, items.rest) == MatchItems(s, p, items)
  {
    hide Match;
  }

  /** Where an element starts is where whitespace before it ends. */
  lemma ElementStart(s: string, p: nat, items: Items)
    requires items.Item? && MatchItems(s, p, items).Some?
    ensures p <= |s| && Ws(s, p) == p + items.before < |s|
    ensures !IsJsonWs(s[p + items.before]) && s[p + items.before] != ']' && (s[p + items.before] == '{' <==> items.value.Obj?)
  {
    hide Match, MatchItems;
    UnfoldItems(s, p, items);
    FirstChar(s, p + items.before, items.value);
    WsAt(s, p, items.before);
  }

  /** After an element the loop stands at the next one, or at the closing bracket. */
  lemma ElementEnd(s: string, e: nat, n: nat, more: Items)
    requires Blank(s, e, n) && e + n < |s|
    requires if more.NoItems? then s[e + n] == ']' else s[e + n] == ',' && MatchItems(s, e + n + 1, more).Some?
    ensures e <= |s| && AfterComma(s, e) == if more.NoItems? then e + n else e + n + 1 + more.before
  {
    hide MatchItems;
    WsAt(s, e, n);
    if more.Item? {
      ElementStart(s, e + n + 1, more);
    }
  }

  lemma NotAnObject(s: string, p: nat)
    requires p < |s| && !IsJsonWs(s[p]) && s[p] != '{'
    ensures Object(s, p) == None
  {
  }

  /** The element loop on the text of any elements before a closing bracket. */
  lemma {:induction false} ItemsAt(kind: char, s: string, p: nat, items: Items, list: seq<Entry>)
    requires items.Item? && MatchItems(s, p, items).Some? && p + items.before <= |s|
    requires MatchChar(s, MatchItems(s, p, items).value, ']').Some?
    ensures ParseItems(kind, s, p + items.before, list) == Collect(kind, items, list)
    decreases items
  {
    hide Match, MatchItems, Object, FoldEntry, EntryOf, Kept, AfterComma;
    var from := p + items.before;
    ElementStart(s, p, items);
    UnfoldItems(s, p, items);
    if |list| == LIST_MAX {
    } else if !items.value.Obj? {
      NotAnObject(s, from);
    } else {
      ObjectEntry(kind, s, from, 0, items.value);
      var e := Match(s, from, items.value).value;
      ElementEnd(s, e, items.after, items.rest);
      var list' := Kept(list, EntryOf(kind, BLANK, items.value.members));
      assert ParseItems(kind, s, from, list) == ParseItems(kind, s, AfterComma(s, e), list');
      if items.rest.Item? {
        ItemsAt(kind, s, e + items.after + 1, items.rest, list');
      }
    }
  }

  /** Matching an array is matching its bracket, its inside and its other bracket. */
  lemma UnfoldArray(s: string, p: nat, v: Json)
    requires v.Arr? && Match(s, p, v).Some?
    ensures p < |s| && s[p] == '['
    ensures var inside := if v.items.NoItems? then MatchWs(s, p + 1, v.ws) else MatchItems(s, p + 1, v.items);
            inside.Some? && MatchChar(s, inside.value, ']').Some?
  {
  }

  lemma ListParsed(kind: char, s: string, p: nat, v: Json)
    requires v.Arr? && Match(s, p, v).Some?
    ensures p < |s| && ParseItems(kind, s, Ws(s, p + 1), []) == Collect(kind, v.items, [])
  {
    hide Match, MatchItems, Collect, Object;
    UnfoldArray(s, p, v);
    if v.items.NoItems? {
      WsAt(s, p + 1, v.ws);
      CollectNone(kind, v.items);
    } else {
      ElementStart(s, p + 1, v.items);
      ItemsAt(kind, s, p + 1, v.items, []);
    }
  }

  lemma CollectNone(kind: char, items: Items)
    requires items.NoItems?
    ensures Collect(kind, items, []) == Some([])
  {
  }

  lemma NoneAgree(s: string)
    ensures Agrees(s, NO_ROOT, NO_SUMMARY)
  {
  }

  /** The root callbacks on any object document, after any whitespace and before anything. */
  lemma RootParsed(kind: char, s: string, n: nat, v: Json)
    requires v.Obj? && Blank(s, 0, n) && Match(s, n, v).Some?
    ensures ParseRoot(kind, s).Some? && Agrees(s, ParseRoot(kind, s).value, SummaryOf(kind, NO_SUMMARY, v.members))
  {
    hide Match, MatchMembers, Object, FoldRoot, SummaryOf, Agrees, Visits;
    ObjectAt(s, 0, n, v);
    UnfoldObject(s, n, v);
    NoneAgree(s);
    RootAt(kind, s, n + 1, NO_ROOT, NO_SUMMARY, v.members);
  }

  /**
   achievementsParseXerabora on every JSON document whose root is an object: it fails when no list is there or an
   element it reaches is not an object, and otherwise keeps what Collect says.
   */
  lemma DocumentParsed(kind: char, s: string, n: nat, v: Json)
    requires v.Obj? && Blank(s, 0, n) && Match(s, n, v).Some?
    ensures var y := SummaryOf(kind, NO_SUMMARY, v.members);
            ParseList(kind, s) == if y.list.None? then None else Collect(kind, y.list.value, [])
  {
    hide Match, SummaryOf, ParseRoot, ParseItems, Collect;
    RootParsed(kind, s, n, v);
    var x, y := ParseRoot(kind, s).value, SummaryOf(kind, NO_SUMMARY, v.members);
    if y.list.Some? {
      var ws: nat :| Match(s, x.place.value, Arr(ws, y.list.value)).Some?;
      ListParsed(kind, s, x.place.value, Arr(ws, y.list.value));
    }
  }

  /** With a list of objects, the cache holds exactly the first 1024 entries with a positive id. */
  lemma DocumentCached(kind: char, s: string, n: nat, v: Json)
    requires v.Obj? && Blank(s, 0, n) && Match(s, n, v).Some?
    requires SummaryOf(kind, NO_SUMMARY, v.members).list.Some?
    requires AllObjects(SummaryOf(kind, NO_SUMMARY, v.members).list.value)
    ensures var items := SummaryOf(kind, NO_SUMMARY, v.members).list.value;
            ParseList(kind, s) == Some(Capped(Entries(kind, items)))
  {
    hide Match, SummaryOf, ParseList, Collect, Entries, AllObjects;
    DocumentParsed(kind, s, n, v);
    var items := SummaryOf(kind, NO_SUMMARY, v.members).list.value;
    CollectIsFirst(kind, items, []);
    assert [] + Entries(kind, items) == Entries(kind, items);
  }
}
