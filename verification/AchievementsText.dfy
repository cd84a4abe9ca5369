/** What the texts in an achievement document denote: numbers, strings, and the entry an object describes (src/achievements.c). */
module AchievementsText {
  import opened Text
  import opened Json
  import opened JsonObjects
  import opened JsonRender
  import opened Achievements

  // ----- numbers -----

  function Digit(d: nat): char
    requires d < 10
  {
    ('0' as int + d) as char
  }

  /** The decimal rendering of a number. */
  function Decimal(m: nat): string {
    if m < 10 then [Digit(m)] else Decimal(m / 10) + [Digit(m % 10)]
  }

  predicate Numeral(t: string) {
    forall i :: 0 <= i < |t| ==> IsDigit(t[i])
  }

  lemma {:induction false} DigitsAppend(t: string, c: char, p: nat, n: nat)
    requires p <= |t| && Numeral(t) && IsDigit(c)
    ensures Digits(t + [c], p, n) == 10 * Digits(t, p, n) + (c as int - '0' as int)
    decreases |t| - p
  {
    if p < |t| {
      assert (t + [c])[p] == t[p];
      DigitsAppend(t, c, p + 1, 10 * n + (t[p] as int - '0' as int));
    } else {
      assert Digits(t + [c], p + 1, 10 * n + (c as int - '0' as int)) == 10 * n + (c as int - '0' as int);
    }
  }

  lemma {:induction false} DigitsStop(t: string, rest: string, p: nat, n: nat)
    requires p <= |t| && Numeral(t) && (rest != "" ==> !IsDigit(rest[0]))
    ensures Digits(t + rest, p, n) == Digits(t, p, n)
    decreases |t| - p
  {
    if p < |t| {
      assert (t + rest)[p] == t[p];
      DigitsStop(t, rest, p + 1, 10 * n + (t[p] as int - '0' as int));
    }
  }

  lemma {:induction false} DecimalRead(m: nat)
    ensures Decimal(m) != "" && Numeral(Decimal(m)) && Digits(Decimal(m), 0, 0) == m
  {
    if m < 10 {
      assert Digits([Digit(m)], 1, m) == m;
    } else {
      DecimalRead(m / 10);
      DigitsAppend(Decimal(m / 10), Digit(m % 10), 0, 0);
    }
  }

  /** A number is read as the one its digits render, up to ten million; what follows the digits does not count. */
  lemma NumberRead(m: nat, rest: string)
    requires rest != "" ==> !IsDigit(rest[0])
    ensures IntOf(Scalar(Decimal(m) + rest)) == Min(m, INT_MAX)
  {
    hide Digits, Decimal;
    DecimalRead(m);
    DigitsStop(Decimal(m), rest, 0, 0);
    assert (Decimal(m) + rest)[0] == Decimal(m)[0];
  }

  /** A negative one is read as 0. */
  lemma NegativeRead(rest: string)
    ensures IntOf(Scalar("-" + rest)) == 0
  {
    assert ("-" + rest)[0] == '-';
  }

  // ----- strings -----

  /** The bytes of a string, all of them. */
  function Bytes(us: seq<Unit>): string {
    if us == [] then "" else UnitBytes(us[0]) + Bytes(us[1..])
  }

  /** A string that fits its buffer is decoded whole. */
  lemma {:induction false} TextWhole(us: seq<Unit>, out: string, size: nat)
    requires |out| + |Bytes(us)| < size
    ensures TextOf(us, out, size) == out + Bytes(us)
    decreases |us|
  {
    hide UnitBytes;
    if us != [] {
      TextWhole(us[1..], out + UnitBytes(us[0]), size);
      assert (out + UnitBytes(us[0])) + Bytes(us[1..]) == out + (UnitBytes(us[0]) + Bytes(us[1..]));
    }
  }

  lemma UnitSize(u: Unit)
    requires UnitOk(u)
    ensures 1 <= |UnitBytes(u)| <= 4
  {
  }

  /** No buffer is overrun, and one that is not filled up to its last four bytes took the string whole. */
  lemma {:induction false} TextLong(us: seq<Unit>, out: string, size: nat)
    requires UnitsOk(us) && |out| < size
    ensures |out| <= |TextOf(us, out, size)| < size
    ensures |out| + |Bytes(us)| >= size ==> |TextOf(us, out, size)| + 4 >= size
    decreases |us|
  {
    hide UnitBytes, UnitOk;
    if us != [] {
      UnitSize(us[0]);
      TextLong(us[1..], Fit(out, UnitBytes(us[0]), size), size);
    }
  }

  predicate NoNul(t: string) {
    forall i :: 0 <= i < |t| ==> t[i] != 0 as char
  }

  lemma NoNulConcat(a: string, b: string)
    ensures NoNul(a + b) <==> NoNul(a) && NoNul(b)
  {
    assert forall i :: 0 <= i < |a| ==> (a + b)[i] == a[i];
    assert forall i :: 0 <= i < |b| ==> (a + b)[|a| + i] == b[i];
  }

  lemma {:induction false} TextNoNul(us: seq<Unit>, out: string, size: nat)
    requires NoNul(out) && NoNul(Bytes(us))
    ensures NoNul(TextOf(us, out, size))
    decreases |us|
  {
    hide UnitBytes, NoNul;
    if us != [] {
      NoNulConcat(UnitBytes(us[0]), Bytes(us[1..]));
      NoNulConcat(out, UnitBytes(us[0]));
      TextNoNul(us[1..], Fit(out, UnitBytes(us[0]), size), size);
    }
  }

  lemma CStrWhole(t: string)
    requires NoNul(t)
    ensures CStr(t) == t
  {
  }

  /** A string with no NUL that fits its field is what the field holds. */
  lemma FieldWhole(us: seq<Unit>, size: nat)
    requires NoNul(Bytes(us)) && |Bytes(us)| < size
    ensures FieldOf(us, size) == Bytes(us)
  {
    hide Bytes, TextOf, NoNul, CStr;
    TextWhole(us, "", size);
    assert "" + Bytes(us) == Bytes(us);
    CStrWhole(Bytes(us));
  }

  /** Cutting a long key to its buffer never makes it one of the short names. */
  lemma KeyName(us: seq<Unit>, name: string)
    requires UnitsOk(us) && NoNul(Bytes(us)) && |name| + 4 < KEY_SIZE
    ensures FieldOf(us, KEY_SIZE) == name <==> Bytes(us) == name
  {
    hide Bytes, TextOf, NoNul, CStr, UnitsOk;
    if |Bytes(us)| < KEY_SIZE {
      FieldWhole(us, KEY_SIZE);
    } else {
      TextLong(us, "", KEY_SIZE);
      assert NoNul("") by { NoNulEmpty(); }
      TextNoNul(us, "", KEY_SIZE);
      CStrWhole(TextOf(us, "", KEY_SIZE));
    }
  }

  lemma NoNulEmpty()
    ensures NoNul("")
  {
  }

  // ----- members by name -----

  /** Keys as a document has them: well-formed and without a NUL. */
  predicate PlainKeys(m: Members)
    decreases m
  {
    m.NoMembers? || (UnitsOk(m.key) && NoNul(Bytes(m.key)) && PlainKeys(m.rest))
  }

  /** The value of the last member of that name. */
  function Last(m: Members, name: string): Option<Json>
    decreases m
  {
    if m.NoMembers? then None
    else if Last(m.rest, name).Some? then Last(m.rest, name)
    else if Bytes(m.key) == name then Some(m.value) else None
  }

  /** The text of the last member of that name that is a string. */
  function LastText(m: Members, name: string): Option<seq<Unit>>
    decreases m
  {
    if m.NoMembers? then None
    else if LastText(m.rest, name).Some? then LastText(m.rest, name)
    else if Bytes(m.key) == name && m.value.Str? then Some(m.value.units) else None
  }

  function IntOr(v: Option<Json>, n: nat): nat {
    if v.Some? then IntOf(v.value) else n
  }

  function TextOr(us: Option<seq<Unit>>, size: nat, t: string): string {
    if us.Some? then FieldOf(us.value, size) else t
  }

  lemma KeyNames(us: seq<Unit>)
    requires UnitsOk(us) && NoNul(Bytes(us))
    ensures var k := FieldOf(us, KEY_SIZE);
            && (k == "id" <==> Bytes(us) == "id") && (k == "title" <==> Bytes(us) == "title")
            && (k == "description" <==> Bytes(us) == "description") && (k == "points" <==> Bytes(us) == "points")
            && (k == "total" <==> Bytes(us) == "total") && (k == "awarded" <==> Bytes(us) == "awarded")
            && (k == "hardcore" <==> Bytes(us) == "hardcore") && (k == "earned" <==> Bytes(us) == "earned")
  {
    hide FieldOf, Bytes, UnitsOk, NoNul;
    KeyName(us, "id");
    KeyName(us, "title");
    KeyName(us, "description");
    KeyName(us, "points");
    KeyName(us, "total");
    KeyName(us, "awarded");
    KeyName(us, "hardcore");
    KeyName(us, "earned");
  }

  /** One object's entry, field by field: each is what the last member of its name says. */
  lemma {:induction false} EntryFields(kind: char, a: Entry, m: Members)
    requires PlainKeys(m)
    ensures var e := EntryOf(kind, a, m);
            && e.id == IntOr(Last(m, "id"), a.id) && e.points == IntOr(Last(m, "points"), a.points)
            && e.title == TextOr(LastText(m, "title"), TITLE_SIZE, a.title)
            && e.description == TextOr(LastText(m, "description"), DESCRIPTION_SIZE, a.description)
    decreases m
  {
    hide FieldOf, Bytes, UnitsOk, NoNul, IntOf;
    if m.Member? {
      KeyNames(m.key);
      EntryFields(kind, EntryWith(kind, a, FieldOf(m.key, KEY_SIZE), m.value), m.rest);
    }
  }

  /** A library's entries also say how much of the set is there and awarded. */
  lemma {:induction false} GameFields(a: Entry, m: Members)
    requires PlainKeys(m)
    ensures var e := EntryOf('G', a, m);
            && e.total == IntOr(Last(m, "total"), a.total) && e.earned == IntOr(Last(m, "awarded"), a.earned)
            && e.hardcore == IntOr(Last(m, "hardcore"), a.hardcore) && e.date == a.date
    decreases m
  {
    hide FieldOf, Bytes, UnitsOk, NoNul, IntOf;
    if m.Member? {
      KeyNames(m.key);
      GameFields(EntryWith('G', a, FieldOf(m.key, KEY_SIZE), m.value), m.rest);
    }
  }

  /** One game's entries say when they were earned: an entry is earned when that date is not empty. */
  lemma {:induction false} SetFields(a: Entry, m: Members)
    requires PlainKeys(m) && a.earned == (if a.date != "" then 1 else 0)
    ensures var e := EntryOf('A', a, m);
            && e.date == TextOr(LastText(m, "earned"), DATE_SIZE, a.date) && e.earned == (if e.date != "" then 1 else 0)
            && e.total == a.total && e.hardcore == a.hardcore
    decreases m
  {
    hide FieldOf, Bytes, UnitsOk, NoNul, IntOf;
    if m.Member? {
      KeyNames(m.key);
      SetFields(EntryWith('A', a, FieldOf(m.key, KEY_SIZE), m.value), m.rest);
    }
  }

  /** The elements of the last member of that name that is an array. */
  function LastList(m: Members, name: string): Option<Items>
    decreases m
  {
    if m.NoMembers? then None
    else if LastList(m.rest, name).Some? then LastList(m.rest, name)
    else if Bytes(m.key) == name && m.value.Arr? then Some(m.value.items) else None
  }

  /** The root object's list is the last array under "games" or "achievements", as the kind asks. */
  lemma {:induction false} RootList(kind: char, x: Summary, m: Members)
    requires PlainKeys(m)
    ensures var list := LastList(m, if kind == 'G' then "games" else "achievements");
            SummaryOf(kind, x, m).list == if list.Some? then list else x.list
    decreases m
  {
    hide FieldOf, Bytes, UnitsOk, NoNul, IntOf;
    if m.Member? {
      KeyName(m.key, "games");
      KeyName(m.key, "achievements");
      RootList(kind, SummaryWith(kind, x, FieldOf(m.key, KEY_SIZE), m.value), m.rest);
    }
  }

  /** One game's title and totals are what the last members of their names say. */
  lemma {:induction false} RootFields(x: Summary, m: Members)
    requires PlainKeys(m)
    ensures var y := SummaryOf('A', x, m);
            && y.title == TextOr(LastText(m, "title"), TITLE_SIZE, x.title)
            && y.maximum == IntOr(Last(m, "total"), x.maximum) && y.earned == IntOr(Last(m, "awarded"), x.earned)
    decreases m
  {
    hide FieldOf, Bytes, UnitsOk, NoNul, IntOf;
    if m.Member? {
      KeyNames(m.key);
      RootFields(SummaryWith('A', x, FieldOf(m.key, KEY_SIZE), m.value), m.rest);
    }
  }

  // ----- documents that describe entries -----

  /** The number n is rendered under that name, or is 0 and left out. */
  predicate SaysInt(m: Members, name: string, n: nat) {
    n <= INT_MAX && if Last(m, name).None? then n == 0 else Last(m, name) == Some(Scalar(Decimal(n)))
  }

  /** The text t stands under that name, or is empty and left out. */
  predicate SaysText(m: Members, name: string, t: string, size: nat) {
    && |t| < size && NoNul(t)
    && if LastText(m, name).None? then t == "" else Bytes(LastText(m, name).value) == t
  }

  /** The members of an object describe this entry. */
  predicate Describes(kind: char, m: Members, e: Entry) {
    && PlainKeys(m) && SaysInt(m, "id", e.id) && SaysInt(m, "points", e.points)
    && SaysText(m, "title", e.title, TITLE_SIZE) && SaysText(m, "description", e.description, DESCRIPTION_SIZE)
    && if kind == 'G' then
         SaysInt(m, "total", e.total) && SaysInt(m, "awarded", e.earned) && SaysInt(m, "hardcore", e.hardcore) && e.date == ""
       else
         && SaysText(m, "earned", e.date, DATE_SIZE) && e.earned == (if e.date != "" then 1 else 0)
         && e.total == 0 && e.hardcore == 0
  }

  lemma SaidInt(m: Members, name: string, n: nat)
    requires SaysInt(m, name, n)
    ensures IntOr(Last(m, name), 0) == n
  {
    hide IntOf, Decimal;
    NumberRead(n, "");
    assert Decimal(n) + "" == Decimal(n);
  }

  lemma SaidText(m: Members, name: string, t: string, size: nat)
    requires SaysText(m, name, t, size)
    ensures TextOr(LastText(m, name), size, "") == t
  {
    hide FieldOf, NoNul, Bytes;
    if LastText(m, name).Some? {
      FieldWhole(LastText(m, name).value, size);
    }
  }

  /** An object that describes an entry is read as that entry. */
  lemma DescribedIsRead(kind: char, m: Members, e: Entry)
    requires (kind == 'G' || kind == 'A') && Describes(kind, m, e)
    ensures EntryOf(kind, BLANK, m) == e
  {
    hide EntryOf, SaysInt, SaysText, IntOr, TextOr, Last, LastText, PlainKeys;
    EntryFields(kind, BLANK, m);
    SaidInt(m, "id", e.id);
    SaidInt(m, "points", e.points);
    SaidText(m, "title", e.title, TITLE_SIZE);
    SaidText(m, "description", e.description, DESCRIPTION_SIZE);
    if kind == 'G' {
      GameFields(BLANK, m);
      SaidInt(m, "total", e.total);
      SaidInt(m, "awarded", e.earned);
      SaidInt(m, "hardcore", e.hardcore);
    } else {
      SetFields(BLANK, m);
      SaidText(m, "earned", e.date, DATE_SIZE);
    }
  }

  /** The elements of a list describe these entries, one each. */
  predicate DescribesAll(kind: char, items: Items, es: seq<Entry>)
    decreases items
  {
    if items.NoItems? then es == []
    else es != [] && items.value.Obj? && Describes(kind, items.value.members, es[0]) && DescribesAll(kind, items.rest, es[1..])
  }

  function WithId(es: seq<Entry>): seq<Entry> {
    if es == [] then [] else (if es[0].id > 0 then [es[0]] else []) + WithId(es[1..])
  }

  lemma {:induction false} DescribedEntries(kind: char, items: Items, es: seq<Entry>)
    requires (kind == 'G' || kind == 'A') && DescribesAll(kind, items, es)
    ensures AllObjects(items) && Entries(kind, items) == WithId(es)
    decreases items
  {
    hide EntryOf, Describes;
    if items.Item? {
      DescribedIsRead(kind, items.value.members, es[0]);
      DescribedEntries(kind, items.rest, es[1..]);
      assert [] + [es[0]] == [es[0]];
    }
  }

  /**
   A document that describes a list of entries, its numbers in decimal and its strings fitting their fields, fills the
   cache with exactly those of them that have an id, up to the first 1024.
   */
  lemma DescribedDocument(kind: char, s: string, n: nat, v: Json, items: Items, es: seq<Entry>)
    requires (kind == 'G' || kind == 'A') && v.Obj? && Blank(s, 0, n) && Match(s, n, v).Some?
    requires PlainKeys(v.members)
    requires LastList(v.members, if kind == 'G' then "games" else "achievements") == Some(items)
    requires DescribesAll(kind, items, es)
    ensures ParseList(kind, s) == Some(Capped(WithId(es)))
  {
    hide Match, SummaryOf, ParseList, DescribesAll, Entries, AllObjects, WithId, PlainKeys, LastList;
    RootList(kind, NO_SUMMARY, v.members);
    DescribedEntries(kind, items, es);
    DocumentCached(kind, s, n, v);
  }
}
