/** Sectioned legacy files, such as themes: a header line names the section its indented lines belong to (src/config.c). */
module ConfigSections {
  import opened Text
  import opened ConfigStore
  import opened ConfigOrder
  import opened ConfigText
  import opened ConfigLegacy

  // ----- a file by its structure -----

  /** One assignment, indented or not. */
  datatype Line = Line(indent: string, key: string, val: string)

  /** A header "name:", the indented assignments below it, and what follows from the next unindented assignment on. */
  datatype Section = Section(name: string, tail: string, inner: seq<Line>, after: seq<Line>)

  predicate AllWs(s: string) {
    forall i :: 0 <= i < |s| ==> IsWs(s[i])
  }

  predicate WellFormed(l: Line) {
    && AllWs(l.indent) && KeyValid(l.key) && !IsWs(l.key[0]) && !StartsComment(l.key)
    && |l.key| < KEY_LEN && |l.val| < VAL_LEN
  }

  predicate AllWellFormed(ls: seq<Line>) {
    forall i :: 0 <= i < |ls| ==> WellFormed(ls[i])
  }

  predicate AllIndented(ls: seq<Line>) {
    forall i :: 0 <= i < |ls| ==> ls[i].indent != ""
  }

  predicate IsSection(s: Section) {
    && 0 < |s.name| < KEY_LEN && ':' !in s.name && '=' !in s.name && '=' !in s.tail && !StartsComment(TrimStart(s.name))
    && AllWellFormed(s.inner) && AllIndented(s.inner)
    && AllWellFormed(s.after) && (s.after != [] ==> s.after[0].indent == "")
  }

  predicate AllSections(ss: seq<Section>) {
    forall i :: 0 <= i < |ss| ==> IsSection(ss[i])
  }

  function LineText(l: Line): string {
    l.indent + l.key + "=" + l.val
  }

  function Header(s: Section): string {
    s.name + ":" + s.tail
  }

  function Texts(ls: seq<Line>): seq<string> {
    if ls == [] then [] else [LineText(ls[0])] + Texts(ls[1..])
  }

  function SectionTexts(ss: seq<Section>): seq<string> {
    if ss == [] then [] else [Header(ss[0])] + (Texts(ss[0].inner) + (Texts(ss[0].after) + SectionTexts(ss[1..])))
  }

  // ----- what it says -----

  /** The entries these lines give, with this in front of their keys. */
  function Named(prefix: string, ls: seq<Line>): seq<Entry> {
    if ls == [] then [] else [(prefix + ls[0].key, ls[0].val)] + Named(prefix, ls[1..])
  }

  function SectionEntries(ss: seq<Section>): seq<Entry> {
    if ss == [] then []
    else Named(ss[0].name + "_", ss[0].inner) + (Named("", ss[0].after) + SectionEntries(ss[1..]))
  }

  /** One after another into the set, a later value replacing an earlier one. */
  function PutAll(acc: seq<Entry>, es: seq<Entry>): seq<Entry>
    decreases |es|
  {
    if es == [] then acc else PutAll(SetEntry(acc, es[0].0, es[0].1), es[1..])
  }

  lemma {:induction false} PutAllConcat(acc: seq<Entry>, a: seq<Entry>, b: seq<Entry>)
    ensures PutAll(acc, a + b) == PutAll(PutAll(acc, a), b)
    decreases |a|
  {
    hide SetEntry;
    if a == [] {
      assert a + b == b;
    } else {
      assert (a + b)[0] == a[0] && (a + b)[1..] == a[1..] + b;
      PutAllConcat(SetEntry(acc, a[0].0, a[0].1), a[1..], b);
    }
  }

  predicate AllFit(es: seq<Entry>) {
    forall i :: 0 <= i < |es| ==> |es[i].0| < KEY_LEN && |es[i].1| < VAL_LEN
  }

  /** Entries with different keys go in as they are, in order. */
  lemma {:induction false} PutAllUnique(acc: seq<Entry>, es: seq<Entry>)
    requires Unique(acc + es) && AllFit(es)
    ensures PutAll(acc, es) == acc + es
    decreases |es|
  {
    hide SetEntry;
    if es == [] {
      assert acc + es == acc;
    } else {
      AppendNext(acc, es);
      PutAllUnique(acc + [es[0]], es[1..]);
    }
  }

  // ----- reading one line -----

  lemma LineStart(l: Line)
    requires WellFormed(l)
    ensures TrimStart(LineText(l)) == LegacyLine((l.key, l.val))
    ensures LineText(l) != "" && (IsWs(LineText(l)[0]) <==> l.indent != "")
  {
    var text := LineText(l);
    assert forall i :: 0 <= i < |l.indent| ==> text[i] == l.indent[i];
    assert text[|l.indent|] == l.key[0];
    assert SkipWs(text) == |l.indent|;
    assert text == l.indent + LegacyLine((l.key, l.val));
  }

  /** Indentation changes neither what a line is taken for nor what it assigns. */
  lemma LineSplits(l: Line)
    requires WellFormed(l)
    ensures SplitAssignment(LineText(l)) == Some((l.key, l.val))
    ensures Classify(LineText(l)) == if LooksLibconfig((l.key, l.val)) then Libconfig else Legacy
  {
    hide LineText, LooksLibconfig;
    var line := LegacyLine((l.key, l.val));
    LineStart(l);
    EqOf(l.key, l.val);
    ClassifyLegacyLine((l.key, l.val));
    assert TrimStart(line) == line by {
      assert line[0] == l.key[0] && SkipWs(line) == 0;
    }
  }

  /** The key a line is stored under depends on its own indentation and on the section it stands in. */
  lemma ReadsLine(st: Reading, l: Line)
    requires WellFormed(l) && |st.scope| < KEY_LEN && '=' !in st.scope
    ensures l.indent != "" && st.scope != "" ==>
              ReadLine(LegacyFormat, st, LineText(l)) ==
              Reading(st.scope, SetEntry(st.entries, st.scope + "_" + l.key, l.val))
    ensures l.indent == "" || st.scope == "" ==>
              ReadLine(LegacyFormat, st, LineText(l)) == Reading("", SetEntry(st.entries, l.key, l.val))
  {
    hide LineText, LooksLibconfig, SplitAssignment, Classify, SetEntry;
    LineSplits(l);
    LineStart(l);
    assert KeyValid(st.scope + "_" + l.key);
  }

  lemma HeaderStart(s: Section)
    requires IsSection(s)
    ensures var p := TrimStart(Header(s)); p != "" && !StartsComment(p)
  {
    var line := Header(s);
    var n := SkipWs(s.name);
    assert line[|s.name|] == ':' && forall i :: 0 <= i < |s.name| ==> line[i] == s.name[i];
    assert SkipWs(line) == n;
    assert line[n..] == TrimStart(s.name) + (":" + s.tail);
  }

  lemma ReadsHeader(st: Reading, s: Section)
    requires IsSection(s)
    ensures ReadLine(LegacyFormat, st, Header(s)) == Reading(s.name, st.entries)
    ensures Classify(Header(s)) == Legacy
  {
    HeaderStart(s);
    var line := Header(s);
    assert '=' !in line;
    var p := TrimStart(line);
    assert forall i :: 0 <= i < |p| ==> p[i] == line[SkipWs(line) + i];
    assert IndexOf(p, '=') == |p|;
    assert line[|s.name|] == ':' && forall i :: 0 <= i < |s.name| ==> line[i] == s.name[i];
    assert IndexOf(line, ':') == |s.name| && line[..|s.name|] == s.name;
  }

  // ----- reading many -----

  lemma FirstLine(ls: seq<Line>)
    requires ls != []
    ensures Texts(ls)[0] == LineText(ls[0]) && Texts(ls)[1..] == Texts(ls[1..])
  {
  }

  /** Indented lines in a section carry its name. */
  lemma {:induction false} ReadsInner(st: Reading, ls: seq<Line>)
    requires AllWellFormed(ls) && AllIndented(ls) && 0 < |st.scope| < KEY_LEN && '=' !in st.scope
    ensures ReadLines(LegacyFormat, st, Texts(ls)) == Reading(st.scope, PutAll(st.entries, Named(st.scope + "_", ls)))
    decreases |ls|
  {
    hide SetEntry, ReadLine, WellFormed, LineText;
    if ls != [] {
      var l := ls[0];
      FirstLine(ls);
      ReadsLine(st, l);
      ReadsInner(Reading(st.scope, SetEntry(st.entries, st.scope + "_" + l.key, l.val)), ls[1..]);
      assert Named(st.scope + "_", ls)[1..] == Named(st.scope + "_", ls[1..]);
    }
  }

  /** From the first unindented assignment on, lines carry no name, indented or not. */
  lemma {:induction false} ReadsAfter(st: Reading, ls: seq<Line>)
    requires AllWellFormed(ls) && |st.scope| < KEY_LEN && '=' !in st.scope
    requires ls != [] ==> ls[0].indent == "" || st.scope == ""
    ensures ReadLines(LegacyFormat, st, Texts(ls)).entries == PutAll(st.entries, Named("", ls))
    decreases |ls|
  {
    hide SetEntry, ReadLine, WellFormed, LineText;
    if ls != [] {
      var l := ls[0];
      FirstLine(ls);
      ReadsLine(st, l);
      ReadsAfter(Reading("", SetEntry(st.entries, l.key, l.val)), ls[1..]);
      assert Named("", ls)[1..] == Named("", ls[1..]) && Named("", ls)[0] == (l.key, l.val) by {
        assert "" + l.key == l.key;
      }
    }
  }

  /** A section's lines give its entries, whatever section came before. */
  lemma ReadsSection(st: Reading, s: Section, rest: seq<string>) returns (st': Reading)
    requires IsSection(s)
    ensures ReadLines(LegacyFormat, st, [Header(s)] + (Texts(s.inner) + (Texts(s.after) + rest))) ==
            ReadLines(LegacyFormat, st', rest)
    ensures st'.entries == PutAll(PutAll(st.entries, Named(s.name + "_", s.inner)), Named("", s.after))
  {
    hide ReadLine, WellFormed, Header, Texts, Meaningful, Named, PutAll;
    ReadsHeader(st, s);
    var st1 := Reading(s.name, st.entries);
    ReadsInner(st1, s.inner);
    var st2 := ReadLines(LegacyFormat, st1, Texts(s.inner));
    ReadsAfter(st2, s.after);
    st' := ReadLines(LegacyFormat, st2, Texts(s.after));
    var lines := [Header(s)] + (Texts(s.inner) + (Texts(s.after) + rest));
    assert lines[1..] == Texts(s.inner) + (Texts(s.after) + rest);
    ReadLinesConcat(LegacyFormat, st1, Texts(s.inner), Texts(s.after) + rest);
    ReadLinesConcat(LegacyFormat, st2, Texts(s.after), rest);
  }

  lemma {:induction false} ReadsSections(st: Reading, ss: seq<Section>)
    requires AllSections(ss)
    ensures ReadLines(LegacyFormat, st, SectionTexts(ss)).entries == PutAll(st.entries, SectionEntries(ss))
    decreases |ss|
  {
    hide ReadLine, IsSection, Header, Texts, Meaningful, Named;
    if ss != [] {
      var s, rest := ss[0], SectionTexts(ss[1..]);
      var st' := ReadsSection(st, s, rest);
      ReadsSections(st', ss[1..]);
      PutAllConcat(st.entries, Named(s.name + "_", s.inner), Named("", s.after) + SectionEntries(ss[1..]));
      PutAllConcat(PutAll(st.entries, Named(s.name + "_", s.inner)), Named("", s.after), SectionEntries(ss[1..]));
    }
  }

  // ----- whole files -----

  /** Neither blank nor a comment, and an assignment or a header. */
  predicate Tells(line: string) {
    Meaningful(line) && ('=' in line || (':' in line && line[0] != ':'))
  }

  function Told(lines: seq<string>): seq<string> {
    if lines == [] then [] else (if Tells(lines[0]) then [lines[0]] else []) + Told(lines[1..])
  }

  /** A malformed line is passed over, and is no evidence for libconfig. */
  lemma UntoldIgnored(st: Reading, line: string)
    requires !Tells(line)
    ensures ReadLine(LegacyFormat, st, line) == st && (Meaningful(line) ==> Classify(line) == Legacy)
  {
    if Meaningful(line) {
      var p := TrimStart(line);
      assert forall i :: 0 <= i < |p| ==> p[i] == line[SkipWs(line) + i];
      assert '=' !in line;
      assert IndexOf(p, '=') == |p|;
    }
  }

  /** Only lines that tell something count. */
  lemma {:induction false} OnlyToldCount(st: Reading, lines: seq<string>)
    ensures ReadLines(LegacyFormat, st, lines) == ReadLines(LegacyFormat, st, Told(lines))
    decreases |lines|
  {
    hide ReadLine, Tells;
    if lines != [] {
      OnlyToldCount(ReadLine(LegacyFormat, st, lines[0]), lines[1..]);
      if Tells(lines[0]) {
        var told := Told(lines);
        assert told[0] == lines[0] && told[1..] == Told(lines[1..]);
      } else {
        UntoldIgnored(st, lines[0]);
        assert Told(lines) == Told(lines[1..]);
      }
    }
  }

  lemma {:induction false} LatchedByTold(lines: seq<string>)
    ensures Latch(Told(lines)) == Some(LegacyFormat) ==> Latch(lines) == Some(LegacyFormat)
    ensures Told(lines) == [] ==> Latch(lines) != Some(LibconfigFormat)
    decreases |lines|
  {
    hide Tells, Classify;
    if lines != [] {
      LatchedByTold(lines[1..]);
      if Tells(lines[0]) {
        TellsMeans(lines[0]);
        assert Told(lines)[0] == lines[0];
      } else {
        UntoldIgnored(Reading("", []), lines[0]);
        assert Told(lines) == Told(lines[1..]);
      }
    }
  }

  lemma TellsMeans(line: string)
    requires Tells(line)
    ensures Meaningful(line)
  {
  }

  /** The lines of a file: some assignments, then sections. */
  function FileTexts(top: seq<Line>, ss: seq<Section>): seq<string> {
    Texts(top) + SectionTexts(ss)
  }

  lemma FirstClass(top: seq<Line>, ss: seq<Section>)
    requires AllWellFormed(top) && AllSections(ss) && FileTexts(top, ss) != []
    requires top != [] ==> !LooksLibconfig((top[0].key, top[0].val))
    ensures Latch(FileTexts(top, ss)) == Some(LegacyFormat)
  {
    hide WellFormed, LineText, Header, LooksLibconfig, IsSection, Classify;
    var all := FileTexts(top, ss);
    if top != [] {
      FirstLine(top);
      LineSplits(top[0]);
    } else if ss != [] {
      assert all[0] == Header(ss[0]);
      ReadsHeader(Reading("", []), ss[0]);
    }
  }

  /**
   The reading law. A text whose lines, but for blanks, comments and malformed ones, are assignments and then sections
   is read, in order, as: the first assignments under their own keys; for each section, its indented lines under
   "name_key", and from the first unindented assignment on all lines under their own keys again.
   */
  lemma SectionedFile(text: string, top: seq<Line>, ss: seq<Section>)
    requires AllWellFormed(top) && AllSections(ss) && Told(Lines(text)) == FileTexts(top, ss)
    requires top != [] ==> !LooksLibconfig((top[0].key, top[0].val))
    ensures ReadFile(text).1 == PutAll([], Named("", top) + SectionEntries(ss))
    ensures FileTexts(top, ss) != [] ==> ReadFile(text).0 == Some(LegacyFormat)
  {
    hide Lines, ReadLine, LooksLibconfig, Texts, SectionTexts, Named, SectionEntries, PutAll, Meaningful, IsSection, WellFormed;
    var st := Reading("", []);
    var all := FileTexts(top, ss);
    OnlyToldCount(st, Lines(text));
    LatchedByTold(Lines(text));
    if all != [] {
      FirstClass(top, ss);
    } else {
      var latched := Latch(Lines(text));
      assert latched.None? || latched.value == LegacyFormat;
    }
    ReadLinesConcat(LegacyFormat, st, Texts(top), SectionTexts(ss));
    ReadsAfter(st, top);
    ReadsSections(ReadLines(LegacyFormat, st, Texts(top)), ss);
    PutAllConcat([], Named("", top), SectionEntries(ss));
  }

  /** When no key repeats and all fit a node, the set holds exactly those entries, in that order. */
  lemma SectionedFileExact(text: string, top: seq<Line>, ss: seq<Section>)
    requires AllWellFormed(top) && AllSections(ss) && Told(Lines(text)) == FileTexts(top, ss)
    requires top != [] ==> !LooksLibconfig((top[0].key, top[0].val))
    requires var es := Named("", top) + SectionEntries(ss); Unique(es) && AllFit(es)
    ensures ReadFile(text).1 == Named("", top) + SectionEntries(ss)
  {
    hide Lines, ReadFile, LooksLibconfig, FileTexts, Named, SectionEntries, IsSection, WellFormed;
    SectionedFile(text, top, ss);
    var es := Named("", top) + SectionEntries(ss);
    assert [] + es == es;
    PutAllUnique([], es);
  }

  // ----- files as they are written -----

  predicate AllTell(lines: seq<string>) {
    forall i :: 0 <= i < |lines| ==> Tells(lines[i])
  }

  lemma {:induction false} ToldAll(lines: seq<string>)
    requires AllTell(lines)
    ensures Told(lines) == lines
  {
    hide Tells;
    if lines != [] {
      ToldAll(lines[1..]);
    }
  }

  lemma LineTells(l: Line)
    requires WellFormed(l)
    ensures Tells(LineText(l))
  {
    hide Classify, LooksLibconfig;
    LineSplits(l);
    assert LineText(l)[|l.indent| + |l.key|] == '=';
  }

  lemma HeaderTells(s: Section)
    requires IsSection(s)
    ensures Tells(Header(s))
  {
    hide Classify;
    ReadsHeader(Reading("", []), s);
    assert Header(s)[|s.name|] == ':' && Header(s)[0] == s.name[0];
  }

  lemma {:induction false} LinesTell(ls: seq<Line>)
    requires AllWellFormed(ls)
    ensures AllTell(Texts(ls))
  {
    hide LineText, Tells, WellFormed;
    if ls != [] {
      LineTells(ls[0]);
      LinesTell(ls[1..]);
    }
  }

  lemma {:induction false} SectionsTell(ss: seq<Section>)
    requires AllSections(ss)
    ensures AllTell(SectionTexts(ss))
  {
    hide Header, Tells, WellFormed, Texts;
    if ss != [] {
      HeaderTells(ss[0]);
      LinesTell(ss[0].inner);
      LinesTell(ss[0].after);
      SectionsTell(ss[1..]);
    }
  }

  /** In particular the text made of those lines is read so: every assignment, indented or not, and every header counts. */
  lemma WrittenSections(top: seq<Line>, ss: seq<Section>)
    requires AllWellFormed(top) && AllSections(ss) && AllPlain(FileTexts(top, ss))
    requires top != [] ==> !LooksLibconfig((top[0].key, top[0].val))
    ensures ReadFile(Unlines(FileTexts(top, ss))).1 == PutAll([], Named("", top) + SectionEntries(ss))
  {
    hide Lines, ReadFile, LooksLibconfig, Texts, SectionTexts, Named, SectionEntries, PutAll, Tells, IsSection, WellFormed;
    LinesUnlines(FileTexts(top, ss));
    LinesTell(top);
    SectionsTell(ss);
    ToldAll(FileTexts(top, ss));
    SectionedFile(Unlines(FileTexts(top, ss)), top, ss);
  }
}
