/** The legacy "key=value" syntax reads back what it wrote (src/config.c). */
module ConfigLegacy {
  import opened Text
  import opened ConfigStore
  import opened ConfigOrder
  import opened ConfigText

  /** What configSetStr lets into the list: a valid key and value that fit their buffers. */
  predicate Stored(e: Entry) {
    KeyValid(e.0) && |e.0| < KEY_LEN && |e.1| < VAL_LEN
  }

  /** An entry the legacy syntax carries: no line break, no leading blank or comment start on the key, no CR at the end. */
  predicate Carried(e: Entry) {
    && e.0 != "" && '\n' !in e.0 && '\n' !in e.1
    && !IsWs(e.0[0]) && !StartsComment(e.0) && !EndsWith(e.1, '\r')
  }

  /** The one kind of entry whose line looks like libconfig: "ident " in front of '=' and a ';' at the end. */
  predicate LooksLibconfig(e: Entry) {
    IsIdent(TrimEnd(e.0)) && EndsWith(TrimEnd(e.1), ';') && e.0 != "" && IsWs(e.0[|e.0| - 1])
  }

  /** Trailing blanks of a line are those of its last part. */
  lemma TrimEndConcat(a: string, b: string)
    requires EndsWith(a, '=')
    ensures TrimEnd(a + b) == a + TrimEnd(b)
  {
    var s := a + b;
    var m, k := TrimLen(s, |s|), TrimLen(b, |b|);
    assert forall i :: 0 <= i < |b| ==> s[|a| + i] == b[i];
    assert s[|a| - 1] == '=';
    assert k > 0 ==> s[|a| + k - 1] == b[k - 1];
    assert m > |a| ==> s[m - 1] == b[m - 1 - |a|];
    assert m == |a| + k;
    assert s[..m] == a + b[..k];
  }

  lemma EqOf(k: string, v: string)
    requires '=' !in k
    ensures IndexOf(k + "=" + v, '=') == |k|
    ensures (k + "=" + v)[..|k|] == k && (k + "=" + v)[|k| + 1..] == v
  {
    var s := k + "=" + v;
    assert s[|k|] == '=' && forall i :: 0 <= i < |k| ==> s[i] == k[i];
  }

  /** How a written line is classified. */
  lemma ClassifyLegacyLine(e: Entry)
    requires KeyValid(e.0) && !IsWs(e.0[0]) && !StartsComment(e.0)
    ensures Classify(LegacyLine(e)) == if LooksLibconfig(e) then Libconfig else Legacy
  {
    var line := LegacyLine(e);
    assert SkipWs(line) == 0 && TrimStart(line) == line;
    EqOf(e.0, e.1);
    assert line[0] == e.0[0];
    assert !StartsComment(line);
    TrimEndConcat(e.0 + "=", e.1);
  }

  /** A carried line puts exactly its entry into the set, whatever prefix was in force, and drops that prefix. */
  lemma ReadLegacyLine(st: Reading, e: Entry)
    requires Stored(e) && Carried(e)
    ensures ReadLegacy(st, LegacyLine(e)) == Reading("", SetEntry(st.entries, e.0, e.1))
  {
    var line := LegacyLine(e);
    assert line[0] == e.0[0];
    assert SkipWs(line) == 0 && TrimStart(line) == line;
    EqOf(e.0, e.1);
  }

  predicate AllStored(es: seq<Entry>) {
    forall i :: 0 <= i < |es| ==> Stored(es[i])
  }

  predicate AllCarried(es: seq<Entry>) {
    forall i :: 0 <= i < |es| ==> Carried(es[i])
  }

  function LinesOf(es: seq<Entry>): (lines: seq<string>)
    ensures |lines| == |es| && forall i :: 0 <= i < |es| ==> lines[i] == LegacyLine(es[i])
  {
    if es == [] then [] else [LegacyLine(es[0])] + LinesOf(es[1..])
  }

  /** The writer prints the persistent entries and nothing else. */
  lemma {:induction false} LegacyLinesOfSaved(es: seq<Entry>)
    ensures LegacyLines(es) == LinesOf(Saved(es))
    ensures forall i :: 0 <= i < |Saved(es)| ==> Persistent(Saved(es)[i].0)
  {
    if es != [] {
      LegacyLinesOfSaved(es[1..]);
      var rest := Saved(es[1..]);
      assert ([es[0]] + rest)[0] == es[0] && ([es[0]] + rest)[1..] == rest;
    }
  }

  /** Reading the lines of carried entries appends them in order. */
  lemma {:induction false} ReadLegacyLines(st: Reading, es: seq<Entry>)
    requires AllStored(es) && AllCarried(es) && Unique(st.entries + es)
    ensures ReadLines(LegacyFormat, st, LinesOf(es)).entries == st.entries + es
    decreases |es|
  {
    if es == [] {
      assert st.entries + es == st.entries;
    } else {
      var e, rest := es[0], es[1..];
      ClassifyLegacyLine(e);
      ReadLegacyLine(st, e);
      AppendNext(st.entries, es);
      ReadLegacyLines(Reading("", st.entries + [e]), rest);
      var lines := LinesOf(es);
      assert lines[0] == LegacyLine(e) && lines[1..] == LinesOf(rest);
    }
  }

  lemma PlainLegacyLine(e: Entry)
    requires Stored(e) && Carried(e) && Persistent(e.0)
    ensures PlainLine(LegacyLine(e))
  {
    var line := LegacyLine(e);
    assert line[|line| - 1] == if e.1 == "" then '=' else e.1[|e.1| - 1];
    assert line[0] == e.0[0];
  }

  /**
   Every carried legacy set is read back as the same persistent entries in the same order, and its file is
   latched as legacy, unless its first line looks like libconfig.
   */
  lemma LegacyRoundTrip(es: seq<Entry>)
    requires Unique(es) && AllStored(es) && AllCarried(Saved(es))
    requires Saved(es) != [] ==> !LooksLibconfig(Saved(es)[0])
    ensures ReadFile(WriteFile(LegacyFormat, es)) == (if Saved(es) == [] then None else Some(LegacyFormat), Saved(es))
  {
    var saved := Saved(es);
    LegacyLinesOfSaved(es);
    SavedKeeps(es);
    var lines := LegacyLines(es);
    assert lines == LinesOf(saved);
    forall i | 0 <= i < |lines|
      ensures PlainLine(lines[i])
    {
      PlainLegacyLine(saved[i]);
    }
    LinesUnlines(lines);
    assert [] + saved == saved;
    ReadLegacyLines(Reading("", []), saved);
    if saved != [] {
      ClassifyLegacyLine(saved[0]);
    }
  }

  lemma {:induction false} SavedKeeps(es: seq<Entry>)
    requires Unique(es) && AllStored(es)
    ensures Unique(Saved(es)) && AllStored(Saved(es))
    ensures forall e :: e in Saved(es) ==> e in es
  {
    if es != [] {
      SavedKeeps(es[1..]);
      var rest := Saved(es[1..]);
      forall j | 0 <= j < |rest|
        ensures rest[j].0 != es[0].0
      {
        assert rest[j] in es[1..];
      }
    }
  }

  // ----- when a set comes back -----

  /** An entry without line breaks, as a file of lines needs it. */
  predicate OneLine(e: Entry) {
    Stored(e) && Persistent(e.0) && '\n' !in e.0 && '\n' !in e.1
  }

  predicate AllOneLine(es: seq<Entry>)
    decreases |es|
  {
    es == [] || (OneLine(es[0]) && AllOneLine(es[1..]))
  }

  /** The line the reader sees for an entry. */
  function SeenLine(e: Entry): string {
    Chop(LegacyLine(e))
  }

  function SeenLines(es: seq<Entry>): seq<string>
    decreases |es|
  {
    if es == [] then [] else [SeenLine(es[0])] + SeenLines(es[1..])
  }

  lemma FirstSeen(e: Entry, rest: string)
    requires OneLine(e)
    ensures Lines(LegacyLine(e) + "\n" + rest) == [SeenLine(e)] + Lines(rest)
  {
    var line := LegacyLine(e);
    var text := line + "\n" + rest;
    assert text[|line|] == '\n' && forall k :: 0 <= k < |line| ==> text[k] == line[k] && line[k] in line;
    assert IndexOf(text, '\n') == |line| && text[..|line|] == line && text[|line| + 1..] == rest;
    assert line[0] == e.0[0] != '#' && Chop(line)[0] == line[0];
  }

  lemma {:induction false} LinesSeen(es: seq<Entry>)
    requires AllOneLine(es)
    ensures Lines(Unlines(LinesOf(es))) == SeenLines(es)
    decreases |es|
  {
    hide LegacyLine, SeenLine;
    if es == [] {
      assert Unlines([]) == "" && Lines("") == [];
    } else {
      var lines := LinesOf(es);
      assert lines[0] == LegacyLine(es[0]) && lines[1..] == LinesOf(es[1..]);
      LinesSeen(es[1..]);
      FirstSeen(es[0], Unlines(lines[1..]));
    }
  }

  /** A line of key and value adds at most one entry, at the end, and leaves no prefix where there was none. */
  lemma SeenAddsOne(st: Reading, e: Entry)
    requires OneLine(e) && st.scope == ""
    ensures var st' := ReadLine(LegacyFormat, st, SeenLine(e));
            && st'.scope == "" && |st'.entries| <= |st.entries| + 1
            && (|st'.entries| == |st.entries| + 1 ==> st'.entries[..|st.entries|] == st.entries)
  {
    hide Classify, Fit;
    var line := SeenLine(e);
    var p := TrimStart(line);
    SeenHasEq(e);
  }

  lemma SeenHasEq(e: Entry)
    requires OneLine(e)
    ensures var p := TrimStart(SeenLine(e)); IndexOf(p, '=') < |p|
  {
    var line := LegacyLine(e);
    var seen := SeenLine(e);
    var n := SkipWs(seen);
    assert line[|e.0|] == '=' && |seen| > |e.0| && seen[|e.0|] == '=' && n <= |e.0|;
    var p := TrimStart(seen);
    assert p[|e.0| - n] == '=';
  }

  /** An entry that is not carried is not what its line adds. */
  lemma NotAdded(st: Reading, e: Entry)
    requires OneLine(e) && st.scope == "" && !Carried(e)
    ensures ReadLine(LegacyFormat, st, SeenLine(e)).entries != st.entries + [e]
  {
    if IsWs(e.0[0]) {
      BlankNotAdded(st, e);
    } else if StartsComment(e.0) {
      var line := SeenLine(e);
      assert line[0] == e.0[0] && SkipWs(line) == 0 && TrimStart(line) == line;
      assert |st.entries + [e]| == |st.entries| + 1;
    } else {
      CrNotAdded(st, e);
    }
  }

  /** What setting an entry appends, it appends under that key and with that value. */
  lemma SetAppends(es: seq<Entry>, k: string, v: string, e: Entry)
    requires SetEntry(es, k, v) == es + [e]
    ensures e == (Fit(k, KEY_LEN), Fit(v, VAL_LEN))
  {
    var es' := SetEntry(es, k, v);
    assert |es'| == |es| + 1 && es'[|es|] == e;
  }

  /** A carriage return at the end of a value is lost. */
  lemma CrNotAdded(st: Reading, e: Entry)
    requires OneLine(e) && st.scope == "" && !IsWs(e.0[0]) && !StartsComment(e.0) && EndsWith(e.1, '\r')
    ensures ReadLine(LegacyFormat, st, SeenLine(e)).entries != st.entries + [e]
  {
    var e' := (e.0, e.1[..|e.1| - 1]);
    assert SeenLine(e) == LegacyLine(e');
    ClassifyLegacyLine(e');
    var line := LegacyLine(e');
    assert line[0] == e.0[0] && SkipWs(line) == 0 && TrimStart(line) == line;
    EqOf(e'.0, e'.1);
    if ReadLine(LegacyFormat, st, line).entries == st.entries + [e] {
      SetAppends(st.entries, e'.0, e'.1, e);
    }
  }

  /** A key with a leading blank never comes back as it was. */
  lemma BlankNotAdded(st: Reading, e: Entry)
    requires OneLine(e) && st.scope == "" && IsWs(e.0[0])
    ensures ReadLine(LegacyFormat, st, SeenLine(e)).entries != st.entries + [e]
  {
    hide Classify;
    var line := SeenLine(e);
    var p := TrimStart(line);
    SeenHasEq(e);
    var eq := IndexOf(p, '=');
    if ReadLine(LegacyFormat, st, line).entries == st.entries + [e] {
      assert |st.entries + [e]| == |st.entries| + 1;
      SetAppends(st.entries, Fit(p[..eq], KEY_LEN), Fit(p[eq + 1..], VAL_LEN), e);
    }
  }

  /** Reading lines adds at most one entry each; if they add as many, what was there stays, and each adds its own. */
  lemma {:induction false} SeenAddAll(st: Reading, es: seq<Entry>)
    requires AllOneLine(es) && st.scope == ""
    ensures var all := ReadLines(LegacyFormat, st, SeenLines(es)).entries;
            && |all| <= |st.entries| + |es|
            && (|all| == |st.entries| + |es| ==> st.entries <= all)
            && (all == st.entries + es ==> AllCarried(es))
    decreases |es|
  {
    hide ReadLine, SeenLine, OneLine, Carried;
    if es != [] {
      var line, rest := SeenLine(es[0]), es[1..];
      var st' := ReadLine(LegacyFormat, st, line);
      assert SeenLines(es)[0] == line && SeenLines(es)[1..] == SeenLines(rest);
      SeenAddsOne(st, es[0]);
      SeenAddAll(st', rest);
      var all := ReadLines(LegacyFormat, st', SeenLines(rest)).entries;
      if all == st.entries + es {
        AddedFirst(st.entries, st'.entries, es, all);
        if !Carried(es[0]) {
          NotAdded(st, es[0]);
        }
      }
    }
  }

  lemma AddedFirst(was: seq<Entry>, next: seq<Entry>, es: seq<Entry>, all: seq<Entry>)
    requires es != [] && all == was + es && |all| <= |next| + |es| - 1 && |next| <= |was| + 1
    requires |all| == |next| + |es| - 1 ==> next <= all
    ensures next == was + [es[0]] && all == next + es[1..]
  {
    assert next == all[..|was| + 1];
  }

  lemma LatchSeen(e: Entry, lines: seq<string>)
    requires OneLine(e) && Carried(e)
    ensures Latch([SeenLine(e)] + lines) == Some(if LooksLibconfig(e) then LibconfigFormat else LegacyFormat)
  {
    hide Classify, LooksLibconfig;
    ClassifyLegacyLine(e);
    assert SeenLine(e) == LegacyLine(e);
  }

  lemma ComesBackCarried(es: seq<Entry>)
    requires AllOneLine(Saved(es)) && Saved(es) != []
    requires ReadFile(WriteFile(LegacyFormat, es)) == (Some(LegacyFormat), Saved(es))
    ensures AllCarried(Saved(es)) && !LooksLibconfig(Saved(es)[0])
  {
    hide Lines, Unlines, ReadLine, LooksLibconfig, Carried, OneLine, SeenLine, Latch, ReadLines;
    var saved := Saved(es);
    LegacyLinesOfSaved(es);
    LinesSeen(saved);
    assert [] + saved == saved;
    SeenAddAll(Reading("", []), saved);
    LatchSeen(saved[0], SeenLines(saved[1..]));
  }

  /**
   A legacy set without line breaks comes back as itself, in the same format, if and only if every entry is carried
   and the first line does not look like libconfig.
   */
  lemma LegacySetExact(es: seq<Entry>)
    requires Unique(es) && AllStored(es) && AllOneLine(Saved(es)) && Saved(es) != []
    ensures ReadFile(WriteFile(LegacyFormat, es)) == (Some(LegacyFormat), Saved(es)) <==>
            AllCarried(Saved(es)) && !LooksLibconfig(Saved(es)[0])
  {
    hide ReadFile, WriteFile, AllCarried, LooksLibconfig;
    if AllCarried(Saved(es)) && !LooksLibconfig(Saved(es)[0]) {
      LegacyRoundTrip(es);
    } else if ReadFile(WriteFile(LegacyFormat, es)) == (Some(LegacyFormat), Saved(es)) {
      ComesBackCarried(es);
    }
  }

  /** For one entry. */
  lemma LegacyEntryExact(e: Entry)
    requires OneLine(e)
    ensures ReadFile(WriteFile(LegacyFormat, [e])) == (Some(LegacyFormat), [e]) <==> Carried(e) && !LooksLibconfig(e)
  {
    hide ReadFile, WriteFile, Carried;
    assert Saved([e]) == [e] by {
      assert Saved([e][1..]) == [];
    }
    assert AllOneLine([e][1..]);
    LegacySetExact([e]);
  }
}
