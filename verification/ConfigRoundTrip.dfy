/** Whole libconfig files: blocks, latching and the round trip of a set (src/config.c). */
module ConfigRoundTrip {
  import opened Text
  import opened ConfigStore
  import opened ConfigOrder
  import opened ConfigText
  import opened ConfigTable
  import opened ConfigLegacy
  import opened ConfigLibconfig

  // ----- names -----

  /** The tail of a short identifier text is a name the grammar carries. */
  lemma IdentName(w: string, i: nat)
    requires IsIdentFrom(w, i) && |w| < KEY_LEN
    ensures NameOk(w[i..]) && w[i..][0] != '#'
  {
    var n := w[i..];
    assert forall k :: 0 <= k < |n| ==> n[k] == w[i + k];
    assert IsIdentChar(n[|n| - 1]);
  }

  function Scope(g: Option<string>): string {
    if g.None? then "" else g.value
  }

  /** Inside its block an entry's printed name stands for its key. */
  lemma NameStandsForKey(e: Entry, g: Option<string>)
    requires CarriedLib(e) && Persistent(e.0) && EmitGroup(e.0) == g
    ensures NameOk(NameIn(g, e.0)) && NameIn(g, e.0)[0] != '#'
    ensures |Flat(Scope(g), NameIn(g, e.0))| < KEY_LEN && OursOf(Flat(Scope(g), NameIn(g, e.0))) == e.0
    ensures g.Some? ==> g.value in GROUPS
  {
    if OursToWopl(e.0).Some? {
      TableInverse(e.0);
      var w := EmitName(e.0);
      if g.None? {
        IdentName(w, 0);
        assert w[0..] == w;
      } else {
        IdentName(w, |g.value| + 1);
        GroupSplits(w, g.value);
      }
    }
  }

  lemma GroupHeader(g: string)
    requires g in GROUPS
    ensures 0 < |g| < KEY_LEN && !IsWs(g[0]) && !IsWs(g[|g| - 1]) && IsAlpha(g[0])
    ensures forall k :: 0 <= k < |g| ==> g[k] != '=' && g[k] != ':' && g[k] != '\n'
  {
    var i :| 0 <= i < |GROUPS| && g == GROUPS[i];
    assert GROUPS[0] == "gsm" && GROUPS[1] == "cheat" && GROUPS[2] == "pademu" && GROUPS[3] == "padmacro" && GROUPS[4] == "osd";
  }

  /** Where the pieces of a header line are. */
  lemma HeaderParts(g: string)
    requires g != "" && !IsWs(g[0]) && !IsWs(g[|g| - 1]) && forall k :: 0 <= k < |g| ==> g[k] != '=' && g[k] != ':'
    ensures var p := g + " :";
            && SkipWs(p) == 0 && TrimStart(p) == p && p[0] == g[0]
            && IndexOf(p, '=') == |p| && IndexOf(p, ':') == |g| + 1 && TrimEnd(p[..|g| + 1]) == g
  {
    var p := g + " :";
    assert p[|g|] == ' ' && p[|g| + 1] == ':' && forall k :: 0 <= k < |g| ==> p[k] == g[k];
    var key := p[..|g| + 1];
    assert key[..|key| - 1] == g && key[|key| - 1] == ' ' && TrimLen(key, |key|) == TrimLen(key, |g|);
  }

  lemma ReadHeader(st: Reading, g: string)
    requires g in GROUPS
    ensures ReadLine(LibconfigFormat, st, g + " :") == st.(scope := g)
    ensures PlainLine(g + " :") && Classify(g + " :") == Legacy
  {
    hide TrimStart, TrimEnd, SkipWs, IndexOf, IsIdent;
    GroupHeader(g);
    HeaderParts(g);
  }

  lemma ReadBraces(st: Reading)
    ensures ReadLine(LibconfigFormat, st, "{") == st && PlainLine("{")
    ensures ReadLine(LibconfigFormat, st, "};") == st.(scope := "") && PlainLine("};")
  {
    assert SkipWs("{") == 0 && TrimStart("{") == "{" && IndexOf("{", '=') == 1;
    assert SkipWs("};") == 0 && TrimStart("};") == "};" && IndexOf("};", '=') == 2;
  }

  // ----- blocks -----

  /** Entries that belong to one block and can be carried. */
  ghost predicate OfBlock(es: seq<Entry>, g: Option<string>) {
    forall i :: 0 <= i < |es| ==> CarriedLib(es[i]) && Persistent(es[i].0) && EmitGroup(es[i].0) == g
  }

  lemma FlatOurs(scope: string, name: string)
    ensures Flat(scope, name) == if scope == "" then name else scope + "_" + name
    ensures var flat := Flat(scope, name); OursOf(flat) == if WoplToOurs(flat).Some? then WoplToOurs(flat).value else flat
  {
    hide WoplToOurs;
  }

  /** One scalar line of a block stores its entry, and is a plain line. */
  lemma ReadEntry(st: Reading, g: Option<string>, e: Entry)
    requires CarriedLib(e) && Persistent(e.0) && EmitGroup(e.0) == g && st.scope == Scope(g)
    ensures ReadLine(LibconfigFormat, st, EntryLine(g, e)) == Reading(st.scope, SetEntry(st.entries, e.0, e.1))
    ensures PlainLine(EntryLine(g, e))
  {
    hide LibLine, ReadLine, SetEntry, NameIn, Flat, OursOf, PlainLine;
    var indent := if g.None? then "" else "  ";
    NameStandsForKey(e, g);
    FlatOurs(st.scope, NameIn(g, e.0));
    hide WoplToOurs;
    ReadScalar(st, indent, NameIn(g, e.0), e.1, e.0);
    ScalarIsPlain(indent, NameIn(g, e.0), e.1);
  }

  lemma ReadFirst(st: Reading, line: string, lines: seq<string>)
    ensures ReadLines(LibconfigFormat, st, [line] + lines) == ReadLines(LibconfigFormat, ReadLine(LibconfigFormat, st, line), lines)
  {
    hide ReadLine;
    assert ([line] + lines)[1..] == lines;
  }

  /** Reading the scalar lines of a block under its scope appends its entries in order. */
  lemma {:induction false} ReadScalars(st: Reading, g: Option<string>, es: seq<Entry>)
    requires OfBlock(es, g) && st.scope == Scope(g) && Unique(st.entries + es)
    ensures ReadLines(LibconfigFormat, st, ScalarLines(g, es)) == Reading(st.scope, st.entries + es)
    decreases |es|
  {
    hide EntryLine, ReadLine, SetEntry, CarriedLib, Persistent, EmitGroup, Unique;
    if es == [] {
      assert st.entries + es == st.entries;
    } else {
      var e, rest := es[0], es[1..];
      ReadEntry(st, g, e);
      ReadFirst(st, EntryLine(g, e), ScalarLines(g, rest));
      assert |e.0| < KEY_LEN && |e.1| < VAL_LEN by { CarriedIsShort(e); }
      AppendNext(st.entries, es);
      ReadScalars(Reading(st.scope, st.entries + [e]), g, rest);
    }
  }

  lemma CarriedIsShort(e: Entry)
    requires CarriedLib(e)
    ensures |e.0| < KEY_LEN && |e.1| < VAL_LEN
  {
  }

  lemma {:induction false} ScalarsArePlain(g: Option<string>, es: seq<Entry>)
    requires OfBlock(es, g)
    ensures AllPlain(ScalarLines(g, es))
    decreases |es|
  {
    hide EntryLine, CarriedLib, Persistent, EmitGroup, PlainLine, ReadLine, SetEntry;
    if es != [] {
      ReadEntry(Reading(Scope(g), []), g, es[0]);
      ScalarsArePlain(g, es[1..]);
    }
  }

  /** A header line, a brace, the scalars and a closing line, read one after the other. */
  lemma ReadFramed(st: Reading, open: string, brace: string, scalars: seq<string>, close: string,
                   inside: Reading, after: Reading)
    requires ReadLine(LibconfigFormat, st, open) == inside && ReadLine(LibconfigFormat, inside, brace) == inside
    requires ReadLines(LibconfigFormat, inside, scalars) == after
    ensures ReadLines(LibconfigFormat, st, [open, brace] + scalars + [close]) == ReadLine(LibconfigFormat, after, close)
  {
    assert [open, brace] + scalars + [close] == [open] + ([brace] + (scalars + [close]));
    ReadLinesConcat(LibconfigFormat, st, [open], [brace] + (scalars + [close]));
    ReadOne(LibconfigFormat, st, open);
    ReadLinesConcat(LibconfigFormat, inside, [brace], scalars + [close]);
    ReadOne(LibconfigFormat, inside, brace);
    ReadLinesConcat(LibconfigFormat, inside, scalars, [close]);
    ReadOne(LibconfigFormat, after, close);
  }

  lemma ReadBlock(st: Reading, g: string, es: seq<Entry>)
    requires OfBlock(es, Some(g)) && st.scope == "" && Unique(st.entries + es)
    ensures ReadLines(LibconfigFormat, st, Block(g, es)) == Reading("", st.entries + es)
  {
    if es == [] {
      assert st.entries + es == st.entries;
    } else {
      var inside, after := Reading(g, st.entries), Reading(g, st.entries + es);
      assert ReadLine(LibconfigFormat, st, g + " :") == inside by {
        NameStandsForKey(es[0], Some(g));
        ReadHeader(st, g);
      }
      ReadBraces(inside);
      ReadBraces(after);
      ReadScalars(inside, Some(g), es);
      ReadFramed(st, g + " :", "{", ScalarLines(Some(g), es), "};", inside, after);
    }
  }

  lemma BlockIsPlain(g: string, es: seq<Entry>)
    requires OfBlock(es, Some(g))
    ensures AllPlain(Block(g, es))
  {
    if es != [] {
      assert PlainLine(g + " :") by {
        NameStandsForKey(es[0], Some(g));
        ReadHeader(Reading("", []), g);
      }
      ScalarsArePlain(Some(g), es);
      PlainFrame(g + " :", ScalarLines(Some(g), es));
    }
  }

  lemma PlainFrame(open: string, scalars: seq<string>)
    requires PlainLine(open) && AllPlain(scalars)
    ensures AllPlain([open, "{"] + scalars + ["};"])
  {
    assert PlainLine("{") && PlainLine("};");
  }

  /** Entries of the listed groups, in schema order. */
  function Grouped(groups: seq<string>, es: seq<Entry>): seq<Entry> {
    if groups == [] then [] else Grouped(groups[..|groups| - 1], es) + InBlock(es, Some(groups[|groups| - 1]))
  }

  /** What the file holds, in file order. */
  function Emitted(es: seq<Entry>): seq<Entry> {
    InBlock(es, None) + Grouped(GROUPS, es)
  }

  ghost predicate AllCarriedLib(es: seq<Entry>) {
    forall e :: e in es && Persistent(e.0) ==> CarriedLib(e)
  }

  lemma {:induction false} InBlockMembers(es: seq<Entry>, g: Option<string>)
    ensures forall e :: e in InBlock(es, g) <==> e in es && Persistent(e.0) && EmitGroup(e.0) == g
  {
    if es != [] {
      InBlockMembers(es[1..], g);
      assert es == [es[0]] + es[1..];
    }
  }

  lemma {:induction false} InBlockUnique(es: seq<Entry>, g: Option<string>)
    requires Unique(es)
    ensures Unique(InBlock(es, g))
  {
    if es != [] {
      InBlockUnique(es[1..], g);
      InBlockMembers(es[1..], g);
      var rest := InBlock(es[1..], g);
      forall j | 0 <= j < |rest|
        ensures rest[j].0 != es[0].0
      {
        assert rest[j] in es[1..];
      }
    }
  }

  lemma BlockOf(es: seq<Entry>, g: Option<string>)
    requires AllCarriedLib(es)
    ensures OfBlock(InBlock(es, g), g)
  {
    InBlockMembers(es, g);
  }

  lemma {:induction false} ReadBlocks(st: Reading, groups: seq<string>, es: seq<Entry>)
    requires AllCarriedLib(es) && st.scope == "" && Unique(st.entries + Grouped(groups, es))
    ensures ReadLines(LibconfigFormat, st, Blocks(groups, es)) == Reading("", st.entries + Grouped(groups, es))
    decreases |groups|
  {
    if groups == [] {
      assert st.entries + [] == st.entries;
    } else {
      var init, g := groups[..|groups| - 1], groups[|groups| - 1];
      var before, here := Grouped(init, es), InBlock(es, Some(g));
      assert st.entries + Grouped(groups, es) == (st.entries + before) + here;
      UniquePrefix(st.entries + before, here);
      ReadBlocks(st, init, es);
      BlockOf(es, Some(g));
      ReadBlock(Reading("", st.entries + before), g, here);
      ReadLinesConcat(LibconfigFormat, st, Blocks(init, es), Block(g, here));
    }
  }

  lemma {:induction false} BlocksArePlain(groups: seq<string>, es: seq<Entry>)
    requires AllCarriedLib(es)
    ensures AllPlain(Blocks(groups, es))
  {
    if groups != [] {
      var g := groups[|groups| - 1];
      BlockOf(es, Some(g));
      BlockIsPlain(g, InBlock(es, Some(g)));
      BlocksArePlain(groups[..|groups| - 1], es);
    }
  }

  lemma UniquePrefix(a: seq<Entry>, b: seq<Entry>)
    requires Unique(a + b)
    ensures Unique(a)
  {
    assert forall i :: 0 <= i < |a| ==> a[i] == (a + b)[i];
  }

  // ----- the whole set -----

  lemma UniqueJoin(a: seq<Entry>, b: seq<Entry>)
    requires Unique(a) && Unique(b) && forall x, y :: x in a && y in b ==> x.0 != y.0
    ensures Unique(a + b)
  {
    var s := a + b;
    forall i, j | 0 <= i < j < |s|
      ensures s[i].0 != s[j].0
    {
      assert i < |a| <= j ==> s[i] in a && s[j] in b;
    }
  }

  predicate Distinct(groups: seq<string>) {
    forall i, j :: 0 <= i < j < |groups| ==> groups[i] != groups[j]
  }

  lemma {:induction false} GroupedMembers(groups: seq<string>, es: seq<Entry>)
    ensures forall e :: e in Grouped(groups, es) <==>
              e in es && Persistent(e.0) && EmitGroup(e.0).Some? && EmitGroup(e.0).value in groups
  {
    if groups != [] {
      var init, g := groups[..|groups| - 1], groups[|groups| - 1];
      InBlockMembers(es, Some(g));
      GroupedMembers(init, es);
      assert groups == init + [g];
    }
  }

  lemma {:induction false} GroupedUnique(groups: seq<string>, es: seq<Entry>)
    requires Unique(es) && Distinct(groups)
    ensures Unique(Grouped(groups, es))
  {
    if groups != [] {
      var init, g := groups[..|groups| - 1], groups[|groups| - 1];
      GroupedUnique(init, es);
      InBlockUnique(es, Some(g));
      InBlockMembers(es, Some(g));
      GroupedMembers(init, es);
      assert g !in init;
      UniqueJoin(Grouped(init, es), InBlock(es, Some(g)));
    }
  }

  lemma GroupsDiffer()
    ensures Distinct(GROUPS)
  {
    assert "gsm"[0] == 'g' && "cheat"[0] == 'c' && "osd"[0] == 'o' && "pademu"[0] == 'p' && "padmacro"[0] == 'p';
  }

  /** Root entries followed by the grouped ones: the file order is a rearrangement of the persistent entries. */
  lemma EmittedIsSaved(es: seq<Entry>)
    requires Unique(es) && AllStored(es)
    ensures Unique(Emitted(es)) && Unique(Saved(es))
    ensures forall e :: e in Emitted(es) <==> e in Saved(es)
  {
    GroupsDiffer();
    GroupedUnique(GROUPS, es);
    GroupedMembers(GROUPS, es);
    InBlockUnique(es, None);
    InBlockMembers(es, None);
    UniqueJoin(InBlock(es, None), Grouped(GROUPS, es));
    SavedKeeps(es);
    SavedMembers(es);
  }

  lemma {:induction false} SavedMembers(es: seq<Entry>)
    ensures forall e :: e in Saved(es) <==> e in es && Persistent(e.0)
  {
    if es != [] {
      SavedMembers(es[1..]);
      assert es == [es[0]] + es[1..];
    }
  }

  function Lookup(es: seq<Entry>, key: string): Option<string> {
    var i := Find(es, key);
    if i == |es| then None else Some(es[i].1)
  }

  /** Two lists with unique keys and the same entries are the same map. */
  lemma SameMap(a: seq<Entry>, b: seq<Entry>, key: string)
    requires Unique(a) && Unique(b) && forall e :: e in a <==> e in b
    ensures Lookup(a, key) == Lookup(b, key)
  {
    var i, j := Find(a, key), Find(b, key);
    if i < |a| {
      assert a[i] in b;
    }
    if j < |b| {
      assert b[j] in a;
    }
  }

  /** The first line of the file is a scalar whose name is an identifier. */
  predicate FirstIsIdent(es: seq<Entry>) {
    InBlock(es, None) != [] && IsIdent(NameIn(None, InBlock(es, None)[0].0))
  }

  lemma LinesArePlain(es: seq<Entry>)
    requires AllCarriedLib(es)
    ensures AllPlain(LibconfigLines(es))
  {
    BlockOf(es, None);
    ScalarsArePlain(None, InBlock(es, None));
    BlocksArePlain(GROUPS, es);
  }

  /** The first block that is not empty starts with its header. */
  lemma {:induction false} FirstBlockLine(groups: seq<string>, es: seq<Entry>)
    requires forall g :: g in groups ==> g in GROUPS
    ensures Grouped(groups, es) == [] ==> Blocks(groups, es) == []
    ensures Grouped(groups, es) != [] ==>
              Blocks(groups, es) != [] && exists g :: g in GROUPS && Blocks(groups, es)[0] == g + " :"
  {
    if groups != [] {
      var init, g := groups[..|groups| - 1], groups[|groups| - 1];
      FirstBlockLine(init, es);
      assert InBlock(es, Some(g)) != [] ==> Block(g, InBlock(es, Some(g)))[0] == g + " :";
    }
  }

  lemma LatchEntry(e: Entry)
    requires CarriedLib(e) && Persistent(e.0) && EmitGroup(e.0) == None
    ensures Classify(EntryLine(None, e)) == if IsIdent(NameIn(None, e.0)) then Libconfig else Legacy
  {
    hide Classify, LibLine, NameIn;
    NameStandsForKey(e, None);
    LatchScalar(NameIn(None, e.0), e.1);
  }

  /** Format detection on a written file: libconfig is latched again exactly when the first line is an identifier scalar. */
  lemma LatchExact(es: seq<Entry>)
    requires AllCarriedLib(es) && Emitted(es) != []
    ensures Latch(LibconfigLines(es)) == Some(if FirstIsIdent(es) then LibconfigFormat else LegacyFormat)
  {
    hide Classify, LibLine, NameIn, CarriedLib, Block, PlainLine, ReadLine;
    var roots, lines := InBlock(es, None), LibconfigLines(es);
    if roots != [] {
      BlockOf(es, None);
      LatchEntry(roots[0]);
      assert lines[0] == EntryLine(None, roots[0]);
    } else {
      FirstBlockLine(GROUPS, es);
      var g :| g in GROUPS && Blocks(GROUPS, es)[0] == g + " :";
      ReadHeader(Reading("", []), g);
      assert lines[0] == g + " :";
    }
  }

  /** Reading the printed lines as libconfig yields the file-order entries. */
  lemma ReadBack(es: seq<Entry>)
    requires Unique(es) && AllStored(es) && AllCarriedLib(es)
    ensures ReadLines(LibconfigFormat, Reading("", []), LibconfigLines(es)).entries == Emitted(es)
  {
    var roots := InBlock(es, None);
    EmittedIsSaved(es);
    UniquePrefix(roots, Grouped(GROUPS, es));
    BlockOf(es, None);
    assert [] + roots == roots;
    ReadScalars(Reading("", []), None, roots);
    ReadBlocks(Reading("", roots), GROUPS, es);
    ReadLinesConcat(LibconfigFormat, Reading("", []), ScalarLines(None, roots), Blocks(GROUPS, es));
  }

  /**
   A carried libconfig set with at least one persistent entry is latched as libconfig again and read back as
   the same key-to-value map, exactly when its first printed line is an identifier scalar.
   */
  lemma LibconfigRoundTrip(es: seq<Entry>)
    requires Unique(es) && AllStored(es) && AllCarriedLib(es) && Saved(es) != []
    ensures ReadFile(WriteFile(LibconfigFormat, es)) == (Some(LibconfigFormat), Emitted(es)) <==> FirstIsIdent(es)
    ensures forall key :: Lookup(Emitted(es), key) == Lookup(Saved(es), key)
  {
    LinesArePlain(es);
    LinesUnlines(LibconfigLines(es));
    EmittedIsSaved(es);
    assert Saved(es)[0] in Emitted(es);
    LatchExact(es);
    ReadBack(es);
    forall key
      ensures Lookup(Emitted(es), key) == Lookup(Saved(es), key)
    {
      SameMap(Emitted(es), Saved(es), key);
    }
  }
}
