/** The reading and writing loops of src/config.c, over the linked list and through their fixed buffers. */
module ConfigIO {
  import opened Text
  import opened ConfigStore
  import opened ConfigText
  import opened ConfigTable

  const ESC_SIZE: nat := 2 * VAL_LEN
  const LINE_SIZE: nat := KEY_LEN + 2 * VAL_LEN + 16

  // ----- buffers -----

  lemma {:induction false} EscapeAppend(v: string, c: char)
    ensures Escape(v + [c]) == Escape(v) + (if NeedsEscape(c) then ['\\', c] else [c])
  {
    if v == "" {
      assert v + [c] == [c] && Escape([c][1..]) == "";
    } else {
      assert (v + [c])[1..] == v[1..] + [c];
      EscapeAppend(v[1..], c);
    }
  }

  lemma {:induction false} EscapeLength(v: string)
    ensures |v| <= |Escape(v)| <= 2 * |v|
  {
    if v != "" {
      EscapeLength(v[1..]);
    }
  }

  /** The escape loop with its buffer test: no stored value is ever cut. */
  method EscapeValue(val: string) returns (esc: string)
    requires |val| < VAL_LEN
    ensures esc == Escape(val) && |esc| < ESC_SIZE
  {
    esc := "";
    var p := 0;
    while p < |val| && |esc| + 2 < ESC_SIZE
      invariant 0 <= p <= |val| && esc == Escape(val[..p]) && |esc| <= 2 * p
    {
      assert val[..p + 1] == val[..p] + [val[p]];
      EscapeAppend(val[..p], val[p]);
      if NeedsEscape(val[p]) {
        esc := esc + ['\\'];
      }
      esc := esc + [val[p]];
      p := p + 1;
    }
    assert val[..p] == val;
  }

  /** One character of the unescape loop: how far it steps and what it stores. */
  lemma UnescapeStep(raw: string, v: nat, val: string)
    requires v < |raw|
    ensures var skip := raw[v] == '\\' && v + 1 < |raw| && NeedsEscape(raw[v + 1]);
            var w := if skip then v + 1 else v;
            val + Unescape(raw[v..]) == val + [raw[w]] + Unescape(raw[w + 1..])
  {
    var rest := raw[v..];
    assert |rest| > 1 ==> rest[1] == raw[v + 1] && rest[2..] == raw[v + 2..];
    assert rest[0] == raw[v] && rest[1..] == raw[v + 1..];
  }

  /** The unescape loop with its buffer test. */
  method UnescapeValue(raw: string) returns (val: string)
    ensures val == Fit(Unescape(raw), VAL_LEN)
  {
    hide Unescape;
    val := "";
    var v := 0;
    assert raw[0..] == raw && "" + Unescape(raw) == Unescape(raw);
    while v < |raw| && |val| < VAL_LEN - 1
      invariant 0 <= v <= |raw| && |val| < VAL_LEN && val + Unescape(raw[v..]) == Unescape(raw)
    {
      UnescapeStep(raw, v, val);
      if raw[v] == '\\' && v + 1 < |raw| && NeedsEscape(raw[v + 1]) {
        v := v + 1;
      }
      val := val + [raw[v]];
      v := v + 1;
    }
    UnescapeNonempty(raw[v..]);
  }

  lemma UnescapeNonempty(s: string)
    ensures Unescape(s) == "" <==> s == ""
  {
  }

  /** cfgWriteLibconfigLine: what snprintf leaves in the line buffer is the whole line and its LF. */
  method WriteLibconfigLine(indent: string, key: string, val: string) returns (line: string)
    requires |indent| <= 2 && |key| < KEY_LEN && |val| < VAL_LEN
    ensures line == LibLine(indent, key, val) && line + "\n" == Fit(line + "\n", LINE_SIZE)
  {
    if IsBareScalar(val) {
      line := indent + key + " = " + val + ";";
    } else {
      var esc := EscapeValue(val);
      EscapeLength(val);
      line := indent + key + " = " + ("\"" + esc + "\"") + ";";
    }
  }

  // ----- writing, one line per call of writeFileBuffer -----

  lemma {:induction false} LegacyAppend(es: seq<Entry>, e: Entry)
    ensures LegacyLines(es + [e]) == LegacyLines(es) + (if Persistent(e.0) then [LegacyLine(e)] else [])
  {
    if es == [] {
      assert es + [e] == [e] && LegacyLines([e][1..]) == [];
    } else {
      assert (es + [e])[1..] == es[1..] + [e];
      LegacyAppend(es[1..], e);
    }
  }

  lemma {:induction false} InBlockAppend(es: seq<Entry>, e: Entry, g: Option<string>)
    ensures InBlock(es + [e], g) == InBlock(es, g) + (if Persistent(e.0) && EmitGroup(e.0) == g then [e] else [])
  {
    if es == [] {
      assert es + [e] == [e] && InBlock([e][1..], g) == [];
    } else {
      assert (es + [e])[0] == es[0] && (es + [e])[1..] == es[1..] + [e];
      InBlockAppend(es[1..], e, g);
      var h := if Persistent(es[0].0) && EmitGroup(es[0].0) == g then [es[0]] else [];
      var t := if Persistent(e.0) && EmitGroup(e.0) == g then [e] else [];
      assert InBlock(es, g) == h + InBlock(es[1..], g);
      assert h + (InBlock(es[1..], g) + t) == (h + InBlock(es[1..], g)) + t;
    }
  }

  lemma {:induction false} ScalarsAppend(g: Option<string>, es: seq<Entry>, e: Entry)
    ensures ScalarLines(g, es + [e]) == ScalarLines(g, es) + [EntryLine(g, e)]
  {
    if es == [] {
      assert es + [e] == [e] && ScalarLines(g, [e][1..]) == [];
    } else {
      assert (es + [e])[0] == es[0] && (es + [e])[1..] == es[1..] + [e];
      ScalarsAppend(g, es[1..], e);
    }
  }

  /** One more list node: its line is printed or skipped. */
  lemma BlockStep(g: Option<string>, es: seq<Entry>, i: nat)
    requires i < |es|
    ensures var here, next := InBlock(es[..i], g), InBlock(es[..i + 1], g);
            if Persistent(es[i].0) && EmitGroup(es[i].0) == g
            then next != [] && ScalarLines(g, next) == ScalarLines(g, here) + [EntryLine(g, es[i])]
            else next == here
  {
    assert es[..i + 1] == es[..i] + [es[i]];
    InBlockAppend(es[..i], es[i], g);
    ScalarsAppend(g, InBlock(es[..i], g), es[i]);
  }

  /** The legacy branch of configWrite. */
  method WriteLegacy(cfg: ConfigSet) returns (out: seq<string>)
    requires cfg.Valid()
    ensures out == LegacyLines(cfg.Entries())
  {
    out := [];
    var cur := cfg.head;
    ghost var i, es := 0, cfg.Entries();
    while cur != null
      invariant i <= |es| && cur == (if i < |es| then cfg.nodes[i] else null)
      invariant out == LegacyLines(es[..i])
      decreases |es| - i
    {
      assert es[..i + 1] == es[..i] + [es[i]];
      LegacyAppend(es[..i], es[i]);
      assert es[i] == (cur.key, cur.val) && cfg.nodes[i].next == cur.next;
      if Persistent(cur.key) {
        out := out + [cur.key + "=" + cur.val];
      }
      cur := cur.next;
      i := i + 1;
    }
    assert es[..i] == es;
  }

  /** A stored key is printed under a name that fits a key's field: the table's names are short. */
  lemma NameFits(key: Key, g: Option<string>)
    ensures |NameIn(g, key)| < KEY_LEN
  {
    if OursToWopl(key).Some? {
      TableInverse(key);
    }
  }

  lemma NoScalars(g: Option<string>)
    ensures InBlock([], g) == [] && ScalarLines(g, []) == []
  {
  }

  /** The scalar lines of the root or of one group, and whether there were any. */
  method WriteScalars(cfg: ConfigSet, g: Option<string>) returns (out: seq<string>, any: bool)
    requires cfg.Valid()
    ensures out == ScalarLines(g, InBlock(cfg.Entries(), g)) && (any <==> InBlock(cfg.Entries(), g) != [])
  {
    hide Persistent, EmitGroup, NameIn, InBlock, ScalarLines, LibLine;
    NoScalars(g);
    out, any := [], false;
    var cur := cfg.head;
    ghost var i, es := 0, cfg.Entries();
    assert es[..0] == [];
    while cur != null
      invariant i <= |es| && cur == (if i < |es| then cfg.nodes[i] else null)
      invariant out == ScalarLines(g, InBlock(es[..i], g)) && (any <==> InBlock(es[..i], g) != [])
      decreases |es| - i
    {
      BlockStep(g, es, i);
      NameFits(cur.key, g);
      assert es[i] == (cur.key, cur.val) && cfg.nodes[i].next == cur.next;
      if Persistent(cur.key) && EmitGroup(cur.key) == g {
        any := true;
        var line := WriteLibconfigLine(if g.None? then "" else "  ", NameIn(g, cur.key), cur.val);
        out := out + [line];
      }
      cur := cur.next;
      i := i + 1;
    }
    assert es[..i] == es;
  }

  /** One turn of pass 2: the block of a group, if it has entries. */
  method WriteBlock(cfg: ConfigSet, g: string) returns (lines: seq<string>)
    requires cfg.Valid()
    ensures lines == Block(g, InBlock(cfg.Entries(), Some(g)))
  {
    var scalars, any := WriteScalars(cfg, Some(g));
    lines := if any then [g + " :", "{"] + scalars + ["};"] else [];
  }

  /** Pass 2 of cfgWriteLibconfig: one block per group that has entries. */
  method WriteBlocks(cfg: ConfigSet, groups: seq<string>) returns (blocks: seq<string>)
    requires cfg.Valid()
    ensures blocks == Blocks(groups, cfg.Entries())
  {
    hide Block, InBlock;
    blocks := [];
    for i := 0 to |groups|
      invariant blocks == Blocks(groups[..i], cfg.Entries())
    {
      var lines := WriteBlock(cfg, groups[i]);
      assert groups[..i + 1][..i] == groups[..i];
      blocks := blocks + lines;
    }
    assert groups[..|groups|] == groups;
  }

  /** cfgWriteLibconfig. */
  method WriteLibconfig(cfg: ConfigSet) returns (out: seq<string>)
    requires cfg.Valid()
    ensures out == LibconfigLines(cfg.Entries())
  {
    var roots, _ := WriteScalars(cfg, None);
    var blocks := WriteBlocks(cfg, GROUPS);
    out := roots + blocks;
  }

  // ----- reading -----

  /** configSetStr with memory to spare. */
  method Store(cfg: ConfigSet, key: string, val: string)
    requires cfg.Valid()
    modifies cfg, cfg.nodes
    ensures cfg.Valid() && cfg.Entries() == Put(old(cfg.Entries()), key, val)
    ensures forall i :: 0 <= i < |cfg.nodes| ==> cfg.nodes[i] in old(cfg.nodes) || fresh(cfg.nodes[i])
  {
    var _ := cfg.SetStr(key, val, true);
  }

  method ApplyLegacy(cfg: ConfigSet, prefix: string, line: string) returns (prefix': string)
    requires cfg.Valid()
    modifies cfg, cfg.nodes
    ensures cfg.Valid() && Reading(prefix', cfg.Entries()) == ReadLegacy(Reading(prefix, old(cfg.Entries())), line)
    ensures forall i :: 0 <= i < |cfg.nodes| ==> cfg.nodes[i] in old(cfg.nodes) || fresh(cfg.nodes[i])
  {
    hide Put, Fit;
    prefix' := prefix;
    match SplitAssignment(line)
    case Some((key, val)) =>
      if line == "" || !IsWs(line[0]) {
        prefix' := "";
      }
      if prefix' != "" {
        Store(cfg, Fit(prefix' + "_" + key, 2 * KEY_LEN), val);
      } else {
        Store(cfg, key, val);
      }
    case None =>
      var colon := IndexOf(line, ':');
      if 0 < colon < |line| {
        prefix' := Fit(line[..colon], KEY_LEN);
      }
  }

  method SkipBlanks(s: string) returns (n: nat)
    ensures n == SkipWs(s)
  {
    n := 0;
    while n < |s| && IsWs(s[n])
      invariant n <= |s| && SkipWsFrom(s, n) == SkipWs(s)
    {
      n := n + 1;
    }
  }

  method TrimBlanks(s: string) returns (r: string)
    ensures r == TrimEnd(s)
  {
    var end := |s|;
    while end > 0 && IsWs(s[end - 1])
      invariant 0 <= end <= |s| && TrimLen(s, end) == TrimLen(s, |s|)
    {
      end := end - 1;
    }
    r := s[..end];
  }

  /** The value part of cfgReadLibconfigLine: quotes stripped, escapes undone, cut to the value buffer. */
  method ReadValue(text: string) returns (val: string)
    ensures val == ValueOf(text)
  {
    hide Unescape;
    var n := SkipBlanks(text);
    var v := text[n..];
    if v != "" && v[0] == '"' {
      assert |v| > 1 ==> v[1..][..|v| - 2] == v[1..|v| - 1];
      v := v[1..];
      if EndsWith(v, '"') {
        v := v[..|v| - 1];
      }
      val := UnescapeValue(v);
    } else {
      val := Fit(v, VAL_LEN);
    }
  }

  method ReadStatement(p: string) returns (body: string)
    ensures body == Statement(p)
  {
    body := TrimBlanks(p);
    if EndsWith(body, ';') {
      body := body[..|body| - 1];
    }
    body := TrimBlanks(body);
  }

  /** cfgReadLibconfigLine. */
  method ApplyLibconfig(cfg: ConfigSet, group: string, line: string) returns (group': string)
    requires cfg.Valid()
    modifies cfg, cfg.nodes
    ensures cfg.Valid() && Reading(group', cfg.Entries()) == ReadLibconfig(Reading(group, old(cfg.Entries())), line)
    ensures forall i :: 0 <= i < |cfg.nodes| ==> cfg.nodes[i] in old(cfg.nodes) || fresh(cfg.nodes[i])
  {
    hide Put, SkipWs, TrimEnd, Statement, ValueOf, OursOf, Fit, Flat, Bool01;
    group' := group;
    var n := SkipBlanks(line);
    var p := line[n..];
    if p == "" || StartsComment(p) || p[0] == '{' {
      return;
    }
    if p[0] == '}' {
      return "";
    }
    var body := ReadStatement(p);
    var eq, colon := IndexOf(p, '='), IndexOf(p, ':');
    if eq == |p| || colon < eq {
      if colon < |p| {
        var name := TrimBlanks(p[..colon]);
        if 0 < |name| < KEY_LEN {
          group' := name;
        }
      }
      return;
    }
    var key := TrimBlanks(p[..eq]);
    var val := "";
    if eq + 1 <= |body| {
      val := ReadValue(body[eq + 1..]);
    }
    if key == "" || |key| >= KEY_LEN || val == "" {
      return;
    }
    Store(cfg, OursOf(Fit(Flat(group, key), 2 * KEY_LEN)), Bool01(val));
  }

  /** A line goes to the reader of the latched format; blank and comment lines go to neither. */
  method ApplyLine(cfg: ConfigSet, format: Format, scope: string, line: string) returns (scope': string)
    requires cfg.Valid()
    modifies cfg, cfg.nodes
    ensures cfg.Valid() && forall i :: 0 <= i < |cfg.nodes| ==> cfg.nodes[i] in old(cfg.nodes) || fresh(cfg.nodes[i])
    ensures Reading(scope', cfg.Entries()) == ReadLine(format, Reading(scope, old(cfg.Entries())), line)
  {
    if !Meaningful(line) {
      return scope;
    }
    match format
    case LibconfigFormat => scope' := ApplyLibconfig(cfg, scope, line);
    case LegacyFormat => scope' := ApplyLegacy(cfg, scope, line);
  }

  /** configReadFileBuffer: latches the format from the first meaningful line and stores every entry. */
  method ReadFileBuffer(cfg: ConfigSet, lines: seq<string>) returns (format: Option<Format>)
    requires cfg.Valid()
    modifies cfg, cfg.nodes
    ensures cfg.Valid() && !cfg.modified && format == Latch(lines)
    ensures cfg.Entries() ==
            ReadLines(if format.Some? then format.value else LegacyFormat, Reading("", old(cfg.Entries())), lines).entries
  {
    format := None;
    var scope := "";
    ghost var f := if Latch(lines).Some? then Latch(lines).value else LegacyFormat;
    ghost var whole := ReadLines(f, Reading("", cfg.Entries()), lines);
    assert lines[0..] == lines;
    for i := 0 to |lines|
      invariant cfg.Valid() && forall k :: 0 <= k < |cfg.nodes| ==> cfg.nodes[k] in old(cfg.nodes) || fresh(cfg.nodes[k])
      invariant Latch(lines) == if format.Some? then format else Latch(lines[i..])
      invariant ReadLines(f, Reading(scope, cfg.Entries()), lines[i..]) == whole
    {
      assert lines[i..][0] == lines[i] && lines[i..][1..] == lines[i + 1..];
      ghost var st := Reading(scope, cfg.Entries());
      if format.None? && Meaningful(lines[i]) {
        format := Some(if Classify(lines[i]) == Libconfig then LibconfigFormat else LegacyFormat);
      }
      scope := ApplyLine(cfg, if format.Some? then format.value else LegacyFormat, scope, lines[i]);
      assert Reading(scope, cfg.Entries()) == ReadLine(f, st, lines[i]);
    }
    cfg.modified := false;
  }
}
