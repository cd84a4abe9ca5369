/**
 The two file syntaxes of a configuration set as functions on text (src/config.c): line splitting,
 format detection, the legacy "key=value" reader and writer, and the libconfig reader and writer.
 */
module ConfigText {
  import opened Text
  import opened ConfigStore

  // ----- lines -----

  /** The lines readFileBuffer hands out: split at LF, one CR dropped, lines starting with '#' skipped. */
  function Lines(text: string): seq<string>
    decreases |text|
  {
    if text == "" then [] else
      var i := IndexOf(text, '\n');
      var line := Chop(text[..i]);
      (if line != "" && line[0] == '#' then [] else [line]) + Lines(if i < |text| then text[i + 1..] else "")
  }

  /** A line that the line reader returns as it was written. */
  predicate PlainLine(line: string) {
    line != "" && '\n' !in line && line[0] != '#' && line[|line| - 1] != '\r'
  }

  predicate AllPlain(lines: seq<string>) {
    forall i :: 0 <= i < |lines| ==> PlainLine(lines[i])
  }

  /** The first LF of a text that starts with a whole line. */
  lemma FirstBreak(line: string, rest: string)
    requires '\n' !in line
    ensures var text := line + "\n" + rest;
            IndexOf(text, '\n') == |line| && text[..|line|] == line && text[|line| + 1..] == rest
  {
    var text := line + "\n" + rest;
    assert text[|line|] == '\n';
    assert forall k :: 0 <= k < |line| ==> text[k] == line[k];
  }

  lemma {:induction false} LinesUnlines(lines: seq<string>)
    requires AllPlain(lines)
    ensures Lines(Unlines(lines)) == lines
  {
    if lines != [] {
      var line, rest := lines[0], Unlines(lines[1..]);
      assert PlainLine(line);
      LinesUnlines(lines[1..]);
      FirstBreak(line, rest);
      assert Lines(line + "\n" + rest) == [line] + Lines(rest);
    }
  }

  // ----- whitespace -----

  function SkipWs(s: string): (n: nat)
    ensures n <= |s| && (forall k :: 0 <= k < n ==> IsWs(s[k])) && (n < |s| ==> !IsWs(s[n]))
  {
    SkipWsFrom(s, 0)
  }

  function SkipWsFrom(s: string, from: nat): (n: nat)
    requires from <= |s|
    ensures from <= n <= |s| && (forall k :: from <= k < n ==> IsWs(s[k])) && (n < |s| ==> !IsWs(s[n]))
    decreases |s| - from
  {
    if from == |s| || !IsWs(s[from]) then from else SkipWsFrom(s, from + 1)
  }

  function TrimStart(s: string): string {
    s[SkipWs(s)..]
  }

  /** Where the trailing blanks of s[..n] start. */
  function TrimLen(s: string, n: nat): (m: nat)
    requires n <= |s|
    ensures m <= n && (forall k :: m <= k < n ==> IsWs(s[k])) && (m > 0 ==> !IsWs(s[m - 1]))
  {
    if n > 0 && IsWs(s[n - 1]) then TrimLen(s, n - 1) else n
  }

  function TrimEnd(s: string): string {
    s[..TrimLen(s, |s|)]
  }

  // ----- format detection -----

  datatype LineKind = Blank | Comment | Legacy | Libconfig

  predicate IsAlpha(c: char) {
    'a' <= c <= 'z' || 'A' <= c <= 'Z'
  }

  predicate IsIdentChar(c: char) {
    IsAlpha(c) || IsDigit(c) || c == '_' || c == '-' || c == '*'
  }

  /** The libconfig identifier grammar, for the text of s from position i on. */
  predicate IsIdentFrom(s: string, i: nat) {
    i < |s| && (IsAlpha(s[i]) || s[i] == '*') && forall k :: i < k < |s| ==> IsIdentChar(s[k])
  }

  predicate IsIdent(s: string) {
    IsIdentFrom(s, 0)
  }

  predicate StartsComment(p: string) {
    p != "" && (p[0] == '#' || (|p| > 1 && p[0] == '/' && (p[1] == '/' || p[1] == '*')))
  }

  /** cfgClassifyLine. */
  function Classify(line: string): LineKind {
    var p := TrimStart(line);
    if p == "" then Blank
    else if StartsComment(p) then Comment
    else
      var eq := IndexOf(p, '=');
      if eq == |p| then Legacy
      else if eq > 0 && IsWs(p[eq - 1]) && EndsWith(TrimEnd(p), ';') && IsIdent(TrimEnd(p[..eq])) then Libconfig
      else Legacy
  }

  // ----- the legacy syntax -----

  datatype Reading = Reading(scope: string, entries: seq<Entry>)

  /** What configSetStr leaves in the set, memory permitting. */
  function Put(es: seq<Entry>, key: string, val: string): seq<Entry> {
    if KeyValid(key) then SetEntry(es, key, val) else es
  }

  /** splitAssignment: key and value around the first '=', each cut to its buffer. */
  function SplitAssignment(line: string): Option<Entry> {
    var p := TrimStart(line);
    var eq := IndexOf(p, '=');
    if eq == |p| then None else Some((Fit(p[..eq], KEY_LEN), Fit(p[eq + 1..], VAL_LEN)))
  }

  /** One legacy line: an assignment, under the current prefix if indented, or a new prefix. */
  function ReadLegacy(st: Reading, line: string): Reading {
    match SplitAssignment(line)
    case Some((key, val)) =>
      var prefix := if line != "" && IsWs(line[0]) then st.scope else "";
      if prefix != "" then Reading(prefix, Put(st.entries, Fit(prefix + "_" + key, 2 * KEY_LEN), val))
      else Reading(prefix, Put(st.entries, key, val))
    case None =>
      var colon := IndexOf(line, ':');
      if 0 < colon < |line| then Reading(Fit(line[..colon], KEY_LEN), st.entries) else st
  }

  function LegacyLine(e: Entry): string {
    e.0 + "=" + e.1
  }

  /** The legacy branch of configWrite. */
  function LegacyLines(es: seq<Entry>): seq<string> {
    if es == [] then []
    else (if Persistent(es[0].0) then [LegacyLine(es[0])] else []) + LegacyLines(es[1..])
  }

  // ----- the libconfig syntax -----

  const ROWS: nat := 27

  /** cfgWoplPerGameKeys: wOPL's key after group flattening, and ours. */
  function Row(i: nat): (string, string)
    requires i < ROWS
  {
    match i
    case 0 => ("compat", "$Compatibility")
    case 1 => ("dma", "$DMA")
    case 2 => ("core_loader", "$CoreLoader")
    case 3 => ("dnas", "$DNAS")
    case 4 => ("alt_startup", "$AltStartup")
    case 5 => ("vmc1", "$VMC_0")
    case 6 => ("vmc2", "$VMC_1")
    case 7 => ("gsm_source", "$GSMSource")
    case 8 => ("gsm_enable", "$EnableGSM")
    case 9 => ("gsm_vmode", "$GSMVMode")
    case 10 => ("gsm_x_offset", "$GSMXOffset")
    case 11 => ("gsm_y_offset", "$GSMYOffset")
    case 12 => ("gsm_field_fix", "$GSMFIELDFix")
    case 13 => ("cheat_source", "$CheatsSource")
    case 14 => ("cheat_enable", "$EnableCheat")
    case 15 => ("cheat_mode", "$CheatMode")
    case 16 => ("cheat_enable_image", "$EnableImage")
    case 17 => ("pademu_source", "$PADEMUSource")
    case 18 => ("pademu_enable", "$EnablePadEmu")
    case 19 => ("pademu_settings", "$PadEmuSettings")
    case 20 => ("padmacro_source", "$PadMacroSource")
    case 21 => ("padmacro_settings", "$PadMacroSettings")
    case 22 => ("osd_source", "$CustomLanguageSource")
    case 23 => ("osd_enable", "$OSDSettingsEnable")
    case 24 => ("osd_lang_id", "$CustomLanguageValue")
    case 25 => ("osd_tv_aspect", "$OSDAspectRatio")
    case _ => ("osd_vmode", "$OSDVideoMode")
  }

  const GROUPS: seq<string> := ["gsm", "cheat", "pademu", "padmacro", "osd"]

  function WoplToOursFrom(i: nat, key: string): Option<string>
    requires i <= ROWS
    decreases ROWS - i
  {
    if i == ROWS then None
    else if key == Row(i).0 then Some(Row(i).1)
    else WoplToOursFrom(i + 1, key)
  }

  /** The row that lists one of our keys, or ROWS. */
  function RowOfOurs(i: nat, key: string): (r: nat)
    requires i <= ROWS
    ensures r <= ROWS && (r < ROWS ==> key == Row(r).1)
    decreases ROWS - i
  {
    if i == ROWS || key == Row(i).1 then i else RowOfOurs(i + 1, key)
  }

  function WoplToOurs(key: string): Option<string> {
    WoplToOursFrom(0, key)
  }

  function OursToWopl(key: string): Option<string> {
    var r := RowOfOurs(0, key);
    if r == ROWS then None else Some(Row(r).0)
  }

  /** key is group_name with a nonempty name. */
  predicate InGroup(key: string, g: string) {
    |key| > |g| + 1 && key[|g|] == '_' && forall k :: 0 <= k < |g| ==> key[k] == g[k]
  }

  /** cfgMatchGroup: the schema group a flattened key belongs to. */
  function MatchGroup(key: string): Option<string> {
    if InGroup(key, "gsm") then Some("gsm")
    else if InGroup(key, "cheat") then Some("cheat")
    else if InGroup(key, "pademu") then Some("pademu")
    else if InGroup(key, "padmacro") then Some("padmacro")
    else if InGroup(key, "osd") then Some("osd")
    else None
  }

  predicate AllDigits(s: string) {
    s == "" || (IsDigit(s[0]) && AllDigits(s[1..]))
  }

  /** cfgValueIsBareScalar. */
  predicate IsBareScalar(v: string) {
    var p := if v != "" && v[0] == '-' then v[1..] else v;
    v == "true" || v == "false" || (p != "" && AllDigits(p))
  }

  predicate NeedsEscape(c: char) {
    c == '\\' || c == '"'
  }

  function Escape(v: string): string {
    if v == "" then "" else (if NeedsEscape(v[0]) then ['\\', v[0]] else [v[0]]) + Escape(v[1..])
  }

  function Unescape(s: string): string
    decreases |s|
  {
    if s == "" then ""
    else if |s| > 1 && s[0] == '\\' && NeedsEscape(s[1]) then [s[1]] + Unescape(s[2..])
    else [s[0]] + Unescape(s[1..])
  }

  /** The right-hand side cfgWriteLibconfigLine prints. */
  function Rhs(v: string): string {
    if IsBareScalar(v) then v else "\"" + Escape(v) + "\""
  }

  function LibLine(indent: string, name: string, v: string): string {
    indent + name + " = " + Rhs(v) + ";"
  }

  /** Name a persistent entry is printed under, before group splitting. */
  function EmitName(key: string): string {
    match OursToWopl(key) case Some(w) => w case None => key
  }

  /** The group block an entry is printed in, if any. */
  function EmitGroup(key: string): Option<string> {
    match OursToWopl(key) case Some(w) => MatchGroup(w) case None => None
  }

  /** Entries printed at root, or in one group, in list order. */
  function InBlock(es: seq<Entry>, g: Option<string>): seq<Entry> {
    if es == [] then []
    else (if Persistent(es[0].0) && EmitGroup(es[0].0) == g then [es[0]] else []) + InBlock(es[1..], g)
  }

  /** The name an entry is printed under inside its block. */
  function NameIn(g: Option<string>, key: string): string {
    var w := EmitName(key);
    if g.None? then w else if |g.value| + 1 <= |w| then w[|g.value| + 1..] else ""
  }

  function EntryLine(g: Option<string>, e: Entry): string {
    LibLine(if g.None? then "" else "  ", NameIn(g, e.0), e.1)
  }

  /** The scalar lines of the root or of one group. */
  function ScalarLines(g: Option<string>, es: seq<Entry>): seq<string> {
    if es == [] then [] else [EntryLine(g, es[0])] + ScalarLines(g, es[1..])
  }

  /** One group block; a group with nothing in it is left out. */
  function Block(g: string, es: seq<Entry>): seq<string> {
    if es == [] then [] else [g + " :", "{"] + ScalarLines(Some(g), es) + ["};"]
  }

  function Blocks(groups: seq<string>, es: seq<Entry>): seq<string> {
    if groups == [] then [] else
      var g := groups[|groups| - 1];
      Blocks(groups[..|groups| - 1], es) + Block(g, InBlock(es, Some(g)))
  }

  /** cfgWriteLibconfig. */
  function LibconfigLines(es: seq<Entry>): seq<string> {
    ScalarLines(None, InBlock(es, None)) + Blocks(GROUPS, es)
  }

  /** libconfig booleans become the 0/1 the getters expect. */
  function Bool01(v: string): string {
    if v == "true" then "1" else if v == "false" then "0" else v
  }

  /** A scalar's value text: quotes stripped and escapes undone, cut to the value buffer; "" is absent. */
  function ValueOf(text: string): string {
    var v := TrimStart(text);
    if v != "" && v[0] == '"' then
      var raw := if EndsWith(v[1..], '"') then v[1..|v| - 1] else v[1..];
      Fit(Unescape(raw), VAL_LEN)
    else Fit(v, VAL_LEN)
  }

  /** Text before the statement terminator. */
  function Statement(p: string): string {
    var t := TrimEnd(p);
    TrimEnd(if EndsWith(t, ';') then t[..|t| - 1] else t)
  }

  /** The key a flattened name stands for: ours if the table lists it, else the name itself. */
  function OursOf(flat: string): string {
    match WoplToOurs(flat) case Some(ours) => ours case None => flat
  }

  /** Flattened name of a scalar under the current group. */
  function Flat(scope: string, key: string): string {
    if scope != "" then scope + "_" + key else key
  }

  /** The end of cfgReadLibconfigLine: unusable keys and absent values store nothing. */
  function StoreScalar(st: Reading, key: string, val: string): Reading {
    if key == "" || |key| >= KEY_LEN || val == "" then st
    else st.(entries := Put(st.entries, OursOf(Fit(Flat(st.scope, key), 2 * KEY_LEN)), Bool01(val)))
  }

  /** cfgReadLibconfigLine. */
  function ReadLibconfig(st: Reading, line: string): Reading {
    var p := TrimStart(line);
    if p == "" || StartsComment(p) || p[0] == '{' then st
    else if p[0] == '}' then st.(scope := "")
    else
      var eq, colon := IndexOf(p, '='), IndexOf(p, ':');
      if eq == |p| || colon < eq then
        if colon == |p| then st else
          var name := TrimEnd(p[..colon]);
          if 0 < |name| < KEY_LEN then st.(scope := name) else st
      else
        var key, body := TrimEnd(p[..eq]), Statement(p);
        var val := if eq + 1 <= |body| then ValueOf(body[eq + 1..]) else "";
        StoreScalar(st, key, val)
  }

  // ----- whole files -----

  datatype Format = LegacyFormat | LibconfigFormat

  predicate Meaningful(line: string) {
    Classify(line) != Blank && Classify(line) != Comment
  }

  function ReadLine(format: Format, st: Reading, line: string): Reading {
    if !Meaningful(line) then st
    else match format
      case LegacyFormat => ReadLegacy(st, line)
      case LibconfigFormat => ReadLibconfig(st, line)
  }

  function ReadLines(format: Format, st: Reading, lines: seq<string>): Reading
    decreases lines
  {
    if lines == [] then st else ReadLines(format, ReadLine(format, st, lines[0]), lines[1..])
  }

  /** The format latched from the first meaningful line, or None. */
  function Latch(lines: seq<string>): Option<Format> {
    if lines == [] then None
    else if !Meaningful(lines[0]) then Latch(lines[1..])
    else Some(if Classify(lines[0]) == Libconfig then LibconfigFormat else LegacyFormat)
  }

  /** configReadFileBuffer on an empty set: the latched format and the entries read. */
  function ReadFile(text: string): (Option<Format>, seq<Entry>) {
    var lines := Lines(text);
    var latched := Latch(lines);
    (latched, ReadLines(if latched.Some? then latched.value else LegacyFormat, Reading("", []), lines).entries)
  }

  function WriteFile(format: Format, es: seq<Entry>): string {
    match format
    case LegacyFormat => Unlines(LegacyLines(es))
    case LibconfigFormat => Unlines(LibconfigLines(es))
  }

  /** A file of one line. */
  lemma ReadOne(format: Format, st: Reading, line: string)
    ensures ReadLines(format, st, [line]) == ReadLine(format, st, line)
    ensures Latch([line]).Some? <==> Meaningful(line)
  {
    assert [line][1..] == [];
    assert ReadLines(format, ReadLine(format, st, line), []) == ReadLine(format, st, line);
    assert Latch([]) == None;
  }

  lemma {:induction false} ReadLinesConcat(format: Format, st: Reading, a: seq<string>, b: seq<string>)
    ensures ReadLines(format, st, a + b) == ReadLines(format, ReadLines(format, st, a), b)
    decreases a
  {
    if a == [] {
      assert a + b == b;
    } else {
      assert (a + b)[0] == a[0] && (a + b)[1..] == a[1..] + b;
      ReadLinesConcat(format, ReadLine(format, st, a[0]), a[1..], b);
    }
  }
}
