/** A configuration survives the device: what a successful save wrote is what the next load finds (src/config.c). */
module ConfigPersist {
  import opened Text
  import opened ConfigStore
  import opened ConfigOrder
  import opened ConfigText
  import opened ConfigLegacy
  import opened ConfigRoundTrip
  import opened ConfigIO
  import opened ConfigSave

  // ----- from lines to calls of the buffered writer -----

  /** The strings handed to writeFileBuffer: one per line with its LF, but a group header and its brace together. */
  function Calls(lines: seq<string>): seq<string>
    decreases |lines|
  {
    if lines == [] then []
    else if |lines| > 1 && lines[1] == "{" then [lines[0] + "\n{\n"] + Calls(lines[2..])
    else [lines[0] + "\n"] + Calls(lines[1..])
  }

  lemma {:induction false} JoinedCons(s: string, parts: seq<string>)
    ensures Joined([s] + parts) == s + Joined(parts)
    decreases |parts|
  {
    if parts == [] {
      assert [s] + parts == [] + [s];
      JoinedAppend([], s);
      assert "" + s == s + "";
    } else {
      var n := |parts| - 1;
      JoinedCons(s, parts[..n]);
      assert [s] + parts == ([s] + parts[..n]) + [parts[n]];
      JoinedAppend([s] + parts[..n], parts[n]);
      assert s + Joined(parts[..n]) + parts[n] == s + (Joined(parts[..n]) + parts[n]);
    }
  }

  /** Joined, the calls are the lines, each ended by LF. */
  lemma {:induction false} CallsAreTheText(lines: seq<string>)
    ensures Joined(Calls(lines)) == Unlines(lines)
    decreases |lines|
  {
    hide Joined;
    if lines == [] {
      NoneJoined();
    } else if |lines| > 1 && lines[1] == "{" {
      CallsAreTheText(lines[2..]);
      JoinedCons(lines[0] + "\n{\n", Calls(lines[2..]));
      var rest := Unlines(lines[2..]);
      assert lines[1..][1..] == lines[2..] && lines[1..][0] == "{";
      assert Unlines(lines[1..]) == "{" + "\n" + rest;
      assert lines[0] + "\n" + ("{" + "\n" + rest) == lines[0] + "\n{\n" + rest;
    } else {
      CallsAreTheText(lines[1..]);
      JoinedCons(lines[0] + "\n", Calls(lines[1..]));
    }
  }

  lemma NoneJoined()
    ensures Joined([]) == ""
  {
  }

  function FileLines(format: Format, es: seq<Entry>): seq<string> {
    match format
    case LegacyFormat => LegacyLines(es)
    case LibconfigFormat => LibconfigLines(es)
  }

  /** What configWrite hands to the buffered writer for a set. */
  function PartsOf(format: Format, es: seq<Entry>): seq<string> {
    Calls(FileLines(format, es))
  }

  lemma PartsAreTheFile(format: Format, es: seq<Entry>)
    ensures Joined(PartsOf(format, es)) == WriteFile(format, es)
  {
    CallsAreTheText(FileLines(format, es));
  }

  // ----- saving and loading -----

  /** The entries each syntax can carry, and a first line that is detected as its own format. */
  ghost predicate Carries(format: Format, es: seq<Entry>) {
    && Unique(es) && AllStored(es) && Saved(es) != []
    && match format
       case LegacyFormat => AllCarried(Saved(es)) && !LooksLibconfig(Saved(es)[0])
       case LibconfigFormat => AllCarriedLib(es) && FirstIsIdent(es)
  }

  /** The file is read back in this format, with these persistent entries. */
  ghost predicate ReadsBack(file: Option<string>, format: Format, es: seq<Entry>) {
    && file.Some? && ReadFile(file.value).0 == Some(format)
    && (format == LegacyFormat ==> ReadFile(file.value).1 == Saved(es))
    && forall key :: Lookup(ReadFile(file.value).1, key) == Lookup(Saved(es), key)
  }

  lemma WrittenReadsBack(format: Format, es: seq<Entry>)
    requires Carries(format, es)
    ensures ReadsBack(Some(WriteFile(format, es)), format, es)
  {
    hide ReadFile, WriteFile, Lookup;
    match format
    case LegacyFormat => LegacyRoundTrip(es);
    case LibconfigFormat => LibconfigRoundTrip(es);
  }

  /** The outcome of configWrite on a set that is saved in this format. */
  function SaveOf(format: Format, es: seq<Entry>, modified: bool, target: Target, file: Option<string>, f: Faults): Outcome {
    Save(modified, es != [], target, file, PartsOf(format, es), f)
  }

  /**
   Under any faults, if the save of a carried set reports success after writing, the file holds the set's own text,
   and loading it detects the same format and yields the same persistent key-to-value map.
   */
  lemma SaveThenLoad(format: Format, es: seq<Entry>, modified: bool, target: Target, file: Option<string>, f: Faults)
    requires var o := SaveOf(format, es, modified, target, file, f); o.ret && o.attempted
    ensures var o := SaveOf(format, es, modified, target, file, f);
            o.file == Some(WriteFile(format, es)) && (Carries(format, es) ==> ReadsBack(o.file, format, es))
  {
    hide Save, PartsOf, ReadsBack, Carries, WriteFile;
    SavedMeansWritten(modified, es != [], target, file, PartsOf(format, es), f);
    PartsAreTheFile(format, es);
    if Carries(format, es) {
      WrittenReadsBack(format, es);
    }
  }

  /** To any file but one on a raw APA partition, a fault-free save of a carried set that is dirty reads back as it. */
  lemma FaultFreeSaveReadsBack(format: Format, es: seq<Entry>, modified: bool, target: Target, file: Option<string>, f: Faults)
    requires target != NoFile && target != RawApa && (modified || (es != [] && f.statFails))
    requires FaultFree(PartsOf(format, es), f)
    ensures SaveOf(format, es, modified, target, file, f) == Outcome(true, false, Some(WriteFile(format, es)), true)
    ensures Carries(format, es) ==> ReadsBack(SaveOf(format, es, modified, target, file, f).file, format, es)
  {
    hide Save, PartsOf, ReadsBack, Carries, WriteFile, FaultFree;
    FaultFreeSaves(modified, es != [], target, file, PartsOf(format, es), f);
    SaveThenLoad(format, es, modified, target, file, f);
  }

  /** The formatting half of configWrite: the set in the syntax it was read in. */
  method FormatSet(cfg: ConfigSet, format: Format) returns (parts: seq<string>)
    requires cfg.Valid()
    ensures parts == PartsOf(format, cfg.Entries())
  {
    var lines;
    match format {
      case LegacyFormat => lines := WriteLegacy(cfg);
      case LibconfigFormat => lines := WriteLibconfig(cfg);
    }
    parts := Calls(lines);
  }

  /**
   configWrite of a set: whatever the device does, success after an attempt means that the file is the set's own text,
   which reads back as the set when its syntax can carry it; and a save of a dirty set that meets no fault succeeds.
   */
  method SaveConfig(cfg: ConfigSet, format: Format, dev: Device, target: Target, f: Faults) returns (ret: bool)
    requires cfg.Valid()
    modifies cfg`modified, dev
    ensures var o := SaveOf(format, cfg.Entries(), old(cfg.modified), target, old(dev.file), f);
            && ret == o.ret && cfg.modified == o.modified && dev.file == o.file
            && (ret && o.attempted ==> dev.file == Some(WriteFile(format, cfg.Entries())))
            && (ret && o.attempted && Carries(format, cfg.Entries()) ==> ReadsBack(dev.file, format, cfg.Entries()))
    ensures target != NoFile && target != RawApa && (old(cfg.modified) || (cfg.Entries() != [] && f.statFails))
         && FaultFree(PartsOf(format, cfg.Entries()), f)
        ==> ret && !cfg.modified && dev.file == Some(WriteFile(format, cfg.Entries()))
  {
    hide Save, PartsOf, ReadsBack, Carries, WriteFile, FaultFree;
    ghost var es, modified, file := cfg.Entries(), cfg.modified, dev.file;
    assert |es| == |cfg.nodes|;
    var parts := FormatSet(cfg, format);
    ret := ConfigWrite(cfg, dev, target, parts, f);
    if ret && SaveOf(format, es, modified, target, file, f).attempted {
      SaveThenLoad(format, es, modified, target, file, f);
    }
    if target != NoFile && target != RawApa && (modified || (es != [] && f.statFails)) && FaultFree(PartsOf(format, es), f) {
      FaultFreeSaveReadsBack(format, es, modified, target, file, f);
    }
  }
}
