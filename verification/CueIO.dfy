/** The settings rewriter's loops over its buffers (src/cuesupport.c). */
module CueIO {
  import opened Text
  import opened CueLines

  method SkipBlanks(line: string, start: nat) returns (i: nat)
    requires start <= |line|
    ensures i == BlankEnd(line, start)
  {
    i := start;
    while i < |line| && IsWs(line[i])
      invariant start <= i <= |line| && BlankEnd(line, i) == BlankEnd(line, start)
    {
      i := i + 1;
    }
  }

  /** cueLineSetsKey. */
  method LineSetsKey(line: string, key: string) returns (sets: bool)
    ensures sets == SetsKey(line, key)
  {
    hide EqFold;
    var i := SkipBlanks(line, 0);
    if i >= |line| || line[i] == '#' || line[i] == ';' {
      return false;
    }
    if key == "" || i + |key| > |line| || !EqFold(line[i..i + |key|], key) {
      return false;
    }
    i := SkipBlanks(line, i + |key|);
    sets := i < |line| && line[i] == ':';
  }

  method IsManaged(line: string, want: seq<Setting>) returns (managed: bool)
    ensures managed == Managed(line, want)
  {
    hide SetsKey;
    var j := 0;
    assert want[0..] == want;
    while j < |want|
      invariant j <= |want| && Managed(line, want[j..]) == Managed(line, want)
    {
      assert want[j..][1..] == want[j + 1..];
      var sets := LineSetsKey(line, want[j].key);
      if sets {
        return true;
      }
      j := j + 1;
    }
    managed := false;
  }

  /** memcpy into the output buffer. */
  method Put(after: array<char>, at: nat, s: string)
    requires at + |s| <= after.Length
    modifies after
    ensures after[..at] == old(after[..at]) && after[..at + |s|] == old(after[..at]) + s
  {
    var i := 0;
    while i < |s|
      invariant i <= |s|
      invariant forall k :: 0 <= k < at ==> after[k] == old(after[k])
      invariant forall k :: 0 <= k < i ==> after[at + k] == s[k]
    {
      after[at + i] := s[i];
      i := i + 1;
    }
  }

  lemma KeepFirst(lines: seq<string>, want: seq<Setting>)
    requires lines != []
    ensures Unlines(Keep(lines, want)) ==
            (if Managed(Chop(lines[0]), want) then "" else Chop(lines[0]) + "\n") + Unlines(Keep(lines[1..], want))
  {
    hide Managed, Chop;
    if !Managed(Chop(lines[0]), want) {
      assert ([Chop(lines[0])] + Keep(lines[1..], want))[1..] == Keep(lines[1..], want);
    } else {
      assert "" + Unlines(Keep(lines[1..], want)) == Unlines(Keep(lines[1..], want));
    }
  }

  /** One line starting at p: what it is, what follows it, and what is kept of it. */
  lemma LineAt(t: string, p: nat, want: seq<Setting>)
    requires p < |t|
    ensures var e := IndexFrom(t, '\n', p); var next := if e < |t| then e + 1 else e;
            Unlines(Keep(RawLines(t[p..]), want)) ==
            (if Managed(Chop(t[p..e]), want) then "" else Chop(t[p..e]) + "\n") + Unlines(Keep(RawLines(t[next..]), want))
  {
    hide Keep, Managed, Chop, Unlines, RawLines;
    var e := IndexFrom(t, '\n', p);
    var u := t[p..];
    IndexShift(t, p);
    var i := IndexOf(u, '\n');
    Unfold(u);
    assert u[..i] == t[p..e];
    assert e < |t| ==> u[i + 1..] == t[e + 1..];
    assert e == |t| ==> t[e..] == "";
    assert RawLines(u)[1..] == RawLines(if i < |u| then u[i + 1..] else "");
    KeepFirst(RawLines(u), want);
  }

  lemma IndexShift(t: string, p: nat)
    requires p <= |t|
    ensures IndexFrom(t, '\n', p) == p + IndexOf(t[p..], '\n')
  {
    var i, e := IndexOf(t[p..], '\n'), IndexFrom(t, '\n', p);
    assert forall k :: 0 <= k < |t| - p ==> t[p..][k] == t[p + k];
    assert e < |t| ==> t[p..][e - p] == '\n';
    assert p + i < |t| ==> t[p + i] == '\n';
  }

  method FindLineEnd(t: string, start: nat) returns (e: nat)
    requires start <= |t|
    ensures e == IndexFrom(t, '\n', start)
  {
    e := start;
    while e < |t| && t[e] != '\n'
      invariant start <= e <= |t| && IndexFrom(t, '\n', e) == IndexFrom(t, '\n', start)
    {
      e := e + 1;
    }
  }

  /** The line loop: the kept lines are in the buffer, or they do not fit. */
  method CopyKept(t: string, want: seq<Setting>, after: array<char>) returns (out: int)
    modifies after
    ensures var kept := Unlines(Keep(RawLines(t), want));
            if |kept| <= after.Length then out == |kept| && after[..out] == kept else out == -1
  {
    hide Keep, RawLines, Unlines, Managed, Chop;
    ghost var kept := Unlines(Keep(RawLines(t), want));
    var p := 0;
    out := 0;
    assert t[0..] == t && "" + kept == kept;
    while p < |t|
      invariant 0 <= p <= |t| && 0 <= out <= after.Length
      invariant after[..out] + Unlines(Keep(RawLines(t[p..]), want)) == kept
      decreases |t| - p
    {
      LineAt(t, p, want);
      var e := FindLineEnd(t, p);
      var line := Chop(t[p..e]);
      ghost var rest := Unlines(Keep(RawLines(t[if e < |t| then e + 1 else e..]), want));
      ghost var done := after[..out];
      var managed := IsManaged(line, want);
      if !managed {
        assert done + (line + "\n" + rest) == done + (line + "\n") + rest;
        if out + |line| + 1 > after.Length {
          assert |kept| > after.Length;
          return -1;
        }
        Put(after, out, line + "\n");
        out := out + |line| + 1;
      } else {
        assert "" + rest == rest;
      }
      p := if e < |t| then e + 1 else e;
    }
    NothingLeft(t, want);
    assert t[p..] == "" && after[..out] + "" == after[..out];
  }

  lemma NothingLeft(t: string, want: seq<Setting>)
    ensures Unlines(Keep(RawLines(""), want)) == ""
  {
  }

  lemma WantedFirst(want: seq<Setting>)
    requires want != []
    ensures Unlines(Wanted(want)) ==
            (if want[0].value.Some? then Line(want[0]) + "\n" else "") + Unlines(Wanted(want[1..]))
  {
    var rest := Wanted(want[1..]);
    if want[0].value.Some? {
      var line := Line(want[0]);
      assert ([line] + rest)[1..] == rest;
    } else {
      assert [] + rest == rest;
      assert "" + Unlines(rest) == Unlines(rest);
    }
  }

  /** The loop over the wanted values, behind what is in the buffer. */
  method AppendWanted(want: seq<Setting>, after: array<char>, from: nat) returns (out: int)
    requires from <= after.Length
    modifies after
    ensures var added := Unlines(Wanted(want));
            if from + |added| <= after.Length then out == from + |added| && after[..out] == old(after[..from]) + added else out == -1
  {
    hide Wanted, Unlines;
    ghost var all := after[..from] + Unlines(Wanted(want));
    var j := 0;
    out := from;
    assert want[0..] == want;
    while j < |want|
      invariant j <= |want| && 0 <= out <= after.Length
      invariant after[..out] + Unlines(Wanted(want[j..])) == all
    {
      WantedFirst(want[j..]);
      assert want[j..][1..] == want[j + 1..];
      ghost var rest := Unlines(Wanted(want[j + 1..]));
      ghost var done := after[..out];
      if want[j].value.Some? {
        var line := want[j].key + ":" + want[j].value.value + "\n";
        assert done + (line + rest) == done + line + rest;
        if out + |line| > after.Length {
          assert |all| > after.Length;
          return -1;
        }
        Put(after, out, line);
        out := out + |line|;
      } else {
        assert "" + rest == rest;
      }
      j := j + 1;
    }
    WantedNone();
    assert want[j..] == [] && after[..out] + "" == after[..out];
  }

  lemma WantedNone()
    ensures Unlines(Wanted([])) == ""
  {
  }

  lemma {:induction false} UnlinesAppend(a: seq<string>, b: seq<string>)
    ensures Unlines(a + b) == Unlines(a) + Unlines(b)
    decreases |a|
  {
    if a == [] {
      assert a + b == b;
    } else {
      assert (a + b)[1..] == a[1..] + b;
      UnlinesAppend(a[1..], b);
      assert a[0] + "\n" + (Unlines(a[1..]) + Unlines(b)) == a[0] + "\n" + Unlines(a[1..]) + Unlines(b);
    }
  }

  /** cueRewriteSettings: the rewritten text, or -1 exactly when it does not fit the buffer. */
  method RewriteSettings(before: string, want: seq<Setting>, after: array<char>) returns (r: int)
    modifies after
    ensures var text := Rewritten(before, want);
            if |text| <= after.Length then r == |text| && after[..r] == text else r == -1
  {
    hide Keep, Wanted, RawLines, Unlines;
    if want == [] {
      if |before| > after.Length {
        return -1;
      }
      Put(after, 0, before);
      return |before|;
    }
    UnlinesAppend(Keep(RawLines(before), want), Wanted(want));
    r := CopyKept(before, want, after);
    if r == -1 {
      return;
    }
    r := AppendWanted(want, after, r);
  }
}
