/** The rewriter of key:value settings files (src/cuesupport.c): what it does to a text. */
module CueLines {
  import opened Text

  /** A wanted setting; no value means that the key is to be removed. */
  datatype Setting = Setting(key: string, value: Option<string>)

  /** The lines of a text, without their line feeds; the last may lack one. */
  function RawLines(t: string): seq<string>
    decreases |t|
  {
    if t == "" then [] else
      var i := IndexOf(t, '\n');
      [t[..i]] + RawLines(if i < |t| then t[i + 1..] else "")
  }

  function BlankEnd(line: string, i: nat): (j: nat)
    requires i <= |line|
    ensures i <= j <= |line| && (j < |line| ==> !IsWs(line[j])) && forall k :: i <= k < j ==> IsWs(line[k])
    decreases |line| - i
  {
    if i < |line| && IsWs(line[i]) then BlankEnd(line, i + 1) else i
  }

  /** cueLineSetsKey. */
  predicate SetsKey(line: string, key: string) {
    var i := BlankEnd(line, 0);
    && i < |line| && line[i] != '#' && line[i] != ';'
    && key != "" && i + |key| <= |line| && EqFold(line[i..i + |key|], key)
    && var j := BlankEnd(line, i + |key|);
       j < |line| && line[j] == ':'
  }

  predicate Managed(line: string, want: seq<Setting>)
    decreases |want|
  {
    want != [] && (SetsKey(line, want[0].key) || Managed(line, want[1..]))
  }

  /** The lines that stay. */
  function Keep(lines: seq<string>, want: seq<Setting>): seq<string>
    decreases |lines|
  {
    if lines == [] then []
    else if Managed(Chop(lines[0]), want) then Keep(lines[1..], want)
    else [Chop(lines[0])] + Keep(lines[1..], want)
  }

  /** The lines added for the wanted values. */
  function Wanted(want: seq<Setting>): seq<string>
    decreases |want|
  {
    if want == [] then [] else
      (if want[0].value.Some? then [Line(want[0])] else []) + Wanted(want[1..])
  }

  /** The text cueRewriteSettings leaves. */
  function Rewritten(t: string, want: seq<Setting>): string {
    if want == [] then t else Unlines(Keep(RawLines(t), want) + Wanted(want))
  }

  // ----- lines and texts -----

  predicate NoBreak(line: string) {
    '\n' !in line
  }

  predicate AllNoBreak(lines: seq<string>)
    decreases |lines|
  {
    lines == [] || (NoBreak(lines[0]) && AllNoBreak(lines[1..]))
  }

  lemma FirstLine(line: string, rest: string)
    requires NoBreak(line)
    ensures RawLines(line + "\n" + rest) == [line] + RawLines(rest)
  {
    var t := line + "\n" + rest;
    assert t[|line|] == '\n' && forall k :: 0 <= k < |line| ==> t[k] == line[k] && line[k] in line;
    assert IndexOf(t, '\n') == |line| && t[..|line|] == line && t[|line| + 1..] == rest;
  }

  lemma {:induction false} LinesBack(lines: seq<string>)
    requires AllNoBreak(lines)
    ensures RawLines(Unlines(lines)) == lines
    decreases |lines|
  {
    hide RawLines;
    if lines == [] {
      assert RawLines("") == [] by { NoLines(); }
    } else {
      LinesBack(lines[1..]);
      FirstLine(lines[0], Unlines(lines[1..]));
      assert lines == [lines[0]] + lines[1..];
    }
  }

  lemma NoLines()
    ensures RawLines("") == []
  {
  }

  lemma Unfold(t: string)
    ensures RawLines(t) ==
            if t == "" then [] else
              var i := IndexOf(t, '\n'); [t[..i]] + RawLines(if i < |t| then t[i + 1..] else "")
  {
  }

  lemma FirstNoBreak(t: string)
    ensures NoBreak(t[..IndexOf(t, '\n')])
  {
  }

  lemma NoBreakCons(line: string, lines: seq<string>)
    requires NoBreak(line) && AllNoBreak(lines)
    ensures AllNoBreak([line] + lines)
  {
    assert ([line] + lines)[1..] == lines;
  }

  lemma NoneBreak()
    ensures AllNoBreak([])
  {
  }

  lemma {:induction false} RawNoBreak(t: string)
    ensures AllNoBreak(RawLines(t))
    decreases |t|
  {
    hide NoBreak, AllNoBreak, RawLines;
    Unfold(t);
    if t == "" {
      NoneBreak();
    } else {
      var i := IndexOf(t, '\n');
      var rest := if i < |t| then t[i + 1..] else "";
      RawNoBreak(rest);
      FirstNoBreak(t);
      NoBreakCons(t[..i], RawLines(rest));
    }
  }

  lemma {:induction false} KeepNoBreak(lines: seq<string>, want: seq<Setting>)
    requires AllNoBreak(lines)
    ensures AllNoBreak(Keep(lines, want))
    decreases |lines|
  {
    hide Managed;
    if lines != [] {
      KeepNoBreak(lines[1..], want);
      var k := Keep(lines[1..], want);
      assert ([Chop(lines[0])] + k)[1..] == k;
    }
  }

  lemma {:induction false} NoBreakAppend(a: seq<string>, b: seq<string>)
    requires AllNoBreak(a) && AllNoBreak(b)
    ensures AllNoBreak(a + b)
    decreases |a|
  {
    if a == [] {
      assert a + b == b;
    } else {
      assert (a + b)[1..] == a[1..] + b;
      NoBreakAppend(a[1..], b);
    }
  }

  // ----- keys -----

  /** A setting whose line is one line. */
  predicate Writable(s: Setting) {
    s.value.Some? ==> NoBreak(s.key) && NoBreak(s.value.value)
  }

  predicate AllWritable(want: seq<Setting>)
    decreases |want|
  {
    want == [] || (Writable(want[0]) && AllWritable(want[1..]))
  }

  /** The line written for a wanted value. */
  function Line(s: Setting): string
    requires s.value.Some?
  {
    s.key + ":" + s.value.value
  }

  /** A key that a line can set at all: not empty, and not starting with a blank or a comment mark. */
  predicate GoodStart(key: string) {
    key != "" && !IsWs(key[0]) && key[0] != '#' && key[0] != ';'
  }

  /** A key as the launcher writes them; blanks inside are allowed. */
  predicate PlainKey(key: string) {
    GoodStart(key) && !IsWs(key[|key| - 1]) && forall k :: 0 <= k < |key| ==> key[k] != ':'
  }

  lemma BlankEndAt(line: string, i: nat)
    requires i < |line| && !IsWs(line[i])
    ensures BlankEnd(line, i) == i
  {
  }

  lemma SameFirst(a: string, b: string)
    requires EqFold(a, b) && a != ""
    ensures Lower(a[0]) == Lower(b[0])
  {
  }

  /** Only keys with a good start are ever set. */
  lemma SetHasGoodStart(line: string, key: string)
    requires SetsKey(line, key)
    ensures GoodStart(key)
  {
    var i := BlankEnd(line, 0);
    SameFirst(line[i..i + |key|], key);
    assert Lower(line[i]) == Lower(key[0]);
  }

  /** A written line sets its own key exactly when the key has a good start. */
  lemma OwnLine(key: string, tail: string)
    ensures SetsKey(key + ":" + tail, key) <==> GoodStart(key)
  {
    var line := key + ":" + tail;
    if GoodStart(key) {
      assert line[0] == key[0] && line[0..0 + |key|] == key && line[|key|] == ':';
      BlankEndAt(line, 0);
      BlankEndAt(line, |key|);
    }
    if SetsKey(line, key) {
      SetHasGoodStart(line, key);
    }
  }

  /** A written line of a plain key sets that key, up to case, and no other plain key. */
  lemma WrittenSets(key: string, tail: string, other: string)
    requires PlainKey(key) && PlainKey(other)
    ensures SetsKey(key + ":" + tail, other) <==> EqFold(key, other)
  {
    var line, n := key + ":" + tail, |key|;
    assert line[..n] == key && line[n] == ':' && forall k :: 0 <= k < n ==> line[k] == key[k];
    BlankEndAt(line, 0);
    if EqFold(key, other) {
      assert line[0..0 + |other|] == key;
      BlankEndAt(line, n);
    }
    if SetsKey(line, other) {
      SameLength(key, tail, other);
      assert line[0..0 + |other|] == key;
    }
  }

  lemma SameLength(key: string, tail: string, other: string)
    requires PlainKey(key) && PlainKey(other) && SetsKey(key + ":" + tail, other)
    ensures |key| == |other|
  {
    var line, n, m := key + ":" + tail, |key|, |other|;
    assert line[n] == ':' && line[n - 1] == key[n - 1] && forall k :: 0 <= k < n ==> line[k] == key[k];
    BlankEndAt(line, 0);
    assert EqFold(line[0..0 + m], other);
    if n < m {
      ColonWithin(line[0..0 + m], other, n);
    }
  }

  lemma ColonWithin(a: string, b: string, n: nat)
    requires EqFold(a, b) && n < |a| && a[n] == ':'
    ensures b[n] == ':'
  {
    assert Lower(a[n]) == Lower(b[n]);
  }

  predicate AllWs(s: string) {
    forall i :: 0 <= i < |s| ==> IsWs(s[i])
  }

  /** The line is blanks, the key in any letter case, blanks, a colon and anything. */
  predicate HasParts(line: string, key: string, pre: string, k: string, mid: string, rest: string) {
    line == pre + k + mid + ":" + rest && AllWs(pre) && AllWs(mid) && EqFold(k, key)
  }

  lemma {:induction false} BlankEndIs(line: string, i: nat, j: nat)
    requires i <= j < |line| && !IsWs(line[j]) && forall k :: i <= k < j ==> IsWs(line[k])
    ensures BlankEnd(line, i) == j
    decreases j - i
  {
    if i < j {
      BlankEndIs(line, i + 1, j);
    }
  }

  /** From a line's parts to the positions of key and colon. */
  lemma PartsAt(line: string, key: string, pre: string, k: string, mid: string, rest: string)
    requires HasParts(line, key, pre, k, mid, rest) && key != ""
    ensures var i, n := |pre|, |key|;
            && i + n + |mid| < |line| && line[i..i + n] == k && line[i] == k[0] && line[i + n + |mid|] == ':'
            && (forall j :: 0 <= j < i ==> IsWs(line[j])) && forall j :: i + n <= j < i + n + |mid| ==> IsWs(line[j])
  {
    hide EqFold;
    assert |k| == |key| by { FoldLength(k, key); }
    var i, n := |pre|, |key|;
    assert forall j :: 0 <= j < i ==> line[j] == pre[j];
    assert forall j :: 0 <= j < n ==> line[i + j] == k[j];
    assert forall j :: i + n <= j < i + n + |mid| ==> line[j] == mid[j - i - n];
  }

  lemma FoldLength(a: string, b: string)
    requires EqFold(a, b)
    ensures |a| == |b|
  {
  }

  lemma PartsSet(line: string, key: string, pre: string, k: string, mid: string, rest: string)
    requires HasParts(line, key, pre, k, mid, rest) && GoodStart(key)
    ensures SetsKey(line, key)
  {
    PartsAt(line, key, pre, k, mid, rest);
    SameFirst(k, key);
    hide EqFold;
    BlankEndIs(line, 0, |pre|);
    BlankEndIs(line, |pre| + |key|, |pre| + |key| + |mid|);
  }

  lemma SetParts(line: string, key: string)
    requires SetsKey(line, key)
    ensures exists pre, k, mid, rest :: HasParts(line, key, pre, k, mid, rest)
  {
    hide EqFold;
    var i := BlankEnd(line, 0);
    var j := BlankEnd(line, i + |key|);
    var pre, k, mid, rest := line[..i], line[i..i + |key|], line[i + |key|..j], line[j + 1..];
    assert line == pre + k + mid + ":" + rest;
    assert HasParts(line, key, pre, k, mid, rest);
  }

  /** Exactly which lines set a key. */
  lemma SetsExactly(line: string, key: string)
    ensures SetsKey(line, key) <==> GoodStart(key) && exists pre, k, mid, rest :: HasParts(line, key, pre, k, mid, rest)
  {
    hide SetsKey, GoodStart, HasParts;
    if SetsKey(line, key) {
      SetHasGoodStart(line, key);
      SetParts(line, key);
    }
    if GoodStart(key) {
      if pre, k, mid, rest :| HasParts(line, key, pre, k, mid, rest) {
        PartsSet(line, key, pre, k, mid, rest);
      }
    }
  }

  /** What a line sets it still sets with more text behind. */
  lemma SetsLonger(line: string, more: string, key: string)
    requires SetsKey(line, key)
    ensures SetsKey(line + more, key)
  {
    var long, i := line + more, BlankEnd(line, 0);
    BlankEndLonger(line, more, 0);
    assert long[i..i + |key|] == line[i..i + |key|] && long[i] == line[i];
    BlankEndLonger(line, more, i + |key|);
  }

  lemma {:induction false} BlankEndLonger(line: string, more: string, i: nat)
    requires i <= |line| && BlankEnd(line, i) < |line|
    ensures BlankEnd(line + more, i) == BlankEnd(line, i)
    decreases |line| - i
  {
    if IsWs(line[i]) {
      BlankEndLonger(line, more, i + 1);
    }
  }

  lemma {:induction false} ManagedLonger(line: string, more: string, want: seq<Setting>)
    requires Managed(line, want)
    ensures Managed(line + more, want)
    decreases |want|
  {
    hide SetsKey;
    if SetsKey(line, want[0].key) {
      SetsLonger(line, more, want[0].key);
    } else {
      ManagedLonger(line, more, want[1..]);
    }
  }
}
