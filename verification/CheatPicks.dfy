/** Remembered cheat picks: names saved into a configuration set and restored from it (src/cheatconfig.c). */
module CheatPicks {
  import opened Text
  import CheatPack

  const NAME_SIZE: nat := 129
  const MAX_CODES: nat := 250

  // ----- names -----

  /** cheatConfigNormalize's copying loop: output so far, and whether a space is pending. */
  function NormFrom(s: string, i: nat, out: string, pending: bool): string
    decreases |s| - i
  {
    if i >= |s| || |out| + 1 >= NAME_SIZE then out
    else if IsSpace(s[i]) then NormFrom(s, i + 1, out, |out| > 0)
    else NormFrom(s, i + 1, out + (if pending then " " else "") + [Lower(s[i])], false)
  }

  function Norm(s: string): string {
    NormFrom(s, 0, "", false)
  }

  /** Lower case, no space at either end, no two spaces in a row, no other white space. */
  ghost predicate Normal(s: string) {
    && (forall i :: 0 <= i < |s| ==> s[i] == Lower(s[i]) && (IsSpace(s[i]) ==> s[i] == ' '))
    && (s != "" ==> s[0] != ' ' && s[|s| - 1] != ' ')
    && forall i :: 0 < i < |s| ==> s[i] != ' ' || s[i - 1] != ' '
  }

  lemma NormalAppend(out: string, pending: bool, c: char)
    requires Normal(out) && (pending ==> out != "") && !IsSpace(c)
    ensures Normal(out + (if pending then " " else "") + [Lower(c)])
  {
    var r := out + (if pending then " " else "") + [Lower(c)];
    assert !IsSpace(Lower(c)) && Lower(Lower(c)) == Lower(c);
    if pending {
      assert r == out + [' ', Lower(c)];
    } else {
      assert r == out + [Lower(c)];
    }
  }

  lemma {:induction false} NormFromNormal(s: string, i: nat, out: string, pending: bool)
    requires Normal(out) && (pending ==> out != "")
    ensures Normal(NormFrom(s, i, out, pending))
    ensures i <= |s| && |out| + (if pending then 1 else 0) <= i ==> |NormFrom(s, i, out, pending)| <= |s|
    decreases |s| - i
  {
    hide Normal;
    if i < |s| && |out| + 1 < NAME_SIZE {
      if IsSpace(s[i]) {
        NormFromNormal(s, i + 1, out, |out| > 0);
      } else {
        NormalAppend(out, pending, s[i]);
        NormFromNormal(s, i + 1, out + (if pending then " " else "") + [Lower(s[i])], false);
      }
    }
  }

  /** Reading a normal name adds it character by character. */
  lemma {:induction false} NormFromFixed(s: string, i: nat)
    requires Normal(s) && |s| < NAME_SIZE && i <= |s|
    ensures i == 0 || s[i - 1] != ' ' ==> NormFrom(s, i, s[..i], false) == s
    ensures i > 0 && s[i - 1] == ' ' ==> NormFrom(s, i, s[..i - 1], true) == s
    decreases |s| - i
  {
    if i == |s| {
      assert s[..i] == s;
    } else {
      NormFromFixed(s, i + 1);
      assert s[..i + 1] == s[..i] + [s[i]];
      if i > 0 && s[i - 1] == ' ' {
        assert s[..i - 1] + " " + [s[i]] == s[..i + 1];
      } else {
        assert s[..i] + "" + [s[i]] == s[..i + 1];
      }
    }
  }

  /** The names of a table are never cut, come out normal, and are then left as they are. */
  lemma NormIdempotent(s: string)
    requires |s| < NAME_SIZE
    ensures Normal(Norm(s)) && |Norm(s)| <= |s| && Norm(Norm(s)) == Norm(s)
  {
    NormFromNormal(s, 0, "", false);
    NormFromFixed(Norm(s), 0);
    assert Norm(s)[..0] == "";
  }

  // ----- the buffer -----

  /** Normalizing without a buffer. */
  function FullFrom(s: string, i: nat, out: string, pending: bool): string
    decreases |s| - i
  {
    if i >= |s| then out
    else if IsSpace(s[i]) then FullFrom(s, i + 1, out, |out| > 0)
    else FullFrom(s, i + 1, out + (if pending then " " else "") + [Lower(s[i])], false)
  }

  function Full(s: string): string {
    FullFrom(s, 0, "", false)
  }

  // ----- words -----

  /** White space and the word behind it. */
  datatype Piece = Piece(blank: string, word: string)

  predicate AllSpace(s: string) {
    forall i :: 0 <= i < |s| ==> IsSpace(s[i])
  }

  predicate NoSpace(s: string) {
    forall i :: 0 <= i < |s| ==> !IsSpace(s[i])
  }

  /** Words, and white space between any two of them. */
  predicate PiecesOk(ps: seq<Piece>, first: bool)
    decreases |ps|
  {
    ps == [] || (&& AllSpace(ps[0].blank) && (first || ps[0].blank != "")
                 && ps[0].word != "" && NoSpace(ps[0].word) && PiecesOk(ps[1..], false))
  }

  function PiecesText(ps: seq<Piece>, tail: string): string
    decreases |ps|
  {
    if ps == [] then tail else ps[0].blank + (ps[0].word + PiecesText(ps[1..], tail))
  }

  function Lowered(s: string): string {
    if s == "" then "" else [Lower(s[0])] + Lowered(s[1..])
  }

  /** The words in lower case, each with a space in front but for the first. */
  function Words(ps: seq<Piece>, first: bool): string
    decreases |ps|
  {
    if ps == [] then "" else (if first then "" else " ") + Lowered(ps[0].word) + Words(ps[1..], false)
  }

  lemma {:induction false} FullBlank(s: string, i: nat, n: nat, out: string, pending: bool)
    requires i + n <= |s| && forall k :: i <= k < i + n ==> IsSpace(s[k])
    ensures FullFrom(s, i, out, pending) == FullFrom(s, i + n, out, if n == 0 then pending else |out| > 0)
    decreases n
  {
    if n > 0 {
      FullBlank(s, i + 1, n - 1, out, |out| > 0);
    }
  }

  lemma FullStep(s: string, i: nat, out: string)
    requires i < |s| && !IsSpace(s[i])
    ensures FullFrom(s, i, out, false) == FullFrom(s, i + 1, out + [Lower(s[i])], false)
  {
    assert out + "" + [Lower(s[i])] == out + [Lower(s[i])];
  }

  lemma {:induction false} FullWord(s: string, i: nat, word: string, out: string)
    requires i + |word| <= |s| && s[i..i + |word|] == word && NoSpace(word)
    ensures FullFrom(s, i, out, false) == FullFrom(s, i + |word|, out + Lowered(word), false)
    decreases |word|
  {
    hide FullFrom;
    if word == "" {
      assert out + "" == out;
    } else {
      assert s[i] == word[0];
      assert s[i + 1..i + |word|] == word[1..];
      FullStep(s, i, out);
      FullWord(s, i + 1, word[1..], out + [Lower(s[i])]);
      assert out + [Lower(s[i])] + Lowered(word[1..]) == out + Lowered(word);
    }
  }

  /** A pending space is written before the word. */
  lemma FullPending(s: string, i: nat, out: string, pending: bool)
    requires i < |s| && !IsSpace(s[i])
    ensures FullFrom(s, i, out, pending) == FullFrom(s, i, out + (if pending then " " else ""), false)
  {
    var out' := out + (if pending then " " else "");
    assert out' + "" + [Lower(s[i])] == out' + [Lower(s[i])];
  }

  lemma Slices(s: string, i: nat, a: string, b: string)
    requires i <= |s| && s[i..] == a + b
    ensures i + |a| <= |s| && s[i..i + |a|] == a && s[i + |a|..] == b
    ensures forall k :: i <= k < i + |a| ==> s[k] == a[k - i]
  {
    assert s[i..][..|a|] == a && s[i..][|a|..] == b;
    assert forall k :: i <= k < |s| ==> s[k] == s[i..][k - i];
  }

  /** One piece: its white space leaves at most a space pending, its word is copied in lower case. */
  lemma FullPiece(s: string, i: nat, p: Piece, rest: string, out: string)
    requires i <= |s| && s[i..] == p.blank + (p.word + rest)
    requires AllSpace(p.blank) && p.word != "" && NoSpace(p.word) && (out != "" ==> p.blank != "")
    ensures var j := i + |p.blank| + |p.word|;
            && j <= |s| && s[j..] == rest
            && FullFrom(s, i, out, false) == FullFrom(s, j, out + (if out == "" then "" else " ") + Lowered(p.word), false)
  {
    hide Lowered, FullFrom;
    var n := |p.blank|;
    Slices(s, i, p.blank, p.word + rest);
    Slices(s, i + n, p.word, rest);
    FullBlank(s, i, n, out, false);
    assert s[i + n] == p.word[0];
    FullPending(s, i + n, out, if n == 0 then false else |out| > 0);
    FullWord(s, i + n, p.word, out + (if out == "" then "" else " "));
  }

  lemma {:induction false} FullPieces(s: string, i: nat, ps: seq<Piece>, tail: string, out: string)
    requires i <= |s| && s[i..] == PiecesText(ps, tail) && AllSpace(tail) && PiecesOk(ps, out == "")
    ensures FullFrom(s, i, out, false) == out + Words(ps, out == "")
    decreases |ps|
  {
    hide AllSpace, NoSpace, Lowered, FullFrom;
    if ps == [] {
      assert s[i..] == tail + "";
      Slices(s, i, tail, "");
      assert FullFrom(s, i, out, false) == out by {
        SpaceAt(tail);
        FullBlank(s, i, |tail|, out, false);
        FullDone(s, i + |tail|, out, if |tail| == 0 then false else |out| > 0);
      }
      assert out + "" == out;
    } else {
      var rest := PiecesText(ps[1..], tail);
      var out' := out + (if out == "" then "" else " ") + Lowered(ps[0].word);
      FullPiece(s, i, ps[0], rest, out);
      assert out' != "" by { LoweredLength(ps[0].word); }
      FullPieces(s, i + |ps[0].blank| + |ps[0].word|, ps[1..], tail, out');
      Grouped(out, if out == "" then "" else " ", Lowered(ps[0].word), Words(ps[1..], false));
    }
  }

  lemma SpaceAt(tail: string)
    requires AllSpace(tail)
    ensures forall i :: 0 <= i < |tail| ==> IsSpace(tail[i])
  {
  }

  lemma FullDone(s: string, i: nat, out: string, pending: bool)
    requires i >= |s|
    ensures FullFrom(s, i, out, pending) == out
  {
  }

  lemma Grouped(a: string, b: string, c: string, d: string)
    ensures a + b + c + d == a + (b + c + d)
  {
  }

  lemma {:induction false} LoweredLength(s: string)
    ensures |Lowered(s)| == |s|
  {
    if s != "" {
      LoweredLength(s[1..]);
    }
  }

  /** What a name is compared by: its words in lower case with one space between them. */
  lemma FullIsWords(ps: seq<Piece>, tail: string)
    requires AllSpace(tail) && PiecesOk(ps, true)
    ensures Full(PiecesText(ps, tail)) == Words(ps, true)
  {
    hide FullFrom, Words;
    var s := PiecesText(ps, tail);
    assert s[0..] == s;
    FullPieces(s, 0, ps, tail, "");
    assert "" + Words(ps, true) == Words(ps, true);
  }

  /** What the buffer test makes of a full form: it is cut at 128, or at 129 when that cut would end in a space. */
  function Limited(full: string): (r: string)
    ensures r <= full
  {
    if |full| < NAME_SIZE then full
    else if full[NAME_SIZE - 2] == ' ' then full[..NAME_SIZE]
    else full[..NAME_SIZE - 1]
  }

  lemma {:induction false} FullGrows(s: string, i: nat, out: string, pending: bool)
    ensures out <= FullFrom(s, i, out, pending)
    decreases |s| - i
  {
    if i < |s| {
      if IsSpace(s[i]) {
        FullGrows(s, i + 1, out, |out| > 0);
      } else {
        var next := out + (if pending then " " else "") + [Lower(s[i])];
        FullGrows(s, i + 1, next, false);
        assert out <= next;
      }
    }
  }

  lemma {:induction false} NormFromLimited(s: string, i: nat, out: string, pending: bool)
    requires |out| + 1 < NAME_SIZE
    ensures NormFrom(s, i, out, pending) == Limited(FullFrom(s, i, out, pending))
    decreases |s| - i
  {
    if i < |s| {
      if IsSpace(s[i]) {
        NormFromLimited(s, i + 1, out, |out| > 0);
      } else {
        var next := out + (if pending then " " else "") + [Lower(s[i])];
        var full := FullFrom(s, i + 1, next, false);
        FullGrows(s, i + 1, next, false);
        if |next| + 1 < NAME_SIZE {
          NormFromLimited(s, i + 1, next, false);
        } else {
          assert full[..|next|] == next && NormFrom(s, i + 1, next, false) == next;
          assert next[NAME_SIZE - 2] == full[NAME_SIZE - 2];
          assert next[|next| - 1] == Lower(s[i]) && Lower(s[i]) != ' ';
          assert |next| == NAME_SIZE ==> pending && next[NAME_SIZE - 2] == ' ';
          assert |full| < NAME_SIZE ==> full == next;
        }
      }
    }
  }

  /**
   The loop keeps its output, and the terminator behind it, inside its 129 bytes if and only if the full form is not
   too long with a space as its 128th character.
   */
  lemma OutputFits(s: string)
    ensures Norm(s) == Limited(Full(s)) && |Norm(s)| <= NAME_SIZE
    ensures |Norm(s)| < NAME_SIZE <==> !(|Full(s)| >= NAME_SIZE && Full(s)[NAME_SIZE - 2] == ' ')
  {
    NormFromLimited(s, 0, "", false);
  }

  /** Names of at most 128 characters, as every name of a table is, are safe. */
  lemma ShortNamesFit(s: string)
    requires |s| < NAME_SIZE
    ensures |Norm(s)| < NAME_SIZE && Norm(s) == Full(s)
  {
    OutputFits(s);
    FullShort(s, 0, "", false);
  }

  lemma {:induction false} FullShort(s: string, i: nat, out: string, pending: bool)
    requires i <= |s| && |out| + (if pending then 1 else 0) <= i
    ensures |FullFrom(s, i, out, pending)| <= |s|
    decreases |s| - i
  {
    if i < |s| {
      if IsSpace(s[i]) {
        FullShort(s, i + 1, out, |out| > 0);
      } else {
        FullShort(s, i + 1, out + (if pending then " " else "") + [Lower(s[i])], false);
      }
    }
  }

  /** A value that does not fit: 127 letters, a space and a letter. */
  lemma OutputOverruns()
    ensures var s := seq(127, i => 'a') + " b"; |Norm(s)| == NAME_SIZE
  {
    var letters := seq(127, i => 'a');
    var s := letters + " b";
    LettersFull(s, 127);
    assert s[127] == ' ' && s[128] == 'b';
    assert FullFrom(s, 127, letters, false) == FullFrom(s, 128, letters, true);
    assert FullFrom(s, 128, letters, true) == FullFrom(s, 129, letters + " " + ['b'], false);
    OutputFits(s);
  }

  lemma {:induction false} LettersFull(s: string, n: nat)
    requires n <= |s| && forall i :: 0 <= i < n ==> s[i] == 'a'
    ensures Full(s) == FullFrom(s, n, seq(n, i => 'a'), false)
    decreases n
  {
    if n > 0 {
      LettersFull(s, n - 1);
      assert seq(n - 1, i => 'a') + "" + ['a'] == seq(n, i => 'a');
    } else {
      assert seq(0, i => 'a') == "";
    }
  }

  /** cheatConfigIsMasterCode. */
  predicate MasterName(normalized: string) {
    normalized == "mastercode" || normalized == "master code" || normalized == "enable code (must be on)"
  }

  // ----- picks as values -----

  /** The table of the loaded file ends at the first cheat without a name. */
  type Cheat = CheatPack.Cheat

  predicate IsMaster(c: Cheat) {
    MasterName(Norm(c.name))
  }

  /** An optional cheat of that normalized name. */
  predicate Optional(c: Cheat, w: string) {
    !IsMaster(c) && Norm(c.name) == w
  }

  /** First use: master codes on, the rest off. */
  function Reset(t: seq<Cheat>): (r: seq<Cheat>)
    ensures |r| == |t| && forall i :: 0 <= i < |r| ==> r[i] == t[i].(enabled := IsMaster(t[i]))
  {
    seq(|t|, i requires 0 <= i < |t| => t[i].(enabled := IsMaster(t[i])))
  }

  /** The first optional cheat of that name that is still off, or how many cheats there are. */
  function FirstOff(t: seq<Cheat>, w: string, i: nat): (r: nat)
    requires i <= |t|
    ensures i <= r <= |t| && (r < |t| ==> !t[r].enabled && Optional(t[r], w))
    ensures forall k :: i <= k < r ==> t[k].enabled || !Optional(t[k], w)
    decreases |t| - i
  {
    if i == |t| || (!t[i].enabled && Optional(t[i], w)) then i else FirstOff(t, w, i + 1)
  }

  /** One saved name restores one cheat. */
  function Restore(t: seq<Cheat>, saved: string): (r: seq<Cheat>)
    ensures |r| == |t|
  {
    var i := FirstOff(t, Norm(saved), 0);
    if i < |t| then t[i := t[i].(enabled := true)] else t
  }

  /** ... and the first n of them. */
  function RestoreAll(t: seq<Cheat>, saved: seq<string>, n: nat): (r: seq<Cheat>)
    requires n <= |saved|
    ensures |r| == |t|
    decreases n
  {
    if n == 0 then t else Restore(RestoreAll(t, saved, n - 1), saved[n - 1])
  }

  function Loaded(t: seq<Cheat>, saved: seq<string>): seq<Cheat> {
    RestoreAll(Reset(t), saved, |saved|)
  }

  /** The names saved: the optional cheats that are on, in order. */
  function Picks(t: seq<Cheat>, n: nat): seq<string>
    requires n <= |t|
    decreases n
  {
    if n == 0 then [] else
      Picks(t, n - 1) + if t[n - 1].enabled && !IsMaster(t[n - 1]) then [t[n - 1].name] else []
  }

  // ----- counting -----

  /** Optional cheats of a name that are on, among the first n. */
  function On(t: seq<Cheat>, w: string, n: nat): nat
    requires n <= |t|
    decreases n
  {
    if n == 0 then 0 else On(t, w, n - 1) + if t[n - 1].enabled && Optional(t[n - 1], w) then 1 else 0
  }

  /** All optional cheats of a name, among the first n. */
  function Total(t: seq<Cheat>, w: string, n: nat): nat
    requires n <= |t|
    decreases n
  {
    if n == 0 then 0 else Total(t, w, n - 1) + if Optional(t[n - 1], w) then 1 else 0
  }

  /** How often a normalized name is among the first n saved ones. */
  function Times(saved: seq<string>, w: string, n: nat): nat
    requires n <= |saved|
    decreases n
  {
    if n == 0 then 0 else Times(saved, w, n - 1) + if Norm(saved[n - 1]) == w then 1 else 0
  }

  lemma {:induction false} OnAtMostTotal(t: seq<Cheat>, w: string, n: nat)
    requires n <= |t|
    ensures On(t, w, n) <= Total(t, w, n)
    ensures On(t, w, n) < Total(t, w, n) <==> exists k :: 0 <= k < n && !t[k].enabled && Optional(t[k], w)
    decreases n
  {
    hide Optional;
    if n > 0 {
      OnAtMostTotal(t, w, n - 1);
      if !t[n - 1].enabled && Optional(t[n - 1], w) {
        assert On(t, w, n) < Total(t, w, n);
      }
    }
  }

  /** Turning one cheat on counts once for its own name and changes no total. */
  lemma {:induction false} TurnedOn(t: seq<Cheat>, i: nat, w: string, n: nat)
    requires i < |t| && !t[i].enabled && n <= |t|
    ensures var t' := t[i := t[i].(enabled := true)];
            && On(t', w, n) == On(t, w, n) + (if i < n && Optional(t[i], w) then 1 else 0)
            && Total(t', w, n) == Total(t, w, n)
    decreases n
  {
    hide Norm, MasterName;
    if n > 0 {
      TurnedOn(t, i, w, n - 1);
    }
  }

  lemma FoundIfOff(t: seq<Cheat>, w: string)
    ensures FirstOff(t, w, 0) < |t| <==> On(t, w, |t|) < Total(t, w, |t|)
  {
    hide Optional, On, Total;
    OnAtMostTotal(t, w, |t|);
    var i := FirstOff(t, w, 0);
  }

  /** One saved name turns on one more of that name, unless all are on, and none of any other. */
  lemma RestoreCounts(t: seq<Cheat>, saved: string, w: string)
    ensures Total(Restore(t, saved), w, |t|) == Total(t, w, |t|)
    ensures On(Restore(t, saved), w, |t|) ==
            if Norm(saved) == w then Min(On(t, w, |t|) + 1, Total(t, w, |t|)) else On(t, w, |t|)
  {
    hide Norm, Optional, On, Total, FirstOff;
    var v := Norm(saved);
    var i := FirstOff(t, v, 0);
    if i < |t| {
      OneName(t[i], v, w);
      TurnedOn(t, i, w, |t|);
      assert v == w ==> On(t, w, |t|) < Total(t, w, |t|) by { FoundIfOff(t, v); }
    } else {
      assert Restore(t, saved) == t;
      assert v == w ==> On(t, w, |t|) == Total(t, w, |t|) by {
        FoundIfOff(t, v);
        OnAtMostTotal(t, w, |t|);
      }
    }
  }

  lemma OneName(c: Cheat, v: string, w: string)
    requires Optional(c, v)
    ensures Optional(c, w) <==> v == w
  {
  }

  lemma {:induction false} RestoreAllCounts(t: seq<Cheat>, saved: seq<string>, n: nat, w: string)
    requires n <= |saved| && On(t, w, |t|) == 0
    ensures var r := RestoreAll(t, saved, n); var all := Total(t, w, |t|);
            Total(r, w, |t|) == all && On(r, w, |t|) == Min(Times(saved, w, n), all)
    decreases n
  {
    hide Norm, Restore, On, Total;
    if n > 0 {
      RestoreAllCounts(t, saved, n - 1, w);
      RestoreCounts(RestoreAll(t, saved, n - 1), saved[n - 1], w);
    }
  }

  lemma {:induction false} ResetCounts(t: seq<Cheat>, w: string, n: nat)
    requires n <= |t|
    ensures On(Reset(t), w, n) == 0 && Total(Reset(t), w, n) == Total(t, w, n)
    decreases n
  {
    hide Norm, MasterName;
    if n > 0 {
      ResetCounts(t, w, n - 1);
    }
  }

  lemma {:induction false} TimesAppend(a: seq<string>, s: string, w: string, n: nat)
    requires n <= |a|
    ensures Times(a + [s], w, n) == Times(a, w, n)
    decreases n
  {
    hide Norm;
    if n > 0 {
      TimesAppend(a, s, w, n - 1);
    }
  }

  /** Each name is saved once per optional cheat of that name that is on. */
  lemma {:induction false} PicksCount(t: seq<Cheat>, w: string, n: nat)
    requires n <= |t| && !MasterName(w)
    ensures Times(Picks(t, n), w, |Picks(t, n)|) == On(t, w, n)
    decreases n
  {
    hide Norm, MasterName;
    if n > 0 {
      PicksCount(t, w, n - 1);
      var p, c := Picks(t, n - 1), t[n - 1];
      if c.enabled && !IsMaster(c) {
        assert Picks(t, n) == p + [c.name];
        TimesAppend(p, c.name, w, |p|);
      } else {
        assert Picks(t, n) == p + [];
        assert p + [] == p;
      }
    }
  }

  /**
   Loading into any table, the same one or one that gained, lost or reordered cheats: of each optional name as many
   cheats are on as were on when the picks were saved, or all there are if there are fewer now.
   */
  lemma LoadRestores(saved: seq<Cheat>, t: seq<Cheat>, w: string)
    requires !MasterName(w)
    ensures var r := Loaded(t, Picks(saved, |saved|));
            |r| == |t| && On(r, w, |r|) == Min(On(saved, w, |saved|), Total(t, w, |t|))
  {
    hide Norm, MasterName, On, Total, Picks, Times;
    PicksCount(saved, w, |saved|);
    ResetCounts(t, w, |t|);
    RestoreAllCounts(Reset(t), Picks(saved, |saved|), |Picks(saved, |saved|)|, w);
  }

  /** The same names with the same multiplicity, in any order, or more. */
  ghost predicate Covers(t: seq<Cheat>, saved: seq<Cheat>) {
    forall w :: Total(t, w, |t|) >= Total(saved, w, |saved|)
  }

  /** A table that covers the saved one gets exactly as many of each name. */
  lemma LoadRestoresAll(saved: seq<Cheat>, t: seq<Cheat>, w: string)
    requires !MasterName(w) && Covers(t, saved)
    ensures var r := Loaded(t, Picks(saved, |saved|)); |r| == |t| && On(r, w, |r|) == On(saved, w, |saved|)
  {
    hide On, Total, Loaded, Picks;
    LoadRestores(saved, t, w);
    OnAtMostTotal(saved, w, |saved|);
  }

  // ----- the exact set -----

  /** Loading renames nothing, and master codes are on exactly as at first use. */
  lemma {:induction false} RestoreKeeps(t: seq<Cheat>, saved: seq<string>, n: nat, i: nat)
    requires n <= |saved| && i < |t|
    ensures var r := RestoreAll(t, saved, n);
            r[i].name == t[i].name && (t[i].enabled ==> r[i].enabled) && (IsMaster(t[i]) ==> r[i].enabled == t[i].enabled)
    decreases n
  {
    hide Norm, MasterName;
    if n > 0 {
      RestoreKeeps(t, saved, n - 1, i);
    }
  }

  lemma MastersStayOn(t: seq<Cheat>, saved: seq<string>, i: nat)
    requires i < |t| && IsMaster(t[i])
    ensures |Loaded(t, saved)| == |t| && Loaded(t, saved)[i].enabled
  {
    hide Norm, MasterName, RestoreAll;
    RestoreKeeps(Reset(t), saved, |saved|, i);
  }

  /** At most one optional cheat has that name. */
  lemma {:induction false} OnlyOne(t: seq<Cheat>, w: string, i: nat, n: nat)
    requires i < n <= |t| && Optional(t[i], w) && Total(t, w, n) == 1
    ensures t[i].enabled <==> On(t, w, n) == 1
    decreases n
  {
    hide Optional;
    OnAtMostTotal(t, w, n);
    if i < n - 1 {
      TotalCounts(t, w, i, n - 1);
      OnlyOne(t, w, i, n - 1);
    } else {
      OnAtMostTotal(t, w, n - 1);
    }
  }

  lemma {:induction false} TotalCounts(t: seq<Cheat>, w: string, i: nat, n: nat)
    requires i < n <= |t| && Optional(t[i], w)
    ensures Total(t, w, n) >= 1
    decreases n
  {
    hide Optional;
    if i < n - 1 {
      TotalCounts(t, w, i, n - 1);
    }
  }

  /** With distinct names, wherever a cheat now stands in the table, it is on exactly when it was on. */
  lemma DistinctRestoredExactly(saved: seq<Cheat>, t: seq<Cheat>, i: nat, j: nat)
    requires i < |saved| && j < |t| && !IsMaster(saved[i]) && Norm(t[j].name) == Norm(saved[i].name)
    requires var w := Norm(saved[i].name); Total(saved, w, |saved|) == 1 && Total(t, w, |t|) == 1
    ensures |Loaded(t, Picks(saved, |saved|))| == |t|
    ensures Loaded(t, Picks(saved, |saved|))[j].enabled <==> saved[i].enabled
  {
    hide Norm, MasterName, On, Total, RestoreAll, Picks;
    var w, picks := Norm(saved[i].name), Picks(saved, |saved|);
    var r := Loaded(t, picks);
    LoadRestores(saved, t, w);
    OnlyOne(saved, w, i, |saved|);
    OnAtMostTotal(saved, w, |saved|);
    RestoreKeeps(Reset(t), picks, |picks|, j);
    ResetCounts(t, w, |t|);
    RestoreAllTotal(Reset(t), picks, |picks|, w);
    OnlyOne(r, w, j, |r|);
  }

  lemma {:induction false} RestoreAllTotal(t: seq<Cheat>, saved: seq<string>, n: nat, w: string)
    requires n <= |saved|
    ensures Total(RestoreAll(t, saved, n), w, |t|) == Total(t, w, |t|)
    decreases n
  {
    hide Norm, Restore, On, Total;
    if n > 0 {
      RestoreAllTotal(t, saved, n - 1, w);
      RestoreCounts(RestoreAll(t, saved, n - 1), saved[n - 1], w);
    }
  }
}
