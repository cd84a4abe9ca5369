/** Cleaning a configured title (src/cfgtitle.c). */
module CfgTitle {
  import opened Text
  import opened Utf8

  predicate IsC1(c: nat) {
    0x80 <= c < 0xA0
  }

  /** What utf8Length should return: the length of a well-formed character that is not a C1 control. */
  function CharLength(s: seq<byte>, i: nat, end: nat): (n: nat)
    requires i < end <= |s|
    ensures i + n <= end
  {
    match Accept(s, i, end, ACCEPT, 0)
    case Some((j, c)) => if IsC1(c) then 0 else j - i
    case None => 0
  }

  /** The length a lead byte announces. */
  function Announced(b: byte): (n: nat)
    ensures n <= 4
  {
    if b < 0x80 then 1
    else if 0xC0 <= b < 0xE0 && b >= 0xC2 then 2
    else if 0xE0 <= b < 0xF0 then 3
    else if 0xF0 <= b < 0xF8 && b <= 0xF4 then 4
    else 0
  }

  predicate AllCont(s: seq<byte>, i: nat, j: nat)
    requires j <= |s|
    decreases j - i
  {
    i >= j || (Cont(s[i]) && AllCont(s, i + 1, j))
  }

  /** C1 controls, overlong forms, surrogates and values past U+10FFFF, by their first two bytes. */
  predicate Excluded(b: byte, c: byte) {
    || (b == 0xC2 && c < 0xA0)
    || (b == 0xE0 && c < 0xA0)
    || (b == 0xED && c > 0x9F)
    || (b == 0xF0 && c < 0x90)
    || (b == 0xF4 && c > 0x8F)
  }

  lemma LengthByRange(s: seq<byte>, i: nat, end: nat)
    requires i < end <= |s|
    ensures var n := Announced(s[i]);
            CharLength(s, i, end) ==
            if i + n > end || !AllCont(s, i + 1, i + n) || (n > 1 && Excluded(s[i], s[i + 1])) then 0 else n
  {
    hide Accept, Put;
    AcceptIsByRange(s, i, end, 0);
    if ByRange(s, i, end).Some? {
      RangeC1(s, i, end);
    }
    var n := Announced(s[i]);
    if i + n <= end {
      assert n > 3 ==> (AllCont(s, i + 3, i + n) <==> Cont(s[i + 3]));
      assert n > 1 ==> (AllCont(s, i + 1, i + n) <==> Cont(s[i + 1]) && AllCont(s, i + 2, i + n));
      assert n > 2 ==> (AllCont(s, i + 2, i + n) <==> Cont(s[i + 2]) && AllCont(s, i + 3, i + n));
    }
  }

  /** utf8Length: exactly where and how far the automaton accepts, outside the C1 controls. */
  method Length(s: seq<byte>, i: nat, end: nat) returns (n: nat)
    requires i < end <= |s|
    ensures n == CharLength(s, i, end)
  {
    hide CharLength, Excluded;
    LengthByRange(s, i, end);
    var len := Announced(s[i]);
    if len == 0 || len > end - i {
      return 0;
    }
    var k := 1;
    while k < len
      invariant 1 <= k <= len && AllCont(s, i + k, i + len) == AllCont(s, i + 1, i + len)
    {
      if !Cont(s[i + k]) {
        return 0;
      }
      k := k + 1;
    }
    if len > 1 && Excluded(s[i], s[i + 1]) {
      return 0;
    }
    n := len;
  }

  /** C1 controls are the two-byte characters under the lead byte C2 with a small second byte. */
  lemma RangeC1(s: seq<byte>, i: nat, end: nat)
    requires i < end <= |s| && ByRange(s, i, end).Some?
    ensures IsC1(ByRange(s, i, end).value.1) <==> s[i] == 0xC2 && s[i + 1] < 0xA0
  {
    var r := ByRange(s, i, end).value;
    if r.0 == i + 3 {
      assert r.1 >= 0x800 by { Encodes3(s[i], s[i + 1], s[i + 2]); }
    } else if r.0 == i + 4 {
      assert r.1 >= 0x1_0000 by { Encodes4(s[i], s[i + 1], s[i + 2], s[i + 3]); }
    }
  }

  // ----- titles -----

  predicate IsBlank(b: byte) {
    b == 0x20 || b == 0x09
  }

  predicate IsControl(b: byte) {
    b < 0x20 || b == 0x7F
  }

  function TrimStart(s: seq<byte>, p: nat): (q: nat)
    requires p <= |s|
    ensures p <= q <= |s| && (q < |s| ==> !IsBlank(s[q])) && forall k :: p <= k < q ==> IsBlank(s[k])
    decreases |s| - p
  {
    if p < |s| && IsBlank(s[p]) then TrimStart(s, p + 1) else p
  }

  function TrimEnd(s: seq<byte>, p: nat, end: nat): (q: nat)
    requires p <= end <= |s|
    ensures p <= q <= end && (p < q ==> !IsBlank(s[q - 1])) && forall k :: q <= k < end ==> IsBlank(s[k])
    decreases end
  {
    if end > p && IsBlank(s[end - 1]) then TrimEnd(s, p, end - 1) else end
  }

  /** The input without blanks around it. */
  function Trimmed(s: seq<byte>): seq<byte> {
    s[TrimStart(s, 0)..TrimEnd(s, TrimStart(s, 0), |s|)]
  }

  /** Spaces and tabs around a text are what is trimmed, and nothing inside it. */
  lemma TrimmedIs(pre: seq<byte>, t: seq<byte>, post: seq<byte>)
    requires t != [] && t[0] != 0x20 && t[0] != 0x09 && t[|t| - 1] != 0x20 && t[|t| - 1] != 0x09
    requires forall b :: b in pre || b in post ==> b == 0x20 || b == 0x09
    ensures Trimmed(pre + t + post) == t
  {
    var s := pre + t + post;
    assert forall k :: 0 <= k < |pre| ==> s[k] == pre[k] && pre[k] in pre;
    assert forall k :: 0 <= k < |post| ==> s[|pre| + |t| + k] == post[k] && post[k] in post;
    assert s[|pre|] == t[0] && s[|pre| + |t| - 1] == t[|t| - 1];
    assert TrimStart(s, 0) == |pre|;
    assert TrimEnd(s, |pre|, |s|) == |pre| + |t|;
    assert s[|pre|..|pre| + |t|] == t;
  }

  /** Where copying characters from p stops with this much room; None is something that is not text. */
  function CleanEnd(s: seq<byte>, p: nat, end: nat, room: nat): (r: Option<nat>)
    requires p <= end <= |s|
    ensures r.Some? ==> p <= r.value <= end
    decreases end - p
  {
    if p == end then Some(p) else
      var n := CharLength(s, p, end);
      if n == 0 || (n == 1 && IsControl(s[p])) then None
      else if n > room then Some(p)
      else CleanEnd(s, p + n, end, room - n)
  }

  /** cfgTitleClean: the text, or None for a return of 0. */
  function Clean(s: seq<byte>, size: int): Option<seq<byte>> {
    var p := TrimStart(s, 0);
    var end := TrimEnd(s, p, |s|);
    if size < 2 || p == end then None else
      var q :- CleanEnd(s, p, end, size - 1);
      if q == p then None else Some(s[p..q])
  }

  /** Text: no controls, neither ASCII nor C1. */
  predicate Printable(c: nat) {
    0x20 <= c && c != 0x7F && !IsC1(c)
  }

  predicate AllPrintable(cs: seq<nat>)
    decreases |cs|
  {
    cs == [] || (Printable(cs[0]) && AllPrintable(cs[1..]))
  }

  /** A clean character is a printable code point. */
  lemma CleanChar(s: seq<byte>, p: nat, end: nat) returns (c: nat)
    requires p < end <= |s| && CharLength(s, p, end) > 0 && !(CharLength(s, p, end) == 1 && IsControl(s[p]))
    ensures Printable(c) && CharAt(s, p, end, p + CharLength(s, p, end), c)
  {
    hide Accept;
    var (j, code) := Accept(s, p, end, ACCEPT, 0).value;
    c := code;
    AcceptsExactly(s, p, end, 0, j, c);
    assert s[p + 0] == Encode(c)[0];
  }

  /** What is copied is the encoding of printable code points: whole characters. */
  lemma {:induction false} CleanIsText(s: seq<byte>, p: nat, end: nat, room: nat) returns (cs: seq<nat>)
    requires p <= end <= |s| && CleanEnd(s, p, end, room).Some?
    ensures AllPrintable(cs) && AllScalar(cs) && EncodeAll(cs) == s[p..CleanEnd(s, p, end, room).value]
    ensures CleanEnd(s, p, end, room).value - p <= room
    decreases end - p
  {
    hide CharLength, Printable, Encode, Scalar, IsControl;
    var q := CleanEnd(s, p, end, room).value;
    if p == end || CharLength(s, p, end) > room {
      cs := [];
      assert s[p..q] == [];
    } else {
      var n := CharLength(s, p, end);
      var c := CleanChar(s, p, end);
      var rest := CleanIsText(s, p + n, end, room - n);
      cs := [c] + rest;
      assert cs[1..] == rest;
      assert s[p..p + n] == Encode(c);
      assert s[p..q] == s[p..p + n] + s[p + n..q];
    }
  }

  /** Copying stops only at the end or before a character that would not fit. */
  lemma {:induction false} CleanIsMaximal(s: seq<byte>, p: nat, end: nat, room: nat)
    requires p <= end <= |s| && CleanEnd(s, p, end, room).Some?
    ensures var q := CleanEnd(s, p, end, room).value;
            q < end ==> CharLength(s, q, end) > room - (q - p)
    decreases end - p
  {
    hide CharLength, IsControl;
    if p < end && CharLength(s, p, end) <= room {
      CleanIsMaximal(s, p + CharLength(s, p, end), end, room - CharLength(s, p, end));
    }
  }

  /**
   The title is always a prefix of the trimmed input on a character boundary, printable, not empty, and fits with
   its terminator; and it is all of the trimmed input unless its next character would not fit.
   */
  lemma CleanIsPrefix(s: seq<byte>, size: int) returns (cs: seq<nat>)
    requires Clean(s, size).Some?
    ensures var title := Clean(s, size).value;
            && title != [] && |title| < size && title <= Trimmed(s)
            && AllPrintable(cs) && AllScalar(cs) && title == EncodeAll(cs)
            && (title != Trimmed(s) ==>
                  |title| + CharLength(s, TrimStart(s, 0) + |title|, TrimEnd(s, TrimStart(s, 0), |s|)) >= size)
  {
    hide CleanEnd, CharLength, TrimStart, TrimEnd;
    var p := TrimStart(s, 0);
    var end := TrimEnd(s, p, |s|);
    cs := CleanIsText(s, p, end, size - 1);
    CleanIsMaximal(s, p, end, size - 1);
    assert Clean(s, size).value == Trimmed(s)[..|Clean(s, size).value|];
  }

  // ----- which titles are accepted -----

  /** These are the characters the copy reaches from p: printable ones, to the end or to the first that does not fit. */
  ghost predicate Reached(s: seq<byte>, p: nat, end: nat, cs: seq<nat>, room: nat)
    decreases |cs|
  {
    if p == end then cs == []
    else
      && cs != [] && Printable(cs[0]) && Scalar(cs[0]) && CharAt(s, p, end, p + |Encode(cs[0])|, cs[0])
      && if |Encode(cs[0])| > room then |cs| == 1
         else Reached(s, p + |Encode(cs[0])|, end, cs[1..], room - |Encode(cs[0])|)
  }

  /** A printable character is taken, whatever its length. */
  lemma PrintableTaken(s: seq<byte>, p: nat, end: nat, c: nat)
    requires p < end <= |s| && Printable(c) && Scalar(c) && CharAt(s, p, end, p + |Encode(c)|, c)
    ensures CharLength(s, p, end) == |Encode(c)|
    ensures !(CharLength(s, p, end) == 1 && IsControl(s[p]))
  {
    hide Accept;
    AcceptsExactly(s, p, end, 0, p + |Encode(c)|, c);
    assert s[p + 0] == Encode(c)[0];
  }

  lemma {:induction false} ReachedIsClean(s: seq<byte>, p: nat, end: nat, cs: seq<nat>, room: nat)
    requires p <= end <= |s| && Reached(s, p, end, cs, room)
    ensures CleanEnd(s, p, end, room).Some?
    ensures p < end && |Encode(cs[0])| <= room ==> CleanEnd(s, p, end, room).value > p
    decreases |cs|
  {
    hide CharLength, Printable, Encode, IsControl;
    if p < end {
      PrintableTaken(s, p, end, cs[0]);
      if |Encode(cs[0])| <= room {
        ReachedIsClean(s, p + |Encode(cs[0])|, end, cs[1..], room - |Encode(cs[0])|);
      }
    }
  }

  lemma {:induction false} CleanIsReached(s: seq<byte>, p: nat, end: nat, room: nat) returns (cs: seq<nat>)
    requires p <= end <= |s| && CleanEnd(s, p, end, room).Some?
    ensures Reached(s, p, end, cs, room)
    ensures p < CleanEnd(s, p, end, room).value ==> |Encode(cs[0])| <= room
    decreases end - p
  {
    hide CharLength, Printable, Encode, Scalar, IsControl;
    if p == end {
      cs := [];
    } else {
      var n := CharLength(s, p, end);
      var c := CleanChar(s, p, end);
      if n > room {
        cs := [c];
      } else {
        var rest := CleanIsReached(s, p + n, end, room - n);
        cs := [c] + rest;
        assert cs[1..] == rest;
      }
    }
  }

  /** The copy of the trimmed input reaches these characters, and the first of them fits. */
  ghost predicate Titled(s: seq<byte>, size: int, cs: seq<nat>) {
    var p := TrimStart(s, 0);
    size >= 2 && cs != [] && Scalar(cs[0]) && |Encode(cs[0])| < size && Reached(s, p, TrimEnd(s, p, |s|), cs, size - 1)
  }

  /** There is a title exactly when all characters the copy reaches are printable ones in UTF-8 and the first fits. */
  lemma CleanExactly(s: seq<byte>, size: int)
    ensures Clean(s, size).Some? <==> exists cs :: Titled(s, size, cs)
  {
    hide CleanEnd, TrimStart, TrimEnd, Encode, Scalar;
    var p := TrimStart(s, 0);
    var end := TrimEnd(s, p, |s|);
    if Clean(s, size).Some? {
      var cs := CleanIsReached(s, p, end, size - 1);
      assert Titled(s, size, cs);
    }
    if cs :| Titled(s, size, cs) {
      ReachedIsClean(s, p, end, cs, size - 1);
    }
  }

  /** The length of the first k encodings. */
  function EncodedLength(cs: seq<nat>, k: nat): nat
    requires AllScalar(cs) && k <= |cs|
    decreases k
  {
    if k == 0 then 0 else |Encode(cs[0])| + EncodedLength(cs[1..], k - 1)
  }

  lemma {:induction false} EncodedLengthAll(cs: seq<nat>)
    requires AllScalar(cs)
    ensures EncodedLength(cs, |cs|) == |EncodeAll(cs)|
    decreases |cs|
  {
    hide Encode, Scalar;
    if cs != [] {
      EncodedLengthAll(cs[1..]);
    }
  }

  lemma FirstOf(s: seq<byte>, p: nat, end: nat, cs: seq<nat>)
    requires p <= end <= |s| && AllScalar(cs) && cs != [] && s[p..end] == EncodeAll(cs)
    ensures p < end && p + |Encode(cs[0])| <= end && CharAt(s, p, end, p + |Encode(cs[0])|, cs[0])
    ensures s[p + |Encode(cs[0])|..end] == EncodeAll(cs[1..])
  {
    hide Encode, Scalar;
    var b, t, rest := Encode(cs[0]), s[p..end], EncodeAll(cs[1..]);
    assert t == b + rest;
    forall k | 0 <= k < |b|
      ensures s[p + k] == b[k]
    {
      assert t[k] == b[k] && t[k] == s[p + k];
    }
    assert t[|b|..] == rest && t[|b|..] == s[p + |b|..end];
  }

  /** On well-formed text the copy stops after the last character that fits. */
  lemma {:induction false} CleanStops(s: seq<byte>, p: nat, end: nat, cs: seq<nat>, room: nat, k: nat)
    requires p <= end <= |s| && AllScalar(cs) && AllPrintable(cs) && s[p..end] == EncodeAll(cs) && k <= |cs|
    requires EncodedLength(cs, k) <= room && (k < |cs| ==> EncodedLength(cs, k + 1) > room)
    ensures CleanEnd(s, p, end, room) == Some(p + EncodedLength(cs, k))
    decreases |cs|
  {
    hide CharLength, Printable, Encode, Scalar, IsControl;
    if cs != [] {
      var n := |Encode(cs[0])|;
      FirstOf(s, p, end, cs);
      PrintableTaken(s, p, end, cs[0]);
      if k > 0 {
        CleanStops(s, p + n, end, cs[1..], room - n, k - 1);
      }
    }
  }

  /**
   Every title of printable characters is accepted if its first one fits, and is cut after the last that fits:
   k of them. No character is refused for its length.
   */
  lemma TitleIsCut(s: seq<byte>, size: int, cs: seq<nat>, k: nat)
    requires size >= 2 && AllScalar(cs) && AllPrintable(cs) && Trimmed(s) == EncodeAll(cs) && k <= |cs|
    requires EncodedLength(cs, k) < size && (k < |cs| ==> EncodedLength(cs, k + 1) >= size)
    ensures EncodedLength(cs, k) <= |Trimmed(s)|
    ensures Clean(s, size) == if k == 0 then None else Some(Trimmed(s)[..EncodedLength(cs, k)])
  {
    hide CleanEnd, TrimStart, TrimEnd, Encode, Scalar, AllPrintable;
    var p := TrimStart(s, 0);
    var end := TrimEnd(s, p, |s|);
    CleanStops(s, p, end, cs, size - 1, k);
    if k > 0 {
      assert s[p..end][..EncodedLength(cs, k)] == s[p..p + EncodedLength(cs, k)];
    }
  }

  /** One that fits is taken whole. */
  lemma TitleIsKept(s: seq<byte>, size: int, cs: seq<nat>)
    requires AllScalar(cs) && AllPrintable(cs) && cs != [] && Trimmed(s) == EncodeAll(cs) && |Trimmed(s)| < size
    ensures Clean(s, size) == Some(Trimmed(s))
  {
    hide Clean, Trimmed, Encode, Scalar, AllPrintable;
    EncodedLengthAll(cs);
    TitleIsCut(s, size, cs, |cs|);
    assert Trimmed(s)[..|Trimmed(s)|] == Trimmed(s);
  }

  /** The copying loop of cfgTitleClean. */
  method CopyText(s: seq<byte>, start: nat, end: nat, room: nat) returns (out: Option<seq<byte>>)
    requires start <= end <= |s|
    ensures out == match CleanEnd(s, start, end, room) case Some(q) => Some(s[start..q]) case None => None
  {
    hide CharLength, IsControl;
    var p, left := start, room;
    while p < end
      invariant start <= p <= end && CleanEnd(s, p, end, left) == CleanEnd(s, start, end, room)
      decreases end - p
    {
      var n := Length(s, p, end);
      if n == 0 || (n == 1 && IsControl(s[p])) {
        return None;
      }
      if n > left {
        break;
      }
      p, left := p + n, left - n;
    }
    out := Some(s[start..p]);
  }

  /** The two trimming loops of cfgTitleClean. */
  method Trim(s: seq<byte>) returns (p: nat, end: nat)
    ensures p == TrimStart(s, 0) && end == TrimEnd(s, p, |s|)
  {
    p, end := 0, |s|;
    while p < end && IsBlank(s[p])
      invariant 0 <= p <= end && TrimStart(s, p) == TrimStart(s, 0)
    {
      p := p + 1;
    }
    while end > p && IsBlank(s[end - 1])
      invariant p <= end <= |s| && TrimEnd(s, p, end) == TrimEnd(s, p, |s|)
    {
      end := end - 1;
    }
  }

  /** cfgTitleClean; no input is None. */
  method TitleClean(input: Option<seq<byte>>, size: int) returns (title: Option<seq<byte>>)
    ensures title == if input.None? then None else Clean(input.value, size)
    ensures title.Some? <==> input.Some? && exists cs :: Titled(input.value, size, cs)
  {
    hide CharLength, CleanEnd, TrimStart, TrimEnd, Titled;
    if input.None? {
      return None;
    }
    CleanExactly(input.value, size);
    if size < 2 {
      return None;
    }
    var s := input.value;
    var p, end := Trim(s);
    if p == end {
      return None;
    }
    title := CopyText(s, p, end, size - 1);
    if title == Some([]) {
      title := None;
    }
  }
}
