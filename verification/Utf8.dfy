/** Two decoders of UTF-8: the table automaton (include/utf8.h) and the strict validator (src/cfgtitle.c). */
module Utf8 {
  import opened Text

  // ----- section 4 of RFC 3629 -----

  predicate Scalar(c: nat) {
    c < 0x11_0000 && !(0xD800 <= c < 0xE000)
  }

  function Encode(c: nat): (b: seq<byte>)
    requires Scalar(c)
    ensures 1 <= |b| <= 4
  {
    if c < 0x80 then [c]
    else if c < 0x800 then [0xC0 + c / 64, 0x80 + c % 64]
    else if c < 0x1_0000 then [0xE0 + c / 4096, 0x80 + c / 64 % 64, 0x80 + c % 64]
    else [0xF0 + c / 262144, 0x80 + c / 4096 % 64, 0x80 + c / 64 % 64, 0x80 + c % 64]
  }

  /** The bytes of c stand at i .. j, not past end. */
  ghost predicate CharAt(s: seq<byte>, i: nat, end: nat, j: nat, c: nat) {
    Scalar(c) && j == i + |Encode(c)| && j <= end <= |s| && forall k :: 0 <= k < |Encode(c)| ==> s[i + k] == Encode(c)[k]
  }

  // ----- the automaton -----

  const ACCEPT: nat := 0
  const REJECT: nat := 1

  /** The character class of a byte: the first part of the table. */
  function Class(b: byte): (t: nat)
    ensures t < 12
  {
    if b < 0x80 then 0
    else if b < 0x90 then 1
    else if b < 0xA0 then 9
    else if b < 0xC0 then 7
    else if b < 0xC2 then 8
    else if b < 0xE0 then 2
    else if b == 0xE0 then 10
    else if b == 0xED then 4
    else if b < 0xF0 then 3
    else if b == 0xF0 then 11
    else if b < 0xF4 then 6
    else if b == 0xF4 then 5
    else 8
  }

  /** The transitions of a state by class: the second part of the table. */
  function Row(state: nat): (r: seq<nat>)
    requires state < 9
    ensures |r| == 16
  {
    match state
    case 0 => [0, 1, 2, 3, 5, 8, 7, 1, 1, 1, 4, 6, 1, 1, 1, 1]
    case 1 => [1, 1, 1, 1, 1, 1, 1, 1, 1, 1, 1, 1, 1, 1, 1, 1]
    case 2 => [1, 0, 1, 1, 1, 1, 1, 0, 1, 0, 1, 1, 1, 1, 1, 1]
    case 3 => [1, 2, 1, 1, 1, 1, 1, 2, 1, 2, 1, 1, 1, 1, 1, 1]
    case 4 => [1, 1, 1, 1, 1, 1, 1, 2, 1, 1, 1, 1, 1, 1, 1, 1]
    case 5 => [1, 2, 1, 1, 1, 1, 1, 1, 1, 2, 1, 1, 1, 1, 1, 1]
    case 6 => [1, 1, 1, 1, 1, 1, 1, 3, 1, 3, 1, 1, 1, 1, 1, 1]
    case 7 => [1, 3, 1, 1, 1, 1, 1, 3, 1, 3, 1, 1, 1, 1, 1, 1]
    case 8 => [1, 3, 1, 1, 1, 1, 1, 1, 1, 1, 1, 1, 1, 1, 1, 1]
  }

  /** utf8d[256 + state * 16 + class]. */
  function Next(state: nat, t: nat): (r: nat)
    requires state < 9 && t < 12
    ensures r < 9
    ensures state == REJECT ==> r == REJECT
  {
    assert t == 0 || t == 1 || t == 2 || t == 3 || t == 4 || t == 5 || t == 6 || t == 7 || t == 8 || t == 9 || t == 10 || t == 11;
    Row(state)[t]
  }

  /** The table as ranges of bytes: what may lead, and what may follow in each state. */
  lemma Follows(b: byte)
    ensures Next(0, Class(b)) ==
            if b < 0x80 then 0 else if b < 0xC2 then 1 else if b < 0xE0 then 2 else if b == 0xE0 then 4 else if b == 0xED then 5
            else if b < 0xF0 then 3 else if b == 0xF0 then 6 else if b < 0xF4 then 7 else if b == 0xF4 then 8 else 1
    ensures Next(2, Class(b)) == if 0x80 <= b < 0xC0 then 0 else 1
    ensures Next(3, Class(b)) == if 0x80 <= b < 0xC0 then 2 else 1
    ensures Next(4, Class(b)) == if 0xA0 <= b < 0xC0 then 2 else 1
    ensures Next(5, Class(b)) == if 0x80 <= b < 0xA0 then 2 else 1
    ensures Next(6, Class(b)) == if 0x90 <= b < 0xC0 then 3 else 1
    ensures Next(7, Class(b)) == if 0x80 <= b < 0xC0 then 3 else 1
    ensures Next(8, Class(b)) == if 0x80 <= b < 0x90 then 3 else 1
  {
    var t := Class(b);
    assert t == 0 || t == 1 || t == 2 || t == 3 || t == 4 || t == 5 || t == 6 || t == 7 || t == 8 || t == 9 || t == 10 || t == 11;
  }

  /** (0xff >> class) & byte. */
  function LeadBits(b: byte): nat {
    match Class(b)
    case 0 => b
    case 1 => b % 128
    case 2 => b % 64
    case 3 => b % 32
    case 4 => b % 16
    case 5 => b % 8
    case 6 => b % 4
    case 7 => b % 2
    case _ => 0
  }

  /** utf8Decode's new code point, in 32 bits. */
  function Bits(state: nat, codep: nat, b: byte): nat {
    if state == ACCEPT then LeadBits(b) else codep * 64 % 0x1_0000_0000 + b % 64
  }

  /** Where the automaton, started at i in this state, first accepts, and the code point it then holds. */
  function Accept(s: seq<byte>, i: nat, end: nat, state: nat, codep: nat): (r: Option<(nat, nat)>)
    requires end <= |s| && state < 9
    ensures r.Some? ==> i < r.value.0 <= end
    decreases end - i
  {
    if i >= end then None else
      var next, code := Next(state, Class(s[i])), Bits(state, codep, s[i]);
      if next == ACCEPT then Some((i + 1, code)) else Accept(s, i + 1, end, next, code)
  }

  // ----- the automaton accepts exactly the encodings -----

  predicate Cont(b: byte) {
    0x80 <= b < 0xC0
  }

  /** Six more bits. */
  function Put(c: nat, b: int): nat
    requires 0x80 <= b < 0xC0
  {
    c * 64 + (b - 0x80)
  }

  /** The character at i by ranges of bytes: its end and its code point. */
  function ByRange(s: seq<byte>, i: nat, end: nat): Option<(nat, nat)>
    requires i < end <= |s|
  {
    var b: int := s[i];
    if b < 0x80 then Some((i + 1, b))
    else if 0xC2 <= b < 0xE0 && i + 2 <= end && Cont(s[i + 1]) then Some((i + 2, Put(b - 0xC0, s[i + 1])))
    else if 0xE0 <= b < 0xF0 && i + 3 <= end && Cont(s[i + 1]) && Cont(s[i + 2])
            && (b == 0xE0 ==> s[i + 1] >= 0xA0) && (b == 0xED ==> s[i + 1] < 0xA0) then
      Some((i + 3, Put(Put(b - 0xE0, s[i + 1]), s[i + 2])))
    else if 0xF0 <= b < 0xF5 && i + 4 <= end && Cont(s[i + 1]) && Cont(s[i + 2]) && Cont(s[i + 3])
            && (b == 0xF0 ==> s[i + 1] >= 0x90) && (b == 0xF4 ==> s[i + 1] < 0x90) then
      Some((i + 4, Put(Put(Put(b - 0xF0, s[i + 1]), s[i + 2]), s[i + 3])))
    else None
  }

  lemma {:induction false} Rejected(s: seq<byte>, i: nat, end: nat, codep: nat)
    requires end <= |s|
    ensures Accept(s, i, end, REJECT, codep) == None
    decreases end - i
  {
    if i < end {
      Rejected(s, i + 1, end, Bits(REJECT, codep, s[i]));
    }
  }

  lemma PutsBits(state: nat, codep: nat, b: byte)
    requires state != ACCEPT && codep < 0x40_0000 && Cont(b)
    ensures Bits(state, codep, b) == Put(codep, b) && (codep < 0x1_0000 ==> Put(codep, b) < 0x40_0000)
    ensures codep < 16 ==> Put(codep, b) < 0x1_0000
  {
  }

  /** One continuation byte to go. */
  lemma OneMore(s: seq<byte>, i: nat, end: nat, codep: nat)
    requires end <= |s| && codep < 0x40_0000
    ensures Accept(s, i, end, 2, codep) ==
            if i < end && Cont(s[i]) then Some((i + 1, Put(codep, s[i]))) else None
  {
    hide Class, Next, Bits, Put;
    if i < end {
      Follows(s[i]);
      Rejected(s, i + 1, end, Bits(2, codep, s[i]));
      if Cont(s[i]) {
        PutsBits(2, codep, s[i]);
      }
    }
  }

  /** Two continuation bytes to go. */
  lemma TwoMore(s: seq<byte>, i: nat, end: nat, codep: nat)
    requires end <= |s| && codep < 0x1_0000
    ensures Accept(s, i, end, 3, codep) ==
            if i + 1 < end && Cont(s[i]) && Cont(s[i + 1]) then
              Some((i + 2, Put(Put(codep, s[i]), s[i + 1])))
            else None
  {
    hide Class, Next, Bits, Put;
    if i < end {
      Follows(s[i]);
      Rejected(s, i + 1, end, Bits(3, codep, s[i]));
      if Cont(s[i]) {
        PutsBits(3, codep, s[i]);
        OneMore(s, i + 1, end, Put(codep, s[i]));
      }
    }
  }

  lemma Leads(b: byte)
    ensures LeadBits(b) == if b < 0x80 then b else if 0xC2 <= b < 0xE0 then b - 0xC0 else if 0xE0 <= b < 0xF0 then b - 0xE0
                           else if 0xF0 <= b < 0xF5 then b - 0xF0 else LeadBits(b)
  {
  }

  /** The first step into a sequence of three or four bytes, then the second byte with its restrictions. */
  lemma Second(s: seq<byte>, i: nat, end: nat, state: nat, lead: nat)
    requires end <= |s| && 3 <= state < 9 && lead < 16
    ensures var r := Accept(s, i, end, state, lead);
            if i >= end then r == None else
              var b := s[i];
              var ok := match state
                        case 3 => 0x80 <= b < 0xC0
                        case 4 => 0xA0 <= b < 0xC0
                        case 5 => 0x80 <= b < 0xA0
                        case 6 => 0x90 <= b < 0xC0
                        case 7 => 0x80 <= b < 0xC0
                        case _ => 0x80 <= b < 0x90;
              if !ok then r == None
              else r == Accept(s, i + 1, end, if state <= 5 then 2 else 3, Put(lead, b))
  {
    hide Class, Next, Bits, Put;
    if i < end {
      Follows(s[i]);
      Rejected(s, i + 1, end, Bits(state, lead, s[i]));
      if Cont(s[i]) {
        PutsBits(state, lead, s[i]);
      }
    }
  }

  /** From the accepting state, whatever code point is left over. */
  lemma AcceptIsByRange(s: seq<byte>, i: nat, end: nat, codep: nat)
    requires i < end <= |s|
    ensures Accept(s, i, end, ACCEPT, codep) == ByRange(s, i, end)
  {
    hide Class, Next, LeadBits, Accept, Put, Bits;
    var b := s[i];
    Follows(b);
    Leads(b);
    FirstStep(s, i, end, codep);
    var state, lead := Next(ACCEPT, Class(b)), LeadBits(b);
    if state == 2 {
      OneMore(s, i + 1, end, lead);
    } else if state == REJECT {
      Rejected(s, i + 1, end, lead);
    } else if state != ACCEPT {
      Second(s, i + 1, end, state, lead);
      if i + 1 < end && Cont(s[i + 1]) {
        PutsBits(state, lead, s[i + 1]);
        if state <= 5 {
          OneMore(s, i + 2, end, Put(lead, s[i + 1]));
        } else {
          TwoMore(s, i + 2, end, Put(lead, s[i + 1]));
        }
      }
    }
  }

  lemma FirstStep(s: seq<byte>, i: nat, end: nat, codep: nat)
    requires i < end <= |s|
    ensures var state := Next(ACCEPT, Class(s[i]));
            Accept(s, i, end, ACCEPT, codep) ==
            if state == ACCEPT then Some((i + 1, LeadBits(s[i]))) else Accept(s, i + 1, end, state, LeadBits(s[i]))
  {
    hide Class, Next, LeadBits;
  }

  lemma PutBack(c: nat, b: int)
    requires 0x80 <= b < 0xC0
    ensures Put(c, b) / 64 == c && 0x80 + Put(c, b) % 64 == b
    ensures Put(c, b) / 4096 == c / 64 && Put(c, b) / 262144 == c / 4096
  {
  }

  lemma Encodes2(b0: int, b1: int)
    requires 0xC2 <= b0 < 0xE0 && 0x80 <= b1 < 0xC0
    ensures var c := Put(b0 - 0xC0, b1); Scalar(c) && Encode(c) == [b0, b1]
  {
  }

  lemma Encodes3(b0: int, b1: int, b2: int)
    requires 0xE0 <= b0 < 0xF0 && 0x80 <= b1 < 0xC0 && 0x80 <= b2 < 0xC0
    requires (b0 == 0xE0 ==> b1 >= 0xA0) && (b0 == 0xED ==> b1 < 0xA0)
    ensures var c := Put(Put(b0 - 0xE0, b1), b2); Scalar(c) && Encode(c) == [b0, b1, b2]
  {
    PutBack(b0 - 0xE0, b1);
    PutBack(Put(b0 - 0xE0, b1), b2);
  }

  lemma Encodes4(b0: int, b1: int, b2: int, b3: int)
    requires 0xF0 <= b0 < 0xF5 && 0x80 <= b1 < 0xC0 && 0x80 <= b2 < 0xC0 && 0x80 <= b3 < 0xC0
    requires (b0 == 0xF0 ==> b1 >= 0x90) && (b0 == 0xF4 ==> b1 < 0x90)
    ensures var c := Put(Put(Put(b0 - 0xF0, b1), b2), b3); Scalar(c) && Encode(c) == [b0, b1, b2, b3]
  {
    PutBack(b0 - 0xF0, b1);
    PutBack(Put(b0 - 0xF0, b1), b2);
    PutBack(Put(Put(b0 - 0xF0, b1), b2), b3);
  }

  /** What the ranges describe is an encoding. */
  lemma ByRangeEncodes(s: seq<byte>, i: nat, end: nat)
    requires i < end <= |s| && ByRange(s, i, end).Some?
    ensures CharAt(s, i, end, ByRange(s, i, end).value.0, ByRange(s, i, end).value.1)
  {
    hide Put, Encode, Scalar;
    var (j, c) := ByRange(s, i, end).value;
    if j == i + 1 {
      Encodes1(s[i]);
    } else if j == i + 2 {
      Encodes2(s[i], s[i + 1]);
    } else if j == i + 3 {
      Encodes3(s[i], s[i + 1], s[i + 2]);
    } else {
      Encodes4(s[i], s[i + 1], s[i + 2], s[i + 3]);
    }
  }

  lemma Encodes1(b: byte)
    requires b < 0x80
    ensures Scalar(b) && Encode(b) == [b]
  {
  }

  /** Every encoding is described by the ranges. */
  lemma EncodesByRange(s: seq<byte>, i: nat, end: nat, j: nat, c: nat)
    requires i < end <= |s| && CharAt(s, i, end, j, c)
    ensures ByRange(s, i, end) == Some((j, c))
  {
    var e := Encode(c);
    assert s[i] == e[0] && (|e| > 1 ==> s[i + 1] == e[1]) && (|e| > 2 ==> s[i + 2] == e[2]) && (|e| > 3 ==> s[i + 3] == e[3]);
    if |e| == 3 {
      Join3(c);
    } else if |e| == 4 {
      Join4(c);
    }
  }

  lemma Join3(c: nat)
    requires 0x800 <= c < 0x1_0000
    ensures Put(Put(c / 4096, 0x80 + c / 64 % 64), 0x80 + c % 64) == c
    ensures c / 4096 < 16 && (c / 4096 == 0 ==> c / 64 % 64 >= 32)
    ensures !(0xD800 <= c < 0xE000) && c / 4096 == 13 ==> c / 64 % 64 < 32
  {
  }

  lemma PutSplit(c: nat)
    ensures Put(c / 64, 0x80 + c % 64) == c
  {
  }

  lemma Quotients(c: nat)
    ensures c / 4096 == c / 64 / 64 && c / 262144 == c / 64 / 64 / 64
  {
  }

  lemma Join4(c: nat)
    requires 0x1_0000 <= c < 0x11_0000
    ensures Put(Put(Put(c / 262144, 0x80 + c / 4096 % 64), 0x80 + c / 64 % 64), 0x80 + c % 64) == c
    ensures c / 262144 < 5 && (c / 262144 == 0 ==> c / 4096 % 64 >= 16) && (c / 262144 == 4 ==> c / 4096 % 64 < 16)
  {
    hide Put;
    Quotients(c);
    PutSplit(c);
    PutSplit(c / 64);
    PutSplit(c / 64 / 64);
  }

  /** The automaton first accepts at j with code point c exactly when the bytes up to j are the encoding of c. */
  lemma AcceptsExactly(s: seq<byte>, i: nat, end: nat, codep: nat, j: nat, c: nat)
    requires i < end <= |s|
    ensures Accept(s, i, end, ACCEPT, codep) == Some((j, c)) <==> CharAt(s, i, end, j, c)
  {
    hide Accept, ByRange, CharAt;
    AcceptIsByRange(s, i, end, codep);
    if ByRange(s, i, end).Some? {
      ByRangeEncodes(s, i, end);
    }
    if CharAt(s, i, end, j, c) {
      EncodesByRange(s, i, end, j, c);
    }
  }

  // ----- whole strings -----

  /** Feeding a string to the automaton: the code points it accepts, if it ends in the accepting state. */
  function DecodeFrom(s: seq<byte>, i: nat): (r: Option<seq<nat>>)
    requires i <= |s|
    decreases |s| - i
  {
    if i == |s| then Some([]) else
      var (j, c) :- Accept(s, i, |s|, ACCEPT, 0);
      var rest :- DecodeFrom(s, j);
      Some([c] + rest)
  }

  predicate AllScalar(cs: seq<nat>)
    decreases |cs|
  {
    cs == [] || (Scalar(cs[0]) && AllScalar(cs[1..]))
  }

  /** The encodings of code points one after the other. */
  function EncodeAll(cs: seq<nat>): seq<byte>
    requires AllScalar(cs)
    decreases |cs|
  {
    if cs == [] then [] else Encode(cs[0]) + EncodeAll(cs[1..])
  }

  /** Accepted strings are well formed, and the code points are theirs. */
  lemma {:induction false} DecodedIsEncoded(s: seq<byte>, i: nat)
    requires i <= |s| && DecodeFrom(s, i).Some?
    ensures AllScalar(DecodeFrom(s, i).value) && EncodeAll(DecodeFrom(s, i).value) == s[i..]
    decreases |s| - i
  {
    hide Accept, Encode, Scalar;
    if i < |s| {
      var (j, c) := Accept(s, i, |s|, ACCEPT, 0).value;
      AcceptsExactly(s, i, |s|, 0, j, c);
      DecodedIsEncoded(s, j);
      var rest := DecodeFrom(s, j).value;
      assert ([c] + rest)[1..] == rest;
      assert s[i..j] == Encode(c);
      assert s[i..] == s[i..j] + s[j..];
    }
  }

  lemma CharFirst(s: seq<byte>, i: nat, c: nat, rest: seq<byte>)
    requires i <= |s| && Scalar(c) && s[i..] == Encode(c) + rest
    ensures CharAt(s, i, |s|, i + |Encode(c)|, c) && s[i + |Encode(c)|..] == rest
  {
    hide Encode, Scalar;
    var n := |Encode(c)|;
    assert |s| - i == n + |rest|;
    forall k | 0 <= k < n ensures s[i + k] == Encode(c)[k] {
      assert s[i..][k] == (Encode(c) + rest)[k];
    }
    assert s[i..][n..] == s[i + n..];
  }

  /** Every encoding of scalar values is accepted, with those values. */
  lemma {:induction false} EncodedIsDecoded(s: seq<byte>, i: nat, cs: seq<nat>)
    requires i <= |s| && AllScalar(cs) && s[i..] == EncodeAll(cs)
    ensures DecodeFrom(s, i) == Some(cs)
    decreases |cs|
  {
    hide Accept, Encode, Scalar, CharAt;
    if cs != [] {
      var j := i + |Encode(cs[0])|;
      CharFirst(s, i, cs[0], EncodeAll(cs[1..]));
      assert i < |s| && j <= |s| by { CharFits(s, i, |s|, j, cs[0]); }
      AcceptsExactly(s, i, |s|, 0, j, cs[0]);
      EncodedIsDecoded(s, j, cs[1..]);
      assert cs == [cs[0]] + cs[1..];
    }
  }

  lemma CharFits(s: seq<byte>, i: nat, end: nat, j: nat, c: nat)
    requires CharAt(s, i, end, j, c)
    ensures i < j <= end
  {
  }

  /** The automaton accepts exactly the well-formed strings, and yields exactly their code points. */
  lemma AutomatonIsUtf8(s: seq<byte>, cs: seq<nat>)
    ensures DecodeFrom(s, 0) == Some(cs) <==> AllScalar(cs) && s == EncodeAll(cs)
  {
    hide DecodeFrom, AllScalar, EncodeAll;
    assert s[0..] == s;
    if DecodeFrom(s, 0).Some? {
      DecodedIsEncoded(s, 0);
    }
    if AllScalar(cs) && s == EncodeAll(cs) {
      EncodedIsDecoded(s, 0, cs);
    }
  }

  /** The decoder's two variables. */
  class Decoder {
    var state: nat
    var codep: nat

    constructor ()
      ensures state == ACCEPT && codep == 0
    {
      state, codep := ACCEPT, 0;
    }

    /** utf8Decode. */
    method Feed(b: byte) returns (now: nat)
      requires state < 9
      modifies this
      ensures now == state == Next(old(state), Class(b)) && codep == Bits(old(state), old(codep), b) && state < 9
    {
      codep := Bits(state, codep, b);
      state := Next(state, Class(b));
      now := state;
    }
  }

  ghost function Onto(cs: seq<nat>, more: Option<seq<nat>>): Option<seq<nat>> {
    if more.None? then None else Some(cs + more.value)
  }

  /** What is left to decode in the middle of a character. */
  function Rest(s: seq<byte>, i: nat, state: nat, codep: nat): Option<seq<nat>>
    requires i <= |s| && state < 9
  {
    if state == ACCEPT then DecodeFrom(s, i) else
      var (j, c) :- Accept(s, i, |s|, state, codep);
      var rest :- DecodeFrom(s, j);
      Some([c] + rest)
  }

  lemma RestStep(s: seq<byte>, i: nat, state: nat, codep: nat)
    requires i < |s| && state < 9
    ensures var next, code := Next(state, Class(s[i])), Bits(state, codep, s[i]);
            Rest(s, i, state, codep) ==
            if next == ACCEPT then Onto([code], DecodeFrom(s, i + 1)) else Rest(s, i + 1, next, code)
  {
    hide Next, Class, LeadBits;
  }

  /** Feeding a string byte by byte, as the text renderer does, collects the code points of a well-formed one. */
  method DecodeString(s: seq<byte>) returns (r: Option<seq<nat>>)
    ensures r == DecodeFrom(s, 0)
  {
    hide Next, Class, Bits, Rest, DecodeFrom;
    var decoder := new Decoder();
    var cs: seq<nat>, i := [], 0;
    RestEnds(s, 0);
    assert DecodeFrom(s, 0).Some? ==> [] + DecodeFrom(s, 0).value == DecodeFrom(s, 0).value;
    while i < |s|
      invariant i <= |s| && decoder.state < 9
      invariant Onto(cs, Rest(s, i, decoder.state, decoder.codep)) == DecodeFrom(s, 0)
    {
      RestStep(s, i, decoder.state, decoder.codep);
      RestEnds(s, i + 1);
      var now := decoder.Feed(s[i]);
      i := i + 1;
      if now == ACCEPT {
        if DecodeFrom(s, i).Some? {
          assert cs + ([decoder.codep] + DecodeFrom(s, i).value) == cs + [decoder.codep] + DecodeFrom(s, i).value;
        }
        cs := cs + [decoder.codep];
      }
    }
    RestLast(s, decoder.state, decoder.codep);
    assert cs + [] == cs;
    r := if decoder.state == ACCEPT then Some(cs) else None;
  }

  lemma RestEnds(s: seq<byte>, i: nat)
    requires i <= |s|
    ensures forall codep :: Rest(s, i, ACCEPT, codep) == DecodeFrom(s, i)
  {
  }

  lemma RestLast(s: seq<byte>, state: nat, codep: nat)
    requires state < 9
    ensures Rest(s, |s|, state, codep) == if state == ACCEPT then Some([]) else None
  {
  }
}
