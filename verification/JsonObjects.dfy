/** String decoding and the object walk of the JSON scanner (src/achievements.c). */
module JsonObjects {
  import opened Text
  import opened Json
  import Utf8

  // ----- decoding strings -----

  /** A code point as UTF-8, at most three bytes. */
  function PutUtf8(c: nat): (b: string)
    requires c < 0x10000
    ensures 1 <= |b| <= 3
  {
    if c < 0x80 then [c as char]
    else if c < 0x800 then [(0xC0 + c / 64) as char, (0x80 + c % 64) as char]
    else [(0xE0 + c / 4096) as char, (0x80 + c / 64 % 64) as char, (0x80 + c % 64) as char]
  }

  /** It is the encoding of section 3 of RFC 3629. */
  lemma PutUtf8Encodes(c: nat)
    requires Utf8.Scalar(c) && c < 0x10000
    ensures |PutUtf8(c)| == |Utf8.Encode(c)| && forall k :: 0 <= k < |PutUtf8(c)| ==> PutUtf8(c)[k] as int == Utf8.Encode(c)[k]
  {
  }

  /** Output is appended only if it fits whole, with room for the terminator. */
  function Fit(out: string, b: string, size: nat): string {
    if |out| + |b| < size then out + b else out
  }

  function HexDigit(c: char): (d: nat)
    ensures d < 16
  {
    if '0' <= c <= '9' then c as int - '0' as int
    else if 'a' <= c <= 'f' then c as int - 'a' as int + 10
    else if 'A' <= c <= 'F' then c as int - 'A' as int + 10
    else 0
  }

  /** Four hex digits; surrogates become '?'. */
  function HexBytes(a: char, b: char, c: char, d: char): string {
    var u := HexDigit(a) * 4096 + HexDigit(b) * 256 + HexDigit(c) * 16 + HexDigit(d);
    PutUtf8(if 0xD800 <= u <= 0xDFFF then '?' as int else u)
  }

  /** What a short escape stands for; control characters become a space. */
  function ShortBytes(c: char): string {
    if c == 'n' || c == 't' || c == 'r' || c == 'b' || c == 'f' then " " else PutUtf8(c as int % 256)
  }

  /** The hexadecimal digit of that value, in either letter case. */
  function HexChar(d: nat, upper: bool): char
    requires d < 16
  {
    if d < 10 then ('0' as int + d) as char else ((if upper then 'A' else 'a') as int + (d - 10)) as char
  }

  /** The four digits of a code are decoded as the UTF-8 of that code, or as '?' for half a surrogate pair. */
  lemma HexIsTheCode(a: nat, b: nat, c: nat, d: nat, upper: bool)
    requires a < 16 && b < 16 && c < 16 && d < 16
    ensures var u := ((a * 16 + b) * 16 + c) * 16 + d;
            HexBytes(HexChar(a, upper), HexChar(b, upper), HexChar(c, upper), HexChar(d, upper)) ==
            if 0xD800 <= u <= 0xDFFF then "?" else PutUtf8(u)
  {
    hide PutUtf8, HexChar, HexDigit;
    HexCharBack(a, upper);
    HexCharBack(b, upper);
    HexCharBack(c, upper);
    HexCharBack(d, upper);
    PutAscii('?');
  }

  lemma HexCharBack(d: nat, upper: bool)
    requires d < 16
    ensures HexDigit(HexChar(d, upper)) == d
  {
  }

  lemma PutAscii(c: char)
    requires c as int < 0x80
    ensures PutUtf8(c as int) == [c]
  {
  }

  /** The short escapes of section 7 of RFC 8259: three stand for themselves, the control characters for a space. */
  lemma ShortStandsFor(c: char)
    requires UnitOk(Short(c))
    ensures ShortBytes(c) == if c == '"' || c == '\\' || c == '/' then [c] else " "
  {
  }

  /** The length of the sequence a raw byte leads. */
  function LeadLen(c: char): (n: nat)
    ensures 1 <= n <= 4
  {
    var b := c as int;
    if 0xC0 <= b < 0xE0 then 2 else if 0xE0 <= b < 0xF0 then 3 else if 0xF0 <= b < 0xF8 then 4 else 1
  }

  /** jsonString's loop with an output buffer of the given size: the end position and the text. */
  function Decode(s: string, p: nat, out: string, size: nat): (r: Option<(nat, string)>)
    ensures r.Some? ==> p < r.value.0 <= |s|
    decreases |s| - p
  {
    if p >= |s| then None
    else if s[p] == '"' then Some((p + 1, out))
    else if s[p] == '\\' then
      if p + 1 == |s| then None
      else if s[p + 1] != 'u' then Decode(s, p + 2, Fit(out, ShortBytes(s[p + 1]), size), size)
      else if p + 5 >= |s| then None
      else Decode(s, p + 6, Fit(out, HexBytes(s[p + 2], s[p + 3], s[p + 4], s[p + 5]), size), size)
    else if |out| + 1 >= size then Decode(s, p + 1, out, size)
    else
      var n := LeadLen(s[p]);
      Decode(s, p + n, if p + n <= |s| then Fit(out, s[p..p + n], size) else out, size)
  }

  /** The bytes a unit stands for. */
  function UnitBytes(u: Unit): string {
    match u
    case Raw(b) => b
    case Short(c) => ShortBytes(c)
    case Hex(d) => if |d| == 4 then HexBytes(d[0], d[1], d[2], d[3]) else ""
  }

  /** The text a string leaves in a buffer of that size. */
  function TextOf(us: seq<Unit>, out: string, size: nat): string
    decreases |us|
  {
    if us == [] then out else TextOf(us[1..], Fit(out, UnitBytes(us[0]), size), size)
  }

  /** With the buffer full, the bytes of a raw sequence are stepped over one by one. */
  lemma {:induction false} DecodeFull(s: string, p: nat, n: nat, out: string, size: nat)
    requires p + n <= |s| && |out| + 1 >= size && forall i :: p <= i < p + n ==> s[i] != '"' && s[i] != '\\'
    ensures Decode(s, p, out, size) == Decode(s, p + n, out, size)
    decreases n
  {
    if n > 0 {
      DecodeFull(s, p + 1, n - 1, out, size);
    }
  }

  /** From p with this output so far, the decoder ends at q with this text. */
  ghost predicate Decodes(s: string, p: nat, out: string, size: nat, q: nat, text: string) {
    Decode(s, p, out, size) == Some((q, text))
  }

  lemma FitFull(out: string, b: string, size: nat)
    requires |out| + 1 >= size && |b| > 0
    ensures Fit(out, b, size) == out
  {
  }

  lemma DecodeRaw(s: string, p: nat, b: string, out: string, size: nat)
    requires UnitAt(s, p, Raw(b))
    ensures Decode(s, p, out, size) == Decode(s, p + |b|, Fit(out, b, size), size)
  {
    hide Fit, HexBytes, ShortBytes;
    assert s[p..p + |b|] == b;
    if |out| + 1 >= size {
      DecodeFull(s, p, |b|, out, size);
      FitFull(out, b, size);
    } else {
      assert LeadLen(b[0]) == |b|;
    }
  }

  lemma DecodeEscape(s: string, p: nat, u: Unit, out: string, size: nat)
    requires UnitAt(s, p, u) && !u.Raw?
    ensures Decode(s, p, out, size) == Decode(s, p + UnitLen(u), Fit(out, UnitBytes(u), size), size)
  {
    hide Fit, HexBytes, ShortBytes, IsHex, LeadLen;
  }

  lemma DecodeUnit(s: string, p: nat, u: Unit, out: string, size: nat, q: nat, text: string)
    requires UnitAt(s, p, u) && p + UnitLen(u) < |s|
    requires Decodes(s, p + UnitLen(u), Fit(out, UnitBytes(u), size), size, q, text)
    ensures Decodes(s, p, out, size, q, text)
  {
    hide Decode, Fit, HexBytes, ShortBytes, RawOk;
    if u.Raw? {
      DecodeRaw(s, p, u.bytes, out, size);
    } else {
      DecodeEscape(s, p, u, out, size);
    }
  }

  lemma DecodeEnd(s: string, p: nat, out: string, size: nat)
    requires MatchChar(s, p, '"').Some?
    ensures Decodes(s, p, out, size, p + 1, out)
  {
  }

  /** A well-formed string decodes to the text of its units and ends where the scan without a buffer ends. */
  lemma {:induction false} DecodeAt(s: string, p: nat, us: seq<Unit>, out: string, size: nat)
    requires p <= |s| && MatchUnits(s, p, us).Some?
    requires MatchChar(s, MatchUnits(s, p, us).value, '"').Some?
    ensures Decodes(s, p, out, size, MatchUnits(s, p, us).value + 1, TextOf(us, out, size))
    decreases |us|
  {
    hide Decodes, Fit, UnitBytes, UnitOk;
    if us == [] {
      DecodeEnd(s, p, out, size);
    } else {
      var q, out' := p + UnitLen(us[0]), Fit(out, UnitBytes(us[0]), size);
      DecodeAt(s, q, us[1..], out', size);
      DecodeUnit(s, p, us[0], out, size, MatchUnits(s, p, us).value + 1, TextOf(us, out, size));
    }
  }

  /** jsonString at an opening quote. */
  function JsonString(s: string, p: nat, size: nat): (r: Option<(nat, string)>)
    ensures r.Some? ==> p < r.value.0 <= |s|
  {
    if p < |s| && s[p] == '"' then Decode(s, p + 1, "", size) else None
  }

  lemma StringAt(s: string, p: nat, us: seq<Unit>, size: nat)
    requires MatchQuote(s, p, us).Some?
    ensures JsonString(s, p, size) == Some((MatchQuote(s, p, us).value, TextOf(us, "", size)))
  {
    DecodeAt(s, p + 1, us, "", size);
  }

  // ----- the object walk -----

  const KEY_SIZE: nat := 32

  /** One callback: the key and the position of the value. */
  datatype Visit = Visit(key: string, at: nat)

  /** One turn of jsonObject's loop up to its callback: the key and the position of the value. */
  function WalkKey(s: string, p: nat): (r: Option<Visit>)
    requires p <= |s|
    ensures r.Some? ==> p < r.value.at <= |s|
  {
    var key :- JsonString(s, Ws(s, p), KEY_SIZE);
    var colon := Ws(s, key.0);
    if colon >= |s| || s[colon] != ':' then None else Some(Visit(key.1, Ws(s, colon + 1)))
  }

  /** ... and past the value, to the character after it. */
  function WalkValue(s: string, v: nat): (r: Option<nat>)
    requires v <= |s|
    ensures r.Some? ==> v <= r.value < |s|
  {
    var q :- Skip(s, v);
    if Ws(s, q) < |s| then Some(Ws(s, q)) else None
  }

  /** jsonObject's loop: the position after the object and the callbacks made. */
  function Walk(s: string, p: nat): (r: Option<(nat, seq<Visit>)>)
    ensures r.Some? ==> p < r.value.0 <= |s|
    decreases |s| - p
  {
    if p >= |s| then None else
      var visit :- WalkKey(s, p);
      var next :- WalkValue(s, visit.at);
      if s[next] == '}' then Some((next + 1, [visit]))
      else if s[next] != ',' then None
      else
        var more :- Walk(s, next + 1);
        Some((more.0, [visit] + more.1))
  }

  /** jsonObject. */
  function Object(s: string, p: nat): (r: Option<(nat, seq<Visit>)>)
    requires p <= |s|
    ensures r.Some? ==> p < r.value.0 <= |s|
  {
    var q := Ws(s, p);
    if q >= |s| || s[q] != '{' then None else
      var r := Ws(s, q + 1);
      if r < |s| && s[r] == '}' then Some((r + 1, [])) else Walk(s, r)
  }

  /** The callbacks the loop makes from p on, also when it then fails. */
  function Called(s: string, p: nat): seq<Visit>
    decreases |s| - p
  {
    if p >= |s| then [] else
      match WalkKey(s, p)
      case None => []
      case Some(visit) =>
        [visit] + match WalkValue(s, visit.at)
                  case None => []
                  case Some(next) => if s[next] == ',' then Called(s, next + 1) else []
  }

  /** The callbacks jsonObject makes, also when it then fails. */
  function CalledBy(s: string, p: nat): seq<Visit>
    requires p <= |s|
  {
    var q := Ws(s, p);
    if q >= |s| || s[q] != '{' then [] else
      var r := Ws(s, q + 1);
      if r < |s| && s[r] == '}' then [] else Called(s, r)
  }

  lemma {:induction false} CalledIsWalk(s: string, p: nat)
    requires Walk(s, p).Some?
    ensures Called(s, p) == Walk(s, p).value.1
    decreases |s| - p
  {
    hide WalkKey, WalkValue;
    var visit := WalkKey(s, p).value;
    var next := WalkValue(s, visit.at).value;
    if s[next] == ',' {
      CalledIsWalk(s, next + 1);
    }
  }

  /** The callbacks the members of a matched object call for: each member once, in order. */
  function Visits(s: string, p: nat, m: Members): seq<Visit>
    decreases m
  {
    if m.NoMembers? || MatchHead(s, p, m).None? || MatchMember(s, p, m).None? then [] else
      [Visit(TextOf(m.key, "", KEY_SIZE), MatchHead(s, p, m).value)] + Visits(s, MatchMember(s, p, m).value + 1, m.rest)
  }

  lemma KeyFound(s: string, p: nat, a: nat, b: nat, text: string, c: nat, v: nat)
    requires p <= |s| && Ws(s, p) == a && JsonString(s, a, KEY_SIZE) == Some((b, text))
    requires Ws(s, b) == c && c < |s| && s[c] == ':' && Ws(s, c + 1) == v
    ensures WalkKey(s, p) == Some(Visit(text, v))
  {
  }

  /** Matching a head is matching its pieces. */
  lemma UnfoldHead(s: string, p: nat, m: Members)
    requires m.Member? && MatchHead(s, p, m).Some?
    ensures Blank(s, p, m.w0) && MatchQuote(s, p + m.w0, m.key).Some? && s[p + m.w0] == '"'
    ensures var b := MatchQuote(s, p + m.w0, m.key).value;
            && Blank(s, b, m.w1) && b + m.w1 < |s| && s[b + m.w1] == ':' && Blank(s, b + m.w1 + 1, m.w2)
            && MatchHead(s, p, m) == Some(b + m.w1 + 1 + m.w2)
  {
  }

  /** The walk over a matched key, entered before or after the whitespace in front of it. */
  lemma KeyAt(s: string, p: nat, from: nat, m: Members)
    requires m.Member? && MatchHead(s, p, m).Some? && Match(s, MatchHead(s, p, m).value, m.value).Some?
    requires from == p || from == p + m.w0
    ensures from <= |s| && WalkKey(s, from) == Some(Visit(TextOf(m.key, "", KEY_SIZE), MatchHead(s, p, m).value))
  {
    hide MatchHead, MatchQuote, Match, WalkKey, JsonString;
    UnfoldHead(s, p, m);
    var a := p + m.w0;
    var b := MatchQuote(s, a, m.key).value;
    var c := b + m.w1;
    var v := MatchHead(s, p, m).value;
    assert from <= |s| && Ws(s, from) == a by {
      WsAt(s, p, m.w0);
      WsAt(s, a, 0);
    }
    assert JsonString(s, a, KEY_SIZE) == Some((b, TextOf(m.key, "", KEY_SIZE))) by {
      StringAt(s, a, m.key, KEY_SIZE);
    }
    assert Ws(s, b) == c by {
      WsAt(s, b, m.w1);
    }
    assert Ws(s, c + 1) == v by {
      FirstChar(s, v, m.value);
      WsAt(s, c + 1, m.w2);
    }
    KeyFound(s, from, a, b, TextOf(m.key, "", KEY_SIZE), c, v);
  }

  /** The walk over a value and the whitespace after it, up to ',' or a closing bracket. */
  lemma ValueWalk(s: string, v: nat, value: Json, n: nat)
    requires Match(s, v, value).Some? && MatchWs(s, Match(s, v, value).value, n).Some?
    requires var e := MatchWs(s, Match(s, v, value).value, n).value; e < |s| && IsDelimiter(s[e])
    ensures WalkValue(s, v) == MatchWs(s, Match(s, v, value).value, n)
  {
    var q := Match(s, v, value).value;
    SkipValue(s, v, 0, value);
    WsAt(s, q, n);
    BlankEndAt(s, q, n);
    WsAt(s, q + n, 0);
  }

  /** Matching members is matching the first, then a comma and the rest. */
  lemma UnfoldMembers(s: string, p: nat, m: Members)
    requires m.Member? && MatchMembers(s, p, m).Some?
    ensures MatchMember(s, p, m).Some? && MatchHead(s, p, m).Some? && Match(s, MatchHead(s, p, m).value, m.value).Some?
    ensures MatchMember(s, p, m) == MatchWs(s, Match(s, MatchHead(s, p, m).value, m.value).value, m.w3)
    ensures var c := MatchMember(s, p, m).value;
            if m.rest.NoMembers? then MatchMembers(s, p, m) == Some(c)
            else c < |s| && s[c] == ',' && MatchMembers(s, p, m) == MatchMembers(s, c + 1, m.rest)
  {
  }

  /** The loop, entered at p, makes these callbacks and ends at q. */
  ghost predicate Walks(s: string, p: nat, q: nat, visits: seq<Visit>) {
    Walk(s, p) == Some((q, visits))
  }

  /** One turn of the loop, entered at p, calls back with this visit and stops before s[next]. */
  ghost predicate Turns(s: string, p: nat, visit: Visit, next: nat) {
    p < |s| && WalkKey(s, p) == Some(visit) && WalkValue(s, visit.at) == Some(next)
  }

  lemma LastTurn(s: string, p: nat, visit: Visit, next: nat)
    requires Turns(s, p, visit, next) && MatchChar(s, next, '}').Some?
    ensures Walks(s, p, next + 1, [visit])
  {
    hide WalkKey, WalkValue;
  }

  lemma NextTurn(s: string, p: nat, visit: Visit, next: nat, q: nat, visits: seq<Visit>)
    requires Turns(s, p, visit, next) && next < |s| && s[next] == ',' && Walks(s, next + 1, q, visits)
    ensures Walks(s, p, q, [visit] + visits)
  {
    hide WalkKey, WalkValue;
  }

  /** One turn over a matched member. */
  lemma TurnAt(s: string, p: nat, from: nat, m: Members)
    requires m.Member? && MatchMember(s, p, m).Some? && (from == p || from == p + m.w0)
    requires var c := MatchMember(s, p, m).value; c < |s| && IsDelimiter(s[c])
    ensures MatchHead(s, p, m).Some?
    ensures Turns(s, from, Visit(TextOf(m.key, "", KEY_SIZE), MatchHead(s, p, m).value), MatchMember(s, p, m).value)
  {
    hide WalkKey, WalkValue, Match, MatchHead, MatchWs;
    KeyAt(s, p, from, m);
    ValueWalk(s, MatchHead(s, p, m).value, m.value, m.w3);
  }

  lemma UnfoldVisits(s: string, p: nat, m: Members)
    requires m.Member? && MatchMember(s, p, m).Some? && MatchHead(s, p, m).Some?
    ensures Visits(s, p, m) ==
            [Visit(TextOf(m.key, "", KEY_SIZE), MatchHead(s, p, m).value)] + Visits(s, MatchMember(s, p, m).value + 1, m.rest)
    ensures m.rest.NoMembers? ==> Visits(s, p, m) == [Visit(TextOf(m.key, "", KEY_SIZE), MatchHead(s, p, m).value)]
  {
    hide MatchHead, MatchMember;
  }

  /** jsonObject's loop on matched members before a closing brace visits each once, in order, and ends after the brace. */
  lemma {:induction false} WalkAt(s: string, p: nat, from: nat, m: Members)
    requires m.Member? && MatchMembers(s, p, m).Some? && (from == p || from == p + m.w0)
    requires MatchChar(s, MatchMembers(s, p, m).value, '}').Some?
    ensures Walks(s, from, MatchMembers(s, p, m).value + 1, Visits(s, p, m))
    decreases m
  {
    hide MatchMembers, MatchMember, MatchHead, Match, Turns, Walks, Visits, TextOf;
    UnfoldMembers(s, p, m);
    var c := MatchMember(s, p, m).value;
    TurnAt(s, p, from, m);
    UnfoldVisits(s, p, m);
    var visit := Visit(TextOf(m.key, "", KEY_SIZE), MatchHead(s, p, m).value);
    if m.rest.NoMembers? {
      LastTurn(s, from, visit, c);
    } else {
      WalkAt(s, c + 1, c + 1, m.rest);
      NextTurn(s, from, visit, c, MatchMembers(s, p, m).value + 1, Visits(s, c + 1, m.rest));
    }
  }

  lemma FirstKey(s: string, p: nat, m: Members)
    requires m.Member? && MatchMembers(s, p, m).Some?
    ensures p <= |s| && Ws(s, p) == p + m.w0 < |s| && s[p + m.w0] == '"'
  {
    hide MatchHead, MatchMember, MatchMembers;
    UnfoldMembers(s, p, m);
    UnfoldHead(s, p, m);
    WsAt(s, p, m.w0);
  }

  /** Matching an object is matching its brace, its inside and its other brace. */
  lemma UnfoldObject(s: string, p: nat, v: Json)
    requires v.Obj? && Match(s, p, v).Some?
    ensures p < |s| && s[p] == '{'
    ensures var inside := if v.members.NoMembers? then MatchWs(s, p + 1, v.ws) else MatchMembers(s, p + 1, v.members);
            inside.Some? && MatchChar(s, inside.value, '}').Some? && Match(s, p, v) == Some(inside.value + 1)
  {
  }

  /** jsonObject once its opening brace and the whitespace after it are found. */
  lemma ObjectFrom(s: string, p: nat, q: nat, r: nat)
    requires p <= |s| && Ws(s, p) == q < |s| && s[q] == '{' && Ws(s, q + 1) == r < |s|
    ensures s[r] == '}' ==> Object(s, p) == Some((r + 1, []))
    ensures s[r] != '}' ==> Object(s, p) == Walk(s, r)
  {
    hide Walk, Ws;
  }

  /** jsonObject on any object text, after any whitespace. */
  lemma ObjectAt(s: string, p: nat, n: nat, v: Json)
    requires v.Obj? && Blank(s, p, n) && Match(s, p + n, v).Some?
    ensures p <= |s| && Object(s, p) == Some((Match(s, p + n, v).value, Visits(s, p + n + 1, v.members)))
  {
    hide Match, MatchMembers, MatchHead, MatchMember, Object, Walk;
    var q := p + n;
    UnfoldObject(s, q, v);
    WsAt(s, p, n);
    if v.members.NoMembers? {
      WsAt(s, q + 1, v.ws);
      ObjectFrom(s, p, q, q + 1 + v.ws);
    } else {
      WalkAt(s, q + 1, q + 1 + v.members.w0, v.members);
      FirstKey(s, q + 1, v.members);
      ObjectFrom(s, p, q, q + 1 + v.members.w0);
    }
  }
}
