/**
 The hand-written JSON scanner (src/achievements.c) over a bounded buffer s; a position |s| is the end `e`,
 None is NULL. Each character of s is one byte.
 */
module Json {
  import opened Text

  predicate IsJsonWs(c: char) {
    c == ' ' || c == '\t' || c == '\r' || c == '\n'
  }

  /** jsonWs. */
  function Ws(s: string, p: nat): (q: nat)
    requires p <= |s|
    ensures p <= q <= |s| && (q < |s| ==> !IsJsonWs(s[q]))
    decreases |s| - p
  {
    if p < |s| && IsJsonWs(s[p]) then Ws(s, p + 1) else p
  }

  /** The scan of a string body without an output buffer: the position after the closing quote. */
  function StringEnd(s: string, p: nat): (r: Option<nat>)
    requires p <= |s|
    ensures r.Some? ==> p < r.value <= |s|
    decreases |s| - p
  {
    if p == |s| then None
    else if s[p] == '"' then Some(p + 1)
    else if s[p] != '\\' then StringEnd(s, p + 1)
    else if p + 1 == |s| then None
    else if s[p + 1] != 'u' then StringEnd(s, p + 2)
    else if p + 5 >= |s| then None
    else StringEnd(s, p + 6)
  }

  predicate IsDelimiter(c: char) {
    c == ',' || c == '}' || c == ']'
  }

  /** A bare scalar runs to the next delimiter. */
  function ScalarEnd(s: string, p: nat): (q: nat)
    requires p <= |s|
    ensures p <= q <= |s| && (q < |s| ==> IsDelimiter(s[q]))
    decreases |s| - p
  {
    if p < |s| && !IsDelimiter(s[p]) then ScalarEnd(s, p + 1) else p
  }

  /** jsonSkip's loop at nesting depth `depth`. */
  function SkipFrom(s: string, p: nat, depth: nat): (r: Option<nat>)
    requires p <= |s|
    ensures r.Some? ==> p <= r.value <= |s|
    decreases |s| - p
  {
    if p == |s| then None
    else if s[p] == '"' then
      var q := StringEnd(s, p + 1);
      if q.None? || depth == 0 then q else SkipFrom(s, q.value, depth)
    else if s[p] == '{' || s[p] == '[' then SkipFrom(s, p + 1, depth + 1)
    else if s[p] == '}' || s[p] == ']' then
      if depth == 0 then None else if depth == 1 then Some(p + 1) else SkipFrom(s, p + 1, depth - 1)
    else if depth == 0 then Some(ScalarEnd(s, p))
    else SkipFrom(s, p + 1, depth)
  }

  function Skip(s: string, p: nat): (r: Option<nat>)
    requires p <= |s|
    ensures r.Some? ==> p <= r.value <= |s|
  {
    SkipFrom(s, Ws(s, p), 0)
  }

  // ----- JSON values and their texts -----

  /** One character of a string: a raw UTF-8 sequence, a short escape, or \u with four hex digits. */
  datatype Unit = Raw(bytes: string) | Short(c: char) | Hex(digits: string)

  /** A JSON value as written; ws is the amount of whitespace inside an empty container. */
  datatype Json = Scalar(text: string) | Str(units: seq<Unit>) | Arr(ws: nat, items: Items) | Obj(ws: nat, members: Members)

  /** Elements with the amount of whitespace before and after each. */
  datatype Items = NoItems | Item(before: nat, value: Json, after: nat, rest: Items)

  /** Members with the amount of whitespace before the key, around the colon and after the value. */
  datatype Members = NoMembers | Member(w0: nat, key: seq<Unit>, w1: nat, w2: nat, value: Json, w3: nat, rest: Members)

  predicate IsCont(c: char) {
    0x80 <= c as int < 0xC0
  }

  /** A UTF-8 sequence by its length class: ASCII text, or a lead byte and its continuation bytes. */
  predicate RawOk(b: string) {
    match |b|
    case 1 => b[0] != '"' && b[0] != '\\' && 0x20 <= b[0] as int < 0x80
    case 2 => 0xC0 <= b[0] as int < 0xE0 && IsCont(b[1])
    case 3 => 0xE0 <= b[0] as int < 0xF0 && IsCont(b[1]) && IsCont(b[2])
    case 4 => 0xF0 <= b[0] as int < 0xF8 && IsCont(b[1]) && IsCont(b[2]) && IsCont(b[3])
    case _ => false
  }

  predicate IsHex(c: char) {
    '0' <= c <= '9' || 'a' <= c <= 'f' || 'A' <= c <= 'F'
  }

  predicate UnitOk(u: Unit) {
    match u
    case Raw(b) => RawOk(b)
    case Short(c) => c in {'"', '\\', '/', 'b', 'f', 'n', 'r', 't'}
    case Hex(d) => |d| == 4 && IsHex(d[0]) && IsHex(d[1]) && IsHex(d[2]) && IsHex(d[3])
  }

  function UnitLen(u: Unit): nat {
    match u
    case Raw(b) => |b|
    case Short(_) => 2
    case Hex(_) => 6
  }

  /** A well-formed unit stands at p. */
  predicate UnitAt(s: string, p: nat, u: Unit) {
    && UnitOk(u) && p + UnitLen(u) <= |s|
    && match u
       case Raw(b) =>
         && s[p] == b[0] && (|b| > 1 ==> s[p + 1] == b[1])
         && (|b| > 2 ==> s[p + 2] == b[2]) && (|b| > 3 ==> s[p + 3] == b[3])
       case Short(c) => s[p] == '\\' && s[p + 1] == c
       case Hex(d) =>
         && s[p] == '\\' && s[p + 1] == 'u'
         && s[p + 2] == d[0] && s[p + 3] == d[1] && s[p + 4] == d[2] && s[p + 5] == d[3]
  }

  predicate IsScalarChar(c: char) {
    '0' <= c <= '9' || 'a' <= c <= 'z' || 'A' <= c <= 'Z' || c == '+' || c == '-' || c == '.'
  }

  /** The text of a number or literal, from its i-th character on, stands at p + i. */
  predicate ScalarAt(s: string, p: nat, t: string, i: nat)
    requires i <= |t|
    decreases |t| - i
  {
    i == |t| || (p + i < |s| && s[p + i] == t[i] && IsScalarChar(t[i]) && ScalarAt(s, p, t, i + 1))
  }

  /** n whitespace characters stand at p. */
  predicate Blank(s: string, p: nat, n: nat)
    decreases n
  {
    if n == 0 then p <= |s| else p < |s| && IsJsonWs(s[p]) && Blank(s, p + 1, n - 1)
  }

  lemma {:induction false} BlankEnds(s: string, p: nat, n: nat)
    requires Blank(s, p, n)
    ensures p + n <= |s|
    decreases n
  {
    if n > 0 {
      BlankEnds(s, p + 1, n - 1);
    }
  }

  lemma {:induction false} ScalarEnds(s: string, p: nat, t: string, i: nat)
    requires i <= |t| && p + i <= |s| && ScalarAt(s, p, t, i)
    ensures p + |t| <= |s|
    decreases |t| - i
  {
    if i < |t| {
      ScalarEnds(s, p, t, i + 1);
    }
  }

  // The matchers say what it means that s holds, from p on, a text of a value under the grammar of sections
  // 2 to 7 of RFC 8259; they return the position after that text.

  function MatchWs(s: string, p: nat, n: nat): (r: Option<nat>)
    ensures r.Some? ==> p <= r.value <= |s|
  {
    if Blank(s, p, n) then BlankEnds(s, p, n); Some(p + n) else None
  }

  function MatchChar(s: string, p: nat, c: char): (r: Option<nat>)
    ensures r.Some? ==> p < r.value <= |s|
  {
    if p < |s| && s[p] == c then Some(p + 1) else None
  }

  function MatchScalar(s: string, p: nat, t: string): (r: Option<nat>)
    ensures r.Some? ==> p < r.value <= |s|
  {
    if t != "" && ScalarAt(s, p, t, 0) then ScalarEnds(s, p, t, 0); Some(p + |t|) else None
  }

  function MatchUnits(s: string, p: nat, us: seq<Unit>): (r: Option<nat>)
    ensures r.Some? && p <= |s| ==> p <= r.value <= |s|
    decreases |us|
  {
    if us == [] then Some(p)
    else if UnitAt(s, p, us[0]) then MatchUnits(s, p + UnitLen(us[0]), us[1..])
    else None
  }

  function MatchQuote(s: string, p: nat, us: seq<Unit>): (r: Option<nat>)
    ensures r.Some? ==> p < r.value <= |s|
  {
    var q :- MatchChar(s, p, '"');
    var r :- MatchUnits(s, q, us);
    MatchChar(s, r, '"')
  }

  function Match(s: string, p: nat, v: Json): (r: Option<nat>)
    ensures r.Some? ==> p < r.value <= |s|
    decreases v
  {
    match v
    case Scalar(t) => MatchScalar(s, p, t)
    case Str(us) => MatchQuote(s, p, us)
    case Arr(ws, items) =>
      var q :- MatchChar(s, p, '[');
      var r :- if items.NoItems? then MatchWs(s, q, ws) else MatchItems(s, q, items);
      MatchChar(s, r, ']')
    case Obj(ws, members) =>
      var q :- MatchChar(s, p, '{');
      var r :- if members.NoMembers? then MatchWs(s, q, ws) else MatchMembers(s, q, members);
      MatchChar(s, r, '}')
  }

  /** Whitespace, element, whitespace. */
  function MatchItem(s: string, p: nat, items: Items): (r: Option<nat>)
    requires items.Item?
    ensures r.Some? ==> p < r.value <= |s|
    decreases items, 0
  {
    var q :- MatchWs(s, p, items.before);
    var r :- Match(s, q, items.value);
    MatchWs(s, r, items.after)
  }

  function MatchItems(s: string, p: nat, items: Items): (r: Option<nat>)
    requires items.Item?
    ensures r.Some? ==> p < r.value <= |s|
    decreases items, 1
  {
    var q :- MatchItem(s, p, items);
    if items.rest.NoItems? then Some(q) else
      var r :- MatchChar(s, q, ',');
      MatchItems(s, r, items.rest)
  }

  /** Whitespace, key, whitespace, colon, whitespace: up to the value. */
  function MatchHead(s: string, p: nat, m: Members): (r: Option<nat>)
    requires m.Member?
    ensures r.Some? ==> p < r.value <= |s|
  {
    var a :- MatchWs(s, p, m.w0);
    var b :- MatchQuote(s, a, m.key);
    var c :- MatchWs(s, b, m.w1);
    var d :- MatchChar(s, c, ':');
    MatchWs(s, d, m.w2)
  }

  /** A whole member and the whitespace after it. */
  function MatchMember(s: string, p: nat, m: Members): (r: Option<nat>)
    requires m.Member?
    ensures r.Some? ==> p < r.value <= |s|
    decreases m, 0
  {
    var q :- MatchHead(s, p, m);
    var r :- Match(s, q, m.value);
    MatchWs(s, r, m.w3)
  }

  function MatchMembers(s: string, p: nat, m: Members): (r: Option<nat>)
    requires m.Member?
    ensures r.Some? ==> p < r.value <= |s|
    decreases m, 1
  {
    var q :- MatchMember(s, p, m);
    if m.rest.NoMembers? then Some(q) else
      var r :- MatchChar(s, q, ',');
      MatchMembers(s, r, m.rest)
  }

  // ----- scanning matched texts -----

  /** Whitespace before something else is skipped exactly. */
  lemma {:induction false} WsAt(s: string, p: nat, n: nat)
    requires Blank(s, p, n) && (p + n < |s| ==> !IsJsonWs(s[p + n]))
    ensures p + n <= |s| && Ws(s, p) == p + n
    decreases n
  {
    if n > 0 {
      WsAt(s, p + 1, n - 1);
    }
  }

  /** A well-formed string body is scanned to the quote that ends it. */
  lemma {:induction false} StringEndAt(s: string, p: nat, us: seq<Unit>)
    requires p <= |s| && MatchUnits(s, p, us).Some?
    requires MatchChar(s, MatchUnits(s, p, us).value, '"').Some?
    ensures StringEnd(s, p) == MatchChar(s, MatchUnits(s, p, us).value, '"')
    decreases |us|
  {
    if us != [] {
      UnitStep(s, p, us[0]);
      StringEndAt(s, p + UnitLen(us[0]), us[1..]);
    }
  }

  /** One unit of a string body, at least one byte before the end. */
  lemma UnitStep(s: string, p: nat, u: Unit)
    requires UnitAt(s, p, u) && p + UnitLen(u) < |s|
    ensures StringEnd(s, p) == StringEnd(s, p + UnitLen(u))
  {
    if u.Raw? {
      RawStep(s, p, |u.bytes|);
    }
  }

  /** Bytes other than the quote and the backslash are stepped over one by one. */
  lemma {:induction false} RawStep(s: string, p: nat, n: nat)
    requires p + n <= |s| && forall i :: p <= i < p + n ==> s[i] != '"' && s[i] != '\\'
    ensures StringEnd(s, p) == StringEnd(s, p + n)
    decreases n
  {
    if n > 0 {
      RawStep(s, p + 1, n - 1);
    }
  }

  // ----- skipping values -----

  predicate IsBracketOrQuote(c: char) {
    c == '"' || c == '{' || c == '[' || c == '}' || c == ']'
  }

  /** At this depth the scan arrives at q when started at p. */
  ghost predicate Passes(s: string, p: nat, q: nat, depth: nat) {
    p <= q <= |s| && SkipFrom(s, p, depth) == SkipFrom(s, q, depth)
  }

  lemma PassesThrough(s: string, p: nat, q: nat, r: nat, depth: nat)
    requires Passes(s, p, q, depth) && Passes(s, q, r, depth)
    ensures Passes(s, p, r, depth)
  {
  }

  /** Inside a container, whitespace is passed over. */
  lemma {:induction false} SkipWs(s: string, p: nat, n: nat, depth: nat)
    requires MatchWs(s, p, n).Some? && depth > 0
    ensures Passes(s, p, p + n, depth)
    decreases n
  {
    if n > 0 {
      SkipWs(s, p + 1, n - 1, depth);
    }
  }

  /** Inside a container, a bare scalar is passed over. */
  lemma {:induction false} SkipScalar(s: string, p: nat, t: string, i: nat, depth: nat)
    requires i <= |t| && p + i <= |s| && ScalarAt(s, p, t, i) && depth > 0
    ensures Passes(s, p + i, p + |t|, depth)
    decreases |t| - i
  {
    if i < |t| {
      SkipScalar(s, p, t, i + 1, depth);
    }
  }

  lemma SkipChar(s: string, p: nat, c: char, depth: nat)
    requires MatchChar(s, p, c).Some? && !IsBracketOrQuote(c) && depth > 0
    ensures Passes(s, p, p + 1, depth)
  {
  }

  /** Inside a container, a string is passed over whole. */
  lemma SkipString(s: string, p: nat, us: seq<Unit>, depth: nat)
    requires MatchQuote(s, p, us).Some? && depth > 0
    ensures Passes(s, p, MatchQuote(s, p, us).value, depth)
  {
    StringEndAt(s, p + 1, us);
  }

  /** A bracket pair around text that the scan passes over one level deeper. */
  lemma SkipPair(s: string, p: nat, r: nat, depth: nat)
    requires p < r < |s| && (s[p] == '{' || s[p] == '[') && (s[r] == '}' || s[r] == ']')
    requires Passes(s, p + 1, r, depth + 1)
    ensures depth > 0 ==> Passes(s, p, r + 1, depth)
    ensures depth == 0 ==> SkipFrom(s, p, 0) == Some(r + 1)
  {
  }

  /** Where a container's brackets are. */
  lemma Brackets(s: string, p: nat, v: Json)
    requires Match(s, p, v).Some? && (v.Arr? || v.Obj?)
    ensures var r := Match(s, p, v).value - 1;
            p < r < |s| && (s[p] == '{' || s[p] == '[') && (s[r] == '}' || s[r] == ']')
  {
  }

  /** The scan passes over what is between the brackets of a container. */
  lemma {:induction false} SkipBody(s: string, p: nat, v: Json, depth: nat)
    requires Match(s, p, v).Some? && (v.Arr? || v.Obj?) && depth > 0
    ensures Passes(s, p + 1, Match(s, p, v).value - 1, depth)
    decreases v, 1
  {
    hide Passes, SkipFrom, MatchItems, MatchMembers;
    match v
    case Arr(ws, items) =>
      if items.NoItems? { SkipWs(s, p + 1, ws, depth); } else { SkipItems(s, p + 1, items, depth); }
    case Obj(ws, members) =>
      if members.NoMembers? { SkipWs(s, p + 1, ws, depth); } else { SkipMembers(s, p + 1, members, depth); }
  }

  /** Inside a container, any value is passed over whole. */
  lemma {:induction false} SkipInside(s: string, p: nat, v: Json, depth: nat)
    requires Match(s, p, v).Some? && depth > 0
    ensures Passes(s, p, Match(s, p, v).value, depth)
    decreases v, 2
  {
    match v
    case Scalar(t) => SkipScalar(s, p, t, 0, depth);
    case Str(us) => SkipString(s, p, us, depth);
    case _ =>
      Brackets(s, p, v);
      SkipBody(s, p, v, depth + 1);
      SkipPair(s, p, Match(s, p, v).value - 1, depth);
  }

  lemma {:induction false} SkipItem(s: string, p: nat, items: Items, depth: nat)
    requires items.Item? && MatchItem(s, p, items).Some? && depth > 0
    ensures Passes(s, p, MatchItem(s, p, items).value, depth)
    decreases items, 0
  {
    var a := MatchWs(s, p, items.before).value;
    var b := Match(s, a, items.value).value;
    var c := MatchWs(s, b, items.after).value;
    SkipWs(s, p, items.before, depth);
    SkipInside(s, a, items.value, depth);
    PassesThrough(s, p, a, b, depth);
    SkipWs(s, b, items.after, depth);
    PassesThrough(s, p, b, c, depth);
  }

  lemma {:induction false} SkipItems(s: string, p: nat, items: Items, depth: nat)
    requires items.Item? && MatchItems(s, p, items).Some? && depth > 0
    ensures Passes(s, p, MatchItems(s, p, items).value, depth)
    decreases items, 1
  {
    SkipItem(s, p, items, depth);
    if items.rest.Item? {
      var c := MatchItem(s, p, items).value;
      SkipChar(s, c, ',', depth);
      PassesThrough(s, p, c, c + 1, depth);
      SkipItems(s, c + 1, items.rest, depth);
      PassesThrough(s, p, c + 1, MatchItems(s, c + 1, items.rest).value, depth);
    }
  }

  lemma SkipHead(s: string, p: nat, m: Members, depth: nat)
    requires m.Member? && MatchHead(s, p, m).Some? && depth > 0
    ensures Passes(s, p, MatchHead(s, p, m).value, depth)
  {
    var a := MatchWs(s, p, m.w0).value;
    var b := MatchQuote(s, a, m.key).value;
    var c := MatchWs(s, b, m.w1).value;
    var d := MatchWs(s, c + 1, m.w2).value;
    SkipWs(s, p, m.w0, depth);
    SkipString(s, a, m.key, depth);
    PassesThrough(s, p, a, b, depth);
    SkipWs(s, b, m.w1, depth);
    PassesThrough(s, p, b, c, depth);
    SkipChar(s, c, ':', depth);
    PassesThrough(s, p, c, c + 1, depth);
    SkipWs(s, c + 1, m.w2, depth);
    PassesThrough(s, p, c + 1, d, depth);
  }

  lemma {:induction false} SkipMember(s: string, p: nat, m: Members, depth: nat)
    requires m.Member? && MatchMember(s, p, m).Some? && depth > 0
    ensures Passes(s, p, MatchMember(s, p, m).value, depth)
    decreases m, 0
  {
    var a := MatchHead(s, p, m).value;
    var b := Match(s, a, m.value).value;
    SkipHead(s, p, m, depth);
    SkipInside(s, a, m.value, depth);
    PassesThrough(s, p, a, b, depth);
    SkipWs(s, b, m.w3, depth);
    PassesThrough(s, p, b, MatchWs(s, b, m.w3).value, depth);
  }

  lemma {:induction false} SkipMembers(s: string, p: nat, m: Members, depth: nat)
    requires m.Member? && MatchMembers(s, p, m).Some? && depth > 0
    ensures Passes(s, p, MatchMembers(s, p, m).value, depth)
    decreases m, 1
  {
    SkipMember(s, p, m, depth);
    if m.rest.Member? {
      var c := MatchMember(s, p, m).value;
      SkipChar(s, c, ',', depth);
      PassesThrough(s, p, c, c + 1, depth);
      SkipMembers(s, c + 1, m.rest, depth);
      PassesThrough(s, p, c + 1, MatchMembers(s, c + 1, m.rest).value, depth);
    }
  }

  /** A scalar's own characters are not delimiters. */
  lemma {:induction false} ScalarEndAt(s: string, p: nat, t: string, i: nat)
    requires i <= |t| && p + i <= |s| && ScalarAt(s, p, t, i)
    ensures p + |t| <= |s| && ScalarEnd(s, p + i) == ScalarEnd(s, p + |t|)
    decreases |t| - i
  {
    if i < |t| {
      ScalarEndAt(s, p, t, i + 1);
    }
  }

  /** Nor is whitespace. */
  lemma {:induction false} BlankEndAt(s: string, p: nat, n: nat)
    requires Blank(s, p, n)
    ensures p + n <= |s| && ScalarEnd(s, p) == ScalarEnd(s, p + n)
    decreases n
  {
    if n > 0 {
      BlankEndAt(s, p + 1, n - 1);
    }
  }

  /** The first character of a value's text tells its kind and is not whitespace. */
  lemma FirstChar(s: string, p: nat, v: Json)
    requires Match(s, p, v).Some?
    ensures p < |s| && !IsJsonWs(s[p]) && !IsDelimiter(s[p])
    ensures s[p] == '[' <==> v.Arr?
    ensures s[p] == '{' <==> v.Obj?
    ensures s[p] == '"' <==> v.Str?
  {
    if v.Scalar? {
      assert ScalarAt(s, p, v.text, 0) && IsScalarChar(s[p]);
    }
  }

  /** jsonSkip's loop entered at a value. */
  lemma SkipPlaced(s: string, p: nat, v: Json)
    requires Match(s, p, v).Some?
    ensures var q := Match(s, p, v).value;
            SkipFrom(s, p, 0) == Some(if v.Scalar? then ScalarEnd(s, q) else q)
  {
    match v
    case Scalar(t) =>
      FirstChar(s, p, v);
      ScalarEndAt(s, p, t, 0);
    case Str(us) => StringEndAt(s, p + 1, us);
    case _ =>
      Brackets(s, p, v);
      SkipBody(s, p, v, 1);
      SkipPair(s, p, Match(s, p, v).value - 1, 0);
  }

  /**
   jsonSkip on any JSON value after any whitespace: it ends exactly after a string, array or object, and at the
   next delimiter after a bare scalar.
   */
  lemma SkipValue(s: string, p: nat, n: nat, v: Json)
    requires Blank(s, p, n) && Match(s, p + n, v).Some?
    ensures var q := Match(s, p + n, v).value;
            Skip(s, p) == Some(if v.Scalar? then ScalarEnd(s, q) else q)
  {
    FirstChar(s, p + n, v);
    WsAt(s, p, n);
    SkipPlaced(s, p + n, v);
  }
}
