/** Every well-formed JSON value has a text, and that text is matched: what the matchers describe is not empty. */
module JsonRender {
  import opened Text
  import opened Json

  /** The text t stands at p. */
  ghost predicate Holds(s: string, p: nat, t: string) {
    p + |t| <= |s| && s[p..p + |t|] == t
  }

  lemma HoldsSplit(s: string, p: nat, a: string, b: string)
    requires Holds(s, p, a + b)
    ensures Holds(s, p, a) && Holds(s, p + |a|, b)
  {
    var t := a + b;
    assert t[..|a|] == a && t[|a|..] == b;
    SliceOf(s, p, |t|, 0, |a|);
    SliceOf(s, p, |t|, |a|, |t|);
  }

  lemma SliceOf(s: string, p: nat, n: nat, i: nat, j: nat)
    requires i <= j <= n && p + n <= |s|
    ensures s[p + i..p + j] == s[p..p + n][i..j]
  {
    var a, b := s[p + i..p + j], s[p..p + n][i..j];
    assert |a| == |b|;
    forall k | 0 <= k < |a| ensures a[k] == b[k] {
      assert b[k] == s[p..p + n][i + k] == s[p + (i + k)];
    }
  }

  lemma HoldsAt(s: string, p: nat, t: string, k: nat)
    requires Holds(s, p, t) && k < |t|
    ensures p + k < |s| && s[p + k] == t[k]
  {
    assert s[p..p + |t|][k] == s[p + k];
  }

  // ----- texts -----

  function Spaces(n: nat): (t: string)
    ensures |t| == n
  {
    seq(n, i => ' ')
  }

  function UnitText(u: Unit): (t: string)
    requires UnitOk(u)
    ensures |t| == UnitLen(u)
  {
    match u
    case Raw(b) => b
    case Short(c) => ['\\', c]
    case Hex(d) => ['\\', 'u'] + d
  }

  predicate UnitsOk(us: seq<Unit>)
    decreases |us|
  {
    us == [] || (UnitOk(us[0]) && UnitsOk(us[1..]))
  }

  function UnitsText(us: seq<Unit>): string
    requires UnitsOk(us)
    decreases |us|
  {
    if us == [] then "" else UnitText(us[0]) + UnitsText(us[1..])
  }

  function QuoteText(us: seq<Unit>): string
    requires UnitsOk(us)
  {
    "\"" + (UnitsText(us) + "\"")
  }

  predicate ScalarOk(t: string) {
    t != "" && forall i :: 0 <= i < |t| ==> IsScalarChar(t[i])
  }

  /** A value as RFC 8259 allows it: well-formed strings, and scalars of letters, digits and signs. */
  predicate ValueOk(v: Json)
    decreases v
  {
    match v
    case Scalar(t) => ScalarOk(t)
    case Str(us) => UnitsOk(us)
    case Arr(_, items) => ItemsOk(items)
    case Obj(_, members) => MembersOk(members)
  }

  predicate ItemsOk(items: Items)
    decreases items
  {
    items.NoItems? || (ValueOk(items.value) && ItemsOk(items.rest))
  }

  predicate MembersOk(m: Members)
    decreases m
  {
    m.NoMembers? || (UnitsOk(m.key) && ValueOk(m.value) && MembersOk(m.rest))
  }

  function Render(v: Json): string
    requires ValueOk(v)
    decreases v
  {
    match v
    case Scalar(t) => t
    case Str(us) => QuoteText(us)
    case Arr(ws, items) => "[" + ((if items.NoItems? then Spaces(ws) else ItemsText(items)) + "]")
    case Obj(ws, members) => "{" + ((if members.NoMembers? then Spaces(ws) else MembersText(members)) + "}")
  }

  function ItemsText(items: Items): string
    requires items.Item? && ItemsOk(items)
    decreases items
  {
    Spaces(items.before) + (Render(items.value) + (Spaces(items.after) +
    (if items.rest.NoItems? then "" else "," + ItemsText(items.rest))))
  }

  function HeadText(m: Members): string
    requires m.Member? && UnitsOk(m.key)
  {
    Spaces(m.w0) + (QuoteText(m.key) + (Spaces(m.w1) + (":" + Spaces(m.w2))))
  }

  function MembersText(m: Members): string
    requires m.Member? && MembersOk(m)
    decreases m
  {
    HeadText(m) + (Render(m.value) + (Spaces(m.w3) + (if m.rest.NoMembers? then "" else "," + MembersText(m.rest))))
  }

  // ----- texts are matched -----

  lemma {:induction false} SpacesBlank(s: string, p: nat, n: nat)
    requires Holds(s, p, Spaces(n))
    ensures Blank(s, p, n)
    decreases n
  {
    if n > 0 {
      HoldsAt(s, p, Spaces(n), 0);
      assert Spaces(n) == " " + Spaces(n - 1);
      HoldsSplit(s, p, " ", Spaces(n - 1));
      SpacesBlank(s, p + 1, n - 1);
    }
  }

  lemma SpacesMatched(s: string, p: nat, n: nat)
    requires Holds(s, p, Spaces(n))
    ensures MatchWs(s, p, n) == Some(p + n)
  {
    hide Spaces;
    SpacesBlank(s, p, n);
  }

  lemma CharMatched(s: string, p: nat, c: char)
    requires Holds(s, p, [c])
    ensures MatchChar(s, p, c) == Some(p + 1)
  {
    HoldsAt(s, p, [c], 0);
  }

  lemma UnitMatched(s: string, p: nat, u: Unit)
    requires UnitOk(u) && Holds(s, p, UnitText(u))
    ensures UnitAt(s, p, u)
  {
    var t := UnitText(u);
    forall k: nat | k < |t| ensures p + k < |s| && s[p + k] == t[k] {
      HoldsAt(s, p, t, k);
    }
    assert s[p + 0] == t[0];
  }

  lemma {:induction false} UnitsMatched(s: string, p: nat, us: seq<Unit>)
    requires UnitsOk(us) && Holds(s, p, UnitsText(us))
    ensures MatchUnits(s, p, us) == Some(p + |UnitsText(us)|)
    decreases |us|
  {
    hide Holds, UnitAt, UnitText;
    if us != [] {
      HoldsSplit(s, p, UnitText(us[0]), UnitsText(us[1..]));
      UnitMatched(s, p, us[0]);
      UnitsMatched(s, p + UnitLen(us[0]), us[1..]);
    }
  }

  lemma QuoteMatched(s: string, p: nat, us: seq<Unit>)
    requires UnitsOk(us) && Holds(s, p, QuoteText(us))
    ensures MatchQuote(s, p, us) == Some(p + |QuoteText(us)|)
  {
    hide Holds, UnitsText, MatchUnits, MatchChar;
    HoldsSplit(s, p, "\"", UnitsText(us) + "\"");
    HoldsSplit(s, p + 1, UnitsText(us), "\"");
    CharMatched(s, p, '"');
    UnitsMatched(s, p + 1, us);
    CharMatched(s, p + 1 + |UnitsText(us)|, '"');
  }

  lemma {:induction false} ScalarMatched(s: string, p: nat, t: string, i: nat)
    requires ScalarOk(t) && Holds(s, p, t) && i <= |t|
    ensures ScalarAt(s, p, t, i)
    decreases |t| - i
  {
    if i < |t| {
      HoldsAt(s, p, t, i);
      ScalarMatched(s, p, t, i + 1);
    }
  }

  lemma HeadMatched(s: string, p: nat, m: Members)
    requires m.Member? && UnitsOk(m.key) && Holds(s, p, HeadText(m))
    ensures MatchHead(s, p, m) == Some(p + |HeadText(m)|)
  {
    hide Holds, Spaces, QuoteText, MatchWs, MatchQuote, MatchChar;
    var a, b := p + m.w0, p + m.w0 + |QuoteText(m.key)|;
    HoldsSplit(s, p, Spaces(m.w0), QuoteText(m.key) + (Spaces(m.w1) + (":" + Spaces(m.w2))));
    HoldsSplit(s, a, QuoteText(m.key), Spaces(m.w1) + (":" + Spaces(m.w2)));
    HoldsSplit(s, b, Spaces(m.w1), ":" + Spaces(m.w2));
    HoldsSplit(s, b + m.w1, ":", Spaces(m.w2));
    SpacesMatched(s, p, m.w0);
    QuoteMatched(s, a, m.key);
    SpacesMatched(s, b, m.w1);
    CharMatched(s, b + m.w1, ':');
    SpacesMatched(s, b + m.w1 + 1, m.w2);
  }

  /** A bracket pair around a matched inside. */
  lemma PairMatched(s: string, p: nat, open: char, inside: string, close: char)
    requires Holds(s, p, [open] + (inside + [close]))
    ensures MatchChar(s, p, open) == Some(p + 1) && Holds(s, p + 1, inside)
    ensures MatchChar(s, p + 1 + |inside|, close) == Some(p + 1 + |inside| + 1)
  {
    hide Holds, MatchChar;
    HoldsSplit(s, p, [open], inside + [close]);
    HoldsSplit(s, p + 1, inside, [close]);
    CharMatched(s, p, open);
    CharMatched(s, p + 1 + |inside|, close);
  }

  /** Wherever the text of a value stands, the value is matched and ends with its text. */
  lemma {:induction false} RenderMatched(s: string, p: nat, v: Json)
    requires ValueOk(v) && Holds(s, p, Render(v))
    ensures Match(s, p, v) == Some(p + |Render(v)|)
    decreases v, 1
  {
    hide Holds, Spaces, QuoteText, MatchWs, MatchQuote, MatchChar, ItemsText, MembersText, MatchItems, MatchMembers;
    match v
    case Scalar(t) => ScalarMatched(s, p, t, 0);
    case Str(us) => QuoteMatched(s, p, us);
    case Arr(ws, items) =>
      var inside := if items.NoItems? then Spaces(ws) else ItemsText(items);
      PairMatched(s, p, '[', inside, ']');
      if items.NoItems? { SpacesMatched(s, p + 1, ws); } else { ItemsMatched(s, p + 1, items); }
    case Obj(ws, members) =>
      var inside := if members.NoMembers? then Spaces(ws) else MembersText(members);
      PairMatched(s, p, '{', inside, '}');
      if members.NoMembers? { SpacesMatched(s, p + 1, ws); } else { MembersMatched(s, p + 1, members); }
  }

  lemma {:induction false} ItemMatched(s: string, p: nat, items: Items, more: string)
    requires items.Item? && ValueOk(items.value)
    requires Holds(s, p, Spaces(items.before) + (Render(items.value) + (Spaces(items.after) + more)))
    ensures var c := p + items.before + |Render(items.value)| + items.after;
            MatchItem(s, p, items) == Some(c) && Holds(s, c, more)
    decreases items, 2
  {
    hide Holds, Spaces, Render, MatchWs, Match;
    var a, b := p + items.before, p + items.before + |Render(items.value)|;
    HoldsSplit(s, p, Spaces(items.before), Render(items.value) + (Spaces(items.after) + more));
    HoldsSplit(s, a, Render(items.value), Spaces(items.after) + more);
    HoldsSplit(s, b, Spaces(items.after), more);
    SpacesMatched(s, p, items.before);
    RenderMatched(s, a, items.value);
    SpacesMatched(s, b, items.after);
  }

  lemma {:induction false} ItemsMatched(s: string, p: nat, items: Items)
    requires items.Item? && ItemsOk(items) && Holds(s, p, ItemsText(items))
    ensures MatchItems(s, p, items) == Some(p + |ItemsText(items)|)
    decreases items, 3
  {
    hide Holds, Spaces, Render, MatchItem, MatchChar;
    var more := if items.rest.NoItems? then "" else "," + ItemsText(items.rest);
    ItemMatched(s, p, items, more);
    if items.rest.Item? {
      var c := p + items.before + |Render(items.value)| + items.after;
      HoldsSplit(s, c, ",", ItemsText(items.rest));
      CharMatched(s, c, ',');
      ItemsMatched(s, c + 1, items.rest);
    }
  }

  lemma {:induction false} MemberMatched(s: string, p: nat, m: Members, more: string)
    requires m.Member? && UnitsOk(m.key) && ValueOk(m.value)
    requires Holds(s, p, HeadText(m) + (Render(m.value) + (Spaces(m.w3) + more)))
    ensures var c := p + |HeadText(m)| + |Render(m.value)| + m.w3;
            MatchMember(s, p, m) == Some(c) && Holds(s, c, more)
    decreases m, 2
  {
    hide Holds, Spaces, Render, HeadText, MatchHead, MatchWs, Match;
    var a, b := p + |HeadText(m)|, p + |HeadText(m)| + |Render(m.value)|;
    HoldsSplit(s, p, HeadText(m), Render(m.value) + (Spaces(m.w3) + more));
    HoldsSplit(s, a, Render(m.value), Spaces(m.w3) + more);
    HoldsSplit(s, b, Spaces(m.w3), more);
    HeadMatched(s, p, m);
    RenderMatched(s, a, m.value);
    SpacesMatched(s, b, m.w3);
  }

  lemma {:induction false} MembersMatched(s: string, p: nat, m: Members)
    requires m.Member? && MembersOk(m) && Holds(s, p, MembersText(m))
    ensures MatchMembers(s, p, m) == Some(p + |MembersText(m)|)
    decreases m, 3
  {
    hide Holds, Spaces, Render, HeadText, MatchMember, MatchChar;
    var more := if m.rest.NoMembers? then "" else "," + MembersText(m.rest);
    MemberMatched(s, p, m, more);
    if m.rest.Member? {
      var c := p + |HeadText(m)| + |Render(m.value)| + m.w3;
      HoldsSplit(s, c, ",", MembersText(m.rest));
      CharMatched(s, c, ',');
      MembersMatched(s, c + 1, m.rest);
    }
  }
}
