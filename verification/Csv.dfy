/** Splitting one line of the games list (src/httpcatalog.c). */
module Csv {
  import opened Text

  const MAX_FIELDS: nat := 4

  datatype Rejection = TooManyFields | UnterminatedQuote | TextAfterQuote

  datatype Outcome = Fields(fields: seq<string>) | Reject(why: Rejection)

  /** A quoted field behind its opening quote: its text and what follows the closing quote. */
  function Unquote(s: string): (r: Option<(string, string)>)
    ensures r.Some? ==> |r.value.1| < |s|
    decreases |s|
  {
    if s == "" then None
    else if s[0] == '"' then
      if |s| > 1 && s[1] == '"' then
        var r :- Unquote(s[2..]);
        Some((['"'] + r.0, r.1))
      else Some(("", s[1..]))
    else
      var r :- Unquote(s[1..]);
      Some(([s[0]] + r.0, r.1))
  }

  function Prepend(field: string, more: Outcome): Outcome {
    match more
    case Fields(fields) => Fields([field] + fields)
    case Reject(_) => more
  }

  /** What follows a field when n fields are done; a line that ends in a comma has an empty field behind it. */
  function After(field: string, rest: string, n: nat): Outcome
    decreases |rest|, 0
  {
    if rest == "" then Fields([field])
    else if rest[1..] == "" then
      if n >= MAX_FIELDS then Reject(TooManyFields) else Fields([field, ""])
    else Prepend(field, Split(rest[1..], n))
  }

  /** httpSplitFields from a point where n fields are done. */
  function Split(s: string, n: nat): Outcome
    decreases |s|, 1
  {
    if n >= MAX_FIELDS then Reject(TooManyFields)
    else if s != "" && s[0] == '"' then
      match Unquote(s[1..])
      case None => Reject(UnterminatedQuote)
      case Some((text, rest)) =>
        if rest != "" && rest[0] != ',' then Reject(TextAfterQuote) else After(text, rest, n + 1)
    else
      var e := IndexOf(s, ',');
      After(s[..e], s[e..], n + 1)
  }

  // ----- writing fields -----

  /** A field as it may be written: bare, or in quotes. */
  datatype Field = Bare(text: string) | Quoted(text: string)

  /** Every quote doubled. */
  function Doubled(t: string): string
    decreases |t|
  {
    if t == "" then "" else (if t[0] == '"' then "\"\"" else [t[0]]) + Doubled(t[1..])
  }

  function Render(f: Field): string {
    match f
    case Bare(t) => t
    case Quoted(t) => "\"" + Doubled(t) + "\""
  }

  /** A bare field has no comma and does not start with a quote; a quoted one may hold anything. */
  predicate FieldOk(f: Field) {
    f.Bare? ==> ',' !in f.text && (f.text != "" ==> f.text[0] != '"')
  }

  predicate AllOk(fs: seq<Field>)
    decreases |fs|
  {
    fs == [] || (FieldOk(fs[0]) && AllOk(fs[1..]))
  }

  function Join(fs: seq<Field>): string
    requires fs != []
    decreases |fs|
  {
    if |fs| == 1 then Render(fs[0]) else Render(fs[0]) + "," + Join(fs[1..])
  }

  function Texts(fs: seq<Field>): seq<string>
    decreases |fs|
  {
    if fs == [] then [] else [fs[0].text] + Texts(fs[1..])
  }

  // ----- splitting what was written -----

  /** Unquoting undoes doubling, up to a quote that is not followed by another. */
  lemma {:induction false} UnquoteDoubled(t: string, rest: string)
    requires rest == "" || rest[0] != '"'
    ensures Unquote(Doubled(t) + "\"" + rest) == Some((t, rest))
    decreases |t|
  {
    var s := Doubled(t) + "\"" + rest;
    if t == "" {
      assert s == "\"" + rest && s[1..] == rest;
      assert |s| > 1 ==> s[1] == rest[0];
    } else {
      UnquoteDoubled(t[1..], rest);
      var more := Doubled(t[1..]) + "\"" + rest;
      if t[0] == '"' {
        assert s == "\"\"" + more && s[2..] == more;
      } else {
        assert s == [t[0]] + more && s[1..] == more;
      }
      assert t == [t[0]] + t[1..];
    }
  }

  lemma CommaAt(t: string, rest: string)
    requires ',' !in t && (rest == "" || rest[0] == ',')
    ensures IndexOf(t + rest, ',') == |t| && (t + rest)[..|t|] == t && (t + rest)[|t|..] == rest
  {
    assert forall k :: 0 <= k < |t| ==> (t + rest)[k] == t[k] && t[k] in t;
    assert rest != "" ==> (t + rest)[|t|] == ',';
  }

  /** One written field before the end or a comma. */
  lemma SplitFirst(f: Field, rest: string, n: nat)
    requires FieldOk(f) && (rest == "" || rest[0] == ',')
    ensures n < MAX_FIELDS ==> Split(Render(f) + rest, n) == After(f.text, rest, n + 1)
    ensures n >= MAX_FIELDS ==> Split(Render(f) + rest, n) == Reject(TooManyFields)
  {
    hide After, Unquote, Split;
    var t := f.text;
    if f.Bare? {
      SplitBare(t, rest, n);
    } else {
      QuotedShape(t, rest);
      UnquoteDoubled(t, rest);
      SplitQuoted("\"" + Doubled(t) + "\"" + rest, t, rest, n);
    }
  }

  lemma SplitBare(t: string, rest: string, n: nat)
    requires ',' !in t && (t != "" ==> t[0] != '"') && (rest == "" || rest[0] == ',')
    ensures Split(t + rest, n) == if n < MAX_FIELDS then After(t, rest, n + 1) else Reject(TooManyFields)
  {
    hide After, Unquote, IndexOf;
    CommaAt(t, rest);
    assert t + rest != "" ==> (t + rest)[0] == if t != "" then t[0] else rest[0];
  }

  lemma QuotedShape(t: string, rest: string)
    ensures var s := "\"" + Doubled(t) + "\"" + rest; s[0] == '"' && s[1..] == Doubled(t) + "\"" + rest
  {
  }

  lemma SplitQuoted(s: string, t: string, rest: string, n: nat)
    requires s != "" && s[0] == '"' && Unquote(s[1..]) == Some((t, rest)) && (rest == "" || rest[0] == ',')
    ensures Split(s, n) == if n < MAX_FIELDS then After(t, rest, n + 1) else Reject(TooManyFields)
  {
    hide After, Unquote;
  }

  lemma CommaRest(more: string)
    ensures ("," + more)[1..] == more && ("," + more)[0] == ','
  {
  }

  lemma JoinSplits(f: Field, more: string)
    ensures Render(f) + "," + more == Render(f) + ("," + more)
  {
  }

  /** An empty join is one empty bare field. */
  lemma JoinEmpty(fs: seq<Field>)
    requires fs != [] && Join(fs) == ""
    ensures fs == [Bare("")]
  {
    assert |Render(fs[0])| == 0;
    assert fs == [fs[0]];
  }

  /** From n fields on: all of them come back, or there are too many. */
  lemma {:induction false} SplitJoin(fs: seq<Field>, n: nat)
    requires fs != [] && AllOk(fs)
    ensures Split(Join(fs), n) == if n + |fs| <= MAX_FIELDS then Fields(Texts(fs)) else Reject(TooManyFields)
    decreases |fs|
  {
    hide Split, FieldOk, Render;
    var f := fs[0];
    if |fs| == 1 {
      assert Render(f) + "" == Render(f);
      SplitFirst(f, "", n);
      assert Texts(fs) == [f.text] + Texts([]) && fs[1..] == [];
    } else {
      var more := Join(fs[1..]);
      JoinSplits(f, more);
      CommaRest(more);
      SplitFirst(f, "," + more, n);
      SplitJoin(fs[1..], n + 1);
      if more == "" {
        JoinEmpty(fs[1..]);
        assert Texts(fs[1..]) == [""] + Texts([]);
        assert Texts(fs) == [f.text, ""];
      }
    }
  }

  /** One to four fields, each quoted or bare as it may be, joined by commas, are recovered exactly; more are refused. */
  lemma WrittenIsRead(fs: seq<Field>)
    requires fs != [] && AllOk(fs)
    ensures Split(Join(fs), 0) == if |fs| <= MAX_FIELDS then Fields(Texts(fs)) else Reject(TooManyFields)
  {
    hide Split, Join;
    SplitJoin(fs, 0);
  }

  // ----- what is accepted -----

  /** What was unquoted was a doubled text up to a single quote. */
  lemma {:induction false} UnquoteIs(s: string)
    requires Unquote(s).Some?
    ensures var (t, rest) := Unquote(s).value; s == Doubled(t) + "\"" + rest && (rest == "" || rest[0] != '"')
    decreases |s|
  {
    if s[0] == '"' {
      if |s| > 1 && s[1] == '"' {
        UnquoteIs(s[2..]);
        var (t, rest) := Unquote(s[2..]).value;
        DoubledCons('"', t);
        assert s == "\"\"" + s[2..];
        Regroup("\"\"", Doubled(t), rest);
      } else {
        assert s == "" + "\"" + s[1..];
      }
    } else {
      UnquoteIs(s[1..]);
      var (t, rest) := Unquote(s[1..]).value;
      DoubledCons(s[0], t);
      assert s == [s[0]] + s[1..];
      Regroup([s[0]], Doubled(t), rest);
    }
  }

  lemma Regroup(a: string, b: string, rest: string)
    ensures a + (b + "\"" + rest) == a + b + "\"" + rest
  {
  }

  lemma DoubledCons(c: char, t: string)
    ensures Doubled([c] + t) == (if c == '"' then "\"\"" else [c]) + Doubled(t)
  {
    assert ([c] + t)[1..] == t && ([c] + t)[0] == c;
  }

  /** The first field of a line that is not refused outright, and what follows it. */
  lemma FirstField(s: string, n: nat) returns (f: Field, rest: string)
    requires Split(s, n).Fields?
    ensures n < MAX_FIELDS && FieldOk(f) && s == Render(f) + rest && (rest == "" || rest[0] == ',')
    ensures Split(s, n) == After(f.text, rest, n + 1) && |rest| <= |s|
  {
    hide After, Unquote, IndexOf;
    if s != "" && s[0] == '"' {
      UnquoteIs(s[1..]);
      var (t, more) := Unquote(s[1..]).value;
      f, rest := Quoted(t), more;
      assert s == "\"" + s[1..];
      assert "\"" + (Doubled(t) + "\"" + more) == "\"" + Doubled(t) + "\"" + more;
    } else {
      var e := IndexOf(s, ',');
      f, rest := Bare(s[..e]), s[e..];
      assert s == s[..e] + s[e..];
    }
  }

  lemma JoinCons(f: Field, fs: seq<Field>)
    requires fs != []
    ensures Join([f] + fs) == Render(f) + ("," + Join(fs))
    ensures Texts([f] + fs) == [f.text] + Texts(fs)
    ensures FieldOk(f) && AllOk(fs) ==> AllOk([f] + fs)
  {
    hide Render, FieldOk;
    assert ([f] + fs)[0] == f && ([f] + fs)[1..] == fs;
    JoinSplits(f, Join(fs));
  }

  lemma JoinOne(f: Field)
    ensures Join([f]) == Render(f) && Texts([f]) == [f.text] && (FieldOk(f) ==> AllOk([f]))
  {
    assert [f][1..] == [];
  }

  /** Every accepted line was written: some fields, each as it may be, joined by commas. */
  lemma {:induction false} ReadIsWritten(s: string, n: nat) returns (fs: seq<Field>)
    requires Split(s, n).Fields?
    ensures fs != [] && AllOk(fs) && Join(fs) == s && Split(s, n) == Fields(Texts(fs)) && n + |fs| <= MAX_FIELDS
    decreases |s|
  {
    hide Split, Render, FieldOk, AllOk, Join, Texts;
    var f, rest := FirstField(s, n);
    if rest == "" {
      fs := [f];
      JoinOne(f);
      assert Render(f) + "" == Render(f);
    } else {
      assert rest == "," + rest[1..];
      if rest[1..] == "" {
        JoinOne(Bare(""));
        assert FieldOk(Bare("")) && Render(Bare("")) == "" by { EmptyField(); }
        fs := [f] + [Bare("")];
        JoinCons(f, [Bare("")]);
      } else {
        var more := ReadIsWritten(rest[1..], n + 1);
        fs := [f] + more;
        JoinCons(f, more);
      }
    }
  }

  lemma EmptyField()
    ensures FieldOk(Bare("")) && Render(Bare("")) == ""
  {
  }

  /** A line is accepted exactly when it is one to four well-written fields joined by commas. */
  lemma AcceptedExactly(s: string)
    ensures Split(s, 0).Fields? <==> exists fs: seq<Field> :: 1 <= |fs| <= MAX_FIELDS && AllOk(fs) && Join(fs) == s
  {
    hide Split, Join, AllOk;
    if Split(s, 0).Fields? {
      var fs := ReadIsWritten(s, 0);
      assert 1 <= |fs| <= MAX_FIELDS && AllOk(fs) && Join(fs) == s;
    }
    if fs: seq<Field> :| 1 <= |fs| <= MAX_FIELDS && AllOk(fs) && Join(fs) == s {
      WrittenIsRead(fs);
    }
  }

  // ----- lines without quoting -----

  /** Splitting at every comma. */
  function AtCommas(s: string): (r: seq<string>)
    ensures r != []
    decreases |s|
  {
    var e := IndexOf(s, ',');
    if e == |s| then [s] else [s[..e]] + AtCommas(s[e + 1..])
  }

  function AllBare(pieces: seq<string>): (fs: seq<Field>)
    ensures |fs| == |pieces| && Texts(fs) == pieces
    decreases |pieces|
  {
    if pieces == [] then [] else [Bare(pieces[0])] + AllBare(pieces[1..])
  }

  predicate NoneQuoted(pieces: seq<string>)
    decreases |pieces|
  {
    pieces == [] || ((pieces[0] != "" ==> pieces[0][0] != '"') && NoneQuoted(pieces[1..]))
  }

  lemma BareOne(s: string)
    requires ',' !in s && NoneQuoted([s])
    ensures AllOk(AllBare([s])) && Join(AllBare([s])) == s
  {
    assert [s][1..] == [] && AllBare([s]) == [Bare(s)] && [Bare(s)][1..] == [];
  }

  lemma BareCons(piece: string, pieces: seq<string>)
    requires pieces != [] && ',' !in piece && NoneQuoted([piece] + pieces)
    requires AllOk(AllBare(pieces))
    ensures AllOk(AllBare([piece] + pieces))
    ensures Join(AllBare([piece] + pieces)) == piece + "," + Join(AllBare(pieces))
  {
    assert ([piece] + pieces)[1..] == pieces;
    var fs := AllBare(pieces);
    assert AllBare([piece] + pieces) == [Bare(piece)] + fs && ([Bare(piece)] + fs)[1..] == fs;
  }

  lemma AtComma(s: string)
    ensures var e := IndexOf(s, ',');
            if e == |s| then ',' !in s && AtCommas(s) == [s]
            else ',' !in s[..e] && AtCommas(s) == [s[..e]] + AtCommas(s[e + 1..]) && s == s[..e] + "," + s[e + 1..]
  {
    hide IndexOf;
    var e := IndexOf(s, ',');
    NoComma(s, e);
    if e == |s| {
      assert s[..e] == s;
    } else {
      Around(s, e);
    }
  }

  lemma NoComma(s: string, e: nat)
    requires e <= |s| && forall k :: 0 <= k < e ==> s[k] != ','
    ensures ',' !in s[..e]
  {
  }

  lemma Around(s: string, e: nat)
    requires e < |s| && s[e] == ','
    ensures s == s[..e] + "," + s[e + 1..]
  {
  }

  lemma {:induction false} CommasJoin(s: string)
    requires NoneQuoted(AtCommas(s))
    ensures AllOk(AllBare(AtCommas(s))) && Join(AllBare(AtCommas(s))) == s
    decreases |s|
  {
    hide AtCommas, AllOk, Join, AllBare;
    AtComma(s);
    var e := IndexOf(s, ',');
    if e == |s| {
      BareOne(s);
    } else {
      var rest := s[e + 1..];
      assert ([s[..e]] + AtCommas(rest))[1..] == AtCommas(rest);
      CommasJoin(rest);
      BareCons(s[..e], AtCommas(rest));
    }
  }

  /** A line where no field starts with a quote splits exactly at its commas, quotes inside fields and all. */
  lemma PlainLine(s: string)
    requires NoneQuoted(AtCommas(s))
    ensures Split(s, 0) == if |AtCommas(s)| <= MAX_FIELDS then Fields(AtCommas(s)) else Reject(TooManyFields)
  {
    hide Split, Join, AllOk;
    CommasJoin(s);
    WrittenIsRead(AllBare(AtCommas(s)));
  }
}
