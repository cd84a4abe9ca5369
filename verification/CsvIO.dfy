/** Splitting a line in place, with one cursor reading and one writing (src/httpcatalog.c). */
module CsvIO {
  import opened Text
  import opened Csv

  const NUL: char := 0 as char

  /** The C string at a position of the buffer. */
  ghost predicate StringAt(line: seq<char>, at: nat, t: string) {
    at + |t| < |line| && line[at + |t|] == NUL && line[at..at + |t|] == t
  }

  /** From p on, the buffer still holds the line s and its terminator. */
  ghost predicate Unread(line: array<char>, s: string, p: nat)
    reads line
  {
    |s| < line.Length && line[|s|] == NUL && forall k :: p <= k < |s| ==> line[k] == s[k]
  }

  ghost predicate NulFree(s: string) {
    forall k :: 0 <= k < |s| ==> s[k] != NUL
  }

  /** The text read so far in front of what is left to unquote. */
  ghost function Onto(text: string, r: Option<(string, string)>): Option<(string, string)> {
    match r
    case None => None
    case Some((more, rest)) => Some((text + more, rest))
  }

  lemma UnquoteStep(s: string, p: nat, text: string)
    requires p < |s|
    ensures s[p] != '"' ==> Onto(text, Unquote(s[p..])) == Onto(text + [s[p]], Unquote(s[p + 1..]))
    ensures s[p] == '"' && p + 1 < |s| && s[p + 1] == '"' ==>
              Onto(text, Unquote(s[p..])) == Onto(text + ['"'], Unquote(s[p + 2..]))
    ensures s[p] == '"' && !(p + 1 < |s| && s[p + 1] == '"') ==> Onto(text, Unquote(s[p..])) == Some((text, s[p + 1..]))
  {
    var u := s[p..];
    assert u[1..] == s[p + 1..] && (|u| > 1 ==> u[2..] == s[p + 2..]);
    assert text + "" == text;
    if s[p] != '"' {
      if Unquote(u[1..]).Some? {
        var more := Unquote(u[1..]).value.0;
        assert text + ([s[p]] + more) == text + [s[p]] + more;
      }
    } else if p + 1 < |s| && s[p + 1] == '"' {
      if Unquote(u[2..]).Some? {
        var more := Unquote(u[2..]).value.0;
        assert text + (['"'] + more) == text + ['"'] + more;
      }
    }
  }

  /**
   The loop over a quoted field. The write cursor never passes the read cursor, and nothing before the field or
   after the read cursor is touched.
   */
  method UnquoteInPlace(line: array<char>, ghost s: string, start: nat) returns (closed: bool, p: nat, out: nat)
    requires start <= |s| && Unread(line, s, start) && NulFree(s)
    modifies line
    ensures closed <==> Unquote(s[start..]).Some?
    ensures closed ==> start <= out < p <= |s| && Unquote(s[start..]) == Some((line[start..out], s[p..]))
    ensures forall k :: (0 <= k < start || (closed && p <= k < line.Length)) ==> line[k] == old(line[k])
  {
    hide Unquote;
    p, out := start, start;
    OntoNothing(Unquote(s[start..]));
    assert line[start..out] == "";
    while true
      invariant start <= out <= p <= |s| && Unread(line, s, p)
      invariant forall k :: (0 <= k < start || p <= k < line.Length) ==> line[k] == old(line[k])
      invariant Onto(line[start..out], Unquote(s[p..])) == Unquote(s[start..])
      decreases |s| - p
    {
      if line[p] == NUL {
        UnquoteNothing();
        assert s[p..] == "";
        return false, p, out;
      }
      ghost var text := line[start..out];
      UnquoteStep(s, p, text);
      if line[p] == '"' {
        if line[p + 1] == '"' {
          line[out] := '"';
          p, out := p + 2, out + 1;
          assert line[start..out] == text + ['"'];
        } else {
          p := p + 1;
          return true, p, out;
        }
      } else {
        ghost var c := line[p];
        line[out] := line[p];
        p, out := p + 1, out + 1;
        assert line[start..out] == text + [c];
      }
    }
  }

  lemma OntoNothing(r: Option<(string, string)>)
    ensures Onto("", r) == r
  {
    assert r.Some? ==> "" + r.value.0 == r.value.0;
  }

  lemma UnquoteNothing()
    ensures Unquote("") == None
  {
  }

  // ----- the field loop -----

  /** The fields done so far in front of what is left. */
  ghost function Done(done: seq<string>, more: Outcome): Outcome {
    match more
    case Fields(fields) => Fields(done + fields)
    case Reject(_) => more
  }

  /** The fields found so far stand in the buffer, each ended before p. */
  ghost predicate Found(line: seq<char>, starts: seq<nat>, done: seq<string>, p: nat) {
    |starts| == |done| && forall k :: 0 <= k < |starts| ==> StringAt(line, starts[k], done[k]) && starts[k] + |done[k]| < p
  }

  /** One more field before what is left. */
  lemma AfterStep(done: seq<string>, field: string, rest: string, n: nat)
    ensures rest == "" ==> Done(done, After(field, rest, n)) == Fields(done + [field])
    ensures |rest| == 1 ==> Done(done, After(field, rest, n)) ==
                            if n >= MAX_FIELDS then Reject(TooManyFields) else Fields(done + [field] + [""])
    ensures |rest| > 1 ==> Done(done, After(field, rest, n)) == Done(done + [field], Split(rest[1..], n))
  {
    hide Split;
    if |rest| == 1 {
      assert rest[1..] == "" && done + [field, ""] == done + [field] + [""];
    } else if |rest| > 1 && Split(rest[1..], n).Fields? {
      var more := Split(rest[1..], n).fields;
      assert done + ([field] + more) == done + [field] + more;
    }
  }

  /** What the next field is, by its first character. */
  lemma SplitStep(s: string, n: nat)
    ensures n >= MAX_FIELDS ==> Split(s, n) == Reject(TooManyFields)
    ensures n < MAX_FIELDS && s != "" && s[0] == '"' ==>
              var r := Unquote(s[1..]);
              if r.None? then Split(s, n) == Reject(UnterminatedQuote)
              else if r.value.1 != "" && r.value.1[0] != ',' then Split(s, n) == Reject(TextAfterQuote)
              else Split(s, n) == After(r.value.0, r.value.1, n + 1)
    ensures n < MAX_FIELDS && !(s != "" && s[0] == '"') ==>
              Split(s, n) == After(s[..IndexOf(s, ',')], s[IndexOf(s, ',')..], n + 1)
  {
    hide After, Unquote;
  }

  lemma SplitFull(s: string, n: nat)
    requires n >= MAX_FIELDS
    ensures Split(s, n) == Reject(TooManyFields)
  {
  }

  method FindComma(line: array<char>, ghost s: string, start: nat) returns (p: nat)
    requires start <= |s| && Unread(line, s, start) && NulFree(s)
    ensures p == start + IndexOf(s[start..], ',')
  {
    p := start;
    while line[p] != NUL && line[p] != ','
      invariant start <= p <= |s| && forall k :: start <= k < p ==> s[k] != ','
      decreases |s| - p
    {
      p := p + 1;
    }
    ghost var u := s[start..];
    assert forall k :: 0 <= k < |u| ==> u[k] == s[start + k];
    assert p < |s| ==> u[p - start] == ',';
  }

  /** One field, from its first character to the comma or the end; its terminator goes to out, never past p. */
  method TakeField(line: array<char>, ghost s: string, start: nat, ghost n: nat)
    returns (why: Option<Rejection>, at: nat, out: nat, p: nat)
    requires start <= |s| && Unread(line, s, start) && NulFree(s) && n < MAX_FIELDS
    modifies line
    ensures forall k :: 0 <= k < start ==> line[k] == old(line[k])
    ensures why.Some? ==> Split(s[start..], n) == Reject(why.value)
    ensures why.None? ==> start <= at <= out <= p <= |s| && Unread(line, s, p) && (p < |s| ==> s[p] == ',')
    ensures why.None? ==> Split(s[start..], n) == After(line[at..out], s[p..], n + 1)
  {
    hide Split, After, Unquote;
    at, out, p := start, start, start;
    SplitStep(s[start..], n);
    if line[p] == '"' {
      at := start + 1;
      assert s[start..][1..] == s[at..];
      var closed;
      closed, p, out := UnquoteInPlace(line, s, at);
      if !closed {
        return Some(UnterminatedQuote), at, out, p;
      }
      assert p < |s| ==> s[p..][0] == s[p];
      if line[p] != ',' && line[p] != NUL {
        return Some(TextAfterQuote), at, out, p;
      }
    } else {
      p := FindComma(line, s, start);
      out := p;
      ghost var e := IndexOf(s[start..], ',');
      assert s[start..][..e] == line[start..p] && s[start..][e..] == s[p..];
    }
    why := None;
  }

  /** The fields found stay found while the buffer before p is left alone. */
  lemma FoundKept(line: seq<char>, line': seq<char>, starts: seq<nat>, done: seq<string>, p: nat)
    requires Found(line, starts, done, p) && p <= |line| <= |line'| && forall k :: 0 <= k < p ==> line'[k] == line[k]
    ensures Found(line', starts, done, p)
  {
    forall k | 0 <= k < |starts| ensures StringAt(line', starts[k], done[k]) {
      assert StringAt(line, starts[k], done[k]);
      assert line'[starts[k]..starts[k] + |done[k]|] == line[starts[k]..starts[k] + |done[k]|];
    }
  }

  /** A field is terminated in place: at its comma, or where the writing of a quoted one stopped. */
  method EndField(line: array<char>, ghost s: string, starts: seq<nat>, ghost done: seq<string>, at: nat, out: nat, ghost p: nat)
    returns (starts': seq<nat>)
    requires at <= out <= p <= |s| && Unread(line, s, p) && Found(line[..], starts, done, at)
    modifies line
    ensures starts' == starts + [at] && Unread(line, s, p + 1)
    ensures Found(line[..], starts', done + [old(line[at..out])], p + 1)
  {
    hide StringAt;
    ghost var field, before := line[at..out], line[..];
    line[out] := NUL;
    FoundKept(before, line[..], starts, done, at);
    TextAt(line[..], at, out, field);
    starts' := starts + [at];
  }

  lemma TextAt(line: seq<char>, at: nat, out: nat, t: string)
    requires at <= out < |line| && line[out] == NUL && |t| == out - at && forall k :: at <= k < out ==> line[k] == t[k - at]
    ensures StringAt(line, at, t)
  {
  }

  /**
   httpSplitFields on a buffer holding the line s and its terminator: it refuses or leaves, in place, exactly the
   fields that Split gives.
   */
  method SplitFields(line: array<char>, ghost s: string) returns (starts: seq<nat>, why: Option<Rejection>)
    requires Unread(line, s, 0) && NulFree(s)
    modifies line
    ensures match Split(s, 0)
            case Reject(w) => why == Some(w)
            case Fields(fields) => why == None && Found(line[..], starts, fields, line.Length + 1)
  {
    hide Split, After, StringAt;
    starts := [];
    ghost var done: seq<string> := [];
    var p := 0;
    assert s[0..] == s && (Split(s, 0).Fields? ==> [] + Split(s, 0).fields == Split(s, 0).fields);
    while true
      invariant 0 <= p <= |s| && Unread(line, s, p) && Found(line[..], starts, done, p)
      invariant Done(done, Split(s[p..], |done|)) == Split(s, 0)
      decreases |s| - p
    {
      if |starts| >= MAX_FIELDS {
        SplitFull(s[p..], |done|);
        return starts, Some(TooManyFields);
      }
      var at, out, q;
      ghost var before := line[..];
      why, at, out, q := TakeField(line, s, p, |done|);
      if why.Some? {
        return;
      }
      FoundKept(before, line[..], starts, done, p);
      ghost var field := line[at..out];
      AfterStep(done, field, s[q..], |done| + 1);
      var last := line[q] == NUL;
      starts := EndField(line, s, starts, done, at, out, q);
      done := done + [field];
      if last {
        assert s[q..] == "";
        return;
      }
      p := q + 1;
      assert s[q..][1..] == s[p..];
      if line[p] == NUL {
        if |starts| >= MAX_FIELDS {
          return starts, Some(TooManyFields);
        }
        EmptyAt(line[..], p);
        starts := starts + [p];
        return;
      }
    }
  }

  lemma EmptyAt(line: seq<char>, p: nat)
    requires p < |line| && line[p] == NUL
    ensures StringAt(line, p, "")
  {
  }
}
