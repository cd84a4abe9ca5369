/** Vocabulary shared by the models: searching and folding C strings, lines, bytes. */
module Text {

  datatype Option<+T> = None | Some(value: T) {
    predicate IsFailure() {
      None?
    }

    function PropagateFailure<U>(): Option<U>
      requires None?
    {
      None
    }

    function Extract(): T
      requires Some?
    {
      value
    }
  }

  /** strchr as an index: the first position of c in s, or |s|. */
  function IndexOf(s: string, c: char): (i: nat)
    ensures i <= |s| && (forall k :: 0 <= k < i ==> s[k] != c)
    ensures i < |s| ==> s[i] == c
  {
    IndexFrom(s, c, 0)
  }

  function IndexFrom(s: string, c: char, from: nat): (i: nat)
    requires from <= |s|
    ensures from <= i <= |s| && (forall k :: from <= k < i ==> s[k] != c)
    ensures i < |s| ==> s[i] == c
    decreases |s| - from
  {
    if from == |s| || s[from] == c then from else IndexFrom(s, c, from + 1)
  }

  /** strrchr as an index: the last position of c in s, or -1. */
  function LastIndexOf(s: string, c: char): (i: int)
    ensures -1 <= i < |s| && (forall k :: i < k < |s| ==> s[k] != c)
    ensures i >= 0 ==> s[i] == c
  {
    LastIndexIn(s, c, |s|)
  }

  function LastIndexIn(s: string, c: char, n: nat): (i: int)
    requires n <= |s|
    ensures -1 <= i < n && (forall k :: i < k < n ==> s[k] != c)
    ensures i >= 0 ==> s[i] == c
  {
    if n == 0 then -1 else if s[n - 1] == c then n - 1 else LastIndexIn(s, c, n - 1)
  }

  function Upper(c: char): char {
    if 'a' <= c <= 'z' then (c as int - 32) as char else c
  }

  function Lower(c: char): char {
    if 'A' <= c <= 'Z' then (c as int + 32) as char else c
  }

  /** strcasecmp(a, b) == 0, ASCII letters only. */
  predicate EqFold(a: string, b: string) {
    |a| == |b| && forall i :: 0 <= i < |a| ==> Lower(a[i]) == Lower(b[i])
  }

  /** Space or tab: isWS in src/config.c. */
  predicate IsWs(c: char) {
    c == ' ' || c == '\t'
  }

  predicate EndsWith(s: string, c: char) {
    s != "" && s[|s| - 1] == c
  }

  /** A line without one carriage return at its end. */
  function Chop(line: string): string {
    if EndsWith(line, '\r') then line[..|line| - 1] else line
  }

  /** The text made of these lines, each ended by a line feed. */
  function Unlines(lines: seq<string>): string
    decreases |lines|
  {
    if lines == [] then "" else lines[0] + "\n" + Unlines(lines[1..])
  }

  predicate IsDigit(c: char) {
    '0' <= c <= '9'
  }

  /** isspace. */
  predicate IsSpace(c: char) {
    c == ' ' || 9 <= c as int <= 13
  }

  // ----- numbers -----

  function Pow2(k: nat): (r: nat)
    ensures r > 0
  {
    if k == 0 then 1 else 2 * Pow2(k - 1)
  }

  type byte = x: int | 0 <= x < 256

  function Min(a: nat, b: nat): nat {
    if a < b then a else b
  }

  lemma {:induction false} MulMono(a: nat, b: nat, w: nat)
    requires a < b
    ensures a * w + w <= b * w
  {
    assert b * w == a * w + (b - a) * w;
    assert (b - a) * w >= w by { assert (b - a) * w == w + (b - a - 1) * w; }
  }
}
