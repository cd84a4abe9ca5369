/** The libconfig syntax reads back what it wrote, through grouping, renaming, quoting and escaping (src/config.c). */
module ConfigLibconfig {
  import opened Text
  import opened ConfigStore
  import opened ConfigText
  import opened ConfigTable
  import opened ConfigLegacy

  /** A name the scalar grammar carries at root or inside a group. */
  predicate NameOk(name: string) {
    && 0 < |name| < KEY_LEN && !StartsComment(name) && name[0] != '{' && name[0] != '}'
    && !IsWs(name[0]) && !IsWs(name[|name| - 1])
    && forall k :: 0 <= k < |name| ==> name[k] != '=' && name[k] != ':' && name[k] != '\n'
  }

  /** A value one line can hold. */
  predicate Printable(v: string) {
    |v| < VAL_LEN && '\n' !in v
  }

  /** A value that survives: the empty string reads as absent, and the two booleans read as 1 and 0. */
  predicate ValueOk(v: string) {
    Printable(v) && v != "" && v != "true" && v != "false"
  }

  /** An entry the libconfig syntax carries. */
  predicate CarriedLib(e: Entry) {
    && Stored(e) && ValueOk(e.1)
    && (OursToWopl(e.0).None? ==> NameOk(e.0) && WoplToOurs(e.0).None?)
  }

  // ----- values -----

  lemma {:induction false} UnescapeEscape(v: string)
    ensures Unescape(Escape(v)) == v
  {
    if v != "" {
      UnescapeEscape(v[1..]);
      var rest := Escape(v[1..]);
      if NeedsEscape(v[0]) {
        var s := ['\\', v[0]] + rest;
        assert s[0] == '\\' && s[1] == v[0] && s[2..] == rest;
        assert Unescape(s) == [v[0]] + Unescape(rest);
      } else {
        var s := [v[0]] + rest;
        assert s[0] == v[0] && s[1..] == rest;
        assert Unescape(s) == [v[0]] + Unescape(rest);
      }
      assert v == [v[0]] + v[1..];
    }
  }

  /** Escaping at most doubles the text and adds no line break. */
  lemma {:induction false} EscapeBounds(v: string)
    requires '\n' !in v
    ensures |v| <= |Escape(v)| <= 2 * |v| && '\n' !in Escape(v)
  {
    if v != "" {
      EscapeBounds(v[1..]);
    }
  }

  lemma {:induction false} DigitsEnd(s: string)
    requires s != "" && AllDigits(s)
    ensures IsDigit(s[|s| - 1]) && IsDigit(s[0])
  {
    if |s| > 1 {
      DigitsEnd(s[1..]);
    }
  }

  /** A printed right-hand side starts and ends with something that is not blank. */
  lemma RhsEnds(v: string)
    requires Printable(v)
    ensures Rhs(v) != "" && !IsWs(Rhs(v)[0]) && !IsWs(Rhs(v)[|Rhs(v)| - 1]) && '\n' !in Rhs(v)
    ensures Rhs(v)[|Rhs(v)| - 1] != '='
  {
    if v == "true" || v == "false" {
    } else if IsBareScalar(v) {
      var p := if v[0] == '-' then v[1..] else v;
      DigitsEnd(p);
      assert v[|v| - 1] == p[|p| - 1];
    } else {
      EscapeBounds(v);
      var r := Rhs(v);
      assert r[0] == '"' && r[|r| - 1] == '"';
    }
  }

  /** The reader recovers the value from the text after '='. */
  lemma ValueBack(v: string)
    requires Printable(v)
    ensures ValueOf(" " + Rhs(v)) == v
  {
    hide Escape, Unescape;
    RhsEnds(v);
    var s, r := " " + Rhs(v), Rhs(v);
    assert s[1] == r[0] && SkipWs(s) == 1 && TrimStart(s) == r;
    if v == "true" || v == "false" {
    } else if IsBareScalar(v) {
      var p := if v[0] == '-' then v[1..] else v;
      DigitsEnd(p);
      assert v[0] == '-' || v[0] == p[0];
    } else {
      UnescapeEscape(v);
      assert r[1..] == Escape(v) + "\"";
      assert EndsWith(r[1..], '"') && r[1..|r| - 1] == Escape(v);
    }
  }

  // ----- one scalar line -----

  predicate Indent(s: string) {
    s == "" || s == "  "
  }

  lemma TrimIndent(indent: string, p: string)
    requires Indent(indent) && p != "" && !IsWs(p[0])
    ensures TrimStart(indent + p) == p
  {
    var line := indent + p;
    assert line[|indent|] == p[0];
    assert forall k :: 0 <= k < |indent| ==> line[k] == ' ';
    assert SkipWs(line) == |indent|;
  }

  /** The line without its indentation. */
  lemma LineStart(indent: string, name: string, v: string)
    requires Indent(indent) && NameOk(name) && Printable(v)
    ensures TrimStart(LibLine(indent, name, v)) == LibLine("", name, v)
  {
    hide Rhs, TrimStart, Printable;
    var line, p := LibLine(indent, name, v), LibLine("", name, v);
    assert line == indent + p && p != "" && p[0] == name[0];
    TrimIndent(indent, p);
  }

  /** Where the pieces of an unindented scalar line are. */
  lemma LineParts(name: string, v: string)
    requires NameOk(name) && Printable(v)
    ensures var p := LibLine("", name, v);
            && p != "" && p[0] == name[0] && !StartsComment(p)
            && IndexOf(p, '=') == |name| + 1 < |p| && IndexOf(p, ':') > |name| + 1 && p[|name|] == ' '
            && TrimEnd(p[..|name| + 1]) == name
  {
    var p := LibLine("", name, v);
    assert p[|name|] == ' ' && p[|name| + 1] == '=' && p[0] == name[0];
    assert forall k :: 0 <= k < |name| ==> p[k] == name[k];
    assert |name| > 1 ==> p[1] == name[1];
    var key := p[..|name| + 1];
    assert key[..|key| - 1] == name && key[|key| - 1] == ' ';
  }

  /** The statement without its terminator. */
  lemma BodyEnds(body: string)
    requires body != "" && !IsWs(body[|body| - 1])
    ensures TrimEnd(body) == body && EndsWith(body + ";", ';') && TrimEnd(body + ";") == body + ";" && Statement(body + ";") == body
  {
    var p := body + ";";
    assert p[|p| - 1] == ';' && p[..|p| - 1] == body;
    assert body[..|body|] == body && p[..|p|] == p;
  }

  lemma LinePieces(name: string, r: string)
    requires r != ""
    ensures var body := name + " = " + r;
            && "" + name + " = " + r + ";" == body + ";" && body[|body| - 1] == r[|r| - 1]
            && |name| + 2 <= |body| && body[|name| + 2..] == " " + r
  {
    assert name + " = " + r == (name + " =") + (" " + r);
  }

  lemma LineStatement(name: string, v: string)
    requires NameOk(name) && Printable(v)
    ensures var p := LibLine("", name, v);
            && EndsWith(p, ';') && TrimEnd(p) == p && Statement(p) == name + " = " + Rhs(v)
            && |name| + 2 <= |Statement(p)| && Statement(p)[|name| + 2..] == " " + Rhs(v)
  {
    RhsEnds(v);
    hide Rhs, TrimEnd, Statement, NameOk, Printable, EndsWith;
    LinePieces(name, Rhs(v));
    BodyEnds(name + " = " + Rhs(v));
  }

  /** What the reader does with a scalar line, given where its pieces are. */
  lemma ReadParts(st: Reading, line: string, p: string, n: nat, name: string, v: string)
    requires p == TrimStart(line) && p != "" && !StartsComment(p) && p[0] != '{' && p[0] != '}'
    requires IndexOf(p, '=') == n + 1 < |p| && IndexOf(p, ':') > n + 1 && TrimEnd(p[..n + 1]) == name
    requires n + 2 <= |Statement(p)| && ValueOf(Statement(p)[n + 2..]) == v
    ensures ReadLine(LibconfigFormat, st, line) == StoreScalar(st, name, v)
  {
    assert Meaningful(line);
  }

  /** Where the pieces of a scalar line must be for its classification. */
  predicate ScalarShape(p: string, n: nat, name: string) {
    && p != "" && p == TrimStart(p) && !StartsComment(p) && IndexOf(p, '=') == n + 1 < |p| && p[n] == ' '
    && TrimEnd(p[..n + 1]) == name && EndsWith(TrimEnd(p), ';')
  }

  lemma ShapeOfLine(name: string, v: string)
    requires NameOk(name) && Printable(v)
    ensures ScalarShape(LibLine("", name, v), |name|, name)
  {
    LineStart("", name, v);
    LineParts(name, v);
    LineStatement(name, v);
  }

  lemma ClassifyShape(p: string, n: nat, name: string)
    requires ScalarShape(p, n, name)
    ensures Classify(p) == if IsIdent(name) then Libconfig else Legacy
  {
  }

  /** A printed scalar line reaches the store with its own name and value. */
  lemma ReadScalarText(st: Reading, indent: string, name: string, v: string)
    requires Indent(indent) && NameOk(name) && Printable(v)
    ensures ReadLine(LibconfigFormat, st, LibLine(indent, name, v)) == StoreScalar(st, name, v)
  {
    var line, p := LibLine(indent, name, v), LibLine("", name, v);
    LineStart(indent, name, v);
    LineParts(name, v);
    LineStatement(name, v);
    ValueBack(v);
    ReadParts(st, line, p, |name|, name, v);
  }

  /** ... so it stores its own value, under the key its flattened name stands for, exactly when the value survives. */
  lemma ReadScalar(st: Reading, indent: string, name: string, v: string, key: string)
    requires Indent(indent) && NameOk(name) && Printable(v) && KeyValid(key)
    requires var flat := if st.scope == "" then name else st.scope + "_" + name;
             && |flat| < 2 * KEY_LEN
             && (WoplToOurs(flat) == Some(key) || (WoplToOurs(flat).None? && key == flat))
    ensures ReadLine(LibconfigFormat, st, LibLine(indent, name, v)) ==
            if v == "" then st else st.(entries := SetEntry(st.entries, key, if v == "true" then "1" else if v == "false" then "0" else v))
  {
    ReadScalarText(st, indent, name, v);
  }

  lemma ScalarIsPlain(indent: string, name: string, v: string)
    requires Indent(indent) && NameOk(name) && Printable(v) && name[0] != '#'
    ensures PlainLine(LibLine(indent, name, v))
  {
    var line := LibLine(indent, name, v);
    RhsEnds(v);
    assert line == indent + name + " = " + Rhs(v) + ";";
    assert line[0] == if indent == "" then name[0] else ' ';
  }

  /** An unindented scalar line latches libconfig exactly when its name is an identifier. */
  lemma LatchScalar(name: string, v: string)
    requires NameOk(name) && Printable(v)
    ensures Classify(LibLine("", name, v)) == if IsIdent(name) then Libconfig else Legacy
  {
    ShapeOfLine(name, v);
    ClassifyShape(LibLine("", name, v), |name|, name);
  }
}
