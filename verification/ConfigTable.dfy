/** The wOPL key table: every printed name reads back as the key it stands for (src/config.c). */
module ConfigTable {
  import opened Text
  import opened ConfigStore
  import opened ConfigText

  /** Three characters that tell the table's names apart. */
  function Signature(w: string): nat
    requires |w| >= 3
  {
    w[0] as int * 65536 + w[if |w| > 4 then 4 else |w| - 1] as int * 256 + w[|w| - 2] as int
  }

  function SignatureOf(i: nat): nat
    requires i < ROWS
  {
    match i
    case 0 => 6512993
    case 1 => 6578541
    case 2 => 6512485
    case 3 => 6583137
    case 4 => 6386549
    case 5 => 7745891
    case 6 => 7746147
    case 7 => 6779747
    case 8 => 6776172
    case 9 => 6780516
    case 10 => 6781029
    case 11 => 6781285
    case 12 => 6776425
    case 13 => 6517859
    case 14 => 6517868
    case 15 => 6517860
    case 16 => 6517863
    case 17 => 7368035
    case 18 => 7368044
    case 19 => 7368039
    case 20 => 7364963
    case 21 => 7364967
    case 22 => 7304035
    case 23 => 7300460
    case 24 => 7302249
    case 25 => 7304291
    case _ => 7304804
  }

  function RowOfSignature(n: nat): nat {
    match n
    case 6512993 => 0
    case 6578541 => 1
    case 6512485 => 2
    case 6583137 => 3
    case 6386549 => 4
    case 7745891 => 5
    case 7746147 => 6
    case 6779747 => 7
    case 6776172 => 8
    case 6780516 => 9
    case 6781029 => 10
    case 6781285 => 11
    case 6776425 => 12
    case 6517859 => 13
    case 6517868 => 14
    case 6517860 => 15
    case 6517863 => 16
    case 7368035 => 17
    case 7368044 => 18
    case 7368039 => 19
    case 7364963 => 20
    case 7364967 => 21
    case 7304035 => 22
    case 7300460 => 23
    case 7302249 => 24
    case 7304291 => 25
    case 7304804 => 26
    case _ => ROWS
  }

  function GroupOf(i: nat): string
    requires i < ROWS
  {
    if i < 7 then "" else if i < 13 then "gsm" else if i < 17 then "cheat"
    else if i < 20 then "pademu" else if i < 22 then "padmacro" else "osd"
  }

  /** A table name is a short identifier; a grouped one is also an identifier after "group_". */
  predicate Shape(w: string, signature: nat, g: string) {
    && 3 <= |w| < KEY_LEN && Signature(w) == signature && IsAlpha(w[0])
    && (forall k :: 0 <= k < |w| ==> IsIdentChar(w[k]))
    && if g == "" then
         w[1] != 'h' && w[0] != 'g' && w[0] != 'p' && w[0] != 'o'
       else
         InGroup(w, g) && IsAlpha(w[|g| + 1])
  }

  lemma Rows0To2()
    ensures forall i :: 0 <= i < 3 ==> Shape(Row(i).0, SignatureOf(i), GroupOf(i))
  {
    assert Shape("compat", 6512993, "");
    assert Shape("dma", 6578541, "");
    assert Shape("core_loader", 6512485, "");
  }

  lemma Rows3To5()
    ensures forall i :: 3 <= i < 6 ==> Shape(Row(i).0, SignatureOf(i), GroupOf(i))
  {
    assert Shape("dnas", 6583137, "");
    assert Shape("alt_startup", 6386549, "");
    assert Shape("vmc1", 7745891, "");
  }

  lemma Rows6To8()
    ensures forall i :: 6 <= i < 9 ==> Shape(Row(i).0, SignatureOf(i), GroupOf(i))
  {
    assert Shape("vmc2", 7746147, "");
    assert Shape("gsm_source", 6779747, "gsm");
    assert Shape("gsm_enable", 6776172, "gsm");
  }

  lemma Rows9To11()
    ensures forall i :: 9 <= i < 12 ==> Shape(Row(i).0, SignatureOf(i), GroupOf(i))
  {
    assert Shape("gsm_vmode", 6780516, "gsm");
    assert Shape("gsm_x_offset", 6781029, "gsm");
    assert Shape("gsm_y_offset", 6781285, "gsm");
  }

  lemma Rows12To13()
    ensures forall i :: 12 <= i < 14 ==> Shape(Row(i).0, SignatureOf(i), GroupOf(i))
  {
    assert Shape("gsm_field_fix", 6776425, "gsm");
    assert Shape("cheat_source", 6517859, "cheat");
  }

  lemma Rows14To15()
    ensures forall i :: 14 <= i < 16 ==> Shape(Row(i).0, SignatureOf(i), GroupOf(i))
  {
    assert Shape("cheat_enable", 6517868, "cheat");
    assert Shape("cheat_mode", 6517860, "cheat");
  }

  lemma Row16()
    ensures Shape(Row(16).0, SignatureOf(16), GroupOf(16))
  {
    assert Shape("cheat_enable_image", 6517863, "cheat");
  }

  lemma Row17()
    ensures Shape(Row(17).0, SignatureOf(17), GroupOf(17))
  {
    assert Shape("pademu_source", 7368035, "pademu");
  }

  lemma Rows18To19()
    ensures forall i :: 18 <= i < 20 ==> Shape(Row(i).0, SignatureOf(i), GroupOf(i))
  {
    assert Shape("pademu_enable", 7368044, "pademu");
    assert Shape("pademu_settings", 7368039, "pademu");
  }

  lemma Row20()
    ensures forall i :: 20 <= i < 21 ==> Shape(Row(i).0, SignatureOf(i), GroupOf(i))
  {
    assert Shape("padmacro_source", 7364963, "padmacro");
  }

  lemma Row21()
    ensures Shape(Row(21).0, SignatureOf(21), GroupOf(21))
  {
    assert Shape("padmacro_settings", 7364967, "padmacro");
  }

  lemma Row22()
    ensures Shape(Row(22).0, SignatureOf(22), GroupOf(22))
  {
    assert Shape("osd_source", 7304035, "osd");
  }

  lemma Rows23To24()
    ensures forall i :: 23 <= i < 25 ==> Shape(Row(i).0, SignatureOf(i), GroupOf(i))
  {
    assert Shape("osd_enable", 7300460, "osd");
    assert Shape("osd_lang_id", 7302249, "osd");
  }

  lemma Rows25To26()
    ensures forall i :: 25 <= i < 27 ==> Shape(Row(i).0, SignatureOf(i), GroupOf(i))
  {
    assert Shape("osd_tv_aspect", 7304291, "osd");
    assert Shape("osd_vmode", 7304804, "osd");
  }

  lemma ShapeOf(i: nat)
    requires i < ROWS
    ensures Shape(Row(i).0, SignatureOf(i), GroupOf(i))
  {
    Rows0To2();
    Rows3To5();
    Rows6To8();
    Rows9To11();
    Rows12To13();
    Rows14To15();
    Row16();
    Row17();
    Rows18To19();
    Row20();
    Row21();
    Row22();
    Rows23To24();
    Rows25To26();
  }

  /** The prefixes of the five groups exclude each other and the root names. */
  lemma GroupFound(w: string, signature: nat, g: string)
    requires Shape(w, signature, g) && (g == "" || g in GROUPS)
    ensures MatchGroup(w) == if g == "" then None else Some(g)
  {
    assert "gsm"[0] == 'g' && "cheat"[0] == 'c' && "cheat"[1] == 'h' && "osd"[0] == 'o';
    assert "pademu"[0] == 'p' && "pademu"[3] == 'e' && "padmacro"[0] == 'p' && "padmacro"[3] == 'm';
    assert g != "" ==> w[0] == g[0];
    assert |g| > 3 ==> w[3] == g[3];
  }

  lemma SignaturesDiffer(i: nat)
    requires i < ROWS
    ensures RowOfSignature(SignatureOf(i)) == i
  {
  }

  lemma {:induction false} FindRow(key: string, i: nat, from: nat)
    requires from <= i < ROWS && key == Row(i).0
    requires forall j :: from <= j < i ==> Row(j).0 != key
    ensures WoplToOursFrom(from, key) == Some(Row(i).1)
    decreases i - from
  {
    if from < i {
      FindRow(key, i, from + 1);
    }
  }

  /** No two rows share a printed name. */
  lemma NamesDiffer(i: nat, j: nat)
    requires i < ROWS && j < ROWS && i != j
    ensures Row(i).0 != Row(j).0
  {
    ShapeOf(i);
    ShapeOf(j);
    SignaturesDiffer(i);
    SignaturesDiffer(j);
  }

  /** Each printed name is found at its own row. */
  lemma RowFound(i: nat)
    requires i < ROWS
    ensures WoplToOurs(Row(i).0) == Some(Row(i).1)
  {
    forall j | 0 <= j < i
      ensures Row(j).0 != Row(i).0
    {
      NamesDiffer(i, j);
    }
    FindRow(Row(i).0, i, 0);
  }

  /** A key of ours that the table lists is printed as an identifier that reads back as that key. */
  lemma TableInverse(key: string)
    requires OursToWopl(key).Some?
    ensures var w := OursToWopl(key).value;
            && |w| < KEY_LEN && IsIdent(w) && WoplToOurs(w) == Some(key)
            && (MatchGroup(w).Some? ==> var g := MatchGroup(w).value; g in GROUPS && InGroup(w, g) && IsIdentFrom(w, |g| + 1))
  {
    var r := RowOfOurs(0, key);
    ShapeOf(r);
    RowFound(r);
    GroupFound(Row(r).0, SignatureOf(r), GroupOf(r));
  }

  /** A grouped name is its group, an underscore and the rest. */
  lemma GroupSplits(w: string, g: string)
    requires InGroup(w, g)
    ensures w == g + "_" + w[|g| + 1..]
  {
    assert w == w[..|g|] + [w[|g|]] + w[|g| + 1..] && w[..|g|] == g;
  }
}
