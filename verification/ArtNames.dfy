/** Names in the art index: hashing, path splitting and the two searches (src/artindex.c). */
module ArtNames {
  import opened Text

  const DIR_MAX := 192

  const FNV_BASIS := 2166136261
  const FNV_PRIME := 16777619

  /** Exclusive or of the low `bits` bits. */
  function Xor(a: nat, b: nat, bits: nat): nat {
    if bits == 0 then 0 else (a + b) % 2 + 2 * Xor(a / 2, b / 2, bits - 1)
  }

  function Bit(n: nat, i: nat): nat {
    if i == 0 then n % 2 else Bit(n / 2, i - 1)
  }

  lemma LowBit(d: nat, x: nat, i: nat)
    requires d < 2
    ensures Bit(d + 2 * x, i) == if i == 0 then d else Bit(x, i - 1)
  {
    assert (d + 2 * x) / 2 == x && (d + 2 * x) % 2 == d;
  }

  lemma BitFirst(n: nat)
    ensures Bit(n, 0) == n % 2
  {
  }

  lemma BitNext(n: nat, i: nat)
    requires i > 0
    ensures Bit(n, i) == Bit(n / 2, i - 1)
  {
  }

  /** Bit by bit, the result is set exactly where the operands differ, and it has no further bits. */
  lemma {:induction false} XorBits(a: nat, b: nat, bits: nat, i: nat)
    ensures Bit(Xor(a, b, bits), i) == if i < bits && Bit(a, i) != Bit(b, i) then 1 else 0
    decreases bits
  {
    hide Bit;
    if bits == 0 {
      ZeroBits(i);
    } else {
      var x := Xor(a / 2, b / 2, bits - 1);
      assert Xor(a, b, bits) == (a + b) % 2 + 2 * x;
      LowBit((a + b) % 2, x, i);
      if i > 0 {
        XorBits(a / 2, b / 2, bits - 1, i - 1);
        BitNext(a, i);
        BitNext(b, i);
      } else {
        BitFirst(a);
        BitFirst(b);
      }
    }
  }

  lemma ZeroBits(i: nat)
    ensures Bit(0, i) == 0
  {
  }

  /** One FNV-1a round over a byte, in 32-bit arithmetic. */
  function FnvStep(h: nat, byte: nat): nat {
    (h / 256 * 256 + Xor(h % 256, byte, 8)) * FNV_PRIME % 0x1_0000_0000
  }

  /** The hash of the uppercased name, continued from h. */
  function HashFrom(h: nat, s: string): nat
    decreases s
  {
    if s == "" then h else HashFrom(FnvStep(h, Upper(s[0]) as int % 256), s[1..])
  }

  function Hash(s: string): nat {
    HashFrom(FNV_BASIS, s)
  }

  /** The published FNV-1a hash of "A", which is also that of "a" here. */
  lemma HashOfA()
    ensures Hash("a") == 0xC40BF6CC
  {
    hide HashFrom, FnvStep, Xor;
    assert Upper('a') == 'A' && 'A' as int % 256 == 0x41;
    HashOne(FNV_BASIS, 'a');
    FirstStep();
  }

  lemma HashOne(h: nat, c: char)
    ensures HashFrom(h, [c]) == FnvStep(h, Upper(c) as int % 256)
  {
    hide FnvStep;
    assert [c][1..] == "";
    assert HashFrom(FnvStep(h, Upper(c) as int % 256), "") == FnvStep(h, Upper(c) as int % 256);
  }

  lemma FirstStep()
    ensures FnvStep(FNV_BASIS, 0x41) == 0xC40BF6CC
  {
    hide Xor;
    XorC5();
    assert FNV_BASIS % 256 == 0xC5 && FNV_BASIS / 256 * 256 == 0x811C9D00;
    assert 0x811C9D84 * FNV_PRIME == 0x811D68C40BF6CC;
  }

  lemma XorC5()
    ensures Xor(0xC5, 0x41, 8) == 0x84
  {
    assert Xor(0x3, 0x1, 2) == 2;
    assert Xor(0xC, 0x4, 4) == 8;
    assert Xor(0x31, 0x10, 6) == 0x21;
  }

  /** artIndexHashN as it runs: a moving pointer and a running hash. */
  method HashN(s: string) returns (h: nat)
    ensures h == Hash(s)
  {
    h := FNV_BASIS;
    var i := 0;
    while i < |s|
      invariant 0 <= i <= |s|
      invariant HashFrom(h, s[i..]) == HashFrom(FNV_BASIS, s)
    {
      h := FnvStep(h, Upper(s[i]) as int % 256);
      assert s[i..][1..] == s[i + 1..];
      i := i + 1;
    }
  }

  lemma {:induction false} HashFromFolds(h: nat, a: string, b: string)
    requires EqFold(a, b)
    ensures HashFrom(h, a) == HashFrom(h, b)
    decreases |a|
  {
    if a != "" {
      assert Lower(a[0]) == Lower(b[0]);
      assert Upper(a[0]) == Upper(b[0]);
      HashFromFolds(FnvStep(h, Upper(a[0]) as int % 256), a[1..], b[1..]);
    }
  }

  /** Two names that differ only in ASCII letter case hash alike: the index cannot tell them apart. */
  lemma HashFolds(a: string, b: string)
    requires EqFold(a, b)
    ensures Hash(a) == Hash(b)
  {
    HashFromFolds(FNV_BASIS, a, b);
  }

  /** artIndexSplit: the directory and base name of a path, or None when it cannot name a directory. */
  function Split(path: string): (r: Option<(string, string)>) {
    var slash := LastIndexOf(path, '/');
    var colon := IndexOf(path, ':');
    if slash < 0 && colon == |path| then None else
      var cut := if slash >= 0 then slash else colon + 1;
      var base := if slash >= 0 then path[slash + 1..] else path[cut..];
      if cut == 0 || cut >= DIR_MAX || base == "" then None else Some((path[..cut], base))
  }

  /** The two halves rebuild the path and the base names no further directory. */
  lemma SplitRebuilds(path: string)
    requires Split(path).Some?
    ensures var (dir, base) := Split(path).value;
            && 0 < |dir| < DIR_MAX && base != "" && '/' !in base
            && Joins(path, dir, base)
  {
    var slash := LastIndexOf(path, '/');
    if slash >= 0 {
      assert path == path[..slash] + [path[slash]] + path[slash + 1..];
    }
  }

  /** A path is split exactly when it names a directory of 1 to 191 characters, up to its last slash or else its first colon, and a base. */
  lemma SplitsWhen(path: string)
    ensures Split(path).Some? <==>
            exists dir, base :: 0 < |dir| < DIR_MAX && base != "" && '/' !in base && Joins(path, dir, base)
  {
    hide Split, Joins;
    if Split(path).Some? {
      SplitRebuilds(path);
      var (dir, base) := Split(path).value;
      assert Joins(path, dir, base);
    }
    if dir, base :| 0 < |dir| < DIR_MAX && base != "" && '/' !in base && Joins(path, dir, base) {
      JoinedSplits(path, dir, base);
    }
  }

  lemma JoinedSplits(path: string, dir: string, base: string)
    requires 0 < |dir| < DIR_MAX && base != "" && '/' !in base && Joins(path, dir, base)
    ensures Split(path) == Some((dir, base))
  {
    var slash, colon := LastIndexOf(path, '/'), IndexOf(path, ':');
    if '/' in path {
      assert path[|dir|] == '/' && forall k :: |dir| < k < |path| ==> path[k] == base[k - |dir| - 1];
      assert slash == |dir|;
      assert path[..slash] == dir && path[slash + 1..] == base;
    } else {
      assert slash < 0;
      assert path[|dir| - 1] == ':' && forall k :: 0 <= k < |dir| - 1 ==> path[k] == dir[..|dir| - 1][k];
      assert colon == |dir| - 1;
      assert path[..|dir|] == dir && path[|dir|..] == base;
    }
  }

  /** path is base in dir: after a slash, or right after the colon of a device name. */
  predicate Joins(path: string, dir: string, base: string) {
    if '/' in path then path == dir + "/" + base
    else path == dir + base && EndsWith(dir, ':') && ':' !in dir[..|dir| - 1]
  }

  /** The path artIndexFindPicture writes out for a name in dir. */
  function OutPath(dir: string, name: string): string {
    dir + (if EndsWith(dir, ':') then "" else "/") + name
  }

  /** It has the form of the stem asked for, except that a slash right after a colon is left out. */
  lemma OutPathForm(path: string)
    requires Split(path).Some?
    ensures var (dir, base) := Split(path).value;
            if EndsWith(dir, ':') && '/' in path then path == dir + "/" + base && OutPath(dir, base) == dir + base
            else OutPath(dir, base) == path
  {
    SplitRebuilds(path);
  }

  /** The two callers' gate: backslash, SMB and UDPFS paths are never answered from the index. */
  predicate Indexable(path: string) {
    path != "" && '\\' !in path && !("smb" <= path) && !("udpfs" <= path) && Split(path).Some?
  }

  /** artIndexPictureExt: where a picture's extension starts, or -1. */
  function PictureExt(name: string): (dot: int)
    ensures dot == -1 || 0 < dot < |name|
  {
    var dot := LastIndexOf(name, '.');
    if dot <= 0 then -1
    else if EqFold(name[dot..], ".png") || EqFold(name[dot..], ".jpg") || EqFold(name[dot..], ".jpeg") then dot
    else -1
  }

  datatype Pic = Pic(hash: nat, name: string)

  predicate Sorted(hs: seq<nat>) {
    forall i, j :: 0 <= i < j < |hs| ==> hs[i] <= hs[j]
  }

  predicate PicsSorted(ps: seq<Pic>) {
    forall i, j :: 0 <= i < j < |ps| ==> ps[i].hash <= ps[j].hash
  }

  /** What the sweep stores for a picture: the hash of its name without the extension. */
  predicate PicOk(p: Pic) {
    PictureExt(p.name) > 0 && p.hash == Hash(p.name[..PictureExt(p.name)])
  }

  /** "base plus one picture extension", any letter case. */
  predicate IsPictureOf(name: string, base: string) {
    |base| < |name| && EqFold(name[..|base|], base) && name[|base|] == '.' && '.' !in name[|base| + 1..]
  }

  predicate IsPicture(name: string, base: string) {
    IsPictureOf(name, base) && PictureExt(name) > 0
  }

  /** A listed picture that matches is the base in any letter case followed by one of the three extensions in any case. */
  lemma PictureNames(name: string, base: string)
    requires base != ""
    ensures IsPicture(name, base) <==>
            && |base| < |name| && EqFold(name[..|base|], base)
            && (EqFold(name[|base|..], ".png") || EqFold(name[|base|..], ".jpg") || EqFold(name[|base|..], ".jpeg"))
  {
    if |base| < |name| {
      var ext := name[|base|..];
      assert forall k :: |base| <= k < |name| ==> name[k] == ext[k - |base|];
      assert forall k :: |base| < k < |name| ==> name[k] == name[|base| + 1..][k - |base| - 1];
      var dot := LastIndexOf(name, '.');
      if IsPictureOf(name, base) {
        assert dot == |base|;
      }
      if EqFold(ext, ".png") || EqFold(ext, ".jpg") || EqFold(ext, ".jpeg") {
        NoDotAfter(ext);
        assert dot == |base|;
      }
    }
  }

  lemma NoDotAfter(ext: string)
    requires EqFold(ext, ".png") || EqFold(ext, ".jpg") || EqFold(ext, ".jpeg")
    ensures ext[0] == '.' && '.' !in ext[1..]
  {
    var e := if EqFold(ext, ".png") then ".png" else if EqFold(ext, ".jpg") then ".jpg" else ".jpeg";
    assert Lower(ext[0]) == Lower(e[0]);
    forall k | 0 <= k < |ext| - 1
      ensures ext[1..][k] != '.'
    {
      assert Lower(ext[k + 1]) == Lower(e[k + 1]);
    }
  }

  predicate IsPng(name: string, base: string) {
    |base| <= |name| && EqFold(name[|base|..], ".png")
  }

  /** What artIndexFindPicture may pick: nothing only if no listed picture matches; a PNG if one matches. */
  ghost predicate PictureResult(ps: seq<Pic>, base: string, best: Option<string>) {
    match best
    case None => forall p :: p in ps ==> !IsPictureOf(p.name, base)
    case Some(n) =>
      && (exists p :: p in ps && p.name == n && IsPictureOf(n, base))
      && (IsPng(n, base) || forall p :: p in ps && IsPictureOf(p.name, base) ==> !IsPng(p.name, base))
  }

  /** artIndexMayExist's search: exact membership by bisection. */
  method MayHold(hashes: seq<nat>, want: nat) returns (hit: bool)
    requires Sorted(hashes)
    ensures hit <==> want in hashes
  {
    var lo, hi := 0, |hashes| - 1;
    while lo <= hi
      invariant 0 <= lo && hi < |hashes| && lo <= hi + 1
      invariant forall i :: 0 <= i < lo ==> hashes[i] < want
      invariant forall i :: hi < i < |hashes| ==> hashes[i] > want
    {
      var mid := lo + (hi - lo) / 2;
      var got := hashes[mid];
      if got == want {
        return true;
      }
      if got < want {
        lo := mid + 1;
      } else {
        hi := mid - 1;
      }
    }
    return false;
  }

  /** A picture of base carries the hash the search looks for. */
  lemma PictureHash(p: Pic, base: string)
    requires PicOk(p) && IsPictureOf(p.name, base)
    ensures p.hash == Hash(base)
  {
    assert forall k :: |base| < k < |p.name| ==> p.name[k] == p.name[|base| + 1..][k - |base| - 1];
    HashFolds(p.name[..|base|], base);
  }

  /** The first picture whose hash is not below want. */
  method LowerBound(ps: seq<Pic>, want: nat) returns (lo: nat)
    requires PicsSorted(ps)
    ensures lo <= |ps|
    ensures forall i :: 0 <= i < lo ==> ps[i].hash < want
    ensures forall i :: lo <= i < |ps| ==> ps[i].hash >= want
  {
    lo := 0;
    var hi := |ps|;
    while lo < hi
      invariant 0 <= lo <= hi <= |ps|
      invariant forall i :: 0 <= i < lo ==> ps[i].hash < want
      invariant forall i :: hi <= i < |ps| ==> ps[i].hash >= want
    {
      var mid := lo + (hi - lo) / 2;
      if ps[mid].hash < want {
        lo := mid + 1;
      } else {
        hi := mid;
      }
    }
  }

  /** artIndexFindPicture's search: lower bound by bisection, then a scan of the equal-hash run. */
  method FindPicture(ps: seq<Pic>, base: string) returns (best: Option<string>)
    requires PicsSorted(ps) && forall p :: p in ps ==> PicOk(p)
    ensures PictureResult(ps, base, best)
  {
    var want := HashN(base);
    var lo := LowerBound(ps, want);
    OnlyWantedHashMatches(ps, base);
    best := None;
    while lo < |ps| && ps[lo].hash == want
      invariant 0 <= lo <= |ps|
      invariant forall i :: lo <= i < |ps| ==> ps[i].hash >= want
      invariant PictureResult(ps[..lo], base, best)
    {
      var name := ps[lo].name;
      ghost var was := best;
      if IsPictureOf(name, base) && (best.None? || IsPng(name, base)) {
        best := Some(name);
      }
      ExtendScan(ps, lo, base, was, best);
      lo := lo + 1;
    }
    RestDoesNotMatch(ps, lo, want, base, best);
  }

  lemma OnlyWantedHashMatches(ps: seq<Pic>, base: string)
    requires forall p :: p in ps ==> PicOk(p)
    ensures forall i :: 0 <= i < |ps| && IsPictureOf(ps[i].name, base) ==> ps[i].hash == Hash(base)
  {
    forall i | 0 <= i < |ps| && IsPictureOf(ps[i].name, base)
      ensures ps[i].hash == Hash(base)
    {
      PictureHash(ps[i], base);
    }
  }

  /** One iteration of the scan keeps its result relation. */
  lemma ExtendScan(ps: seq<Pic>, lo: nat, base: string, was: Option<string>, best: Option<string>)
    requires lo < |ps| && PictureResult(ps[..lo], base, was)
    requires best == if IsPictureOf(ps[lo].name, base) && (was.None? || IsPng(ps[lo].name, base))
                     then Some(ps[lo].name) else was
    ensures PictureResult(ps[..lo + 1], base, best)
  {
    assert ps[..lo + 1] == ps[..lo] + [ps[lo]];
    assert ps[lo] in ps[..lo + 1];
    assert forall q :: q in ps[..lo] ==> q in ps[..lo + 1];
    assert forall q :: q in ps[..lo + 1] ==> q in ps[..lo] || q == ps[lo];
  }

  /** Past the equal-hash run nothing matches, so the scanned part decides. */
  lemma RestDoesNotMatch(ps: seq<Pic>, lo: nat, want: nat, base: string, best: Option<string>)
    requires lo <= |ps| && PicsSorted(ps) && (lo < |ps| ==> ps[lo].hash != want)
    requires forall i :: lo <= i < |ps| ==> ps[i].hash >= want
    requires forall i :: 0 <= i < |ps| && IsPictureOf(ps[i].name, base) ==> ps[i].hash == want
    requires PictureResult(ps[..lo], base, best)
    ensures PictureResult(ps, base, best)
  {
    forall p | p in ps && IsPictureOf(p.name, base)
      ensures p in ps[..lo]
    {
      var i :| 0 <= i < |ps| && ps[i] == p;
      assert i < lo;
    }
  }
}
