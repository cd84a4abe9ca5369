/** Identity of applications by their startup path (src/appsupport.c). */
module AppKeys {
  import opened Text

  predicate IsSep(c: char) {
    c == '/' || c == '\\'
  }

  /** A character as the comparison sees it. */
  function Fold(c: char): char {
    if IsSep(c) then '/' else Lower(c)
  }

  /** Past a run of separators. */
  function SepEnd(s: string, i: nat): (j: nat)
    requires i <= |s|
    ensures i <= j <= |s| && (j < |s| ==> !IsSep(s[j])) && forall k :: i <= k < j ==> IsSep(s[k])
    decreases |s| - i
  {
    if i < |s| && IsSep(s[i]) then SepEnd(s, i + 1) else i
  }

  function Next(s: string, i: nat): (j: nat)
    requires i < |s|
    ensures i < j <= |s|
  {
    if IsSep(s[i]) then SepEnd(s, i + 1) else i + 1
  }

  /** The normal form: folded, with every run of separators written as one. */
  function Norm(s: string, i: nat): string
    requires i <= |s|
    decreases |s| - i
  {
    if i == |s| then "" else [Fold(s[i])] + Norm(s, Next(s, i))
  }

  /** Equal startups; the empty one is no identity, not even with itself. */
  predicate SameApp(a: string, b: string) {
    a != "" && b != "" && Norm(a, 0) == Norm(b, 0)
  }

  lemma NormStep(a: string, i: nat, b: string, j: nat)
    requires i < |a| && j < |b|
    ensures Norm(a, i) == Norm(b, j) <==> Fold(a[i]) == Fold(b[j]) && Norm(a, Next(a, i)) == Norm(b, Next(b, j))
  {
    hide Fold, Next;
    var m, n := Norm(a, Next(a, i)), Norm(b, Next(b, j));
    assert ([Fold(a[i])] + m)[1..] == m && ([Fold(b[j])] + n)[1..] == n;
    assert ([Fold(a[i])] + m)[0] == Fold(a[i]) && ([Fold(b[j])] + n)[0] == Fold(b[j]);
  }

  method SkipSeps(s: string, start: nat) returns (i: nat)
    requires start <= |s|
    ensures i == SepEnd(s, start)
  {
    i := start;
    while i < |s| && IsSep(s[i])
      invariant start <= i <= |s| && SepEnd(s, i) == SepEnd(s, start)
    {
      i := i + 1;
    }
  }

  /** appStartupKeyEqual is equality of normal forms. */
  method StartupKeyEqual(a: string, b: string) returns (same: bool)
    ensures same == SameApp(a, b)
  {
    hide SepEnd;
    if a == "" || b == "" {
      return false;
    }
    var i, j := 0, 0;
    while i < |a| && j < |b|
      invariant 0 <= i <= |a| && 0 <= j <= |b|
      invariant Norm(a, i) == Norm(b, j) <==> Norm(a, 0) == Norm(b, 0)
      decreases |a| - i
    {
      hide Norm;
      NormStep(a, i, b, j);
      if Fold(a[i]) != Fold(b[j]) {
        return false;
      }
      var sep := Fold(a[i]) == '/';
      i, j := i + 1, j + 1;
      if sep {
        i := SkipSeps(a, i);
        j := SkipSeps(b, j);
      }
    }
    same := i == |a| && j == |b|;
  }

  // ----- the relation -----

  lemma SameAppIsPartialEquivalence(a: string, b: string, c: string)
    ensures SameApp(a, a) <==> a != ""
    ensures SameApp(a, b) ==> SameApp(b, a)
    ensures SameApp(a, b) && SameApp(b, c) ==> SameApp(a, c)
  {
  }

  /** A whole path is in normal form: folded and without two separators in a row. */
  ghost predicate Normal(s: string) {
    (forall i :: 0 <= i < |s| ==> s[i] == Fold(s[i])) && forall i :: 0 < i < |s| ==> s[i] != '/' || s[i - 1] != '/'
  }

  /** Normal forms are normal, and start with a separator only when the text does. */
  lemma {:induction false} NormIsNormal(s: string, i: nat)
    requires i <= |s|
    ensures Normal(Norm(s, i))
    ensures i < |s| ==> Norm(s, i) != "" && Norm(s, i)[0] == Fold(s[i])
    decreases |s| - i
  {
    if i < |s| {
      NormIsNormal(s, Next(s, i));
    }
  }

  /** Paths in normal form are their own, so they are the same only when equal. */
  lemma {:induction false} NormalIsFixed(s: string, i: nat)
    requires i <= |s| && Normal(s)
    ensures Norm(s, i) == s[i..]
    decreases |s| - i
  {
    if i < |s| {
      assert Next(s, i) == i + 1;
      NormalIsFixed(s, i + 1);
    }
  }

  /** Normalizing changes no identity and nothing the second time. */
  lemma NormIdempotent(s: string)
    ensures Norm(Norm(s, 0), 0) == Norm(s, 0)
    ensures SameApp(s, Norm(s, 0)) <==> s != ""
  {
    NormIsNormal(s, 0);
    NormalIsFixed(Norm(s, 0), 0);
  }

  // ----- what does not differentiate -----

  /** Character by character the same but for letter case and the kind of separator. */
  predicate Similar(a: string, b: string) {
    |a| == |b| && forall i :: 0 <= i < |a| ==> Lower(a[i]) == Lower(b[i]) || (IsSep(a[i]) && IsSep(b[i]))
  }

  lemma {:induction false} SimilarSepEnd(a: string, b: string, i: nat)
    requires Similar(a, b) && i <= |a|
    ensures SepEnd(a, i) == SepEnd(b, i)
    decreases |a| - i
  {
    if i < |a| {
      SimilarSepEnd(a, b, i + 1);
    }
  }

  lemma {:induction false} SimilarNorm(a: string, b: string, i: nat)
    requires Similar(a, b) && i <= |a|
    ensures Norm(a, i) == Norm(b, i)
    decreases |a| - i
  {
    if i < |a| {
      SimilarSepEnd(a, b, i + 1);
      SimilarNorm(a, b, Next(a, i));
    }
  }

  /** No two separators in a row. */
  predicate Single(s: string) {
    forall i :: 0 < i < |s| ==> !IsSep(s[i - 1]) || !IsSep(s[i])
  }

  lemma {:induction false} SingleNorm(s: string, i: nat)
    requires Single(s) && i <= |s|
    ensures |Norm(s, i)| == |s| - i && forall k :: i <= k < |s| ==> Norm(s, i)[k - i] == Fold(s[k])
    decreases |s| - i
  {
    hide Fold;
    if i < |s| {
      assert Next(s, i) == i + 1;
      SingleNorm(s, i + 1);
    }
  }

  /** Paths that differ only in letter case and in '/' for '\\' are the same; with single separators, only those are. */
  lemma CaseAndSlashes(a: string, b: string)
    ensures Similar(a, b) && a != "" ==> SameApp(a, b)
    ensures Single(a) && Single(b) && SameApp(a, b) ==> Similar(a, b)
    ensures EqFold(a, b) && a != "" ==> SameApp(a, b)
  {
    if Similar(a, b) {
      SimilarNorm(a, b, 0);
    }
    if Single(a) && Single(b) && SameApp(a, b) {
      SingleNorm(a, 0);
      SingleNorm(b, 0);
      forall i | 0 <= i < |a|
        ensures Lower(a[i]) == Lower(b[i]) || (IsSep(a[i]) && IsSep(b[i]))
      {
        assert Norm(a, 0)[i - 0] == Fold(a[i]) && Norm(b, 0)[i - 0] == Fold(b[i]);
      }
    }
  }

  /** What comes before does not change how the rest is read. */
  lemma {:induction false} SepEndAfter(x: string, y: string, i: nat)
    requires i <= |y|
    ensures SepEnd(x + y, |x| + i) == |x| + SepEnd(y, i)
    decreases |y| - i
  {
    if i < |y| {
      assert (x + y)[|x| + i] == y[i];
      SepEndAfter(x, y, i + 1);
    }
  }

  lemma NextAfter(x: string, y: string, i: nat)
    requires i < |y|
    ensures (x + y)[|x| + i] == y[i] && Next(x + y, |x| + i) == |x| + Next(y, i)
  {
    hide SepEnd;
    assert (x + y)[|x| + i] == y[i];
    SepEndAfter(x, y, i + 1);
  }

  lemma NormUnfold(s: string, i: nat)
    requires i < |s|
    ensures Norm(s, i) == [Fold(s[i])] + Norm(s, Next(s, i))
  {
  }

  lemma NormEnd(s: string)
    ensures Norm(s, |s|) == ""
  {
  }

  lemma {:induction false} NormAfter(x: string, y: string, i: nat)
    requires i <= |y|
    ensures Norm(x + y, |x| + i) == Norm(y, i)
    decreases |y| - i
  {
    hide Norm, Next, Fold;
    if i < |y| {
      NextAfter(x, y, i);
      NormAfter(x, y, Next(y, i));
      NormUnfold(x + y, |x| + i);
      NormUnfold(y, i);
    } else {
      NormEnd(x + y);
      NormEnd(y);
    }
  }

  /** From inside x, the separators run through the run in the middle when only separators are left of x. */
  lemma {:induction false} SepEndThrough(x: string, run: string, y: string, i: nat)
    requires i <= |x| && IsRun(run)
    ensures SepEnd(x + run + y, i) == if SepEnd(x, i) == |x| then |x| + |run| + SepEnd(y, 0) else SepEnd(x, i)
    decreases |x| - i
  {
    var t := x + run + y;
    if i == |x| {
      SepEndRunThen(x, run, y, 0);
    } else {
      assert t[i] == x[i];
      if IsSep(x[i]) {
        SepEndThrough(x, run, y, i + 1);
      }
    }
  }

  lemma {:induction false} SepEndRunThen(x: string, run: string, y: string, i: nat)
    requires i <= |run| && IsRun(run)
    ensures SepEnd(x + run + y, |x| + i) == |x| + |run| + SepEnd(y, 0)
    decreases |run| - i
  {
    if i == |run| {
      SepEndAfter(x + run, y, 0);
    } else {
      assert (x + run + y)[|x| + i] == run[i];
      SepEndRunThen(x, run, y, i + 1);
    }
  }

  lemma {:induction false} NormThrough(x: string, r1: string, r2: string, y: string, i: nat)
    requires i <= |x| && IsRun(r1) && IsRun(r2)
    ensures Norm(x + r1 + y, i) == Norm(x + r2 + y, i)
    decreases |x| - i
  {
    hide Fold, Norm, Next;
    var t1, t2, lead := x + r1 + y, x + r2 + y, SepEnd(y, 0);
    NormAfter(x + r1, y, lead);
    NormAfter(x + r2, y, lead);
    NextThrough(x, r1, y, i);
    NextThrough(x, r2, y, i);
    assert Fold(t1[i]) == Fold(t2[i]) by {
      RunFolds(x, r1, y, i);
      RunFolds(x, r2, y, i);
    }
    if i < |x| && !(IsSep(x[i]) && SepEnd(x, i + 1) == |x|) {
      NormThrough(x, r1, r2, y, Next(x, i));
    }
    NormStep(t1, i, t2, i);
  }

  lemma RunFolds(x: string, run: string, y: string, i: nat)
    requires i <= |x| && IsRun(run)
    ensures Fold((x + run + y)[i]) == if i == |x| then '/' else Fold(x[i])
  {
    assert (x + run + y)[i] == if i < |x| then x[i] else run[0];
  }

  lemma NextThrough(x: string, run: string, y: string, i: nat)
    requires i <= |x| && IsRun(run)
    ensures Next(x + run + y, i) ==
            if i == |x| || (IsSep(x[i]) && SepEnd(x, i + 1) == |x|) then |x| + |run| + SepEnd(y, 0) else Next(x, i)
  {
    hide SepEnd;
    var t := x + run + y;
    if i < |x| {
      assert t[i] == x[i];
      SepEndThrough(x, run, y, i + 1);
    } else {
      assert t[i] == run[0];
      SepEndRunThen(x, run, y, 1);
    }
  }

  /** Anywhere in a path, one run of separators may stand for another. */
  lemma RunsAreAlike(x: string, r1: string, r2: string, y: string)
    requires IsRun(r1) && IsRun(r2)
    ensures SameApp(x + r1 + y, x + r2 + y)
  {
    NormThrough(x, r1, r2, y, 0);
  }

  // ----- trailing separators -----

  /** One or more separators. */
  predicate IsRun(run: string) {
    run != "" && forall i :: 0 <= i < |run| ==> IsSep(run[i])
  }

  lemma NextTrailing(s: string, run: string, i: nat)
    requires i < |s| && IsRun(run)
    ensures var closing := IsSep(s[i]) && Next(s, i) == |s|;
            && Next(s + run, i) == (if closing then |s| + |run| else Next(s, i))
            && (closing ==> IsSep(s[|s| - 1])) && (!closing && Next(s, i) == |s| ==> !IsSep(s[|s| - 1]))
  {
    if IsSep(s[i]) {
      SepEndTrailing(s, run, i + 1);
    }
  }

  lemma {:induction false} SepEndTrailing(s: string, run: string, i: nat)
    requires i <= |s| && IsRun(run)
    ensures SepEnd(s + run, i) == if SepEnd(s, i) == |s| then |s| + |run| else SepEnd(s, i)
    decreases |s| - i
  {
    if i == |s| {
      SepEndRun(s + run, i);
    } else if IsSep(s[i]) {
      SepEndTrailing(s, run, i + 1);
    }
  }

  lemma {:induction false} SepEndRun(t: string, i: nat)
    requires i <= |t| && forall k :: i <= k < |t| ==> IsSep(t[k])
    ensures SepEnd(t, i) == |t|
    decreases |t| - i
  {
    if i < |t| {
      SepEndRun(t, i + 1);
    }
  }

  lemma {:induction false} NormTrailing(s: string, run: string, i: nat)
    requires i <= |s| && IsRun(run)
    ensures Norm(s + run, i) == if i < |s| && IsSep(s[|s| - 1]) then Norm(s, i) else Norm(s, i) + "/"
    decreases |s| - i
  {
    hide Next, IsSep;
    var t := s + run;
    assert Norm(t, |t|) == "" && Norm(s, |s|) == "";
    if i == |s| {
      RunIsOne(s, run);
    } else {
      hide Fold;
      NextTrailing(s, run, i);
      assert t[i] == s[i];
      var n, c := Next(s, i), [Fold(s[i])];
      assert Norm(t, i) == c + Norm(t, Next(t, i)) && Norm(s, i) == c + Norm(s, n);
      if Next(t, i) == n {
        NormTrailing(s, run, n);
        assert c + (Norm(s, n) + "/") == c + Norm(s, n) + "/";
      }
    }
  }

  /** A run of separators at the end is one separator. */
  lemma RunIsOne(s: string, run: string)
    requires IsRun(run)
    ensures Norm(s + run, |s|) == "/"
  {
    var t := s + run;
    assert t[|s|] == run[0] && Fold(run[0]) == '/' && forall k :: |s| <= k < |t| ==> t[k] == run[k - |s|];
    SepEndRun(t, |s| + 1);
    assert Norm(t, |t|) == "" && Norm(t, |s|) == ['/'] + Norm(t, |t|);
  }

  /**
   The comment promises that trailing separators never differentiate. They do, except after another separator: the
   path with any run of separators added is the same exactly when the path already ends in one.
   */
  lemma TrailingSeparator(s: string, run: string)
    requires IsRun(run)
    ensures SameApp(s, s + run) <==> s != "" && IsSep(s[|s| - 1])
  {
    NormTrailing(s, run, 0);
    if s != "" && !IsSep(s[|s| - 1]) {
      assert |Norm(s + run, 0)| == |Norm(s, 0)| + 1;
    }
  }

  lemma TrailingSeparatorDiffers()
    ensures !SameApp("mass0:APPS/A", "mass0:APPS/A/")
    ensures SameApp("a/", "a/" + "\\/")
  {
    TrailingSeparator("mass0:APPS/A", "/");
    assert "mass0:APPS/A" + "/" == "mass0:APPS/A/";
    TrailingSeparator("a/", "\\/");
  }
}
