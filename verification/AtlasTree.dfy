/** The guillotine allocator of the texture atlas (src/atlas.c) as a tree, and as a first-fit free list. */
module AtlasTree {
  import opened Text

  datatype Rect = Rect(x: nat, y: nat, w: nat, h: nat)

  predicate Fits(box: Rect, w: nat, h: nat) {
    box.w >= w && box.h >= h
  }

  predicate Within(a: Rect, b: Rect) {
    b.x <= a.x && a.x + a.w <= b.x + b.w && b.y <= a.y && a.y + a.h <= b.y + b.h
  }

  predicate Disjoint(a: Rect, b: Rect) {
    a.x + a.w <= b.x || b.x + b.w <= a.x || a.y + a.h <= b.y || b.y + b.h <= a.y
  }

  /** A node of the tree: free as long as it has no leaves. */
  datatype Tree = Leaf(box: Rect) | Split(box: Rect, leaf1: Tree, leaf2: Tree)

  /** The two pieces left of a box around a w by h area in its corner; the wider piece is also the longer one. */
  function Cut(box: Rect, w: nat, h: nat): (r: (Rect, Rect))
    requires Fits(box, w, h)
    ensures var used := Rect(box.x, box.y, w, h);
            && Within(used, box) && Within(r.0, box) && Within(r.1, box)
            && Disjoint(used, r.0) && Disjoint(used, r.1) && Disjoint(r.0, r.1)
    ensures if box.w - w < box.h - h then r.1.w == box.w && r.1.h == box.h - h else r.1.w == box.w - w && r.1.h == box.h
  {
    var dx, dy := box.w - w, box.h - h;
    if dx < dy then
      (Rect(box.x + w, box.y, dx, h), Rect(box.x, box.y + h, box.w, dy))
    else
      (Rect(box.x, box.y + h, w, dy), Rect(box.x + w, box.y, dx, box.h))
  }

  /** allocPlace: the new tree and the corner of the node taken. */
  function Place(t: Tree, w: nat, h: nat): Option<(Tree, Rect)>
    decreases t
  {
    if !Fits(t.box, w, h) then None
    else if t.Leaf? then
      var pieces := Cut(t.box, w, h);
      Some((Split(t.box, Leaf(pieces.0), Leaf(pieces.1)), Rect(t.box.x, t.box.y, w, h)))
    else
      var p1 := Place(t.leaf1, w, h);
      if p1.Some? then Some((Split(t.box, p1.value.0, t.leaf2), p1.value.1)) else
        var p2 :- Place(t.leaf2, w, h);
        Some((Split(t.box, t.leaf1, p2.0), p2.1))
  }

  // ----- the free list -----

  /** The free boxes in the order the search meets them. */
  function Free(t: Tree): seq<Rect>
    decreases t
  {
    if t.Leaf? then [t.box] else Free(t.leaf1) + Free(t.leaf2)
  }

  /** Allocation from a plain list of free boxes: the first that fits is replaced by its two pieces. */
  function FirstFit(free: seq<Rect>, w: nat, h: nat): Option<(seq<Rect>, Rect)>
    decreases |free|
  {
    if free == [] then None
    else if Fits(free[0], w, h) then
      var pieces := Cut(free[0], w, h);
      Some(([pieces.0, pieces.1] + free[1..], Rect(free[0].x, free[0].y, w, h)))
    else
      var r :- FirstFit(free[1..], w, h);
      Some(([free[0]] + r.0, r.1))
  }

  /** Children lie inside their parents. */
  predicate Nested(t: Tree)
    decreases t
  {
    t.Split? ==> Within(t.leaf1.box, t.box) && Within(t.leaf2.box, t.box) && Nested(t.leaf1) && Nested(t.leaf2)
  }

  lemma {:induction false} FirstFitAppend(a: seq<Rect>, b: seq<Rect>, w: nat, h: nat)
    ensures FirstFit(a, w, h).Some? ==>
              FirstFit(a + b, w, h) == Some((FirstFit(a, w, h).value.0 + b, FirstFit(a, w, h).value.1))
    ensures FirstFit(a, w, h).None? && FirstFit(b, w, h).Some? ==>
              FirstFit(a + b, w, h) == Some((a + FirstFit(b, w, h).value.0, FirstFit(b, w, h).value.1))
    ensures FirstFit(a, w, h).None? && FirstFit(b, w, h).None? ==> FirstFit(a + b, w, h) == None
    decreases |a|
  {
    hide Fits, Cut;
    if a == [] {
      assert a + b == b;
      if FirstFit(b, w, h).Some? {
        assert a + FirstFit(b, w, h).value.0 == FirstFit(b, w, h).value.0;
      }
    } else {
      assert (a + b)[0] == a[0] && (a + b)[1..] == a[1..] + b;
      FirstFitAppend(a[1..], b, w, h);
      if FirstFit(a[1..], w, h).None? && FirstFit(b, w, h).Some? && !Fits(a[0], w, h) {
        var r := FirstFit(b, w, h).value.0;
        assert [a[0]] + (a[1..] + r) == a + r;
      }
      if Fits(a[0], w, h) {
        var pieces := Cut(a[0], w, h);
        assert [pieces.0, pieces.1] + (a[1..] + b) == [pieces.0, pieces.1] + a[1..] + b;
      } else if FirstFit(a[1..], w, h).Some? {
        var r := FirstFit(a[1..], w, h).value.0;
        assert [a[0]] + (r + b) == [a[0]] + r + b;
      }
    }
  }

  /** A box too small for a request has no free box inside it that fits: pruning at an ancestor loses nothing. */
  lemma {:induction false} PruneSound(t: Tree, w: nat, h: nat)
    requires Nested(t) && !Fits(t.box, w, h)
    ensures FirstFit(Free(t), w, h) == None
    decreases t
  {
    if t.Split? {
      PruneSound(t.leaf1, w, h);
      PruneSound(t.leaf2, w, h);
      FirstFitAppend(Free(t.leaf1), Free(t.leaf2), w, h);
    }
  }

  /** The tree search is first fit over the free boxes, and keeps the tree nested. */
  lemma {:induction false} PlaceIsFirstFit(t: Tree, w: nat, h: nat)
    requires Nested(t)
    ensures Place(t, w, h).None? <==> FirstFit(Free(t), w, h).None?
    ensures Place(t, w, h).Some? ==>
              var (t', r) := Place(t, w, h).value;
              Nested(t') && t'.box == t.box && FirstFit(Free(t), w, h) == Some((Free(t'), r))
    decreases t
  {
    if !Fits(t.box, w, h) {
      PruneSound(t, w, h);
    } else if t.Leaf? {
      var pieces := Cut(t.box, w, h);
      assert [pieces.0, pieces.1] + [t.box][1..] == [pieces.0] + [pieces.1];
    } else {
      hide Fits, Cut, Within;
      PlaceIsFirstFit(t.leaf1, w, h);
      PlaceIsFirstFit(t.leaf2, w, h);
      FirstFitAppend(Free(t.leaf1), Free(t.leaf2), w, h);
    }
  }

  // ----- what first fit keeps -----

  /** Nothing in the list overlaps r. */
  ghost predicate Clear(r: Rect, free: seq<Rect>) {
    forall i :: 0 <= i < |free| ==> Disjoint(r, free[i])
  }

  /** No two boxes overlap. */
  ghost predicate Apart(free: seq<Rect>) {
    forall i, j :: 0 <= i < j < |free| ==> Disjoint(free[i], free[j])
  }

  ghost predicate AllWithin(free: seq<Rect>, bounds: Rect) {
    forall i :: 0 <= i < |free| ==> Within(free[i], bounds)
  }

  function Area(r: Rect): nat {
    r.w * r.h
  }

  function TotalArea(free: seq<Rect>): nat
    decreases |free|
  {
    if free == [] then 0 else Area(free[0]) + TotalArea(free[1..])
  }

  lemma CutArea(box: Rect, w: nat, h: nat)
    requires Fits(box, w, h)
    ensures var pieces := Cut(box, w, h); w * h + Area(pieces.0) + Area(pieces.1) == Area(box)
  {
    var dx, dy := box.w - w, box.h - h;
    Distribute(w, dx, h, dy);
    Distribute(w, dx, 0, dy);
    Distribute(dx, 0, h, dy);
  }

  lemma Distribute(a: nat, b: nat, c: nat, d: nat)
    ensures (a + b) * (c + d) == a * c + a * d + b * c + b * d
  {
  }

  lemma {:induction false} FitsWithin(a: Rect, b: Rect, c: Rect)
    requires Within(a, b)
    ensures Disjoint(b, c) ==> Disjoint(a, c)
    ensures Disjoint(c, b) ==> Disjoint(c, a)
    ensures Within(b, c) ==> Within(a, c)
  {
  }

  /** Anything clear of the free list stays clear of it, and is clear of what is taken next. */
  lemma {:induction false} ClearKept(q: Rect, free: seq<Rect>, w: nat, h: nat)
    requires Clear(q, free) && FirstFit(free, w, h).Some?
    ensures Clear(q, FirstFit(free, w, h).value.0) && Disjoint(q, FirstFit(free, w, h).value.1)
    decreases |free|
  {
    hide Disjoint, Within;
    var r := FirstFit(free, w, h).value;
    if Fits(free[0], w, h) {
      FitsWithin(Cut(free[0], w, h).0, free[0], q);
      FitsWithin(Cut(free[0], w, h).1, free[0], q);
      FitsWithin(r.1, free[0], q);
    } else {
      ClearKept(q, free[1..], w, h);
    }
  }

  lemma ApartTail(free: seq<Rect>)
    requires free != [] && Apart(free)
    ensures Apart(free[1..]) && Clear(free[0], free[1..])
  {
  }

  lemma ApartCons(box: Rect, free: seq<Rect>)
    requires Apart(free) && Clear(box, free)
    ensures Apart([box] + free)
  {
  }

  lemma ClearPart(part: Rect, box: Rect, free: seq<Rect>)
    requires Within(part, box) && Clear(box, free)
    ensures Clear(part, free)
  {
    hide Disjoint, Within;
    forall i | 0 <= i < |free| ensures Disjoint(part, free[i]) {
      FitsWithin(part, box, free[i]);
    }
  }

  /** The free boxes stay apart, and what is taken is clear of all that is left. */
  lemma {:induction false} ApartKept(free: seq<Rect>, w: nat, h: nat)
    requires Apart(free) && FirstFit(free, w, h).Some?
    ensures Apart(FirstFit(free, w, h).value.0)
    ensures Clear(FirstFit(free, w, h).value.1, FirstFit(free, w, h).value.0)
    decreases |free|
  {
    hide Disjoint, Within;
    var r := FirstFit(free, w, h).value;
    ApartTail(free);
    if Fits(free[0], w, h) {
      var (p0, p1) := Cut(free[0], w, h);
      ClearPart(p0, free[0], free[1..]);
      ClearPart(p1, free[0], free[1..]);
      ClearPart(r.1, free[0], free[1..]);
      ApartCons(p1, free[1..]);
      ApartCons(p0, [p1] + free[1..]);
      assert r.0 == [p0] + ([p1] + free[1..]);
    } else {
      ApartKept(free[1..], w, h);
      ClearKept(free[0], free[1..], w, h);
      ApartCons(free[0], FirstFit(free[1..], w, h).value.0);
      DisjointSym(free[0], r.1);
    }
  }

  lemma DisjointSym(a: Rect, b: Rect)
    ensures Disjoint(a, b) <==> Disjoint(b, a)
  {
  }

  lemma {:induction false} WithinKept(free: seq<Rect>, bounds: Rect, w: nat, h: nat)
    requires AllWithin(free, bounds) && FirstFit(free, w, h).Some?
    ensures AllWithin(FirstFit(free, w, h).value.0, bounds) && Within(FirstFit(free, w, h).value.1, bounds)
    decreases |free|
  {
    hide Within;
    var r := FirstFit(free, w, h).value;
    if Fits(free[0], w, h) {
      FitsWithin(Cut(free[0], w, h).0, free[0], bounds);
      FitsWithin(Cut(free[0], w, h).1, free[0], bounds);
      FitsWithin(r.1, free[0], bounds);
    } else {
      WithinKept(free[1..], bounds, w, h);
    }
  }

  /** No area is lost: what is taken is what the free list loses. */
  lemma {:induction false} AreaKept(free: seq<Rect>, w: nat, h: nat)
    requires FirstFit(free, w, h).Some?
    ensures TotalArea(FirstFit(free, w, h).value.0) + w * h == TotalArea(free)
    decreases |free|
  {
    hide Area;
    var r := FirstFit(free, w, h).value;
    if Fits(free[0], w, h) {
      CutArea(free[0], w, h);
      var (p0, p1) := Cut(free[0], w, h);
      assert r.0[1..] == [p1] + free[1..] && r.0[1..][1..] == free[1..];
    } else {
      AreaKept(free[1..], w, h);
      assert r.0[1..] == FirstFit(free[1..], w, h).value.0;
    }
  }

  /** Placement fails exactly when no free box fits. */
  lemma {:induction false} FailsOnlyWhenFull(free: seq<Rect>, w: nat, h: nat)
    ensures FirstFit(free, w, h).None? <==> forall i :: 0 <= i < |free| ==> !Fits(free[i], w, h)
    decreases |free|
  {
    if free != [] {
      FailsOnlyWhenFull(free[1..], w, h);
      if FirstFit(free, w, h).None? {
        assert forall i :: 0 < i < |free| ==> free[i] == free[1..][i - 1];
      } else if !Fits(free[0], w, h) {
        var i :| 0 <= i < |free[1..]| && Fits(free[1..][i], w, h);
        assert Fits(free[i + 1], w, h);
      }
    }
  }
}
