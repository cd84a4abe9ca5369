/** The atlas as the program keeps it (src/atlas.c): tree nodes and a surface buffer updated in place. */
module AtlasSurface {
  import opened Text
  import opened AtlasTree
  import opened Atlas

  class Node {
    const x: nat
    const y: nat
    const w: nat
    const h: nat
    var leaf1: Node?
    var leaf2: Node?
    ghost var tree: Tree
    ghost var repr: set<Node>

    /** allocNew. */
    constructor (box: Rect)
      ensures x == box.x && y == box.y && w == box.w && h == box.h
      ensures Valid() && repr == {this} && tree == Leaf(box)
    {
      x, y, w, h := box.x, box.y, box.w, box.h;
      leaf1, leaf2 := null, null;
      tree, repr := Leaf(box), {this};
    }

    ghost predicate Valid()
      reads this, repr
      decreases repr
    {
      && this in repr && tree.box == Rect(x, y, w, h)
      && (leaf1 == null <==> leaf2 == null)
      && (leaf1 == null ==> tree.Leaf?)
      && (leaf1 != null && leaf2 != null ==>
            && leaf1 in repr && leaf2 in repr && leaf1.repr <= repr && leaf2.repr <= repr
            && this !in leaf1.repr && this !in leaf2.repr && leaf1.repr !! leaf2.repr
            && leaf1.Valid() && leaf2.Valid() && tree == Split(tree.box, leaf1.tree, leaf2.tree))
    }

    /** A free node is split around the area taken. */
    method SplitUp(width: nat, height: nat)
      requires Valid() && tree.Leaf? && Fits(tree.box, width, height)
      modifies this
      ensures Valid() && fresh(repr - old(repr))
      ensures Place(old(tree), width, height) == Some((tree, Rect(x, y, width, height)))
    {
      var dx, dy := w - width, h - height;
      if dx < dy {
        leaf1 := new Node(Rect(x + width, y, dx, height));
        leaf2 := new Node(Rect(x, y + height, w, dy));
      } else {
        leaf1 := new Node(Rect(x, y + height, width, dy));
        leaf2 := new Node(Rect(x + width, y, dx, h));
      }
      tree := Split(tree.box, leaf1.tree, leaf2.tree);
      repr := {this, leaf1, leaf2};
    }

    /** The search in the first leaf, with this node kept in step. */
    method PlaceFirst(width: nat, height: nat) returns (p: Node?)
      requires Valid() && leaf1 != null
      modifies repr
      ensures Valid() && fresh(repr - old(repr)) && tree.Split? && tree == Split(old(tree.box), tree.leaf1, old(tree.leaf2))
      ensures p == null <==> Place(old(tree.leaf1), width, height).None?
      ensures p == null ==> tree == old(tree) && repr == old(repr) && leaf1 == old(leaf1)
      ensures p != null ==> Place(old(tree.leaf1), width, height) == Some((tree.leaf1, Rect(p.x, p.y, width, height)))
      decreases repr, 0
    {
      hide Place;
      p := leaf1.AllocPlace(width, height);
      repr := repr + leaf1.repr;
      tree := Split(tree.box, leaf1.tree, leaf2.tree);
    }

    /** The search in the second leaf, with this node kept in step. */
    method PlaceSecond(width: nat, height: nat) returns (p: Node?)
      requires Valid() && leaf2 != null
      modifies repr
      ensures Valid() && fresh(repr - old(repr)) && tree.Split? && tree == Split(old(tree.box), old(tree.leaf1), tree.leaf2)
      ensures p == null <==> Place(old(tree.leaf2), width, height).None?
      ensures p == null ==> tree == old(tree) && repr == old(repr)
      ensures p != null ==> Place(old(tree.leaf2), width, height) == Some((tree.leaf2, Rect(p.x, p.y, width, height)))
      decreases repr, 0
    {
      hide Place;
      p := leaf2.AllocPlace(width, height);
      repr := repr + leaf2.repr;
      tree := Split(tree.box, leaf1.tree, leaf2.tree);
    }

    /** allocPlace: the node taken, or null; the tree changes as Place says. */
    method AllocPlace(width: nat, height: nat) returns (p: Node?)
      requires Valid()
      modifies repr
      ensures Valid() && fresh(repr - old(repr))
      ensures p == null <==> Place(old(tree), width, height).None?
      ensures p == null ==> tree == old(tree) && repr == old(repr)
      ensures p != null ==> Place(old(tree), width, height) == Some((tree, Rect(p.x, p.y, width, height)))
      decreases repr, 1
    {
      hide Cut, Fits;
      if !Fits(Rect(x, y, w, h), width, height) {
        return null;
      }
      if leaf1 == null && leaf2 == null {
        SplitUp(width, height);
        return this;
      }
      p := PlaceFirst(width, height);
      if p == null {
        p := PlaceSecond(width, height);
      }
    }
  }

  class Surface {
    const allocation: Node
    const psm: Psm
    const mem: array<byte>
    ghost var placed: seq<Placed>

    ghost predicate Valid()
      reads this, allocation, allocation.repr, mem
    {
      allocation.Valid() && Inv(Model(), allocation.w, allocation.h)
    }

    ghost function Model(): State
      reads this, allocation, mem
    {
      State(allocation.tree, psm, mem[..], placed)
    }

    /** atlasNew, with a zeroed surface. */
    constructor (width: nat, height: nat, psm: Psm)
      ensures Valid() && Model() == New(width, height, psm)
      ensures allocation.w == width && allocation.h == height && fresh(allocation.repr) && fresh(mem)
    {
      this.psm := psm;
      allocation := new Node(Rect(0, 0, width, height));
      mem := new byte[At(Span(width, PixelSize(psm)), height, 0)](i => 0);
      placed := [];
      new;
      assert mem[..] == seq(At(Span(width, PixelSize(psm)), height, 0), i => 0);
      assert Model() == New(width, height, psm);
    }

    /** atlasCopyData: row by row into the linear buffer, in bytes. */
    method CopyData(p: Placed)
      requires CopyFits(allocation.w, mem.Length, PixelSize(psm), p)
      modifies mem
      ensures mem[..] == Copied(old(mem[..]), allocation.w, PixelSize(psm), p)
    {
      hide At, Span, FitsOn, Overwrite, Row;
      var ps := PixelSize(psm);
      if ps == 0 {
        return;
      }
      var wide, b := Span(allocation.w, ps), InBytes(p, ps);
      var k := 0;
      while k < b.glyph.h
        invariant k <= b.glyph.h && mem[..] == Blit(old(mem[..]), wide, b.glyph, b.x, b.y, k)
      {
        RowBounds(wide, mem.Length, b.glyph, b.x, b.y, k);
        CopyRow(At(wide, b.y + k, b.x), Row(b.glyph, k));
        k := k + 1;
      }
    }

    /** memcpy of one row. */
    method CopyRow(at: nat, row: seq<byte>)
      requires at + |row| <= mem.Length
      modifies mem
      ensures mem[..] == Overwrite(old(mem[..]), at, row)
    {
      var i := 0;
      while i < |row|
        invariant i <= |row|
        invariant forall j :: 0 <= j < mem.Length ==> mem[j] == if at <= j < at + i then row[j - at] else old(mem[j])
      {
        mem[at + i] := row[i];
        i := i + 1;
      }
    }

    /** atlasPlace; None is a null bitmap. The state changes as Step says, and stays valid. */
    method AtlasPlace(glyph: Option<Glyph>) returns (al: Node?)
      requires Valid() && (glyph.Some? ==> GlyphOk(glyph.value, PixelSize(psm)))
      modifies this, allocation.repr, mem
      ensures Valid() && fresh(allocation.repr - old(allocation.repr))
      ensures glyph.None? ==> al == null && Model() == old(Model())
      ensures glyph.Some? ==> Model() == Step(old(Model()), allocation.w, allocation.h, glyph.value)
      ensures al != null ==> glyph.Some? && placed == old(placed) + [Placed(glyph.value, al.x, al.y)]
      ensures al == null ==> placed == old(placed)
    {
      hide Place, ShowsGlyph, CopyFits, Copied, Nested, PixelSize, At, Span, Apart, AllWithin, Clear, TotalArea, Free, GlyphOk;
      if glyph.None? {
        return null;
      }
      var g := glyph.value;
      ghost var s := Model();
      StepKeeps(s, allocation.w, allocation.h, g);
      al := allocation.AllocPlace(g.w + 1, g.h + 1);
      if al == null {
        return;
      }
      PlaceWithin(s, allocation.w, allocation.h, g);
      ghost var p := Placed(g, al.x, al.y);
      BoxFitsOn(allocation.w, allocation.h, mem.Length, PixelSize(psm), p);
      CopyData(Placed(g, al.x, al.y));
      placed := placed + [p];
    }
  }
}
