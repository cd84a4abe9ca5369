/** The ZSO container (pc/ziso.py): header, block index, and the codec it relies on. */
module ZsoFormat {
  import opened Text

  const MAGIC: nat := 0x4F53495A
  const HEADER_SIZE: nat := 24
  const TOP: nat := 0x8000_0000
  const WORD: nat := 0x1_0000_0000

  function Pow256(k: nat): (r: nat)
    ensures r > 0
  {
    if k == 0 then 1 else 256 * Pow256(k - 1)
  }

  // ----- little-endian fields -----

  /** The low k bytes of n, least significant first. */
  function Le(n: nat, k: nat): (r: seq<byte>)
    ensures |r| == k
    decreases k
  {
    if k == 0 then [] else [n % 256] + Le(n / 256, k - 1)
  }

  function UnLe(b: seq<byte>): nat
    decreases |b|
  {
    if b == [] then 0 else b[0] + 256 * UnLe(b[1..])
  }

  lemma {:induction false} LeRoundTrip(n: nat, k: nat)
    requires n < Pow256(k)
    ensures UnLe(Le(n, k)) == n
    decreases k
  {
    if k > 0 {
      LeRoundTrip(n / 256, k - 1);
      assert Le(n, k)[1..] == Le(n / 256, k - 1);
    }
  }

  /** A field at an offset of a file. */
  function FieldAt(f: seq<byte>, at: nat, k: nat): nat
    requires at + k <= |f|
  {
    UnLe(f[at..at + k])
  }

  datatype Header = Header(magic: nat, headerSize: nat, totalBytes: nat, blockSize: nat, ver: nat, align: nat)

  /** What the pack format of the header can hold. */
  predicate Packable(h: Header) {
    && h.magic < Pow256(4) && h.headerSize < Pow256(4) && h.totalBytes < Pow256(8) && h.blockSize < Pow256(4)
    && h.ver < 128 && h.align < 128
  }

  /** generate_zso_header. */
  function PackHeader(h: Header): (r: seq<byte>)
    ensures |r| == HEADER_SIZE
  {
    Le(h.magic, 4) + Le(h.headerSize, 4) + Le(h.totalBytes, 8) + Le(h.blockSize, 4) + Le(h.ver, 1) + Le(h.align, 1) + [0, 0]
  }

  /** The signed byte a one-byte field reads as. */
  function Signed(n: nat): int {
    if n < 128 then n else n - 256
  }

  /** read_zso_header; None is a short file. Signed fields are ver and align. */
  function ReadHeader(f: seq<byte>): (r: Option<(Header, int, int)>)
    ensures r.Some? ==> |f| >= HEADER_SIZE
  {
    if |f| < HEADER_SIZE then None else
      var h := Header(FieldAt(f, 0, 4), FieldAt(f, 4, 4), FieldAt(f, 8, 8), FieldAt(f, 16, 4), FieldAt(f, 20, 1), FieldAt(f, 21, 1));
      Some((h, Signed(h.ver), Signed(h.align)))
  }

  lemma FieldBack(f: seq<byte>, pre: seq<byte>, n: nat, k: nat, post: seq<byte>)
    requires f == pre + Le(n, k) + post && n < Pow256(k)
    ensures FieldAt(f, |pre|, k) == n
  {
    assert f[|pre|..|pre| + k] == Le(n, k);
    LeRoundTrip(n, k);
  }

  /** Reading back a packed header, whatever follows it. */
  lemma HeaderRoundTrip(h: Header, rest: seq<byte>)
    requires Packable(h)
    ensures ReadHeader(PackHeader(h) + rest) == Some((h, h.ver, h.align))
  {
    hide Le, Pow256, FieldAt;
    var f := PackHeader(h) + rest;
    var m, s, t, b, v, a := Le(h.magic, 4), Le(h.headerSize, 4), Le(h.totalBytes, 8), Le(h.blockSize, 4), Le(h.ver, 1), Le(h.align, 1);
    assert 128 < Pow256(1) by { PowOne(); }
    FieldBack(f, [], h.magic, 4, s + t + b + v + a + [0, 0] + rest);
    FieldBack(f, m, h.headerSize, 4, t + b + v + a + [0, 0] + rest);
    FieldBack(f, m + s, h.totalBytes, 8, b + v + a + [0, 0] + rest);
    FieldBack(f, m + s + t, h.blockSize, 4, v + a + [0, 0] + rest);
    FieldBack(f, m + s + t + b, h.ver, 1, a + [0, 0] + rest);
    FieldBack(f, m + s + t + b + v, h.align, 1, [0, 0] + rest);
  }

  lemma PowOne()
    ensures Pow256(1) == 256
  {
  }

  // ----- the block index -----

  /** index | 0x80000000. */
  function MarkPlain(i: nat): nat {
    if i / TOP % 2 == 1 then i else i + TOP
  }

  predicate IsMarked(i: nat) {
    i / TOP % 2 == 1
  }

  /** index & 0x7fffffff. */
  function Unmarked(i: nat): nat {
    i % TOP
  }

  /** The mark and the position come back exactly when the position leaves the top bit alone. */
  lemma MarkBack(i: nat, plain: bool)
    requires i < WORD
    ensures var e := if plain then MarkPlain(i) else i;
            e < WORD && ((IsMarked(e) == plain && Unmarked(e) == i) <==> i < TOP)
  {
  }

  /** A table of 32-bit words. */
  function PackWords(w: seq<nat>): (r: seq<byte>)
    ensures |r| == 4 * |w|
    decreases |w|
  {
    if w == [] then [] else PackWords(w[..|w| - 1]) + Le(w[|w| - 1], 4)
  }

  lemma {:induction false} WordBack(w: seq<nat>, k: nat)
    requires k < |w| && forall i :: 0 <= i < |w| ==> w[i] < WORD
    ensures FieldAt(PackWords(w), 4 * k, 4) == w[k]
    decreases |w|
  {
    hide Le;
    var n := |w| - 1;
    if k == n {
      assert WORD == Pow256(4);
      FieldBack(PackWords(w), PackWords(w[..n]), w[n], 4, []);
    } else {
      WordBack(w[..n], k);
      assert PackWords(w)[4 * k..4 * k + 4] == PackWords(w[..n])[4 * k..4 * k + 4];
    }
  }

  // ----- files and the codec -----

  /** fin.seek(offset); fin.read(size): -1 reads all there is, anything below it raises. */
  function SeekRead(f: seq<byte>, offset: nat, size: int): Option<seq<byte>> {
    if size < -1 then None
    else if offset >= |f| then Some([])
    else if size == -1 || offset + size >= |f| then Some(f[offset..])
    else Some(f[offset..offset + size])
  }

  /** Block compression, and decompression given the size of a block; None is an LZ4 error. */
  datatype Codec = Codec(compress: seq<byte> -> seq<byte>, decompress: (seq<byte>, nat) -> Option<seq<byte>>)

  /**
   What is assumed of LZ4 on blocks of one size: a compressed block decompresses to itself, to an error when
   anything follows it, and not to itself when it is cut short.
   */
  ghost predicate Good(c: Codec, bs: nat) {
    && (forall x: seq<byte> :: |x| == bs ==> c.decompress(c.compress(x), bs) == Some(x))
    && (forall x: seq<byte>, pad: seq<byte> :: |x| == bs && pad != [] ==> c.decompress(c.compress(x) + pad, bs) == None)
    && (forall x: seq<byte>, k: nat :: |x| == bs && k < |c.compress(x)| ==> c.decompress(c.compress(x)[..k], bs) != Some(x))
  }

  /** The assumption can be met. */
  lemma GoodExists(bs: nat)
    ensures exists c: Codec :: Good(c, bs)
  {
    var c := Codec(x => x, (d, n) => if |d| == n then Some(d) else None);
    assert Good(c, bs);
  }

  /** lz4_decompress: trailing bytes are dropped until the rest decompresses; None means it never ends. */
  function Strip(c: Codec, data: seq<byte>, bs: nat): Option<seq<byte>>
    decreases |data|
  {
    var r := c.decompress(data, bs);
    if r.Some? then r else if data == [] then None else Strip(c, data[..|data| - 1], bs)
  }

  /** Padding after a block is stripped. */
  lemma {:induction false} StripPadded(c: Codec, x: seq<byte>, pad: seq<byte>, bs: nat)
    requires Good(c, bs) && |x| == bs
    ensures Strip(c, c.compress(x) + pad, bs) == Some(x)
    decreases |pad|
  {
    var z := c.compress(x);
    if pad == [] {
      assert z + pad == z;
    } else {
      assert (z + pad)[..|z + pad| - 1] == z + pad[..|pad| - 1];
      StripPadded(c, x, pad[..|pad| - 1], bs);
    }
  }

  /** A block cut short is not recovered. */
  lemma {:induction false} StripShort(c: Codec, x: seq<byte>, k: nat, bs: nat)
    requires Good(c, bs) && |x| == bs && k < |c.compress(x)|
    ensures Strip(c, c.compress(x)[..k], bs) != Some(x)
    decreases k
  {
    if k > 0 {
      assert c.compress(x)[..k][..k - 1] == c.compress(x)[..k - 1];
      StripShort(c, x, k - 1, bs);
    }
  }
}
