/** Compressing an image into a ZSO file and decompressing it (pc/ziso.py). */
module Zso {
  import opened Text
  import opened ZsoFormat

  /** One run of the compressor: the image, the block size, the threshold in percent, the padding byte, the codec. */
  datatype Job = Job(image: seq<byte>, bs: nat, threshold: int, pad: byte, codec: Codec)

  predicate JobOk(j: Job) {
    j.bs > 0
  }

  /** Whole blocks; what is left over is not stored. */
  function Count(j: Job): (n: nat)
    requires JobOk(j)
  {
    Quot(|j.image|, j.bs)
  }

  function AlignOf(j: Job): nat {
    |j.image| / TOP
  }

  /** The alignment unit, 1 << align. */
  function Align(j: Job): (u: nat)
    ensures u > 0
  {
    Pow2(AlignOf(j))
  }

  lemma BlockBounds(j: Job, k: nat)
    requires JobOk(j) && k <= Count(j)
    ensures k * j.bs <= |j.image|
    ensures k < Count(j) ==> k * j.bs + j.bs <= |j.image|
  {
    var n := Count(j);
    assert n * j.bs <= |j.image|;
    if k < n {
      MulMono(k, n, j.bs);
    }
  }

  function Block(j: Job, k: nat): (x: seq<byte>)
    requires JobOk(j) && k < Count(j)
    ensures |x| == j.bs
  {
    BlockBounds(j, k);
    j.image[k * j.bs..k * j.bs + j.bs]
  }

  /** A block that compresses too little is stored as it is. */
  predicate IsPlain(j: Job, k: nat)
    requires JobOk(j) && k < Count(j)
  {
    100 * |j.codec.compress(Block(j, k))| >= j.threshold * j.bs
  }

  function Stored(j: Job, k: nat): seq<byte>
    requires JobOk(j) && k < Count(j)
  {
    if IsPlain(j, k) then Block(j, k) else j.codec.compress(Block(j, k))
  }

  /** A position in alignment units, rounded down (pos >> align). */
  function Quot(pos: nat, unit: nat): nat
    requires unit > 0
  {
    pos / unit
  }

  /** ... and rounded up. */
  function QuotUp(pos: nat, unit: nat): nat
    requires unit > 0
  {
    if pos % unit == 0 then Quot(pos, unit) else Quot(pos, unit) + 1
  }

  /** set_align: the bytes of padding wanted at a position. */
  function Gap(pos: nat, unit: nat): (g: nat)
    requires unit > 0
    ensures g < unit
  {
    if pos % unit == 0 then 0 else unit - pos % unit
  }

  lemma GapAligns(pos: nat, unit: nat)
    requires unit > 0
    ensures pos + Gap(pos, unit) == QuotUp(pos, unit) * unit
  {
    assert pos == pos / unit * unit + pos % unit;
    assert (pos / unit + 1) * unit == pos / unit * unit + unit;
  }

  lemma QuotBack(q: nat, unit: nat)
    requires unit > 0
    ensures Quot(q * unit, unit) == q
  {
    var d := q * unit / unit;
    assert q * unit == d * unit + q * unit % unit;
    if d < q {
      MulMono(d, q, unit);
    } else if q < d {
      MulMono(q, d, unit);
    }
  }

  function Padding(j: Job, n: nat): (r: seq<byte>)
    ensures |r| == n
  {
    seq(n, i => j.pad)
  }

  function Base(j: Job): nat
    requires JobOk(j)
  {
    HEADER_SIZE + 4 * (Count(j) + 1)
  }

  /** What is written behind the index for the first k blocks. */
  function Body(j: Job, k: nat): seq<byte>
    requires JobOk(j) && k <= Count(j)
    decreases k, 0
  {
    if k == 0 then [] else Padded(j, k - 1) + Stored(j, k - 1)
  }

  /** ... and the padding before the next block. */
  function Padded(j: Job, k: nat): seq<byte>
    requires JobOk(j) && k <= Count(j)
    decreases k, 1
  {
    Body(j, k) + Padding(j, Gap(Base(j) + |Body(j, k)|, Align(j)))
  }

  /** The position of a block; for k == Count the aligned end. */
  function Pos(j: Job, k: nat): (p: nat)
    requires JobOk(j) && k <= Count(j)
  {
    Base(j) + |Padded(j, k)|
  }

  function End(j: Job): nat
    requires JobOk(j)
  {
    Base(j) + |Body(j, Count(j))|
  }

  /** The index entry of a block; the last entry is the total size. */
  function Entry(j: Job, k: nat): nat
    requires JobOk(j) && k <= Count(j)
  {
    if k == Count(j) then Quot(End(j), Align(j))
    else if IsPlain(j, k) then MarkPlain(Quot(Pos(j, k), Align(j)))
    else Quot(Pos(j, k), Align(j))
  }

  function Index(j: Job): (w: seq<nat>)
    requires JobOk(j)
    ensures |w| == Count(j) + 1 && forall k :: 0 <= k < |w| ==> w[k] == Entry(j, k)
  {
    seq(Count(j) + 1, k requires 0 <= k <= Count(j) => Entry(j, k))
  }

  function HeaderOf(j: Job): Header {
    Header(MAGIC, HEADER_SIZE, |j.image|, j.bs, 1, AlignOf(j))
  }

  /** compress_zso stops on a compressed block whose position reaches the top bit. */
  ghost predicate AlignError(j: Job)
    requires JobOk(j)
  {
    exists k: nat :: k < Count(j) && !IsPlain(j, k) && IsMarked(Quot(Pos(j, k), Align(j)))
  }

  /** The file compress_zso writes. */
  function FileOf(j: Job): seq<byte>
    requires JobOk(j)
  {
    PackHeader(HeaderOf(j)) + PackWords(Index(j)) + Body(j, Count(j))
  }

  // ----- decompression -----

  /** One block, or None for any way of failing. */
  function ReadBlock(c: Codec, f: seq<byte>, index: seq<nat>, total: nat, bs: nat, unit: nat, k: nat): (r: Option<seq<byte>>)
    requires k + 1 < |index|
    ensures r.Some? ==> |r.value| == bs
  {
    var i, i2 := Unmarked(index[k]), Unmarked(index[k + 1]);
    var pos := i * unit;
    var size := if IsMarked(index[k]) then bs else if k + 2 == |index| then total - pos else (i2 - i) * unit;
    var data :- SeekRead(f, pos, size);
    var block :- if IsMarked(index[k]) then Some(data) else Strip(c, data, bs);
    if |block| != bs then None else Some(block)
  }

  /** The output after k blocks. */
  function Output(c: Codec, f: seq<byte>, index: seq<nat>, total: nat, bs: nat, unit: nat, k: nat): Option<seq<byte>>
    requires k < |index|
    decreases k
  {
    if k == 0 then Some([]) else
      var out :- Output(c, f, index, total, bs, unit, k - 1);
      var block :- ReadBlock(c, f, index, total, bs, unit, k - 1);
      Some(out + block)
  }

  function ReadIndex(f: seq<byte>, n: nat): (w: seq<nat>)
    requires HEADER_SIZE + 4 * n <= |f|
    ensures |w| == n
  {
    seq(n, k requires 0 <= k < n => FieldAt(f, HEADER_SIZE + 4 * k, 4))
  }

  /** The format test of decompress_zso. */
  predicate HeaderOk(h: Header, ver: int) {
    h.magic == MAGIC && h.blockSize != 0 && h.totalBytes != 0 && h.headerSize == HEADER_SIZE && ver <= 1
  }

  /** decompress_zso; None is a rejected file, an exception, an exit or a loop that never ends. */
  function Decompress(c: Codec, f: seq<byte>): Option<seq<byte>> {
    var (h, ver, align) :- ReadHeader(f);
    if !HeaderOk(h, ver) then None else
      var n := Quot(h.totalBytes, h.blockSize);
      if HEADER_SIZE + 4 * (n + 1) > |f| || (align < 0 && n > 0) then None else
        Output(c, f, ReadIndex(f, n + 1), h.totalBytes, h.blockSize, if align < 0 then 1 else Pow2(align), n)
  }

  // ----- the layout -----

  lemma {:induction false} BodyPrefix(j: Job, k: nat, m: nat)
    requires JobOk(j) && k <= m <= Count(j)
    ensures Body(j, k) <= Body(j, m)
    ensures k < m ==> Padded(j, k) <= Body(j, m)
    decreases m
  {
    hide Stored, Gap, Padding, Base, Align, Count;
    if k < m {
      BodyPrefix(j, k, m - 1);
      PaddedHolds(j, m - 1);
    }
  }

  lemma PaddedHolds(j: Job, k: nat)
    requires JobOk(j) && k <= Count(j)
    ensures Body(j, k) <= Padded(j, k)
  {
  }

  /** A block's bytes stand at its position. */
  lemma StoredAt(j: Job, k: nat, m: nat)
    requires JobOk(j) && k < m <= Count(j)
    ensures var at, z := |Padded(j, k)|, Stored(j, k);
            at + |z| <= |Body(j, m)| && Body(j, m)[at..at + |z|] == z
  {
    hide Stored, Gap, Padding, Base, Align, Count;
    BodyPrefix(j, k + 1, m);
  }

  /** The bytes up to the next block are the block and padding. */
  lemma StoredPadded(j: Job, k: nat, m: nat)
    requires JobOk(j) && k + 1 < m <= Count(j)
    ensures var at, z, next := |Padded(j, k)|, Stored(j, k), |Padded(j, k + 1)|;
            at + |z| <= next <= |Body(j, m)| && Body(j, m)[at..next] == z + Body(j, m)[at + |z|..next]
    ensures forall i :: |Padded(j, k)| + |Stored(j, k)| <= i < |Padded(j, k + 1)| ==> i < |Body(j, m)| && Body(j, m)[i] == j.pad
  {
    hide Stored, Gap, Base, Align, Count;
    BodyPrefix(j, k + 1, m);
    PaddedHolds(j, k + 1);
    StoredAt(j, k, m);
    var at, z, next, b := |Padded(j, k)|, Stored(j, k), |Padded(j, k + 1)|, Body(j, m);
    assert b[at..next] == b[at..at + |z|] + b[at + |z|..next];
  }

  /** Reading the file behind the index is reading the body. */
  lemma ReadBody(j: Job, at: nat, size: nat)
    requires JobOk(j) && at + size <= |Body(j, Count(j))| && size > 0
    ensures SeekRead(FileOf(j), Base(j) + at, size) == Some(Body(j, Count(j))[at..at + size])
  {
    hide Body, Count, PackHeader, Index;
    var head, b := PackHeader(HeaderOf(j)) + PackWords(Index(j)), Body(j, Count(j));
    assert FileOf(j) == head + b && |head| == Base(j);
    assert (head + b)[|head| + at..|head| + at + size] == b[at..at + size];
    if at + size == |b| {
      assert (head + b)[|head| + at..] == b[at..at + size];
    }
  }

  /** Reading past the end gives the rest of the body. */
  lemma ReadRest(j: Job, at: nat, size: int)
    requires JobOk(j) && at <= |Body(j, Count(j))| && (size == -1 || at + size >= |Body(j, Count(j))|)
    ensures SeekRead(FileOf(j), Base(j) + at, size) == Some(Body(j, Count(j))[at..])
  {
    hide Body, Count, PackHeader, Index;
    var head, b := PackHeader(HeaderOf(j)) + PackWords(Index(j)), Body(j, Count(j));
    assert FileOf(j) == head + b && |head| == Base(j);
    assert (head + b)[|head| + at..] == b[at..];
    assert at == |b| ==> b[at..] == [];
  }

  /** Positions are whole units, so nothing is lost in the index. */
  lemma PosAligned(j: Job, k: nat)
    requires JobOk(j) && k <= Count(j)
    ensures Pos(j, k) == Quot(Pos(j, k), Align(j)) * Align(j)
  {
    hide Quot, QuotUp, Gap, Align, Base, Body, Count;
    var end := Base(j) + |Body(j, k)|;
    GapAligns(end, Align(j));
    QuotBack(QuotUp(end, Align(j)), Align(j));
  }

  // ----- reading blocks back -----

  /** Every block's position in units leaves the top bit of its index entry alone. */
  ghost predicate InRange(j: Job)
    requires JobOk(j)
  {
    forall k: nat :: k < Count(j) ==> Quot(Pos(j, k), Align(j)) < TOP
  }

  /** What decompress_zso reads a block with. */
  function Reread(j: Job, k: nat): Option<seq<byte>>
    requires JobOk(j) && k < Count(j)
  {
    ReadBlock(j.codec, FileOf(j), Index(j), |j.image|, j.bs, Align(j), k)
  }

  lemma EntryBack(j: Job, k: nat)
    requires JobOk(j) && k < Count(j) && Quot(Pos(j, k), Align(j)) < TOP
    ensures Entry(j, k) < WORD && IsMarked(Entry(j, k)) == IsPlain(j, k)
    ensures Unmarked(Entry(j, k)) * Align(j) == Pos(j, k)
  {
    hide Quot, Align, Pos, Count, IsPlain, IsMarked, Unmarked, MarkPlain;
    MarkBack(Quot(Pos(j, k), Align(j)), IsPlain(j, k));
    PosAligned(j, k);
  }

  lemma ReadPlain(j: Job, k: nat)
    requires JobOk(j) && k < Count(j) && Quot(Pos(j, k), Align(j)) < TOP && IsPlain(j, k)
    ensures Reread(j, k) == Some(Block(j, k))
  {
    hide Count, Align, Padded, Body, IsPlain, FileOf, IsMarked, Unmarked, Entry, SeekRead, Strip, Quot, Block;
    EntryBack(j, k);
    StoredAt(j, k, Count(j));
    ReadBody(j, |Padded(j, k)|, j.bs);
  }

  lemma ReadInner(j: Job, k: nat)
    requires JobOk(j) && k + 1 < Count(j) && InRange(j) && !IsPlain(j, k) && Good(j.codec, j.bs)
    ensures Reread(j, k) == Some(Block(j, k))
  {
    hide Count, Align, Padded, Body, IsPlain, FileOf, IsMarked, Unmarked, Entry, SeekRead, Strip, Quot, Block, Good;
    EntryBack(j, k);
    EntryBack(j, k + 1);
    StoredPadded(j, k, Count(j));
    var at, next, z := |Padded(j, k)|, |Padded(j, k + 1)|, Stored(j, k);
    ReadGap(j, at, next);
    StripPadded(j.codec, Block(j, k), Body(j, Count(j))[at + |z|..next], j.bs);
    SizeOf(Unmarked(Entry(j, k)), Unmarked(Entry(j, k + 1)), Align(j));
  }

  lemma SizeOf(i: nat, i2: nat, unit: nat)
    ensures (i2 - i) * unit == i2 * unit - i * unit
  {
  }

  lemma ReadGap(j: Job, at: nat, next: nat)
    requires JobOk(j) && at <= next <= |Body(j, Count(j))|
    ensures SeekRead(FileOf(j), Base(j) + at, next - at) == Some(Body(j, Count(j))[at..next])
  {
    hide Body, Count, FileOf;
    if at < next {
      ReadBody(j, at, next - at);
    } else {
      ReadNothing(FileOf(j), Base(j) + at);
      assert Body(j, Count(j))[at..next] == [];
    }
  }

  lemma ReadNothing(f: seq<byte>, offset: nat)
    ensures SeekRead(f, offset, 0) == Some([])
  {
    if offset < |f| {
      assert f[offset..offset] == [];
    }
  }

  /**
   The condition on the last block, which is read with size total_bytes - read_pos: it is plain, or that size
   covers it, or that size is -1, which reads to the end of the file.
   */
  predicate LastOk(j: Job)
    requires JobOk(j)
  {
    Count(j) > 0 ==>
      var k := Count(j) - 1;
      IsPlain(j, k) || |j.image| - Pos(j, k) == -1 || |j.image| - Pos(j, k) >= |Stored(j, k)|
  }

  lemma LastBody(j: Job)
    requires JobOk(j) && Count(j) > 0
    ensures var k := Count(j) - 1; Body(j, k + 1) == Padded(j, k) + Stored(j, k)
  {
  }

  /** What a read from the last block's position gives. */
  lemma ReadTail(j: Job, size: int)
    requires JobOk(j) && Count(j) > 0
    ensures var k := Count(j) - 1; var r := SeekRead(FileOf(j), Pos(j, k), size);
            && (size < -1 ==> r == None)
            && (size == -1 || size >= |Stored(j, k)| ==> r == Some(Stored(j, k)))
            && (0 <= size < |Stored(j, k)| ==> r == Some(Stored(j, k)[..size]))
  {
    hide Padded, Body, FileOf, Stored, Align, Count;
    var k := Count(j) - 1;
    LastBody(j);
    var at, z, b := |Padded(j, k)|, Stored(j, k), Body(j, k + 1);
    assert b[at..] == z;
    if size == -1 || size >= |z| {
      ReadRest(j, at, size);
    } else if 0 <= size {
      ReadGap(j, at, at + size);
      assert b[at..at + size] == z[..size];
    }
  }

  /** A compressed last block comes back exactly under the condition on its read size. */
  lemma ReadLast(j: Job)
    requires JobOk(j) && Count(j) > 0 && InRange(j) && Good(j.codec, j.bs) && !IsPlain(j, Count(j) - 1)
    ensures Reread(j, Count(j) - 1) == Some(Block(j, Count(j) - 1)) <==> LastOk(j)
  {
    hide Count, Align, Padded, Body, IsPlain, FileOf, IsMarked, Unmarked, Entry, SeekRead, Strip, Quot, Block, Good, Pos;
    var k := Count(j) - 1;
    EntryBack(j, k);
    var size := |j.image| - Pos(j, k);
    ReadTail(j, size);
    var z := j.codec.compress(Block(j, k));
    assert z + [] == z;
    StripPadded(j.codec, Block(j, k), [], j.bs);
    if 0 <= size < |z| {
      StripShort(j.codec, Block(j, k), size, j.bs);
    }
  }

  // ----- the whole file -----

  /** The output after k blocks of the file. */
  function Reoutput(j: Job, k: nat): Option<seq<byte>>
    requires JobOk(j) && k <= Count(j)
  {
    Output(j.codec, FileOf(j), Index(j), |j.image|, j.bs, Align(j), k)
  }

  lemma InnerBack(j: Job, k: nat)
    requires JobOk(j) && k + 1 < Count(j) && InRange(j) && Good(j.codec, j.bs)
    ensures Reread(j, k) == Some(Block(j, k))
  {
    hide Reread, IsPlain, Count, Quot, Pos, Align, Block, Good;
    if IsPlain(j, k) {
      ReadPlain(j, k);
    } else {
      ReadInner(j, k);
    }
  }

  lemma LastBack(j: Job)
    requires JobOk(j) && Count(j) > 0 && InRange(j) && Good(j.codec, j.bs)
    ensures Reread(j, Count(j) - 1) == Some(Block(j, Count(j) - 1)) <==> LastOk(j)
  {
    hide Reread, IsPlain, Count, Quot, Pos, Align, Block, Good;
    if IsPlain(j, Count(j) - 1) {
      ReadPlain(j, Count(j) - 1);
    } else {
      ReadLast(j);
    }
  }

  lemma PrefixGrows(j: Job, k: nat)
    requires JobOk(j) && k < Count(j)
    ensures k * j.bs <= (k + 1) * j.bs <= |j.image|
    ensures j.image[..(k + 1) * j.bs] == j.image[..k * j.bs] + Block(j, k)
  {
    hide Count;
    BlockBounds(j, k);
    assert (k + 1) * j.bs == k * j.bs + j.bs;
  }

  lemma OutputStep(j: Job, k: nat)
    requires JobOk(j) && k < Count(j)
    ensures Reoutput(j, k + 1) ==
            if Reoutput(j, k).None? || Reread(j, k).None? then None else Some(Reoutput(j, k).value + Reread(j, k).value)
  {
    hide ReadBlock, Index, FileOf, Count, Align;
  }

  /** All blocks but the last always come back. */
  lemma {:induction false} OutputInner(j: Job, k: nat)
    requires JobOk(j) && k < Count(j) && InRange(j) && Good(j.codec, j.bs)
    ensures k * j.bs <= |j.image| && Reoutput(j, k) == Some(j.image[..k * j.bs])
    decreases k
  {
    hide Reread, Count, InRange, Good, Index, FileOf, Align;
    if k > 0 {
      OutputInner(j, k - 1);
      InnerBack(j, k - 1);
      PrefixGrows(j, k - 1);
      OutputStep(j, k - 1);
    } else {
      assert j.image[..0] == [];
    }
  }

  /** The part of the image in whole blocks. */
  function Whole(j: Job): seq<byte>
    requires JobOk(j)
  {
    BlockBounds(j, Count(j));
    j.image[..Count(j) * j.bs]
  }

  lemma OutputAll(j: Job)
    requires JobOk(j) && InRange(j) && Good(j.codec, j.bs)
    ensures Reoutput(j, Count(j)) == Some(Whole(j)) <==> LastOk(j)
  {
    hide Reread, Count, InRange, Good, Index, FileOf, Align, IsPlain, Pos, Stored;
    if Count(j) == 0 {
      assert j.image[..0] == [];
    } else {
      var k := Count(j) - 1;
      OutputInner(j, k);
      LastBack(j);
      PrefixGrows(j, k);
      OutputStep(j, k);
      if Reread(j, k).Some? {
        SameTail(j.image[..k * j.bs], Reread(j, k).value, Block(j, k));
      }
    }
  }

  lemma SameTail(a: seq<byte>, b: seq<byte>, c: seq<byte>)
    ensures a + b == a + c <==> b == c
  {
    if a + b == a + c {
      assert (a + b)[|a|..] == b && (a + c)[|a|..] == c;
    }
  }

  /** compress_zso gets through: no align error, and every field and index entry can be packed. */
  ghost predicate Written(j: Job)
    requires JobOk(j)
  {
    Packable(HeaderOf(j)) && !AlignError(j) && forall k: nat :: k <= Count(j) ==> Entry(j, k) < WORD
  }

  lemma FieldInside(head: seq<byte>, words: seq<byte>, body: seq<byte>, at: nat)
    requires at + 4 <= |words|
    ensures FieldAt(head + words + body, |head| + at, 4) == FieldAt(words, at, 4)
  {
    assert (head + words + body)[|head| + at..|head| + at + 4] == words[at..at + 4];
  }

  lemma IndexBack(j: Job)
    requires JobOk(j) && Written(j)
    ensures |FileOf(j)| >= HEADER_SIZE + 4 * (Count(j) + 1) && ReadIndex(FileOf(j), Count(j) + 1) == Index(j)
  {
    hide Count, Body, Entry, PackHeader, PackWords, AlignError, Packable, HeaderOf, FieldAt;
    var f, head, words := FileOf(j), PackHeader(HeaderOf(j)), PackWords(Index(j));
    forall k: nat | k <= Count(j) ensures FieldAt(f, HEADER_SIZE + 4 * k, 4) == Index(j)[k] {
      WordBack(Index(j), k);
      FieldInside(head, words, Body(j, Count(j)), 4 * k);
    }
  }

  /** The bytes of a block as they are stored stand in the file at its position. */
  lemma StoredInFile(j: Job, k: nat)
    requires JobOk(j) && k < Count(j)
    ensures var at, z := Pos(j, k), Stored(j, k); at + |z| <= |FileOf(j)| && FileOf(j)[at..at + |z|] == z
  {
    hide Body, Count, PackHeader, Index, Stored, Padded, Align, PackWords;
    var head, b := PackHeader(HeaderOf(j)) + PackWords(Index(j)), Body(j, Count(j));
    var at, z := |Padded(j, k)|, Stored(j, k);
    StoredAt(j, k, Count(j));
    assert FileOf(j) == head + b && |head| == Base(j);
    SliceBehind(head, b, at, |z|);
  }

  lemma SliceBehind(head: seq<byte>, b: seq<byte>, at: nat, n: nat)
    requires at + n <= |b|
    ensures (head + b)[|head| + at..|head| + at + n] == b[at..at + n]
  {
  }

  /**
   A written file starts with the header of the format: "ZISO", the header's size, the image's, the block size, version 1
   and one alignment bit for every 2 GiB of image.
   */
  lemma HeaderInFile(j: Job)
    requires JobOk(j) && Packable(HeaderOf(j))
    ensures var a := |j.image| / 0x8000_0000;
            ReadHeader(FileOf(j)) == Some((Header(0x4F53495A, 24, |j.image|, j.bs, 1, a), 1, a))
  {
    hide Body, PackHeader, PackWords, Index, ReadHeader, Packable;
    HeaderRoundTrip(HeaderOf(j), PackWords(Index(j)) + Body(j, Count(j)));
    assert FileOf(j) == PackHeader(HeaderOf(j)) + (PackWords(Index(j)) + Body(j, Count(j)));
  }

  predicate StandsAt(f: seq<byte>, at: nat, x: seq<byte>) {
    at + |x| <= |f| && f[at..at + |x|] == x
  }

  /** The k-th entry of a file's index, 0 in a file too short for it. */
  function IndexWord(f: seq<byte>, k: nat): nat {
    if HEADER_SIZE + 4 * k + 4 <= |f| then FieldAt(f, HEADER_SIZE + 4 * k, 4) else 0
  }

  /** An index entry is marked or not, and points at these bytes. */
  predicate PointsTo(f: seq<byte>, k: nat, unit: nat, marked: bool, x: seq<byte>) {
    IsMarked(IndexWord(f, k)) == marked && StandsAt(f, Unmarked(IndexWord(f, k)) * unit, x)
  }

  /** A block that compression leaves with at least the threshold's percentage of its size. */
  predicate TooLittle(j: Job, x: seq<byte>) {
    100 * |j.codec.compress(x)| >= j.threshold * |x|
  }

  /**
   What a written file holds of a block: the block itself behind a marked index entry if compressing it gains too
   little, and otherwise its compressed form behind an unmarked one.
   */
  lemma BlockInFile(j: Job, k: nat)
    requires JobOk(j) && Written(j) && k < Count(j) && Quot(Pos(j, k), Align(j)) < TOP
    ensures var x := Block(j, k);
            PointsTo(FileOf(j), k, Align(j), TooLittle(j, x), if TooLittle(j, x) then x else j.codec.compress(x))
  {
    hide Count, Align, Pos, FileOf, Written, Block, Quot, FieldAt, Unmarked, IsMarked, Entry;
    IndexBack(j);
    assert IndexWord(FileOf(j), k) == ReadIndex(FileOf(j), Count(j) + 1)[k];
    EntryBack(j, k);
    StoredInFile(j, k);
  }

  /** A file whose header is not that of a ZSO of version 0 or 1 is refused, whatever follows. */
  lemma ForeignRefused(c: Codec, h: Header, rest: seq<byte>)
    requires Packable(h)
    requires h.magic != 0x4F53495A || h.blockSize == 0 || h.totalBytes == 0 || h.headerSize != 24 || h.ver > 1
    ensures Decompress(c, PackHeader(h) + rest) == None
  {
    hide PackHeader, ReadHeader, Packable, Output;
    HeaderRoundTrip(h, rest);
  }

  /** A compressed block at or beyond 2^31 units is not written; compress_zso stops. */
  lemma CompressedTooFar(j: Job, k: nat)
    requires JobOk(j) && k < Count(j) && TOP <= Quot(Pos(j, k), Align(j)) < WORD
    requires 100 * |j.codec.compress(Block(j, k))| < j.threshold * j.bs
    ensures !Written(j)
  {
    hide Count, Align, Pos, Block, Quot;
    assert IsMarked(Quot(Pos(j, k), Align(j)));
  }

  /** decompress_zso on a written file runs over its blocks. */
  lemma DecompressFile(j: Job)
    requires JobOk(j) && Written(j) && j.image != []
    ensures Decompress(j.codec, FileOf(j)) == Reoutput(j, Count(j))
  {
    hide Output, Body, Packable, AlignError, Entry, PackHeader, PackWords, ReadHeader, Index;
    var h := HeaderOf(j);
    assert FileOf(j) == PackHeader(h) + (PackWords(Index(j)) + Body(j, Count(j)));
    HeaderRoundTrip(h, PackWords(Index(j)) + Body(j, Count(j)));
    IndexBack(j);
  }

  /**
   Round trip: whenever compress_zso wrote the file with every position in range, decompress_zso gives back
   exactly the whole blocks of the image if and only if the last block meets its condition.
   */
  lemma RoundTrip(j: Job)
    requires JobOk(j) && Written(j) && j.image != [] && InRange(j) && Good(j.codec, j.bs)
    ensures Decompress(j.codec, FileOf(j)) == Some(Whole(j)) <==> LastOk(j)
  {
    hide Decompress, LastOk, FileOf, Reoutput, Written, InRange, Good, Count;
    DecompressFile(j);
    OutputAll(j);
  }

  /** An image of whole blocks comes back unchanged. */
  lemma WholeImageRoundTrip(j: Job)
    requires JobOk(j) && Written(j) && j.image != [] && InRange(j) && Good(j.codec, j.bs)
    requires |j.image| % j.bs == 0
    ensures Decompress(j.codec, FileOf(j)) == Some(j.image) <==> LastOk(j)
  {
    hide FileOf, LastOk, Written, InRange, Good, Decompress;
    RoundTrip(j);
    assert Count(j) * j.bs == |j.image|;
    assert j.image[..|j.image|] == j.image;
  }

  // ----- when positions are in range -----

  lemma StoredSize(j: Job, k: nat)
    requires JobOk(j) && k < Count(j) && j.threshold <= 100
    ensures |Stored(j, k)| <= j.bs
  {
    hide Block, Count;
    if !IsPlain(j, k) {
      assert j.threshold * j.bs <= 100 * j.bs;
    }
  }

  lemma {:induction false} BodySize(j: Job, k: nat)
    requires JobOk(j) && k <= Count(j) && j.threshold <= 100
    ensures |Body(j, k)| <= k * j.bs + k * (Align(j) - 1)
    ensures |Padded(j, k)| <= k * j.bs + (k + 1) * (Align(j) - 1)
    decreases k
  {
    hide Align, Count, Stored, Gap, Base;
    var u := Align(j);
    assert (k + 1) * (u - 1) == k * (u - 1) + (u - 1);
    if k > 0 {
      BodySize(j, k - 1);
      StoredSize(j, k - 1);
      assert k * j.bs == (k - 1) * j.bs + j.bs;
    }
  }

  /** 24 + 4 (n + 1) + total + n (2^align - 1) <= 2^(31 + align). */
  predicate SmallEnough(j: Job)
    requires JobOk(j)
  {
    Base(j) + |j.image| + Count(j) * (Align(j) - 1) <= TOP * Align(j)
  }

  lemma QuotBound(pos: nat, unit: nat, q: nat)
    requires unit > 0
    ensures pos < q * unit ==> Quot(pos, unit) < q
    ensures pos <= q * unit ==> Quot(pos, unit) <= q
  {
    var d := pos / unit;
    assert pos == d * unit + pos % unit;
    if q < d {
      MulMono(q, d, unit);
    }
  }

  lemma PosBound(j: Job, k: nat)
    requires JobOk(j) && j.threshold <= 100 && SmallEnough(j) && k < Count(j)
    ensures Quot(Pos(j, k), Align(j)) < TOP
  {
    hide Align, Quot, Padded, Body, Base;
    var n, u := Count(j), Align(j);
    BodySize(j, k);
    BlockBounds(j, k);
    assert (k + 1) * (u - 1) <= n * (u - 1) by { Ordered(k + 1, n, u - 1); }
    QuotBound(Pos(j, k), u, TOP);
  }

  lemma Ordered(a: nat, b: nat, c: nat)
    requires a <= b
    ensures a * c <= b * c
  {
    if a < b {
      MulMono(a, b, c);
    }
  }

  /** The bound suffices: nothing is refused and every position is in range. */
  lemma SmallEnoughSuffices(j: Job)
    requires JobOk(j) && Packable(HeaderOf(j)) && j.threshold <= 100 && SmallEnough(j)
    ensures Written(j) && InRange(j)
  {
    hide Align, Quot, Pos, Packable, HeaderOf, IsPlain, IsMarked, MarkPlain, Base, Body;
    forall k: nat | k < Count(j) ensures Quot(Pos(j, k), Align(j)) < TOP && Entry(j, k) < WORD {
      PosBound(j, k);
      MarkBack(Quot(Pos(j, k), Align(j)), IsPlain(j, k));
    }
    BodySize(j, Count(j));
    BlockBounds(j, Count(j));
    QuotBound(End(j), Align(j), TOP);
    NoAlignError(j);
  }

  lemma NoAlignError(j: Job)
    requires JobOk(j) && InRange(j)
    ensures !AlignError(j)
  {
    hide Align, Quot, Pos, IsPlain;
  }

  // ----- when they are not -----

  /** A plain block whose position reaches the top bit is not refused; it is read 2^31 units too early. */
  lemma PlainWraps(j: Job, k: nat)
    requires JobOk(j) && k < Count(j) && IsPlain(j, k) && TOP <= Quot(Pos(j, k), Align(j)) < WORD
    ensures IsMarked(Entry(j, k)) && Unmarked(Entry(j, k)) == Quot(Pos(j, k), Align(j)) - TOP
  {
    hide Align, Pos, Count, IsPlain, Quot;
  }

  lemma {:induction false} PlainBody(j: Job, k: nat)
    requires JobOk(j) && k <= Count(j) && AlignOf(j) == 0
    requires forall i: nat :: i < k ==> IsPlain(j, i)
    ensures |Padded(j, k)| == k * j.bs
    decreases k
  {
    hide Count, IsPlain, Base;
    assert Gap(Base(j) + |Body(j, k)|, 1) == 0;
    if k > 0 {
      PlainBody(j, k - 1);
    }
  }

  /**
   Alignment grows only with every 2 GiB of image, but the header and the index come on top: an image just under
   2 GiB that does not compress is written without complaint with its last block indexed at the wrong place.
   */
  lemma JustUnderTwoGigWraps(j: Job)
    requires JobOk(j) && Packable(HeaderOf(j)) && Count(j) > 0 && |j.image| < TOP && (forall k: nat :: k < Count(j) ==> IsPlain(j, k))
    requires Base(j) + (Count(j) - 1) * j.bs >= TOP && Base(j) + |j.image| < WORD
    ensures var k := Count(j) - 1;
            Written(j) && IsMarked(Entry(j, k)) && Unmarked(Entry(j, k)) * Align(j) == Pos(j, k) - TOP
  {
    hide Count, IsPlain, Padded, Body, MarkPlain, IsMarked, Unmarked, Block;
    assert AlignOf(j) == 0 && Align(j) == 1;
    forall i: nat | i < Count(j) ensures Pos(j, i) == Base(j) + i * j.bs && Entry(j, i) < WORD {
      PlainBody(j, i);
      BlockBounds(j, i);
      QuotOne(Pos(j, i));
      MarkWord(Pos(j, i));
    }
    PlainBody(j, Count(j));
    BlockBounds(j, Count(j));
    PaddedHolds(j, Count(j));
    QuotOne(End(j));
    PlainWraps(j, Count(j) - 1);
  }

  lemma QuotOne(pos: nat)
    ensures Quot(pos, 1) == pos
  {
  }

  lemma MarkWord(i: nat)
    requires i < WORD
    ensures MarkPlain(i) < WORD
  {
  }
}
