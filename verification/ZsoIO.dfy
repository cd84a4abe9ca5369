/** The loops of the ZSO tool (pc/ziso.py). */
module ZsoIO {
  import opened Text
  import opened ZsoFormat
  import opened Zso

  /** lz4_decompress, where the loop would end: it never does when no prefix of the data decompresses. */
  method Lz4Decompress(c: Codec, data: seq<byte>, bs: nat) returns (r: Option<seq<byte>>)
    ensures r == Strip(c, data, bs)
  {
    var compressed := data;
    while true
      invariant Strip(c, compressed, bs) == Strip(c, data, bs)
      decreases |compressed|
    {
      r := c.decompress(compressed, bs);
      if r.Some? || compressed == [] {
        return;
      }
      compressed := compressed[..|compressed| - 1];
    }
  }

  /** set_align. */
  method SetAlign(out: seq<byte>, pad: byte, unit: nat) returns (aligned: seq<byte>)
    requires unit > 0
    ensures aligned == out + seq(Gap(|out|, unit), i => pad)
  {
    aligned := out;
    if |out| % unit != 0 {
      aligned := out + seq(unit - |out| % unit, i => pad);
    }
  }

  lemma BodyNext(j: Job, k: nat)
    requires JobOk(j) && k < Count(j)
    ensures Body(j, k + 1) == Padded(j, k) + Stored(j, k)
    ensures Padded(j, k) == Body(j, k) + Padding(j, Gap(Base(j) + |Body(j, k)|, Align(j)))
  {
  }

  lemma EntryIs(j: Job, k: nat)
    requires JobOk(j) && k < Count(j)
    ensures Entry(j, k) == if IsPlain(j, k) then MarkPlain(Quot(Pos(j, k), Align(j))) else Quot(Pos(j, k), Align(j))
    ensures Pos(j, k) == Base(j) + |Padded(j, k)|
  {
  }

  /** The block loop of compress_zso behind the header and the empty index; None is the align error. */
  method CompressBlocks(j: Job, head: seq<byte>) returns (r: Option<(seq<byte>, seq<nat>)>)
    requires JobOk(j) && |head| == Base(j)
    ensures r.None? <==> AlignError(j)
    ensures r.Some? ==> r.value.0 == head + Body(j, Count(j)) && r.value.1 == Index(j)
  {
    hide Align, Count, Base, Body, Padded, Pos, Quot, Gap, Entry, IsMarked, MarkPlain;
    var n, unit := Count(j), Align(j);
    var out, index, block := head, seq(n + 1, i => 0), 0;
    assert Body(j, 0) == [] by { BodyStart(j); }
    while block < n
      invariant block <= n && out == head + Body(j, block) && |index| == n + 1
      invariant forall k: nat :: k < block ==> index[k] == Entry(j, k)
      invariant forall k: nat :: k < block ==> IsPlain(j, k) || !IsMarked(Quot(Pos(j, k), unit))
    {
      BodyNext(j, block);
      EntryIs(j, block);
      var x := Block(j, block);
      var z := j.codec.compress(x);
      out := SetAlign(out, j.pad, unit);
      assert out == head + Padded(j, block);
      index := index[block := Quot(|out|, unit)];
      if 100 * |z| >= j.threshold * |x| {
        z := x;
        index := index[block := MarkPlain(index[block])];
      } else if IsMarked(index[block]) {
        return None;
      }
      out := out + z;
      block := block + 1;
    }
    index := index[block := Quot(|out|, unit)];
    assert index[n] == Entry(j, n) by { EntryLast(j); }
    assert index == Index(j);
    r := Some((out, index));
  }

  lemma BodyStart(j: Job)
    requires JobOk(j)
    ensures Body(j, 0) == []
  {
  }

  lemma EntryLast(j: Job)
    requires JobOk(j)
    ensures Entry(j, Count(j)) == Quot(Base(j) + |Body(j, Count(j))|, Align(j))
  {
  }

  /** compress_zso: the file, or None when packing fails or a block hits the align error. */
  method CompressZso(j: Job) returns (r: Option<seq<byte>>)
    requires JobOk(j)
    ensures r.Some? <==> Written(j)
    ensures r.Some? ==> r.value == FileOf(j)
  {
    hide Packable, PackHeader, PackWords, Count, Body, AlignError, Entry;
    if !Packable(HeaderOf(j)) {
      return None;
    }
    var n := Count(j);
    var header := PackHeader(HeaderOf(j));
    var head := header + seq(4 * (n + 1), i => 0);
    var written := CompressBlocks(j, head);
    if written.None? {
      return None;
    }
    var (out, index) := written.value;
    if k: nat :| k < |index| && index[k] >= WORD {
      assert Entry(j, k) >= WORD;
      return None;
    }
    assert forall k: nat :: k <= n ==> index[k] == Entry(j, k);
    out := out[..|header|] + PackWords(index) + out[|header| + 4 * (n + 1)..];
    r := Some(out);
  }

  /** decompress_zso. */
  method DecompressZso(c: Codec, f: seq<byte>) returns (r: Option<seq<byte>>)
    ensures r == Decompress(c, f)
  {
    hide ReadIndex, ReadHeader;
    var head := ReadHeader(f);
    if head.None? {
      return None;
    }
    var (h, ver, align) := head.value;
    if !HeaderOk(h, ver) {
      return None;
    }
    var n := Quot(h.totalBytes, h.blockSize);
    if HEADER_SIZE + 4 * (n + 1) > |f| || (align < 0 && n > 0) {
      return None;
    }
    var index := ReadIndex(f, n + 1);
    r := DecompressBlocks(c, f, index, h.totalBytes, h.blockSize, if align < 0 then 1 else Pow2(align));
  }

  method DecompressBlocks(c: Codec, f: seq<byte>, index: seq<nat>, total: nat, bs: nat, unit: nat) returns (r: Option<seq<byte>>)
    requires |index| > 0
    ensures r == Output(c, f, index, total, bs, unit, |index| - 1)
  {
    hide Output;
    var out: seq<byte>, block := [], 0;
    OutputTurn(c, f, index, total, bs, unit, 0);
    while block < |index| - 1
      invariant block < |index| && Output(c, f, index, total, bs, unit, block) == Some(out)
    {
      OutputTurn(c, f, index, total, bs, unit, block);
      var data := DecompressBlock(c, f, index, total, bs, unit, block);
      if data.None? {
        OutputLost(c, f, index, total, bs, unit, block + 1, |index| - 1);
        return None;
      }
      out := out + data.value;
      block := block + 1;
    }
    r := Some(out);
  }

  lemma OutputTurn(c: Codec, f: seq<byte>, index: seq<nat>, total: nat, bs: nat, unit: nat, k: nat)
    requires k < |index|
    ensures Output(c, f, index, total, bs, unit, 0) == Some([])
    ensures k + 1 < |index| && Output(c, f, index, total, bs, unit, k).Some? ==>
              var block := ReadBlock(c, f, index, total, bs, unit, k);
              Output(c, f, index, total, bs, unit, k + 1) ==
              if block.None? then None else Some(Output(c, f, index, total, bs, unit, k).value + block.value)
  {
    hide ReadBlock;
  }

  lemma {:induction false} OutputLost(c: Codec, f: seq<byte>, index: seq<nat>, total: nat, bs: nat, unit: nat, k: nat, n: nat)
    requires k <= n < |index| && Output(c, f, index, total, bs, unit, k).None?
    ensures Output(c, f, index, total, bs, unit, n).None?
    decreases n
  {
    hide ReadBlock;
    if k < n {
      OutputLost(c, f, index, total, bs, unit, k, n - 1);
    }
  }

  /** One turn of the block loop of decompress_zso. */
  method DecompressBlock(c: Codec, f: seq<byte>, index: seq<nat>, total: nat, bs: nat, unit: nat, block: nat)
    returns (r: Option<seq<byte>>)
    requires block + 1 < |index|
    ensures r == ReadBlock(c, f, index, total, bs, unit, block)
  {
    hide SeekRead, Strip, IsMarked, Unmarked;
    var i := index[block];
    var plain := IsMarked(i);
    i := Unmarked(i);
    var pos := i * unit;
    var size: int := bs;
    if !plain {
      var i2 := Unmarked(index[block + 1]);
      size := (i2 - i) * unit;
      if block == |index| - 2 {
        size := total - pos;
      }
    }
    r := SeekRead(f, pos, size);
    if r.Some? && !plain {
      r := Lz4Decompress(c, r.value, bs);
    }
    if r.Some? && |r.value| != bs {
      r := None;
    }
  }
}
