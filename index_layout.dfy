/** The layout the package builder writes for `hierarchy.txt` and
    `tag_table.txt`, and the proof that the reader of `AssetIndex` gets the
    blocks back from it. */
module IndexLayout {
  import opened Common
  import opened Numbers
  import opened AssetTree
  import opened AssetIndex

  /** How the package builder lays out one block, as the reader expects. */
  function WriteBlock(b: Block): (lines: seq<string>)
    requires |b.Ids| <= Int32Max && forall x :: x in b.Ids ==> InInt32(x.Internal)
    ensures |lines| == 2 + |b.Ids|
  {
    [b.Key, FormatInt32(|b.Ids|)] + WriteIds(b.Ids)
  }

  function WriteIds(ids: seq<AssetId>): (lines: seq<string>)
    requires forall x :: x in ids ==> InInt32(x.Internal)
    ensures |lines| == |ids|
  {
    if ids == [] then [] else [FormatInt32(ids[0].Internal)] + WriteIds(ids[1..])
  }

  predicate Writable(bs: seq<Block>)
  {
    forall k :: 0 <= k < |bs| ==> |bs[k].Ids| <= Int32Max && forall x :: x in bs[k].Ids ==> InInt32(x.Internal)
  }

  function WriteBlocks(bs: seq<Block>): seq<string>
    requires Writable(bs)
  {
    if bs == [] then [] else WriteBlock(bs[0]) + WriteBlocks(bs[1..])
  }

  /** Written id lines are the first id's line followed by the rest's. */
  lemma WrittenIdsSplit(lines: seq<string>, j: nat, ids: seq<AssetId>)
    requires ids != [] && forall x :: x in ids ==> InInt32(x.Internal)
    requires j + |ids| <= |lines| && lines[j..j + |ids|] == WriteIds(ids)
    ensures lines[j] == FormatInt32(ids[0].Internal)
    ensures lines[j + 1..j + |ids|] == WriteIds(ids[1..])
  {
    var w := WriteIds(ids);
    assert w == [FormatInt32(ids[0].Internal)] + WriteIds(ids[1..]);
    assert lines[j] == w[0];
    assert lines[j + 1..j + |ids|] == w[1..];
  }

  /** One written id line read back: reading goes on with that id. */
  lemma ReadIdsStep(lines: seq<string>, j: nat, n: nat, acc: seq<AssetId>, x: int)
    requires InInt32(x) && j < |lines| && n > 0 && lines[j] == FormatInt32(x)
    ensures ReadIds(lines, j, n, acc) == ReadIds(lines, j + 1, n - 1, acc + [AssetId(x)])
  {
    ParseFormatRoundTrip(x);
  }

  /** The first written id line is read as the first id, and the rest of
      the lines are the rest's layout. */
  lemma WrittenIdsStep(lines: seq<string>, j: nat, ids: seq<AssetId>, acc: seq<AssetId>)
    requires ids != [] && forall x :: x in ids ==> InInt32(x.Internal)
    requires j + |ids| <= |lines| && lines[j..j + |ids|] == WriteIds(ids)
    ensures ReadIds(lines, j, |ids|, acc) == ReadIds(lines, j + 1, |ids| - 1, acc + [ids[0]])
    ensures lines[j + 1..j + |ids|] == WriteIds(ids[1..])
  {
    WrittenIdsSplit(lines, j, ids);
    ReadIdsStep(lines, j, |ids|, acc, ids[0].Internal);
  }

  lemma {:induction false} IdsRoundTrip(lines: seq<string>, j: nat, ids: seq<AssetId>, acc: seq<AssetId>)
    requires forall x :: x in ids ==> InInt32(x.Internal)
    requires j + |ids| <= |lines| && lines[j..j + |ids|] == WriteIds(ids)
    ensures ReadIds(lines, j, |ids|, acc) == Success(acc + ids)
    decreases |ids|
  {
    if ids != [] {
      var rest, acc' := ids[1..], acc + [ids[0]];
      assert acc' + rest == acc + ids;
      assert forall x :: x in rest ==> InInt32(x.Internal);
      WrittenIdsStep(lines, j, ids, acc);
      IdsRoundTrip(lines, j + 1, rest, acc');
    } else {
      assert acc + ids == acc;
    }
  }

  /** One block read back from its layout at line `i`. */
  lemma BlockRoundTrip(lines: seq<string>, i: nat, b: Block)
    requires |b.Ids| <= Int32Max && forall x :: x in b.Ids ==> InInt32(x.Internal)
    requires i + 2 + |b.Ids| <= |lines| && lines[i..i + 2 + |b.Ids|] == WriteBlock(b)
    ensures ReadBlock(lines, i) == Success(b)
  {
    var n := |b.Ids|;
    var w := WriteBlock(b);
    assert lines[i] == w[0] == b.Key;
    assert lines[i + 1] == w[1] == FormatInt32(n);
    ParseFormatRoundTrip(n);
    assert lines[i + 2..i + 2 + n] == w[2..] == WriteIds(b.Ids);
    IdsRoundTrip(lines, i + 2, b.Ids, []);
    assert [] + b.Ids == b.Ids;
  }

  lemma WritableTail(bs: seq<Block>)
    requires bs != [] && Writable(bs)
    ensures Writable(bs[1..])
  {
    forall k | 0 <= k < |bs[1..]| ensures bs[1..][k] == bs[k + 1] {
    }
  }

  lemma WriteBlocksSplit(lines: seq<string>, i: nat, bs: seq<Block>)
    requires bs != [] && Writable(bs)
    requires i <= |lines| && lines[i..] == WriteBlocks(bs)
    ensures Writable(bs[1..])
    ensures i + 2 + |bs[0].Ids| <= |lines|
    ensures lines[i..i + 2 + |bs[0].Ids|] == WriteBlock(bs[0])
    ensures lines[i + 2 + |bs[0].Ids|..] == WriteBlocks(bs[1..])
  {
    WritableTail(bs);
    var w := WriteBlock(bs[0]);
    assert lines[i..] == w + WriteBlocks(bs[1..]);
    assert lines[i..][..|w|] == lines[i..i + |w|];
    assert lines[i..][|w|..] == lines[i + |w|..];
  }

  /** `bs` laid out from line `i` to the end of `lines`, one block at a
      time. The definition runs through three mutually recursive
      predicates so that a block's lines stay a few unfoldings away from a
      proof that only steps over them. */
  ghost predicate LaidOut(lines: seq<string>, i: nat, bs: seq<Block>)
    decreases |bs|, 2
  {
    if bs == [] then i == |lines| else HeadLaidOut(lines, i, bs)
  }

  /** The first block can be written ... */
  ghost predicate HeadLaidOut(lines: seq<string>, i: nat, bs: seq<Block>)
    requires bs != []
    decreases |bs|, 1
  {
    |bs[0].Ids| <= Int32Max && (forall x :: x in bs[0].Ids ==> InInt32(x.Internal))
    && BlockLaidOut(lines, i, bs)
  }

  /** ... its lines come first, and the rest follow. */
  ghost predicate BlockLaidOut(lines: seq<string>, i: nat, bs: seq<Block>)
    requires bs != [] && |bs[0].Ids| <= Int32Max && forall x :: x in bs[0].Ids ==> InInt32(x.Internal)
    decreases |bs|, 0
  {
    i + 2 + |bs[0].Ids| <= |lines| && lines[i..i + 2 + |bs[0].Ids|] == WriteBlock(bs[0])
    && LaidOut(lines, i + 2 + |bs[0].Ids|, bs[1..])
  }

  /** The written lines are a layout of the blocks. */
  lemma {:induction false} WrittenLaidOut(lines: seq<string>, i: nat, bs: seq<Block>)
    requires Writable(bs)
    requires i <= |lines| && lines[i..] == WriteBlocks(bs)
    ensures LaidOut(lines, i, bs)
    decreases |bs|
  {
    if bs != [] {
      WriteBlocksSplit(lines, i, bs);
      WrittenLaidOut(lines, i + 2 + |bs[0].Ids|, bs[1..]);
      assert BlockLaidOut(lines, i, bs);
    }
  }

  /** The first block of a layout is read back, and the rest is a layout. */
  lemma LaidOutStep(lines: seq<string>, i: nat, bs: seq<Block>)
    requires bs != [] && LaidOut(lines, i, bs)
    ensures LaidOut(lines, i + 2 + |bs[0].Ids|, bs[1..])
    ensures i < |lines| && ReadBlock(lines, i) == Success(bs[0])
  {
    assert HeadLaidOut(lines, i, bs);
    assert BlockLaidOut(lines, i, bs);
    BlockRoundTrip(lines, i, bs[0]);
  }

  /** Reading the blocks back from their layout gives the blocks. */
  lemma {:induction false} BlocksRoundTrip(lines: seq<string>, i: nat, bs: seq<Block>, acc: seq<Block>)
    requires LaidOut(lines, i, bs)
    ensures ReadBlocks(lines, i, acc) == Success(acc + bs)
    decreases |bs|
  {
    if bs == [] {
      assert acc + bs == acc;
    } else {
      var b, rest, j := bs[0], bs[1..], i + 2 + |bs[0].Ids|;
      assert acc + [b] + rest == acc + bs;
      LaidOutStep(lines, i, bs);
      ReadBlocksStep(lines, i, acc, b);
      BlocksRoundTrip(lines, j, rest, acc + [b]);
    }
  }

  /** Every writable list of blocks survives its layout. */
  lemma BlocksRead(bs: seq<Block>)
    requires Writable(bs)
    ensures ReadBlocks(WriteBlocks(bs), 0, []) == Success(bs)
  {
    var lines := WriteBlocks(bs);
    assert lines[0..] == lines;
    WrittenLaidOut(lines, 0, bs);
    BlocksRoundTrip(lines, 0, bs, []);
    assert [] + bs == bs;
  }
}
