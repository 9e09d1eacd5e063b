/** Opening an asset package: the index tables the constructor of
    `AssetPackage` (Walgelijk.AssetManager/AssetPackage.cs) reads from the
    archive.

    The archive is a map from entry name to the entry's text, already split
    into lines as `StreamReader.ReadLine` returns them; reading past the last
    line is the source's `null`. The four well-known entries are read in
    the order `package.json`, `guid_table.txt`, `hierarchy.txt`,
    `tag_table.txt`; the first problem met aborts the whole construction. */
module AssetIndex {
  import opened Common
  import opened Numbers
  import opened AssetTree

  /** Entry name -> the entry's lines. */
  type Archive = map<string, seq<string>>

  /** A runtime type, compared by an `instanceOf` relation the package is
      given. */
  type TypeTag = nat

  /** Every exception the package throws, by cause. */
  datatype PackageError =
    | MissingEntry(key: string)
    | IdNotInteger(line: string)
    | MissingPath(idLine: string)
    | InvalidPath(path: string)
    | DuplicateId(guid: int)
    | MissingLine
    | NotAnInteger(line: string)
    | NegativeCount(count: int)
    | IdIsNone
    | UnknownAsset(asset: AssetId)
    | MissingAssetEntry(asset: AssetId, path: string)
    | MissingMetadata(asset: AssetId, path: string)
    | ObjectDisposed
    | TypeMismatch(asset: AssetId, cached: TypeTag, requested: TypeTag)
    | Reentrancy(asset: AssetId)
    | NullResult(asset: AssetId)
    | DeserialiserFailed(message: string)
    | CacheInsertFailed(asset: AssetId)
    | TaskAlreadyStarted

  // ------------------------------------------------------------ guid table

  /** The guid table from line `i` on, added to `table`: pairs of an id line
      and a path line. An id line that is not an integer, an id with no path
      line after it, a path the package's path check rejects and an id
      already in the table each abort reading, in that order. */
  function ReadGuidTable(lines: seq<string>, validPath: string -> bool, i: nat, table: map<int, string>)
    : (r: Result<map<int, string>, PackageError>)
    requires i <= |lines|
    decreases |lines| - i
  {
    if i == |lines| then Success(table)
    else match ParseInt32(lines[i])
      case None => Failure(IdNotInteger(lines[i]))
      case Some(id) =>
        if i + 1 == |lines| then Failure(MissingPath(lines[i]))
        else if !validPath(lines[i + 1]) then Failure(InvalidPath(lines[i + 1]))
        else if id in table then Failure(DuplicateId(id))
        else ReadGuidTable(lines, validPath, i + 2, table[id := lines[i + 1]])
  }

  /** The lines from `i` on are whole pairs, every id line is an integer
      not yet in `table` and not repeated, and every path passes the check. */
  predicate GuidLinesOk(lines: seq<string>, validPath: string -> bool, i: nat, table: map<int, string>)
    requires i <= |lines|
  {
    (|lines| - i) % 2 == 0 &&
    (forall j :: i <= j < |lines| && (j - i) % 2 == 0 ==> ParseInt32(lines[j]).Some?) &&
    (forall j :: i <= j < |lines| && (j - i) % 2 == 1 ==> validPath(lines[j])) &&
    (forall j :: i <= j < |lines| && (j - i) % 2 == 0 && ParseInt32(lines[j]).Some? ==>
       ParseInt32(lines[j]).value !in table) &&
    (forall j, k :: i <= j < k < |lines| && (j - i) % 2 == 0 && (k - i) % 2 == 0 ==>
       ParseInt32(lines[j]) != ParseInt32(lines[k]))
  }

  /** A first pair that passes its checks leaves the remaining lines
      well-formed for the extended table exactly when all lines were. */
  lemma GuidLinesStep(lines: seq<string>, validPath: string -> bool, i: nat, table: map<int, string>)
    requires i + 1 < |lines| && ParseInt32(lines[i]).Some? && validPath(lines[i + 1])
    requires ParseInt32(lines[i]).value !in table
    ensures GuidLinesOk(lines, validPath, i, table) <==>
      GuidLinesOk(lines, validPath, i + 2, table[ParseInt32(lines[i]).value := lines[i + 1]])
  {
    if GuidLinesOk(lines, validPath, i + 2, table[ParseInt32(lines[i]).value := lines[i + 1]]) {
      GuidLinesGrow(lines, validPath, i, table);
    }
    if GuidLinesOk(lines, validPath, i, table) {
      GuidLinesShrink(lines, validPath, i, table);
    }
  }

  /** Well-formed lines stay well-formed past their first pair, for the
      table that pair extends. */
  lemma GuidLinesShrink(lines: seq<string>, validPath: string -> bool, i: nat, table: map<int, string>)
    requires i + 1 < |lines| && ParseInt32(lines[i]).Some?
    requires GuidLinesOk(lines, validPath, i, table)
    ensures GuidLinesOk(lines, validPath, i + 2, table[ParseInt32(lines[i]).value := lines[i + 1]])
  {
    var t := table[ParseInt32(lines[i]).value := lines[i + 1]];
    forall j | i + 2 <= j < |lines| && (j - i - 2) % 2 == 0 && ParseInt32(lines[j]).Some?
      ensures ParseInt32(lines[j]).value !in t
    {
      assert ParseInt32(lines[i]) != ParseInt32(lines[j]);
    }
  }

  /** A first pair that passes its checks, in front of lines well-formed
      for the table it extends, gives well-formed lines. */
  lemma GuidLinesGrow(lines: seq<string>, validPath: string -> bool, i: nat, table: map<int, string>)
    requires i + 1 < |lines| && ParseInt32(lines[i]).Some? && validPath(lines[i + 1])
    requires ParseInt32(lines[i]).value !in table
    requires GuidLinesOk(lines, validPath, i + 2, table[ParseInt32(lines[i]).value := lines[i + 1]])
    ensures GuidLinesOk(lines, validPath, i, table)
  {
    GuidLinesExtend(lines, validPath, i, table);
    forall j | i <= j < |lines| && (j - i) % 2 == 0 && ParseInt32(lines[j]).Some?
      ensures ParseInt32(lines[j]).value !in table
    {
      if j != i {
        assert (j - (i + 2)) % 2 == 0;
      }
    }
  }

  /** The remaining lines' ids differ from each other and from the first. */
  lemma GuidLinesExtend(lines: seq<string>, validPath: string -> bool, i: nat, table: map<int, string>)
    requires i + 1 < |lines| && ParseInt32(lines[i]).Some?
    requires GuidLinesOk(lines, validPath, i + 2, table[ParseInt32(lines[i]).value := lines[i + 1]])
    ensures forall j, k :: i <= j < k < |lines| && (j - i) % 2 == 0 && (k - i) % 2 == 0 ==>
       ParseInt32(lines[j]) != ParseInt32(lines[k])
  {
    var t := table[ParseInt32(lines[i]).value := lines[i + 1]];
    forall j, k | i <= j < k < |lines| && (j - i) % 2 == 0 && (k - i) % 2 == 0
      ensures ParseInt32(lines[j]) != ParseInt32(lines[k])
    {
      if j == i {
        assert ParseInt32(lines[k]).value !in t;
      }
    }
  }

  /** Reading the guid table succeeds exactly on well-formed lines. */
  lemma {:induction false} GuidTableSucceeds(lines: seq<string>, validPath: string -> bool, i: nat, table: map<int, string>)
    requires i <= |lines|
    ensures ReadGuidTable(lines, validPath, i, table).Success? <==> GuidLinesOk(lines, validPath, i, table)
    decreases |lines| - i
  {
    if i < |lines| {
      var id := ParseInt32(lines[i]);
      if id.Some? && i + 1 < |lines| && validPath(lines[i + 1]) && id.value !in table {
        GuidLinesStep(lines, validPath, i, table);
        GuidTableSucceeds(lines, validPath, i + 2, table[id.value := lines[i + 1]]);
      } else if id.Some? && i + 1 < |lines| && validPath(lines[i + 1]) {
        assert ParseInt32(lines[i]).value in table;
      } else if id.Some? && i + 1 < |lines| {
        assert !validPath(lines[i + 1]);
      }
    }
  }

  /** On success the lines are whole pairs, one new table entry per pair,
      and nothing already in the table is overwritten. */
  lemma {:induction false} GuidTableSize(lines: seq<string>, validPath: string -> bool, i: nat, table: map<int, string>)
    requires i <= |lines|
    requires ReadGuidTable(lines, validPath, i, table).Success?
    ensures var t := ReadGuidTable(lines, validPath, i, table).value;
      |table| <= |t| && |lines| == i + 2 * (|t| - |table|) &&
      forall k :: k in table ==> k in t && t[k] == table[k]
    decreases |lines| - i
  {
    if i < |lines| {
      var id := ParseInt32(lines[i]).value;
      GuidTableSize(lines, validPath, i + 2, table[id := lines[i + 1]]);
    }
  }

  /** On success the pair whose id line is `j` is in the table. */
  lemma {:induction false} GuidTableHasPair(lines: seq<string>, validPath: string -> bool, i: nat, table: map<int, string>, j: nat)
    requires i <= j && j + 1 < |lines| && (j - i) % 2 == 0
    requires ReadGuidTable(lines, validPath, i, table).Success?
    ensures var t := ReadGuidTable(lines, validPath, i, table).value;
      ParseInt32(lines[j]).Some? && ParseInt32(lines[j]).value in t &&
      t[ParseInt32(lines[j]).value] == lines[j + 1]
    decreases j - i
  {
    var id := ParseInt32(lines[i]).value;
    var t1 := table[id := lines[i + 1]];
    if j == i {
      GuidTableSize(lines, validPath, i + 2, t1);
    } else {
      GuidTableHasPair(lines, validPath, i + 2, t1, j);
    }
  }

  /** The constructor's `while (true)` loop over the guid table. */
  method ReadGuidTableLines(lines: seq<string>, validPath: string -> bool) returns (r: Result<map<int, string>, PackageError>)
    ensures r == ReadGuidTable(lines, validPath, 0, map[])
  {
    var table: map<int, string> := map[];
    var i := 0;
    while true
      invariant i <= |lines|
      invariant ReadGuidTable(lines, validPath, 0, map[]) == ReadGuidTable(lines, validPath, i, table)
      decreases |lines| - i
    {
      if i == |lines| {
        return Success(table);
      }
      var idLine := lines[i];
      var id := ParseInt32(idLine);
      if id.None? {
        return Failure(IdNotInteger(idLine));
      }
      if i + 1 == |lines| {
        return Failure(MissingPath(idLine));
      }
      var path := lines[i + 1];
      if !validPath(path) {
        return Failure(InvalidPath(path));
      }
      if id.value in table {
        return Failure(DuplicateId(id.value));
      }
      table := table[id.value := path];
      i := i + 2;
    }
  }

  // ---------------------------------------------------------------- blocks

  /** A block of `hierarchy.txt` or `tag_table.txt`: a key line (a folder
      path or a tag) and the ids of the lines after its count line. */
  datatype Block = Block(Key: string, Ids: seq<AssetId>)

  /** `int.Parse(e.ReadLine()!)` for a count, then `new AssetId[count]`:
      a missing line, a line that is not an integer and a negative count
      each throw. */
  function ReadCount(lines: seq<string>, i: nat): (r: Result<nat, PackageError>)
    ensures r.Success? <==> i < |lines| && ParseInt32(lines[i]).Some? && ParseInt32(lines[i]).value >= 0
    ensures r.Success? ==> ParseInt32(lines[i]) == Some(r.value as int)
  {
    if i >= |lines| then Failure(MissingLine)
    else match ParseInt32(lines[i])
      case None => Failure(NotAnInteger(lines[i]))
      case Some(n) => if n < 0 then Failure(NegativeCount(n)) else Success(n)
  }

  /** The `n` id lines from line `j` on, appended to `acc`. */
  function ReadIds(lines: seq<string>, j: nat, n: nat, acc: seq<AssetId>): (r: Result<seq<AssetId>, PackageError>)
    requires j <= |lines|
    ensures r.Success? ==> j + n <= |lines| && |r.value| == |acc| + n && r.value[..|acc|] == acc
    decreases n
  {
    if n == 0 then Success(acc)
    else if j >= |lines| then Failure(MissingLine)
    else match ParseInt32(lines[j])
      case None => Failure(NotAnInteger(lines[j]))
      case Some(x) =>
        var r := ReadIds(lines, j + 1, n - 1, acc + [AssetId(x)]);
        assert r.Success? ==> r.value[..|acc| + 1][..|acc|] == r.value[..|acc|];
        r
  }

  /** Each id read is the value of its line. */
  lemma {:induction false} IdsParsed(lines: seq<string>, j: nat, n: nat, acc: seq<AssetId>)
    requires j <= |lines| && ReadIds(lines, j, n, acc).Success?
    ensures var r := ReadIds(lines, j, n, acc).value;
      forall q :: j <= q < j + n ==> ParseInt32(lines[q]) == Some(r[|acc| + q - j].Internal)
    decreases n
  {
    if n > 0 {
      var x := ParseInt32(lines[j]).value;
      IdsParsed(lines, j + 1, n - 1, acc + [AssetId(x)]);
    }
  }

  /** The block whose key is line `i`: its count line, then that many id
      lines. */
  function ReadBlock(lines: seq<string>, i: nat): (r: Result<Block, PackageError>)
    requires i < |lines|
    ensures r.Success? ==> r.value.Key == lines[i] && i + 2 + |r.value.Ids| <= |lines|
  {
    match ReadCount(lines, i + 1)
    case Failure(e) => Failure(e)
    case Success(count) =>
      match ReadIds(lines, i + 2, count, [])
      case Failure(e) => Failure(e)
      case Success(ids) => Success(Block(lines[i], ids))
  }

  /** The blocks from line `i` on, appended to `acc`; reading stops
      cleanly where a key line would be. */
  function ReadBlocks(lines: seq<string>, i: nat, acc: seq<Block>): (r: Result<seq<Block>, PackageError>)
    decreases |lines| - i
  {
    if i >= |lines| then Success(acc)
    else match ReadBlock(lines, i)
      case Failure(e) => Failure(e)
      case Success(b) => ReadBlocks(lines, i + 2 + |b.Ids|, acc + [b])
  }

  /** Past a block that reads, reading goes on with the block kept. */
  lemma ReadBlocksStep(lines: seq<string>, i: nat, acc: seq<Block>, b: Block)
    requires i < |lines| && ReadBlock(lines, i) == Success(b)
    ensures ReadBlocks(lines, i, acc) == ReadBlocks(lines, i + 2 + |b.Ids|, acc + [b])
  {
  }

  /** Reading never drops the blocks already read. */
  lemma {:induction false} ReadBlocksKeeps(lines: seq<string>, i: nat, acc: seq<Block>)
    requires ReadBlocks(lines, i, acc).Success?
    ensures |acc| <= |ReadBlocks(lines, i, acc).value|
    ensures ReadBlocks(lines, i, acc).value[..|acc|] == acc
    decreases |lines| - i
  {
    if i < |lines| {
      var b := ReadBlock(lines, i).value;
      ReadBlocksStep(lines, i, acc, b);
      ReadBlocksKeeps(lines, i + 2 + |b.Ids|, acc + [b]);
      var r := ReadBlocks(lines, i, acc).value;
      assert r[..|acc| + 1][..|acc|] == r[..|acc|];
    }
  }

  /** `int.Parse` of each id line into the array `new AssetId[count]`. */
  method ReadIdLines(lines: seq<string>, j: nat, count: nat) returns (r: Result<seq<AssetId>, PackageError>)
    requires j <= |lines|
    ensures r == ReadIds(lines, j, count, [])
  {
    var arr := new AssetId[count];
    for k := 0 to count
      invariant j + k <= |lines|
      invariant ReadIds(lines, j, count, []) == ReadIds(lines, j + k, count - k, arr[..k])
    {
      if j + k >= |lines| {
        return Failure(MissingLine);
      }
      var asset := ParseInt32(lines[j + k]);
      if asset.None? {
        return Failure(NotAnInteger(lines[j + k]));
      }
      arr[k] := AssetId(asset.value);
      assert arr[..k + 1] == arr[..k] + [AssetId(asset.value)];
    }
    assert arr[..] == arr[..count];
    return Success(arr[..]);
  }

  /** Building over one more block is applying it to the tree built so far. */
  lemma BuildTreeSnoc(fs: seq<Folder>, all: set<AssetId>, bs: seq<Block>, b: Block, next: (seq<Folder>, set<AssetId>))
    requires TreeOk(fs)
    requires next == ApplyBlock(BuildTree(fs, all, bs).0, BuildTree(fs, all, bs).1, b)
    ensures next == BuildTree(fs, all, bs + [b])
  {
    assert Init(bs + [b]) == bs && Last(bs + [b]) == b;
  }

  /** The count line and the id lines of the block at line `i`, read as
      the constructor's loops read them. */
  method ReadBlockLines(lines: seq<string>, i: nat) returns (r: Result<Block, PackageError>)
    requires i < |lines|
    ensures r == ReadBlock(lines, i)
  {
    var count := ReadCount(lines, i + 1);
    if count.Failure? {
      return Failure(count.error);
    }
    var ids := ReadIdLines(lines, i + 2, count.value);
    if ids.Failure? {
      return Failure(ids.error);
    }
    return Success(Block(lines[i], ids.value));
  }

  // ---------------------------------------------------- hierarchy and tags

  /** The ids of a list, as a set. */
  function IdSet(ids: seq<AssetId>): (s: set<AssetId>)
    ensures forall x :: x in s <==> x in ids
  {
    set x | x in ids
  }

  /** One `hierarchy.txt` block: the folder is ensured, its direct ids are
      set to the block's, replacing any earlier list, and the ids join
      `All`. */
  function ApplyBlock(fs: seq<Folder>, all: set<AssetId>, b: Block): (r: (seq<Folder>, set<AssetId>))
    requires TreeOk(fs)
    ensures TreeOk(r.0) && Extends(fs, r.0)
  {
    var (gs, f) := Ensure(fs, b.Key, false);
    ExtendsTrans(fs, gs, SetAssets(gs, f, b.Ids));
    (SetAssets(gs, f, b.Ids), all + IdSet(b.Ids))
  }

  /** `ApplyBlock` over a folder already ensured. */
  lemma ApplyEnsured(fs: seq<Folder>, all: set<AssetId>, b: Block, gs: seq<Folder>, f: nat)
    requires TreeOk(fs) && (gs, f) == Ensure(fs, b.Key, false)
    ensures f < |gs| && ApplyBlock(fs, all, b) == (SetAssets(gs, f, b.Ids), all + IdSet(b.Ids))
  {
  }

  /** A block adds exactly its ids to `All`, and `All` keeps holding every
      id some folder holds. */
  lemma ApplyBlockAssets(fs: seq<Folder>, all: set<AssetId>, b: Block)
    requires TreeOk(fs)
    ensures forall x :: x in ApplyBlock(fs, all, b).1 <==> x in all || x in b.Ids
    ensures AssetsIn(fs, all) ==> AssetsIn(ApplyBlock(fs, all, b).0, ApplyBlock(fs, all, b).1)
  {
    var (gs, f) := Ensure(fs, b.Key, false);
    var (hs, a) := ApplyBlock(fs, all, b);
    assert Grown(fs, gs);
    if AssetsIn(fs, all) {
      forall n, x | 0 <= n < |hs| && x in hs[n].Assets ensures x in a {
        if n != f && n < |fs| {
          assert hs[n].Assets == fs[n].Assets;
        }
      }
    }
  }

  /** The hierarchy blocks applied in file order. The step for the last
      block is a function of its own in the same recursion, so that a
      proof about the tree built so far does not unfold a block it does
      not look at. */
  function BuildTree(fs: seq<Folder>, all: set<AssetId>, bs: seq<Block>): (r: (seq<Folder>, set<AssetId>))
    requires TreeOk(fs)
    ensures TreeOk(r.0)
    decreases |bs|, 1
  {
    if bs == [] then (fs, all) else BuildTreeLast(fs, all, bs)
  }

  /** The last block applied to the tree built from the others. */
  function BuildTreeLast(fs: seq<Folder>, all: set<AssetId>, bs: seq<Block>): (r: (seq<Folder>, set<AssetId>))
    requires TreeOk(fs) && bs != []
    ensures TreeOk(r.0)
    decreases |bs|, 0
  {
    var (gs, a) := BuildTree(fs, all, Init(bs));
    ApplyBlock(gs, a, Last(bs))
  }

  /** The tag blocks in file order; a repeated tag replaces the earlier
      block (`AddOrSet`). */
  function BuildTags(bs: seq<Block>): map<string, seq<AssetId>>
    decreases |bs|
  {
    if bs == [] then map[] else BuildTags(Init(bs))[Last(bs).Key := Last(bs).Ids]
  }

  /** After a block, its path resolves to the folder holding exactly the
      block's ids. */
  lemma BlockSetsFolder(fs: seq<Folder>, all: set<AssetId>, b: Block)
    requires TreeOk(fs) && Clean(StripSlash(b.Key))
    ensures var gs := ApplyBlock(fs, all, b).0;
      Resolve(gs, StripSlash(b.Key)).Some? && gs[Resolve(gs, StripSlash(b.Key)).value].Assets == b.Ids
  {
    var e := Ensure(fs, b.Key, false);
    EnsureResolves(fs, b.Key);
    var hs := SetAssets(e.0, e.1, b.Ids);
    assert ApplyBlock(fs, all, b).0 == hs;
    ResolveKept(e.0, hs, StripSlash(b.Key));
  }

  /** The ids named by any of the blocks. */
  function NamedIds(bs: seq<Block>): (s: set<AssetId>)
    ensures forall x :: x in s <==> exists k :: 0 <= k < |bs| && x in bs[k].Ids
    decreases |bs|
  {
    if bs == [] then {}
    else
      var before := NamedIds(Init(bs));
      assert forall k :: 0 <= k < |Init(bs)| ==> Init(bs)[k] == bs[k];
      assert forall x :: x in Last(bs).Ids ==> x in bs[|bs| - 1].Ids;
      before + IdSet(Last(bs).Ids)
  }

  /** `All` is every id named in any hierarchy block, and nothing else. */
  lemma {:induction false} BuildTreeAll(fs: seq<Folder>, all: set<AssetId>, bs: seq<Block>)
    requires TreeOk(fs)
    ensures BuildTree(fs, all, bs).1 == all + NamedIds(bs)
    decreases |bs|
  {
    if bs != [] {
      BuildTreeAll(fs, all, Init(bs));
      var t := BuildTree(fs, all, Init(bs));
      assert BuildTree(fs, all, bs).1 == ApplyBlock(t.0, t.1, Last(bs)).1 == t.1 + IdSet(Last(bs).Ids);
    }
  }

  /** Every id some folder of the built tree holds is in the built `All`. */
  lemma {:induction false} BuildTreeAssetsIn(fs: seq<Folder>, all: set<AssetId>, bs: seq<Block>)
    requires TreeOk(fs) && AssetsIn(fs, all)
    ensures AssetsIn(BuildTree(fs, all, bs).0, BuildTree(fs, all, bs).1)
    decreases |bs|
  {
    if bs != [] {
      BuildTreeAssetsIn(fs, all, Init(bs));
      var (gs, a) := BuildTree(fs, all, Init(bs));
      ApplyBlockAssets(gs, a, Last(bs));
    }
  }

  /** The tag of the last block that names it maps to that block's ids. */
  lemma {:induction false} TagBlockWins(bs: seq<Block>, k: nat)
    requires k < |bs|
    requires forall m :: k < m < |bs| ==> bs[m].Key != bs[k].Key
    ensures bs[k].Key in BuildTags(bs) && BuildTags(bs)[bs[k].Key] == bs[k].Ids
    decreases |bs|
  {
    if k < |bs| - 1 {
      TagBlockWins(Init(bs), k);
    }
  }

  /** Exactly the tags some block names are in the tag table. */
  lemma {:induction false} TagKeys(bs: seq<Block>, key: string)
    ensures key in BuildTags(bs) <==> exists k :: 0 <= k < |bs| && bs[k].Key == key
    decreases |bs|
  {
    if bs != [] {
      TagKeys(Init(bs), key);
      assert forall k :: 0 <= k < |Init(bs)| ==> Init(bs)[k] == bs[k];
      if key == Last(bs).Key {
        assert bs[|bs| - 1].Key == key;
      }
    }
  }

  /** `hierarchy.txt`: the folder tree and `All`. */
  function Hierarchy(lines: seq<string>): Result<(seq<Folder>, set<AssetId>), PackageError>
  {
    match ReadBlocks(lines, 0, [])
    case Failure(e) => Failure(e)
    case Success(bs) => Success(BuildTree(InitialTree, {}, bs))
  }

  /** `tag_table.txt`: tag -> ids. */
  function TagTable(lines: seq<string>): Result<map<string, seq<AssetId>>, PackageError>
  {
    match ReadBlocks(lines, 0, [])
    case Failure(e) => Failure(e)
    case Success(bs) => Success(BuildTags(bs))
  }

  /** A block's folder ensured and given the block's ids, as the
      constructor's loop over `hierarchy.txt` does it; `bs` are the blocks
      applied so far. */
  method StoreBlock(fs: seq<Folder>, all: set<AssetId>, b: Block, ghost bs: seq<Block>) returns (gs: seq<Folder>, a: set<AssetId>)
    requires (fs, all) == BuildTree(InitialTree, {}, bs)
    ensures (gs, a) == BuildTree(InitialTree, {}, bs + [b])
  {
    var folder;
    gs, folder := EnsureHierarchyFolder(fs, b.Key);
    ApplyEnsured(fs, all, b, gs, folder);
    gs := SetAssets(gs, folder, b.Ids);
    a := all + IdSet(b.Ids);
    BuildTreeSnoc(InitialTree, {}, bs, b, (gs, a));
  }

  /** One pass of the constructor's loop over `hierarchy.txt`: the block
      at line `i` read, its folder ensured and given its ids; `bs` are the
      blocks read before line `i`. */
  method HierarchyBlock(lines: seq<string>, i: nat, fs: seq<Folder>, all: set<AssetId>, ghost bs: seq<Block>)
    returns (r: Result<nat, PackageError>, gs: seq<Folder>, a: set<AssetId>, ghost cs: seq<Block>)
    requires i < |lines|
    requires ReadBlocks(lines, 0, []) == ReadBlocks(lines, i, bs)
    requires (fs, all) == BuildTree(InitialTree, {}, bs)
    ensures r.Failure? ==> Hierarchy(lines) == Failure(r.error)
    ensures r.Success? ==> i < r.value <= |lines|
    ensures r.Success? ==> ReadBlocks(lines, 0, []) == ReadBlocks(lines, r.value, cs)
    ensures r.Success? ==> (gs, a) == BuildTree(InitialTree, {}, cs)
  {
    gs, a, cs := fs, all, bs;
    var block := ReadBlockLines(lines, i);
    if block.Failure? {
      assert ReadBlocks(lines, i, bs) == Failure(block.error);
      return Failure(block.error), gs, a, cs;
    }
    var j := i + 2 + |block.value.Ids|;
    cs := bs + [block.value];
    ReadBlocksStep(lines, i, bs, block.value);
    assert ReadBlocks(lines, 0, []) == ReadBlocks(lines, j, cs);
    gs, a := StoreBlock(fs, all, block.value, bs);
    r := Success(j);
  }

  /** The constructor's loop over `hierarchy.txt`. */
  method ReadHierarchyLines(lines: seq<string>) returns (r: Result<(seq<Folder>, set<AssetId>), PackageError>)
    ensures r == Hierarchy(lines)
  {
    var fs := InitialTree;
    var all: set<AssetId> := {};
    ghost var bs: seq<Block> := [];
    var i := 0;
    while i < |lines|
      invariant i <= |lines|
      invariant ReadBlocks(lines, 0, []) == ReadBlocks(lines, i, bs)
      invariant (fs, all) == BuildTree(InitialTree, {}, bs)
      decreases |lines| - i
    {
      var next;
      next, fs, all, bs := HierarchyBlock(lines, i, fs, all, bs);
      if next.Failure? {
        return Failure(next.error);
      }
      i := next.value;
    }
    return Success((fs, all));
  }

  /** The constructor's loop over `tag_table.txt`. */
  method ReadTagLines(lines: seq<string>) returns (r: Result<map<string, seq<AssetId>>, PackageError>)
    ensures r == TagTable(lines)
  {
    var tags: map<string, seq<AssetId>> := map[];
    ghost var bs: seq<Block> := [];
    var i := 0;
    while i < |lines|
      invariant i <= |lines|
      invariant ReadBlocks(lines, 0, []) == ReadBlocks(lines, i, bs)
      invariant tags == BuildTags(bs)
      decreases |lines| - i
    {
      var block := ReadBlockLines(lines, i);
      if block.Failure? {
        return Failure(block.error);
      }
      tags := tags[block.value.Key := block.value.Ids];
      assert Init(bs + [block.value]) == bs && Last(bs + [block.value]) == block.value;
      bs := bs + [block.value];
      i := i + 2 + |block.value.Ids|;
    }
    return Success(tags);
  }

  // ----------------------------------------------------------------- index

  /** Everything the constructor builds. */
  datatype Index = Index(
    Metadata: seq<string>,
    GuidTable: map<int, string>,
    Folders: seq<Folder>,
    All: set<AssetId>,
    Tags: map<string, seq<AssetId>>)

  /** The constructor, entry by entry. */
  function ReadIndex(archive: Archive, validPath: string -> bool): (r: Result<Index, PackageError>)
    ensures r.Success? ==> TreeOk(r.value.Folders)
    ensures r.Success? <==>
      "package.json" in archive &&
      "guid_table.txt" in archive && ReadGuidTable(archive["guid_table.txt"], validPath, 0, map[]).Success? &&
      "hierarchy.txt" in archive && ReadBlocks(archive["hierarchy.txt"], 0, []).Success? &&
      "tag_table.txt" in archive && ReadBlocks(archive["tag_table.txt"], 0, []).Success?
  {
    if "package.json" !in archive then Failure(MissingEntry("package.json"))
    else if "guid_table.txt" !in archive then Failure(MissingEntry("guid_table.txt"))
    else match ReadGuidTable(archive["guid_table.txt"], validPath, 0, map[])
      case Failure(e) => Failure(e)
      case Success(guid) =>
        if "hierarchy.txt" !in archive then Failure(MissingEntry("hierarchy.txt"))
        else match Hierarchy(archive["hierarchy.txt"])
          case Failure(e) => Failure(e)
          case Success(tree) =>
            if "tag_table.txt" !in archive then Failure(MissingEntry("tag_table.txt"))
            else match TagTable(archive["tag_table.txt"])
              case Failure(e) => Failure(e)
              case Success(tags) => Success(Index(archive["package.json"], guid, tree.0, tree.1, tags))
  }

  /** The constructor's body. */
  method ReadIndexEntries(archive: Archive, validPath: string -> bool) returns (r: Result<Index, PackageError>)
    ensures r == ReadIndex(archive, validPath)
  {
    if "package.json" !in archive {
      return Failure(MissingEntry("package.json"));
    }
    var metadata := archive["package.json"];
    if "guid_table.txt" !in archive {
      return Failure(MissingEntry("guid_table.txt"));
    }
    var guid := ReadGuidTableLines(archive["guid_table.txt"], validPath);
    if guid.Failure? {
      return Failure(guid.error);
    }
    if "hierarchy.txt" !in archive {
      return Failure(MissingEntry("hierarchy.txt"));
    }
    var tree := ReadHierarchyLines(archive["hierarchy.txt"]);
    if tree.Failure? {
      return Failure(tree.error);
    }
    if "tag_table.txt" !in archive {
      return Failure(MissingEntry("tag_table.txt"));
    }
    var tags := ReadTagLines(archive["tag_table.txt"]);
    if tags.Failure? {
      return Failure(tags.error);
    }
    return Success(Index(metadata, guid.value, tree.value.0, tree.value.1, tags.value));
  }

  // --------------------------------------------------------------- lookups

  /** `HasAsset`: the id is a key of the guid table. */
  predicate HasAsset(ix: Index, id: AssetId)
  {
    id.Internal in ix.GuidTable
  }

  /** `GetAssetPath`: the guid table's path, or an error for an unknown id. */
  function GetAssetPath(ix: Index, id: AssetId): (r: Result<string, PackageError>)
    ensures r.Success? <==> HasAsset(ix, id)
    ensures r.Success? ==> r.value == ix.GuidTable[id.Internal]
    ensures r.Failure? ==> r.error == UnknownAsset(id)
  {
    if id.Internal in ix.GuidTable then Success(ix.GuidTable[id.Internal]) else Failure(UnknownAsset(id))
  }

  /** `QueryTags`: the tag's ids, or nothing for an unknown tag. */
  function QueryTags(ix: Index, tag: string): seq<AssetId>
  {
    if tag in ix.Tags then ix.Tags[tag] else []
  }

  /** `EnumerateFolder(path, searchOption)`: nothing for a path that does
      not resolve. `slashLiteral` says whether the span is the literal "/"
      itself, the only "/" that names the root. */
  function EnumerateFolder(ix: Index, path: string, slashLiteral: bool, recursive: bool): (r: seq<AssetId>)
    requires TreeOk(ix.Folders)
    ensures match ResolveSpan(ix.Folders, path, slashLiteral)
      case None => r == []
      case Some(f) =>
        |ix.Folders[f].Assets| <= |r| && r[..|ix.Folders[f].Assets|] == ix.Folders[f].Assets &&
        (!recursive ==> r == ix.Folders[f].Assets)
  {
    match ResolveSpan(ix.Folders, path, slashLiteral)
    case None => []
    case Some(f) => Enumerate(ix.Folders, f, recursive)
  }

  /** A "/" built at run time is walked, not taken for the root: with no
      folder named "" under the root it enumerates nothing, while the
      literal "/" enumerates the root. */
  lemma RuntimeSlashEnumeratesNothing(ix: Index, recursive: bool)
    requires TreeOk(ix.Folders) && ChildNamed(ix.Folders, Root, "").None?
    ensures EnumerateFolder(ix, "/", false, recursive) == []
    ensures EnumerateFolder(ix, "/", true, recursive) == Enumerate(ix.Folders, Root, recursive)
  {
    assert EatFolder("/") == ("", "");
  }

  /** On success every key of the table was in `table` already or is the
      id of one of the id lines read. */
  lemma {:induction false} GuidTableKeys(lines: seq<string>, validPath: string -> bool, i: nat, table: map<int, string>, k: int)
    requires i <= |lines|
    requires ReadGuidTable(lines, validPath, i, table).Success?
    requires k in ReadGuidTable(lines, validPath, i, table).value
    ensures k in table || exists j :: i <= j < |lines| && (j - i) % 2 == 0 && ParseInt32(lines[j]) == Some(k)
    decreases |lines| - i
  {
    if i < |lines| {
      var id := ParseInt32(lines[i]).value;
      var t1 := table[id := lines[i + 1]];
      GuidTableKeys(lines, validPath, i + 2, t1, k);
      if k == id {
        assert ParseInt32(lines[i]) == Some(k);
      } else if k !in t1 {
        var j :| i + 2 <= j < |lines| && (j - i - 2) % 2 == 0 && ParseInt32(lines[j]) == Some(k);
        assert (j - i) % 2 == 0;
      }
    }
  }

  /** On an opened package, the id of every id line of `guid_table.txt`
      is an asset, with the next line as its path. */
  lemma HasAssetIdLine(archive: Archive, validPath: string -> bool, j: nat)
    requires ReadIndex(archive, validPath).Success?
    requires j + 1 < |archive["guid_table.txt"]| && j % 2 == 0
    ensures var lines := archive["guid_table.txt"];
      var ix := ReadIndex(archive, validPath).value;
      ParseInt32(lines[j]).Some? &&
      HasAsset(ix, AssetId(ParseInt32(lines[j]).value)) &&
      GetAssetPath(ix, AssetId(ParseInt32(lines[j]).value)) == Success(lines[j + 1])
  {
    var lines := archive["guid_table.txt"];
    assert ReadIndex(archive, validPath).value.GuidTable == ReadGuidTable(lines, validPath, 0, map[]).value;
    GuidTableHasPair(lines, validPath, 0, map[], j);
  }

  /** On an opened package, `HasAsset` holds only for the id of some id
      line of `guid_table.txt`. */
  lemma HasAssetOnlyIdLines(archive: Archive, validPath: string -> bool, id: AssetId)
    requires ReadIndex(archive, validPath).Success?
    requires HasAsset(ReadIndex(archive, validPath).value, id)
    ensures var lines := archive["guid_table.txt"];
      exists j :: 0 <= j < |lines| && j % 2 == 0 && ParseInt32(lines[j]) == Some(id.Internal)
  {
    var lines := archive["guid_table.txt"];
    assert ReadIndex(archive, validPath).value.GuidTable == ReadGuidTable(lines, validPath, 0, map[]).value;
    GuidTableKeys(lines, validPath, 0, map[], id.Internal);
  }

  /** The tag blocks of an opened package. */
  function TagBlocks(archive: Archive, validPath: string -> bool): seq<Block>
    requires ReadIndex(archive, validPath).Success?
  {
    ReadBlocks(archive["tag_table.txt"], 0, []).value
  }

  /** An opened package's tag query gives the ids of the last block of
      that tag. */
  lemma QueryTagsLastBlock(archive: Archive, validPath: string -> bool, k: nat)
    requires ReadIndex(archive, validPath).Success?
    requires k < |TagBlocks(archive, validPath)|
    requires forall m :: k < m < |TagBlocks(archive, validPath)| ==>
      TagBlocks(archive, validPath)[m].Key != TagBlocks(archive, validPath)[k].Key
    ensures var b := TagBlocks(archive, validPath)[k];
      QueryTags(ReadIndex(archive, validPath).value, b.Key) == b.Ids
  {
    var bs := TagBlocks(archive, validPath);
    assert ReadIndex(archive, validPath).value.Tags == BuildTags(bs);
    TagBlockWins(bs, k);
  }

  /** An opened package's tag query is empty for a tag no block names. */
  lemma QueryTagsUnknown(archive: Archive, validPath: string -> bool, tag: string)
    requires ReadIndex(archive, validPath).Success?
    requires forall k :: 0 <= k < |TagBlocks(archive, validPath)| ==> TagBlocks(archive, validPath)[k].Key != tag
    ensures QueryTags(ReadIndex(archive, validPath).value, tag) == []
  {
    var bs := TagBlocks(archive, validPath);
    assert ReadIndex(archive, validPath).value.Tags == BuildTags(bs);
    TagKeys(bs, tag);
  }

  /** Every id an opened package enumerates is in `All`. */
  lemma EnumerateInAll(archive: Archive, validPath: string -> bool, path: string, slashLiteral: bool, recursive: bool)
    requires ReadIndex(archive, validPath).Success?
    ensures var ix := ReadIndex(archive, validPath).value;
      forall x :: x in EnumerateFolder(ix, path, slashLiteral, recursive) ==> x in ix.All
  {
    var ix := ReadIndex(archive, validPath).value;
    BuildTreeAssetsIn(InitialTree, {}, ReadBlocks(archive["hierarchy.txt"], 0, []).value);
    match ResolveSpan(ix.Folders, path, slashLiteral)
    case None =>
    case Some(f) => EnumerateWithin(ix.Folders, ix.All, f, recursive);
  }

  /** The last block of `hierarchy.txt`, on a clean path, is what the top
      level of that folder enumerates. */
  lemma LastFolderBlockEnumerates(archive: Archive, validPath: string -> bool)
    requires ReadIndex(archive, validPath).Success?
    requires ReadBlocks(archive["hierarchy.txt"], 0, []).value != []
    requires Clean(StripSlash(Last(ReadBlocks(archive["hierarchy.txt"], 0, []).value).Key))
    ensures var ix := ReadIndex(archive, validPath).value;
      var b := Last(ReadBlocks(archive["hierarchy.txt"], 0, []).value);
      EnumerateFolder(ix, StripSlash(b.Key), false, false) == b.Ids
  {
    var bs := ReadBlocks(archive["hierarchy.txt"], 0, []).value;
    var (fs, all) := BuildTree(InitialTree, {}, Init(bs));
    assert BuildTree(InitialTree, {}, bs) == ApplyBlock(fs, all, Last(bs));
    BlockSetsFolder(fs, all, Last(bs));
  }
}
