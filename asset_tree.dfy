/** The folder hierarchy of an `AssetPackage`
    (Walgelijk.AssetManager/AssetPackage.cs, class `AssetFolder` and the
    package's `hierarchyRoot`, `TryGetAssetFolder`, `EnsureHierarchyFolder`
    and `EnumerateFolder`).

    The folders live in one list, in creation order, and refer to their
    children by position in that list; position 0 is the root, named "/".
    A folder is only ever created as the child of an existing one, so every
    child sits after its parent. A null `Folders` or `Assets` array behaves
    exactly like an empty one in every operation of the package, so both
    are the empty sequence here. */
module AssetTree {
  import opened Common

  /** `AssetId`: a 32-bit identifier; `Internal == 0` is None. */
  datatype AssetId = AssetId(Internal: int)

  const NoneId := AssetId(0)

  /** An `AssetFolder`: its name (not its path), its child folders in the
      order they were added, and the ids it directly holds. */
  datatype Folder = Folder(Name: string, Folders: seq<nat>, Assets: seq<AssetId>)

  const Root: nat := 0

  /** A fresh package's hierarchy: the root alone. */
  const InitialTree: seq<Folder> := [Folder("/", [], [])]

  /** The list is non-empty and each child comes after its parent. */
  predicate TreeOk(fs: seq<Folder>)
  {
    |fs| > 0 &&
    forall n, k :: 0 <= n < |fs| && 0 <= k < |fs[n].Folders| ==> n < fs[n].Folders[k] < |fs|
  }

  /** Every id held by a folder is in `all`. */
  predicate AssetsIn(fs: seq<Folder>, all: set<AssetId>)
  {
    forall n, x :: 0 <= n < |fs| && x in fs[n].Assets ==> x in all
  }

  /** `gs` is `fs` grown: the same folders under the same names, each with
      possibly more children after its old ones, and possibly new folders. */
  predicate Extends(fs: seq<Folder>, gs: seq<Folder>)
  {
    |fs| <= |gs| &&
    forall n :: 0 <= n < |fs| ==> gs[n].Name == fs[n].Name && fs[n].Folders <= gs[n].Folders
  }

  // ------------------------------------------------------------ path text

  /** `ReadOnlySpan<char>.IndexOf(c)`. */
  function IndexOf(s: string, c: char): (i: int)
    ensures -1 <= i < |s|
    ensures i == -1 <==> c !in s
    ensures i >= 0 ==> s[i] == c && c !in s[..i]
  {
    if s == [] then -1
    else if s[0] == c then 0
    else
      var j := IndexOf(s[1..], c);
      assert s == [s[0]] + s[1..];
      if j == -1 then -1
      else
        assert s[..j + 1] == [s[0]] + s[1..][..j];
        j + 1
  }

  /** `ReadOnlySpan<char>.LastIndexOf(c)`. */
  function LastIndexOf(s: string, c: char): (i: int)
    ensures -1 <= i < |s|
    ensures i == -1 <==> c !in s
    ensures i >= 0 ==> s[i] == c && c !in s[i + 1..]
  {
    if s == [] then -1
    else if s[|s| - 1] == c then |s| - 1
    else
      var j := LastIndexOf(s[..|s| - 1], c);
      assert s == s[..|s| - 1] + [s[|s| - 1]];
      assert j >= 0 ==> s[j + 1..] == s[..|s| - 1][j + 1..] + [s[|s| - 1]];
      j
  }

  /** `EatFolder`: the first segment of a path and what follows its `/`. */
  function EatFolder(input: string): (r: (string, string))
    ensures '/' !in r.0
    ensures '/' in input ==> input == r.0 + "/" + r.1
    ensures '/' !in input ==> r == (input, "")
  {
    var i := IndexOf(input, '/');
    if i == -1 then (input, "")
    else
      assert input == input[..i] + "/" + input[i + 1..];
      (input[..i], input[i + 1..])
  }

  /** `EnsureHierarchyFolder` drops one trailing `/`. */
  function StripSlash(path: string): (p: string)
    ensures path == p || path == p + "/"
    ensures p != path <==> (path != "" && path[|path| - 1] == '/')
  {
    if |path| > 0 && path[|path| - 1] == '/' then path[..|path| - 1] else path
  }

  /** A folder path without empty segments: not empty, no `/` at either
      end and no `//`. */
  ghost predicate Clean(p: string)
  {
    p != "" && p[0] != '/' && p[|p| - 1] != '/' &&
    forall i, j :: 0 <= i < j < |p| && j == i + 1 && p[i] == '/' ==> p[j] != '/'
  }

  // ---------------------------------------------------------------- lookup

  /** The first position at or after `k` in `ch` whose folder is named
      `name`, or -1. */
  function FindChild(fs: seq<Folder>, ch: seq<nat>, name: string, k: nat): (p: int)
    requires forall q :: 0 <= q < |ch| ==> ch[q] < |fs|
    requires k <= |ch|
    ensures p == -1 || k <= p < |ch|
    ensures p >= 0 ==> fs[ch[p]].Name == name
    ensures forall q :: k <= q < |ch| && (p == -1 || q < p) ==> fs[ch[q]].Name != name
    decreases |ch| - k
  {
    if k == |ch| then -1
    else if fs[ch[k]].Name == name then k
    else FindChild(fs, ch, name, k + 1)
  }

  /** `AssetFolder.TryGetFolder`: the first child of `n` named `name`. */
  function ChildNamed(fs: seq<Folder>, n: nat, name: string): (r: Option<nat>)
    requires TreeOk(fs) && n < |fs|
    ensures r.Some? ==> n < r.value < |fs| && r.value in fs[n].Folders && fs[r.value].Name == name
    ensures r.None? <==> forall q :: 0 <= q < |fs[n].Folders| ==> fs[fs[n].Folders[q]].Name != name
  {
    var p := FindChild(fs, fs[n].Folders, name, 0);
    if p == -1 then None else Some(fs[n].Folders[p])
  }

  /** The loop of `TryGetAssetFolder` from folder `n` over the path still
      to walk: it eats one segment per step and stops when a segment is
      not a child or nothing is left. */
  function Walk(fs: seq<Folder>, n: nat, current: string): (r: Option<nat>)
    requires TreeOk(fs) && n < |fs|
    ensures r.Some? ==> r.value < |fs|
    decreases |current|
  {
    var (eaten, rest) := EatFolder(current);
    match ChildNamed(fs, n, eaten)
    case None => None
    case Some(c) => if rest == "" then Some(c) else Walk(fs, c, rest)
  }

  /** `TryGetAssetFolder` on a path built at run time: "" is the root, and
      any other path, "/" included, is walked segment by segment from the
      root. The source's `path == "/"` compares a `ReadOnlySpan<char>` with
      a string literal, which compares where the characters lie in memory
      rather than what they are, so a "/" read from a file is walked: it
      names the root's child called "". */
  function Resolve(fs: seq<Folder>, path: string): (r: Option<nat>)
    requires TreeOk(fs)
    ensures r.Some? ==> r.value < |fs|
    ensures path == "" ==> r == Some(Root)
    ensures path == "/" ==> r == ChildNamed(fs, Root, "")
  {
    if path == "" then Some(Root) else Walk(fs, Root, path)
  }

  /** `TryGetAssetFolder` on a span that is the literal "/" itself when
      `slashLiteral` holds: that span is the root, and every other path
      resolves as `Resolve` says. */
  function ResolveSpan(fs: seq<Folder>, path: string, slashLiteral: bool): (r: Option<nat>)
    requires TreeOk(fs)
    ensures slashLiteral && path == "/" ==> r == Some(Root)
    ensures !(slashLiteral && path == "/") ==> r == Resolve(fs, path)
  {
    if slashLiteral && path == "/" then Some(Root) else Resolve(fs, path)
  }

  /** `AssetFolder.TryGetFolder` as the source writes it, a `foreach` over
      the children that stops at the first name match. */
  method TryGetFolder(fs: seq<Folder>, n: nat, name: string) returns (r: Option<nat>)
    requires TreeOk(fs) && n < |fs|
    ensures r == ChildNamed(fs, n, name)
  {
    var ch := fs[n].Folders;
    for k := 0 to |ch|
      invariant FindChild(fs, ch, name, 0) == FindChild(fs, ch, name, k)
    {
      if fs[ch[k]].Name == name {
        return Some(ch[k]);
      }
    }
    return None;
  }

  /** `TryGetAssetFolder`'s loop over the segments of `path`;
      `slashLiteral` says whether the span is the literal "/" itself. */
  method TryGetAssetFolder(fs: seq<Folder>, path: string, slashLiteral: bool) returns (r: Option<nat>)
    requires TreeOk(fs)
    ensures r == ResolveSpan(fs, path, slashLiteral)
  {
    if path == "" || (slashLiteral && path == "/") {
      return Some(Root);
    }
    var navigator: nat := Root;
    var current := path;
    while true
      invariant navigator < |fs|
      invariant Walk(fs, Root, path) == Walk(fs, navigator, current)
      decreases |current|
    {
      var eaten;
      eaten, current := EatFolder(current).0, EatFolder(current).1;
      var found := TryGetFolder(fs, navigator, eaten);
      if found.None? {
        return None;
      }
      navigator := found.value;
      if current == "" {
        return Some(navigator);
      }
    }
  }

  // ---------------------------------------------------------------- ensure

  /** `EnsureHierarchyFolder`: the folder `path` resolves to, creating it,
      and first its missing parent, when it does not resolve yet. The new
      folder is appended to its parent's children. The source passes a line
      read from the hierarchy file, never the literal "/", so it resolves
      as `Resolve` says: that is `byContent == false`. With `byContent`,
      every span is compared with "/" by its characters, as the source's
      `path == "/"` evidently means to. */
  function Ensure(fs: seq<Folder>, path: string, byContent: bool): (r: (seq<Folder>, nat))
    requires TreeOk(fs)
    ensures TreeOk(r.0) && r.1 < |r.0| && Grown(fs, r.0)
    decreases |path|, 1
  {
    var p := StripSlash(path);
    match ResolveSpan(fs, p, byContent)
    case Some(existing) => (fs, existing)
    case None => CreateFolder(fs, p, byContent)
  }

  /** The branch of `EnsureHierarchyFolder` for a path that does not
      resolve: the parent path is ensured first (the root when the path has
      no `/`), then a folder named by the last segment is added to it. */
  function CreateFolder(fs: seq<Folder>, p: string, byContent: bool): (r: (seq<Folder>, nat))
    requires TreeOk(fs)
    ensures TreeOk(r.0) && Grown(fs, r.0)
    ensures r.1 == |r.0| - 1 && r.0[r.1].Folders == []
    decreases |p|, 0
  {
    var l := LastIndexOf(p, '/');
    var (fs1, parent) := if l == -1 then (fs, Root) else Ensure(fs, p[..l], byContent);
    var gs := AddChild(fs1, parent, p[l + 1..]);
    GrownTrans(fs, fs1, gs);
    (gs, |fs1|)
  }

  /** `Extends`, with every old folder keeping its ids and every new one
      holding none. */
  predicate Grown(fs: seq<Folder>, gs: seq<Folder>)
  {
    Extends(fs, gs) &&
    (forall n :: 0 <= n < |fs| ==> gs[n].Assets == fs[n].Assets) &&
    (forall n :: |fs| <= n < |gs| ==> gs[n].Assets == [])
  }

  lemma GrownTrans(fs: seq<Folder>, gs: seq<Folder>, hs: seq<Folder>)
    requires Grown(fs, gs) && Grown(gs, hs)
    ensures Grown(fs, hs)
  {
    forall n | 0 <= n < |fs|
      ensures fs[n].Folders <= hs[n].Folders
    {
      assert fs[n].Folders <= gs[n].Folders <= hs[n].Folders;
    }
  }

  /** `Extends` is transitive. */
  lemma ExtendsTrans(fs: seq<Folder>, gs: seq<Folder>, hs: seq<Folder>)
    requires Extends(fs, gs) && Extends(gs, hs)
    ensures Extends(fs, hs)
  {
    forall n | 0 <= n < |fs|
      ensures fs[n].Folders <= hs[n].Folders
    {
      assert fs[n].Folders <= gs[n].Folders <= hs[n].Folders;
    }
  }

  /** `folder.Assets = ids`: the tree's shape and every other folder are
      left as they were. */
  function SetAssets(fs: seq<Folder>, n: nat, ids: seq<AssetId>): (gs: seq<Folder>)
    requires TreeOk(fs) && n < |fs|
    ensures TreeOk(gs) && Extends(fs, gs) && |gs| == |fs|
    ensures gs[n] == fs[n].(Assets := ids)
    ensures forall m :: 0 <= m < |fs| && m != n ==> gs[m] == fs[m]
  {
    var gs := fs[n := fs[n].(Assets := ids)];
    assert forall m :: 0 <= m < |gs| ==> gs[m].Folders == fs[m].Folders;
    gs
  }

  /** A new folder named `name`, appended to the children of `parent`. */
  function AddChild(fs: seq<Folder>, parent: nat, name: string): (gs: seq<Folder>)
    requires TreeOk(fs) && parent < |fs|
    ensures TreeOk(gs) && Grown(fs, gs) && |gs| == |fs| + 1
    ensures gs[parent].Folders == fs[parent].Folders + [|fs|]
    ensures gs[|fs|] == Folder(name, [], [])
  {
    var created := |fs|;
    fs[parent := fs[parent].(Folders := fs[parent].Folders + [created])] + [Folder(name, [], [])]
  }

  /** `EnsureHierarchyFolder` as the source runs it, over the package's
      folder list. */
  method EnsureHierarchyFolder(fs: seq<Folder>, path: string) returns (gs: seq<Folder>, folder: nat)
    requires TreeOk(fs)
    ensures (gs, folder) == Ensure(fs, path, false)
    decreases |path|
  {
    var p := StripSlash(path);
    var existing := TryGetAssetFolder(fs, p, false);
    if existing.Some? {
      return fs, existing.value;
    }
    var l := LastIndexOf(p, '/');
    var parent;
    if l == -1 {
      gs, parent := fs, Root;
    } else {
      gs, parent := EnsureHierarchyFolder(fs, p[..l]);
    }
    folder := |gs|;
    gs := gs[parent := gs[parent].(Folders := gs[parent].Folders + [folder])];
    gs := gs + [Folder(p[l + 1..], [], [])];
  }

  // ------------------------------------------------------------- enumerate

  /** `EnumerateFolder(AssetFolder, SearchOption)`: the folder's own ids,
      then, for `AllDirectories`, each child's enumeration in child order. */
  function Enumerate(fs: seq<Folder>, n: nat, recursive: bool): (r: seq<AssetId>)
    requires TreeOk(fs) && n < |fs|
    ensures |fs[n].Assets| <= |r| && r[..|fs[n].Assets|] == fs[n].Assets
    ensures !recursive ==> r == fs[n].Assets
    decreases |fs| - n, 1
  {
    if recursive then fs[n].Assets + EnumerateChildren(fs, n, 0)
    else fs[n].Assets
  }

  /** The recursive enumerations of the children of `n` from position `k`. */
  function EnumerateChildren(fs: seq<Folder>, n: nat, k: nat): seq<AssetId>
    requires TreeOk(fs) && n < |fs| && k <= |fs[n].Folders|
    decreases |fs| - n, 0, |fs[n].Folders| - k
  {
    if k == |fs[n].Folders| then []
    else Enumerate(fs, fs[n].Folders[k], true) + EnumerateChildren(fs, n, k + 1)
  }

  // ----------------------------------------------------------------- lemmas

  lemma {:induction false} IndexOfSlashConcat(a: string, s: string)
    ensures IndexOf(a + "/" + s, '/') == if '/' in a then IndexOf(a, '/') else |a|
    decreases |a|
  {
    var cur := a + "/" + s;
    if a != [] && a[0] != '/' {
      assert cur[1..] == a[1..] + "/" + s;
      IndexOfSlashConcat(a[1..], s);
      assert a == [a[0]] + a[1..];
    }
  }

  /** Eating the first segment of `a + "/" + s`. */
  lemma EatConcat(a: string, s: string)
    ensures '/' in a ==> EatFolder(a + "/" + s) == (EatFolder(a).0, EatFolder(a).1 + "/" + s)
    ensures '/' !in a ==> EatFolder(a + "/" + s) == (a, s)
  {
    IndexOfSlashConcat(a, s);
    var cur := a + "/" + s;
    if '/' in a {
      var i := IndexOf(a, '/');
      assert cur[..i] == a[..i];
      assert cur[i + 1..] == a[i + 1..] + "/" + s;
    } else {
      assert cur[..|a|] == a;
      assert cur[|a| + 1..] == s;
    }
  }

  /** Walking `a/s` is walking `a`, then taking the child named `s`. */
  lemma {:induction false} WalkSnoc(fs: seq<Folder>, n: nat, a: string, s: string)
    requires TreeOk(fs) && n < |fs|
    requires a != "" && a[|a| - 1] != '/' && s != "" && '/' !in s
    ensures Walk(fs, n, a + "/" + s) ==
              match Walk(fs, n, a)
              case None => None
              case Some(x) => ChildNamed(fs, x, s)
    decreases |a|
  {
    EatConcat(a, s);
    var (eaten, rest) := EatFolder(a);
    if '/' in a {
      assert a == eaten + "/" + rest;
      assert rest != "" && rest[|rest| - 1] == a[|a| - 1];
      match ChildNamed(fs, n, eaten)
      case None =>
      case Some(c) => WalkSnoc(fs, c, rest, s);
    } else {
      match ChildNamed(fs, n, a)
      case None =>
      case Some(c) => assert EatFolder(s) == (s, "");
    }
  }

  /** Growing the tree keeps every child lookup that already succeeded. */
  lemma ChildKept(fs: seq<Folder>, gs: seq<Folder>, n: nat, name: string)
    requires TreeOk(fs) && TreeOk(gs) && Extends(fs, gs) && n < |fs|
    requires ChildNamed(fs, n, name).Some?
    ensures ChildNamed(gs, n, name) == ChildNamed(fs, n, name)
  {
    var ch, dh := fs[n].Folders, gs[n].Folders;
    var p := FindChild(fs, ch, name, 0);
    assert ch == dh[..|ch|];
    assert gs[dh[p]].Name == name;
    var p' := FindChild(gs, dh, name, 0);
    assert p' != -1 && p' <= p;
    assert fs[ch[p']].Name == gs[dh[p']].Name;
  }

  /** A child appended under a name no earlier child has is what a lookup
      of that name finds. */
  lemma ChildAppended(fs: seq<Folder>, gs: seq<Folder>, n: nat, c: nat, name: string)
    requires TreeOk(fs) && TreeOk(gs) && n < |fs| && Extends(fs, gs)
    requires ChildNamed(fs, n, name).None?
    requires gs[n].Folders == fs[n].Folders + [c] && c < |gs| && gs[c].Name == name
    ensures ChildNamed(gs, n, name) == Some(c)
  {
    var ch, dh := fs[n].Folders, gs[n].Folders;
    forall q | 0 <= q < |ch|
      ensures gs[dh[q]].Name != name
    {
      assert dh[q] == ch[q];
    }
    assert dh[|ch|] == c;
  }

  /** Growing the tree keeps every walk that already succeeded. */
  lemma {:induction false} WalkKept(fs: seq<Folder>, gs: seq<Folder>, n: nat, current: string)
    requires TreeOk(fs) && TreeOk(gs) && Extends(fs, gs) && n < |fs|
    requires Walk(fs, n, current).Some?
    ensures Walk(gs, n, current) == Walk(fs, n, current)
    decreases |current|
  {
    var (eaten, rest) := EatFolder(current);
    ChildKept(fs, gs, n, eaten);
    var c := ChildNamed(fs, n, eaten).value;
    if rest != "" {
      WalkKept(fs, gs, c, rest);
    }
  }

  lemma ResolveKept(fs: seq<Folder>, gs: seq<Folder>, path: string)
    requires TreeOk(fs) && TreeOk(gs) && Extends(fs, gs)
    requires Resolve(fs, path).Some?
    ensures Resolve(gs, path) == Resolve(fs, path)
  {
    if path != "" {
      WalkKept(fs, gs, Root, path);
    }
  }

  /** A hierarchy line "//" does not name the root: it strips to a "/"
      read at run time, which is walked, and when the root has no child
      called "" one is created under the root. */
  lemma DoubleSlashCreatesNamelessFolder(fs: seq<Folder>)
    requires TreeOk(fs) && ChildNamed(fs, Root, "").None?
    ensures var (gs, n) := Ensure(fs, "//", false);
      n != Root && n == |fs| && gs[n] == Folder("", [], []) &&
      gs[Root].Folders == fs[Root].Folders + [n]
  {
    assert StripSlash("//") == "/";
    assert EatFolder("/") == ("", "");
    assert Resolve(fs, "/").None?;
    assert LastIndexOf("/", '/') == 0;
    assert "/"[0 + 1..] == "";
  }

  /** With every span compared with "/" by its characters, the hierarchy
      line "//" names the root and the tree is left as it was, whatever
      the tree holds. */
  lemma DoubleSlashByContentIsRoot(fs: seq<Folder>)
    requires TreeOk(fs)
    ensures Ensure(fs, "//", true) == (fs, Root)
    ensures ResolveSpan(fs, StripSlash("//"), true) == Some(Root)
  {
    assert StripSlash("//") == "/";
  }

  /** The parent path of a clean path with a `/` is clean, and the last
      segment is neither empty nor holds a `/`. */
  lemma CleanParent(p: string)
    requires Clean(p) && '/' in p
    ensures var l := LastIndexOf(p, '/');
      0 < l < |p| - 1 && Clean(p[..l]) && '/' !in p[l + 1..]
  {
    var l := LastIndexOf(p, '/');
    var q := p[..l];
    assert p[l - 1] != '/';
    forall i, j | 0 <= i < j < |q| && j == i + 1 && q[i] == '/'
      ensures q[j] != '/'
    {
      assert q[i] == p[i] && q[j] == p[j];
    }
  }

  lemma SplitAt(p: string, l: int)
    requires 0 <= l < |p| && p[l] == '/'
    ensures p == p[..l] + "/" + p[l + 1..]
  {
    assert p == p[..l] + [p[l]] + p[l + 1..];
  }

  /** A clean path without `/` is a child of the root. */
  lemma ResolveSegment(fs: seq<Folder>, p: string)
    requires TreeOk(fs) && Clean(p) && '/' !in p
    ensures Resolve(fs, p) == ChildNamed(fs, Root, p)
  {
    assert EatFolder(p) == (p, "");
  }

  /** A clean path resolves through its parent path. */
  lemma ResolveSnoc(fs: seq<Folder>, p: string)
    requires TreeOk(fs) && Clean(p) && '/' in p
    ensures var l := LastIndexOf(p, '/');
      Resolve(fs, p) ==
        match Resolve(fs, p[..l])
        case None => None
        case Some(x) => ChildNamed(fs, x, p[l + 1..])
  {
    var l := LastIndexOf(p, '/');
    CleanParent(p);
    SplitAt(p, l);
    WalkSnoc(fs, Root, p[..l], p[l + 1..]);
  }

  /** After `EnsureHierarchyFolder(path)`, `path` resolves to the folder it
      returned, so a second call creates nothing. */
  lemma {:induction false} EnsureResolves(fs: seq<Folder>, path: string)
    requires TreeOk(fs) && Clean(StripSlash(path))
    ensures Resolve(Ensure(fs, path, false).0, StripSlash(path)) == Some(Ensure(fs, path, false).1)
    decreases |path|, 2
  {
    var p := StripSlash(path);
    if Resolve(fs, p).None? {
      CreateResolves(fs, p);
    }
  }

  /** The folder `CreateFolder` adds is what its path resolves to. */
  lemma {:induction false} CreateResolves(fs: seq<Folder>, p: string)
    requires TreeOk(fs) && Clean(p) && Resolve(fs, p).None?
    ensures Resolve(CreateFolder(fs, p, false).0, p) == Some(CreateFolder(fs, p, false).1)
    decreases |p|, 1
  {
    if '/' in p {
      CreateNestedResolves(fs, p);
    } else {
      var (gs, created) := CreateFolder(fs, p, false);
      ResolveSegment(fs, p);
      ResolveSegment(gs, p);
      ChildAppended(fs, gs, Root, created, p);
    }
  }

  /** A path with a `/` that does not resolve yet resolves, once created,
      through its ensured parent to the child appended there. */
  lemma {:induction false} CreateNestedResolves(fs: seq<Folder>, p: string)
    requires TreeOk(fs) && Clean(p) && Resolve(fs, p).None? && '/' in p
    ensures Resolve(CreateFolder(fs, p, false).0, p) == Some(CreateFolder(fs, p, false).1)
    decreases |p|, 0
  {
    var l := LastIndexOf(p, '/');
    var q, name := p[..l], p[l + 1..];
    CleanParent(p);
    CreateNested(fs, p);
    var (fs1, parent) := Ensure(fs, q, false);
    ResolveSnoc(fs, p);
    EnsuredChildless(fs, q, name);
    EnsureResolves(fs, q);
    AppendedResolves(fs1, parent, p);
  }

  /** `CreateFolder` on a path with a `/` ensures the parent path, which
      `StripSlash` leaves alone, and appends the last segment to it. */
  lemma CreateNested(fs: seq<Folder>, p: string)
    requires TreeOk(fs) && Clean(p) && '/' in p
    ensures var l := LastIndexOf(p, '/');
      var (fs1, parent) := Ensure(fs, p[..l], false);
      StripSlash(p[..l]) == p[..l] &&
      CreateFolder(fs, p, false) == (AddChild(fs1, parent, p[l + 1..]), |fs1|)
  {
    var l := LastIndexOf(p, '/');
    CleanParent(p);
    assert p[..l][l - 1] != '/';
  }

  /** Appending a child named by the last segment of `p` to the folder
      the parent path resolves to, when it had no such child, makes `p`
      resolve to the new folder. */
  lemma AppendedResolves(fs: seq<Folder>, parent: nat, p: string)
    requires TreeOk(fs) && Clean(p) && '/' in p && parent < |fs|
    requires var l := LastIndexOf(p, '/');
      Resolve(fs, p[..l]) == Some(parent) && ChildNamed(fs, parent, p[l + 1..]).None?
    ensures var l := LastIndexOf(p, '/');
      Resolve(AddChild(fs, parent, p[l + 1..]), p) == Some(|fs|)
  {
    var l := LastIndexOf(p, '/');
    var gs := AddChild(fs, parent, p[l + 1..]);
    ResolveKept(fs, gs, p[..l]);
    ChildAppended(fs, gs, parent, |fs|, p[l + 1..]);
    ResolveSnoc(gs, p);
  }

  /** When `q/name` does not resolve, the folder ensured for `q` has no
      child named `name`: an existing one had none, a created one has no
      children at all. */
  lemma EnsuredChildless(fs: seq<Folder>, q: string, name: string)
    requires TreeOk(fs) && StripSlash(q) == q
    requires Resolve(fs, q).Some? ==> ChildNamed(fs, Resolve(fs, q).value, name).None?
    ensures ChildNamed(Ensure(fs, q, false).0, Ensure(fs, q, false).1, name).None?
  {
    if Resolve(fs, q).None? {
      var (gs, n) := CreateFolder(fs, q, false);
      assert gs[n].Folders == [];
    }
  }

  /** `EnsureHierarchyFolder` twice on a clean path is once. */
  lemma EnsureIdempotent(fs: seq<Folder>, path: string)
    requires TreeOk(fs) && Clean(StripSlash(path))
    ensures Ensure(Ensure(fs, path, false).0, path, false) == Ensure(fs, path, false)
  {
    EnsureResolves(fs, path);
  }

  /** Every id a recursive enumeration yields is held by some folder, so it
      is in any set that holds every folder's ids. */
  lemma {:induction false} EnumerateWithin(fs: seq<Folder>, all: set<AssetId>, n: nat, recursive: bool)
    requires TreeOk(fs) && n < |fs| && AssetsIn(fs, all)
    ensures forall x :: x in Enumerate(fs, n, recursive) ==> x in all
    decreases |fs| - n, 1
  {
    if recursive {
      ChildrenWithin(fs, all, n, 0);
    }
  }

  lemma {:induction false} ChildrenWithin(fs: seq<Folder>, all: set<AssetId>, n: nat, k: nat)
    requires TreeOk(fs) && n < |fs| && k <= |fs[n].Folders| && AssetsIn(fs, all)
    ensures forall x :: x in EnumerateChildren(fs, n, k) ==> x in all
    decreases |fs| - n, 0, |fs[n].Folders| - k
  {
    if k < |fs[n].Folders| {
      EnumerateWithin(fs, all, fs[n].Folders[k], true);
      ChildrenWithin(fs, all, n, k + 1);
    }
  }

  /** A child's recursive enumeration is part of its parent's. */
  lemma {:induction false} ChildEnumerated(fs: seq<Folder>, n: nat, k: nat, j: nat)
    requires TreeOk(fs) && n < |fs| && j <= k < |fs[n].Folders|
    ensures multiset(Enumerate(fs, fs[n].Folders[k], true)) <= multiset(EnumerateChildren(fs, n, j))
    decreases k - j
  {
    var here := Enumerate(fs, fs[n].Folders[j], true);
    var rest := EnumerateChildren(fs, n, j + 1);
    assert EnumerateChildren(fs, n, j) == here + rest;
    assert multiset(here + rest) == multiset(here) + multiset(rest);
    if j < k {
      ChildEnumerated(fs, n, k, j + 1);
    }
  }

  lemma SubfolderEnumerated(fs: seq<Folder>, n: nat, k: nat)
    requires TreeOk(fs) && n < |fs| && k < |fs[n].Folders|
    ensures multiset(Enumerate(fs, fs[n].Folders[k], true)) <= multiset(Enumerate(fs, n, true))
  {
    ChildEnumerated(fs, n, k, 0);
  }
}
