/**
 Building a tree from a list of files: exactly those files and all their
 ancestors appear, whatever the order of the list.
 */
module TreeBuild {
  import opened Common
  import opened Paths
  import opened TreeModel
  import opened TreeGrow
  import TreePrune
  import opened VirtualTrees

  /** Valid paths other than "/", none an ancestor of or equal to another. */
  ghost predicate Buildable(metas: seq<FileMeta>) {
    && (forall i :: 0 <= i < |metas| ==> ValidPath(metas[i].virtualPath) && metas[i].virtualPath != "/")
    && (forall i, j :: 0 <= i < |metas| && 0 <= j < |metas| && i != j ==>
          metas[i].virtualPath !in Ancestry(metas[j].virtualPath))
  }

  /** The tree after inserting the first k files. */
  ghost function BuildTo(metas: seq<FileMeta>, k: nat): Tree
    requires Buildable(metas) && k <= |metas|
  {
    if k == 0 then EMPTY_TREE else InsertFile(BuildTo(metas, k - 1), metas[k - 1]).0
  }

  ghost function Build(metas: seq<FileMeta>): Tree
    requires Buildable(metas)
  {
    BuildTo(metas, |metas|)
  }

  /** TreeBuilder::add_file over a list, on the tree that is changed in place. */
  method BuildTree(metas: seq<FileMeta>) returns (tree: VirtualTree)
    requires Buildable(metas)
    ensures fresh(tree) && tree.State() == Build(metas)
  {
    tree := new VirtualTree();
    hide InsertFile, ValidPath, NoFileAbove, Consistent, Ancestry;
    for k := 0 to |metas|
      invariant fresh(tree) && tree.State() == BuildTo(metas, k)
    {
      var _ := tree.InsertFile(metas[k]);
    }
  }

  datatype Shown = ShownDir | ShownFile(fileId: FileId, size: nat, mtime: int)

  function Show(e: Entry): Shown {
    match e
    case DirEntry(_) => ShownDir
    case FileEntry(_, id, size, mtime) => ShownFile(id, size, mtime)
  }

  function ShowMeta(m: FileMeta): Shown {
    ShownFile(m.id, m.size, m.mtime)
  }

  /** What a user sees: everything but the inode numbers. */
  ghost function Visible(t: Tree): map<Path, Shown> {
    map q | q in View(t) :: Show(View(t)[q])
  }

  /** q is m's path or an ancestor of it. */
  ghost predicate Spanned(m: FileMeta, q: Path) {
    ValidPath(m.virtualPath) && q in Ancestry(m.virtualPath)
  }

  /** v shows exactly the files in metas, and their ancestors as directories. */
  ghost predicate ShowsExactly(v: map<Path, Shown>, metas: seq<FileMeta>) {
    && (forall q :: q in v <==> q == "/" || exists m :: m in metas && Spanned(m, q))
    && (forall m {:trigger m in metas} :: m in metas ==> m.virtualPath in v && v[m.virtualPath] == ShowMeta(m))
    && (forall q :: q in v && (forall m :: m in metas ==> m.virtualPath != q) ==> v[q] == ShownDir)
  }

  function WithDirs(v: map<Path, Shown>, dirs: set<Path>): map<Path, Shown> {
    (map d | d in dirs :: ShownDir) + v
  }

  lemma {:induction false} AncestryFacts(p: Path)
    requires ValidPath(p)
    ensures p in Ancestry(p) && "/" in Ancestry(p)
    ensures p != "/" ==> ValidPath(Parent(p)) && Ancestry(p) == Ancestry(Parent(p)) + {p}
    decreases |p|
  {
    if p != "/" {
      ChildOfParent(p);
      AncestryFacts(Parent(p));
    }
  }

  lemma {:induction false} NoFileAmongAncestors(t: Tree, p: Path)
    requires ValidPath(p)
    requires forall q :: q in Ancestry(p) && q != p ==> !IsFileAt(t, q)
    ensures NoFileAbove(t, p)
    decreases |p|
  {
    if p != "/" {
      ChildOfParent(p);
      AncestryFacts(p);
      AncestryFacts(Parent(p));
      forall q | q in Ancestry(Parent(p)) ensures q != p { AncestryShorter(Parent(p), q); }
      NoFileAmongAncestors(t, Parent(p));
    }
  }

  /** The next file of a buildable list: its path is new and no earlier file is
      above it. */
  lemma NextFile(metas: seq<FileMeta>, k: nat)
    requires Buildable(metas) && k < |metas|
    ensures var p := metas[k].virtualPath;
      && ValidPath(p) && p != "/"
      && forall m :: m in metas[..k] ==> !Spanned(m, p) && m.virtualPath !in Ancestry(p)
  {
    hide LastSlash, ValidPath, Ancestry;
    assert forall i :: 0 <= i < k ==> metas[..k][i] == metas[i];
  }

  /** One insertion, as the user sees it. */
  lemma InsertVisible(t: Tree, m: FileMeta)
    requires var p := m.virtualPath;
      Consistent(t) && ValidPath(p) && p != "/" && p !in View(t)
      && forall q :: q in Ancestry(p) && q in View(t) ==> View(t)[q].DirEntry?
    ensures Consistent(InsertFile(t, m).0) && ValidPath(Parent(m.virtualPath))
    ensures Visible(InsertFile(t, m).0) ==
            WithDirs(Visible(t), Ancestry(Parent(m.virtualPath)))[m.virtualPath := ShowMeta(m)]
  {
    var p := m.virtualPath;
    AncestryFacts(p);
    ViewKinds(t, p);
    forall q | q in Ancestry(p) ensures !IsFileAt(t, q) { ViewKinds(t, q); }
    NoFileAmongAncestors(t, p);
    InsertFileExact(t, m);
    var (t', i) := InsertFile(t, m);
    hide LastSlash, Parent, ValidPath, Ancestry, Consistent, View, InsertFile, IsFileAt, NoFileAbove;
    InsertVisibleMaps(View(t), View(t'), Ancestry(Parent(p)), p, m);
  }

  lemma InsertVisibleMaps(v: map<Path, Entry>, v': map<Path, Entry>, dirs: set<Path>, p: Path, m: FileMeta)
    requires p in v' && Show(v'[p]) == ShowMeta(m) && p !in v && p !in dirs
    requires DirsAdded(v, v' - {p}, dirs)
    ensures (map q | q in v' :: Show(v'[q])) ==
            WithDirs(map q | q in v :: Show(v[q]), dirs)[p := ShowMeta(m)]
  {
    var w := v' - {p};
    assert forall q :: q in w ==> q in v' && w[q] == v'[q];
    assert v'.Keys == w.Keys + {p};
    forall q | q in w ensures Show(w[q]) == WithDirs(map q | q in v :: Show(v[q]), dirs)[q] {
      if q !in v { assert q in dirs; }
    }
  }

  /** Adding one file to what is shown. */
  lemma ShowsOneMore(v: map<Path, Shown>, metas: seq<FileMeta>, m: FileMeta, dirs: set<Path>)
    requires ShowsExactly(v, metas)
    requires ValidPath(m.virtualPath) && Ancestry(m.virtualPath) == dirs + {m.virtualPath}
    requires m.virtualPath !in v && m.virtualPath !in dirs
    requires forall k :: k in metas ==> k.virtualPath !in dirs
    ensures ShowsExactly(WithDirs(v, dirs)[m.virtualPath := ShowMeta(m)], metas + [m])
  {
    hide ValidPath, Ancestry, Parent;
    var p := m.virtualPath;
    var w := WithDirs(v, dirs)[p := ShowMeta(m)];
    assert w.Keys == v.Keys + dirs + {p};
    forall q ensures q in w <==> q == "/" || exists k :: k in metas + [m] && Spanned(k, q) {
      assert Spanned(m, q) <==> q in dirs || q == p;
      assert m in metas + [m];
      if q in v && q != "/" {
        var k :| k in metas && Spanned(k, q);
        assert k in metas + [m];
      }
    }
    forall k | k in metas ensures k.virtualPath in v && k.virtualPath != p && k.virtualPath !in dirs {}
    forall q | q in w && (forall k :: k in metas + [m] ==> k.virtualPath != q) ensures w[q] == ShownDir {
      assert m in metas + [m];
      forall k | k in metas ensures k.virtualPath != q { assert k in metas + [m]; }
    }
  }

  lemma EmptyShows()
    ensures Consistent(EMPTY_TREE) && ShowsExactly(Visible(EMPTY_TREE), [])
  {
    EmptyTreeConsistent();
    hide Consistent, LastSlash, Parent, BaseName;
    assert View(EMPTY_TREE).Keys == {"/"} && View(EMPTY_TREE)["/"] == DirEntry(ROOT_INODE);
  }

  lemma {:induction false} BuildToShows(metas: seq<FileMeta>, k: nat)
    requires Buildable(metas) && k <= |metas|
    ensures Consistent(BuildTo(metas, k)) && ShowsExactly(Visible(BuildTo(metas, k)), metas[..k])
    decreases k
  {
    hide Buildable, Consistent, InsertFile, Visible, ShowsExactly;
    if k == 0 {
      EmptyShows();
      assert metas[..0] == [];
    } else {
      BuildToShows(metas, k - 1);
      BuildToStep(metas, k - 1);
    }
  }

  lemma BuildToStep(metas: seq<FileMeta>, k: nat)
    requires Buildable(metas) && k < |metas|
    requires Consistent(BuildTo(metas, k)) && ShowsExactly(Visible(BuildTo(metas, k)), metas[..k])
    ensures Consistent(BuildTo(metas, k + 1)) && ShowsExactly(Visible(BuildTo(metas, k + 1)), metas[..k + 1])
  {
    NextFile(metas, k);
    TakeNext(metas, k);
    hide Buildable, Ancestry, Consistent, InsertFile, Visible, ShowsExactly, Spanned, ValidPath;
    AddLast(BuildTo(metas, k), metas[..k], metas[k]);
  }

  lemma TakeNext(metas: seq<FileMeta>, k: nat)
    requires k < |metas|
    ensures metas[..k + 1] == metas[..k] + [metas[k]]
  {
  }

  /** Building shows exactly the listed files and, as directories, all their
      ancestors, with index and child maps in agreement. */
  lemma BuildShows(metas: seq<FileMeta>)
    requires Buildable(metas)
    ensures Consistent(Build(metas)) && ShowsExactly(Visible(Build(metas)), metas)
  {
    BuildToShows(metas, |metas|);
    assert metas[..|metas|] == metas;
  }

  lemma AddLast(t: Tree, metas: seq<FileMeta>, m: FileMeta)
    requires Consistent(t) && ShowsExactly(Visible(t), metas)
    requires ValidPath(m.virtualPath) && m.virtualPath != "/"
    requires forall k :: k in metas ==> !Spanned(k, m.virtualPath) && k.virtualPath !in Ancestry(m.virtualPath)
    ensures Consistent(InsertFile(t, m).0) && ShowsExactly(Visible(InsertFile(t, m).0), metas + [m])
  {
    var p := m.virtualPath;
    AncestryFacts(p);
    if p in Ancestry(Parent(p)) { AncestryShorter(Parent(p), p); ChildOfParent(p); }
    hide LastSlash, Parent, BaseName, ValidPath, Ancestry, Consistent, View, InsertFile,
      Visible, ShowsExactly, WithDirs, Spanned;
    NothingInTheWay(t, metas, p);
    InsertVisible(t, m);
    ShowsOneMore(Visible(t), metas, m, Ancestry(Parent(p)));
  }

  /** An unspanned path with no listed file above it is free, and only
      directories lie above it. */
  lemma NothingInTheWay(t: Tree, metas: seq<FileMeta>, p: Path)
    requires ValidPath(p) && p != "/" && ShowsExactly(Visible(t), metas)
    requires forall m :: m in metas ==> !Spanned(m, p) && m.virtualPath !in Ancestry(p)
    ensures p !in View(t) && p !in Visible(t)
    ensures forall q :: q in Ancestry(p) && q in View(t) ==> View(t)[q].DirEntry?
  {
    hide View, Ancestry, Spanned, ValidPath;
    assert p in Visible(t) <==> p in View(t);
    forall q | q in Ancestry(p) && q in View(t) ensures View(t)[q].DirEntry? {
      assert Visible(t)[q] == ShownDir;
    }
  }

  // ----- order and counts -----

  /** Two lists of the same files build trees that look the same. */
  lemma BuildOrderIrrelevant(metas: seq<FileMeta>, metas': seq<FileMeta>)
    requires Buildable(metas) && Buildable(metas')
    requires forall m :: m in metas <==> m in metas'
    ensures Visible(Build(metas)) == Visible(Build(metas'))
  {
    BuildShows(metas);
    BuildShows(metas');
    hide Buildable, Build, Visible, Consistent;
    ShownOnce(Visible(Build(metas)), Visible(Build(metas')), metas, metas');
  }

  /** What is shown depends on which files are listed, and nothing else. */
  lemma ShownOnce(v: map<Path, Shown>, v': map<Path, Shown>, metas: seq<FileMeta>, metas': seq<FileMeta>)
    requires ShowsExactly(v, metas) && ShowsExactly(v', metas')
    requires forall m :: m in metas <==> m in metas'
    ensures v == v'
  {
    forall q ensures q in v <==> q in v' && (q in v ==> v[q] == v'[q]) {
      ShownAs(v, metas, q);
      ShownAs(v', metas', q);
      SameShown(metas, metas', q);
      hide ShowsExactly, Spans, Names;
    }
  }

  ghost predicate Spans(metas: seq<FileMeta>, q: Path) {
    exists m :: m in metas && Spanned(m, q)
  }

  ghost predicate Names(metas: seq<FileMeta>, q: Path, shown: Shown) {
    exists m :: m in metas && m.virtualPath == q && shown == ShowMeta(m)
  }

  lemma ShownAs(v: map<Path, Shown>, metas: seq<FileMeta>, q: Path)
    requires ShowsExactly(v, metas)
    ensures q in v <==> q == "/" || Spans(metas, q)
    ensures q in v ==> if exists s :: Names(metas, q, s) then Names(metas, q, v[q]) else v[q] == ShownDir
    ensures forall s :: q in v && Names(metas, q, s) ==> s == v[q]
  {
    hide Spanned;
    if q in v && v[q] != ShownDir {
      var m :| m in metas && m.virtualPath == q;
      assert Names(metas, q, v[q]);
    }
  }

  lemma SameShown(metas: seq<FileMeta>, metas': seq<FileMeta>, q: Path)
    requires forall m :: m in metas <==> m in metas'
    ensures Spans(metas, q) <==> Spans(metas', q)
    ensures forall s :: Names(metas, q, s) <==> Names(metas', q, s)
  {
    hide Spanned;
  }

  /** The node counts of file_count and dir_count. */
  function FileInodes(t: Tree): set<Inode> {
    set i | i in t.nodes && t.nodes[i].File?
  }

  function DirInodes(t: Tree): set<Inode> {
    set i | i in t.nodes && t.nodes[i].Directory?
  }

  lemma {:induction false} InodesCount(t: Tree, ps: set<Path>)
    requires Injective(t) && ps <= t.index.Keys
    ensures |TreePrune.InodesAt(t, ps)| == |ps|
    decreases ps
  {
    if ps == {} {
      assert TreePrune.InodesAt(t, ps) == {};
    } else {
      var p :| p in ps;
      InodesCount(t, ps - {p});
      forall q | q in ps - {p} ensures t.index[q] != t.index[p] { DistinctPaths(t, q, p); }
      assert TreePrune.InodesAt(t, ps) == TreePrune.InodesAt(t, ps - {p}) + {t.index[p]};
    }
  }

  /** Counting file or directory nodes is counting such paths. */
  lemma CountsMatchView(t: Tree)
    requires Consistent(t)
    ensures |FileInodes(t)| == |FilePaths(View(t))|
    ensures |DirInodes(t)| == |DirPaths(View(t))|
  {
    var fs, ds := FilePaths(View(t)), DirPaths(View(t));
    hide LastSlash, Parent, BaseName, ValidPath;
    forall p | p in t.index
      ensures t.index[p] in t.nodes
      ensures p in fs <==> t.nodes[t.index[p]].File?
      ensures p in ds <==> t.nodes[t.index[p]].Directory?
    {
      ViewKinds(t, p);
      assert PathOk(t, p);
    }
    assert fs <= t.index.Keys && ds <= t.index.Keys;
    forall i | i in t.nodes ensures i in TreePrune.InodesAt(t, fs) <==> t.nodes[i].File?
      ensures i in TreePrune.InodesAt(t, ds) <==> t.nodes[i].Directory?
    {
      assert HasPath(t, i);
      var p :| p in t.index && t.index[p] == i;
      assert forall q :: SameNode(t, p, q) ==> p == q;
    }
    InodesCount(t, fs);
    InodesCount(t, ds);
    assert TreePrune.InodesAt(t, fs) == FileInodes(t);
    assert TreePrune.InodesAt(t, ds) == DirInodes(t);
  }

  function FilePaths(v: map<Path, Entry>): set<Path> {
    set p | p in v && v[p].FileEntry?
  }

  function DirPaths(v: map<Path, Entry>): set<Path> {
    set p | p in v && v[p].DirEntry?
  }

  /** What lies strictly above a file. */
  ghost function Above(m: FileMeta): set<Path> {
    if ValidPath(m.virtualPath) then Ancestry(m.virtualPath) - {m.virtualPath} else {}
  }

  /** The proper ancestors of all listed files, "/" among them. */
  ghost function Ancestors(metas: seq<FileMeta>): set<Path> {
    {"/"} + set m, q | m in metas && q in Above(m) :: q
  }

  /** file_count is the length of the list, and dir_count the number of distinct
      proper ancestors. */
  lemma BuildFileCount(metas: seq<FileMeta>)
    requires Buildable(metas)
    ensures |FileInodes(Build(metas))| == |metas|
    ensures |DirInodes(Build(metas))| == |Ancestors(metas)|
  {
    var t := Build(metas);
    BuildShows(metas);
    CountsMatchView(t);
    BuildableDistinct(metas);
    DirPathsAncestors(t, metas);
    hide Buildable, Build, Consistent, View, LastSlash, ShowsExactly, FilePaths, DirPaths, FileInodes, DirInodes;
    FilePathsListed(t, metas);
    FilePathCount(View(t), metas);
  }

  lemma DirPathsAncestors(t: Tree, metas: seq<FileMeta>)
    requires Buildable(metas) && ShowsExactly(Visible(t), metas)
    ensures DirPaths(View(t)) == Ancestors(metas)
  {
    var v, w := View(t), Visible(t);
    hide Buildable, View, ShowsExactly, Spanned, Above;
    assert forall q :: q in DirPaths(v) <==> q in w && w[q] == ShownDir;
    forall q | q in DirPaths(v) ensures q in Ancestors(metas) {
      if q != "/" {
        var m := DirIsAbove(w, metas, q);
      }
    }
    forall q | q in Ancestors(metas) ensures q in DirPaths(v) {
      if m :| m in metas && q in Above(m) {
        AboveIsDir(w, metas, m, q);
      } else {
        RootIsDir(w, metas);
      }
    }
  }

  lemma RootIsDir(w: map<Path, Shown>, metas: seq<FileMeta>)
    requires Buildable(metas) && ShowsExactly(w, metas)
    ensures "/" in w && w["/"] == ShownDir
  {
    hide Spanned, ValidPath, Ancestry;
  }

  lemma DirIsAbove(w: map<Path, Shown>, metas: seq<FileMeta>, q: Path) returns (m: FileMeta)
    requires Buildable(metas) && ShowsExactly(w, metas) && q in w && w[q] == ShownDir && q != "/"
    ensures m in metas && q in Above(m)
  {
    hide ValidPath, Ancestry;
    m :| m in metas && Spanned(m, q);
  }

  lemma AboveIsDir(w: map<Path, Shown>, metas: seq<FileMeta>, m: FileMeta, q: Path)
    requires Buildable(metas) && ShowsExactly(w, metas) && m in metas && q in Above(m)
    ensures q in w && w[q] == ShownDir
  {
    hide ValidPath, Ancestry;
    assert Spanned(m, q);
    forall k | k in metas ensures k.virtualPath != q {}
  }

  lemma FilePathCount(v: map<Path, Entry>, metas: seq<FileMeta>)
    requires forall i, j :: 0 <= i < j < |metas| ==> metas[i].virtualPath != metas[j].virtualPath
    requires forall p :: p in v && v[p].FileEntry? <==> exists m :: m in metas && m.virtualPath == p
    ensures |FilePaths(v)| == |metas|
  {
    var ps := seq(|metas|, i requires 0 <= i < |metas| => metas[i].virtualPath);
    DistinctCount(ps);
    forall p ensures p in FilePaths(v) <==> p in ps {
      if p in ps { var i :| 0 <= i < |ps| && ps[i] == p; assert metas[i] in metas; }
      if m :| m in metas && m.virtualPath == p {
        var i :| 0 <= i < |metas| && metas[i] == m;
        assert ps[i] == p;
      }
    }
    assert FilePaths(v) == set p | p in ps;
  }

  lemma FilePathsListed(t: Tree, metas: seq<FileMeta>)
    requires ShowsExactly(Visible(t), metas)
    ensures forall p :: p in View(t) && View(t)[p].FileEntry? <==> exists m :: m in metas && m.virtualPath == p
  {
    hide Spanned, View;
    var v, w := View(t), Visible(t);
    forall p ensures p in v && v[p].FileEntry? <==> exists m :: m in metas && m.virtualPath == p {
      if p in v && v[p].FileEntry? { assert w[p] != ShownDir; }
      if m :| m in metas && m.virtualPath == p { assert p in w && w[p] == ShowMeta(m); }
    }
  }

  lemma BuildableDistinct(metas: seq<FileMeta>)
    requires Buildable(metas)
    ensures forall i, j :: 0 <= i < j < |metas| ==> metas[i].virtualPath != metas[j].virtualPath
  {
    forall j | 0 <= j < |metas| ensures metas[j].virtualPath in Ancestry(metas[j].virtualPath) {
      AncestryFacts(metas[j].virtualPath);
    }
    hide Ancestry, ValidPath;
  }

  lemma {:induction false} DistinctCount(ps: seq<Path>)
    requires forall i, j :: 0 <= i < j < |ps| ==> ps[i] != ps[j]
    ensures |set p | p in ps| == |ps|
    decreases |ps|
  {
    if ps == [] {
      assert (set p | p in ps) == {};
    } else {
      var init, p := ps[..|ps| - 1], ps[|ps| - 1];
      DistinctCount(init);
      assert p !in init;
      assert (set q | q in ps) == (set q | q in init) + {p};
    }
  }
}
