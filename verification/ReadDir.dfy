/**
 Listing a directory in pages: entries in name order behind "." and "..", and
 the offset protocol by which a listing is resumed.
 */
module ReadDir {
  import opened ByteData
  import opened Common
  import opened Paths
  import opened TreeModel
  import opened TreeGrow
  import opened VirtualTrees

  // ----- the order of a BTreeMap's names -----

  predicate LexLess(a: Name, b: Name)
    decreases |a|
  {
    if b == "" then false
    else if a == "" then true
    else a[0] < b[0] || (a[0] == b[0] && LexLess(a[1..], b[1..]))
  }

  /** That is: a is a proper prefix of b, or at the first place where they differ a has
      the smaller character. */
  lemma {:induction false} LexMeans(a: Name, b: Name)
    ensures LexLess(a, b) <==> a < b || exists k: nat :: FirstLess(a, b, k)
    decreases |a|
  {
    if a != "" && b != "" && a[0] == b[0] {
      LexMeans(a[1..], b[1..]);
      assert a == [a[0]] + a[1..] && b == [b[0]] + b[1..];
      if k: nat :| FirstLess(a, b, k) {
        assert k > 0 && a[1..][..k - 1] == a[..k][1..] && b[1..][..k - 1] == b[..k][1..];
        assert FirstLess(a[1..], b[1..], k - 1);
      }
      if k: nat :| FirstLess(a[1..], b[1..], k) {
        assert a[..k + 1] == [a[0]] + a[1..][..k] && b[..k + 1] == [b[0]] + b[1..][..k];
        assert FirstLess(a, b, k + 1);
      }
    } else if a != "" && b != "" {
      assert a[..0] == b[..0];
      if a[0] < b[0] { assert FirstLess(a, b, 0); }
      if k: nat :| FirstLess(a, b, k) { assert k > 0 ==> a[..k][0] == b[..k][0]; }
    }
  }

  predicate FirstLess(a: Name, b: Name, k: nat) {
    k < |a| && k < |b| && a[..k] == b[..k] && a[k] < b[k]
  }

  lemma {:induction false} LexTotal(a: Name, b: Name)
    ensures a == b || LexLess(a, b) || LexLess(b, a)
    decreases |a|
  {
    if a != "" && b != "" && a[0] == b[0] {
      LexTotal(a[1..], b[1..]);
      assert a == [a[0]] + a[1..] && b == [b[0]] + b[1..];
    }
  }

  lemma {:induction false} LexTransitive(a: Name, b: Name, c: Name)
    requires LexLess(a, b) && LexLess(b, c)
    ensures LexLess(a, c)
    decreases |a|
  {
    if a != "" && a[0] == b[0] && b[0] == c[0] {
      LexTransitive(a[1..], b[1..], c[1..]);
    }
  }

  lemma {:induction false} LexIrreflexive(a: Name)
    ensures !LexLess(a, a)
    decreases |a|
  {
    if a != "" { LexIrreflexive(a[1..]); }
  }

  /** Strictly increasing names. */
  ghost predicate Increasing(ns: seq<Name>) {
    forall i, j :: 0 <= i < j < |ns| ==> LexLess(ns[i], ns[j])
  }

  /** ns lists the set in name order, each name once. */
  ghost predicate NameOrder(ns: seq<Name>, s: set<Name>) {
    Increasing(ns) && forall n :: n in ns <==> n in s
  }

  lemma IncreasingDistinct(ns: seq<Name>)
    requires Increasing(ns)
    ensures forall i, j :: 0 <= i < j < |ns| ==> ns[i] != ns[j]
  {
    forall i, j | 0 <= i < j < |ns| ensures ns[i] != ns[j] { LexIrreflexive(ns[i]); }
  }

  /** A set has one name order, so an unchanged directory lists the same way
      every time. */
  lemma {:induction false} NameOrderUnique(a: seq<Name>, b: seq<Name>, s: set<Name>)
    requires NameOrder(a, s) && NameOrder(b, s)
    ensures a == b
    decreases |a|
  {
    hide LexLess;
    assert b != [] ==> b[0] in b;
    if a == [] {
      assert b == [];
    } else {
      assert a[0] in s && b != [] by { assert a[0] in a; }
      assert b[0] in b;
      SameFirst(a, b, s);
      IncreasingDistinct(a);
      IncreasingDistinct(b);
      RestOrder(a, s);
      RestOrder(b, s);
      NameOrderUnique(a[1..], b[1..], s - {a[0]});
      assert a == [a[0]] + a[1..] && b == [b[0]] + b[1..];
    }
  }

  lemma SameFirst(a: seq<Name>, b: seq<Name>, s: set<Name>)
    requires NameOrder(a, s) && NameOrder(b, s) && a != [] && b != []
    ensures a[0] == b[0]
  {
    hide LexLess;
    assert a[0] in a && b[0] in b;
    var i :| 0 <= i < |b| && b[i] == a[0];
    var j :| 0 <= j < |a| && a[j] == b[0];
    if i > 0 && j > 0 {
      LexTransitive(a[0], a[j], a[0]);
      LexIrreflexive(a[0]);
    }
  }

  lemma RestOrder(a: seq<Name>, s: set<Name>)
    requires NameOrder(a, s) && a != []
    ensures NameOrder(a[1..], s - {a[0]})
  {
    IncreasingDistinct(a);
    hide LexLess;
    assert forall n :: n in a <==> n == a[0] || n in a[1..];
  }

  /** The smallest name of a set. */
  method Least(s: set<Name>) returns (n: Name)
    requires s != {}
    ensures n in s && forall m :: m in s && m != n ==> LexLess(n, m)
  {
    n :| n in s;
    var todo := s - {n};
    while todo != {}
      invariant todo <= s && n in s && n !in todo
      invariant forall m :: m in s && m !in todo && m != n ==> LexLess(n, m)
      decreases |todo|
    {
      var m :| m in todo;
      LexTotal(m, n);
      if LexLess(m, n) {
        forall k | k in s && k !in todo && k != n ensures LexLess(m, k) { LexTransitive(m, n, k); }
        n := m;
      }
      todo := todo - {m};
    }
  }

  // ----- one directory's entries -----

  datatype DirEnt = DirEnt(inode: Inode, isDir: bool, name: Name)

  predicate IsDirInode(t: Tree, i: Inode) {
    i in t.nodes && t.nodes[i].Directory?
  }

  /** es lists directory `dir`'s children in name order. */
  ghost predicate ChildEntries(t: Tree, dir: Inode, es: seq<DirEnt>) {
    var cs := Children(t.nodes, dir);
    && NameOrder(Names(es), cs.Keys)
    && forall e :: e in es ==> e.name in cs && e.inode == cs[e.name] && e.isDir == IsDirInode(t, e.inode)
  }

  function Names(es: seq<DirEnt>): (ns: seq<Name>)
    ensures |ns| == |es| && forall i :: 0 <= i < |es| ==> ns[i] == es[i].name
  {
    seq(|es|, i requires 0 <= i < |es| => es[i].name)
  }

  /** VirtualTree::readdir: the children in the order of the child map. */
  method ReadChildren(tree: VirtualTree, dir: Inode) returns (r: Option<seq<DirEnt>>)
    ensures r.Some? <==> dir in tree.nodes && tree.nodes[dir].Directory?
    ensures r.Some? ==> ChildEntries(tree.State(), dir, r.value)
  {
    if !(dir in tree.nodes && tree.nodes[dir].Directory?) {
      return None;
    }
    var children := tree.nodes[dir].children;
    var es: seq<DirEnt> := [];
    var todo := children.Keys;
    hide LexLess;
    while todo != {}
      invariant todo <= children.Keys
      invariant forall e :: e in es ==>
        e.name in children && e.inode == children[e.name] && e.isDir == IsDirInode(tree.State(), e.inode)
      invariant forall n :: n in Names(es) <==> n in children && n !in todo
      invariant Increasing(Names(es))
      invariant forall m, n :: m in Names(es) && n in todo ==> LexLess(m, n)
      decreases |todo|
    {
      var n := Least(todo);
      var i := children[n];
      ghost var before := es;
      es := es + [DirEnt(i, i in tree.nodes && tree.nodes[i].Directory?, n)];
      assert Names(es) == Names(before) + [n];
      todo := todo - {n};
    }
    return Some(es);
  }

  /** In a tree in agreement these are exactly the paths right below the directory, each
      with its inode and kind. */
  lemma EntriesShown(t: Tree, p: Path, es: seq<DirEnt>)
    requires Consistent(t) && p in t.index && ChildEntries(t, t.index[p], es)
    ensures forall e :: e in es ==>
      && Child(p, e.name) in View(t) && View(t)[Child(p, e.name)].inode == e.inode
      && (e.isDir <==> View(t)[Child(p, e.name)].DirEntry?)
    ensures forall q :: q in View(t) && q != "/" && Parent(q) == p ==> BaseName(q) in Names(es)
  {
    forall e | e in es
      ensures Child(p, e.name) in View(t) && View(t)[Child(p, e.name)].inode == e.inode
      ensures e.isDir <==> View(t)[Child(p, e.name)].DirEntry?
    {
      assert ChildOk(t, p, e.name);
      ViewKinds(t, Child(p, e.name));
    }
    forall q | q in View(t) && q != "/" && Parent(q) == p ensures BaseName(q) in Names(es) {
      ViewKinds(t, q);
      assert PathOk(t, q);
    }
  }

  /** The kernel's reply buffer: takes entries, of `size` bytes each, until the next
      one no longer fits. */
  class ReplyDirectory {
    const capacity: nat
    const size: DirEnt -> nat
    var used: nat
    var entries: seq<(nat, DirEnt)>

    constructor (capacity: nat, size: DirEnt -> nat)
      ensures this.capacity == capacity && this.size == size && used == 0 && entries == []
    {
      this.capacity := capacity;
      this.size := size;
      used := 0;
      entries := [];
    }

    /** True if the entry does not fit any more; then it is not added. */
    method Add(offset: nat, e: DirEnt) returns (full: bool)
      modifies this
      ensures full <==> old(used) + size(e) > capacity
      ensures used == if full then old(used) else old(used) + size(e)
      ensures entries == if full then old(entries) else old(entries) + [(offset, e)]
    {
      if used + size(e) > capacity { return true; }
      used := used + size(e);
      entries := entries + [(offset, e)];
      return false;
    }
  }

  /** Entries from position `offset` on, each carrying the position after it, as
      many as fit into `free` bytes. */
  function Page(size: DirEnt -> nat, all: seq<DirEnt>, offset: nat, free: nat): seq<(nat, DirEnt)>
    decreases |all| - offset
  {
    if offset >= |all| || size(all[offset]) > free then []
    else [(offset + 1, all[offset])] + Page(size, all, offset + 1, free - size(all[offset]))
  }

  /** One entry offered to the buffer, with the page still to come from i on. */
  lemma PageNext(size: DirEnt -> nat, all: seq<DirEnt>, so: seq<(nat, DirEnt)>, i: nat, free: nat)
    ensures i >= |all| || size(all[i]) > free ==> so + Page(size, all, i, free) == so
    ensures i < |all| && size(all[i]) <= free ==>
      so + Page(size, all, i, free) == (so + [(i + 1, all[i])]) + Page(size, all, i + 1, free - size(all[i]))
  {
  }

  /** The readdir handler's two loops over a fresh reply buffer. */
  method FillPage(all: seq<DirEnt>, offset: nat, reply: ReplyDirectory)
    requires |all| >= 2 && reply.entries == [] && reply.used == 0
    modifies reply
    ensures reply.entries == Page(reply.size, all, offset, reply.capacity)
  {
    var entries, children := all[..2], all[2..];
    ghost var page := Page(reply.size, all, offset, reply.capacity);
    hide Page;
    var i := offset;
    while i < 2
      invariant reply.used <= reply.capacity && (i <= 2 || i == offset) && offset <= i
      invariant page == reply.entries + Page(reply.size, all, i, reply.capacity - reply.used)
      decreases 2 - i
    {
      PageNext(reply.size, all, reply.entries, i, reply.capacity - reply.used);
      var full := reply.Add(i + 1, entries[i]);
      if full { return; }
      i := i + 1;
    }
    for j := 0 to |children|
      invariant reply.used <= reply.capacity
      invariant page == reply.entries + Page(reply.size, all, Max(2 + j, offset), reply.capacity - reply.used)
    {
      var entryOffset := 2 + j;
      if entryOffset < offset { continue; }
      PageNext(reply.size, all, reply.entries, entryOffset, reply.capacity - reply.used);
      var full := reply.Add(entryOffset + 1, children[j]);
      if full { return; }
    }
    PageNext(reply.size, all, reply.entries, Max(|all|, offset), reply.capacity - reply.used);
  }

  /** The readdir handler: ".", "..", then the children in name order, from the offset
      on, as far as the buffer takes them; nothing if it is no directory. */
  method ReadDirectory(tree: VirtualTree, dir: Inode, offset: nat, reply: ReplyDirectory)
    returns (found: bool, ghost es: seq<DirEnt>, ghost parent: Inode)
    requires Consistent(tree.State()) && reply.entries == [] && reply.used == 0
    modifies reply
    ensures found <==> dir in tree.nodes && tree.nodes[dir].Directory?
    ensures !found ==> reply.entries == []
    ensures found ==>
      && ChildEntries(tree.State(), dir, es)
      && (forall p :: p in tree.pathToInode && tree.pathToInode[p] == dir ==>
           Find(tree.State(), Parent(p)) == Some(parent))
      && reply.entries == Page(reply.size, [DirEnt(dir, true, "."), DirEnt(parent, true, "..")] + es, offset,
                               reply.capacity)
  {
    hide LastSlash, Parent, BaseName, ValidPath, NameOrder;
    es, parent := [], ROOT_INODE;
    var children := ReadChildren(tree, dir);
    if children.None? { return false, es, parent; }
    var above := tree.GetParent(dir);
    var parentInode := if above.Some? then above.value else ROOT_INODE;
    es, parent := children.value, parentInode;
    assert forall p :: p in tree.pathToInode && tree.pathToInode[p] == dir ==> PathOk(tree.State(), p);
    FillPage([DirEnt(dir, true, "."), DirEnt(parentInode, true, "..")] + children.value, offset, reply);
    return true, es, parent;
  }

  // ----- resuming -----

  /** Reading page after page, each from the last offset returned, with the given
      buffer sizes. */
  function Resume(size: DirEnt -> nat, all: seq<DirEnt>, offset: nat, capacities: seq<nat>): seq<DirEnt>
    decreases |capacities|
  {
    if capacities == [] then []
    else
      var page := Page(size, all, offset, capacities[0]);
      var next := if page == [] then offset else page[|page| - 1].0;
      Entries(page) + Resume(size, all, next, capacities[1..])
  }

  function Entries(page: seq<(nat, DirEnt)>): (es: seq<DirEnt>)
    ensures |es| == |page| && forall i :: 0 <= i < |page| ==> es[i] == page[i].1
  {
    seq(|page|, i requires 0 <= i < |page| => page[i].1)
  }

  function Room(size: DirEnt -> nat, es: seq<DirEnt>): nat {
    if es == [] then 0 else size(es[0]) + Room(size, es[1..])
  }

  lemma RoomCons(size: DirEnt -> nat, all: seq<DirEnt>, lo: nat, hi: nat)
    requires lo < hi <= |all|
    ensures Room(size, all[lo..hi]) == size(all[lo]) + Room(size, all[lo + 1..hi])
  {
    assert all[lo..hi][1..] == all[lo + 1..hi];
  }

  lemma EntriesCons(all: seq<DirEnt>, lo: nat, hi: nat, rest: seq<(nat, DirEnt)>)
    requires lo < hi <= |all| && Entries(rest) == all[lo + 1..hi]
    ensures Entries([(lo + 1, all[lo])] + rest) == all[lo..hi]
  {
  }

  /** A page is the longest slice that fits, and each entry carries the position
      behind it. */
  ghost predicate IsSlice(size: DirEnt -> nat, all: seq<DirEnt>, offset: nat, free: nat, page: seq<(nat, DirEnt)>) {
    var end := offset + |page|;
    && end <= |all| && Entries(page) == all[offset..end]
    && (forall i :: 0 <= i < |page| ==> page[i].0 == offset + i + 1)
    && Room(size, all[offset..end]) <= free
    && (end < |all| ==> Room(size, all[offset..end]) + size(all[end]) > free)
  }

  lemma SliceStep(size: DirEnt -> nat, all: seq<DirEnt>, offset: nat, free: nat, rest: seq<(nat, DirEnt)>)
    requires offset < |all| && size(all[offset]) <= free
    requires IsSlice(size, all, offset + 1, free - size(all[offset]), rest)
    ensures IsSlice(size, all, offset, free, [(offset + 1, all[offset])] + rest)
  {
    hide Entries, Room;
    EntriesCons(all, offset, offset + 1 + |rest|, rest);
    RoomCons(size, all, offset, offset + 1 + |rest|);
  }

  lemma {:induction false} PageIsSlice(size: DirEnt -> nat, all: seq<DirEnt>, offset: nat, free: nat)
    requires offset <= |all|
    ensures IsSlice(size, all, offset, free, Page(size, all, offset, free))
    decreases |all| - offset
  {
    if offset < |all| && size(all[offset]) <= free {
      hide IsSlice;
      PageIsSlice(size, all, offset + 1, free - size(all[offset]));
      SliceStep(size, all, offset, free, Page(size, all, offset + 1, free - size(all[offset])));
    } else {
      assert all[offset..offset] == [];
    }
  }

  /** Every buffer takes any one entry. */
  ghost predicate TakesAny(size: DirEnt -> nat, all: seq<DirEnt>, capacities: seq<nat>) {
    forall c, e :: c in capacities && e in all ==> size(e) <= c
  }

  /** What one buffer brings: the position gets further if the buffer takes the
      next entry. */
  lemma PageMoves(size: DirEnt -> nat, all: seq<DirEnt>, offset: nat, capacities: seq<nat>)
    requires offset <= |all| && capacities != []
    ensures var page := Page(size, all, offset, capacities[0]);
      var next := if page == [] then offset else page[|page| - 1].0;
      && offset <= next <= |all| && Entries(page) == all[offset..next]
      && (TakesAny(size, all, capacities) && offset < |all| ==> next > offset)
    ensures TakesAny(size, all, capacities) ==> TakesAny(size, all, capacities[1..])
  {
    PageIsSlice(size, all, offset, capacities[0]);
    assert capacities[0] in capacities && forall c :: c in capacities[1..] ==> c in capacities;
    assert offset < |all| ==> all[offset] in all;
  }

  /** A page in front of what the following pages give. */
  lemma JoinPages(all: seq<DirEnt>, offset: nat, next: nat, rest: seq<DirEnt>)
    requires offset <= next <= |all| && rest <= all[next..]
    ensures all[offset..next] + rest <= all[offset..]
    ensures rest == all[next..] ==> all[offset..next] + rest == all[offset..]
  {
    assert all[offset..] == all[offset..next] + all[next..];
  }

  /** Whatever the buffer sizes, resuming from the last offset lists a prefix, each
      entry once and in order; with buffers that take any single entry, and enough
      of them, it lists everything, and further reads return nothing. */
  lemma {:induction false} ResumeListsAll(size: DirEnt -> nat, all: seq<DirEnt>, offset: nat, capacities: seq<nat>)
    requires offset <= |all|
    ensures Resume(size, all, offset, capacities) <= all[offset..]
    ensures |all| - offset <= |capacities| && TakesAny(size, all, capacities) ==>
      Resume(size, all, offset, capacities) == all[offset..]
    decreases |capacities|
  {
    if capacities != [] {
      PageMoves(size, all, offset, capacities);
      var page := Page(size, all, offset, capacities[0]);
      var next := if page == [] then offset else page[|page| - 1].0;
      hide Page, Entries, TakesAny;
      ResumeListsAll(size, all, next, capacities[1..]);
      JoinPages(all, offset, next, Resume(size, all, next, capacities[1..]));
    }
  }

  /** An entry too large for every buffer is never got past. */
  lemma {:induction false} TooLargeStalls(size: DirEnt -> nat, all: seq<DirEnt>, offset: nat, capacities: seq<nat>)
    requires offset < |all| && forall c :: c in capacities ==> size(all[offset]) > c
    ensures Resume(size, all, offset, capacities) == []
    decreases |capacities|
  {
    if capacities != [] {
      assert capacities[0] in capacities && forall c :: c in capacities[1..] ==> c in capacities;
      TooLargeStalls(size, all, offset, capacities[1..]);
    }
  }

  /** A whole directory, read in pages: ".", "..", then each child exactly once in
      name order. */
  lemma DirectoryListsOnce(t: Tree, dir: Inode, parent: Inode, es: seq<DirEnt>,
                           size: DirEnt -> nat, capacities: seq<nat>)
    requires ChildEntries(t, dir, es)
    requires var all := [DirEnt(dir, true, "."), DirEnt(parent, true, "..")] + es;
      TakesAny(size, all, capacities) && |all| <= |capacities|
    ensures var all := [DirEnt(dir, true, "."), DirEnt(parent, true, "..")] + es;
      Resume(size, all, 0, capacities) == all
    ensures forall n :: n in Children(t.nodes, dir) <==> n in Names(es)
    ensures forall i, j :: 0 <= i < j < |es| ==> es[i].name != es[j].name
  {
    var all := [DirEnt(dir, true, "."), DirEnt(parent, true, "..")] + es;
    assert all[0..] == all;
    IncreasingDistinct(Names(es));
    assert forall i :: 0 <= i < |es| ==> Names(es)[i] == es[i].name;
    hide Resume, TakesAny, LexLess, Increasing, Names;
    ResumeListsAll(size, all, 0, capacities);
  }
}
