/**
 Absolute slash-separated paths, kept as strings because the tree tests for
 subtrees with string prefixes. `Parent` and `BaseName` are `Path::parent` and
 `Path::file_name` on paths in normal form; `Components` is the code's
 split on '/' that drops empty pieces.
 */
module Paths {

  type Path = string
  type Name = string

  /** A directory entry's name: not empty, no slash, neither "." nor "..". */
  predicate ValidName(n: Name) {
    n != "" && '/' !in n && n != "." && n != ".."
  }

  /** Position of the last slash, or -1. */
  function LastSlash(s: string): (k: int)
    ensures -1 <= k < |s|
    ensures k >= 0 ==> s[k] == '/'
    ensures forall j :: k < j < |s| ==> s[j] != '/'
  {
    if s == "" then -1
    else if s[|s| - 1] == '/' then |s| - 1
    else LastSlash(s[..|s| - 1])
  }

  function Parent(p: Path): Path {
    if LastSlash(p) <= 0 then "/" else p[..LastSlash(p)]
  }

  function BaseName(p: Path): Name {
    p[LastSlash(p) + 1..]
  }

  function Child(dir: Path, n: Name): Path {
    if dir == "/" then "/" + n else dir + "/" + n
  }

  /** "/" or a slash-separated list of valid names behind a leading slash. */
  predicate ValidPath(p: Path)
    decreases |p|
  {
    p == "/" ||
    (LastSlash(p) >= 0 && LastSlash(p) != 1 && ValidName(BaseName(p)) && ValidPath(Parent(p)))
  }

  /** p is dir itself or lies below it, component-wise (dir is not "/"). */
  predicate InSubtree(p: Path, dir: Path) {
    p == dir || dir + "/" <= p
  }

  /** The pieces between slashes, empty pieces dropped. */
  function Components(s: string): (cs: seq<Name>)
    decreases |s|
  {
    if s == "" then []
    else
      var k := LastSlash(s);
      var init := if k <= 0 then "" else s[..k];
      if s[k + 1..] == "" then (if k < 0 then [] else Components(init))
      else if k < 0 then [s]
      else Components(init) + [s[k + 1..]]
  }

  /** The path with the given components. */
  function Join(cs: seq<Name>): Path {
    if cs == [] then "/" else Child(Join(cs[..|cs| - 1]), cs[|cs| - 1])
  }

  lemma LastSlashUnique(s: string, k: int)
    requires -1 <= k < |s|
    requires k >= 0 ==> s[k] == '/'
    requires forall j :: k < j < |s| ==> s[j] != '/'
    ensures LastSlash(s) == k
  {
  }

  lemma SplitAtSlash(p: string, k: nat)
    requires k < |p| && p[k] == '/'
    ensures p[..k] + "/" + p[k + 1..] == p
  {
  }

  /** A valid path is taken apart and put together again without loss. */
  lemma ChildOfParent(p: Path)
    requires ValidPath(p) && p != "/"
    ensures Child(Parent(p), BaseName(p)) == p
    ensures |Parent(p)| < |p|
    ensures ValidPath(Parent(p)) && ValidName(BaseName(p))
  {
    var k := LastSlash(p);
    assert k != 1 && ValidName(BaseName(p)) && ValidPath(Parent(p));
    hide LastSlash, ValidPath, ValidName;
    SplitAtSlash(p, k);
    if k > 0 {
      assert |p[..k]| > 1;
    }
  }

  /** Adding a name to a valid directory path and taking it off again. */
  lemma ParentOfChild(dir: Path, n: Name)
    requires ValidPath(dir) && ValidName(n)
    ensures Child(dir, n) != "/" && ValidPath(Child(dir, n))
    ensures Parent(Child(dir, n)) == dir && BaseName(Child(dir, n)) == n
  {
    var p := Child(dir, n);
    var k := if dir == "/" then 0 else |dir|;
    LastSlashUnique(p, k);
    assert p[k + 1..] == n;
    assert k > 0 ==> p[..k] == dir;
    assert |dir| >= 1;
    assert |dir| == 1 && LastSlash(dir) >= 0 ==> dir == "/";
  }

  /** Join and Components are inverse on valid paths. */
  lemma {:induction false} JoinComponents(p: Path)
    requires ValidPath(p)
    ensures Join(Components(p)) == p
    ensures p != "/" ==> |Components(p)| > 0 && Components(p)[|Components(p)| - 1] == BaseName(p)
                         && Components(p)[..|Components(p)| - 1] == Components(Parent(p))
    ensures p == "/" ==> Components(p) == []
    decreases |p|
  {
    if p != "/" {
      ChildOfParent(p);
      var k := LastSlash(p);
      var cs := Components(p);
      assert Components("") == [];
      assert Components("/") == [];
      assert cs == Components(if k <= 0 then "" else p[..k]) + [p[k + 1..]];
      assert cs[..|cs| - 1] == Components(Parent(p));
      JoinComponents(Parent(p));
    }
  }

  lemma JoinTake(cs: seq<Name>, k: nat)
    requires k < |cs|
    ensures Join(cs[..k + 1]) == Child(Join(cs[..k]), cs[k])
  {
    assert cs[..k + 1][..k] == cs[..k];
  }

  /** Every prefix of a valid path's components names a valid path, one step
      below the previous one. */
  lemma {:induction false} ComponentsPrefix(p: Path, k: nat)
    requires ValidPath(p) && k <= |Components(p)|
    ensures var cs := Components(p);
      && ValidPath(Join(cs[..k]))
      && (k < |cs| ==> ValidName(cs[k]) && Join(cs[..k + 1]) == Child(Join(cs[..k]), cs[k]))
    decreases |p|
  {
    var cs := Components(p);
    JoinComponents(p);
    hide LastSlash, ValidPath, ValidName, Components, BaseName, Parent, Child, Join;
    if k == |cs| {
      assert cs[..k] == cs;
    } else {
      ChildOfParent(p);
      var init := Components(Parent(p));
      JoinTake(cs, k);
      assert cs[..k] == init[..k];
      assert k < |init| ==> cs[k] == init[k];
      ComponentsPrefix(Parent(p), k);
    }
  }

  /** What a valid path starts with. */
  lemma {:induction false} ValidStart(p: Path)
    requires ValidPath(p)
    ensures |p| > 0 && p[0] == '/'
    decreases |p|
  {
    if p != "/" && LastSlash(p) > 1 {
      ValidStart(Parent(p));
    }
  }

  /** A path strictly below dir has its parent in dir's subtree. */
  lemma ParentBelow(p: Path, dir: Path)
    requires dir + "/" <= p && p != dir + "/"
    requires dir != "" && dir != "/"
    requires BaseName(p) != ""
    ensures LastSlash(p) >= |dir|
    ensures Parent(p) == p[..LastSlash(p)]
    ensures InSubtree(Parent(p), dir)
  {
    assert p[|dir|] == '/';
    var k := LastSlash(p);
    if k > |dir| {
      assert dir + "/" <= p[..k];
    } else {
      assert p[..k] == dir;
    }
  }

  /** Below dir means: dir itself, or with a parent below dir. */
  lemma SubtreeParent(p: Path, dir: Path)
    requires ValidPath(p) && p != "/" && ValidPath(dir) && dir != "/"
    ensures InSubtree(p, dir) <==> p == dir || InSubtree(Parent(p), dir)
  {
    ChildOfParent(p);
    ValidStart(dir);
    var q := Parent(p);
    if dir + "/" <= p {
      assert p == dir + "/" ==> LastSlash(p) == |dir|;
      ParentBelow(p, dir);
    }
    if InSubtree(q, dir) {
      assert |dir| > 1 by { assert dir != "/"; }
      assert q != "/";
      assert p == q + "/" + BaseName(p);
      if dir + "/" <= q {
        assert q <= p;
      }
    }
  }

  lemma RootNotBelow(dir: Path)
    requires ValidPath(dir) && dir != "/"
    ensures !InSubtree("/", dir) && !InSubtree(Parent(dir), dir)
  {
    ValidStart(dir);
    ChildOfParent(dir);
  }

  /** If q's last slash lies within dir, q is a sibling of dir. */
  lemma SameParent(q: Path, dir: Path)
    requires dir <= q && LastSlash(q) < |dir| && LastSlash(dir) >= 0
    ensures LastSlash(q) == LastSlash(dir) && Parent(q) == Parent(dir)
  {
    var k, m := LastSlash(dir), LastSlash(q);
    assert q[k] == '/';
    assert m >= k && dir[m] == q[m];
    assert q[..k] == dir[..k];
  }

  /** If q's last slash lies behind dir, q's parent still starts with dir. */
  lemma ParentStillBelow(q: Path, dir: Path)
    requires dir <= q && LastSlash(q) >= |dir| > 1 && !InSubtree(q, dir)
    ensures dir <= Parent(q) && !InSubtree(Parent(q), dir)
  {
    var m := LastSlash(q);
    assert q[..m][..|dir|] == dir;
    assert m == |dir| ==> dir + "/" <= q;
    assert dir + "/" <= q[..m] ==> dir + "/" <= q;
  }

  /** The highest path on the way to q that starts with dir as a string without
      being in dir's subtree: a sibling of dir with a longer name. */
  lemma {:induction false} ClashingSibling(q: Path, dir: Path) returns (s: Path)
    requires ValidPath(q) && ValidPath(dir) && dir != "/"
    requires dir <= q && !InSubtree(q, dir)
    ensures ValidPath(s) && s != "/" && (s == q || s + "/" <= q)
    ensures dir <= s && !InSubtree(s, dir)
    ensures Parent(s) == Parent(dir) && BaseName(s) != BaseName(dir) && s != dir
    decreases |q|
  {
    ValidStart(dir);
    ChildOfParent(dir);
    ChildOfParent(q);
    if LastSlash(q) < |dir| {
      SameParent(q, dir);
      s := q;
    } else {
      ParentStillBelow(q, dir);
      assert Parent(q) != "/";
      s := ClashingSibling(Parent(q), dir);
      assert Parent(q) + "/" <= q;
    }
    hide LastSlash, Parent, BaseName, ValidPath, ValidName;
  }

  // ----- moving a subtree -----

  /** p with its leading `src` replaced by `dst`, as the rewriting loop does it. */
  function Moved(p: Path, src: Path, dst: Path): Path
    requires src <= p
  {
    dst + p[|src|..]
  }

  /** Where a path ends up when the subtree at `src` moves to `dst`. */
  function Relocate(p: Path, src: Path, dst: Path): Path {
    if src <= p && InSubtree(p, src) then Moved(p, src, dst) else p
  }

  lemma SubtreePrefix(p: Path, dir: Path)
    requires InSubtree(p, dir)
    ensures dir <= p
  {
    assert dir + "/" <= p ==> p[..|dir|] == dir;
  }

  lemma MovedInSubtree(p: Path, src: Path, dst: Path)
    requires InSubtree(p, src)
    ensures src <= p && InSubtree(Moved(p, src, dst), dst)
    ensures Relocate(Moved(p, src, dst), dst, src) == p
  {
    SubtreePrefix(p, src);
    var m := Moved(p, src, dst);
    if p == src {
      assert p[|src|..] == "";
    } else {
      assert p[|src|] == '/';
      assert p[|src|..] == "/" + p[|src| + 1..];
      assert m == (dst + "/") + p[|src| + 1..];
    }
    assert m[..|dst|] == dst;
    assert m[|dst|..] == p[|src|..];
  }

  /** Cutting at a place behind the prefix, before or after moving. */
  lemma MovedCut(p: Path, src: Path, dst: Path, k: int)
    requires src <= p && |src| <= k < |p|
    ensures var m, k' := Moved(p, src, dst), k - |src| + |dst|;
      src <= p[..k] && k' < |m| && m[..k'] == Moved(p[..k], src, dst) && m[k' + 1..] == p[k + 1..]
  {
    var tail := p[|src|..];
    assert p == src + tail;
    assert p[..k] == src + tail[..k - |src|];
    assert p[..k][|src|..] == tail[..k - |src|];
    assert p[k + 1..] == tail[k + 1 - |src|..];
  }

  /** Behind the moved prefix the characters are the same, just elsewhere. */
  lemma MovedChars(p: Path, src: Path, dst: Path, k: int)
    requires src <= p && |src| <= k < |p| && p[k] == '/' && forall j :: k < j < |p| ==> p[j] != '/'
    ensures var m, k' := Moved(p, src, dst), k - |src| + |dst|;
      k' < |m| && m[k'] == '/' && forall j :: k' < j < |m| ==> m[j] != '/'
  {
    var m, k' := Moved(p, src, dst), k - |src| + |dst|;
    assert m[k'] == p[|src|..][k - |src|];
    forall j | k' < j < |m| ensures m[j] != '/' {
      assert m[j] == p[|src|..][j - |dst|] == p[j - |dst| + |src|];
    }
  }

  lemma MovedLast(p: Path, src: Path, dst: Path)
    requires src <= p && LastSlash(p) >= |src|
    ensures LastSlash(Moved(p, src, dst)) == LastSlash(p) - |src| + |dst|
  {
    MovedChars(p, src, dst, LastSlash(p));
    hide LastSlash, Moved;
    LastSlashUnique(Moved(p, src, dst), LastSlash(p) - |src| + |dst|);
  }

  lemma {:induction false} MovedSlash(p: Path, src: Path, dst: Path)
    requires src <= p && LastSlash(p) >= |src| && |dst| > 1 && |src| > 1
    ensures var m := Moved(p, src, dst);
      && LastSlash(m) == LastSlash(p) - |src| + |dst|
      && src <= p[..LastSlash(p)]
      && Parent(m) == Moved(p[..LastSlash(p)], src, dst) && BaseName(m) == BaseName(p)
  {
    var k := LastSlash(p);
    MovedLast(p, src, dst);
    MovedCut(p, src, dst, k);
    hide LastSlash, Moved;
  }

  /** Moving commutes with taking the parent, strictly inside the subtree. */
  lemma MovedParent(p: Path, src: Path, dst: Path)
    requires ValidPath(p) && ValidPath(src) && ValidPath(dst) && src != "/" && dst != "/"
    requires InSubtree(p, src) && p != src
    ensures src <= p && src <= Parent(p) && InSubtree(Parent(p), src)
    ensures Parent(Moved(p, src, dst)) == Moved(Parent(p), src, dst)
    ensures BaseName(Moved(p, src, dst)) == BaseName(p)
    ensures LastSlash(Moved(p, src, dst)) > 1 && p != "/"
  {
    ValidStart(src);
    ValidStart(dst);
    assert p != "/";
    ChildOfParent(p);
    SubtreePrefix(p, src);
    assert p == src + "/" ==> LastSlash(p) == |src|;
    ParentBelow(p, src);
    SubtreePrefix(Parent(p), src);
    MovedSlash(p, src, dst);
  }

  lemma MovedRoot(src: Path, dst: Path)
    ensures src <= src && Moved(src, src, dst) == dst && InSubtree(src, src) && Relocate(src, src, dst) == dst
  {
    assert src[|src|..] == "";
    assert dst + "" == dst;
  }

  lemma {:induction false} MovedValid(p: Path, src: Path, dst: Path)
    requires ValidPath(p) && ValidPath(src) && ValidPath(dst) && src != "/" && dst != "/"
    requires InSubtree(p, src)
    ensures src <= p && ValidPath(Moved(p, src, dst)) && Moved(p, src, dst) != "/"
    decreases |p|
  {
    SubtreePrefix(p, src);
    if p == src {
      MovedRoot(src, dst);
    } else {
      MovedParent(p, src, dst);
      ChildOfParent(p);
      MovedValid(Parent(p), src, dst);
      assert LastSlash("/") == 0;
      hide LastSlash, Moved, InSubtree, ValidName, Parent, BaseName;
    }
  }

  /** Two paths with the same parent have their last slash at the same place. */
  lemma SameParentSlash(s: Path, src: Path)
    requires ValidPath(s) && ValidPath(src) && s != "/" && src != "/" && Parent(s) == Parent(src)
    ensures LastSlash(s) == LastSlash(src)
  {
    var k, m := LastSlash(src), LastSlash(s);
    assert k != 1 && m != 1 && k >= 0 && m >= 0;
    assert |Parent(s)| == (if m == 0 then 1 else m) && |Parent(src)| == (if k == 0 then 1 else k);
    hide *;
  }

  /** A slash-free suffix only lengthens the base name. */
  lemma SuffixedPath(p: Path, suffix: string)
    requires LastSlash(p) >= 0 && '/' !in suffix
    ensures Parent(p + suffix) == Parent(p) && BaseName(p + suffix) == BaseName(p) + suffix
  {
    hide LastSlash;
    var d := LastSlash(p);
    forall j | d < j < |p + suffix| ensures (p + suffix)[j] != '/' {
      assert j >= |p| ==> (p + suffix)[j] in suffix;
    }
    LastSlashUnique(p + suffix, d);
    assert (p + suffix)[d + 1..] == p[d + 1..] + suffix;
    assert (p + suffix)[..d] == p[..d];
  }

  /** Moving a sibling whose name is src's name plus a suffix puts it beside dst,
      under dst's name plus that suffix. */
  lemma MovedSibling(s: Path, src: Path, dst: Path)
    requires ValidPath(s) && ValidPath(src) && ValidPath(dst) && src != "/" && dst != "/"
    requires src <= s && Parent(s) == Parent(src) && s != src && s != "/"
    ensures BaseName(s) == BaseName(src) + s[|src|..]
    ensures Parent(Moved(s, src, dst)) == Parent(dst)
    ensures BaseName(Moved(s, src, dst)) == BaseName(dst) + s[|src|..]
  {
    SameParentSlash(s, src);
    assert LastSlash(src) >= 0 && LastSlash(dst) >= 0;
    var suffix := s[|src|..];
    assert s == src + suffix;
    assert forall j :: 0 <= j < |suffix| ==> suffix[j] == s[|src| + j];
    SuffixedPath(src, suffix);
    SuffixedPath(dst, suffix);
    hide LastSlash, Parent, BaseName, ValidPath;
  }
}
