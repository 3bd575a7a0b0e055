// The file system as one map from paths to nodes, and the operating system
// calls the server makes on it.  Every call may fail for a reason outside the
// program; `faults` counts those failures, so that a contract can say what
// happens when none occurs.

module FileTree {
  import opened FilePaths

  datatype Option<+T> = None | Some(value: T)

  datatype Errno =
    | NotExist   // ENOENT
    | NotDir     // ENOTDIR
    | NotEmpty   // ENOTEMPTY or EEXIST from rmdir
    | Exist      // EEXIST
    | Unsafe     // the server's own errUnsafePath
    | IoFailure  // any failure outside the program's control

  datatype Node = File(content: string, mode: nat) | Dir | Symlink(target: string)

  type Tree = map<Path, Node>

  // Every node hangs below a directory.
  ghost predicate Closed(t: Tree) {
    && [] in t && t[[]].Dir?
    && forall p {:trigger Parent(p)} :: p in t && p != [] ==> Parent(p) in t && t[Parent(p)].Dir?
  }

  lemma {:induction false} AncestorsAreDirs(t: Tree, q: Path, p: Path)
    requires Closed(t) && p in t && Above(q, p)
    ensures q in t && t[q].Dir?
    decreases |p|
  {
    if q != Parent(p) {
      assert q == p[..|q|] == Parent(p)[..|q|];
      AncestorsAreDirs(t, q, Parent(p));
    }
  }

  predicate HasChild(t: Tree, p: Path) {
    exists q :: q in t && q != [] && Parent(q) == p
  }

  lemma {:induction false} DescendantGivesChild(t: Tree, p: Path, q: Path)
    requires Closed(t) && q in t && Above(p, q)
    ensures HasChild(t, p)
  {
    var c := q[..|p| + 1];
    if c != q { AncestorsAreDirs(t, c, q); }
    assert Parent(c) == p;
  }

  // The names of a directory's entries, each once.
  ghost predicate IsListing(t: Tree, p: Path, entries: seq<string>) {
    && (forall n :: n in entries <==> p + [n] in t)
    && (forall i, j :: 0 <= i < j < |entries| ==> entries[i] != entries[j])
  }

  lemma ListsChildren(t: Tree, p: Path, entries: seq<string>)
    requires forall n :: n in entries <==> n in (set q | q in t && q != [] && Parent(q) == p :: q[|p|])
    requires forall i, j :: 0 <= i < j < |entries| ==> entries[i] != entries[j]
    ensures IsListing(t, p, entries)
  {
    forall n ensures n in entries <==> p + [n] in t {
      assert Parent(p + [n]) == p && (p + [n])[|p|] == n;
      if n in entries {
        var q :| q in t && q != [] && Parent(q) == p && q[|p|] == n;
        assert q == p + [n];
      }
    }
  }

  // Why a path is not there: a missing directory or a file in the way.
  // (Nothing here follows a symbolic link: the server rejects them first.)
  function MissReason(t: Tree, p: Path): (why: Errno)
    ensures why in {NotExist, NotDir, Unsafe}
    decreases |p|
  {
    if p == [] then NotExist
    else if Parent(p) in t then
      match t[Parent(p)]
      case Dir => NotExist
      case File(_, _) => NotDir
      case Symlink(_) => Unsafe
    else MissReason(t, Parent(p))
  }

  lemma {:induction false} MissReasonBelowDir(t: Tree, q: Path, p: Path)
    requires Closed(t) && q <= p && p !in t
    requires forall i :: |q| <= i < |p| && p[..i] in t ==> t[p[..i]].Dir?
    requires q in t
    ensures MissReason(t, p) == NotExist
    decreases |p|
  {
    assert p == p[..|p|] && q == p[..|q|];
    assert Parent(p) == p[..|p| - 1];
    if Parent(p) !in t {
      assert q == Parent(p)[..|q|];
      assert forall i :: |q| <= i < |p| - 1 ==> Parent(p)[..i] == p[..i];
      MissReasonBelowDir(t, q, Parent(p));
    }
  }

  // The children of a removed node were already gone.
  lemma RemoveLeafKeepsClosed(t: Tree, p: Path)
    requires Closed(t) && p in t && p != [] && !HasChild(t, p)
    ensures Closed(t - {p})
  {
  }

  lemma RemoveBelowKeepsClosed(t: Tree, p: Path)
    requires Closed(t) && p != []
    ensures Closed(t - (set q | q in t && p <= q))
  {
    forall q {:trigger Parent(q)} | q in t && q != [] && !(p <= q) ensures !(p <= Parent(q)) {
      BelowParent(p, q);
    }
  }

  // What creating directories may do: only missing ancestors-or-self of p appear.
  ghost predicate OnlyDirsAdded(t: Tree, t': Tree, p: Path) {
    && (forall q :: q in t ==> q in t' && t'[q] == t[q])
    && (forall q :: q in t' && q !in t ==> q <= p && t'[q] == Dir)
  }

  lemma AddDirectory(t0: Tree, t: Tree, p: Path, i: nat)
    requires i < |p| && Closed(t) && OnlyDirsAdded(t0, t, p)
    requires p[..i] in t && t[p[..i]].Dir? && p[..i + 1] !in t
    ensures Closed(t[p[..i + 1] := Dir]) && OnlyDirsAdded(t0, t[p[..i + 1] := Dir], p)
  {
    assert Parent(p[..i + 1]) == p[..i];
    assert p[..i + 1] <= p;
  }

  // Nothing but a directory stands on the way to p.
  ghost predicate WayIsClear(t: Tree, p: Path) {
    forall i :: 0 <= i <= |p| && p[..i] in t ==> t[p[..i]].Dir?
  }

  lemma AboveAreClear(t: Tree, p: Path)
    requires Closed(t) && p in t && t[p].Dir?
    ensures WayIsClear(t, p)
  {
    forall i | 0 <= i <= |p| && p[..i] in t ensures t[p[..i]].Dir? {
      if i < |p| { AncestorsAreDirs(t, p[..i], p); } else { assert p[..i] == p; }
    }
  }

  lemma MissingUnderClearWay(t: Tree, p: Path)
    requires Closed(t) && p != [] && p !in t && WayIsClear(t, Parent(p))
    ensures MissReason(t, p) == NotExist
  {
    forall i | 0 <= i < |p| && p[..i] in t ensures t[p[..i]].Dir? {
      assert p[..i] == Parent(p)[..i];
    }
    MissReasonBelowDir(t, [], p);
  }

  lemma {:induction false} MissingMeansClearWay(t: Tree, p: Path)
    requires Closed(t) && p != [] && p !in t && MissReason(t, p) == NotExist
    ensures WayIsClear(t, Parent(p))
    decreases |p|
  {
    var up := Parent(p);
    if up in t {
      AboveAreClear(t, up);
    } else {
      MissingMeansClearWay(t, up);
      assert up[..|up|] == up;
      forall i | 0 <= i < |up| && up[..i] in t ensures t[up[..i]].Dir? {
        assert up[..i] == Parent(up)[..i];
      }
    }
  }

  lemma NothingBelowMissing(t: Tree, p: Path)
    requires Closed(t) && p !in t
    ensures forall q :: q in t ==> !(p <= q)
  {
    forall q | q in t ensures !(p <= q) {
      if Above(p, q) { AncestorsAreDirs(t, p, q); }
    }
  }

  // What a write of p may do: ancestors appear as directories, p becomes the file.
  ghost predicate OnlyWrote(t: Tree, t': Tree, p: Path, file: Node) {
    && (forall q :: q in t && q != p ==> q in t' && t'[q] == t[q])
    && (forall q :: q in t' && q !in t && q != p ==> Above(q, p) && t'[q] == Dir)
    && (p in t ==> p in t' && (t'[p] == t[p] || (!t[p].Dir? && t'[p] == file)))
    && (p in t' && p !in t ==> t'[p] == file)
  }

  // The rename that ends a write.
  lemma PutFile(t0: Tree, t: Tree, p: Path, file: Node)
    requires p != [] && Closed(t) && OnlyDirsAdded(t0, t, Parent(p))
    requires Parent(p) in t && t[Parent(p)].Dir? && (p in t ==> !t[p].Dir?) && !file.Dir?
    ensures Closed(t[p := file]) && OnlyWrote(t0, t[p := file], p, file)
  {
    assert forall q {:trigger Parent(q)} :: q in t && q != [] ==> Parent(q) != p;
  }

  // The same node's path after src has become dst.
  function Rebase(q: Path, src: Path, dst: Path): Path
    requires src <= q
  {
    dst + q[|src|..]
  }

  // os.Rename: the node at src, and what hangs below it, is found at dst instead.
  function Moved(t: Tree, src: Path, dst: Path): Tree {
    (map q | q in t && !(src <= q) :: t[q])
    + (map q | q in (set k | k in t && src <= k :: Rebase(k, src, dst)) && dst <= q && Rebase(q, dst, src) in t ::
         t[Rebase(q, dst, src)])
  }

  lemma RebaseBack(q: Path, src: Path, dst: Path)
    requires src <= q
    ensures dst <= Rebase(q, src, dst) && Rebase(Rebase(q, src, dst), dst, src) == q
  {
    assert Rebase(q, src, dst)[|dst|..] == q[|src|..];
    assert q == src + q[|src|..];
  }

  // Where each node of the moved tree comes from.
  lemma MovedNodes(t: Tree, src: Path, dst: Path)
    ensures forall q :: src <= q && q in t ==> Rebase(q, src, dst) in Moved(t, src, dst)
    ensures forall q :: dst <= q && Rebase(q, dst, src) in t ==>
      q in Moved(t, src, dst) && Moved(t, src, dst)[q] == t[Rebase(q, dst, src)]
    ensures forall q :: !(dst <= q && Rebase(q, dst, src) in t) ==>
      (q in Moved(t, src, dst) <==> q in t && !(src <= q)) && (q in Moved(t, src, dst) ==> Moved(t, src, dst)[q] == t[q])
  {
    forall q | src <= q && q in t ensures Rebase(q, src, dst) in Moved(t, src, dst) {
      RebaseBack(q, src, dst);
    }
    forall q | dst <= q && Rebase(q, dst, src) in t
      ensures q in Moved(t, src, dst) && Moved(t, src, dst)[q] == t[Rebase(q, dst, src)]
    {
      RebaseBack(q, dst, src);
    }
  }

  lemma BelowParent(a: Path, q: Path)
    requires q != []
    ensures a <= Parent(q) ==> a <= q
  {
  }

  lemma PrefixOfParent(a: Path, p: Path)
    requires p != []
    ensures Above(a, p) ==> a <= Parent(p)
  {
    if Above(a, p) { assert a == p[..|a|] == Parent(p)[..|a|]; }
  }

  lemma RebaseParent(q: Path, src: Path, dst: Path)
    requires Above(src, q)
    ensures src <= Parent(q) && Parent(Rebase(q, src, dst)) == Rebase(Parent(q), src, dst)
    ensures Rebase(q, src, dst) != []
  {
    assert Parent(q)[|src|..] == q[|src|..][..|q| - 1 - |src|];
  }

  lemma MovedParent(t: Tree, src: Path, dst: Path, q: Path)
    requires Closed(t) && src in t && src != [] && dst != [] && !(src <= dst)
    requires Parent(dst) in t && t[Parent(dst)].Dir? && (forall o :: o in t && dst <= o ==> o == dst)
    requires q in Moved(t, src, dst) && q != []
    ensures Parent(q) in Moved(t, src, dst) && Moved(t, src, dst)[Parent(q)].Dir?
  {
    MovedNodes(t, src, dst);
    var up := Parent(q);
    BelowParent(src, q);
    BelowParent(dst, q);
    if dst <= q && Rebase(q, dst, src) in t {
      if q != dst {
        RebaseParent(q, dst, src);
      } else {
        assert up in t && !(dst <= up) && !(src <= up);
      }
    } else {
      assert q in t && !(src <= q) && up in t && t[up].Dir?;
    }
  }

  // A node that moves to a free place under a directory keeps the tree closed.
  lemma MovedIsClosed(t: Tree, src: Path, dst: Path)
    requires Closed(t) && src in t && src != [] && dst != [] && !(src <= dst)
    requires Parent(dst) in t && t[Parent(dst)].Dir? && (forall q :: q in t && dst <= q ==> q == dst)
    ensures Closed(Moved(t, src, dst))
  {
    MovedNodes(t, src, dst);
    forall q {:trigger Parent(q)} | q in Moved(t, src, dst) && q != []
      ensures Parent(q) in Moved(t, src, dst) && Moved(t, src, dst)[Parent(q)].Dir?
    {
      MovedParent(t, src, dst, q);
    }
  }

  class Disk {
    var tree: Tree
    ghost var faults: nat

    constructor (t: Tree)
      ensures tree == t && faults == 0
    {
      tree := t;
      faults := 0;
    }

    // Ask the environment whether the next call breaks.
    method Fault() returns (bad: bool)
      modifies this`faults
      ensures faults == old(faults) + if bad then 1 else 0
    {
      bad := *;
      if bad { faults := faults + 1; }
    }

    method Lstat(p: Path) returns (err: Option<Errno>, node: Node)
      modifies this`faults
      ensures faults == old(faults) ==>
        if p in tree then err == None && node == tree[p] else err == Some(MissReason(tree, p))
      ensures old(faults) < faults ==> err == Some(IoFailure)
      ensures old(faults) <= faults
    {
      node := Dir;
      var bad := Fault();
      if bad { err := Some(IoFailure); }
      else if p in tree { err, node := None, tree[p]; }
      else { err := Some(MissReason(tree, p)); }
    }

    method ReadFile(p: Path) returns (err: Option<Errno>, content: string)
      modifies this`faults
      ensures err == None ==> p in tree && tree[p].File? && content == tree[p].content
      ensures old(faults) <= faults && (old(faults) < faults ==> err != None)
      ensures faults == old(faults) && p in tree && tree[p].File? ==> err == None
    {
      content := "";
      var bad := Fault();
      if bad { err := Some(IoFailure); }
      else if p !in tree { err := Some(MissReason(tree, p)); }
      else if !tree[p].File? { err := Some(IoFailure); }
      else { err, content := None, tree[p].content; }
    }

    // os.MkdirAll: the missing directories appear one by one from the top, so a
    // failure may leave some of them behind.
    method MkdirAll(p: Path) returns (err: Option<Errno>)
      requires Closed(tree)
      modifies this
      ensures Closed(tree) && OnlyDirsAdded(old(tree), tree, p)
      ensures err == None ==> p in tree && tree[p].Dir?
      ensures old(faults) <= faults
      ensures faults == old(faults) && old(WayIsClear(tree, p)) ==> err == None
    {
      err := None;
      var i := 0;
      while i < |p|
        invariant i <= |p|
        invariant Closed(tree) && OnlyDirsAdded(old(tree), tree, p)
        invariant p[..i] in tree && tree[p[..i]].Dir?
        invariant old(faults) <= faults
      {
        if p[..i + 1] in tree {
          if !tree[p[..i + 1]].Dir? { return Some(NotDir); }
        } else {
          var bad := Fault();
          if bad { return Some(IoFailure); }
          AddDirectory(old(tree), tree, p, i);
          tree := tree[p[..i + 1] := Dir];
        }
        i := i + 1;
      }
      assert p[..|p|] == p;
    }

    // atomicWriteFile: write a temporary file, rename it over p, sync the directory.
    // Up to the rename p is as it was; a failing sync reports an error although
    // the new content is in place.  The temporary file is not modelled.
    method AtomicWriteFile(p: Path, content: string, mode: nat) returns (err: Option<Errno>)
      requires Closed(tree) && p != []
      modifies this
      ensures Closed(tree) && OnlyWrote(old(tree), tree, p, File(content, mode))
      ensures err == None ==> p in tree && tree[p] == File(content, mode)
      ensures p in old(tree) && old(tree)[p].Dir? ==> err != None
      ensures err != None && faults == old(faults) ==> OnlyDirsAdded(old(tree), tree, Parent(p))
      ensures old(faults) <= faults
      ensures (faults == old(faults) && old(WayIsClear(tree, Parent(p))) && (p in old(tree) ==> !old(tree)[p].Dir?))
        ==> err == None
    {
      err := MkdirAll(Parent(p));
      if err != None { return; }
      var bad := Fault();
      if bad { return Some(IoFailure); }
      if p in tree && tree[p].Dir? { return Some(Exist); }
      PutFile(old(tree), tree, p, File(content, mode));
      tree := tree[p := File(content, mode)];
      bad := Fault();
      if bad { err := Some(IoFailure); }
    }

    // os.Remove: a file, a symbolic link or an empty directory.
    method Remove(p: Path) returns (err: Option<Errno>)
      requires Closed(tree) && p != []
      modifies this
      ensures Closed(tree)
      ensures err == None ==> p in old(tree) && !HasChild(old(tree), p) && tree == old(tree) - {p}
      ensures err != None ==> tree == old(tree)
      ensures err == Some(NotExist) ==> p !in tree
      ensures err == Some(NotEmpty) ==> p in tree && tree[p].Dir? && HasChild(tree, p)
      ensures old(faults) <= faults
      ensures faults == old(faults) ==>
        err == if p !in old(tree) then Some(MissReason(old(tree), p))
               else if HasChild(old(tree), p) then Some(NotEmpty) else None
    {
      var bad := Fault();
      if bad { return Some(IoFailure); }
      if p !in tree { return Some(MissReason(tree, p)); }
      if HasChild(tree, p) { return Some(NotEmpty); }
      RemoveLeafKeepsClosed(tree, p);
      tree := tree - {p};
      err := None;
    }

    // os.Rename.  Nothing is put over a directory, or below itself.
    method Rename(src: Path, dst: Path) returns (err: Option<Errno>)
      requires Closed(tree) && src != [] && dst != [] && src != dst
      modifies this
      ensures Closed(tree)
      ensures err == None ==> src in old(tree) && !(src <= dst) && tree == Moved(old(tree), src, dst)
      ensures err == None ==> Parent(dst) in old(tree) && (dst in old(tree) ==> !old(tree)[dst].Dir? && !old(tree)[src].Dir?)
      ensures err != None ==> tree == old(tree)
      ensures err == Some(NotExist) ==> src !in tree || Parent(dst) !in tree
      ensures faults == old(faults) && src !in old(tree) ==> err == Some(MissReason(tree, src))
      ensures old(faults) <= faults
      ensures (faults == old(faults) && src in old(tree) && !(src <= dst) && dst !in old(tree)
               && Parent(dst) in old(tree) && old(tree)[Parent(dst)].Dir?)
        ==> err == None
    {
      var bad := Fault();
      if bad { return Some(IoFailure); }
      if src !in tree { return Some(MissReason(tree, src)); }
      if Parent(dst) !in tree || !tree[Parent(dst)].Dir? {
        return Some(if dst in tree then IoFailure else MissReason(tree, dst));
      }
      if src <= dst { return Some(IoFailure); }
      if dst in tree {
        if tree[dst].Dir? { return Some(Exist); }
        if tree[src].Dir? { return Some(NotDir); }
      }
      forall q | q in tree && dst <= q ensures q == dst {
        if q != dst { AncestorsAreDirs(tree, dst, q); }
      }
      MovedIsClosed(tree, src, dst);
      tree := Moved(tree, src, dst);
      err := None;
    }

    // os.OpenFile with O_TRUNC, then copying: a failure may leave part of the content.
    method WriteInPlace(p: Path, content: string, mode: nat) returns (err: Option<Errno>)
      requires Closed(tree) && p != [] && Parent(p) in tree && tree[Parent(p)].Dir?
      modifies this
      ensures Closed(tree)
      ensures forall q :: q != p ==> (q in tree <==> q in old(tree)) && (q in tree ==> tree[q] == old(tree)[q])
      ensures p in old(tree) && !old(tree)[p].File? ==> tree == old(tree)
      ensures p in tree && (p in old(tree) ==> old(tree)[p].File?) ==> tree[p].File?
      ensures p in old(tree) ==> p in tree
      ensures err == None ==> p in tree && tree[p].File? && tree[p].content == content
      ensures old(faults) <= faults
      ensures faults == old(faults) && (p in old(tree) ==> old(tree)[p].File?) ==> err == None
    {
      if p in tree && !tree[p].File? { return Some(IoFailure); }
      var kept := if p in tree then tree[p].mode else mode;
      var bad := Fault();
      if bad {
        var part :| 0 <= part <= |content|;
        var created: bool := *;
        if created { tree := tree[p := File(content[..part], kept)]; }
        return Some(IoFailure);
      }
      tree := tree[p := File(content, kept)];
      err := None;
    }

    // os.RemoveAll: a failure may leave part of what hangs there.
    method RemoveAll(p: Path) returns (err: Option<Errno>)
      requires Closed(tree) && p != []
      modifies this
      ensures Closed(tree)
      ensures forall q :: q in tree ==> q in old(tree) && tree[q] == old(tree)[q]
      ensures forall q :: q in old(tree) && !(p <= q) ==> q in tree
      ensures err == None ==> forall q :: q in tree ==> !(p <= q)
      ensures old(faults) <= faults
      ensures faults == old(faults) ==> err == None
    {
      var below := set q | q in tree && p <= q;
      var bad := Fault();
      if bad {
        // what is gone from a directory goes before the directory
        var gone: set<Path> :| gone <= below && forall q :: q in below && q != [] && Parent(q) in gone ==> q in gone;
        forall q {:trigger Parent(q)} | q in tree && q != [] && Parent(q) in gone ensures q in gone {
          BelowParent(p, q);
        }
        tree := tree - gone;
        return Some(IoFailure);
      }
      RemoveBelowKeepsClosed(tree, p);
      tree := tree - below;
      err := None;
    }

    // os.ReadDir, in whatever order.
    method ReadDir(p: Path) returns (err: Option<Errno>, entries: seq<string>)
      modifies this`faults
      ensures err == None ==> p in tree && tree[p].Dir? && IsListing(tree, p, entries)
      ensures err == Some(NotExist) ==> p !in tree
      ensures old(faults) <= faults && (old(faults) < faults ==> err == Some(IoFailure))
      ensures faults == old(faults) ==>
        err == if p !in tree then Some(MissReason(tree, p)) else if tree[p].Dir? then None else Some(NotDir)
    {
      entries := [];
      var bad := Fault();
      if bad { return Some(IoFailure), []; }
      if p !in tree { return Some(MissReason(tree, p)), []; }
      if !tree[p].Dir? { return Some(NotDir), []; }
      var left := set q | q in tree && q != [] && Parent(q) == p :: q[|p|];
      ghost var all := left;
      while left != {}
        invariant forall n :: n in entries <==> n in all && n !in left
        invariant forall i, j :: 0 <= i < j < |entries| ==> entries[i] != entries[j]
        invariant left <= all
      {
        var n :| n in left;
        entries, left := entries + [n], left - {n};
      }
      ListsChildren(tree, p, entries);
      err := None;
    }

    // os.OpenFile with O_CREATE and O_EXCL.
    method CreateExclusive(p: Path, mode: nat) returns (err: Option<Errno>)
      requires Closed(tree) && p != []
      modifies this
      ensures Closed(tree)
      ensures err == None ==> p !in old(tree) && tree == old(tree)[p := File("", mode)]
      ensures err != None ==> tree == old(tree)
      ensures err == Some(Exist) ==> p in tree
      ensures old(faults) <= faults && (old(faults) < faults ==> err == Some(IoFailure))
      ensures faults == old(faults) && p in old(tree) ==> err == Some(Exist)
      ensures faults == old(faults) && p !in old(tree) && Parent(p) in old(tree) && old(tree)[Parent(p)].Dir? ==> err == None
    {
      var bad := Fault();
      if bad { return Some(IoFailure); }
      if p in tree { return Some(Exist); }
      if Parent(p) !in tree || !tree[Parent(p)].Dir? { return Some(MissReason(tree, p)); }
      PutFile(tree, tree, p, File("", mode));
      tree := tree[p := File("", mode)];
      err := None;
    }

    method SyncDir(p: Path) returns (err: Option<Errno>)
      modifies this`faults
      ensures err == None ==> p in tree
      ensures old(faults) <= faults
      ensures faults == old(faults) ==> err == if p in tree then None else Some(MissReason(tree, p))
    {
      var bad := Fault();
      err := if bad then Some(IoFailure) else if p in tree then None else Some(MissReason(tree, p));
    }
  }
}
