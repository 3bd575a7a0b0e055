// copyDirectoryContents: the regular files and directories below one root are
// copied below another, entry by entry, over what is there.

module CopyDirectories {
  import opened FilePaths
  import opened FileTree

  // The content of the regular file at p.
  function FileAt(t: Tree, p: Path): Option<string> {
    if p in t && t[p].File? then Some(t[p].content) else None
  }

  // The same nodes hang at and below a in t as at and below b in t'.
  ghost predicate SameBelow(t: Tree, a: Path, t': Tree, b: Path) {
    forall k: Path :: (a + k in t <==> b + k in t') && (a + k in t ==> t[a + k] == t'[b + k])
  }

  predicate Apart(a: Path, b: Path) {
    !(a <= b) && !(b <= a)
  }

  lemma RebaseAppend(a: Path, b: Path, k: Path)
    ensures a <= a + k && Rebase(a + k, a, b) == b + k
  {
    assert (a + k)[|a|..] == k;
  }

  lemma ComparableAppend(a: Path, b: Path, k: Path)
    ensures a <= b + k ==> a <= b || b <= a
    ensures b + k <= a ==> b <= a
  {
    if a <= b + k {
      if |a| <= |b| { assert b[..|a|] == (b + k)[..|a|]; } else { assert a[..|b|] == (b + k)[..|b|]; }
    }
    if b + k <= a { assert a[..|b|] == (b + k)[..|b|]; }
  }

  lemma ApartAppend(a: Path, b: Path, k: Path)
    requires Apart(a, b)
    ensures Apart(a + k, b) && Apart(a, b + k)
  {
    ComparableAppend(a, b, k);
    ComparableAppend(b, a, k);
  }

  lemma ChildrenApart(root: Path, a: string, b: string)
    requires a != b
    ensures Apart(root + [a], root + [b])
  {
    assert (root + [a])[|root|] == a && (root + [b])[|root|] == b;
  }

  lemma MovedBelow(t: Tree, src: Path, dst: Path)
    requires forall q :: q in t && dst <= q ==> q == dst
    requires src in t && !(src <= dst)
    ensures SameBelow(t, src, Moved(t, src, dst), dst)
  {
    MovedNodes(t, src, dst);
    forall k: Path
      ensures src + k in t <==> dst + k in Moved(t, src, dst)
      ensures src + k in t ==> t[src + k] == Moved(t, src, dst)[dst + k]
    {
      RebaseAppend(src, dst, k);
      RebaseAppend(dst, src, k);
      if dst + k in t { assert k == [] ==> src + k == src; }
    }
  }

  lemma MovedApart(t: Tree, src: Path, dst: Path, a: Path)
    requires Apart(a, src) && Apart(a, dst)
    ensures SameBelow(t, a, Moved(t, src, dst), a)
  {
    MovedNodes(t, src, dst);
    forall k: Path
      ensures a + k in t <==> a + k in Moved(t, src, dst)
      ensures a + k in t ==> t[a + k] == Moved(t, src, dst)[a + k]
    {
      ApartAppend(a, src, k);
      ApartAppend(a, dst, k);
    }
  }

  lemma SameBelowTrans(t: Tree, a: Path, t': Tree, b: Path, t'': Tree, c: Path)
    requires SameBelow(t, a, t', b) && SameBelow(t', b, t'', c)
    ensures SameBelow(t, a, t'', c)
  {
    forall k: Path
      ensures a + k in t <==> c + k in t''
      ensures a + k in t ==> t[a + k] == t''[c + k]
    {
      assert a + k in t <==> b + k in t';
    }
  }

  // ---- copying a directory ----

  // Only nodes at or below d, and missing directories above it, have changed; no
  // directory is gone.
  ghost predicate OnlyTouched(t: Tree, t': Tree, d: Path) {
    && (forall q :: !(d <= q) ==>
          && (q in t ==> q in t' && t'[q] == t[q])
          && (q in t' && q !in t ==> q <= d && t'[q] == Dir))
    && (forall q :: q in t && t[q].Dir? ==> q in t' && t'[q].Dir?)
  }

  // What is copied to q: a regular file strictly below the source root.
  function Copied(t: Tree, s: Path, d: Path, q: Path): Option<string> {
    if Above(d, q) then FileAt(t, Rebase(q, d, s)) else None
  }

  // What the copy has put at q so far, over what was there.
  function Overlay(t: Tree, s: Path, d: Path, done: set<Path>, q: Path): Option<string> {
    if Above(d, q) && Rebase(q, d, s) in done && Copied(t, s, d, q).Some? then Copied(t, s, d, q) else FileAt(t, q)
  }

  // Nothing at the destination is in the way of its counterpart.
  ghost predicate Fits(t: Tree, s: Path, d: Path) {
    && (forall i :: 0 <= i <= |d| && d[..i] in t ==> t[d[..i]].Dir?)
    && (forall q :: Above(d, q) && q in t && Rebase(q, d, s) in t ==>
          (t[q].Dir? && t[Rebase(q, d, s)].Dir?) || (t[q].File? && t[Rebase(q, d, s)].File?))
  }

  lemma DirsAreNoFiles(t: Tree, t': Tree, p: Path)
    requires OnlyDirsAdded(t, t', p)
    ensures forall x :: FileAt(t', x) == FileAt(t, x)
  {
  }

  lemma CounterpartBelow(s: Path, d: Path, q: Path)
    requires Above(s, q)
    ensures Above(d, Rebase(q, s, d)) && Rebase(Rebase(q, s, d), d, s) == q
  {
    RebaseBack(q, s, d);
  }

  // The directories above the copy of q have directories as counterparts.
  lemma PrefixCounterpart(t: Tree, s: Path, d: Path, q: Path, x: Path)
    requires Closed(t) && q in t && Above(s, q) && Above(d, x) && x <= Parent(Rebase(q, s, d))
    ensures Rebase(x, d, s) in t && t[Rebase(x, d, s)].Dir?
  {
    var p := Rebase(q, s, d);
    CounterpartBelow(s, d, q);
    assert x == p[..|x|];
    assert Rebase(x, d, s) == q[..|s| + |x| - |d|];
    AncestorsAreDirs(t, Rebase(x, d, s), q);
  }

  lemma CopyWayIsClear(t: Tree, s: Path, d: Path, q: Path)
    requires Closed(t) && Fits(t, s, d) && q in t && Above(s, q)
    ensures Rebase(q, s, d) != [] && WayIsClear(t, Parent(Rebase(q, s, d)))
    ensures t[q].Dir? ==> WayIsClear(t, Rebase(q, s, d))
  {
    var p := Rebase(q, s, d);
    var up := Parent(p);
    CounterpartBelow(s, d, q);
    forall i | 0 <= i <= |up| && up[..i] in t ensures t[up[..i]].Dir? {
      if i <= |d| { assert up[..i] == d[..i]; } else { PrefixCounterpart(t, s, d, q, up[..i]); }
    }
    forall i | t[q].Dir? && 0 <= i <= |p| && p[..i] in t ensures t[p[..i]].Dir? {
      if i < |p| { assert p[..i] == up[..i]; } else { assert p[..i] == p; }
    }
  }

  lemma CopyKeepsFits(t: Tree, t': Tree, s: Path, d: Path, q: Path)
    requires Closed(t) && Apart(s, d) && q in t && Above(s, q) && Fits(t, s, d)
    requires OnlyDirsAdded(t, t', if t[q].Dir? then Rebase(q, s, d) else Parent(Rebase(q, s, d)))
    ensures Fits(t', s, d)
  {
    CounterpartBelow(s, d, q);
    forall i | 0 <= i <= |d| && d[..i] in t' ensures t'[d[..i]].Dir? {
    }
    forall x | Above(d, x) && x in t' && Rebase(x, d, s) in t'
      ensures (t'[x].Dir? && t'[Rebase(x, d, s)].Dir?) || (t'[x].File? && t'[Rebase(x, d, s)].File?)
    {
      if x !in t && x != Rebase(q, s, d) { PrefixCounterpart(t, s, d, q, x); }
      SourceApart(s, d, Rebase(x, d, s), x);
      assert Rebase(x, d, s) in t by { SourceApart(s, d, Rebase(x, d, s), Rebase(q, s, d)); }
    }
  }

  lemma SourceApart(s: Path, d: Path, x: Path, y: Path)
    requires Apart(s, d) && s <= x && d <= y
    ensures x != y && !(d <= x) && !(s <= y)
  {
    assert x == s + x[|s|..] && y == d + y[|d|..];
    ApartAppend(d, s, x[|s|..]);
    ApartAppend(s, d, y[|d|..]);
  }

  lemma WriteKeepsFits(t: Tree, t': Tree, s: Path, d: Path, q: Path)
    requires Apart(s, d) && q in t && Above(s, q) && t[q].File? && Fits(t, s, d)
    requires var p := Rebase(q, s, d);
      && (forall x :: x != p ==> (x in t' <==> x in t) && (x in t' ==> t'[x] == t[x]))
      && (p in t' ==> t'[p].File?)
    ensures Fits(t', s, d)
  {
    var p := Rebase(q, s, d);
    CounterpartBelow(s, d, q);
    forall i | 0 <= i <= |d| && d[..i] in t' ensures t'[d[..i]].Dir? {
    }
    forall x | Above(d, x) && x in t' && Rebase(x, d, s) in t'
      ensures (t'[x].Dir? && t'[Rebase(x, d, s)].Dir?) || (t'[x].File? && t'[Rebase(x, d, s)].File?)
    {
      SourceApart(s, d, Rebase(x, d, s), p);
    }
  }

  ghost predicate EntryCopied(t: Tree, t': Tree, s: Path, d: Path, q: Path)
    requires s <= q
  {
    forall x :: FileAt(t', x) == if x == Rebase(q, s, d) && FileAt(t, q).Some? then FileAt(t, q) else FileAt(t, x)
  }

  // Every new node below the destination has a counterpart.
  ghost predicate Counterparts(t: Tree, t': Tree, s: Path, d: Path) {
    forall x :: x in t' && x !in t && Above(d, x) ==> Rebase(x, d, s) in t
  }

  lemma NewDirsHaveCounterparts(t: Tree, t': Tree, s: Path, d: Path, q: Path)
    requires Closed(t) && q in t && Above(s, q)
    requires OnlyDirsAdded(t, t', if t[q].Dir? then Rebase(q, s, d) else Parent(Rebase(q, s, d)))
    ensures Counterparts(t, t', s, d)
  {
    CounterpartBelow(s, d, q);
    forall x | x in t' && x !in t && Above(d, x) ensures Rebase(x, d, s) in t {
      if x != Rebase(q, s, d) { PrefixCounterpart(t, s, d, q, x); }
    }
  }

  // Every directory below the source has its counterpart, empty ones too.
  ghost predicate DirsCopied(t: Tree, t': Tree, s: Path, d: Path) {
    forall q :: q in t && Above(s, q) && t[q].Dir? ==> Rebase(q, s, d) in t' && t'[Rebase(q, s, d)].Dir?
  }

  ghost predicate DirsSoFar(t: Tree, t': Tree, s: Path, d: Path, done: set<Path>) {
    forall q :: q in done && q in t && s <= q && t[q].Dir? ==> Rebase(q, s, d) in t' && t'[Rebase(q, s, d)].Dir?
  }

  // One step of the walk: a directory is made, a regular file is copied.
  method CopyEntry(disk: Disk, s: Path, d: Path, q: Path) returns (err: Option<Errno>)
    requires Closed(disk.tree) && Apart(s, d) && Above(s, q) && q in disk.tree && !disk.tree[q].Symlink?
    modifies disk
    ensures Closed(disk.tree) && OnlyTouched(old(disk.tree), disk.tree, d)
    ensures Counterparts(old(disk.tree), disk.tree, s, d)
    ensures err == None ==> EntryCopied(old(disk.tree), disk.tree, s, d, q)
    ensures err == None ==> DirsSoFar(old(disk.tree), disk.tree, s, d, {q})
    ensures old(disk.faults) <= disk.faults
    ensures disk.faults == old(disk.faults) && old(Fits(disk.tree, s, d)) ==> err == None && Fits(disk.tree, s, d)
  {
    var p := Rebase(q, s, d);
    CounterpartBelow(s, d, q);
    ghost var t := disk.tree;
    if Fits(t, s, d) { CopyWayIsClear(t, s, d, q); }
    if disk.tree[q].Dir? {
      err := disk.MkdirAll(p);
      DirsAreNoFiles(t, disk.tree, p);
      NewDirsHaveCounterparts(t, disk.tree, s, d, q);
      if Fits(t, s, d) { CopyKeepsFits(t, disk.tree, s, d, q); }
      return;
    }
    err := disk.MkdirAll(Parent(p));
    DirsAreNoFiles(t, disk.tree, Parent(p));
    NewDirsHaveCounterparts(t, disk.tree, s, d, q);
    if err != None { return; }
    if Fits(t, s, d) { CopyKeepsFits(t, disk.tree, s, d, q); }
    ghost var mid := disk.tree;
    SourceApart(s, d, q, p);
    err := disk.WriteInPlace(p, disk.tree[q].content, disk.tree[q].mode);
    if Fits(mid, s, d) { WriteKeepsFits(mid, disk.tree, s, d, q); }
  }

  lemma BelowApart(s: Path, d: Path, x: Path)
    requires Apart(s, d) && s <= x
    ensures !(d <= x) && !(x <= d)
  {
    assert x == s + x[|s|..];
    ApartAppend(s, d, x[|s|..]);
  }

  lemma TouchedTwice(t: Tree, t': Tree, t'': Tree, d: Path, e: Path)
    requires OnlyTouched(t, t', d) && OnlyTouched(t', t'', e) && d <= e
    ensures OnlyTouched(t, t'', d)
  {
    forall q | !(d <= q)
      ensures q in t ==> q in t'' && t''[q] == t[q]
      ensures q in t'' && q !in t ==> q <= d && t''[q] == Dir
    {
      if q <= e { assert q == e[..|q|] && d == e[..|d|]; }
    }
  }

  // What is apart from the destination stays.
  lemma TouchedApart(t: Tree, t': Tree, s: Path, d: Path, x: Path)
    requires OnlyTouched(t, t', d) && Apart(s, d) && s <= x
    ensures (x in t' <==> x in t) && (x in t ==> t'[x] == t[x])
  {
    BelowApart(s, d, x);
  }

  ghost predicate CopiedSoFar(t: Tree, t': Tree, s: Path, d: Path, done: set<Path>) {
    forall x :: FileAt(t', x) == Overlay(t, s, d, done, x)
  }

  lemma CopyOneMore(t: Tree, t': Tree, t'': Tree, s: Path, d: Path, done: set<Path>, q: Path)
    requires CopiedSoFar(t, t', s, d, done) && Above(s, q) && EntryCopied(t', t'', s, d, q)
    requires FileAt(t', q) == FileAt(t, q)
    ensures CopiedSoFar(t, t'', s, d, done + {q})
  {
    CounterpartBelow(s, d, q);
    forall x ensures FileAt(t'', x) == Overlay(t, s, d, done + {q}, x) {
      if Above(d, x) && Rebase(x, d, s) == q { RebaseBack(x, d, s); }
    }
  }

  lemma CounterpartsTwice(t: Tree, t': Tree, t'': Tree, s: Path, d: Path)
    requires Apart(s, d) && OnlyTouched(t, t', d)
    requires Counterparts(t, t', s, d) && Counterparts(t', t'', s, d)
    ensures Counterparts(t, t'', s, d)
  {
    forall x | x in t'' && x !in t && Above(d, x) ensures Rebase(x, d, s) in t {
      RebaseBack(x, d, s);
      TouchedApart(t, t', s, d, Rebase(x, d, s));
    }
  }

  // How far a copy has come.
  ghost predicate Underway(t: Tree, t': Tree, s: Path, d: Path, done: set<Path>) {
    && OnlyTouched(t, t', d) && Counterparts(t, t', s, d)
    && CopiedSoFar(t, t', s, d, done) && DirsSoFar(t, t', s, d, done)
  }

  lemma CopyTurn(t: Tree, t': Tree, t'': Tree, s: Path, d: Path, done: set<Path>, q: Path)
    requires Apart(s, d) && Above(s, q) && q in t && q in t' && t'[q] == t[q] && Underway(t, t', s, d, done)
    requires OnlyTouched(t', t'', d) && Counterparts(t', t'', s, d)
    ensures OnlyTouched(t, t'', d) && Counterparts(t, t'', s, d)
    ensures EntryCopied(t', t'', s, d, q) && DirsSoFar(t', t'', s, d, {q}) ==> Underway(t, t'', s, d, done + {q})
  {
    TouchedTwice(t, t', t'', d, d);
    CounterpartsTwice(t, t', t'', s, d);
    if EntryCopied(t', t'', s, d, q) { CopyOneMore(t, t', t'', s, d, done, q); }
  }

  // One turn of the walk; `t` is the tree before it, `done` what it has copied.
  method CopyNext(disk: Disk, s: Path, d: Path, q: Path, ghost t: Tree, ghost done: set<Path>) returns (err: Option<Errno>)
    requires Closed(disk.tree) && Apart(s, d) && Above(s, q) && q in t && !t[q].Symlink?
    requires Underway(t, disk.tree, s, d, done)
    modifies disk
    ensures Closed(disk.tree) && OnlyTouched(t, disk.tree, d) && Counterparts(t, disk.tree, s, d)
    ensures err == None ==> Underway(t, disk.tree, s, d, done + {q})
    ensures old(disk.faults) <= disk.faults
    ensures disk.faults == old(disk.faults) && old(Fits(disk.tree, s, d)) ==> err == None && Fits(disk.tree, s, d)
  {
    ghost var t' := disk.tree;
    TouchedApart(t, t', s, d, q);
    err := CopyEntry(disk, s, d, q);
    CopyTurn(t, t', disk.tree, s, d, done, q);
  }

  // copyDirectoryContents, in whatever order the directories list their entries.
  method CopyDirectory(disk: Disk, s: Path, d: Path) returns (err: Option<Errno>)
    requires Closed(disk.tree) && Apart(s, d)
    modifies disk
    ensures Closed(disk.tree) && OnlyTouched(old(disk.tree), disk.tree, d)
    ensures Counterparts(old(disk.tree), disk.tree, s, d)
    ensures err == None ==> s in old(disk.tree)
    ensures err == None ==> forall x :: FileAt(disk.tree, x) == Overlaid(old(disk.tree), s, d, x)
    ensures err == None ==> DirsCopied(old(disk.tree), disk.tree, s, d)
    ensures old(disk.faults) <= disk.faults
    ensures disk.faults == old(disk.faults) && s in old(disk.tree) && old(Fits(disk.tree, s, d)) ==> err == None
  {
    ghost var t := disk.tree;
    var e, _ := disk.Lstat(s);
    if e != None { return e; }
    var todo := set q | q in disk.tree && Above(s, q) && !disk.tree[q].Symlink?;
    ghost var all, done: set<Path> := todo, {};
    while todo != {}
      invariant Closed(disk.tree) && Underway(t, disk.tree, s, d, done)
      invariant all == done + todo && forall q :: q in todo ==> q in t && Above(s, q) && !t[q].Symlink?
      invariant old(disk.faults) <= disk.faults
      invariant disk.faults == old(disk.faults) && Fits(t, s, d) ==> Fits(disk.tree, s, d)
      decreases todo
    {
      var q :| q in todo;
      err := CopyNext(disk, s, d, q, t, done);
      if err != None { return; }
      todo, done := todo - {q}, done + {q};
    }
    AllCopied(t, disk.tree, s, d, all);
    AllDirsCopied(t, disk.tree, s, d, all);
    err := None;
  }

  // What a finished copy leaves at x.
  function Overlaid(t: Tree, s: Path, d: Path, x: Path): Option<string> {
    if Copied(t, s, d, x).Some? then Copied(t, s, d, x) else FileAt(t, x)
  }

  lemma AllDirsCopied(t: Tree, t': Tree, s: Path, d: Path, all: set<Path>)
    requires DirsSoFar(t, t', s, d, all) && forall q :: q in t && Above(s, q) && t[q].Dir? ==> q in all
    ensures DirsCopied(t, t', s, d)
  {
  }

  lemma AllCopied(t: Tree, t': Tree, s: Path, d: Path, all: set<Path>)
    requires CopiedSoFar(t, t', s, d, all)
    requires forall q :: q in t && Above(s, q) && t[q].File? ==> q in all
    ensures forall x :: FileAt(t', x) == Overlaid(t, s, d, x)
  {
    forall x ensures FileAt(t', x) == Overlaid(t, s, d, x) {
      if Copied(t, s, d, x).Some? { RebaseBack(x, d, s); assert Above(s, Rebase(x, d, s)); }
    }
  }
}
