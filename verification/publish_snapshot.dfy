// publishSnapshot: copy the site beside the published tree, then swap the two by
// renames.  Whatever step fails, visitors see one whole copy.

module PublishSnapshot {
  import opened FilePaths
  import opened FileTree
  import opened CopyDirectories

  // ---- where things are ----

  function PublishedRoot(archive: Path): Path { archive + ["published"] }

  function StaleRoot(archive: Path): Path { archive + ["published.old"] }

  // os.MkdirTemp with pattern ".published-*"
  function TempRoot(archive: Path, suffix: string): Path { archive + [".published-" + suffix] }

  function DomainsRoot(archive: Path): Path { archive + ["domains"] }

  function MediaPrefix(host: string): Path { [".sitebrush-media", "domains", host, "media"] }

  lemma RootsApart(archive: Path, suffix: string)
    ensures Apart(PublishedRoot(archive), StaleRoot(archive))
    ensures Apart(PublishedRoot(archive), TempRoot(archive, suffix))
    ensures Apart(StaleRoot(archive), TempRoot(archive, suffix))
    ensures Apart(DomainsRoot(archive), TempRoot(archive, suffix))
  {
    assert |"published"| == 9 && |"published.old"| == 13;
    assert "published"[0] == 'p' && "published.old"[0] == 'p' && "domains"[0] == 'd';
    assert (".published-" + suffix)[0] == '.';
    ChildrenApart(archive, "published", "published.old");
    ChildrenApart(archive, "published", ".published-" + suffix);
    ChildrenApart(archive, "published.old", ".published-" + suffix);
    ChildrenApart(archive, "domains", ".published-" + suffix);
  }

  // ---- what a snapshot holds ----

  predicate IsMedia(k: Path) {
    |k| > 4 && k[0] == ".sitebrush-media" && k[1] == "domains" && k[3] == "media"
  }

  // The media of a host, else the page of that name: what is published at k.
  function SnapshotAt(t: Tree, web: Path, archive: Path, k: Path): Option<string> {
    if IsMedia(k) && FileAt(t, archive + k[1..]).Some? then FileAt(t, archive + k[1..])
    else if k != [] then FileAt(t, web + k) else None
  }

  // ---- the media of every host ----

  ghost predicate MediaCopied(t: Tree, t': Tree, archive: Path, temp: Path, done: set<string>) {
    forall k :: FileAt(t', temp + k) == MediaOver(t, archive, temp, done, k)
  }

  function MediaOver(t: Tree, archive: Path, temp: Path, done: set<string>, k: Path): Option<string> {
    if IsMedia(k) && k[2] in done && FileAt(t, archive + k[1..]).Some? then FileAt(t, archive + k[1..])
    else FileAt(t, temp + k)
  }

  lemma MediaPaths(archive: Path, temp: Path, host: string, k: Path)
    ensures var s, d := DomainsRoot(archive) + [host, "media"], temp + MediaPrefix(host);
      (Above(d, temp + k) <==> IsMedia(k) && k[2] == host)
      && (Above(d, temp + k) ==> Rebase(temp + k, d, s) == archive + k[1..])
  {
    var s, d := DomainsRoot(archive) + [host, "media"], temp + MediaPrefix(host);
    if d <= temp + k {
      assert d[|temp|..] == MediaPrefix(host) && (temp + k)[|temp|..] == k;
      assert MediaPrefix(host) == k[..4];
    }
    if IsMedia(k) && k[2] == host {
      assert k[..4] == MediaPrefix(host);
      assert (temp + k)[..|d|] == d;
      assert k[1..] == ["domains", host, "media"] + k[4..];
      assert (temp + k)[|d|..] == k[4..];
      assert s + k[4..] == archive + k[1..];
    }
  }

  lemma MediaOneMore(t: Tree, t': Tree, t'': Tree, archive: Path, temp: Path, done: set<string>, host: string)
    requires Apart(DomainsRoot(archive), temp) && OnlyTouched(t, t', temp)
    requires MediaCopied(t, t', archive, temp, done)
    requires forall x :: FileAt(t'', x) == Overlaid(t', DomainsRoot(archive) + [host, "media"], temp + MediaPrefix(host), x)
    ensures MediaCopied(t, t'', archive, temp, done + {host})
  {
    forall k ensures FileAt(t'', temp + k) == MediaOver(t, archive, temp, done + {host}, k) {
      assert FileAt(t', temp + k) == MediaOver(t, archive, temp, done, k);
      MediaAt(t, t', archive, temp, host, k);
    }
  }

  lemma MediaAt(t: Tree, t': Tree, archive: Path, temp: Path, host: string, k: Path)
    requires Apart(DomainsRoot(archive), temp) && OnlyTouched(t, t', temp)
    ensures Copied(t', DomainsRoot(archive) + [host, "media"], temp + MediaPrefix(host), temp + k)
         == if IsMedia(k) && k[2] == host then FileAt(t, archive + k[1..]) else None
  {
    MediaPaths(archive, temp, host, k);
    if IsMedia(k) {
      assert archive + k[1..] == DomainsRoot(archive) + k[2..];
      TouchedApart(t, t', DomainsRoot(archive), temp, archive + k[1..]);
    }
  }

  // The media of hosts that are not done has no place yet.
  ghost predicate MediaRoom(t: Tree, temp: Path, done: set<string>) {
    && WayIsClear(t, temp)
    && forall k {:trigger temp + k} :: temp + k in t && k != [] && k[0] == ".sitebrush-media" ==>
        && (|k| >= 2 ==> k[1] == "domains")
        && (|k| >= 3 ==> k[2] in done)
        && (|k| <= 2 ==> t[temp + k].Dir?)
  }

  lemma RoomFits(t: Tree, s: Path, temp: Path, done: set<string>, host: string)
    requires Closed(t) && MediaRoom(t, temp, done) && host !in done
    ensures Fits(t, s, temp + MediaPrefix(host))
  {
    var d := temp + MediaPrefix(host);
    forall i | 0 <= i <= |d| && d[..i] in t ensures t[d[..i]].Dir? {
      if i <= |temp| { assert d[..i] == temp[..i]; }
      else { assert d[..i] == temp + MediaPrefix(host)[..i - |temp|]; }
    }
    forall q ensures !(Above(d, q) && q in t) {
      if d <= q { assert q == temp + (MediaPrefix(host) + q[|d|..]); }
    }
  }

  lemma RoomAfter(t: Tree, t': Tree, temp: Path, done: set<string>, host: string)
    requires MediaRoom(t, temp, done) && OnlyTouched(t, t', temp + MediaPrefix(host))
    ensures MediaRoom(t', temp, done + {host})
  {
    var d := temp + MediaPrefix(host);
    forall i | 0 <= i <= |temp| && temp[..i] in t' ensures t'[temp[..i]].Dir? {
    }
    forall k {:trigger temp + k} | temp + k in t' && k != [] && k[0] == ".sitebrush-media"
      ensures (|k| >= 2 ==> k[1] == "domains") && (|k| >= 3 ==> k[2] in done + {host})
      ensures |k| <= 2 ==> t'[temp + k].Dir?
    {
      if d <= temp + k {
        assert MediaPrefix(host) == d[|temp|..] == (temp + k)[..|d|][|temp|..] == k[..4];
      } else if temp + k !in t {
        assert k == (temp + k)[|temp|..] == d[..|temp| + |k|][|temp|..] == MediaPrefix(host)[..|k|];
      }
    }
  }

  ghost function AllHosts(t: Tree, archive: Path): set<string> {
    set q | q in t && |q| == |archive| + 2 && DomainsRoot(archive) <= q && t[q].Dir? :: q[|archive| + 1]
  }

  lemma MediaHasHost(t: Tree, archive: Path, k: Path)
    requires Closed(t) && IsMedia(k) && archive + k[1..] in t
    ensures k[2] in AllHosts(t, archive) && archive + ["domains", k[2], "media"] in t
  {
    var p := archive + k[1..];
    var q, m := archive + ["domains", k[2]], archive + ["domains", k[2], "media"];
    assert k[1..][..2] == ["domains", k[2]] && k[1..][..3] == ["domains", k[2], "media"];
    assert p[..|q|] == q && p[..|m|] == m;
    AncestorsAreDirs(t, q, p);
    AncestorsAreDirs(t, m, p);
    assert q == DomainsRoot(archive) + [k[2]];
  }

  lemma HostWithoutMedia(t: Tree, t': Tree, archive: Path, temp: Path, done: set<string>, host: string)
    requires Closed(t) && MediaCopied(t, t', archive, temp, done)
    requires DomainsRoot(archive) + [host, "media"] !in t
    ensures MediaCopied(t, t', archive, temp, done + {host})
  {
    assert DomainsRoot(archive) + [host, "media"] == archive + ["domains", host, "media"];
    forall k ensures FileAt(t', temp + k) == MediaOver(t, archive, temp, done + {host}, k) {
      if IsMedia(k) && archive + k[1..] in t { MediaHasHost(t, archive, k); }
    }
  }

  ghost predicate AllMediaCopied(t: Tree, t': Tree, archive: Path, temp: Path) {
    forall k :: FileAt(t', temp + k) ==
      if IsMedia(k) && FileAt(t, archive + k[1..]).Some? then FileAt(t, archive + k[1..]) else FileAt(t, temp + k)
  }

  lemma NoHostLeft(t: Tree, t': Tree, archive: Path, temp: Path, done: set<string>)
    requires Closed(t) && MediaCopied(t, t', archive, temp, done) && AllHosts(t, archive) <= done
    ensures AllMediaCopied(t, t', archive, temp)
  {
    forall k
      ensures FileAt(t', temp + k) ==
        if IsMedia(k) && FileAt(t, archive + k[1..]).Some? then FileAt(t, archive + k[1..]) else FileAt(t, temp + k)
    {
      if IsMedia(k) && archive + k[1..] in t { MediaHasHost(t, archive, k); }
    }
  }

  lemma NoHosts(t: Tree, archive: Path)
    requires Closed(t)
    ensures DomainsRoot(archive) !in t ==> AllHosts(t, archive) == {}
  {
    forall q | q in t && Above(DomainsRoot(archive), q) ensures DomainsRoot(archive) in t {
      AncestorsAreDirs(t, DomainsRoot(archive), q);
    }
  }

  // One turn of the loop in copyPublishedMediaSnapshots; `t` is the tree before it,
  // and `done` are the hosts of the earlier turns.
  method CopyHostMedia(disk: Disk, archive: Path, temp: Path, host: string, ghost t: Tree, ghost done: set<string>)
    returns (err: Option<Errno>)
    requires Closed(disk.tree) && Closed(t) && Apart(DomainsRoot(archive), temp) && host !in done
    requires OnlyTouched(t, disk.tree, temp) && MediaCopied(t, disk.tree, archive, temp, done)
    requires DomainsRoot(archive) + [host] in t && t[DomainsRoot(archive) + [host]].Dir?
    modifies disk
    ensures Closed(disk.tree) && OnlyTouched(t, disk.tree, temp)
    ensures err == None ==> MediaCopied(t, disk.tree, archive, temp, done + {host})
    ensures old(disk.faults) <= disk.faults
    ensures disk.faults == old(disk.faults) && old(MediaRoom(disk.tree, temp, done))
      ==> err == None && MediaRoom(disk.tree, temp, done + {host})
  {
    ghost var t' := disk.tree;
    var source, target := DomainsRoot(archive) + [host, "media"], temp + MediaPrefix(host);
    TouchedApart(t, t', DomainsRoot(archive), temp, source);
    TouchedApart(t, t', DomainsRoot(archive), temp, DomainsRoot(archive) + [host]);
    assert Parent(source) == DomainsRoot(archive) + [host];
    var e, _ := disk.Lstat(source);
    if e == Some(NotExist) {
      HostWithoutMedia(t, t', archive, temp, done, host);
      return None;
    }
    if e != None { return e; }
    ApartAppend(DomainsRoot(archive), temp, [host, "media"]);
    ApartAppend(temp, source, MediaPrefix(host));
    if MediaRoom(t', temp, done) { RoomFits(t', source, temp, done, host); }
    err := CopyDirectory(disk, source, target);
    TouchedTwice(t, t', disk.tree, temp, target);
    if err == None { MediaOneMore(t, t', disk.tree, archive, temp, done, host); }
    if MediaRoom(t', temp, done) { RoomAfter(t', disk.tree, temp, done, host); }
  }

  // copyPublishedMediaSnapshots
  method CopyMedia(disk: Disk, archive: Path, temp: Path) returns (err: Option<Errno>)
    requires Closed(disk.tree) && Apart(DomainsRoot(archive), temp)
    modifies disk
    ensures Closed(disk.tree) && OnlyTouched(old(disk.tree), disk.tree, temp)
    ensures err == None ==> AllMediaCopied(old(disk.tree), disk.tree, archive, temp)
    ensures old(disk.faults) <= disk.faults
    ensures (disk.faults == old(disk.faults) && old(MediaRoom(disk.tree, temp, {})) && archive in old(disk.tree)
             && old(disk.tree)[archive].Dir? && old(NoFileAt(disk.tree, DomainsRoot(archive))))
      ==> err == None
  {
    ghost var t := disk.tree;
    assert Parent(DomainsRoot(archive)) == archive;
    var e, node := disk.Lstat(DomainsRoot(archive));
    if e == Some(NotExist) {
      NoHosts(t, archive);
      NoHostLeft(t, t, archive, temp, {});
      return None;
    }
    if e != None || !node.Dir? { return Some(IoFailure); }
    var hosts := set q | q in disk.tree && |q| == |archive| + 2 && DomainsRoot(archive) <= q && disk.tree[q].Dir? ::
      q[|archive| + 1];
    ghost var done: set<string> := {};
    while hosts != {}
      invariant Closed(disk.tree) && OnlyTouched(t, disk.tree, temp)
      invariant MediaCopied(t, disk.tree, archive, temp, done)
      invariant hosts !! done && hosts + done == AllHosts(t, archive)
      invariant old(disk.faults) <= disk.faults
      invariant disk.faults == old(disk.faults) && MediaRoom(t, temp, {}) ==> MediaRoom(disk.tree, temp, done)
      decreases hosts
    {
      var host :| host in hosts;
      HostHasDirectory(t, archive, host);
      err := CopyHostMedia(disk, archive, temp, host, t, done);
      if err != None { return; }
      hosts, done := hosts - {host}, done + {host};
    }
    NoHostLeft(t, disk.tree, archive, temp, done);
    err := None;
  }

  lemma HostHasDirectory(t: Tree, archive: Path, host: string)
    requires host in AllHosts(t, archive)
    ensures DomainsRoot(archive) + [host] in t && t[DomainsRoot(archive) + [host]].Dir?
  {
    var q :| q in t && |q| == |archive| + 2 && DomainsRoot(archive) <= q && t[q].Dir? && q[|archive| + 1] == host;
    assert q == DomainsRoot(archive) + [host];
  }

  ghost predicate NoFileAt(t: Tree, p: Path) {
    p in t ==> t[p].Dir?
  }

  // ---- the copy beside the published tree ----

  ghost predicate SnapshotTaken(t: Tree, t': Tree, web: Path, archive: Path, root: Path) {
    forall k :: FileAt(t', root + k) == SnapshotAt(t, web, archive, k)
  }

  // The directories of the pages, empty ones too.
  ghost predicate DirsTaken(t: Tree, t': Tree, web: Path, root: Path) {
    forall k: Path :: k != [] && web + k in t && t[web + k].Dir? ==> root + k in t' && t'[root + k].Dir?
  }

  ghost predicate DirsKept(t: Tree, t': Tree) {
    forall x :: x in t && t[x].Dir? ==> x in t' && t'[x].Dir?
  }

  lemma WebDirsTaken(t: Tree, t1: Tree, t2: Tree, t3: Tree, web: Path, temp: Path)
    requires DirsKept(t, t1) && DirsCopied(t1, t2, web, temp) && DirsKept(t2, t3)
    ensures DirsTaken(t, t3, web, temp)
  {
    forall k: Path | k != [] && web + k in t && t[web + k].Dir? ensures temp + k in t3 && t3[temp + k].Dir? {
      RebaseAppend(web, temp, k);
      assert Above(web, web + k);
    }
  }

  lemma DirsFollow(t: Tree, t1: Tree, t2: Tree, web: Path, temp: Path, root: Path)
    requires DirsTaken(t, t1, web, temp) && SameBelow(t1, temp, t2, root)
    ensures DirsTaken(t, t2, web, root)
  {
  }

  // What it takes for the copy to succeed when nothing breaks.
  ghost predicate CanPrepare(t: Tree, web: Path, archive: Path) {
    web in t && WayIsClear(t, archive) && NoFileAt(t, DomainsRoot(archive)) && web + [".sitebrush-media"] !in t
  }

  // And for the publish.
  ghost predicate Publishable(t: Tree, web: Path, archive: Path) {
    CanPrepare(t, web, archive) && !(web <= PublishedRoot(archive))
  }

  // The empty temporary directory.
  lemma FreshTemp(t: Tree, t': Tree, archive: Path, temp: Path)
    requires Closed(t) && Closed(t') && temp !in t && temp != [] && Parent(temp) == archive
    requires OnlyDirsAdded(t, t', archive) && archive in t' && t'[archive].Dir?
    ensures Closed(t'[temp := Dir]) && OnlyTouched(t, t'[temp := Dir], temp)
    ensures forall x :: FileAt(t'[temp := Dir], x) == FileAt(t, x)
    ensures forall k: Path :: temp + k in t'[temp := Dir] ==> k == []
    ensures WayIsClear(t', archive) ==> WayIsClear(t'[temp := Dir], temp)
  {
    assert temp !in t';
    forall q | q in t' ensures !(temp <= q) {
      if Above(temp, q) { AncestorsAreDirs(t', temp, q); }
    }
    forall i | WayIsClear(t', archive) && 0 <= i <= |temp| && temp[..i] in t'[temp := Dir]
      ensures t'[temp := Dir][temp[..i]].Dir?
    {
      if i < |temp| { assert temp[..i] == archive[..i]; } else { assert temp[..i] == temp; }
    }
  }

  lemma EmptyFits(t: Tree, s: Path, d: Path)
    requires WayIsClear(t, d) && forall k: Path :: d + k in t ==> k == []
    ensures Fits(t, s, d)
  {
    forall q ensures !(Above(d, q) && q in t) {
      if d <= q { assert q == d + q[|d|..]; }
    }
  }

  // The web copy leaves the place of the media free.
  lemma WebLeavesRoom(t: Tree, t': Tree, web: Path, temp: Path)
    requires Closed(t) && WayIsClear(t, temp) && web + [".sitebrush-media"] !in t
    requires OnlyTouched(t, t', temp) && Counterparts(t, t', web, temp)
    requires forall k: Path :: temp + k in t ==> k == []
    requires temp in t && t[temp].Dir?
    ensures MediaRoom(t', temp, {})
  {
    forall i | 0 <= i <= |temp| && temp[..i] in t' ensures t'[temp[..i]].Dir? {
      if i == |temp| { assert temp[..i] == temp; }
    }
    forall k: Path | k != [] && k[0] == ".sitebrush-media" ensures temp + k !in t' {
      RebaseAppend(temp, web, k);
      assert temp + k !in t && Above(temp, temp + k);
      if |k| == 1 {
        assert k == [".sitebrush-media"];
      } else {
        assert (web + k)[..|web| + 1] == web + [".sitebrush-media"];
        if web + k in t { AncestorsAreDirs(t, web + [".sitebrush-media"], web + k); }
      }
    }
  }

  lemma WebTaken(t: Tree, t1: Tree, t2: Tree, web: Path, temp: Path)
    requires forall x :: FileAt(t1, x) == FileAt(t, x)
    requires forall k: Path :: temp + k in t1 ==> k == []
    requires temp in t1 && t1[temp].Dir?
    requires forall x :: FileAt(t2, x) == Overlaid(t1, web, temp, x)
    ensures forall k :: FileAt(t2, temp + k) == if k != [] then FileAt(t, web + k) else None
  {
    forall k ensures FileAt(t2, temp + k) == if k != [] then FileAt(t, web + k) else None {
      RebaseAppend(temp, web, k);
      assert temp + [] == temp;
    }
  }

  lemma MediaTaken(t: Tree, t1: Tree, t2: Tree, t3: Tree, web: Path, archive: Path, temp: Path)
    requires Apart(DomainsRoot(archive), temp) && OnlyTouched(t1, t2, temp)
    requires forall x :: FileAt(t1, x) == FileAt(t, x)
    requires forall k :: FileAt(t2, temp + k) == if k != [] then FileAt(t, web + k) else None
    requires AllMediaCopied(t2, t3, archive, temp)
    ensures SnapshotTaken(t, t3, web, archive, temp)
  {
    forall k ensures FileAt(t3, temp + k) == SnapshotAt(t, web, archive, k) {
      if IsMedia(k) {
        assert archive + k[1..] == DomainsRoot(archive) + k[2..];
        TouchedApart(t1, t2, DomainsRoot(archive), temp, archive + k[1..]);
        assert FileAt(t1, archive + k[1..]) == FileAt(t, archive + k[1..]);
      }
    }
  }

  // os.MkdirTemp below the archive root, which is created if missing.  The name is
  // free when it is picked.
  method MakeTemp(disk: Disk, archive: Path, temp: Path) returns (err: Option<Errno>)
    requires Closed(disk.tree) && temp !in disk.tree && temp != [] && Parent(temp) == archive
    modifies disk
    ensures Closed(disk.tree) && OnlyTouched(old(disk.tree), disk.tree, temp)
    ensures forall x :: FileAt(disk.tree, x) == FileAt(old(disk.tree), x)
    ensures err == None ==> temp in disk.tree && disk.tree[temp].Dir? && WayIsClear(disk.tree, temp)
    ensures err == None ==> forall k: Path :: temp + k in disk.tree ==> k == []
    ensures forall x :: x in disk.tree && x !in old(disk.tree) ==> x <= temp
    ensures old(disk.faults) <= disk.faults
    ensures disk.faults == old(disk.faults) && old(WayIsClear(disk.tree, archive)) ==> err == None
  {
    ghost var t := disk.tree;
    err := disk.MkdirAll(archive);
    DirsAreNoFiles(t, disk.tree, archive);
    assert archive <= temp;
    if err != None { return; }
    var bad := disk.Fault();
    if bad { return Some(IoFailure); }
    AboveAreClear(disk.tree, archive);
    FreshTemp(t, disk.tree, archive, temp);
    disk.tree := disk.tree[temp := Dir];
  }

  // Both copies into the empty temporary directory.
  method CopySite(disk: Disk, web: Path, archive: Path, temp: Path, ghost t: Tree) returns (err: Option<Errno>)
    requires Closed(disk.tree) && Apart(web, temp) && Apart(DomainsRoot(archive), temp)
    requires temp in disk.tree && disk.tree[temp].Dir? && WayIsClear(disk.tree, temp)
    requires forall k: Path :: temp + k in disk.tree ==> k == []
    requires (forall x :: FileAt(disk.tree, x) == FileAt(t, x)) && DirsKept(t, disk.tree)
    modifies disk
    ensures Closed(disk.tree) && OnlyTouched(old(disk.tree), disk.tree, temp)
    ensures err == None ==> SnapshotTaken(t, disk.tree, web, archive, temp) && DirsTaken(t, disk.tree, web, temp)
    ensures old(disk.faults) <= disk.faults
    ensures (disk.faults == old(disk.faults) && web in old(disk.tree) && web + [".sitebrush-media"] !in old(disk.tree)
             && archive in old(disk.tree) && old(disk.tree)[archive].Dir? && old(NoFileAt(disk.tree, DomainsRoot(archive))))
      ==> err == None
  {
    ghost var t1 := disk.tree;
    EmptyFits(t1, web, temp);
    err := CopyDirectory(disk, web, temp);
    ghost var t2 := disk.tree;
    if err != None { return; }
    WebTaken(t, t1, t2, web, temp);
    if web + [".sitebrush-media"] !in t1 { WebLeavesRoom(t1, t2, web, temp); }
    err := CopyMedia(disk, archive, temp);
    TouchedTwice(t1, t2, disk.tree, temp, temp);
    if err != None { return; }
    MediaTaken(t, t1, t2, disk.tree, web, archive, temp);
    WebDirsTaken(t, t1, t2, disk.tree, web, temp);
  }

  lemma WebApartFromTemp(web: Path, archive: Path, temp: Path)
    requires temp != [] && Parent(temp) == archive && !(web <= archive) && !(temp <= web)
    ensures Apart(web, temp)
  {
    PrefixOfParent(web, temp);
  }

  // Everything before the swap.
  method Prepare(disk: Disk, web: Path, archive: Path, temp: Path) returns (err: Option<Errno>)
    requires Closed(disk.tree) && !(web <= archive) && Apart(DomainsRoot(archive), temp)
    requires temp != [] && Parent(temp) == archive && temp !in disk.tree && !(temp <= web)
    modifies disk
    ensures Closed(disk.tree) && OnlyTouched(old(disk.tree), disk.tree, temp)
    ensures err == None ==> SnapshotTaken(old(disk.tree), disk.tree, web, archive, temp)
    ensures err == None ==> DirsTaken(old(disk.tree), disk.tree, web, temp)
    ensures err == None ==> temp in disk.tree && disk.tree[temp].Dir?
    ensures old(disk.faults) <= disk.faults
    ensures disk.faults == old(disk.faults) && old(CanPrepare(disk.tree, web, archive)) ==> err == None
  {
    ghost var t := disk.tree;
    err := MakeTemp(disk, archive, temp);
    if err != None { return; }
    ghost var t1 := disk.tree;
    WebApartFromTemp(web, archive, temp);
    BelowApart(web, temp, web + [".sitebrush-media"]);
    BelowApart(DomainsRoot(archive), temp, DomainsRoot(archive));
    err := CopySite(disk, web, archive, temp, t);
    TouchedTwice(t, t1, disk.tree, temp, temp);
  }

  // ---- the swap ----

  // How a publish may leave the published tree:
  // Swapped: it is the new copy.
  // Kept: it is as before.
  // Unrestored: it is gone, and as a whole under the stale name.
  // StaleShown: there was none, and a leftover of an earlier publish, which could not
  // be removed, has taken its place.
  datatype Swap = Swapped | Kept | Unrestored | StaleShown

  ghost predicate Empty(t: Tree, root: Path) {
    forall q :: q in t ==> !(root <= q)
  }

  // Outside the three roots nothing has changed.
  ghost predicate OnlyRoots(t: Tree, t': Tree, published: Path, stale: Path, temp: Path) {
    forall q :: !(published <= q) && !(stale <= q) && !(temp <= q) ==> (q in t' <==> q in t) && (q in t ==> t'[q] == t[q])
  }

  lemma RootItself(t: Tree, a: Path, t': Tree, b: Path)
    requires SameBelow(t, a, t', b)
    ensures a in t <==> b in t'
  {
    assert a + [] == a && b + [] == b;
  }

  lemma BothEmpty(t: Tree, t': Tree, a: Path, b: Path)
    requires Empty(t, a) && Empty(t', b)
    ensures SameBelow(t, a, t', b)
  {
    forall k: Path ensures a + k !in t && b + k !in t' {
      assert a <= a + k && b <= b + k;
    }
  }

  lemma RemovedApart(t: Tree, t': Tree, p: Path, a: Path)
    requires Apart(a, p)
    requires forall q :: q in t' ==> q in t && t'[q] == t[q]
    requires forall q :: q in t && !(p <= q) ==> q in t'
    ensures SameBelow(t, a, t', a)
  {
    forall k: Path
      ensures a + k in t <==> a + k in t'
      ensures a + k in t ==> t[a + k] == t'[a + k]
    {
      ApartAppend(a, p, k);
    }
  }

  // A rename that worked: the source's nodes are below the target, none are left,
  // and what is apart from both stays.
  lemma AfterRename(t: Tree, src: Path, dst: Path, other: Path)
    requires Closed(t) && src in t && Apart(src, dst) && Apart(other, src) && Apart(other, dst)
    requires dst in t ==> !t[dst].Dir?
    ensures var t' := Moved(t, src, dst);
      SameBelow(t, src, t', dst) && SameBelow(t, other, t', other) && Empty(t', src)
    ensures forall q :: !(src <= q) && !(dst <= q) ==>
      (q in Moved(t, src, dst) <==> q in t) && (q in t ==> Moved(t, src, dst)[q] == t[q])
  {
    forall q | q in t && dst <= q ensures q == dst {
      if q != dst { AncestorsAreDirs(t, dst, q); }
    }
    MovedBelow(t, src, dst);
    MovedApart(t, src, dst, other);
    MovedNodes(t, src, dst);
    forall q | q in Moved(t, src, dst) ensures !(src <= q) {
      if src <= q { BelowApart(src, dst, q); }
    }
  }

  // Three sibling directories of the archive root.
  ghost predicate Siblings(t: Tree, published: Path, stale: Path, temp: Path) {
    && published != [] && stale != [] && temp != []
    && Parent(published) == Parent(stale) == Parent(temp)
    && Parent(published) in t && t[Parent(published)].Dir?
    && Apart(published, stale) && Apart(published, temp) && Apart(stale, temp)
  }

  lemma StillSiblings(t: Tree, t': Tree, published: Path, stale: Path, temp: Path)
    requires Siblings(t, published, stale, temp) && OnlyRoots(t, t', published, stale, temp)
    ensures Siblings(t', published, stale, temp)
  {
  }

  // Clear the stale name and move the published tree there, if there is one.
  method SetAside(disk: Disk, published: Path, stale: Path, ghost temp: Path) returns (err: Option<Errno>)
    requires Closed(disk.tree) && Siblings(disk.tree, published, stale, temp)
    modifies disk
    ensures Closed(disk.tree) && OnlyRoots(old(disk.tree), disk.tree, published, stale, temp)
    ensures SameBelow(old(disk.tree), temp, disk.tree, temp)
    ensures err == None ==> SameBelow(old(disk.tree), published, disk.tree, stale) && Empty(disk.tree, published)
    ensures err == None ==> published in old(disk.tree)
    ensures err == Some(NotExist) ==> Empty(old(disk.tree), published) && Empty(disk.tree, published)
    ensures err == Some(NotExist) && stale in disk.tree ==> stale in old(disk.tree) && old(disk.faults) < disk.faults
    ensures err != None && err != Some(NotExist) ==> SameBelow(old(disk.tree), published, disk.tree, published)
    ensures old(disk.faults) <= disk.faults
    ensures disk.faults == old(disk.faults) ==> err == None || err == Some(NotExist)
  {
    ghost var t := disk.tree;
    err := disk.RemoveAll(stale);  // ignored
    ghost var t1 := disk.tree;
    RemovedApart(t, t1, stale, published);
    RemovedApart(t, t1, stale, temp);
    RootItself(t, published, t1, published);
    err := disk.Rename(published, stale);
    if err == None {
      AfterRename(t1, published, stale, temp);
      SameBelowTrans(t, published, t1, published, disk.tree, stale);
      SameBelowTrans(t, temp, t1, temp, disk.tree, temp);
    } else if err == Some(NotExist) {
      NothingBelowMissing(t1, published);
      NothingBelowMissing(t, published);
    }
  }

  // The new copy takes the published name; if it cannot, the old one gets it back.
  method PutInPlace(disk: Disk, published: Path, stale: Path, temp: Path)
    returns (err: Option<Errno>, cleanup: bool, ghost outcome: Swap)
    requires Closed(disk.tree) && Siblings(disk.tree, published, stale, temp)
    requires temp in disk.tree && Empty(disk.tree, published)
    modifies disk
    ensures Closed(disk.tree) && OnlyRoots(old(disk.tree), disk.tree, published, stale, temp)
    ensures err == None ==> outcome == Swapped
    ensures cleanup <==> outcome != Swapped
    ensures outcome == Swapped ==> SameBelow(old(disk.tree), temp, disk.tree, published) && Empty(disk.tree, temp)
    ensures outcome == Kept ==> SameBelow(old(disk.tree), stale, disk.tree, published)
    ensures outcome == Unrestored ==> disk.tree == old(disk.tree) && stale in disk.tree
    ensures outcome != StaleShown
    ensures old(disk.faults) <= disk.faults
    ensures outcome != Swapped ==> old(disk.faults) < disk.faults
    ensures outcome == Unrestored ==> old(disk.faults) + 2 <= disk.faults
    ensures disk.faults == old(disk.faults) ==> err == None
  {
    ghost var t := disk.tree;
    assert published <= published && temp <= temp;
    err := disk.Rename(temp, published);
    if err != None {
      var restored := disk.Rename(stale, published);
      if restored == None {
        AfterRename(t, stale, published, temp);
      } else if stale !in t {
        NothingBelowMissing(t, stale);
        BothEmpty(t, t, stale, published);
      }
      return err, true, if restored == None || stale !in t then Kept else Unrestored;
    }
    AfterRename(t, temp, published, stale);
    ghost var t' := disk.tree;
    cleanup, outcome := false, Swapped;
    err := disk.SyncDir(Parent(published));
    if err != None { return; }
    err := disk.RemoveAll(stale);
    RemovedApart(t', disk.tree, stale, published);
    SameBelowTrans(t, temp, t', published, disk.tree, published);
  }

  // The part of publishSnapshot that a visitor could notice.
  method SwapRoots(disk: Disk, published: Path, stale: Path, temp: Path)
    returns (err: Option<Errno>, cleanup: bool, ghost outcome: Swap)
    requires Closed(disk.tree) && Siblings(disk.tree, published, stale, temp) && temp in disk.tree
    modifies disk
    ensures Closed(disk.tree) && OnlyRoots(old(disk.tree), disk.tree, published, stale, temp)
    ensures err == None ==> outcome == Swapped
    ensures cleanup <==> outcome != Swapped
    ensures outcome == Swapped ==> SameBelow(old(disk.tree), temp, disk.tree, published) && Empty(disk.tree, temp)
    ensures outcome == Kept ==> SameBelow(old(disk.tree), published, disk.tree, published)
    ensures outcome == Unrestored ==> Empty(disk.tree, published) && SameBelow(old(disk.tree), published, disk.tree, stale)
    ensures outcome == StaleShown ==> Empty(old(disk.tree), published) && stale in old(disk.tree)
    ensures outcome in {Unrestored, StaleShown} ==> old(disk.faults) + 2 <= disk.faults
    ensures old(disk.faults) <= disk.faults
    ensures disk.faults == old(disk.faults) ==> err == None
  {
    ghost var t := disk.tree;
    var aside := SetAside(disk, published, stale, temp);
    ghost var t1 := disk.tree;
    if aside != None && aside != Some(NotExist) { return aside, true, Kept; }
    StillSiblings(t, t1, published, stale, temp);
    RootItself(t, temp, t1, temp);
    err, cleanup, outcome := PutInPlace(disk, published, stale, temp);
    if outcome == Swapped { SameBelowTrans(t, temp, t1, temp, disk.tree, published); }
    if outcome == Kept && aside == None { SameBelowTrans(t, published, t1, stale, disk.tree, published); }
    if outcome == Kept && aside == Some(NotExist) {
      if stale in t1 {
        outcome := StaleShown;
      } else {
        NothingBelowMissing(t1, stale);
        RootItself(t1, stale, disk.tree, published);
        NothingBelowMissing(disk.tree, published);
        BothEmpty(t, disk.tree, published, published);
      }
    }
    if outcome == Unrestored && aside == Some(NotExist) {
      outcome := Kept;
      BothEmpty(t, disk.tree, published, published);
    }
  }

  // The deferred removal of the temporary directory, whose error is ignored.
  method Discard(disk: Disk, published: Path, stale: Path, temp: Path)
    requires Closed(disk.tree) && temp != [] && Apart(published, temp) && Apart(stale, temp)
    modifies disk
    ensures Closed(disk.tree) && old(disk.faults) <= disk.faults
    ensures SameBelow(old(disk.tree), published, disk.tree, published) && SameBelow(old(disk.tree), stale, disk.tree, stale)
    ensures forall q :: !(temp <= q) ==>
      (q in disk.tree <==> q in old(disk.tree)) && (q in disk.tree ==> disk.tree[q] == old(disk.tree)[q])
  {
    ghost var t := disk.tree;
    var cleaned := disk.RemoveAll(temp);
    RemovedApart(t, disk.tree, temp, published);
    RemovedApart(t, disk.tree, temp, stale);
  }

  // Outside the three roots only missing directories above the archive root appear.
  ghost predicate OnlyNear(t: Tree, t': Tree, archive: Path, published: Path, stale: Path, temp: Path) {
    forall q :: !(published <= q) && !(stale <= q) && !(temp <= q) ==>
      (q in t ==> q in t' && t'[q] == t[q]) && (q in t' && q !in t ==> q <= archive && t'[q] == Dir)
  }

  ghost predicate OnlyAround(t: Tree, t': Tree, archive: Path, suffix: string) {
    OnlyNear(t, t', archive, PublishedRoot(archive), StaleRoot(archive), TempRoot(archive, suffix))
  }

  lemma NearAfterSwap(t: Tree, t1: Tree, t2: Tree, archive: Path, published: Path, stale: Path, temp: Path)
    requires OnlyTouched(t, t1, temp) && temp != [] && Parent(temp) == archive
    requires OnlyRoots(t1, t2, published, stale, temp)
    ensures OnlyNear(t, t2, archive, published, stale, temp)
  {
    forall q | !(published <= q) && !(stale <= q) && !(temp <= q)
      ensures (q in t ==> q in t2 && t2[q] == t[q]) && (q in t2 && q !in t ==> q <= archive && t2[q] == Dir)
    {
      PrefixOfParent(q, temp);
    }
  }

  // The swap, and the removal of what it did not use.
  method SwapAndClean(disk: Disk, published: Path, stale: Path, temp: Path)
    returns (err: Option<Errno>, ghost outcome: Swap)
    requires Closed(disk.tree) && Siblings(disk.tree, published, stale, temp) && temp in disk.tree
    modifies disk
    ensures Closed(disk.tree) && OnlyRoots(old(disk.tree), disk.tree, published, stale, temp)
    ensures err == None ==> outcome == Swapped
    ensures outcome == Swapped ==> SameBelow(old(disk.tree), temp, disk.tree, published)
    ensures outcome == Kept ==> SameBelow(old(disk.tree), published, disk.tree, published)
    ensures outcome == Unrestored ==> Empty(disk.tree, published) && SameBelow(old(disk.tree), published, disk.tree, stale)
    ensures outcome == StaleShown ==> Empty(old(disk.tree), published) && stale in old(disk.tree)
    ensures outcome in {Unrestored, StaleShown} ==> old(disk.faults) + 2 <= disk.faults
    ensures old(disk.faults) <= disk.faults && (disk.faults == old(disk.faults) ==> err == None)
  {
    ghost var t := disk.tree;
    var cleanup;
    err, cleanup, outcome := SwapRoots(disk, published, stale, temp);
    if cleanup {
      ghost var t1 := disk.tree;
      Discard(disk, published, stale, temp);
      if outcome == Kept { SameBelowTrans(t, published, t1, published, disk.tree, published); }
      if outcome == Unrestored { SameBelowTrans(t, published, t1, stale, disk.tree, stale); }
    }
  }

  // The same under any names for the three roots.
  method PublishAs(disk: Disk, web: Path, archive: Path, published: Path, stale: Path, temp: Path)
    returns (err: Option<Errno>, ghost outcome: Swap)
    requires Closed(disk.tree) && CleanPath(published) && temp !in disk.tree && !(temp <= web)
    requires published != [] && stale != [] && temp != []
    requires Parent(published) == Parent(stale) == Parent(temp) == archive
    requires Apart(published, stale) && Apart(published, temp) && Apart(stale, temp) && Apart(DomainsRoot(archive), temp)
    modifies disk
    ensures Closed(disk.tree)
    ensures err == None ==> outcome == Swapped
    ensures outcome == Swapped ==> SnapshotTaken(old(disk.tree), disk.tree, web, archive, published)
    ensures outcome == Swapped ==> DirsTaken(old(disk.tree), disk.tree, web, published)
    ensures outcome == Kept ==> SameBelow(old(disk.tree), published, disk.tree, published)
    ensures outcome == Unrestored ==> Empty(disk.tree, published) && SameBelow(old(disk.tree), published, disk.tree, stale)
    ensures outcome == StaleShown ==> Empty(old(disk.tree), published) && stale in old(disk.tree)
    ensures outcome in {Unrestored, StaleShown} ==> old(disk.faults) + 2 <= disk.faults
    ensures OnlyNear(old(disk.tree), disk.tree, archive, published, stale, temp)
    ensures old(disk.faults) <= disk.faults
    ensures (disk.faults == old(disk.faults) && !(web <= published) && old(CanPrepare(disk.tree, web, archive)))
      ==> err == None
  {
    ghost var t := disk.tree;
    outcome := Kept;
    InsideRootIsPrefix(web, published);
    if PathIsInsideRoot(web, published) { return Some(Unsafe), Kept; }
    BelowParent(web, published);
    err := Prepare(disk, web, archive, temp);
    ghost var t1 := disk.tree;
    KeptWhilePreparing(t, t1, published, temp);
    KeptWhilePreparing(t, t1, stale, temp);
    if err != None {
      Discard(disk, published, stale, temp);
      SameBelowTrans(t, published, t1, published, disk.tree, published);
      NearAfterSwap(t, t1, disk.tree, archive, published, stale, temp);
      return;
    }
    err, outcome := SwapAndClean(disk, published, stale, temp);
    NearAfterSwap(t, t1, disk.tree, archive, published, stale, temp);
    if outcome == Swapped { DirsFollow(t, t1, disk.tree, web, temp, published); }
    if outcome == Kept { SameBelowTrans(t, published, t1, published, disk.tree, published); }
    if outcome == Unrestored { SameBelowTrans(t, published, t1, published, disk.tree, stale); }
  }

  // publishSnapshot.  `suffix` is what MkdirTemp appends.
  method Publish(disk: Disk, web: Path, archive: Path, suffix: string) returns (err: Option<Errno>, ghost outcome: Swap)
    requires Closed(disk.tree) && CleanPath(archive)
    requires TempRoot(archive, suffix) !in disk.tree && !(TempRoot(archive, suffix) <= web)
    modifies disk
    ensures Closed(disk.tree)
    ensures err == None ==> outcome == Swapped
    ensures outcome == Swapped ==> SnapshotTaken(old(disk.tree), disk.tree, web, archive, PublishedRoot(archive))
    ensures outcome == Swapped ==> DirsTaken(old(disk.tree), disk.tree, web, PublishedRoot(archive))
    ensures outcome == Kept ==> SameBelow(old(disk.tree), PublishedRoot(archive), disk.tree, PublishedRoot(archive))
    ensures outcome == Unrestored ==> Empty(disk.tree, PublishedRoot(archive))
    ensures outcome == Unrestored ==> SameBelow(old(disk.tree), PublishedRoot(archive), disk.tree, StaleRoot(archive))
    ensures outcome == StaleShown ==> Empty(old(disk.tree), PublishedRoot(archive)) && StaleRoot(archive) in old(disk.tree)
    ensures outcome in {Unrestored, StaleShown} ==> old(disk.faults) + 2 <= disk.faults
    ensures OnlyAround(old(disk.tree), disk.tree, archive, suffix)
    ensures old(disk.faults) <= disk.faults
    ensures disk.faults == old(disk.faults) && old(Publishable(disk.tree, web, archive)) ==> err == None
  {
    RootsApart(archive, suffix);
    err, outcome := PublishAs(disk, web, archive, PublishedRoot(archive), StaleRoot(archive), TempRoot(archive, suffix));
  }

  lemma KeptWhilePreparing(t: Tree, t': Tree, root: Path, temp: Path)
    requires OnlyTouched(t, t', temp) && Apart(root, temp)
    ensures SameBelow(t, root, t', root)
  {
    forall k: Path
      ensures root + k in t <==> root + k in t'
      ensures root + k in t ==> t[root + k] == t'[root + k]
    {
      TouchedApart(t, t', root, temp, root + k);
    }
  }
}
