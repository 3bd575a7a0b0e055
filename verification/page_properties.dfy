// updateProperties: metadata, rename and redirect in turn, with compensation when
// a later one fails; and what that does to the site a visitor sees.

module PageProperties {
  import opened FilePaths
  import opened FileTree
  import opened OldAddresses
  import opened NodeMoves
  import opened SiteRuns
  import opened PageRenames
  import opened RedirectStore

  datatype Metadata = Metadata(title: string, tags: string, status: string, published: bool)

  // ---- the redirects a visitor of one domain meets ----

  ghost function LinksOf(list: seq<Redirect>, rows: seq<Redirect>, withDatabase: bool, domain: string): map<Path, Path> {
    map u | u in (set r | r in list + rows :: r.oldUri) && FindRedirect(list, rows, withDatabase, Source(u, domain)).Some? ::
      FindRedirect(list, rows, withDatabase, Source(u, domain)).value.newUri
  }

  lemma {:induction false} FoundIsListed(list: seq<Redirect>, s: Source)
    ensures Find(list, s).Some? ==> Find(list, s).value in list && Find(list, s).value.oldUri == s.uri
  {
    if list != [] { FoundIsListed(list[1..], s); }
  }

  lemma {:induction false} NewestIsListed(rows: seq<Redirect>, s: Source)
    ensures Newest(rows, s).Some? ==> Newest(rows, s).value in rows && Newest(rows, s).value.oldUri == s.uri
  {
    if rows != [] { NewestIsListed(rows[1..], s); }
  }

  lemma LinksAt(list: seq<Redirect>, rows: seq<Redirect>, withDatabase: bool, domain: string, u: Path)
    ensures var links := LinksOf(list, rows, withDatabase, domain);
      var answer := FindRedirect(list, rows, withDatabase, Source(u, domain));
      (u in links <==> answer.Some?) && (u in links ==> links[u] == answer.value.newUri)
  {
    FoundIsListed(list, Source(u, domain));
    NewestIsListed(rows, Source(u, domain));
    var answer := FindRedirect(list, rows, withDatabase, Source(u, domain));
    if answer.Some? {
      assert answer.value in list + rows;
    }
  }

  // A saved redirect is one more link, whatever was there for its old address.
  lemma LinksAfterSave(list: seq<Redirect>, rows: seq<Redirect>, withDatabase: bool, r: Redirect)
    requires UniqueSources(list) && r.active
    ensures LinksOf(Upsert(list, r), if withDatabase then Replace(rows, r) else rows, withDatabase, r.domain)
         == LinksOf(list, rows, withDatabase, r.domain)[r.oldUri := r.newUri]
  {
    var rows' := if withDatabase then Replace(rows, r) else rows;
    var links := LinksOf(list, rows, withDatabase, r.domain);
    var links' := LinksOf(Upsert(list, r), rows', withDatabase, r.domain);
    forall u
      ensures u in links' <==> u in links[r.oldUri := r.newUri]
      ensures u in links' ==> links'[u] == links[r.oldUri := r.newUri][u]
    {
      LinksAt(list, rows, withDatabase, r.domain, u);
      LinksAt(Upsert(list, r), rows', withDatabase, r.domain, u);
      UpsertFind(list, r, Source(u, r.domain));
      ReplaceNewest(rows, r, Source(u, r.domain));
    }
  }

  lemma OtherLinkAfterFailure(list: seq<Redirect>, rows: seq<Redirect>, list': seq<Redirect>, rows': seq<Redirect>,
                              withDatabase: bool, r: Redirect, u: Path)
    requires UniqueSources(list) && list' in {list, Upsert(list, r)} && u != r.oldUri
    requires rows' in {rows, if withDatabase then Replace(rows, r) else rows}
    ensures FindRedirect(list', rows', withDatabase, Source(u, r.domain)) == FindRedirect(list, rows, withDatabase, Source(u, r.domain))
  {
    UpsertFind(list, r, Source(u, r.domain));
    ReplaceNewest(rows, r, Source(u, r.domain));
  }

  lemma OwnLinkAfterFailure(list: seq<Redirect>, rows: seq<Redirect>, list': seq<Redirect>, rows': seq<Redirect>,
                            withDatabase: bool, r: Redirect)
    requires UniqueSources(list) && r.active && list' in {list, Upsert(list, r)}
    requires rows' in {rows, if withDatabase then Replace(rows, r) else rows}
    ensures FindRedirect(list', rows', withDatabase, SourceOf(r)) in {FindRedirect(list, rows, withDatabase, SourceOf(r)), Some(r)}
  {
    UpsertFind(list, r, SourceOf(r));
    ReplaceNewest(rows, r, SourceOf(r));
  }

  // A save that failed, whatever it left in either store, adds the link or changes nothing.
  lemma LinksAfterFailure(list: seq<Redirect>, rows: seq<Redirect>, list': seq<Redirect>, rows': seq<Redirect>,
                          withDatabase: bool, r: Redirect)
    requires UniqueSources(list) && r.active && list' in {list, Upsert(list, r)}
    requires rows' in {rows, if withDatabase then Replace(rows, r) else rows}
    ensures var links := LinksOf(list, rows, withDatabase, r.domain);
      LinksOf(list', rows', withDatabase, r.domain) in {links, links[r.oldUri := r.newUri]}
  {
    var links := LinksOf(list, rows, withDatabase, r.domain);
    var links' := LinksOf(list', rows', withDatabase, r.domain);
    OwnLinkAfterFailure(list, rows, list', rows', withDatabase, r);
    var changed := FindRedirect(list', rows', withDatabase, SourceOf(r)) == Some(r);
    var expected := if changed then links[r.oldUri := r.newUri] else links;
    forall u
      ensures u in links' <==> u in expected
      ensures u in links' ==> links'[u] == expected[u]
    {
      LinksAt(list, rows, withDatabase, r.domain, u);
      LinksAt(list', rows', withDatabase, r.domain, u);
      if u != r.oldUri { OtherLinkAfterFailure(list, rows, list', rows', withDatabase, r, u); }
    }
    assert links' == expected;
  }

  // ---- undoing a rename with a rename ----

  lemma NoDirsAbove(t: Tree, mid: Tree, p: Path)
    requires Closed(t) && p in t && OnlyDirsAdded(t, mid, p)
    ensures mid == t
  {
    forall q | q in mid ensures q in t {
      if q !in t { AncestorsAreDirs(t, q, p); }
    }
  }

  // The page goes back to where it was; only directories above the new address remain.
  lemma RenameUndone(t: Tree, t1: Tree, t2: Tree, source: Path, target: Path, mid1: Tree, mid2: Tree)
    requires Closed(t) && Closed(mid1) && Closed(t1) && source != []
    requires RenamedTo(t, t1, source, target, mid1) && RenamedTo(t1, t2, target, source, mid2)
    ensures t2 == mid1
  {
    SourceParentStays(mid1, source, target);
    NoDirsAbove(t1, mid2, Parent(source));
    MoveThereAndBack(mid1, source, target);
  }

  // What a successful rename does; a missing page is not an error.
  ghost predicate Relocated(t: Tree, t': Tree, source: Path, target: Path, mid: Tree) {
    target !in t && (RenamedTo(t, t', source, target, mid) || (source !in t && t' == t))
  }

  // The page is there, the new address is free, and only directories lead to it.
  ghost predicate CanMove(t: Tree, source: Path, target: Path)
    requires target != []
  {
    source in t && target !in t && WayIsClear(t, Parent(target)) && !(source <= target)
  }

  // How the tree stands after a rename and the attempt to take it back.
  lemma RenameBackIsClean(t: Tree, t1: Tree, t2: Tree, source: Path, target: Path, mid1: Tree,
                          back: RenameOutcome, mid2: Tree)
    requires Closed(t) && Closed(mid1) && Closed(t1) && source != [] && target != []
    requires Relocated(t, t1, source, target, mid1)
    requires back == Renamed || back == Stranded ==> RenamedTo(t1, t2, target, source, mid2)
    requires back == Unchanged ==> t2 == t1 && target !in t1
    requires back == RenameFailed ==> OnlyDirsAdded(t1, t2, Parent(source)) && (target !in t1 ==> t2 == t1)
    ensures RenamedTo(t, t1, source, target, mid1) && back == RenameFailed ==> t2 == t1
    ensures !(RenamedTo(t, t1, source, target, mid1) && back == RenameFailed) ==> OnlyDirsAdded(t, t2, Parent(target))
  {
    if RenamedTo(t, t1, source, target, mid1) {
      MovedNodes(mid1, source, target);
      RebaseBack(target, target, source);
      SourceParentStays(mid1, source, target);
      if back == RenameFailed {
        NoDirsAbove(t1, t2, Parent(source));
      } else if back != Unchanged {
        RenameUndone(t, t1, t2, source, target, mid1, mid2);
      }
    }
  }

  // The way back is open.
  lemma CanMoveBack(t: Tree, t1: Tree, source: Path, target: Path, mid: Tree)
    requires Closed(t1) && Closed(mid) && source != [] && RenamedTo(t, t1, source, target, mid)
    ensures CanMove(t1, target, source)
  {
    MovedAway(mid, source, target);
    AboveAreClear(t1, Parent(source));
  }

  lemma SmallStep(w: World, w': World, a: Path, b: Path)
    requires Closed(w.pages) && b != [] && OnlyDirsAdded(w.pages, w'.pages, Parent(b)) && Closed(w'.pages)
    requires (w'.links == w.links || w'.links == w.links[a := b]) && w'.index == w.index
    ensures Happens(w, w') && (IsFile(w, a) ==> Step(w, w'))
  {
    LeftoverHappens(w, w', a, b);
    if IsFile(w, a) { var change := FailureIsStep(w, w', a, b); }
  }

  lemma PageMoved(w: World, w': World, a: Path, b: Path, mid: Tree)
    requires Relocated(w.pages, w'.pages, a, b, mid) && Closed(w'.pages)
    requires Closed(w.pages) && a != [] && b != [] && w'.links == w.links[a := b] && w'.index == w.index
    ensures Happens(w, w') && (IsFile(w, a) ==> Step(w, w'))
  {
    assert IsFile(w, a) ==> StepBy(w, w', Renaming(a, b, mid));
    if a in w.pages {
      assert EventStep(w, w', Move(a, b, mid, true));
    } else {
      LeftoverHappens(w, w', a, b);
    }
  }

  // A page left at its new address, with or without its redirect.
  lemma PageLost(w: World, w': World, a: Path, b: Path, mid: Tree)
    requires RenamedTo(w.pages, w'.pages, a, b, mid) && Closed(w'.pages) && a != []
    requires w'.links in {w.links, w.links[a := b]} && w'.index == w.index
    ensures Happens(w, w')
  {
    assert EventStep(w, w', Move(a, b, mid, w'.links != w.links));
  }

  class Service {
    const web: Disk
    const store: Store
    const domain: string
    const index: string  // WEB_INDEX_FILE
    var metadata: map<Path, Metadata>
    ghost var faults: nat  // failures of metadata writes and removals

    constructor (web: Disk, store: Store, domain: string, index: string)
      ensures this.web == web && this.store == store && this.domain == domain && this.index == index
      ensures metadata == map[] && faults == 0
    {
      this.web, this.store, this.domain, this.index := web, store, domain, index;
      metadata, faults := map[], 0;
    }

    ghost predicate Valid()
      reads this, web, store
    {
      Closed(web.tree) && store.Valid()
    }

    // What a visitor of this domain meets.
    ghost function Visible(): World
      reads web, store
    {
      World(web.tree, LinksOf(store.list, store.rows, store.withDatabase, domain), index)
    }

    // Ask the environment whether the next call breaks.
    method Fault() returns (bad: bool)
      modifies this`faults
      ensures faults == old(faults) + if bad then 1 else 0
    {
      bad := *;
      if bad { faults := faults + 1; }
    }

    // writePageMetadata
    method WriteMetadata(u: Path, m: Metadata) returns (result: WriteResult)
      modifies this`metadata, this`faults
      ensures metadata == if result == NotWritten then old(metadata) else old(metadata)[u := m]
      ensures faults == old(faults) + if result == Written then 0 else 1
    {
      var bad := Fault();
      if bad { return NotWritten; }
      metadata := metadata[u := m];
      bad := Fault();
      result := if bad then WrittenWithError else Written;
    }

    // removePageMetadata: the removal and the directory sync can each fail.
    method RemoveMetadata(u: Path) returns (ok: bool)
      modifies this`metadata, this`faults
      ensures metadata == old(metadata) || metadata == old(metadata) - {u}
      ensures ok ==> metadata == old(metadata) - {u}
      ensures faults == old(faults) + if ok then 0 else 1
    {
      var bad := Fault();
      if bad { return false; }
      metadata := metadata - {u};
      bad := Fault();
      ok := !bad;
    }

    // The part of updateProperties for a new address: rename, save the redirect, and
    // rename back if that fails.  `cleanup` tells whether the metadata is removed after
    // a failure: not if the rename back reported an error.  `lost` tells that the page
    // was left at the new address without its redirect saved.
    method MovePage(source: Path, target: Path, date: int)
      returns (ok: bool, cleanup: bool, ghost lost: bool, ghost mid: Tree)
      requires Valid() && source != [] && target != [] && source != target
      modifies web, store
      ensures Valid()
      ensures ok ==> !lost && Visible().links == old(Visible()).links[source := target]
      ensures ok ==> Relocated(old(web.tree), web.tree, source, target, mid)
      ensures !ok && store.late == old(store.late) ==> store.rows == old(store.rows)
      ensures !ok && store.late == old(store.late) && store.faults < old(store.faults) + 2 ==> store.list == old(store.list)
      ensures !ok && !lost ==> OnlyDirsAdded(old(web.tree), web.tree, Parent(target))
      ensures !ok ==> Visible().links in {old(Visible()).links, old(Visible()).links[source := target]}
      ensures lost ==> !ok && RenamedTo(old(web.tree), web.tree, source, target, mid)
      ensures lost ==> old(web.faults) + old(store.faults) + 2 <= web.faults + store.faults
      ensures !ok && !cleanup ==> old(web.faults) < web.faults && old(store.faults) < store.faults
      ensures lost && old(store.faults) < store.faults ==> !cleanup
      ensures old(web.faults) <= web.faults && old(store.faults) <= store.faults && old(store.late) <= store.late
      ensures (web.faults == old(web.faults) && store.faults == old(store.faults) && old(CanMove(web.tree, source, target)))
        ==> ok
    {
      lost, cleanup := false, true;
      var outcome;
      outcome, mid := RenameStaticFile(web, source, target);
      if outcome == RenameFailed || outcome == Stranded {
        return false, true, outcome == Stranded, mid;
      }
      var redirect := Redirect(source, target, date, true, domain);
      LinksAfterSave(store.list, store.rows, store.withDatabase, redirect);
      ok := store.SaveRedirect(redirect);
      if !ok {
        LinksAfterFailure(old(store.list), old(store.rows), store.list, store.rows, store.withDatabase, redirect);
        ghost var t1 := web.tree;
        if outcome == Renamed { CanMoveBack(old(web.tree), t1, source, target, mid); }
        var back, mid2 := RenameStaticFile(web, target, source);
        RenameBackIsClean(old(web.tree), t1, web.tree, source, target, mid, back, mid2);
        lost := outcome == Renamed && back == RenameFailed;
        cleanup := back == Renamed || back == Unchanged;
      }
    }

    // updateProperties.  `kept` tells that it failed in the rename back, and left the
    // metadata of the new address in place.
    method UpdateProperties(source: Path, target: Path, m: Metadata, date: int)
      returns (ok: bool, ghost lost: bool, ghost kept: bool, ghost mid: Tree)
      requires Valid() && source != [] && target != []
      modifies this, web, store
      ensures Valid()
      ensures ok ==> metadata == old(metadata)[target := m] && !lost && !kept
      ensures ok && source == target ==> Visible() == old(Visible())
      ensures ok && source != target ==> Relocated(old(web.tree), web.tree, source, target, mid)
      ensures ok && source != target ==> Visible().links == old(Visible()).links[source := target]
      ensures !ok && !lost ==> OnlyDirsAdded(old(web.tree), web.tree, Parent(target))
      ensures !ok && store.late == old(store.late) ==> store.rows == old(store.rows)
      ensures !ok && store.late == old(store.late) && store.faults < old(store.faults) + 2 ==> store.list == old(store.list)
      ensures !ok && !kept && faults == old(faults) ==> metadata == old(metadata) - {target}
      ensures !ok ==> metadata in {old(metadata), old(metadata)[target := m], old(metadata) - {target}}
      ensures kept ==> !ok && metadata == old(metadata)[target := m]
      ensures kept ==> old(web.faults) < web.faults && old(store.faults) < store.faults
      ensures lost && old(store.faults) < store.faults ==> kept
      ensures lost ==> RenamedTo(old(web.tree), web.tree, source, target, mid)
      ensures lost ==> old(web.faults) + old(store.faults) + 2 <= web.faults + store.faults
      ensures (faults == old(faults) && web.faults == old(web.faults) && store.faults == old(store.faults)
               && (source == target || old(CanMove(web.tree, source, target))))
        ==> ok
      ensures Happens(old(Visible()), Visible())
      ensures old(IsFile(Visible(), source)) && !lost ==> Step(old(Visible()), Visible())
    {
      lost, kept, mid := false, false, web.tree;
      var written := WriteMetadata(target, m);
      if written != Written {
        SmallStep(Visible(), Visible(), source, target);
        return false, lost, kept, mid;
      }
      if source == target {
        SmallStep(Visible(), Visible(), source, target);
        return true, lost, kept, mid;
      }
      var cleanup;
      ok, cleanup, lost, mid := MovePage(source, target, date);
      if ok {
        PageMoved(old(Visible()), Visible(), source, target, mid);
        return;
      }
      if lost { PageLost(old(Visible()), Visible(), source, target, mid); } else { SmallStep(old(Visible()), Visible(), source, target); }
      kept := !cleanup;
      if cleanup {
        assert old(metadata)[target := m] - {target} == old(metadata) - {target};
        var cleaned := RemoveMetadata(target);
      }
    }

    // createSubpage, from the check that nothing is there: a page that is made keeps all
    // old addresses working exactly if it makes no directory in the place of one.
    method CreateSubpage(p: Path, body: string) returns (err: Option<Errno>)
      requires Valid() && p != []
      modifies web
      ensures Valid() && Happens(old(Visible()), Visible()) && Step(old(Visible()), Visible())
      ensures OnlyWrote(old(web.tree), web.tree, p, File(body, 0x1A4))
      ensures err == None ==> p !in old(web.tree) && p in web.tree && web.tree[p] == File(body, 0x1A4)
      ensures p in old(web.tree) ==> err != None && web.tree == old(web.tree)
      ensures err == None && old(KeepsWorking(Visible())) ==> (KeepsWorking(Visible()) <==> old(Spared(Visible(), p)))
      ensures old(web.faults) <= web.faults
      ensures web.faults == old(web.faults) ==>
        (err == None <==> p !in old(web.tree) && MissReason(old(web.tree), p) == NotExist)
    {
      ghost var w := Visible();
      var change := WriteIsStep(w, w, p, body, 0x1A4);
      WriteHappens(w, w, p, body, 0x1A4);
      var node;
      err, node := web.Lstat(p);
      if err == None { return Some(Exist); }
      if err != Some(NotExist) { return; }
      MissingMeansClearWay(web.tree, p);
      err := web.AtomicWriteFile(p, body, 0x1A4);
      change := WriteIsStep(w, Visible(), p, body, 0x1A4);
      WriteHappens(w, Visible(), p, body, 0x1A4);
      if err == None && KeepsWorking(w) { PutKeepsWorkingIff(w, Visible(), p, body, 0x1A4); }
    }
  }
}
