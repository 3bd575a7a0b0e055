// Renaming a page or a directory moves all that hangs below it, but saves a redirect for
// the old address alone: which addresses that loses, told from the site before.

module NodeMoves {
  import opened FilePaths
  import opened FileTree
  import opened PageRenames
  import opened OldAddresses
  import opened Foresight

  // The node at d is found at e; `linked` tells whether the redirect is there.
  ghost predicate MoveStep(w: World, w': World, d: Path, e: Path, mid: Tree, linked: bool) {
    && d != [] && Closed(w'.pages) && RenamedTo(w.pages, w'.pages, d, e, mid)
    && w'.links == (if linked then w.links[d := e] else w.links) && w'.index == w.index
  }

  ghost predicate DirectoryRenameStep(w: World, w': World, d: Path, e: Path, mid: Tree) {
    MoveStep(w, w', d, e, mid, true) && w.pages[d].Dir?
  }

  // ---- what a visitor will meet, told beforehand ----

  // Addresses whose answer the rename can change: those at and below the old and the new
  // place, and the directories made above the new one.
  predicate Concerned(w: World, d: Path, e: Path, u: Path) {
    d <= u || e <= u || (e != [] && u <= Parent(e) && u !in w.pages)
  }

  // The answer at u once d has become e: what is below d today is found below e, and the
  // addresses below d have their own redirects at most.
  function Foreseen(w: World, d: Path, e: Path, linked: bool, u: Path): Answer {
    if u == d && linked then RedirectsTo(e)
    else if d <= u then OfLink(w, u)
    else if e <= u then
      var k := Rebase(u, e, d);
      if k in w.pages then OfNode(w, u, w.pages[k])
      else if MissReason(w.pages, k) == NotExist then OfLink(w, u)
      else NoPage
    else if e != [] && u <= Parent(e) && u !in w.pages then OfDirectory(w, u)
    else Handle(w, u)
  }

  function MoveForecast(w: World, d: Path, e: Path, linked: bool): Forecast {
    u => Foreseen(w, d, e, linked, u)
  }

  // ---- the foresight is right ----

  // Neither place lies below the other.
  lemma PlacesApart(t: Tree, t': Tree, d: Path, e: Path, mid: Tree, u: Path)
    requires Closed(t) && RenamedTo(t, t', d, e, mid)
    ensures !(d <= u && e <= u)
  {
    Comparable(d, e, u);
    if Above(e, d) { AncestorsAreDirs(t, e, d); }
  }

  lemma Comparable(d: Path, e: Path, u: Path)
    ensures d <= u && e <= u ==> d <= e || e <= d
  {
    if d <= u && e <= u {
      assert d == u[..|d|] && e == u[..|e|];
      if |d| <= |e| { assert d == e[..|d|]; } else { assert e == d[..|e|]; }
    }
  }

  lemma MadeOutside(t: Tree, mid: Tree, d: Path, e: Path, k: Path)
    requires e != [] && OnlyDirsAdded(t, mid, Parent(e)) && !(d <= e)
    ensures d <= k ==> (k in mid <==> k in t) && (k in t ==> mid[k] == t[k])
  {
    if d <= k && k in mid && k !in t { PrefixThrough(d, k, Parent(e)); BelowParent(d, e); }
  }

  lemma NewPlaceHasWay(t: Tree, t': Tree, d: Path, e: Path, mid: Tree, u: Path)
    requires Closed(t') && RenamedTo(t, t', d, e, mid)
    ensures u <= Parent(e) ==> u in t' && t'[u].Dir?
  {
    MovedNodes(mid, d, e);
    assert Rebase(d, d, e) == e;
    if u <= Parent(e) {
      BelowParent(u, e);
      AncestorsAreDirs(t', u, e);
    }
  }

  lemma NodeAtNewPlace(t: Tree, t': Tree, d: Path, e: Path, mid: Tree, u: Path)
    requires Closed(t) && RenamedTo(t, t', d, e, mid) && e <= u
    ensures (u in t' <==> Rebase(u, e, d) in t) && (u in t' ==> t'[u] == t[Rebase(u, e, d)])
  {
    MovedNodes(mid, d, e);
    RebaseBack(u, e, d);
    MadeOutside(t, mid, d, e, Rebase(u, e, d));
    NothingBelowMissing(t, e);
  }

  lemma NodeElsewhere(t: Tree, t': Tree, d: Path, e: Path, mid: Tree, u: Path)
    requires Closed(t) && Closed(t') && RenamedTo(t, t', d, e, mid) && !(e <= u)
    ensures d <= u ==> u !in t'
    ensures !(d <= u) && u <= Parent(e) ==> u in t' && t'[u] == if u in t then t[u] else Dir
    ensures !(d <= u) && !(u <= Parent(e)) ==> (u in t' <==> u in t) && (u in t ==> t'[u] == t[u])
  {
    MovedNodes(mid, d, e);
    NewPlaceHasWay(t, t', d, e, mid, u);
  }

  lemma {:induction false} MissAtNewPlace(t: Tree, t': Tree, d: Path, e: Path, mid: Tree, u: Path)
    requires Closed(t) && RenamedTo(t, t', d, e, mid) && Above(e, u) && u !in t'
    ensures MissReason(t', u) == MissReason(t, Rebase(u, e, d))
    decreases |u|
  {
    NodeAtNewPlace(t, t', d, e, mid, u);
    RebaseParent(u, e, d);
    NodeAtNewPlace(t, t', d, e, mid, Parent(u));
    if Parent(u) !in t' {
      assert Parent(u) != e by { assert Rebase(e, e, d) == d; }
      MissAtNewPlace(t, t', d, e, mid, Parent(u));
    }
  }

  lemma MissAtOrBelowNewPlace(t: Tree, t': Tree, d: Path, e: Path, mid: Tree, u: Path)
    requires Closed(t) && RenamedTo(t, t', d, e, mid) && e <= u
    ensures u !in t' ==> MissReason(t', u) == MissReason(t, Rebase(u, e, d))
  {
    NodeAtNewPlace(t, t', d, e, mid, u);
    if u == e {
      assert Rebase(e, e, d) == d;
    } else if u !in t' {
      MissAtNewPlace(t, t', d, e, mid, u);
    }
  }

  lemma MissUnderNewWay(t: Tree, t': Tree, e: Path, u: Path)
    requires Closed(t) && e != [] && u <= Parent(e) && u !in t
    requires forall x :: x <= Parent(e) && x in t ==> t[x].Dir?
    ensures MissReason(t, u) == NotExist
  {
    forall i | 0 <= i < |u| && u[..i] in t ensures t[u[..i]].Dir? {
      PrefixThrough(u[..i], u, Parent(e));
    }
    MissReasonBelowDir(t, [], u);
  }

  lemma WayToNewPlace(t: Tree, t': Tree, d: Path, e: Path, mid: Tree)
    requires Closed(t) && Closed(t') && RenamedTo(t, t', d, e, mid)
    ensures forall x :: x <= Parent(e) && x in t ==> t[x].Dir?
  {
    forall x | x <= Parent(e) && x in t ensures t[x].Dir? {
      NewPlaceHasWay(t, t', d, e, mid, x);
      BelowParent(x, e);
      PlacesApart(t, t', d, e, mid, x);
      if d <= x { BelowParent(d, e); PrefixThrough(d, x, e); }
      NodeElsewhere(t, t', d, e, mid, x);
    }
  }

  lemma {:induction false} MissElsewhere(t: Tree, t': Tree, d: Path, e: Path, mid: Tree, u: Path)
    requires Closed(t) && Closed(t') && RenamedTo(t, t', d, e, mid) && u !in t
    requires !(d <= u) && !(e <= u) && !(u <= Parent(e))
    ensures MissReason(t', u) == MissReason(t, u)
    decreases |u|
  {
    var up := Parent(u);
    BelowParent(d, u);
    BelowParent(e, u);
    NodeElsewhere(t, t', d, e, mid, up);
    if up !in t {
      if up <= Parent(e) {
        WayToNewPlace(t, t', d, e, mid);
        MissUnderNewWay(t, t', e, up);
      } else {
        MissElsewhere(t, t', d, e, mid, up);
      }
    }
  }

  lemma MissBelowOldPlace(t: Tree, t': Tree, d: Path, e: Path, mid: Tree, u: Path)
    requires Closed(t) && Closed(t') && d != [] && RenamedTo(t, t', d, e, mid) && d <= u
    ensures MissReason(t', u) == NotExist
  {
    var up := Parent(d);
    PlacesApart(t, t', d, e, mid, u);
    assert !(d <= up) && up <= u;
    PlacesApart(t, t', d, e, mid, d);
    NodeElsewhere(t, t', d, e, mid, up);
    assert u[..|up|] == up;
    forall i | |up| < i <= |u| ensures u[..i] !in t' {
      assert d == u[..|d|] && d <= u[..i];
      PlacesApart(t, t', d, e, mid, u[..i]);
      NodeElsewhere(t, t', d, e, mid, u[..i]);
    }
    assert u[..|u|] == u;
    MissReasonBelowDir(t', up, u);
  }

  lemma ForeseenAtNewPlace(w: World, w': World, d: Path, e: Path, mid: Tree, linked: bool, u: Path)
    requires Closed(w.pages) && MoveStep(w, w', d, e, mid, linked) && e <= u
    ensures Handle(w', u) == Foreseen(w, d, e, linked, u)
  {
    PlacesApart(w.pages, w'.pages, d, e, mid, u);
    NodeAtNewPlace(w.pages, w'.pages, d, e, mid, u);
    MissAtOrBelowNewPlace(w.pages, w'.pages, d, e, mid, u);
  }

  lemma ForeseenElsewhere(w: World, w': World, d: Path, e: Path, mid: Tree, linked: bool, u: Path)
    requires Closed(w.pages) && MoveStep(w, w', d, e, mid, linked) && !(e <= u)
    ensures Handle(w', u) == Foreseen(w, d, e, linked, u)
  {
    NodeElsewhere(w.pages, w'.pages, d, e, mid, u);
    if d <= u {
      MissBelowOldPlace(w.pages, w'.pages, d, e, mid, u);
    } else if u !in w.pages && !(u <= Parent(e)) {
      MissElsewhere(w.pages, w'.pages, d, e, mid, u);
    }
  }

  // What the move makes a visitor meet is what the old site foretold.
  lemma MoveForecastIsRight(w: World, w': World, d: Path, e: Path, mid: Tree, linked: bool)
    requires Closed(w.pages) && MoveStep(w, w', d, e, mid, linked)
    ensures IsRight(MoveForecast(w, d, e, linked), w')
  {
    forall u ensures Foreseen(w, d, e, linked, u) == Handle(w', u) {
      if e <= u {
        ForeseenAtNewPlace(w, w', d, e, mid, linked, u);
      } else {
        ForeseenElsewhere(w, w', d, e, mid, linked, u);
      }
    }
  }

  // ---- which addresses are lost ----

  // An address below a renamed directory works on if and only if it has a redirect of its
  // own, and following that one, as the site before the rename foretells, reaches a file.
  lemma AddressBelowWorksIff(w: World, w': World, d: Path, e: Path, mid: Tree, x: Path)
    requires Closed(w.pages) && DirectoryRenameStep(w, w', d, e, mid) && Above(d, x)
    ensures Works(w', x) <==> x in w.links && WillWork(MoveForecast(w, d, e, true), w.links[x])
  {
    var f := MoveForecast(w, d, e, true);
    MoveForecastIsRight(w, w', d, e, mid, true);
    assert f(x) == Handle(w', x);
    WorksByNext(w', x);
    if x in w.links { WorksAsForecast(f, w', w.links[x]); }
  }

  // Hence all pages below it keep theirs if and only if each has such a redirect.
  lemma DirectoryRenameWorksIff(w: World, w': World, d: Path, e: Path, mid: Tree)
    requires Closed(w.pages) && DirectoryRenameStep(w, w', d, e, mid)
    ensures (forall x :: IsFile(w, x) && Above(d, x) ==> Works(w', x)) <==>
      (forall x :: IsFile(w, x) && Above(d, x) ==> x in w.links && WillWork(MoveForecast(w, d, e, true), w.links[x]))
  {
    forall x | IsFile(w, x) && Above(d, x)
      ensures Works(w', x) <==> x in w.links && WillWork(MoveForecast(w, d, e, true), w.links[x])
    {
      AddressBelowWorksIff(w, w', d, e, mid, x);
    }
  }

  // The smallest case: a directory with one page.
  lemma DirectoryRenameBreaks(d: string, e: string, x: string, page: Node, index: string) returns (w: World, w': World)
    requires d != e && page.File?
    ensures KeepsWorking(w) && IsFile(w, [d, x]) && DirectoryRenameStep(w, w', [d], [e], w.pages)
    ensures !Works(w', [d, x])
  {
    w := World(map[[] := Dir, [d] := Dir, [d, x] := page], map[], index);
    assert Parent([d, x]) == [d] && Parent([d]) == [] && Parent([e]) == [];
    w' := World(Moved(w.pages, [d], [e]), map[[d] := [e]], index);
    NoLinksWork(w);
    assert [d][0] != [e][0];
    MovedIsClosed(w.pages, [d], [e]);
    AddressBelowWorksIff(w, w', [d], [e], w.pages, [d, x]);
  }
}
