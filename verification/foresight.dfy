// What a change will make of a site's addresses, told from the site before it.

module Foresight {
  import opened FilePaths
  import opened FileTree
  import opened OldAddresses

  // What each address will answer.
  type Forecast = Path -> Answer

  ghost predicate WillReach(f: Forecast, u: Path, n: nat)
    decreases n
  {
    f(u).Serves? || (n > 0 && f(u).RedirectsTo? && WillReach(f, f(u).next, n - 1))
  }

  ghost predicate WillWork(f: Forecast, u: Path) {
    exists n: nat :: WillReach(f, u, n)
  }

  ghost predicate IsRight(f: Forecast, w: World) {
    forall u :: f(u) == Handle(w, u)
  }

  lemma {:induction false} ReachesAsForecast(f: Forecast, w: World, u: Path, n: nat)
    requires IsRight(f, w)
    ensures Reaches(w, u, n) <==> WillReach(f, u, n)
    decreases n
  {
    assert f(u) == Handle(w, u);
    if n > 0 && f(u).RedirectsTo? { ReachesAsForecast(f, w, f(u).next, n - 1); }
  }

  lemma WorksAsForecast(f: Forecast, w: World, u: Path)
    requires IsRight(f, w)
    ensures Works(w, u) <==> WillWork(f, u)
  {
    if n: nat :| Reaches(w, u, n) { ReachesAsForecast(f, w, u, n); }
    if n: nat :| WillReach(f, u, n) { ReachesAsForecast(f, w, u, n); }
  }

  // Outside these addresses, what works today answers as today, or will work anyway.
  ghost predicate ConcernsOnly(w: World, f: Forecast, concerned: Path -> bool) {
    forall u :: !concerned(u) && Works(w, u) ==> f(u) == Handle(w, u) || WillWork(f, u)
  }

  ghost predicate Spares(w: World, f: Forecast, concerned: Path -> bool) {
    forall c :: concerned(c) && Works(w, c) ==> WillWork(f, c)
  }

  lemma {:induction false} OthersWorkOn(w: World, f: Forecast, concerned: Path -> bool, u: Path, n: nat)
    requires ConcernsOnly(w, f, concerned) && Spares(w, f, concerned) && Reaches(w, u, n)
    ensures WillWork(f, u)
    decreases n
  {
    assert Works(w, u);
    if !concerned(u) && !WillWork(f, u) {
      assert f(u) == Handle(w, u);
      if f(u).Serves? {
        assert WillReach(f, u, 0);
      } else {
        var v := f(u).next;
        OthersWorkOn(w, f, concerned, v, n - 1);
        var m: nat :| WillReach(f, v, m);
        assert WillReach(f, u, m + 1);
      }
    }
  }

  // Every address that worked works on, anywhere on the site, if and only if those do
  // that the change concerns.
  lemma EveryAddressWorksOnIff(w: World, w': World, f: Forecast, concerned: Path -> bool)
    requires IsRight(f, w') && ConcernsOnly(w, f, concerned)
    ensures (forall u :: Works(w, u) ==> Works(w', u)) <==> Spares(w, f, concerned)
  {
    forall u ensures Works(w', u) <==> WillWork(f, u) { WorksAsForecast(f, w', u); }
    if Spares(w, f, concerned) {
      forall u | Works(w, u) ensures Works(w', u) {
        var n: nat :| Reaches(w, u, n);
        OthersWorkOn(w, f, concerned, u, n);
      }
    }
  }

  // ---- answers of what will be there ----

  function OfDirectory(w: World, u: Path): Answer {
    if IsIndex(w, u) then NoPage else RedirectsTo(u + [w.index])
  }

  function OfNode(w: World, u: Path, node: Node): Answer {
    match node
    case File(_, _) => Serves
    case Dir => OfDirectory(w, u)
    case Symlink(_) => NoPage
  }

  function OfLink(w: World, u: Path): Answer {
    if u in w.links then RedirectsTo(w.links[u]) else NoPage
  }
}
