// revisionDir: which directory, and so which lock, the revisions of a page use.

module RevisionDirectory {
  import opened FilePaths
  import opened KeyedMutexProtocol
  import opened Revisions
  import opened SlashNames

  // strings.ReplaceAll(s, "/", "_")
  function Underscored(s: string): (u: string)
    ensures |u| == |s| && forall i :: 0 <= i < |s| ==> u[i] == if s[i] == '/' then '_' else s[i]
  {
    if s == "" then "" else [if s[0] == '/' then '_' else s[0]] + Underscored(s[1..])
  }

  // strings.Trim(s, "_")
  function TrimUnderscores(s: string): (t: string)
    ensures t != "" ==> t[0] != '_' && t[|t| - 1] != '_'
  {
    if s == "" then s
    else if s[0] == '_' then TrimUnderscores(s[1..])
    else if s[|s| - 1] == '_' then TrimUnderscores(s[..|s| - 1])
    else s
  }

  // The last element of revisionDir.
  function DirectoryName(uri: string): (name: string)
    ensures name != ""
  {
    var rest := if uri != "" && uri[0] == '/' then uri[1..] else uri;
    var safe := TrimUnderscores(Underscored(Clean("/" + rest)));
    if safe == "" then "index" else safe
  }

  lemma {:induction false} TrimKeepsOut(s: string, c: char)
    requires c !in s
    ensures c !in TrimUnderscores(s)
  {
    if s != "" {
      if s[0] == '_' { TrimKeepsOut(s[1..], c); }
      else if s[|s| - 1] == '_' { TrimKeepsOut(s[..|s| - 1], c); }
    }
  }

  // The directory is a child of the one for revisions, whatever the address.
  lemma DirectoryNameHasNoSlash(uri: string)
    ensures '/' !in DirectoryName(uri)
  {
    var rest := if uri != "" && uri[0] == '/' then uri[1..] else uri;
    TrimKeepsOut(Underscored(Clean("/" + rest)), '/');
  }

  lemma CleanOfPlain(segs: Path)
    requires segs != [] && CleanPath(segs)
    ensures Clean("/" + Join(segs)) == "/" + Join(segs)
  {
    SplitJoin(segs);
    SplitFirst("", Join(segs));
    assert "" + "/" + Join(segs) == "/" + Join(segs);
    CleanFoldPlain([], segs, true);
    CleanFoldAppend([], [""], segs, true);
    assert CleanFold([], [""], true) == [] && [] + segs == segs;
  }

  // The name for an address that is clean already.
  function NameOf(underscored: string): string {
    if TrimUnderscores(underscored) == "" then "index" else TrimUnderscores(underscored)
  }

  lemma NameOfClean(segs: Path)
    requires segs != [] && CleanPath(segs)
    ensures DirectoryName("/" + Join(segs)) == NameOf(Underscored("/" + Join(segs)))
  {
    var uri := "/" + Join(segs);
    assert uri[1..] == Join(segs);
    CleanOfPlain(segs);
  }

  lemma {:induction false} UnderscoredAppend(s: string, t: string)
    ensures Underscored(s + t) == Underscored(s) + Underscored(t)
  {
    if s == "" {
      assert s + t == t;
    } else {
      assert (s + t)[1..] == s[1..] + t;
      UnderscoredAppend(s[1..], t);
    }
  }

  lemma JoinPair(a: string, b: string)
    ensures Join([a, b]) == a + ("/" + b)
  {
    JoinCons(a, [b]);
    assert [a] + [b] == [a, b];
  }

  lemma UnderscoredPlain(a: string, b: string)
    requires PlainSegment(a)
    ensures PlainSegment(a + ("_" + b)) <==> '/' !in b
    ensures Underscored("/" + (a + ("/" + b))) == Underscored("/" + (a + ("_" + b)))
  {
    UnderscoredAppend("/", a + ("/" + b));
    UnderscoredAppend("/", a + ("_" + b));
    UnderscoredAppend(a, "/" + b);
    UnderscoredAppend(a, "_" + b);
    assert ("/" + b)[1..] == b && ("_" + b)[1..] == b;
    assert (a + ("_" + b))[|a|] == '_';
  }

  // Two pages share a directory if their addresses differ only in slashes against
  // underscores: /a/b and /a_b, for any plain names a and b.
  lemma DirectoriesAreShared(a: string, b: string)
    requires PlainSegment(a) && PlainSegment(b)
    ensures var u, v := a + ("/" + b), a + ("_" + b);
      u != v && DirectoryName("/" + u) == DirectoryName("/" + v)
  {
    JoinPair(a, b);
    UnderscoredPlain(a, b);
    NameOfClean([a, b]);
    NameOfClean([a + ("_" + b)]);
    assert (a + ("/" + b))[|a|] != (a + ("_" + b))[|a|];
  }

  lemma {:induction false} TrimEnds(s: string)
    ensures TrimUnderscores("_" + s) == TrimUnderscores(s) == TrimUnderscores(s + "_")
  {
    assert ("_" + s)[1..] == s;
    if s == "" {
      assert ("" + "_")[1..] == "" && "_"[1..] == "";
    } else if s[0] == '_' {
      TrimEnds(s[1..]);
      assert (s + "_")[1..] == s[1..] + "_";
    } else {
      assert (s + "_")[..|s|] == s;
    }
  }

  // They also share it if one has an underscore more at an end.
  lemma UnderscoresAtTheEndsShare(name: string)
    requires PlainSegment(name)
    ensures DirectoryName("/" + ("_" + name)) == DirectoryName("/" + name) == DirectoryName("/" + (name + "_"))
  {
    assert Join([name]) == name && Join(["_" + name]) == "_" + name && Join([name + "_"]) == name + "_";
    NameOfClean([name]);
    LongerIsPlain(name);
    NameOfClean(["_" + name]);
    NameOfClean([name + "_"]);
    var u := Underscored(name);
    UnderscoredAppend("/", name);
    UnderscoredAppend("/", "_" + name);
    UnderscoredAppend("_", name);
    UnderscoredAppend("/", name + "_");
    UnderscoredAppend(name, "_");
    TrimEnds(u);
    TrimEnds("_" + u);
    TrimEnds(u + "_");
  }

  lemma LongerIsPlain(name: string)
    requires PlainSegment(name)
    ensures PlainSegment("_" + name) && PlainSegment(name + "_")
  {
    assert ("_" + name)[0] == '_' && (name + "_")[|name|] == '_';
  }

  // ---- pages that do not share ----

  // The address of a page with plain segments and no underscore.
  ghost predicate Ordinary(uri: string) {
    exists segs: Path :: OrdinaryPath(segs) && uri == "/" + Join(segs)
  }

  ghost predicate OrdinaryPath(segs: Path) {
    segs != [] && CleanPath(segs) && '_' !in Join(segs)
  }

  lemma OrdinaryName(segs: Path)
    requires OrdinaryPath(segs)
    ensures DirectoryName("/" + Join(segs)) == Underscored(Join(segs))
  {
    var name := Join(segs);
    NameOfClean(segs);
    SplitJoin(segs);
    PlainEnds(name);
    UnderscoredAppend("/", name);
    assert ("/" + name)[1..] == name && Underscored("/") == "_";
    var u := Underscored(name);
    assert name[0] in name && name[|name| - 1] in name;
    assert u != "" && u[0] != '_' && u[|u| - 1] != '_';
    TrimsTo(u);
    assert Underscored("/" + name) == "_" + u;
  }

  lemma TrimsTo(u: string)
    requires u != "" && u[0] != '_' && u[|u| - 1] != '_'
    ensures TrimUnderscores("_" + u) == u
  {
    assert ("_" + u)[1..] == u;
    assert TrimUnderscores(u) == u;
  }

  lemma UnderscoredIsInjective(s: string, t: string)
    requires '_' !in s && '_' !in t && Underscored(s) == Underscored(t)
    ensures s == t
  {
    forall i | 0 <= i < |s| ensures s[i] == t[i] {
      assert Underscored(s)[i] == Underscored(t)[i];
    }
  }

  // Pages whose addresses hold no underscore never share a directory.
  lemma OrdinaryPagesDoNotShare(uri: string, other: string)
    requires Ordinary(uri) && Ordinary(other) && DirectoryName(uri) == DirectoryName(other)
    ensures uri == other
  {
    var a: Path :| OrdinaryPath(a) && uri == "/" + Join(a);
    var b: Path :| OrdinaryPath(b) && other == "/" + Join(b);
    OrdinaryName(a);
    OrdinaryName(b);
    UnderscoredIsInjective(Join(a), Join(b));
  }

  ghost predicate OnlyOrdinary(s: Site) {
    forall t :: 0 <= t < |s.tasks| && s.tasks[t].Saving? ==> Ordinary(s.tasks[t].uri)
  }

  // So in every run of saves of such pages each of them tells its story.
  lemma OrdinaryPagesTellTheirStories(sites: seq<Site>, turns: seq<nat>, i: nat, uri: string)
    requires Revisions.IsRun(DirectoryName, sites, turns) && i < |sites| && StoryInv(DirectoryName, sites[0], uri)
    requires Ordinary(uri) && forall k :: 0 <= k < |sites| ==> OnlyOrdinary(sites[k])
    ensures StoryInv(DirectoryName, sites[i], uri)
  {
    forall k | 0 <= k < |sites| ensures Alone(DirectoryName, sites[k], uri) {
      var s := sites[k];
      assert OnlyOrdinary(s);
      forall t | 0 <= t < |s.tasks| && s.tasks[t].Saving? && DirectoryName(s.tasks[t].uri) == DirectoryName(uri)
        ensures s.tasks[t].uri == uri
      {
        OrdinaryPagesDoNotShare(s.tasks[t].uri, uri);
      }
    }
    RevisionsTellTheStory(DirectoryName, sites, turns, i, uri);
  }

  // Such a run exists: two goroutines begin to save two pages.
  lemma TwoPagesAtOnce(uri: string, other: string, content: string) returns (sites: seq<Site>, turns: seq<nat>)
    requires Ordinary(uri) && Ordinary(other)
    ensures Revisions.IsRun(DirectoryName, sites, turns) && StoryInv(DirectoryName, sites[0], uri)
    ensures forall k :: 0 <= k < |sites| ==> OnlyOrdinary(sites[k])
    ensures |turns| == 2 && sites[2].tasks == [Saving(uri, content, Start), Saving(other, content, Start)]
  {
    var s0 := Empty(2, map[]);
    EmptyIsSound(DirectoryName, 2, map[]);
    EmptyTellsTheStory(DirectoryName, 2, map[], uri);
    NoRunIsARun(s0);
    var s1, s2;
    s1, sites, turns := OneMoreBegins([s0], [], 0, uri, content);
    s2, sites, turns := OneMoreBegins(sites, turns, 1, other, content);
    assert s2.tasks[0] == s1.tasks[0];
    forall k | 0 <= k < |sites| ensures OnlyOrdinary(sites[k]) {
    }
  }

  lemma NoRunIsARun(s: Site)
    requires SiteInv(DirectoryName, s)
    ensures Revisions.IsRun(DirectoryName, [s], [])
  {
  }

  // A run goes on with goroutine t beginning to save a page.
  lemma OneMoreBegins(sites: seq<Site>, turns: seq<nat>, t: nat, uri: string, content: string)
      returns (next: Site, sites': seq<Site>, turns': seq<nat>)
    requires Revisions.IsRun(DirectoryName, sites, turns)
    requires t < |sites[|turns|].tasks| && sites[|turns|].tasks[t].NoTask?
    ensures sites' == sites + [next] && turns' == turns + [t] && Revisions.IsRun(DirectoryName, sites', turns')
    ensures next.tasks == sites[|turns|].tasks[t := Saving(uri, content, Start)]
  {
    Revisions.RunKeepsInv(DirectoryName, sites, turns, |turns|);
    next := BeginIsStep(sites[|turns|], t, uri, content);
    sites', turns' := sites + [next], turns + [t];
    forall i | 0 <= i < |turns'| ensures StepAt(DirectoryName, sites', turns', i) {
      if i < |turns| { assert StepAt(DirectoryName, sites, turns, i); }
    }
  }

  lemma BeginIsStep(s: Site, t: nat, uri: string, content: string) returns (s': Site)
    requires SiteInv(DirectoryName, s) && t < |s.tasks| && s.tasks[t].NoTask?
    ensures StepOf(DirectoryName, s, s', t) && s'.tasks == s.tasks[t := Saving(uri, content, Start)]
  {
    s' := s.(mutex := Register(s.mutex, t, DirectoryName(uri)), tasks := s.tasks[t := Saving(uri, content, Start)]);
    assert BeginStep(DirectoryName, s, s', t, uri, content);
  }
}
