// From a request path to a file and back: safePathUnderRoot and
// canonicalRequestURIForFile.

module RequestPaths {
  import opened FilePaths
  import opened SlashNames
  import opened FileTree
  import opened ArchiveNames

  // ---- url.PathUnescape ----

  // Strings are byte strings: each character stands for one byte.
  function HexValue(c: char): Option<nat> {
    if '0' <= c <= '9' then Some(c as int - '0' as int)
    else if 'a' <= c <= 'f' then Some(c as int - 'a' as int + 10)
    else if 'A' <= c <= 'F' then Some(c as int - 'A' as int + 10)
    else None
  }

  function Unescape(s: string): Option<string> {
    if s == "" then Some("")
    else if s[0] != '%' then
      match Unescape(s[1..])
      case None => None
      case Some(rest) => Some([s[0]] + rest)
    else if |s| < 3 || HexValue(s[1]) == None || HexValue(s[2]) == None then None
    else
      match Unescape(s[3..])
      case None => None
      case Some(rest) => Some([ByteOf(s[1], s[2])] + rest)
  }

  function ByteOf(high: char, low: char): char
    requires HexValue(high).Some? && HexValue(low).Some?
  {
    var code := 16 * HexValue(high).value + HexValue(low).value;
    if code < 256 then code as char else '\0'
  }

  lemma {:induction false} UnescapeWithoutPercent(s: string)
    requires '%' !in s
    ensures Unescape(s) == Some(s)
  {
    if s != "" {
      UnescapeWithoutPercent(s[1..]);
      assert s == [s[0]] + s[1..];
    }
  }

  // Decoding shortens, and keeps a slash at either end.
  lemma {:induction false} UnescapeShortens(s: string)
    requires Unescape(s).Some?
    ensures var u := Unescape(s).value;
      |u| <= |s| && ('%' in s ==> |u| < |s|)
      && (s != "" && s[0] == '/' ==> u != "" && u[0] == '/')
      && (s != "" && s[|s| - 1] == '/' ==> u != "" && u[|u| - 1] == '/')
  {
    if s != "" {
      UnescapeShortens(if s[0] != '%' then s[1..] else s[3..]);
    }
  }

  // ---- from request to file ----

  function TrimLead(s: string): string {
    if s != "" && s[0] == '/' then s[1..] else s
  }

  predicate EndsInSlash(s: string) {
    s != "" && s[|s| - 1] == '/'
  }

  // pathpkg.Join of two elements: empty ones are skipped.
  function PathJoin(a: string, b: string): string {
    if a != "" then JoinNames(a, b) else if b != "" then Clean(b) else ""
  }

  predicate SafeSegments(segs: seq<string>) {
    forall i :: 0 <= i < |segs| ==> segs[i] != ".." && ':' !in segs[i]
  }

  // safePathUnderRoot, after decoding; symbolic links are not followed here.
  function Resolve(root: Path, u: string, index: string, appendIndex: bool): Option<Path> {
    if '\\' in u || "//" <= u || !SafeSegments(Split(u)) then None
    else
      var relative := TrimLead(Clean("/" + TrimLead(u)));
      SafeJoinUnderRoot(root, if appendIndex && (relative == "" || EndsInSlash(u)) then PathJoin(relative, index) else relative)
  }

  // The request path as it is decoded.
  function Decoded(request: string): Option<string> {
    Unescape(if request == "" then "/" else request)
  }

  // safePathUnderRoot
  function SafePath(root: Path, request: string, index: string, appendIndex: bool): Option<Path> {
    match Decoded(request)
    case None => None
    case Some(u) => Resolve(root, u, index, appendIndex)
  }

  // ---- from file to URI ----

  // path.Base and path.Dir, for names that do not end in a slash.
  function Base(s: string): string {
    Split(s)[|Split(s)| - 1]
  }

  function DirName(s: string): string {
    if |Split(s)| == 1 then "." else Clean(Join(Split(s)[..|Split(s)| - 1]) + "/")
  }

  // strings.Trim(s, "/")
  function TrimSlashes(s: string): string {
    if s == "" then s
    else if s[0] == '/' then TrimSlashes(s[1..])
    else if s[|s| - 1] == '/' then TrimSlashes(s[..|s| - 1])
    else s
  }

  function UriOfRelative(relative: string, index: string): string {
    if relative == index then "/"
    else if Base(relative) == index then
      (if DirName(relative) == "." then "/" else "/" + TrimSlashes(DirName(relative)) + "/")
    else "/" + TrimLead(relative)
  }

  function IndexName(configured: string): string {
    if configured == "" then "index.html" else configured
  }

  // canonicalRequestURIForFile; filepath.Rel answers "." for the root itself.
  function CanonicalUri(root: Path, file: Path, configuredIndex: string): Option<string> {
    if !PathIsInsideRoot(root, file) then None
    else Some(UriOfRelative(if Rel(root, file) == [] then "." else Join(Rel(root, file)), IndexName(configuredIndex)))
  }

  // ---- the same on segments ----

  // The segments a decoded path names, without the index file.
  function Named(u: string): Path {
    CleanFold([], Split(u), true)
  }

  lemma {:induction false} FoldComesFrom(stack: seq<string>, segs: seq<string>)
    ensures forall seg :: seg in CleanFold(stack, segs, true) ==> seg in stack || seg in segs
    decreases |segs|
  {
    if segs != [] { FoldComesFrom(CleanStep(stack, segs[0], true), segs[1..]); }
  }

  lemma RootedClean(u: string)
    ensures CleanPath(Named(u))
    ensures TrimLead(Clean("/" + TrimLead(u))) == Join(Named(u))
  {
    SplitHasNoSlash(u);
    RootedCleanIsClean([], Split(u));
    var v := "/" + TrimLead(u);
    SplitFirst("", TrimLead(u));
    assert "" + "/" + TrimLead(u) == v;
    assert CleanFold([], Split(v), true) == CleanFold([], Split(TrimLead(u)), true);
    if u != "" && u[0] == '/' { assert u == v; }
  }

  lemma JoinOfClean(segs: Path)
    requires CleanPath(segs)
    ensures Join(segs) == "" <==> segs == []
    ensures segs != [] ==> Split(Join(segs)) == segs && CleanSegments(Join(segs)) == segs && Clean(Join(segs)) == Join(segs)
  {
    if segs != [] {
      SplitJoin(segs);
      PlainEnds(Join(segs));
      CleanFoldPlain([], segs, false);
    }
  }

  lemma JoinWithIndex(segs: Path, index: string)
    requires CleanPath(segs) && (index == "" || PlainSegment(index))
    ensures PathJoin(Join(segs), index) == Join(segs + if index == "" then [] else [index])
  {
    JoinOfClean(segs);
    if segs == [] {
      if index != "" { JoinOfClean([index]); }
    } else if index == "" {
      var s := Join(segs) + "/" + "";
      SplitAppend(Join(segs), "");
      CleanFoldAppend([], segs, [""], false);
      CleanFoldPlain([], segs, false);
      PlainEnds(Join(segs));
      assert CleanFold(segs, [""], false) == segs;
      assert s[0] == Join(segs)[0];
      assert segs + [] == segs;
    } else {
      JoinAppend(segs, [index]);
      JoinOfClean(segs + [index]);
    }
  }

  lemma SafeJoinOfJoined(root: Path, segs: Path)
    requires CleanPath(root) && CleanPath(segs)
    ensures SafeJoinUnderRoot(root, Join(segs)) == Some(root + segs)
  {
    if segs == [] {
      assert CleanFold(root, [""], true) == root;
      InsideRootIsPrefix(root, root);
      assert root + segs == root;
    } else {
      SafeJoinOfPlain(root, segs);
    }
  }

  // The segments a decoded path leads to.
  function Target(u: string, index: string, appendIndex: bool): Path {
    Named(u) + if index != "" && appendIndex && (Named(u) == [] || EndsInSlash(u)) then [index] else []
  }

  // Where a decoded path leads.
  lemma ResolvesTo(root: Path, u: string, index: string, appendIndex: bool)
    requires CleanPath(root) && (index == "" || PlainSegment(index))
    ensures Resolve(root, u, index, appendIndex) ==
      if '\\' in u || "//" <= u || !SafeSegments(Split(u)) then None
      else Some(root + Target(u, index, appendIndex))
    ensures CleanPath(Target(u, index, appendIndex))
  {
    RootedClean(u);
    JoinOfClean(Named(u));
    JoinWithIndex(Named(u), index);
    assert Named(u) + [] == Named(u);
    SafeJoinOfJoined(root, Target(u, index, appendIndex));
  }

  // The URI of a file below the root: its segments, less the index file.
  function UriOf(segs: Path, index: string): string {
    if segs == [] then "/."
    else if segs[|segs| - 1] != index then "/" + Join(segs)
    else if |segs| == 1 then "/"
    else "/" + Join(segs[..|segs| - 1]) + "/"
  }

  lemma PlainTrim(s: string)
    requires CleanPath(Split(s))
    ensures TrimSlashes(s) == s && TrimLead(s) == s
  {
    PlainEnds(s);
  }

  lemma RelBelow(root: Path, segs: Path)
    ensures Rel(root, root + segs) == segs
  {
    CommonIsPrefix(root, root + segs);
    assert (root + segs)[|root|..] == segs;
  }

  lemma UriOfJoined(segs: Path, index: string)
    requires CleanPath(segs) && PlainSegment(index)
    ensures UriOfRelative(if segs == [] then "." else Join(segs), index) == UriOf(segs, index)
  {
    SplitHead(".");
    if segs != [] {
      JoinOfClean(segs);
      PlainTrim(Join(segs));
      SplitPlain(index);
      if |segs| == 1 { assert segs == [segs[0]]; } else { DirOf(segs); }
    }
  }

  lemma CanonicalOf(root: Path, segs: Path, configuredIndex: string)
    requires CleanPath(root) && CleanPath(segs) && PlainSegment(IndexName(configuredIndex))
    ensures CanonicalUri(root, root + segs, configuredIndex) == Some(UriOf(segs, IndexName(configuredIndex)))
  {
    RelBelow(root, segs);
    InsideRootIsPrefix(root, root + segs);
    UriOfJoined(segs, IndexName(configuredIndex));
  }

  lemma DirOf(segs: Path)
    requires CleanPath(segs) && |segs| > 1
    ensures var dir := Join(segs[..|segs| - 1]);
      DirName(Join(segs)) == dir && dir != "." && TrimSlashes(dir) == dir
  {
    var dir := segs[..|segs| - 1];
    JoinOfClean(segs);
    JoinOfClean(dir);
    PlainTrim(Join(dir));
    PlainEnds(Join(dir));
    JoinWithIndex(dir, "");
    assert dir + [] == dir;
    assert Join(dir) + "/" + "" == Join(dir) + "/";
  }

  // ---- which files a request can reach ----

  // No character the resolver refuses.
  predicate Ordinary(s: string) {
    ':' !in s && '\\' !in s
  }

  // The segments a canonical URI spells out.
  function Spelled(segs: Path, index: string): Path {
    if segs != [] && segs[|segs| - 1] == index then segs[..|segs| - 1] else segs
  }

  predicate Reachable(segs: Path, index: string) {
    CleanPath(segs) && forall seg :: seg in Spelled(segs, index) ==> Ordinary(seg)
  }

  lemma {:induction false} SplitKeepsOut(s: string, c: char)
    requires c !in s
    ensures forall seg :: seg in Split(s) ==> c !in seg
  {
    if s != "" { SplitKeepsOut(s[1..], c); }
  }

  lemma SpelledOfTarget(named: Path, index: string, added: bool)
    ensures forall seg :: seg in Spelled(named + (if added then [index] else []), index) ==> seg in named
  {
    assert named + [] == named && (named + [index])[..|named|] == named;
  }

  lemma NamedAreOrdinary(u: string)
    requires '\\' !in u && SafeSegments(Split(u))
    ensures forall seg :: seg in Named(u) ==> seg in Split(u) && Ordinary(seg)
  {
    FoldComesFrom([], Split(u));
    SplitKeepsOut(u, '\\');
  }

  // What is reached consists of what the decoded path spells out, and the index file.
  lemma ReachedSegments(root: Path, u: string, index: string)
    requires CleanPath(root) && (index == "" || PlainSegment(index)) && Resolve(root, u, index, true).Some?
    ensures Resolve(root, u, index, true) == Some(root + Target(u, index, true))
    ensures Reachable(Target(u, index, true), IndexName(index))
    ensures forall seg :: seg in Spelled(Target(u, index, true), IndexName(index)) ==> seg in Split(u)
  {
    ResolvesTo(root, u, index, true);
    NamedAreOrdinary(u);
    SpelledOfTarget(Named(u), IndexName(index), index != "" && (Named(u) == [] || EndsInSlash(u)));
  }

  // ---- the URI leads back to the file ----

  lemma PlainUri(core: Path)
    requires CleanPath(core) && core != []
    ensures var c := "/" + Join(core);
      Split(c) == [""] + core && Named(c) == core && !("//" <= c) && !EndsInSlash(c)
  {
    JoinOfClean(core);
    PlainEnds(Join(core));
    SplitFirst("", Join(core));
    assert "" + "/" + Join(core) == "/" + Join(core);
    CleanFoldPlain([], core, true);
    CleanFoldAppend([], [""], core, true);
    assert CleanFold([], [""], true) == [] && [] + core == core;
  }

  lemma DirUri(core: Path)
    requires CleanPath(core) && core != []
    ensures var c := "/" + Join(core) + "/";
      Split(c) == [""] + core + [""] && Named(c) == core && !("//" <= c) && EndsInSlash(c)
  {
    PlainUri(core);
    var c := "/" + Join(core) + "/";
    SplitTail(c);
    assert c[..|c| - 1] == "/" + Join(core);
    JoinOfClean(core);
    PlainEnds(Join(core));
    CleanFoldAppend([], [""] + core, [""], true);
    assert CleanFold(core, [""], true) == core;
  }

  lemma RootUris()
    ensures Split("/") == ["", ""] && Named("/") == []
    ensures Split("/.") == ["", "."] && Named("/.") == [] && !EndsInSlash("/.")
  {
    SplitFirst("", "");
    SplitFirst("", ".");
    SplitHead(".");
    assert "" + "/" + "" == "/" && "" + "/" + "." == "/.";
    assert CleanFold([], ["", ""], true) == CleanFold([], [""], true) == [];
    assert CleanFold([], ["", "."], true) == CleanFold([], ["."], true) == [];
  }

  lemma UriSegments(segs: Path, index: string)
    requires CleanPath(segs)
    ensures var c := UriOf(segs, index);
      && Named(c) == Spelled(segs, index) && !("//" <= c)
      && (EndsInSlash(c) <==> segs != [] && segs[|segs| - 1] == index)
      && forall seg :: seg in Split(c) ==> seg == "" || seg == "." || seg in Spelled(segs, index)
  {
    var core := Spelled(segs, index);
    if core == [] { RootUris(); }
    else if core == segs { PlainUri(core); }
    else { DirUri(core); }
  }

  lemma UriKeepsOut(segs: Path, index: string, ch: char)
    requires ch != '/' && ch != '.' && forall seg :: seg in Spelled(segs, index) ==> ch !in seg
    ensures ch !in UriOf(segs, index)
  {
    JoinKeepsOut(Spelled(segs, index), ch);
  }

  // The index file is found again: it is configured by name, or not there.
  predicate IndexIsNamed(segs: Path, configuredIndex: string) {
    configuredIndex != "" || segs == [] || segs[|segs| - 1] != "index.html"
  }

  lemma UriIsSafe(segs: Path, index: string)
    requires Reachable(segs, index)
    ensures SafeSegments(Split(UriOf(segs, index))) && '\\' !in UriOf(segs, index)
  {
    UriSegments(segs, index);
    UriKeepsOut(segs, index, '\\');
    var split := Split(UriOf(segs, index));
    forall i | 0 <= i < |split| ensures split[i] != ".." && ':' !in split[i] {
      assert split[i] in split;
    }
  }

  lemma TargetOfUri(segs: Path, index: string, name: string)
    requires CleanPath(segs) && name == IndexName(index) && (index != "" ==> segs != []) && IndexIsNamed(segs, index)
    ensures Target(UriOf(segs, name), index, true) == segs
  {
    UriSegments(segs, name);
    assert segs + [] == segs;
    if segs != [] && segs[|segs| - 1] == name {
      assert segs == segs[..|segs| - 1] + [name];
    }
  }

  lemma UriLeadsBack(root: Path, segs: Path, index: string)
    requires CleanPath(root) && (PlainSegment(index) || index == "") && Reachable(segs, IndexName(index))
    requires index != "" ==> segs != []
    requires IndexIsNamed(segs, index) && '%' !in UriOf(segs, IndexName(index))
    ensures SafePath(root, UriOf(segs, IndexName(index)), index, true) == Some(root + segs)
  {
    var c := UriOf(segs, IndexName(index));
    UnescapeWithoutPercent(c);
    UriSegments(segs, IndexName(index));
    UriIsSafe(segs, IndexName(index));
    ResolvesTo(root, c, index, true);
    TargetOfUri(segs, index, IndexName(index));
  }

  // ---- and only if it holds no percent sign ----

  // How many characters segments take, with a slash each.
  function Weight(segs: seq<string>): nat {
    if segs == [] then 0 else |segs[0]| + 1 + Weight(segs[1..])
  }

  lemma {:induction false} WeightAppend(a: seq<string>, b: seq<string>)
    ensures Weight(a + b) == Weight(a) + Weight(b)
  {
    if a == [] {
      assert a + b == b;
    } else {
      assert (a + b)[1..] == a[1..] + b;
      WeightAppend(a[1..], b);
    }
  }

  lemma {:induction false} SplitWeight(s: string)
    ensures Weight(Split(s)) == |s| + 1
  {
    if s != "" { SplitWeight(s[1..]); }
  }

  lemma {:induction false} FoldWeight(stack: seq<string>, segs: seq<string>)
    ensures Weight(CleanFold(stack, segs, true)) <= Weight(stack) + Weight(segs)
    decreases |segs|
  {
    if segs != [] {
      var next := CleanStep(stack, segs[0], true);
      FoldWeight(next, segs[1..]);
      if next == stack + [segs[0]] { WeightAppend(stack, [segs[0]]); }
      if stack != [] && next == stack[..|stack| - 1] {
        WeightAppend(next, [stack[|stack| - 1]]);
        assert stack == next + [stack[|stack| - 1]];
      }
    }
  }

  // A decoded path is longer than what it names, by its slashes at the ends.
  lemma NamedWeight(u: string)
    requires u != "" && u[0] == '/'
    ensures Weight(Named(u)) <= |u|
    ensures EndsInSlash(u) && |u| > 1 ==> Weight(Named(u)) < |u|
  {
    SplitFirst("", u[1..]);
    assert "" + "/" + u[1..] == u;
    SplitWeight(u[1..]);
    FoldWeight([], Split(u[1..]));
    if EndsInSlash(u) && |u| > 1 {
      var v := u[1..];
      SplitTail(v);
      SplitWeight(v[..|v| - 1]);
      FoldWeight([], Split(v[..|v| - 1]));
      CleanFoldAppend([], Split(v[..|v| - 1]), [""], true);
    }
  }

  lemma UriLength(segs: Path, index: string)
    requires CleanPath(segs) && Spelled(segs, index) != []
    ensures |UriOf(segs, index)| == Weight(Spelled(segs, index)) + if Spelled(segs, index) == segs then 0 else 1
  {
    var core := Spelled(segs, index);
    JoinOfClean(core);
    SplitWeight(Join(core));
  }

  // Something shorter than the URI leads elsewhere.
  lemma ShorterMisses(segs: Path, index: string, name: string, u: string)
    requires CleanPath(segs) && name == IndexName(index) && Spelled(segs, name) != []
    requires u != "" && u[0] == '/' && |u| < |UriOf(segs, name)|
    requires EndsInSlash(UriOf(segs, name)) ==> EndsInSlash(u)
    ensures Target(u, index, true) != segs
  {
    var core := Spelled(segs, name);
    UriSegments(segs, name);
    UriLength(segs, name);
    NamedWeight(u);
    assert Named(u) + [] == Named(u) && (Named(u) + [index])[..|Named(u)|] == Named(u);
    if core != segs {
      assert segs == core + [name];
      WeightAppend(core, [name]);
      if u == "/" { RootUris(); }
    }
  }

  lemma UriMissesBack(root: Path, segs: Path, index: string)
    requires CleanPath(root) && (PlainSegment(index) || index == "") && CleanPath(segs)
    requires '%' in UriOf(segs, IndexName(index))
    ensures SafePath(root, UriOf(segs, IndexName(index)), index, true) != Some(root + segs)
  {
    var c := UriOf(segs, IndexName(index));
    if Unescape(c).Some? {
      var u := Unescape(c).value;
      UnescapeShortens(c);
      ShorterMisses(segs, index, IndexName(index), u);
      ResolvesTo(root, u, index, true);
      assert (root + segs)[|root|..] == segs && (root + Target(u, index, true))[|root|..] == Target(u, index, true);
    }
  }

  // With no index file configured, a file of the default name is missed.
  lemma DefaultIndexMissesBack(root: Path, segs: Path)
    requires CleanPath(root) && CleanPath(segs) && !IndexIsNamed(segs, "")
    requires '%' !in UriOf(segs, "index.html")
    ensures SafePath(root, UriOf(segs, "index.html"), "", true) != Some(root + segs)
  {
    var c := UriOf(segs, "index.html");
    UnescapeWithoutPercent(c);
    UriSegments(segs, "index.html");
    ResolvesTo(root, c, "", true);
    assert Named(c) + [] == Named(c) && Target(c, "", true) != segs;
    assert (root + segs)[|root|..] == segs && (root + Target(c, "", true))[|root|..] == Target(c, "", true);
  }

  lemma Reached(root: Path, request: string, index: string, file: Path) returns (segs: Path)
    requires CleanPath(root) && (PlainSegment(index) || index == "") && SafePath(root, request, index, true) == Some(file)
    ensures file == root + segs && file[|root|..] == segs && Reachable(segs, IndexName(index))
    ensures index != "" ==> segs != []
    ensures Decoded(request).Some?
    ensures forall seg :: seg in Spelled(segs, IndexName(index)) ==> seg in Split(Decoded(request).value)
  {
    var u := Decoded(request).value;
    ReachedSegments(root, u, index);
    segs := Target(u, index, true);
  }

  // Every accepted request stays below the root.  Naming the file it reaches by its
  // canonical URI reaches the same file again exactly when that URI holds no percent
  // sign and the index file is configured by name.
  lemma CanonicalUriLeadsBackIff(root: Path, request: string, index: string, file: Path)
    requires CleanPath(root) && (PlainSegment(index) || index == "") && SafePath(root, request, index, true) == Some(file)
    ensures root <= file && CanonicalUri(root, file, index).Some?
    ensures SafePath(root, CanonicalUri(root, file, index).value, index, true) == Some(file) <==>
      '%' !in CanonicalUri(root, file, index).value && IndexIsNamed(file[|root|..], index)
  {
    var segs := Reached(root, request, index, file);
    DefaultIndexIsPlain();
    CanonicalOf(root, segs, index);
    if '%' in UriOf(segs, IndexName(index)) {
      UriMissesBack(root, segs, index);
    } else if IndexIsNamed(segs, index) {
      UriLeadsBack(root, segs, index);
    } else {
      DefaultIndexMissesBack(root, segs);
    }
  }

  lemma DefaultIndexIsPlain()
    ensures PlainSegment("index.html")
  {
  }

  // With an index file configured, and no percent sign in the decoded request, the
  // canonical URI always leads back, so it is its own canonical form.
  lemma CanonicalUriIsAFixedPoint(root: Path, request: string, index: string, file: Path)
    requires CleanPath(root) && PlainSegment(index) && SafePath(root, request, index, true) == Some(file)
    requires Decoded(request).Some? && '%' !in Decoded(request).value
    ensures root <= file && CanonicalUri(root, file, index).Some?
    ensures SafePath(root, CanonicalUri(root, file, index).value, index, true) == Some(file)
  {
    var segs := Reached(root, request, index, file);
    CanonicalOf(root, segs, index);
    SplitKeepsOut(Decoded(request).value, '%');
    UriKeepsOut(segs, index, '%');
    CanonicalUriLeadsBackIff(root, request, index, file);
  }

  // ---- requests whose canonical URI leads elsewhere ----

  lemma OneName(root: Path, name: string, index: string)
    requires CleanPath(root) && PlainSegment(name) && Ordinary(name) && (PlainSegment(index) || index == "")
    requires PlainSegment(IndexName(index))
    ensures Resolve(root, "/" + name, index, true) == Some(root + [name])
    ensures CanonicalUri(root, root + [name], index) == Some(if name == IndexName(index) then "/" else "/" + name)
    ensures (root + [name])[|root|..] == [name]
  {
    var u := "/" + name;
    PlainUri([name]);
    assert Join([name]) == name && [""] + [name] == ["", name];
    assert '\\' !in u;
    ResolvesTo(root, u, index, true);
    assert Named(u) + [] == Named(u);
    CanonicalOf(root, [name], index);
  }

  lemma EscapeDecodes(s: string, a: char, b: char)
    requires HexValue(a).Some? && HexValue(b).Some? && s == ['/', '%', a, b]
    ensures Unescape(s) == Some(['/', ByteOf(a, b)])
  {
    var t := s[1..];
    assert t == ['%', a, b] && t[3..] == "";
    assert Unescape(t[3..]) == Some("");
    assert t[1] == a && t[2] == b && [ByteOf(a, b)] + "" == [ByteOf(a, b)];
    assert Unescape(t) == Some([ByteOf(a, b)]);
    assert s[0] == '/' && [s[0]] + [ByteOf(a, b)] == ['/', ByteOf(a, b)];
  }

  lemma PercentAloneIsMalformed(s: string)
    requires s == ['/', '%']
    ensures Unescape(s) == None
  {
    assert s[1..] == ['%'];
  }

  // A file named by a percent sign is reached by its escaped name; its canonical URI, which
  // does not escape it, is refused.
  lemma PercentFileIsMissed(root: Path, index: string)
    requires CleanPath(root) && PlainSegment(index) && index != "%"
    ensures SafePath(root, "/%25", index, true) == Some(root + ["%"])
    ensures CanonicalUri(root, root + ["%"], index) == Some("/%") && SafePath(root, "/%", index, true) == None
  {
    assert ByteOf('2', '5') == '%';
    EscapeDecodes("/%25", '2', '5');
    PercentAloneIsMalformed("/%");
    OneName(root, "%", index);
    assert "/" + "%" == "/%";
  }

  lemma RootRequest(root: Path, u: string)
    requires CleanPath(root) && u == "/"
    ensures SafePath(root, u, "", true) == Some(root)
  {
    UnescapeWithoutPercent(u);
    RootUris();
    ResolvesTo(root, u, "", true);
    assert root + [] == root;
  }

  // With no index file configured, a file of the default name is reached by its own name,
  // but its canonical URI leads to the root directory.
  lemma DefaultIndexIsMissed(root: Path, name: string)
    requires CleanPath(root) && name == IndexName("")
    ensures SafePath(root, "/" + name, "", true) == Some(root + [name])
    ensures CanonicalUri(root, root + [name], "") == Some("/") && SafePath(root, "/", "", true) == Some(root)
  {
    DefaultIndexIsOrdinary(name);
    OneName(root, name, "");
    UnescapeWithoutPercent("/" + name);
    RootRequest(root, "/");
  }

  lemma DefaultIndexIsOrdinary(name: string)
    requires name == "index.html"
    ensures PlainSegment(name) && Ordinary(name) && '%' !in name
  {
  }
}
