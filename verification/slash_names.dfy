// Slash-separated names as strings: strings.Split, strings.Join and path.Clean,
// with the facts that let the rest of the model reason on segments.

module SlashNames {
  import opened FilePaths

  // strings.Split(s, "/"): always at least one segment.
  function Split(s: string): (segs: seq<string>)
    ensures segs != []
  {
    if s == "" then [""]
    else if s[0] == '/' then [""] + Split(s[1..])
    else var rest := Split(s[1..]); [[s[0]] + rest[0]] + rest[1..]
  }

  // strings.Join(segs, "/")
  function Join(segs: seq<string>): string {
    if segs == [] then ""
    else if |segs| == 1 then segs[0]
    else segs[0] + "/" + Join(segs[1..])
  }

  predicate NoSlash(segs: seq<string>) {
    forall i :: 0 <= i < |segs| ==> '/' !in segs[i]
  }

  lemma {:induction false} SplitHasNoSlash(s: string)
    ensures NoSlash(Split(s))
  {
    if s != "" { SplitHasNoSlash(s[1..]); }
  }

  lemma ConsAppend(c: char, x: string, y: string)
    ensures ([c] + x) + "/" + y == [c] + (x + "/" + y)
  {
  }

  lemma JoinCons(x: string, rest: seq<string>)
    ensures Join([x] + rest) == if rest == [] then x else x + "/" + Join(rest)
  {
    assert ([x] + rest)[1..] == rest;
  }

  // A character in front goes to the first segment.
  lemma JoinFirst(c: char, rest: seq<string>)
    requires rest != []
    ensures Join([[c] + rest[0]] + rest[1..]) == [c] + Join(rest)
  {
    JoinCons([c] + rest[0], rest[1..]);
    JoinCons(rest[0], rest[1..]);
    assert [rest[0]] + rest[1..] == rest;
    ConsAppend(c, rest[0], Join(rest[1..]));
  }

  lemma {:induction false} JoinSplit(s: string)
    ensures Join(Split(s)) == s
  {
    if s != "" {
      JoinSplit(s[1..]);
      JoinFirst(s[0], Split(s[1..]));
      JoinCons("", Split(s[1..]));
    }
  }

  lemma {:induction false} SplitPlain(a: string)
    requires '/' !in a
    ensures Split(a) == [a]
  {
    if a != "" {
      SplitPlain(a[1..]);
      assert [a[0]] + a[1..] == a;
    }
  }

  // The first segment ends at the first slash.
  lemma {:induction false} SplitFirst(a: string, s: string)
    requires '/' !in a
    ensures Split(a + "/" + s) == [a] + Split(s)
  {
    var w := a + "/" + s;
    if a == "" {
      assert w[1..] == s;
    } else {
      SplitFirst(a[1..], s);
      assert w[1..] == a[1..] + "/" + s;
      var rest := Split(w[1..]);
      assert rest == [a[1..]] + Split(s);
      assert [a[0]] + a[1..] == a;
      assert rest[1..] == Split(s);
    }
  }

  lemma {:induction false} SplitJoin(segs: seq<string>)
    requires segs != [] && NoSlash(segs)
    ensures Split(Join(segs)) == segs
  {
    if |segs| == 1 {
      SplitPlain(segs[0]);
    } else {
      SplitJoin(segs[1..]);
      SplitFirst(segs[0], Join(segs[1..]));
      assert [segs[0]] + segs[1..] == segs;
    }
  }

  lemma {:induction false} JoinAppend(a: seq<string>, b: seq<string>)
    requires a != [] && b != []
    ensures Join(a + b) == Join(a) + "/" + Join(b)
  {
    if |a| == 1 {
      assert (a + b)[1..] == b;
    } else {
      JoinAppend(a[1..], b);
      assert (a + b)[1..] == a[1..] + b;
      assert (a + b)[0] == a[0];
      assert a[0] + "/" + (Join(a[1..]) + "/" + Join(b)) == (a[0] + "/" + Join(a[1..])) + "/" + Join(b);
    }
  }

  lemma SplitAppend(a: string, b: string)
    ensures Split(a + "/" + b) == Split(a) + Split(b)
  {
    SplitHasNoSlash(a);
    SplitHasNoSlash(b);
    JoinSplit(a);
    JoinSplit(b);
    JoinAppend(Split(a), Split(b));
    SplitJoin(Split(a) + Split(b));
  }

  // One step of path.Clean: drop "" and ".", let ".." remove the segment before it.
  function CleanStep(stack: seq<string>, seg: string, rooted: bool): seq<string> {
    if seg == "" || seg == "." then stack
    else if seg == ".." then
      if stack != [] && stack[|stack| - 1] != ".." then stack[..|stack| - 1]
      else if rooted then stack
      else stack + [".."]
    else stack + [seg]
  }

  function CleanFold(stack: seq<string>, segs: seq<string>, rooted: bool): seq<string>
    decreases |segs|
  {
    if segs == [] then stack
    else CleanFold(CleanStep(stack, segs[0], rooted), segs[1..], rooted)
  }

  function CleanSegments(s: string): seq<string> {
    CleanFold([], Split(s), s != "" && s[0] == '/')
  }

  // path.Clean
  function Clean(s: string): string {
    if s != "" && s[0] == '/' then "/" + Join(CleanSegments(s))
    else if CleanSegments(s) == [] then "."
    else Join(CleanSegments(s))
  }

  lemma {:induction false} CleanFoldAppend(stack: seq<string>, a: seq<string>, b: seq<string>, rooted: bool)
    ensures CleanFold(stack, a + b, rooted) == CleanFold(CleanFold(stack, a, rooted), b, rooted)
    decreases |a|
  {
    if a == [] {
      assert a + b == b;
    } else {
      assert (a + b)[0] == a[0] && (a + b)[1..] == a[1..] + b;
      CleanFoldAppend(CleanStep(stack, a[0], rooted), a[1..], b, rooted);
    }
  }

  // A clean list of segments passes through unchanged.
  lemma {:induction false} CleanFoldPlain(stack: seq<string>, segs: seq<string>, rooted: bool)
    requires CleanPath(segs)
    ensures CleanFold(stack, segs, rooted) == stack + segs
    decreases |segs|
  {
    if segs == [] {
      assert stack + segs == stack;
    } else {
      assert PlainSegment(segs[0]);
      CleanFoldPlain(stack + [segs[0]], segs[1..], rooted);
      assert stack + [segs[0]] + segs[1..] == stack + segs;
    }
  }

  // What a relative clean leaves: k climbs, then plain segments.
  ghost predicate ClimbsThenPlain(stack: seq<string>, k: nat) {
    k <= |stack| && (forall i :: 0 <= i < k ==> stack[i] == "..") && (forall i :: k <= i < |stack| ==> PlainSegment(stack[i]))
  }

  lemma {:induction false} CleanFoldShape(stack: seq<string>, k: nat, segs: seq<string>) returns (k': nat)
    requires ClimbsThenPlain(stack, k) && NoSlash(segs)
    ensures ClimbsThenPlain(CleanFold(stack, segs, false), k')
    decreases |segs|
  {
    if segs == [] { return k; }
    var next := CleanStep(stack, segs[0], false);
    var climbs := if segs[0] == ".." && (stack == [] || stack[|stack| - 1] == "..") then k + 1 else k;
    k' := CleanFoldShape(next, climbs, segs[1..]);
  }

  // A rooted clean only ever leaves plain segments.
  lemma {:induction false} RootedCleanIsClean(stack: seq<string>, segs: seq<string>)
    requires CleanPath(stack) && NoSlash(segs)
    ensures CleanPath(CleanFold(stack, segs, true))
    decreases |segs|
  {
    if segs != [] {
      RootedCleanIsClean(CleanStep(stack, segs[0], true), segs[1..]);
    }
  }

  // How the first characters show in the first segment.
  lemma SplitHead(s: string)
    ensures s == "" || s[0] == '/' ==> Split(s)[0] == ""
    ensures s == "." ==> Split(s) == ["."]
    ensures s == ".." || "../" <= s ==> Split(s)[0] == ".."
  {
    if s == "." || s == ".." { SplitPlain(s); }
    if "../" <= s {
      assert s == ".." + "/" + s[3..];
      SplitFirst("..", s[3..]);
    }
  }

  lemma SplitTail(s: string)
    ensures s != "" && s[|s| - 1] == '/' ==> Split(s) == Split(s[..|s| - 1]) + [""]
  {
    if s != "" && s[|s| - 1] == '/' {
      assert s == s[..|s| - 1] + "/" + "";
      SplitAppend(s[..|s| - 1], "");
    }
  }

  // A name made of plain segments starts and ends plainly.
  lemma PlainEnds(s: string)
    requires CleanPath(Split(s))
    ensures s != "" && s[0] != '/' && s[|s| - 1] != '/'
    ensures s != "." && s != ".." && !("../" <= s)
  {
    SplitHead(s);
    SplitTail(s);
    assert PlainSegment(Split(s)[0]);
    assert PlainSegment(Split(s)[|Split(s)| - 1]);
  }
}
