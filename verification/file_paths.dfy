// Absolute, cleaned paths as segment lists, and the containment test the
// server applies to every path it derives from a request or an archive.

module FilePaths {

  // "/srv/web/a.html" is ["srv", "web", "a.html"]; the file system root is [].
  type Path = seq<string>

  function Parent(p: Path): Path
    requires p != []
  {
    p[..|p| - 1]
  }

  // Proper prefix: p is a directory somewhere above q.
  predicate Above(p: Path, q: Path) {
    p <= q && p != q
  }

  // The number of leading segments two paths share.
  function Common(a: Path, b: Path): nat {
    if a == [] || b == [] || a[0] != b[0] then 0 else 1 + Common(a[1..], b[1..])
  }

  lemma {:induction false} CommonIsPrefix(a: Path, b: Path)
    ensures Common(a, b) <= |a| && Common(a, b) <= |b|
    ensures a[..Common(a, b)] == b[..Common(a, b)]
    ensures a <= b <==> Common(a, b) == |a|
  {
    if a == [] || b == [] || a[0] != b[0] {
    } else {
      var c := Common(a[1..], b[1..]);
      CommonIsPrefix(a[1..], b[1..]);
      assert a[..c + 1] == [a[0]] + a[1..][..c] == b[..c + 1];
      assert a <= b <==> a[1..] <= b[1..] by {
        if a <= b { assert b == a + b[|a|..]; assert b[1..] == a[1..] + b[|a|..]; }
        if a[1..] <= b[1..] {
          assert b[1..] == a[1..] + b[1..][|a| - 1..];
          assert b == [b[0]] + b[1..];
          assert a == [a[0]] + a[1..];
          assert b == a + b[1..][|a| - 1..];
        }
      }
    }
  }

  // filepath.Rel on clean absolute paths: one ".." for every root segment
  // below the common prefix, then the rest of the target.
  function Rel(root: Path, target: Path): Path {
    CommonIsPrefix(root, target);
    var c := Common(root, target);
    seq(|root| - c, i => "..") + target[c..]
  }

  // A segment that a file name in a clean path can be.
  predicate PlainSegment(s: string) {
    s != "" && s != "." && s != ".." && '/' !in s
  }

  predicate CleanPath(p: Path) {
    forall i :: 0 <= i < |p| ==> PlainSegment(p[i])
  }

  // pathIsInsideRoot: the relative path is "." (empty here) or does not climb.
  predicate PathIsInsideRoot(root: Path, target: Path) {
    var rel := Rel(root, target);
    rel == [] || rel[0] != ".."
  }

  // The string test on a relative path is exactly the segment-prefix order.
  lemma InsideRootIsPrefix(root: Path, target: Path)
    requires CleanPath(target)
    ensures PathIsInsideRoot(root, target) <==> root <= target
  {
    CommonIsPrefix(root, target);
    var c := Common(root, target);
    if c < |root| {
      assert Rel(root, target)[0] == "..";
    } else if target[c..] != [] {
      assert Rel(root, target)[0] == target[c];
    }
  }
}
