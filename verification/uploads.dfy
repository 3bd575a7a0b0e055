// saveUploadedMedia: media files are named by the hash of their content; a save that
// fails later removes what it wrote.

module Uploads {
  import opened FilePaths
  import opened FileTree
  import opened CopyDirectories

  const HASH_LENGTH := 64

  // The hexadecimal SHA-256 of a content: a string of fixed length.
  type HashFn = string -> string

  ghost predicate FixedLength(hash: HashFn) {
    forall c :: |hash(c)| == HASH_LENGTH
  }

  // No file in the media directory has the hash of another content than its own.
  ghost predicate NoCollision(t: Tree, media: Path, hash: HashFn, content: string) {
    forall name: string {:trigger media + [name]} ::
      FileAt(t, media + [name]).Some? && hash(FileAt(t, media + [name]).value) == hash(content) ==>
        FileAt(t, media + [name]) == Some(content)
  }

  // Every media file carries the hash of its content in its name.
  ghost predicate NamedByContent(t: Tree, media: Path, hash: HashFn) {
    forall name: string {:trigger media + [name]} :: FileAt(t, media + [name]).Some? ==>
      hash(FileAt(t, media + [name]).value) <= name
  }

  ghost predicate SameFilesAround(t: Tree, t': Tree, p: Path) {
    forall q :: q != p ==> FileAt(t', q) == FileAt(t, q)
  }

  lemma WriteChangesOne(t: Tree, t': Tree, p: Path, content: string, mode: nat)
    requires OnlyWrote(t, t', p, File(content, mode))
    ensures SameFilesAround(t, t', p)
    ensures FileAt(t', p) == FileAt(t, p) || FileAt(t', p) == Some(content)
  {
  }

  lemma SameNameSameContent(t: Tree, media: Path, hash: HashFn, content: string, ext: string)
    requires FixedLength(hash) && NoCollision(t, media, hash, content) && NamedByContent(t, media, hash)
    ensures FileAt(t, media + [hash(content) + ext]).Some? ==> FileAt(t, media + [hash(content) + ext]) == Some(content)
  {
    var name := hash(content) + ext;
    if FileAt(t, media + [name]).Some? {
      var there := FileAt(t, media + [name]).value;
      assert hash(there) == name[..HASH_LENGTH] == hash(content);
    }
  }

  // An upload touches its own media file and its own sidecar.
  ghost predicate OnlyUpload(t: Tree, t': Tree, target: Path, sidecar: Path) {
    forall q :: q != target && q != sidecar ==> FileAt(t', q) == FileAt(t, q)
  }

  lemma StaysNamed(t: Tree, t': Tree, media: Path, sidecar: Path, hash: HashFn, content: string, ext: string)
    requires NamedByContent(t, media, hash) && OnlyUpload(t, t', media + [hash(content) + ext], sidecar)
    requires Apart(media, sidecar)
    requires FileAt(t', media + [hash(content) + ext]) in {FileAt(t, media + [hash(content) + ext]), Some(content), None}
    ensures NamedByContent(t', media, hash)
  {
    forall name: string {:trigger media + [name]} | FileAt(t', media + [name]).Some?
      ensures hash(FileAt(t', media + [name]).value) <= name
    {
      ApartAppend(media, sidecar, [name]);
      if name != hash(content) + ext {
        assert (media + [name])[|media|] == name;
        assert media + [name] != media + [hash(content) + ext];
      }
    }
  }

  // os.Remove, its error ignored.
  method Discard(disk: Disk, p: Path)
    requires Closed(disk.tree) && p != []
    modifies disk
    ensures Closed(disk.tree) && SameFilesAround(old(disk.tree), disk.tree, p)
    ensures FileAt(disk.tree, p) == FileAt(old(disk.tree), p) || FileAt(disk.tree, p) == None
    ensures disk.faults == old(disk.faults) ==> FileAt(disk.tree, p) == None
    ensures old(disk.faults) <= disk.faults
  {
    ghost var t := disk.tree;
    if p in t && t[p].File? { FileIsLeaf(t, p); }
    var e := disk.Remove(p);
  }

  lemma FileIsLeaf(t: Tree, p: Path)
    requires Closed(t) && p in t && !t[p].Dir?
    ensures !HasChild(t, p)
  {
  }

  // pathExists: any error reads as "not there".
  method PathExists(disk: Disk, p: Path) returns (there: bool)
    modifies disk`faults
    ensures there ==> p in disk.tree
    ensures disk.faults == old(disk.faults) ==> (there <==> p in disk.tree)
    ensures old(disk.faults) <= disk.faults
  {
    var e, _ := disk.Lstat(p);
    there := e == None;
  }

  // cleanupWrittenUpload
  method Cleanup(disk: Disk, media: Path, sidecar: Option<Path>, mediaPreexisting: bool, sidecarPreexisting: bool)
    requires Closed(disk.tree) && media != [] && (sidecar.Some? ==> sidecar.value != [] && sidecar.value != media)
    modifies disk
    ensures Closed(disk.tree)
    ensures forall q :: q != media && (sidecar.Some? ==> q != sidecar.value) ==> FileAt(disk.tree, q) == FileAt(old(disk.tree), q)
    ensures FileAt(disk.tree, media) == FileAt(old(disk.tree), media) || (!mediaPreexisting && FileAt(disk.tree, media) == None)
    ensures disk.faults == old(disk.faults) && !mediaPreexisting ==> FileAt(disk.tree, media) == None
    ensures disk.faults == old(disk.faults) && sidecar.Some? && !sidecarPreexisting ==> FileAt(disk.tree, sidecar.value) == None
    ensures old(disk.faults) <= disk.faults
  {
    if sidecar.Some? && !sidecarPreexisting { Discard(disk, sidecar.value); }
    if !mediaPreexisting { Discard(disk, media); }
  }

  ghost predicate NoLinkAt(t: Tree, p: Path) {
    p in t ==> !t[p].Symlink?
  }

  // What happened to the database row.
  datatype Database = NotConfigured | RowSaved | RowFailed

  // The part of saveUploadedMedia after the media file is written.
  method RecordUpload(disk: Disk, target: Path, sidecar: Path, mediaPreexisting: bool, metadata: string, database: Database)
    returns (ok: bool)
    requires Closed(disk.tree) && target != [] && sidecar != [] && target != sidecar
    modifies disk
    ensures Closed(disk.tree) && OnlyUpload(old(disk.tree), disk.tree, target, sidecar)
    ensures ok ==> database != RowFailed && FileAt(disk.tree, target) == FileAt(old(disk.tree), target)
    ensures ok ==> FileAt(disk.tree, sidecar) == Some(metadata)
    ensures FileAt(disk.tree, target) == FileAt(old(disk.tree), target) || (!mediaPreexisting && FileAt(disk.tree, target) == None)
    ensures !ok && disk.faults == old(disk.faults) && !mediaPreexisting ==> FileAt(disk.tree, target) == None
    ensures old(disk.faults) <= disk.faults
  {
    ghost var t := disk.tree;
    var sidecarPreexisting := PathExists(disk, sidecar);
    var err := disk.AtomicWriteFile(sidecar, metadata, 0x180);
    WriteChangesOne(t, disk.tree, sidecar, metadata, 0x180);
    if err != None {
      Cleanup(disk, target, None, mediaPreexisting, true);
      return false;
    }
    if database == RowFailed {
      Cleanup(disk, target, Some(sidecar), mediaPreexisting, sidecarPreexisting);
      return false;
    }
    ok := true;
  }

  // saveUploadedMedia, after the content has been validated.
  method SaveUploadedMedia(disk: Disk, media: Path, sidecars: Path, hash: HashFn, content: string, ext: string,
                           metadata: string, database: Database)
    returns (ok: bool)
    requires Closed(disk.tree) && Apart(media, sidecars) && FixedLength(hash)
    requires NamedByContent(disk.tree, media, hash) && NoCollision(disk.tree, media, hash, content)
    modifies disk
    ensures Closed(disk.tree) && NamedByContent(disk.tree, media, hash)
    ensures ok ==> database != RowFailed && FileAt(disk.tree, media + [hash(content) + ext]) == Some(content)
    ensures ok ==> FileAt(disk.tree, sidecars + [hash(content) + ext + ".json"]) == Some(metadata)
    ensures OnlyUpload(old(disk.tree), disk.tree, media + [hash(content) + ext], sidecars + [hash(content) + ext + ".json"])
    ensures FileAt(disk.tree, media + [hash(content) + ext])
      in {FileAt(old(disk.tree), media + [hash(content) + ext]), Some(content), None}
    ensures !ok && disk.faults == old(disk.faults) && NoLinkAt(old(disk.tree), media + [hash(content) + ext]) ==>
      FileAt(disk.tree, media + [hash(content) + ext]) == FileAt(old(disk.tree), media + [hash(content) + ext])
    ensures old(disk.faults) <= disk.faults
  {
    var name := hash(content) + ext;
    var target, sidecar := media + [name], sidecars + [name + ".json"];
    ghost var t := disk.tree;
    assert Parent(target) == media;
    SameNameSameContent(t, media, hash, content, ext);
    var mediaPreexisting := PathExists(disk, target);
    var err := disk.AtomicWriteFile(target, content, 0x1A4);
    ghost var t1 := disk.tree;
    WriteChangesOne(t, t1, target, content, 0x1A4);
    ApartAppend(sidecars, media, [name + ".json"]);
    ApartAppend(media, sidecar, [name]);
    if err != None {
      if disk.faults == old(disk.faults) { DirsAreNoFiles(t, t1, media); }
      ok := false;
    } else {
      ok := RecordUpload(disk, target, sidecar, mediaPreexisting, metadata, database);
    }
    StaysNamed(t, disk.tree, media, sidecar, hash, content, ext);
  }

  // Such a hash and such a media directory exist, with another file already there.
  lemma UploadsArePossible(media: string, present: string, content: string, ext: string)
      returns (hash: HashFn, t: Tree)
    requires present != content
    ensures Closed(t) && FixedLength(hash) && NamedByContent(t, [media], hash) && NoCollision(t, [media], hash, content)
    ensures FileAt(t, [media, hash(present) + ext]) == Some(present) && FileAt(t, [media, hash(content) + ext]) == None
  {
    hash := c => seq(HASH_LENGTH, _ => if c == content then '1' else '0');
    var name := hash(present) + ext;
    t := map[[] := Dir, [media] := Dir, [media, name] := File(present, 0)];
    assert Parent([media, name]) == [media] && Parent([media]) == [];
    assert hash(present)[0] == '0' && hash(content)[0] == '1';
    assert (hash(content) + ext)[0] == '1' && name[0] == '0';
    forall n: string ensures [media] + [n] in t <==> n == name {
      assert [media] + [n] == [media, n];
      assert [media, n][1] == n && [media, name][1] == name;
    }
    assert [media, hash(content) + ext][1] != [media, name][1];
  }

  // ---- sanitizeUploadFileName ----

  predicate SafeChar(c: char) {
    'a' <= c <= 'z' || 'A' <= c <= 'Z' || '0' <= c <= '9' || c in "._-"
  }

  predicate AllSafe(s: string) {
    forall i :: 0 <= i < |s| ==> SafeChar(s[i])
  }

  // The white space of the first 256 code points.
  predicate IsSpace(c: char) {
    c == ' ' || '\t' <= c <= '\r' || c as int == 0x85 || c as int == 0xA0
  }

  // What the loop makes of the characters of a name.
  function Kept(s: string): (kept: string)
    ensures AllSafe(kept)
  {
    if s == "" then ""
    else Kept(s[..|s| - 1]) + (if SafeChar(s[|s| - 1]) then [s[|s| - 1]] else if IsSpace(s[|s| - 1]) then "-" else "")
  }

  // strings.Trim(s, ".-")
  function TrimDotsAndDashes(s: string): (t: string)
    ensures AllSafe(s) ==> AllSafe(t)
    ensures t != "" ==> t[0] !in ".-" && t[|t| - 1] !in ".-"
  {
    if s == "" then s
    else if s[0] in ".-" then TrimDotsAndDashes(s[1..])
    else if s[|s| - 1] in ".-" then TrimDotsAndDashes(s[..|s| - 1])
    else s
  }

  // filepath.Ext of a name without slashes: from its last dot.
  function Ext(s: string): (e: string)
    ensures |e| <= |s| && s[|s| - |e|..] == e
    ensures e != "" ==> e[0] == '.'
  {
    if s == "" then "" else if s[|s| - 1] == '.' then "." else
      var shorter := Ext(s[..|s| - 1]);
      if shorter == "" then "" else shorter + [s[|s| - 1]]
  }

  const MAX_NAME := 128

  lemma {:induction false} SafeIsKept(s: string)
    requires AllSafe(s)
    ensures Kept(s) == s
  {
    if s != "" {
      SafeIsKept(s[..|s| - 1]);
      assert s == s[..|s| - 1] + [s[|s| - 1]];
    }
  }

  // What sanitizeUploadFileName does with a long name: the stem is cut, a short
  // extension stays.
  method Shorten(long: string) returns (safe: string)
    requires |long| > MAX_NAME && AllSafe(long) && long[0] !in ".-"
    ensures safe != "" && |safe| <= MAX_NAME && AllSafe(safe) && safe[0] == long[0]
    ensures |Ext(long)| <= 16 ==> safe == long[..MAX_NAME - |Ext(long)|] + Ext(long)
  {
    var ext := Ext(long);
    var stem := long[..|long| - |ext|];
    if |ext| > 16 { ext := ""; }
    var room := MAX_NAME - |ext|;
    if |stem| > room { stem := stem[..room]; }
    assert stem <= long;
    if |Ext(long)| <= 16 { assert stem == long[..room]; }
    safe := stem + ext;
  }

  // Its loop.
  method KeepSafe(base: string) returns (builder: string)
    ensures builder == Kept(base)
  {
    builder := "";
    for i := 0 to |base|
      invariant builder == Kept(base[..i])
    {
      assert base[..i + 1][..i] == base[..i];
      if SafeChar(base[i]) { builder := builder + [base[i]]; }
      else if IsSpace(base[i]) { builder := builder + "-"; }
    }
    assert base[..|base|] == base;
  }

  predicate IsSafeName(s: string) {
    s != "" && |s| <= MAX_NAME && AllSafe(s) && s[0] !in ".-"
  }

  lemma DefaultIsSafe()
    ensures IsSafeName("upload") && TrimDotsAndDashes("upload") == "upload"
  {
  }

  // sanitizeUploadFileName; `trimmed` is the last path element without white space
  // around it.  The result names a file whatever was uploaded, and a name that
  // already is one stays.
  method SanitizeFileName(trimmed: string) returns (safe: string)
    ensures IsSafeName(safe)
    ensures IsSafeName(trimmed) && TrimDotsAndDashes(trimmed) == trimmed ==> safe == trimmed
  {
    if trimmed == "." || trimmed == "/" || trimmed == "" {
      DefaultIsSafe();
      safe := "upload";  // which the loop would leave as it is
      assert IsSafeName(trimmed) ==> trimmed[0] !in ".-" && SafeChar(trimmed[0]);
      return;
    }
    safe := KeepSafe(trimmed);
    if AllSafe(trimmed) { SafeIsKept(trimmed); }
    safe := TrimDotsAndDashes(safe);
    if safe == "" {
      DefaultIsSafe();
      return "upload";
    }
    if |safe| > MAX_NAME { safe := Shorten(safe); }
  }

  // Such a name is a plain file name: no slash, no climbing, not hidden.
  lemma SafeNameIsPlain(safe: string)
    requires IsSafeName(safe)
    ensures PlainSegment(safe)
  {
    assert "."[0] == '.' && ".."[0] == '.';
  }
}
