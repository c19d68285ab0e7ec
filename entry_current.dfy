/** `Entry.Current` (internal/manifest/entry_current.go): which file in the
    entry's directory currently belongs to it, judged by name alone. */
module EntryCurrent {
  import opened Strings
  import opened Results
  import opened Disk
  import opened ManifestTypes

  /** A listing entry that `Current` accepts: a regular file whose name starts
      with the prefix. */
  predicate Owned(d: DirEntry, prefix: string) {
    d.node.Regular? && HasPrefix(d.name, prefix)
  }

  /** The position of the first accepted entry, or the length when none is. */
  function FirstOwned(l: Listing, prefix: string): (k: nat)
    ensures k <= |l|
    ensures k < |l| ==> Owned(l[k], prefix)
    ensures forall j :: 0 <= j < k ==> !Owned(l[j], prefix)
  {
    if |l| == 0 then 0
    else if Owned(l[0], prefix) then 0
    else 1 + FirstOwned(l[1..], prefix)
  }

  /** The name `Current` answers for the entry: an unreadable directory and a
      directory without a match both give "". */
  function CurrentFile(fs: FileSystem, gameDir: string, e: Entry): string {
    var dir := PathJoin(gameDir, e.dest);
    if dir !in fs then ""
    else
      var k := FirstOwned(fs[dir], e.slug + "-");
      if k < |fs[dir]| then fs[dir][k].name else ""
  }

  /** `Current(gameDir)`: scans the listing in name order. */
  method Current(disk: Disk, gameDir: string, e: Entry) returns (name: string)
    ensures name == CurrentFile(disk.fs, gameDir, e)
  {
    var dir := PathJoin(gameDir, e.dest);
    if dir !in disk.fs {
      return "";
    }
    var ents := disk.fs[dir];
    var prefix := e.slug + "-";
    var i := 0;
    while i < |ents|
      invariant 0 <= i <= |ents|
      invariant forall j :: 0 <= j < i ==> !Owned(ents[j], prefix)
    {
      if ents[i].node.Regular? && HasPrefix(ents[i].name, prefix) {
        return ents[i].name;
      }
      i := i + 1;
    }
    return "";
  }

  /** What `Current` promises: a non-empty answer is a regular file in the
      entry's directory whose name starts with "<slug>-", and no such file has
      a smaller name; the answer is empty exactly when there is no such file. */
  lemma CurrentIsFirstOwned(fs: FileSystem, gameDir: string, e: Entry)
    requires WellFormed(fs)
    ensures var dir := PathJoin(gameDir, e.dest);
            var name := CurrentFile(fs, gameDir, e);
            (name != "" ==>
               Stat(fs, dir, name).Some? && Stat(fs, dir, name).value.Regular?
               && HasPrefix(name, e.slug + "-")
               && forall j :: 0 <= j < |fs[dir]| && Owned(fs[dir][j], e.slug + "-") ==>
                    fs[dir][j].name == name || Less(name, fs[dir][j].name))
            && (name == "" <==>
                  dir !in fs || forall j :: 0 <= j < |fs[dir]| ==> !Owned(fs[dir][j], e.slug + "-"))
  {
    var dir := PathJoin(gameDir, e.dest);
    var prefix := e.slug + "-";
    if dir in fs {
      var l := fs[dir];
      var k := FirstOwned(l, prefix);
      if k < |l| {
        FindEntry(l, k);
        forall j | 0 <= j < |l| && Owned(l[j], prefix)
          ensures l[j].name == l[k].name || Less(l[k].name, l[j].name)
        {
          if j > k {
            SortedLess(l, k, j);
          }
        }
      }
    }
  }

  /** A regular file named "<slug>-<rest>" placed in the entry's directory
      makes `Current` non-empty. */
  lemma CurrentFindsPlaced(fs: FileSystem, gameDir: string, e: Entry, rest: string, digest: string)
    requires WellFormed(fs) && PathJoin(gameDir, e.dest) in fs
    requires Stat(fs, PathJoin(gameDir, e.dest), e.slug + "-" + rest) == Some(Regular(digest))
    ensures CurrentFile(fs, gameDir, e) != ""
  {
    var dir := PathJoin(gameDir, e.dest);
    var name := e.slug + "-" + rest;
    var l := fs[dir];
    var i :| 0 <= i < |l| && l[i] == DirEntry(name, Regular(digest));
    assert name[..|e.slug + "-"|] == e.slug + "-";
    assert Owned(l[i], e.slug + "-");
    CurrentIsFirstOwned(fs, gameDir, e);
  }
}
