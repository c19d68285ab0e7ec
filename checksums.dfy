/** Finding a file by its SHA-1 digest (`findFileByChecksum` and
    `fileExistsWithSHA1` in internal/manifest/manifest.go; the installer's
    `fileExistsWithSHA1` behaves the same). */
module Checksums {
  import opened Results
  import opened Strings
  import opened Disk

  /** `fileExistsWithSHA1(dir/name, want)`: a missing file is `false`, not an
      error; a directory opens but cannot be read, which is an error. */
  function FileHasDigest(fs: FileSystem, dir: string, name: string, want: string): (r: Result<bool>)
    ensures r == Ok(true) <==> (Stat(fs, dir, name) == Some(Regular(want)) || Stat(fs, dir, name) == Some(Other(want)))
    ensures r.Err? <==> Stat(fs, dir, name) == Some(Directory)
  {
    match Stat(fs, dir, name)
    case None => Ok(false)
    case Some(Directory) => Err(ReadFailed(PathJoin(dir, name)))
    case Some(Regular(d)) => Ok(d == want)
    case Some(Other(d)) => Ok(d == want)
  }

  /** Whether a listed entry is a readable file with the wanted digest;
      directories are skipped by the scan. */
  predicate Matches(e: DirEntry, want: string) {
    !e.node.Directory? && e.node.digest == want
  }

  /** The position of the first matching entry of a listing, if any. */
  function FirstMatch(l: Listing, want: string): (r: Option<nat>)
    ensures r.Some? ==> r.value < |l| && Matches(l[r.value], want)
                        && forall j :: 0 <= j < r.value ==> !Matches(l[j], want)
    ensures r.None? ==> forall j :: 0 <= j < |l| ==> !Matches(l[j], want)
  {
    if |l| == 0 then None
    else if Matches(l[0], want) then Some(0)
    else match FirstMatch(l[1..], want)
         case None => None
         case Some(i) => Some(i + 1)
  }

  /** `findFileByChecksum(dir, want)`: the name of the first file, in listing
      order, whose digest is `want`. */
  function FindByChecksum(fs: FileSystem, dir: string, want: string): (r: Result<string>)
    ensures r.Err? <==> dir !in fs || FirstMatch(fs[dir], want).None?
    ensures r.Err? ==> r.error == (if dir !in fs then ReadDirFailed(dir) else NoChecksumMatch(want, dir))
    ensures r.Ok? ==> r.value == fs[dir][FirstMatch(fs[dir], want).value].name
  {
    if dir !in fs then Err(ReadDirFailed(dir))
    else match FirstMatch(fs[dir], want)
         case None => Err(NoChecksumMatch(want, dir))
         case Some(i) => Ok(fs[dir][i].name)
  }

  /** A found name holds a file with the wanted digest, and no file listed
      before it has that digest. */
  lemma FoundHasDigest(fs: FileSystem, dir: string, want: string)
    requires WellFormed(fs) && FindByChecksum(fs, dir, want).Ok?
    ensures var name := FindByChecksum(fs, dir, want).value;
            FileHasDigest(fs, dir, name, want) == Ok(true)
            && forall j :: 0 <= j < |fs[dir]| && Less(fs[dir][j].name, name) ==> !Matches(fs[dir][j], want)
  {
    var l := fs[dir];
    var i := FirstMatch(l, want).value;
    FindEntry(l, i);
    forall j | 0 <= j < |l| && Less(l[j].name, l[i].name)
      ensures !Matches(l[j], want)
    {
      if j > i {
        SortedLess(l, i, j);
        LessAsymmetric(l[i].name, l[j].name);
      } else if j == i {
        LessIrreflexive(l[i].name);
      }
    }
  }

  /** The class-side scan: `findFileByChecksum` over the disk's current state. */
  method FindFileByChecksum(disk: Disk, dir: string, want: string) returns (r: Result<string>)
    requires disk.Valid()
    ensures r == FindByChecksum(disk.fs, dir, want)
  {
    if dir !in disk.fs {
      return Err(ReadDirFailed(dir));
    }
    var entries := disk.fs[dir];
    var i := 0;
    while i < |entries|
      invariant 0 <= i <= |entries|
      invariant forall j :: 0 <= j < i ==> !Matches(entries[j], want)
    {
      if !entries[i].node.Directory? {
        var ok := FileHasDigest(disk.fs, dir, entries[i].name, want);
        FindEntry(entries, i);
        if ok == Ok(true) {
          return Ok(entries[i].name);
        }
      }
      i := i + 1;
    }
    return Err(NoChecksumMatch(want, dir));
  }
}
