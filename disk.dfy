/** The part of the file system the core touches: directory listings as
    `os.ReadDir` returns them, and the stat, open, rename, remove and mkdir
    calls the core makes on their entries. A file's content is abstracted to
    its SHA-1 hex digest. */
module Disk {
  import opened Strings
  import opened Results

  /** What a directory entry is: a regular file, a directory, or some other kind
      of entry (a symbolic link, say) that opening reads through to content with
      the given digest. */
  datatype Node = Regular(digest: string) | Directory | Other(digest: string)

  datatype DirEntry = DirEntry(name: string, node: Node)

  /** A directory listing: `os.ReadDir` returns it sorted by name. */
  type Listing = seq<DirEntry>

  /** Each name is less than the next one. */
  predicate Sorted(l: Listing) {
    |l| <= 1 || (Less(l[0].name, l[1].name) && Sorted(l[1..]))
  }

  /** Directories by path. A path that is not a key cannot be read. */
  type FileSystem = map<string, Listing>

  predicate WellFormed(fs: FileSystem) {
    forall d :: d in fs ==> Sorted(fs[d])
  }

  /** Every listed name is non-empty, as on a real disk. */
  predicate NamesNonEmpty(fs: FileSystem) {
    forall d, k :: d in fs && 0 <= k < |fs[d]| ==> fs[d][k].name != ""
  }

  /** `filepath.Join` of two non-empty parts. */
  function PathJoin(dir: string, name: string): string {
    dir + "/" + name
  }

  /** The position of the last '/' in `path`, or -1 when there is none. */
  function LastSlash(path: string): (k: int)
    ensures -1 <= k < |path|
    ensures k >= 0 ==> path[k] == '/'
    ensures forall j :: k < j < |path| ==> path[j] != '/'
    decreases |path|
  {
    if |path| == 0 then -1
    else if path[|path| - 1] == '/' then |path| - 1
    else LastSlash(path[..|path| - 1])
  }

  /** `filepath.Dir`: everything before the last separator, "/" for a path
      directly under the root, "." for a bare name. */
  function DirOf(path: string): string {
    var k := LastSlash(path);
    if k < 0 then "." else if k == 0 then "/" else path[..k]
  }

  /** The last element of a path: everything after its last '/'. */
  function BaseOf(path: string): (b: string)
    ensures forall i :: 0 <= i < |b| ==> b[i] != '/'
  {
    path[LastSlash(path) + 1..]
  }

  /** The directory of a joined path is the directory it was joined to. */
  lemma DirOfJoin(dir: string, name: string)
    requires dir != "" && forall i :: 0 <= i < |name| ==> name[i] != '/'
    ensures DirOf(PathJoin(dir, name)) == dir
  {
    var p := PathJoin(dir, name);
    assert p[|dir|] == '/';
    assert forall j :: |dir| < j < |p| ==> p[j] == name[j - |dir| - 1];
    assert LastSlash(p) == |dir|;
    assert p[..|dir|] == dir;
  }

  /** The last element of a joined path is the name that was joined. */
  lemma BaseOfJoin(dir: string, name: string)
    requires forall i :: 0 <= i < |name| ==> name[i] != '/'
    ensures BaseOf(PathJoin(dir, name)) == name
  {
    var p := PathJoin(dir, name);
    assert p[|dir|] == '/';
    assert forall j :: |dir| < j < |p| ==> p[j] == name[j - |dir| - 1];
    assert LastSlash(p) == |dir|;
    assert p[|dir| + 1..] == name;
  }

  /** The entry named `name`, if any. */
  function Find(l: Listing, name: string): (r: Option<Node>)
    ensures r.Some? ==> DirEntry(name, r.value) in l
    ensures r.None? ==> forall i :: 0 <= i < |l| ==> l[i].name != name
  {
    if |l| == 0 then None
    else if l[0].name == name then Some(l[0].node)
    else Find(l[1..], name)
  }

  /** `os.Stat` of `dir/name`: what is there, or nothing. */
  function Stat(fs: FileSystem, dir: string, name: string): Option<Node> {
    if dir in fs then Find(fs[dir], name) else None
  }

  /** The first entry of a sorted listing has the least name. */
  lemma {:induction false} HeadLeast(l: Listing, k: int)
    requires Sorted(l) && 0 < k < |l|
    ensures Less(l[0].name, l[k].name)
  {
    if k > 1 {
      HeadLeast(l[1..], k - 1);
      LessTransitive(l[0].name, l[1].name, l[k].name);
    }
  }

  /** In a sorted listing names are distinct. */
  lemma {:induction false} SortedDistinct(l: Listing, i: int, j: int)
    requires Sorted(l) && 0 <= i < j < |l|
    ensures l[i].name != l[j].name
  {
    if i == 0 {
      HeadLeast(l, j);
      LessIrreflexive(l[0].name);
    } else {
      SortedDistinct(l[1..], i - 1, j - 1);
    }
  }

  /** Names in a sorted listing increase strictly from left to right. */
  lemma {:induction false} SortedLess(l: Listing, i: int, j: int)
    requires Sorted(l) && 0 <= i < j < |l|
    ensures Less(l[i].name, l[j].name)
  {
    if i == 0 {
      HeadLeast(l, j);
    } else {
      SortedLess(l[1..], i - 1, j - 1);
    }
  }

  /** Looking up a listed name finds that entry's node. */
  lemma {:induction false} FindEntry(l: Listing, i: int)
    requires Sorted(l) && 0 <= i < |l|
    ensures Find(l, l[i].name) == Some(l[i].node)
  {
    if i > 0 {
      SortedDistinct(l, 0, i);
      FindEntry(l[1..], i - 1);
    }
  }

  /** The name at the head of a sorted listing occurs nowhere else in it. */
  lemma {:induction false} HeadAbsentFromTail(l: Listing)
    requires Sorted(l) && |l| > 0
    ensures Find(l[1..], l[0].name).None?
  {
    forall k | 0 <= k < |l[1..]| ensures l[1..][k].name != l[0].name {
      SortedDistinct(l, 0, k + 1);
    }
  }

  /** Drops the entries named `name`. */
  function Remove(l: Listing, name: string): (r: Listing)
    ensures |r| <= |l|
    ensures forall i :: 0 <= i < |r| ==> r[i] in l && r[i].name != name
    ensures forall i :: 0 <= i < |l| && l[i].name != name ==> l[i] in r
  {
    if |l| == 0 then []
    else if l[0].name == name then Remove(l[1..], name)
    else [l[0]] + Remove(l[1..], name)
  }

  lemma {:induction false} RemoveSorted(l: Listing, name: string)
    requires Sorted(l)
    ensures Sorted(Remove(l, name))
  {
    if |l| > 0 {
      RemoveSorted(l[1..], name);
      var rest := Remove(l[1..], name);
      if l[0].name != name && |rest| > 0 {
        var k :| 0 <= k < |l[1..]| && l[1..][k] == rest[0];
        HeadLeast(l, k + 1);
        assert ([l[0]] + rest)[1..] == rest;
      }
    }
  }

  /** Adds an entry under a name not yet present, in its sorted place. */
  function Insert(l: Listing, e: DirEntry): (r: Listing)
    requires Sorted(l) && Find(l, e.name).None?
    ensures Sorted(r)
    ensures |r| == |l| + 1
    ensures r[0] == e || (|l| > 0 && r[0] == l[0])
  {
    if |l| == 0 then [e]
    else if Less(e.name, l[0].name) then [e] + l
    else
      LessTotal(e.name, l[0].name);
      var rest := Insert(l[1..], e);
      assert ([l[0]] + rest)[1..] == rest;
      [l[0]] + rest
  }

  /** Looking up after removing or inserting. */
  lemma {:induction false} FindRemove(l: Listing, name: string, x: string)
    ensures Find(Remove(l, name), x) == if x == name then None else Find(l, x)
  {
    if |l| > 0 {
      FindRemove(l[1..], name, x);
    }
  }

  lemma {:induction false} FindInsert(l: Listing, e: DirEntry, x: string)
    requires Sorted(l) && Find(l, e.name).None?
    ensures Find(Insert(l, e), x) == if x == e.name then Some(e.node) else Find(l, x)
  {
    if |l| > 0 && !Less(e.name, l[0].name) {
      FindInsert(l[1..], e, x);
    }
  }

  lemma {:induction false} RemoveAbsent(l: Listing, name: string)
    requires Find(l, name).None?
    ensures Remove(l, name) == l
  {
    if |l| > 0 {
      RemoveAbsent(l[1..], name);
    }
  }

  /** Removing what was just inserted gives back the listing. */
  lemma {:induction false} RemoveInsert(l: Listing, e: DirEntry)
    requires Sorted(l) && Find(l, e.name).None?
    ensures Remove(Insert(l, e), e.name) == l
  {
    if |l| > 0 {
      if Less(e.name, l[0].name) {
        RemoveAbsent(l, e.name);
      } else {
        RemoveInsert(l[1..], e);
      }
    }
  }

  /** Putting an entry back where it was removed from gives back the listing. */
  lemma {:induction false} InsertRemove(l: Listing, i: int)
    requires Sorted(l) && 0 <= i < |l|
    ensures Sorted(Remove(l, l[i].name)) && Find(Remove(l, l[i].name), l[i].name).None?
    ensures Insert(Remove(l, l[i].name), l[i]) == l
    decreases |l|, 1
  {
    FindRemove(l, l[i].name, l[i].name);
    RemoveSorted(l, l[i].name);
    if i == 0 {
      InsertRemoveHead(l);
    } else {
      InsertRemoveBehind(l, i);
    }
  }

  /** An entry behind the head goes back where it was, by induction on the tail. */
  lemma {:induction false} InsertRemoveBehind(l: Listing, i: int)
    requires Sorted(l) && 0 < i < |l|
    requires Sorted(Remove(l, l[i].name)) && Find(Remove(l, l[i].name), l[i].name).None?
    ensures Insert(Remove(l, l[i].name), l[i]) == l
    decreases |l|, 0
  {
    assert l[1..][i - 1] == l[i];
    InsertRemove(l[1..], i - 1);
    InsertRemoveStep(l, i);
  }

  /** The head of a listing goes back in front of the rest. */
  lemma {:induction false} InsertRemoveHead(l: Listing)
    requires Sorted(l) && |l| > 0
    requires Sorted(Remove(l, l[0].name)) && Find(Remove(l, l[0].name), l[0].name).None?
    ensures Insert(Remove(l, l[0].name), l[0]) == l
  {
    HeadAbsentFromTail(l);
    RemoveAbsent(l[1..], l[0].name);
    assert Remove(l, l[0].name) == l[1..];
    assert |l| > 1 ==> Less(l[0].name, l[1..][0].name);
    assert l == [l[0]] + l[1..];
  }

  /** One step of InsertRemove: an entry behind the head goes back behind it. */
  lemma {:induction false} InsertRemoveStep(l: Listing, i: int)
    requires Sorted(l) && 0 < i < |l|
    requires Sorted(Remove(l, l[i].name)) && Find(Remove(l, l[i].name), l[i].name).None?
    requires Sorted(Remove(l[1..], l[i].name)) && Find(Remove(l[1..], l[i].name), l[i].name).None?
    requires Insert(Remove(l[1..], l[i].name), l[i]) == l[1..]
    ensures Insert(Remove(l, l[i].name), l[i]) == l
  {
    var e := l[i];
    assert l[0].name != e.name by { SortedDistinct(l, 0, i); }
    var tail := Remove(l[1..], e.name);
    assert Remove(l, e.name) == [l[0]] + tail;
    HeadLeast(l, i);
    LessAsymmetric(l[0].name, e.name);
    assert ([l[0]] + tail)[1..] == tail;
    assert l == [l[0]] + l[1..];
  }

  /** Why `os.Rename(dir/from, dir/to)` fails in the model: the source is missing,
      or an existing directory is replaced or would replace an existing entry.
      (A rename onto an empty directory, which POSIX allows, is not modelled.) */
  function RenameError(fs: FileSystem, dir: string, from: string, to: string): Option<Error> {
    var src := Stat(fs, dir, from);
    var dst := Stat(fs, dir, to);
    if src.None? then Some(RenameFailed(PathJoin(dir, from), PathJoin(dir, to)))
    else if from != to && dst.Some? && (dst.value.Directory? || src.value.Directory?) then
      Some(RenameFailed(PathJoin(dir, from), PathJoin(dir, to)))
    else None
  }

  /** The listing after a successful rename within one directory. */
  function Renamed(fs: FileSystem, dir: string, from: string, to: string): (r: FileSystem)
    requires WellFormed(fs) && RenameError(fs, dir, from, to).None?
    ensures WellFormed(r) && r.Keys == fs.Keys
    ensures forall d :: d in fs && d != dir ==> r[d] == fs[d]
  {
    var l := fs[dir];
    var node := Find(l, from).value;
    RemoveSorted(l, from);
    RemoveSorted(Remove(l, from), to);
    FindRemove(Remove(l, from), to, to);
    fs[dir := Insert(Remove(Remove(l, from), to), DirEntry(to, node))]
  }

  /** After a rename the node sits under the new name and the old name is gone. */
  lemma {:induction false} RenamedStat(fs: FileSystem, dir: string, from: string, to: string, x: string)
    requires WellFormed(fs) && RenameError(fs, dir, from, to).None?
    ensures Stat(Renamed(fs, dir, from, to), dir, x) ==
              if x == to then Stat(fs, dir, from)
              else if x == from then None
              else Stat(fs, dir, x)
  {
    var l := fs[dir];
    var node := Find(l, from).value;
    RemoveSorted(l, from);
    RemoveSorted(Remove(l, from), to);
    FindRemove(Remove(l, from), to, to);
    FindInsert(Remove(Remove(l, from), to), DirEntry(to, node), x);
    FindRemove(Remove(l, from), to, x);
    FindRemove(l, from, x);
  }

  /** A listing with `a` moved to the free name `b` and back is unchanged. */
  lemma {:induction false} ListingRenameBack(l: Listing, a: string, b: string)
    requires Sorted(l) && Find(l, a).Some? && Find(l, b).None? && a != b
    ensures var node := Find(l, a).value;
            var rest := Remove(l, a);
            Sorted(rest) && Find(rest, b).None? && Find(rest, a).None? && Remove(rest, b) == rest
            && var moved := Insert(rest, DirEntry(b, node));
               Find(moved, a).None? && Find(moved, b) == Some(node)
               && Remove(Remove(moved, b), a) == rest
               && Insert(rest, DirEntry(a, node)) == l
  {
    var node := Find(l, a).value;
    var rest := Remove(l, a);
    RemoveSorted(l, a);
    FindRemove(l, a, b);
    FindRemove(l, a, a);
    RemoveAbsent(rest, b);
    RemoveAbsent(rest, a);
    FindInsert(rest, DirEntry(b, node), a);
    FindInsert(rest, DirEntry(b, node), b);
    RemoveInsert(rest, DirEntry(b, node));
    var idx :| 0 <= idx < |l| && l[idx] == DirEntry(a, node);
    InsertRemove(l, idx);
  }

  /** Renaming to a free name and back restores the file system. */
  lemma {:induction false} RenameBack(fs: FileSystem, dir: string, a: string, b: string)
    requires WellFormed(fs) && RenameError(fs, dir, a, b).None?
    requires a != b && Stat(fs, dir, b).None?
    ensures WellFormed(Renamed(fs, dir, a, b))
    ensures RenameError(Renamed(fs, dir, a, b), dir, b, a).None?
    ensures Renamed(Renamed(fs, dir, a, b), dir, b, a) == fs
  {
    var l := fs[dir];
    var node := Find(l, a).value;
    ListingRenameBack(l, a, b);
    var rest := Remove(l, a);
    var moved := Insert(rest, DirEntry(b, node));
    var fs1 := Renamed(fs, dir, a, b);
    assert fs1 == fs[dir := moved];
    assert Renamed(fs1, dir, b, a) == fs1[dir := Insert(rest, DirEntry(a, node))];
  }

  /** The file system as a mutable object, as the program sees it. */
  class Disk {
    var fs: FileSystem

    ghost predicate Valid()
      reads this
    {
      WellFormed(fs)
    }

    constructor (fs0: FileSystem)
      requires WellFormed(fs0)
      ensures Valid() && fs == fs0
    {
      fs := fs0;
    }

    /** `os.Rename(dir/from, dir/to)`. */
    method Rename(dir: string, from: string, to: string) returns (r: Result<()>)
      requires Valid()
      modifies this
      ensures Valid()
      ensures r.Err? <==> RenameError(old(fs), dir, from, to).Some?
      ensures r.Err? ==> r.error == RenameError(old(fs), dir, from, to).value && fs == old(fs)
      ensures r.Ok? ==> fs == Renamed(old(fs), dir, from, to)
    {
      var e := RenameError(fs, dir, from, to);
      if e.Some? {
        return Err(e.value);
      }
      fs := Renamed(fs, dir, from, to);
      return Ok(());
    }

    /** `os.MkdirAll(dir)`: an unreadable directory becomes an empty one, and a
        path taken by something other than a directory is an error. */
    method MkdirAll(dir: string) returns (r: Result<()>)
      requires Valid()
      modifies this
      ensures Valid()
      ensures r.Err? <==> MkdirError(old(fs), dir).Some?
      ensures r.Err? ==> r.error == MkdirError(old(fs), dir).value && fs == old(fs)
      ensures r.Ok? ==> fs == MadeDir(old(fs), dir)
    {
      var e := MkdirError(fs, dir);
      if e.Some? {
        return Err(e.value);
      }
      fs := MadeDir(fs, dir);
      return Ok(());
    }

    /** Moves a verified temporary file to `dir/name`, which must be free. */
    method MoveIn(dir: string, name: string, node: Node)
      requires Valid() && dir in fs && Find(fs[dir], name).None?
      modifies this
      ensures Valid()
      ensures fs == Placed(old(fs), dir, name, node)
    {
      fs := Placed(fs, dir, name, node);
    }

    /** `os.Remove(dir/name)`, with a missing file not counted as an error. */
    method RemoveFile(dir: string, name: string) returns (r: Result<()>)
      requires Valid()
      modifies this
      ensures Valid()
      ensures r == RemoveResult(old(fs), dir, name)
      ensures fs == (if r.Ok? then Removed(old(fs), dir, name) else old(fs))
    {
      r := RemoveResult(fs, dir, name);
      if r.Ok? {
        fs := Removed(fs, dir, name);
      }
    }
  }

  /** Why `os.MkdirAll(dir)` fails in the model: the path is not a readable
      directory and its parent lists it as a file or other non-directory. */
  function MkdirError(fs: FileSystem, dir: string): Option<Error> {
    if dir in fs then None
    else
      match Stat(fs, DirOf(dir), BaseOf(dir))
      case Some(Regular(_)) => Some(MkdirFailed(dir))
      case Some(Other(_)) => Some(MkdirFailed(dir))
      case _ => None
  }

  /** A regular file at `dir/name` makes `MkdirAll(dir/name)` fail. */
  lemma MkdirOntoFile(fs: FileSystem, dir: string, name: string, digest: string)
    requires dir != "" && forall i :: 0 <= i < |name| ==> name[i] != '/'
    requires PathJoin(dir, name) !in fs && Stat(fs, dir, name) == Some(Regular(digest))
    ensures MkdirError(fs, PathJoin(dir, name)) == Some(MkdirFailed(PathJoin(dir, name)))
  {
    DirOfJoin(dir, name);
    BaseOfJoin(dir, name);
  }

  /** Once `MkdirAll` has succeeded, doing it again succeeds and changes nothing. */
  lemma MkdirAgain(fs: FileSystem, dir: string)
    requires WellFormed(fs)
    ensures MkdirError(MadeDir(fs, dir), dir).None?
    ensures MadeDir(MadeDir(fs, dir), dir) == MadeDir(fs, dir)
  {
  }

  function MadeDir(fs: FileSystem, dir: string): (r: FileSystem)
    requires WellFormed(fs)
    ensures WellFormed(r) && dir in r
    ensures forall d :: d in fs ==> d in r && r[d] == fs[d]
  {
    if dir in fs then fs else fs[dir := []]
  }

  function Placed(fs: FileSystem, dir: string, name: string, node: Node): (r: FileSystem)
    requires WellFormed(fs) && dir in fs && Find(fs[dir], name).None?
    ensures WellFormed(r) && r.Keys == fs.Keys
  {
    fs[dir := Insert(fs[dir], DirEntry(name, node))]
  }

  /** A directory whose listing is known and empty. */
  predicate EmptyDir(fs: FileSystem, path: string) {
    path in fs && fs[path] == []
  }

  /** `os.Remove` fails on a directory unless it is empty (an unreadable one
      counts as non-empty); a missing entry is reported as not-exist, which
      the caller ignores. */
  function RemoveResult(fs: FileSystem, dir: string, name: string): Result<()> {
    match Stat(fs, dir, name)
    case Some(Directory) =>
      if EmptyDir(fs, PathJoin(dir, name)) then Ok(()) else Err(RemoveFailed(PathJoin(dir, name)))
    case _ => Ok(())
  }

  /** The file system after `os.Remove(dir/name)`: the name leaves its
      listing, and a removed directory takes its own listing with it. */
  function Removed(fs: FileSystem, dir: string, name: string): (r: FileSystem)
    requires WellFormed(fs)
    ensures WellFormed(r)
    ensures r.Keys == if Stat(fs, dir, name) == Some(Directory) then fs.Keys - {PathJoin(dir, name)} else fs.Keys
    ensures forall d :: d in r && d != dir ==> r[d] == fs[d]
  {
    if dir in fs then
      RemoveSorted(fs[dir], name);
      var listed := fs[dir := Remove(fs[dir], name)];
      if Find(fs[dir], name) == Some(Directory) then listed - {PathJoin(dir, name)} else listed
    else fs
  }
}
