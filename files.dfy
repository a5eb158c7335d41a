/**
 * The part of the operating system's file layer the persister uses: regular
 * files (name to content), directories, POSIX `os.path.split`, `os.makedirs`,
 * `os.path.exists`, `os.path.isfile`, and files opened for reading or
 * (truncating) writing.
 */
module Files {
  import opened Wrappers
  import opened Bytes

  type Path = string

  /** A snapshot of the file system: regular files and directories. */
  datatype Disk = Disk(files: map<Path, seq<byte>>, dirs: set<Path>)

  /** `os.path.isfile(p)`. */
  predicate IsFile(disk: Disk, p: Path)
  {
    p in disk.files
  }

  /** `os.path.exists(p)`: a file or a directory. */
  predicate Exists(disk: Disk, p: Path)
  {
    p in disk.files || p in disk.dirs
  }

  /** Index of the last occurrence of `c` in `s`, or -1. */
  function RFind(s: string, c: char): (i: int)
    ensures -1 <= i < |s|
    ensures i >= 0 ==> s[i] == c
    ensures forall j :: i < j < |s| ==> s[j] != c
  {
    if s == [] then -1
    else if s[|s| - 1] == c then |s| - 1
    else RFind(s[..|s| - 1], c)
  }

  /** `s.rstrip(c)`: `s` without its trailing run of `c`. */
  function RStrip(s: string, c: char): (r: string)
    ensures |r| <= |s| && r == s[..|r|]
    ensures r == [] || r[|r| - 1] != c
    ensures forall j :: |r| <= j < |s| ==> s[j] == c
  {
    if s != [] && s[|s| - 1] == c then RStrip(s[..|s| - 1], c) else s
  }

  /**
   * The head that POSIX `os.path.split(p)` returns: everything up to the last
   * '/', with trailing slashes removed unless the head is made of slashes only.
   */
  function DirName(p: Path): (head: Path)
    ensures |head| <= |p| && head == p[..|head|]
    ensures head == [] <==> '/' !in p
  {
    var i := RFind(p, '/');
    var head := p[..i + 1];
    if head != [] && exists j :: 0 <= j < |head| && head[j] != '/' then
      var r := RStrip(head, '/');
      assert r != [] by {
        var j :| 0 <= j < |head| && head[j] != '/';
      }
      r
    else head
  }

  /** The directories `os.makedirs(d)` leaves in place: `d` and each of its ancestors. */
  function Ancestors(d: Path): set<Path>
  {
    set i | 0 < i <= |d| && (i == |d| || d[i] == '/') :: d[..i]
  }

  /** The disk after `os.makedirs(d)`; no file changes. */
  function MadeDirs(disk: Disk, d: Path): (r: Disk)
    ensures r.files == disk.files
    ensures d != [] ==> d in r.dirs
    ensures disk.dirs <= r.dirs
  {
    assert d != [] ==> d == d[..|d|];
    disk.(dirs := disk.dirs + Ancestors(d))
  }

  /** The disk after opening `p` for writing, writing `data` and closing it. */
  function WriteFile(disk: Disk, p: Path, data: seq<byte>): (r: Disk)
    ensures r.dirs == disk.dirs
    ensures p in r.files && r.files[p] == data
    ensures r.files - {p} == disk.files - {p}
  {
    disk.(files := disk.files[p := data])
  }

  /** Opening a name for writing and writing `data` to it leaves exactly `data` there. */
  lemma CreateThenWrite(files: map<Path, seq<byte>>, p: Path, data: seq<byte>)
    ensures files[p := []][p := [] + data] == files[p := data]
  {
    assert [] + data == data;
  }

  /** Opening a name for writing and writing `first` then `second` leaves their concatenation. */
  lemma CreateThenWriteTwice(files: map<Path, seq<byte>>, p: Path, first: seq<byte>, second: seq<byte>)
    ensures files[p := []][p := [] + first][p := [] + first + second] == files[p := first + second]
  {
    assert [] + first + second == first + second;
  }

  /** The machine's file system, which the persister changes in place. */
  class FileSystem {
    var files: map<Path, seq<byte>>
    var dirs: set<Path>

    constructor (disk: Disk)
      ensures State() == disk
    {
      files := disk.files;
      dirs := disk.dirs;
    }

    function State(): Disk
      reads this
    {
      Disk(files, dirs)
    }

    /** `os.makedirs(d)`. */
    method MakeDirs(d: Path)
      modifies this
      ensures State() == MadeDirs(old(State()), d)
    {
      dirs := dirs + Ancestors(d);
    }

    /** `open(p, "w")` / `open(p, "wb")`: creates or truncates `p`. */
    method Create(p: Path)
      modifies this
      ensures files == old(files)[p := []] && dirs == old(dirs)
    {
      files := files[p := []];
    }

    /** `f.write(data)` on the file `p` opened for writing: appends. */
    method Write(p: Path, data: seq<byte>)
      requires p in files
      modifies this
      ensures files == old(files)[p := old(files)[p] + data] && dirs == old(dirs)
    {
      files := files[p := files[p] + data];
    }

    /**
     * `open(p, "rb")` followed by reads to the end; `None` when it cannot be
     * opened (the `OSError` of a missing file).
     */
    method ReadAll(p: Path) returns (r: Option<seq<byte>>)
      ensures r.Some? <==> IsFile(State(), p)
      ensures r.Some? ==> r.value == files[p]
    {
      if p in files {
        r := Some(files[p]);
      } else {
        r := None;
      }
    }
  }
}
