/**
 * The plain-file store the archive lives on, as a value: a map from paths (segment
 * sequences from the root) to directory or file nodes, together with the log of the
 * effects applied to it. The operations follow Node's `fs/promises` and `path` modules
 * for the cases the archive code reaches: `mkdir` (plain and `recursive`), `writeFile`,
 * `open(path, "wx")`, `readFile`, `rm(path, { force: true })`, `copyFile`, `access`,
 * and `path.join` / `path.basename` / `path.extname` / `path.resolve`.
 */
module FileSystem {
  import opened Wrappers
  import opened Text

  type Path = seq<string>

  function Parent(p: Path): Path {
    if p == [] then [] else p[..|p| - 1]
  }

  /** The last segment; the root has the empty name, as `path.basename("/")` is "". */
  function Name(p: Path): string {
    if p == [] then "" else p[|p| - 1]
  }

  /** `path.join(dir, name)` for a name without `/`: "" and "." stay in `dir`, ".." leaves it. */
  function Join(dir: Path, name: string): (r: Path)
    ensures name != "" && name != "." && name != ".." ==> r == dir + [name]
  {
    if name == "" || name == "." then dir
    else if name == ".." then Parent(dir)
    else dir + [name]
  }

  /** The string form of a normalised absolute path. */
  function PathString(p: Path): string {
    "/" + JoinWith(p, "/")
  }

  /** `q` lies strictly below `p`. */
  predicate Below(q: Path, p: Path) {
    |q| > |p| && q[..|p|] == p
  }

  datatype Node = Dir | File(data: seq<byte>)

  type Fs = map<Path, Node>

  /** The root is a directory and every other entry hangs off a directory. */
  predicate WellFormed(fs: Fs) {
    && [] in fs && fs[[]] == Dir
    && forall p :: p in fs && p != [] ==> Parent(p) in fs && fs[Parent(p)] == Dir
  }

  /** Nothing that was in `fs` is missing or different in `fs'`. */
  predicate Extends(fs: Fs, fs': Fs) {
    forall q :: q in fs ==> q in fs' && fs'[q] == fs[q]
  }

  lemma ExtendsTrans(fs1: Fs, fs2: Fs, fs3: Fs)
    requires Extends(fs1, fs2) && Extends(fs2, fs3)
    ensures Extends(fs1, fs3)
  {
  }

  datatype IoError = NotFound | AlreadyExists | NotADirectory | IsADirectory

  /** One change made to the store, in the order it was made. */
  datatype Effect = MadeDir(path: Path) | Wrote(path: Path) | Removed(path: Path)

  datatype Disk = Disk(fs: Fs, log: seq<Effect>)

  /** A path that does not exist has nothing below it in a well-formed store. */
  lemma {:induction false} AbsentHasNothingBelow(fs: Fs, p: Path, q: Path)
    requires WellFormed(fs) && p !in fs && q in fs
    ensures !Below(q, p)
    decreases |q|
  {
    if Below(q, p) {
      var pq := Parent(q);
      if |q| > |p| + 1 {
        assert pq[..|p|] == p;
        AbsentHasNothingBelow(fs, p, pq);
      }
    }
  }

  /** `mkdir(p, { recursive: false })`. */
  function Mkdir(d: Disk, p: Path): (r: Result<Disk, IoError>)
    ensures r.Ok? <==> p !in d.fs && p != [] && Parent(p) in d.fs && d.fs[Parent(p)] == Dir
    ensures r.Ok? ==> r.value == Disk(d.fs[p := Dir], d.log + [MadeDir(p)])
    ensures r.Ok? && WellFormed(d.fs) ==> WellFormed(r.value.fs)
  {
    if p in d.fs then Err(AlreadyExists)
    else if p == [] || Parent(p) !in d.fs then Err(NotFound)
    else if d.fs[Parent(p)] != Dir then Err(NotADirectory)
    else Ok(Disk(d.fs[p := Dir], d.log + [MadeDir(p)]))
  }

  /**
   * `mkdir(p, { recursive: true })`: an existing directory is fine, missing ancestors are
   * created first, an existing file on the way is an error.
   */
  function MkdirAll(d: Disk, p: Path): (r: Result<Disk, IoError>)
    requires WellFormed(d.fs)
    ensures r.Ok? ==> WellFormed(r.value.fs) && p in r.value.fs && r.value.fs[p] == Dir
    ensures r.Ok? ==> Extends(d.fs, r.value.fs)
    ensures r.Ok? ==> forall q :: q in r.value.fs && q !in d.fs ==> |q| <= |p| && q == p[..|q|]
    ensures r.Ok? ==> forall k :: |d.log| <= k < |r.value.log| ==> r.value.log[k].MadeDir?
    ensures r.Ok? ==> |d.log| <= |r.value.log| && r.value.log[..|d.log|] == d.log
    ensures r.Ok? && p in d.fs ==> r.value == d
    decreases |p|
  {
    if p in d.fs then (if d.fs[p] == Dir then Ok(d) else Err(AlreadyExists))
    else if p == [] then Err(NotFound)
    else
      match MkdirAll(d, Parent(p))
      case Err(e) => Err(e)
      case Ok(d1) =>
        assert p !in d1.fs by {
          assert forall q :: q in d1.fs && q !in d.fs ==> |q| < |p|;
        }
        Mkdir(d1, p)
  }

  /** Inside an existing directory, a recursive `mkdir` of a new child is a plain `mkdir`. */
  lemma MkdirAllChild(d: Disk, p: Path)
    requires WellFormed(d.fs) && p != [] && p !in d.fs && Parent(p) in d.fs && d.fs[Parent(p)] == Dir
    ensures MkdirAll(d, p) == Mkdir(d, p)
  {
  }

  /** `writeFile(p, data)`: creates or replaces a file inside an existing directory. */
  function WriteFile(d: Disk, p: Path, data: seq<byte>): (r: Result<Disk, IoError>)
    ensures r.Ok? <==> p != [] && Parent(p) in d.fs && d.fs[Parent(p)] == Dir && (p in d.fs ==> d.fs[p] != Dir)
    ensures r.Ok? ==> r.value == Disk(d.fs[p := File(data)], d.log + [Wrote(p)])
    ensures r.Ok? && WellFormed(d.fs) ==> WellFormed(r.value.fs)
  {
    if p == [] || Parent(p) !in d.fs then Err(NotFound)
    else if d.fs[Parent(p)] != Dir then Err(NotADirectory)
    else if p in d.fs && d.fs[p] == Dir then Err(IsADirectory)
    else Ok(Disk(d.fs[p := File(data)], d.log + [Wrote(p)]))
  }

  /** `open(p, "wx")` followed by a write: fails with `AlreadyExists` when anything is at `p`. */
  function CreateExclusive(d: Disk, p: Path, data: seq<byte>): (r: Result<Disk, IoError>)
    ensures r == Err(AlreadyExists) <==> p in d.fs
    ensures r.Ok? ==> p !in d.fs && r.value == Disk(d.fs[p := File(data)], d.log + [Wrote(p)])
    ensures r.Ok? && WellFormed(d.fs) ==> WellFormed(r.value.fs)
  {
    if p in d.fs then Err(AlreadyExists) else WriteFile(d, p, data)
  }

  /** `readFile(p)`. */
  function ReadFile(fs: Fs, p: Path): (r: Result<seq<byte>, IoError>)
    ensures r.Ok? <==> p in fs && fs[p].File?
    ensures r.Ok? ==> r.value == fs[p].data
    ensures r == Err(NotFound) <==> p !in fs
  {
    if p !in fs then Err(NotFound)
    else match fs[p]
      case Dir => Err(IsADirectory)
      case File(data) => Ok(data)
  }

  /** `rm(p, { force: true })`: a missing path is fine, a directory is refused. */
  function RemoveForce(d: Disk, p: Path): (r: Result<Disk, IoError>)
    ensures r.Ok? <==> p !in d.fs || d.fs[p].File?
    ensures r.Ok? ==> p !in r.value.fs && r.value.fs == d.fs - {p}
    ensures r.Ok? && WellFormed(d.fs) ==> WellFormed(r.value.fs)
  {
    if p !in d.fs then Ok(d)
    else if d.fs[p] == Dir then Err(IsADirectory)
    else
      var fs' := d.fs - {p};
      assert WellFormed(d.fs) ==> WellFormed(fs') by {
        if WellFormed(d.fs) {
          forall q | q in fs' && q != [] ensures Parent(q) in fs' && fs'[Parent(q)] == Dir {
            assert Parent(q) != p;
          }
        }
      }
      Ok(Disk(fs', d.log + [Removed(p)]))
  }

  /** `copyFile(src, dst)`: reads `src` and writes its bytes to `dst`. */
  function CopyFile(d: Disk, src: Path, dst: Path): (r: Result<Disk, IoError>)
    ensures r.Ok? ==> src in d.fs && d.fs[src].File? && r.value == Disk(d.fs[dst := d.fs[src]], d.log + [Wrote(dst)])
    ensures r.Ok? && WellFormed(d.fs) ==> WellFormed(r.value.fs)
  {
    match ReadFile(d.fs, src)
    case Err(e) => Err(e)
    case Ok(data) => WriteFile(d, dst, data)
  }

  /** `path.basename(s)` on a string: trailing slashes are ignored, then the part after the last `/`. */
  function Basename(s: string): (r: string)
    ensures '/' !in r
  {
    var t := StripTrailingSlashes(s);
    LastSegment(t)
  }

  function StripTrailingSlashes(s: string): (r: string)
    ensures |r| <= |s|
    ensures r == [] || r[|r| - 1] != '/'
  {
    if s != [] && s[|s| - 1] == '/' then StripTrailingSlashes(s[..|s| - 1]) else s
  }

  function LastSegment(s: string): (r: string)
    ensures '/' !in r && |r| <= |s|
    ensures '/' !in s ==> r == s
  {
    if s == [] then ""
    else if s[|s| - 1] == '/' then ""
    else LastSegment(s[..|s| - 1]) + [s[|s| - 1]]
  }

  /** The last segment is a suffix of the text. */
  lemma {:induction false} LastSegmentSuffix(s: string)
    ensures LastSegment(s) == s[|s| - |LastSegment(s)|..]
    decreases |s|
  {
    if s != [] && s[|s| - 1] != '/' {
      LastSegmentSuffix(s[..|s| - 1]);
    }
  }

  /** A name without `/` is its own basename. */
  lemma BasenameOfName(s: string)
    requires '/' !in s
    ensures Basename(s) == s
  {
    assert s == [] || s[|s| - 1] != '/';
  }

  /** Index of the last `.` of `s`, if any. */
  function LastDot(s: string): (r: Option<nat>)
    ensures r.Some? ==> r.value < |s| && s[r.value] == '.' && forall k :: r.value < k < |s| ==> s[k] != '.'
    ensures r.None? ==> '.' !in s
  {
    if s == [] then None
    else if s[|s| - 1] == '.' then Some(|s| - 1)
    else LastDot(s[..|s| - 1])
  }

  /**
   * `path.extname` of a single name: from the last `.` to the end, except that a name with
   * no `.`, a name whose only `.` is its first character (".bashrc") and ".." have none.
   */
  function Extname(name: string): (r: string)
    ensures |r| <= |name|
    ensures r != [] ==> r[0] == '.' && |r| < |name| && '.' !in r[1..]
  {
    match LastDot(name)
    case None => ""
    case Some(k) =>
      if k == 0 || name == ".." then "" else name[k..]
  }

  /** `path.basename(name, ext)` where `ext` is the extension of `name`. */
  function Stem(name: string): (r: string)
    ensures r + Extname(name) == name
  {
    ExtnameSuffix(name);
    name[..|name| - |Extname(name)|]
  }

  /** The extension is a suffix of the name. */
  lemma ExtnameSuffix(name: string)
    ensures Extname(name) == name[|name| - |Extname(name)|..]
  {
  }

  /** Only the last extension counts: "archive.tar.gz" has extension ".gz". */
  lemma ExtnameLastDot()
    ensures Extname("archive.tar.gz") == ".gz"
  {
    var s := "archive.tar.gz";
    assert LastDot(s) == Some(11) by {
      assert s[11] == '.' && s[12] != '.' && s[13] != '.';
    }
  }

  /** A leading dot starts a name, not an extension: ".bashrc" has none. */
  lemma ExtnameLeadingDot()
    ensures Extname(".bashrc") == ""
  {
    var s := ".bashrc";
    assert LastDot(s) == Some(0) by {
      assert s[0] == '.' && forall k :: 0 < k < |s| ==> s[k] != '.';
    }
  }

  /** Segments of a `/`-separated string, empty segments included. */
  function Segments(s: string): seq<string> {
    Split(s, {'/'})
  }

  /** Applies the segments one by one: "" and "." are skipped, ".." climbs one level. */
  function Walk(base: Path, segs: seq<string>): Path
    decreases |segs|
  {
    if segs == [] then base
    else
      var next := if segs[0] == "" || segs[0] == "." then base
                  else if segs[0] == ".." then Parent(base)
                  else base + [segs[0]];
      Walk(next, segs[1..])
  }

  /** A normalised path: every segment is a proper name. */
  predicate ValidPath(p: Path) {
    forall i :: 0 <= i < |p| ==> '/' !in p[i] && p[i] != "" && p[i] != "." && p[i] != ".."
  }

  /** `path.resolve(s)` against the working directory `cwd`. */
  function Resolve(cwd: Path, s: string): (r: Path)
    requires ValidPath(cwd)
    ensures ValidPath(r)
  {
    var start := if s != [] && s[0] == '/' then [] else cwd;
    WalkValid(start, Segments(s));
    Walk(start, Segments(s))
  }

  lemma {:induction false} WalkValid(base: Path, segs: seq<string>)
    requires ValidPath(base)
    requires forall i :: 0 <= i < |segs| ==> '/' !in segs[i]
    ensures ValidPath(Walk(base, segs))
    decreases |segs|
  {
    if segs != [] {
      var next := if segs[0] == "" || segs[0] == "." then base
                  else if segs[0] == ".." then Parent(base)
                  else base + [segs[0]];
      assert ValidPath(next);
      WalkValid(next, segs[1..]);
    }
  }
}
