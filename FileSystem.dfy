/**
 * The part of Node's `fs` and `path` modules the credentials store relies
 * on, over a filesystem given as a map from (normalised, POSIX) path to
 * entry. Every function here is a value-level description of one library
 * call; none of them changes anything.
 */
module FileSystem {
  import opened Wrappers

  /** What `lstat` finds at a path: a directory, a regular file, or anything else (a symbolic link, a socket). */
  datatype Entry =
    | Directory
    | File(contents: string, mode: int)
    | Special

  type Tree = map<string, Entry>

  /** The error codes of the calls modelled here: ENOENT, ENOTDIR/EEXIST, EISDIR, and any other refusal. */
  datatype FsError =
    | NotFound(path: string)
    | NotADirectory(path: string)
    | IsADirectory(path: string)
    | Unsupported(path: string)

  /** A single path segment such as `auth.json` or `.now`. */
  predicate PlainName(b: string) {
    b != [] && b != "." && b != ".." && forall i :: 0 <= i < |b| ==> b[i] != '/'
  }

  /** `path.join(a, b)` for a normalised directory `a` and a plain name `b`. */
  function Join(a: string, b: string): (r: string)
    requires PlainName(b)
    ensures |r| >= |b| && r[|r| - |b|..] == b
    ensures r == b || (|r| > |b| && r[|r| - |b| - 1] == '/')
  {
    if a == [] then b
    else if a[|a| - 1] == '/' then a + b
    else a + "/" + b
  }

  /** The index of the last `/` in `p`. */
  function LastSlash(p: string): (r: Option<nat>)
    ensures r.Some? ==> r.value < |p| && p[r.value] == '/' && forall j :: r.value < j < |p| ==> p[j] != '/'
    ensures r.None? ==> forall j :: 0 <= j < |p| ==> p[j] != '/'
  {
    if p == [] then None
    else if p[|p| - 1] == '/' then Some(|p| - 1)
    else LastSlash(p[..|p| - 1])
  }

  /** `path.dirname(p)` for a path that does not end in `/`. */
  function Dirname(p: string): (r: string)
    ensures r != []
  {
    match LastSlash(p)
    case None => "."
    case Some(i) => if i == 0 then "/" else p[..i]
  }

  /** The parent of `join(a, b)` is `a` again. */
  lemma DirnameJoin(a: string, b: string)
    requires PlainName(b)
    requires a == "/" || a == [] || a[|a| - 1] != '/'
    ensures Dirname(Join(a, b)) == if a == [] then "." else a
  {
    var p := Join(a, b);
    if a == [] {
      assert LastSlash(p).None?;
    } else if a == "/" {
      assert p == "/" + b;
      assert LastSlash(p) == Some(0);
    } else {
      assert p == a + "/" + b;
      assert p[|a|] == '/';
      assert LastSlash(p) == Some(|a|) by {
        forall j | |a| < j < |p| ensures p[j] != '/' {
          assert p[j] == b[j - |a| - 1];
        }
        LastSlashIsLast(p, |a|);
      }
      assert p[..|a|] == a;
    }
  }

  lemma LastSlashIsLast(p: string, i: nat)
    requires i < |p| && p[i] == '/'
    requires forall j :: i < j < |p| ==> p[j] != '/'
    ensures LastSlash(p) == Some(i)
  {
    var r := LastSlash(p);
    assert r.Some?;
  }

  /** `fs.lstatSync(p).isDirectory()`, where every failure of `lstat` counts as "not a directory". */
  predicate IsDirectory(fs: Tree, p: string) {
    p != [] && p in fs && fs[p].Directory?
  }

  /** The paths `mkdir -p p` must find or create: `p` and each of its proper prefixes that ends before a `/`. */
  function Ancestors(p: string): (r: set<string>)
    ensures p in r
    ensures forall q :: q in r ==> |q| <= |p| && (q != [] || p == [])
  {
    (set i | 0 < i < |p| && p[i] == '/' :: p[..i]) + {p}
  }

  /** `fs.mkdirSync(p, { recursive: true })`. */
  function MkdirAll(fs: Tree, p: string): (r: Result<Tree, FsError>)
    ensures r.Err? <==> p == [] || exists q :: q in Ancestors(p) && q in fs && !fs[q].Directory?
    ensures r.Ok? ==> forall q :: q in Ancestors(p) ==> IsDirectory(r.value, q)
    ensures r.Ok? ==> forall q :: q in fs ==> q in r.value && r.value[q] == fs[q]
    ensures r.Ok? ==> forall q :: q in r.value && q !in fs ==> q in Ancestors(p)
  {
    if p == [] then Err(NotFound(p))
    else if exists q :: q in Ancestors(p) && q in fs && !fs[q].Directory? then Err(NotADirectory(p))
    else Ok(map q | q in fs.Keys + Ancestors(p) :: if q in fs then fs[q] else Directory)
  }

  /**
   * `fs.writeFileSync(p, data, { mode })`. The mode applies only when
   * the call creates the file; an existing file keeps its mode.
   */
  function WriteFile(fs: Tree, p: string, data: string, mode: int): (r: Result<Tree, FsError>)
    ensures r.Ok? <==> p != [] && IsDirectory(fs, Dirname(p)) && (p in fs ==> fs[p].File?)
    ensures r.Ok? ==> r.value.Keys == fs.Keys + {p}
    ensures r.Ok? ==> r.value[p] == File(data, if p in fs then fs[p].mode else mode)
    ensures r.Ok? ==> forall q :: q in fs && q != p ==> r.value[q] == fs[q]
  {
    if p == [] then Err(NotFound(p))
    else if Dirname(p) !in fs then Err(NotFound(Dirname(p)))
    else if !IsDirectory(fs, Dirname(p)) then Err(NotADirectory(Dirname(p)))
    else if p in fs && fs[p].Directory? then Err(IsADirectory(p))
    else if p in fs && fs[p].Special? then Err(Unsupported(p))
    else Ok(fs[p := File(data, if p in fs then fs[p].mode else mode)])
  }

  /** `fs.chmodSync(p, mode)` on a regular file. */
  function Chmod(fs: Tree, p: string, mode: int): (r: Result<Tree, FsError>)
    ensures r.Ok? <==> p in fs && fs[p].File?
    ensures r.Ok? ==> r.value == fs[p := File(fs[p].contents, mode)]
  {
    if p !in fs then Err(NotFound(p))
    else if !fs[p].File? then Err(Unsupported(p))
    else Ok(fs[p := File(fs[p].contents, mode)])
  }

  /** `fs.readFileSync(p, 'utf8')`. */
  function ReadFile(fs: Tree, p: string): (r: Result<string, FsError>)
    ensures r.Ok? <==> p in fs && fs[p].File?
    ensures r.Ok? ==> r.value == fs[p].contents
    ensures r == Err(NotFound(p)) <==> p !in fs
  {
    if p !in fs then Err(NotFound(p))
    else match fs[p]
      case Directory => Err(IsADirectory(p))
      case Special => Err(Unsupported(p))
      case File(contents, _) => Ok(contents)
  }

  /** What a write followed by a read gives back. */
  lemma ReadAfterWrite(fs: Tree, p: string, data: string, mode: int)
    requires WriteFile(fs, p, data, mode).Ok?
    ensures ReadFile(WriteFile(fs, p, data, mode).value, p) == Ok(data)
  {
  }

  /** After `mkdir -p d`, a file directly under `d` can be written unless the path itself is taken. */
  lemma WriteAfterMkdir(fs: Tree, p: string, data: string, mode: int)
    requires p != [] && p != "." && p[|p| - 1] != '/' && MkdirAll(fs, Dirname(p)).Ok?
    requires p in fs ==> fs[p].File?
    ensures WriteFile(MkdirAll(fs, Dirname(p)).value, p, data, mode).Ok?
  {
    var t := MkdirAll(fs, Dirname(p)).value;
    assert Dirname(p) in Ancestors(Dirname(p));
    if p in t && p !in fs {
      assert p in Ancestors(Dirname(p));
      assert t[p] == Directory;
      AncestorsOfDirnameExcludePath(p);
      assert false;
    }
  }

  /** A path is never one of the directories `mkdir -p` makes for its own parent. */
  lemma AncestorsOfDirnameExcludePath(p: string)
    requires p != [] && p != "." && p[|p| - 1] != '/'
    ensures p !in Ancestors(Dirname(p))
  {
    var d := Dirname(p);
    match LastSlash(p)
    case None =>
      assert d == ".";
      assert Ancestors(d) == {"."};
    case Some(i) =>
      assert |d| < |p|;
  }
}
