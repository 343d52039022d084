/**
 Path resolution over an ext4 filesystem (ext4-view-rs/src/resolve.rs).

 `Step`/`Walk` describe resolution on lists of components, the way
 path_resolution(7) does. `ResolvePath` is the loop of the source, which edits
 one byte vector in place; it is proved to compute exactly `Resolve`.
 */
module PathResolution {
  import opened Bytes
  import opened Wrappers

  const MAX_SYMLINKS: nat := 40
  const MAX_PATH_LEN: nat := 4096
  const MAX_ITERATIONS: nat := 1000

  datatype Kind = Directory | Symlink | Special

  datatype Inode = Inode(index: nat, kind: Kind)

  datatype Error =
    | NotAbsolute
    | PathTooLong
    | NotADirectory
    | TooManySymlinks
    | NotFound
    | Unreadable(code: nat)

  type Result<T> = Fallible<T, Error>

  /** The immutable filesystem as resolution sees it: each read may fail. */
  datatype Fs = Fs(
    root: Result<Inode>,
    lookup: (Inode, seq<byte>) -> Result<Inode>,
    target: Inode -> Result<seq<byte>>)

  datatype FollowSymlinks = All | ExcludeFinalComponent

  datatype Outcome =
    | Resolved(inode: Inode, path: seq<byte>)
    | Failed(error: Error)
    | GuardTripped

  predicate AllNames(cs: seq<seq<byte>>) {
    forall i :: 0 <= i < |cs| ==> IsName(cs[i])
  }

  /** What Path::try_from and PathBuf::try_from accept. */
  predicate IsPath(s: seq<byte>) {
    && 0 !in s
    && forall i :: 0 <= i < |Comps(s)| ==> |Comps(s)[i]| <= MAX_NAME_LEN
  }

  predicate IsAbsolute(s: seq<byte>) {
    s != [] && s[0] == SEP
  }

  /** Symlink targets are non-empty paths (inode.rs, symlink_target). */
  ghost predicate ValidFs(fs: Fs) {
    forall i :: fs.target(i).Ok? ==> fs.target(i).value != [] && IsPath(fs.target(i).value)
  }

  /** Every ".." names the true parent, and the root is its own parent. */
  ghost predicate Consistent(fs: Fs) {
    && (fs.root.Ok? && fs.root.value.kind.Directory? ==> fs.lookup(fs.root.value, PARENT) == fs.root)
    && forall d: Inode, name ::
         d.kind.Directory? && name != CURRENT && name != PARENT
         && fs.lookup(d, name).Ok? && fs.lookup(d, name).value.kind.Directory?
         ==> fs.lookup(fs.lookup(d, name).value, PARENT) == Ok(d)
  }

  // ---------------------------------------------------------------------
  // Resolution on component lists

  /**
   `done` has been walked and led to `inode`; `todo` is still to be walked;
   `sep` says whether the path ends with a separator.
   */
  datatype State = State(
    done: seq<seq<byte>>,
    inode: Inode,
    todo: seq<seq<byte>>,
    sep: bool,
    links: nat)

  datatype StepResult = Continue(state: State) | Stop(outcome: Outcome)

  /** What follows a component in the path. */
  function Tail(rest: seq<seq<byte>>, sep: bool): (s: seq<byte>) {
    if rest != [] then [SEP] + Joined(rest, sep)
    else if sep then [SEP]
    else []
  }

  /** The path with the current component replaced by a symlink target. */
  function Spliced(s: State, target: seq<byte>): (p: seq<byte>)
    requires s.todo != []
  {
    (if IsAbsolute(target) then [] else Prefix(s.done)) + target + Tail(s.todo[1..], s.sep)
  }

  function DropLast<T>(xs: seq<T>): (ys: seq<T>) {
    if xs == [] then [] else xs[..|xs| - 1]
  }

  function FollowLink(fs: Fs, s: State, link: Inode): (r: StepResult)
    requires s.todo != []
    ensures r.Continue? ==> r.state.links == s.links + 1 <= MAX_SYMLINKS
  {
    if s.links + 1 > MAX_SYMLINKS then Stop(Failed(TooManySymlinks))
    else match fs.target(link)
      case Err(e) => Stop(Failed(e))
      case Ok(target) =>
        var p := Spliced(s, target);
        var todo := Comps(target) + s.todo[1..];
        if IsAbsolute(target) then
          match fs.root
          case Err(e) => Stop(Failed(e))
          case Ok(root) =>
            if |p| > MAX_PATH_LEN then Stop(Failed(PathTooLong))
            else Continue(State([], root, todo, EndsWithSep(p), s.links + 1))
        else if |p| > MAX_PATH_LEN then Stop(Failed(PathTooLong))
        else Continue(State(s.done, s.inode, todo, EndsWithSep(p), s.links + 1))
  }

  /** One component is resolved. */
  function Step(fs: Fs, follow: FollowSymlinks, s: State): (r: StepResult)
    requires s.todo != []
    ensures r.Continue? ==>
              || s.links < r.state.links <= MAX_SYMLINKS
              || (r.state.links == s.links && |r.state.todo| < |s.todo|)
  {
    if !s.inode.kind.Directory? then Stop(Failed(NotADirectory))
    else
      var name, rest := s.todo[0], s.todo[1..];
      match fs.lookup(s.inode, name)
      case Err(e) => Stop(Failed(e))
      case Ok(child) =>
        if name == CURRENT then
          Continue(s.(todo := rest, sep := s.sep || rest == []))
        else if name == PARENT then
          Continue(State(DropLast(s.done), child, rest, s.sep || rest == [], s.links))
        else if child.kind.Symlink? && (follow.All? || rest != []) then
          FollowLink(fs, s, child)
        else
          Continue(State(s.done + [name], child, rest, s.sep, s.links))
  }

  /** A trailing separator is only allowed after a directory. */
  function Finish(s: State): (r: Outcome) {
    if s.done != [] && s.sep && !s.inode.kind.Directory? then Failed(NotADirectory)
    else Resolved(s.inode, [SEP] + Joined(s.done, false))
  }

  /** Resolution from a state, allowing at most `limit` steps in all. */
  function Walk(fs: Fs, follow: FollowSymlinks, s: State, steps: nat, limit: nat): (r: Outcome)
    requires s.links <= MAX_SYMLINKS
    decreases MAX_SYMLINKS - s.links, |s.todo|
  {
    if s.todo == [] then Finish(s)
    else if steps >= limit then GuardTripped
    else match Step(fs, follow, s)
      case Stop(o) => o
      case Continue(s') => Walk(fs, follow, s', steps + 1, limit)
  }

  function Start(root: Inode, path: seq<byte>): (s: State) {
    State([], root, Comps(path), EndsWithSep(path), 0)
  }

  function Resolve(fs: Fs, path: seq<byte>, follow: FollowSymlinks, limit: nat): (r: Outcome) {
    if !IsAbsolute(path) then Failed(NotAbsolute)
    else if |path| > MAX_PATH_LEN then Failed(PathTooLong)
    else match fs.root
      case Err(e) => Failed(e)
      case Ok(root) => Walk(fs, follow, Start(root, path), 0, limit)
  }
}
