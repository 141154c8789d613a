/**
 Mounts, paths and file descriptors of src/fs/vfs.rs.  A file system is known by its root; `lookup` is the lookup of the
 inodes, the same at every call.
 */
module Vfs {
  import opened Kernel
  import opened Paths

  // ---------------------------------------------------------------- resolve_mount_point

  /** The length of the longest prefix of `path`, up to `n`, that is mounted; zero if no non-empty prefix is. */
  function LongestMount(mounts: set<string>, path: string, n: nat): (r: nat)
    requires n <= |path|
    ensures r <= n
  {
    if n == 0 || path[..n] in mounts then n else LongestMount(mounts, path, n - 1)
  }

  /** The mount that a path belongs to, and the rest of the path. */
  function Resolve(mounts: set<string>, path: string): Result<(string, string)> {
    var n := LongestMount(mounts, path, |path|);
    if n > 0 then Ok((path[..n], path[n..]))
    else if "/" in mounts then Ok(("/", path))
    else Err(FileSystemNotFound)
  }

  lemma {:induction false} LongestMountMeaning(mounts: set<string>, path: string, n: nat, k: nat)
    requires n <= |path| && k <= n
    ensures var r := LongestMount(mounts, path, n);
      (r > 0 ==> path[..r] in mounts) && (k > r ==> path[..k] !in mounts)
    decreases n
  {
    if n > 0 && path[..n] !in mounts { LongestMountMeaning(mounts, path, n - 1, if k < n then k else 0); }
  }

  /** `m` is a mount that a path starts with, and is not empty. */
  predicate Covers(mounts: set<string>, path: string, m: string) { m in mounts && m != "" && m <= path }

  /** A mount covers the path and is longer than every other that does. */
  ghost predicate IsBest(mounts: set<string>, path: string, m: string) {
    Covers(mounts, path, m) && forall x | Covers(mounts, path, x) :: |x| <= |m|
  }

  lemma ResolvedIsBest(mounts: set<string>, path: string, m: string)
    requires IsBest(mounts, path, m)
    ensures Resolve(mounts, path) == Ok((m, path[|m|..]))
  {
    assert path[..|m|] == m;
    var r := LongestMount(mounts, path, |path|);
    LongestMountMeaning(mounts, path, |path|, |m|);
    if r > |m| { assert Covers(mounts, path, path[..r]); }
  }

  lemma NothingCovers(mounts: set<string>, path: string)
    requires forall m | m in mounts :: !Covers(mounts, path, m)
    ensures LongestMount(mounts, path, |path|) == 0
  {
    var r := LongestMount(mounts, path, |path|);
    LongestMountMeaning(mounts, path, |path|, 0);
    if r > 0 { assert Covers(mounts, path, path[..r]); }
  }

  /** Exactly the longest non-empty mount that is a prefix of the path is chosen, and with the rest it makes up the
      path; without one the path goes to `/` as it is, if that is mounted, and is an error otherwise. */
  lemma ResolveMeaning(mounts: set<string>, path: string)
    ensures match Resolve(mounts, path)
      case Ok((m, rest)) =>
        (IsBest(mounts, path, m) && m + rest == path)
        || (m == "/" && "/" in mounts && rest == path && forall x | x in mounts :: !Covers(mounts, path, x))
      case Err(e) => e == FileSystemNotFound && "/" !in mounts && forall x | x in mounts :: !Covers(mounts, path, x)
  {
    var r := LongestMount(mounts, path, |path|);
    LongestMountMeaning(mounts, path, |path|, 0);
    if r > 0 {
      forall x | Covers(mounts, path, x) ensures |x| <= r {
        assert path[..|x|] == x;
        LongestMountMeaning(mounts, path, |path|, |x|);
      }
      assert path[..r] + path[r..] == path;
    } else {
      forall x | x in mounts ensures !Covers(mounts, path, x) {
        if Covers(mounts, path, x) {
          assert path[..|x|] == x;
          LongestMountMeaning(mounts, path, |path|, |x|);
        }
      }
    }
  }

  /** A path is cut after `n` characters at a slash or at one of its ends. */
  predicate CutAtSlash(path: string, n: nat)
    requires n <= |path|
  {
    n == 0 || n == |path| || path[n - 1] == '/' || path[n] == '/'
  }

  /** The mount chosen is made of whole components of the path if and only if the longest mounted prefix is cut off the
      path at a slash. */
  lemma ResolvesComponentsIff(mounts: set<string>, path: string)
    requires Resolve(mounts, path).Ok?
    ensures var (m, rest) := Resolve(mounts, path).value;
      Components(path) == Components(m) + Components(rest)
      <==> CutAtSlash(path, LongestMount(mounts, path, |path|))
  {
    var (m, rest) := Resolve(mounts, path).value;
    var n := LongestMount(mounts, path, |path|);
    if n > 0 {
      assert m + rest == path;
      ComponentsConcatIff(m, rest);
    } else {
      assert Components("/") == [];
      assert [] + Components(path) == Components(path);
    }
  }

  /** A mount takes in paths that only share the start of a name with it. */
  lemma MountTakesLongerName()
    ensures Resolve({"/mnt"}, "/mntx/f") == Ok(("/mnt", "x/f"))
  {
    var path := "/mntx/f";
    var mounts := {"/mnt"};
    assert path[..4] == "/mnt" && path[4..] == "x/f";
    ResolvedIsBest(mounts, path, "/mnt");
  }

  // ---------------------------------------------------------------- traverse_path

  /** Looking up one name after the other. */
  function Follow<Node>(lookup: (Node, string) -> Result<Node>, node: Node, names: seq<string>): Result<Node>
    decreases |names|
  {
    if names == [] then Ok(node)
    else match lookup(node, names[0])
      case Err(e) => Err(e)
      case Ok(next) => Follow(lookup, next, names[1..])
  }

  /** `nodes` are the inodes passed when the names are looked up one after the other, from the first to the last. */
  ghost predicate IsWalk<Node>(
    lookup: (Node, string) -> Result<Node>, names: seq<string>, nodes: seq<Node>)
  {
    && |nodes| == |names| + 1
    && forall i, j | 0 <= i < |names| && j == i + 1 :: lookup(nodes[i], names[i]) == Ok(nodes[j])
  }

  /** Looking up the names one after the other from `root` on leads to an inode, or the first lookup that fails fails
      with an error. */
  ghost predicate Leads<Node(!new)>(
    lookup: (Node, string) -> Result<Node>, root: Node, names: seq<string>, r: Result<Node>)
  {
    match r
    case Ok(node) => exists nodes :: IsWalk(lookup, names, nodes) && nodes[0] == root && nodes[|names|] == node
    case Err(e) =>
      exists k, nodes :: 0 <= k < |names| && IsWalk(lookup, names[..k], nodes) && nodes[0] == root
                         && lookup(nodes[k], names[k]) == Err(e)
  }

  /** A walk says how the lookups go: past it, they go on from its last inode. */
  lemma {:induction false} FollowWalk<Node>(
    lookup: (Node, string) -> Result<Node>, names: seq<string>, k: nat, nodes: seq<Node>)
    requires k <= |names| && IsWalk(lookup, names[..k], nodes)
    ensures Follow(lookup, nodes[0], names) == Follow(lookup, nodes[k], names[k..])
    decreases k
  {
    if k == 0 {
      assert names[0..] == names;
    } else {
      var j := 1;
      assert names[..k][0] == names[0] && lookup(nodes[0], names[0]) == Ok(nodes[j]);
      var rest, after := names[1..], nodes[1..];
      assert rest[..k - 1] == names[..k][1..] && rest[k - 1..] == names[k..];
      forall i, n | 0 <= i < k - 1 && n == i + 1 ensures lookup(after[i], rest[..k - 1][i]) == Ok(after[n]) {
        assert after[i] == nodes[n] && after[n] == nodes[n + 1] && rest[..k - 1][i] == names[..k][n];
      }
      FollowWalk(lookup, rest, k - 1, after);
    }
  }

  lemma WalkBefore<Node>(
    lookup: (Node, string) -> Result<Node>, root: Node, names: seq<string>, nodes: seq<Node>)
    requires names != [] && IsWalk(lookup, names[1..], nodes) && lookup(root, names[0]) == Ok(nodes[0])
    ensures IsWalk(lookup, names, [root] + nodes)
  {
    var all := [root] + nodes;
    forall i, j | 0 <= i < |names| && j == i + 1 ensures lookup(all[i], names[i]) == Ok(all[j]) {
      if i > 0 { assert all[i] == nodes[i - 1] && names[i] == names[1..][i - 1] && all[j] == nodes[i]; }
    }
  }

  lemma {:induction false} FollowLeads<Node(!new)>(
    lookup: (Node, string) -> Result<Node>, root: Node, names: seq<string>)
    ensures Leads(lookup, root, names, Follow(lookup, root, names))
    decreases |names|
  {
    if names == [] {
      assert IsWalk(lookup, names, [root]);
    } else {
      var first := lookup(root, names[0]);
      if first.Err? {
        var k, nodes := 0, [root];
        assert IsWalk(lookup, names[..k], nodes) && lookup(nodes[k], names[k]) == first;
      } else {
        var rest := names[1..];
        FollowLeads(lookup, first.value, rest);
        match Follow(lookup, first.value, rest)
        case Ok(node) =>
          var nodes :| IsWalk(lookup, rest, nodes) && nodes[0] == first.value && nodes[|rest|] == node;
          WalkBefore(lookup, root, names, nodes);
          assert ([root] + nodes)[|names|] == node;
        case Err(e) =>
          var k, nodes :| 0 <= k < |rest| && IsWalk(lookup, rest[..k], nodes) && nodes[0] == first.value
                          && lookup(nodes[k], rest[k]) == Err(e);
          assert names[..k + 1][1..] == rest[..k] && names[..k + 1][0] == names[0];
          WalkBefore(lookup, root, names[..k + 1], nodes);
          assert ([root] + nodes)[k + 1] == nodes[k] && names[k + 1] == rest[k];
      }
    }
  }

  /** The lookups lead to one inode or fail with one error, which is what following the names gives. */
  lemma LeadsIff<Node(!new)>(
    lookup: (Node, string) -> Result<Node>, root: Node, names: seq<string>, r: Result<Node>)
    ensures Leads(lookup, root, names, r) <==> r == Follow(lookup, root, names)
  {
    FollowLeads(lookup, root, names);
    if Leads(lookup, root, names, r) {
      match r
      case Ok(node) =>
        var nodes :| IsWalk(lookup, names, nodes) && nodes[0] == root && nodes[|names|] == node;
        assert names[..|names|] == names;
        FollowWalk(lookup, names, |names|, nodes);
      case Err(e) =>
        var k, nodes :| 0 <= k < |names| && IsWalk(lookup, names[..k], nodes) && nodes[0] == root
                        && lookup(nodes[k], names[k]) == Err(e);
        FollowWalk(lookup, names, k, nodes);
    }
  }

  /** `traverse_path` */
  function Traverse<Node>(lookup: (Node, string) -> Result<Node>, root: Node, path: string): Result<Node> {
    if path == "" || path == "/" then Ok(root) else Follow(lookup, root, Components(path))
  }

  /** A path that leads on from where another one led, or to its error. */
  function Then<Node>(lookup: (Node, string) -> Result<Node>, r: Result<Node>, path: string): Result<Node> {
    match r
    case Err(e) => Err(e)
    case Ok(node) => Traverse(lookup, node, path)
  }

  lemma {:induction false} FollowAppend<Node>(
    lookup: (Node, string) -> Result<Node>, node: Node, a: seq<string>, b: seq<string>)
    ensures Follow(lookup, node, a + b) == match Follow(lookup, node, a)
      case Err(e) => Err(e)
      case Ok(next) => Follow(lookup, next, b)
    decreases |a|
  {
    if a == [] {
      assert a + b == b;
    } else {
      assert (a + b)[0] == a[0] && (a + b)[1..] == a[1..] + b;
      var r := lookup(node, a[0]);
      if r.Ok? { FollowAppend(lookup, r.value, a[1..], b); }
    }
  }

  lemma TraverseIsFollow<Node>(lookup: (Node, string) -> Result<Node>, root: Node, path: string)
    ensures Traverse(lookup, root, path) == Follow(lookup, root, Components(path))
  {
    if path == "" || path == "/" { assert Components("") == [] && Components("/") == []; }
  }

  /** Walking `a/b` is walking `a` and from there `b`; an error on the way is passed on. */
  lemma TraverseComposes<Node>(lookup: (Node, string) -> Result<Node>, root: Node, a: string, b: string)
    ensures Traverse(lookup, root, a + "/" + b) == Then(lookup, Traverse(lookup, root, a), b)
  {
    ComponentsSlash(a, b);
    TraverseIsFollow(lookup, root, a + "/" + b);
    TraverseIsFollow(lookup, root, a);
    FollowAppend(lookup, root, Components(a), Components(b));
    if Traverse(lookup, root, a).Ok? { TraverseIsFollow(lookup, Traverse(lookup, root, a).value, b); }
  }

  /** Paths with the same components lead to the same place. */
  lemma TraverseNormal<Node>(lookup: (Node, string) -> Result<Node>, root: Node, path: string)
    ensures Traverse(lookup, root, path) == Traverse(lookup, root, Rejoin(Components(path)))
  {
    NormalForm(path);
    TraverseIsFollow(lookup, root, path);
    TraverseIsFollow(lookup, root, Rejoin(Components(path)));
  }

  // ---------------------------------------------------------------- mounts and descriptors

  datatype State<Node> = State(mounts: map<string, Node>, nextFd: nat, open: map<nat, Node>)

  /** `Vfs::new` */
  function New<Node>(): State<Node> { State(map[], 3, map[]) }

  /** `mount` */
  function Mount<Node>(s: State<Node>, path: string, root: Node): (State<Node>, Result<Unit>) {
    if path in s.mounts then (s, Err(PageAlreadyMapped)) else (s.(mounts := s.mounts[path := root]), Ok(Unit))
  }

  /** `unmount` */
  function Unmount<Node>(s: State<Node>, path: string): (State<Node>, Result<Unit>) {
    if path in s.mounts then (s.(mounts := s.mounts - {path}), Ok(Unit)) else (s, Err(FileSystemNotFound))
  }

  lemma ResolvedIsMounted(mounts: set<string>, path: string)
    requires Resolve(mounts, path).Ok?
    ensures Resolve(mounts, path).value.0 in mounts
  {
    LongestMountMeaning(mounts, path, |path|, 0);
  }

  /** The inode that a path names. */
  function Find<Node>(s: State<Node>, lookup: (Node, string) -> Result<Node>, path: string): Result<Node> {
    match Resolve(s.mounts.Keys, path)
    case Err(e) => Err(e)
    case Ok((m, rest)) =>
      ResolvedIsMounted(s.mounts.Keys, path);
      Traverse(lookup, s.mounts[m], rest)
  }

  /** `open` */
  function Open<Node>(s: State<Node>, lookup: (Node, string) -> Result<Node>, path: string)
    : (State<Node>, Result<nat>)
  {
    match Find(s, lookup, path)
    case Err(e) => (s, Err(e))
    case Ok(node) => (s.(nextFd := s.nextFd + 1, open := s.open[s.nextFd := node]), Ok(s.nextFd))
  }

  ghost predicate Uncovered(mounts: set<string>, path: string) { forall m | m in mounts :: !Covers(mounts, path, m) }

  /** What a path names: from the root of the longest mount that covers it, what the components of the rest of the path
      lead to; from that of `/`, if none covers it, what all its components lead to; and an error without that. */
  ghost predicate NamesInode<Node(!new)>(
    s: State<Node>, lookup: (Node, string) -> Result<Node>, path: string, r: Result<Node>)
  {
    var mounts := s.mounts.Keys;
    || (exists m :: IsBest(mounts, path, m) && Leads(lookup, s.mounts[m], Components(path[|m|..]), r))
    || (Uncovered(mounts, path) && "/" in mounts && Leads(lookup, s.mounts["/"], Components(path), r))
    || (Uncovered(mounts, path) && "/" !in mounts && r == Err(FileSystemNotFound))
  }

  lemma UncoveredResolved(mounts: set<string>, path: string)
    requires Uncovered(mounts, path)
    ensures Resolve(mounts, path) == if "/" in mounts then Ok(("/", path)) else Err(FileSystemNotFound)
  {
    NothingCovers(mounts, path);
  }

  /** A path names one thing, an inode or an error, and that is what is found. */
  lemma FindsIff<Node(!new)>(s: State<Node>, lookup: (Node, string) -> Result<Node>, path: string, r: Result<Node>)
    ensures NamesInode(s, lookup, path, r) <==> r == Find(s, lookup, path)
  {
    var mounts := s.mounts.Keys;
    ResolveMeaning(mounts, path);
    if Uncovered(mounts, path) {
      UncoveredResolved(mounts, path);
      if "/" in mounts {
        TraverseIsFollow(lookup, s.mounts["/"], path);
        LeadsIff(lookup, s.mounts["/"], Components(path), r);
      }
    } else {
      var m := Resolve(mounts, path).value.0;
      ResolvedIsBest(mounts, path, m);
      TraverseIsFollow(lookup, s.mounts[m], path[|m|..]);
      LeadsIff(lookup, s.mounts[m], Components(path[|m|..]), r);
      forall x | IsBest(mounts, path, x) ensures x == m { ResolvedIsBest(mounts, path, x); }
    }
  }

  /** `open` of a path that names an inode gives out the next descriptor, which then stands for that inode and is the
      only thing that changed; of a path that names an error it gives that error and changes nothing. */
  lemma OpenMeaning<Node(!new)>(s: State<Node>, lookup: (Node, string) -> Result<Node>, path: string, r: Result<Node>)
    requires NamesInode(s, lookup, path, r)
    ensures var (s1, answer) := Open(s, lookup, path);
      match r
      case Ok(node) =>
        && answer == Ok(s.nextFd) && s1.nextFd == s.nextFd + 1 && s1.mounts == s.mounts
        && s1.open.Keys == s.open.Keys + {s.nextFd} && s1.open[s.nextFd] == node
        && forall fd | fd in s.open && fd != s.nextFd :: s1.open[fd] == s.open[fd]
      case Err(e) => answer == Err(e) && s1 == s
  {
    FindsIff(s, lookup, path, r);
  }

  /** Every path names something: `open` fails exactly when that is an error. */
  lemma OpenFailsIff<Node(!new)>(s: State<Node>, lookup: (Node, string) -> Result<Node>, path: string, e: Error)
    ensures Open(s, lookup, path).1 == Err(e) <==> NamesInode(s, lookup, path, Err(e))
  {
    FindsIff(s, lookup, path, Err(e));
  }

  /** `close` */
  function Close<Node>(s: State<Node>, fd: nat): (State<Node>, Result<Unit>) {
    if fd in s.open then (s.(open := s.open - {fd}), Ok(Unit)) else (s, Err(InvalidArgument))
  }

  datatype Op<Node> =
    | MountAt(path: string, root: Node)
    | UnmountAt(path: string)
    | OpenAt(path: string)
    | CloseFd(fd: nat)

  function Step<Node>(s: State<Node>, lookup: (Node, string) -> Result<Node>, op: Op<Node>): State<Node> {
    match op
    case MountAt(path, root) => Mount(s, path, root).0
    case UnmountAt(path) => Unmount(s, path).0
    case OpenAt(path) => Open(s, lookup, path).0
    case CloseFd(fd) => Close(s, fd).0
  }

  ghost predicate IsRun<Node(!new)>(
    lookup: (Node, string) -> Result<Node>, trace: seq<State<Node>>, ops: seq<Op<Node>>)
  {
    && |trace| == |ops| + 1 && trace[0] == New()
    && forall i, j | 0 <= i < j < |trace| && j == i + 1 :: trace[j] == Step(trace[i], lookup, ops[i])
  }

  /** Descriptors in use were given out: they are at least 3 and below the next one. */
  predicate GivenOut<Node>(s: State<Node>) { s.nextFd >= 3 && forall fd | fd in s.open :: 3 <= fd < s.nextFd }

  lemma {:induction false} RunGivenOut<Node(!new)>(
    lookup: (Node, string) -> Result<Node>, trace: seq<State<Node>>, ops: seq<Op<Node>>, k: nat)
    requires IsRun(lookup, trace, ops) && k < |trace|
    ensures GivenOut(trace[k])
    decreases k
  {
    if k > 0 {
      var j := k - 1;
      RunGivenOut(lookup, trace, ops, j);
      assert trace[k] == Step(trace[j], lookup, ops[j]);
    }
  }

  lemma {:induction false} NextFdGrows<Node(!new)>(
    lookup: (Node, string) -> Result<Node>, trace: seq<State<Node>>, ops: seq<Op<Node>>, i: nat, k: nat)
    requires IsRun(lookup, trace, ops) && i <= k < |trace|
    ensures trace[i].nextFd <= trace[k].nextFd
    decreases k
  {
    if i < k {
      var j := k - 1;
      NextFdGrows(lookup, trace, ops, i, j);
      assert trace[k] == Step(trace[j], lookup, ops[j]);
    }
  }

  /** Operation `i` opens `path` and gives out `fd`. */
  predicate Opens<Node(!new)>(
    lookup: (Node, string) -> Result<Node>, trace: seq<State<Node>>, ops: seq<Op<Node>>, i: nat, fd: nat)
    requires |trace| == |ops| + 1 && i < |ops|
  {
    ops[i].OpenAt? && Open(trace[i], lookup, ops[i].path).1 == Ok(fd)
  }

  predicate OpensFile<Node(!new)>(
    lookup: (Node, string) -> Result<Node>, trace: seq<State<Node>>, ops: seq<Op<Node>>, i: nat)
    requires |trace| == |ops| + 1 && i < |ops|
  {
    ops[i].OpenAt? && Open(trace[i], lookup, ops[i].path).1.Ok?
  }

  /** How many of the first `k` operations opened a file. */
  ghost function Opened<Node(!new)>(
    lookup: (Node, string) -> Result<Node>, trace: seq<State<Node>>, ops: seq<Op<Node>>, k: nat): nat
    requires |trace| == |ops| + 1 && k <= |ops|
  {
    if k == 0 then 0
    else Opened(lookup, trace, ops, k - 1) + (if OpensFile(lookup, trace, ops, k - 1) then 1 else 0)
  }

  /** The descriptors are given out one after the other, from 3 on. */
  lemma {:induction false} NextFdCounts<Node(!new)>(
    lookup: (Node, string) -> Result<Node>, trace: seq<State<Node>>, ops: seq<Op<Node>>, k: nat)
    requires IsRun(lookup, trace, ops) && k < |trace|
    ensures trace[k].nextFd == 3 + Opened(lookup, trace, ops, k)
    ensures forall fd | k < |ops| && Opens(lookup, trace, ops, k, fd) :: fd == 3 + Opened(lookup, trace, ops, k)
    decreases k
  {
    if k > 0 {
      var j := k - 1;
      NextFdCounts(lookup, trace, ops, j);
      assert trace[k] == Step(trace[j], lookup, ops[j]);
    }
  }

  /** Over every run, a descriptor given out later is a larger one: none is ever given out twice, closed or not. */
  lemma NeverReused<Node(!new)>(
    lookup: (Node, string) -> Result<Node>, trace: seq<State<Node>>, ops: seq<Op<Node>>, i: nat, k: nat, a: nat, b: nat)
    requires IsRun(lookup, trace, ops) && i < k < |ops|
    requires Opens(lookup, trace, ops, i, a) && Opens(lookup, trace, ops, k, b)
    ensures a < b
  {
    var j := i + 1;
    assert trace[j] == Step(trace[i], lookup, ops[i]);
    NextFdGrows(lookup, trace, ops, j, k);
  }

  lemma {:induction false} DescriptorKept<Node(!new)>(
    lookup: (Node, string) -> Result<Node>, trace: seq<State<Node>>, ops: seq<Op<Node>>, i: nat, k: nat, fd: nat)
    requires IsRun(lookup, trace, ops) && i < k < |trace| && Opens(lookup, trace, ops, i, fd)
    ensures fd in trace[k].open <==> forall n | i < n < k :: ops[n] != CloseFd(fd)
    ensures fd in trace[k].open ==> Find(trace[i], lookup, ops[i].path) == Ok(trace[k].open[fd])
    decreases k
  {
    var j := k - 1;
    assert trace[k] == Step(trace[j], lookup, ops[j]);
    if i < j {
      DescriptorKept(lookup, trace, ops, i, j, fd);
      var m := i + 1;
      assert trace[m] == Step(trace[i], lookup, ops[i]);
      NextFdGrows(lookup, trace, ops, m, j);
    }
  }

  /** A descriptor given out by operation `i` is open in state `k` if and only if it was not closed in between, and then
      it stands for the inode that the path named when it was opened, whatever was mounted or unmounted since. */
  lemma DescriptorLife<Node(!new)>(
    lookup: (Node, string) -> Result<Node>, trace: seq<State<Node>>, ops: seq<Op<Node>>, i: nat, k: nat, fd: nat)
    requires IsRun(lookup, trace, ops) && i < k < |trace| && Opens(lookup, trace, ops, i, fd)
    ensures fd in trace[k].open <==> forall n | i < n < k :: ops[n] != CloseFd(fd)
    ensures fd in trace[k].open ==> NamesInode(trace[i], lookup, ops[i].path, Ok(trace[k].open[fd]))
  {
    DescriptorKept(lookup, trace, ops, i, k, fd);
    FindsIff(trace[i], lookup, ops[i].path, Find(trace[i], lookup, ops[i].path));
  }

  // ---------------------------------------------------------------- answers

  /** Every mount at `path` among the first `k` operations is followed by an unmount of it. */
  predicate Free<Node>(ops: seq<Op<Node>>, path: string, k: nat)
    requires k <= |ops|
  {
    forall i | 0 <= i < k && ops[i].MountAt? && ops[i].path == path :: UnmountedSince(ops, path, i, k)
  }

  predicate UnmountedSince<Node>(ops: seq<Op<Node>>, path: string, i: nat, k: nat)
    requires i <= k <= |ops|
  {
    exists n | i < n < k :: ops[n].UnmountAt? && ops[n].path == path
  }

  /** Operation `i` mounts `root` at a path that is free, and it is not unmounted until `k`. */
  ghost predicate MountedBy<Node>(ops: seq<Op<Node>>, path: string, root: Node, i: nat, k: nat)
    requires i < k <= |ops|
  {
    ops[i] == MountAt(path, root) && Free(ops, path, i) && !UnmountedSince(ops, path, i, k)
  }

  lemma UnmountedStep<Node>(ops: seq<Op<Node>>, path: string, i: nat, k: nat)
    requires i < k < |ops|
    ensures UnmountedSince(ops, path, i, k + 1) <==> UnmountedSince(ops, path, i, k) || ops[k] == UnmountAt(path)
  {
    if UnmountedSince(ops, path, i, k) {
      var n :| i < n < k && ops[n].UnmountAt? && ops[n].path == path;
      assert i < n < k + 1;
    }
    if ops[k] == UnmountAt(path) { assert i < k < k + 1; }
  }

  lemma FreeStep<Node>(ops: seq<Op<Node>>, path: string, k: nat)
    requires k < |ops|
    ensures Free(ops, path, k + 1) <==>
      ops[k] == UnmountAt(path) || (Free(ops, path, k) && !(ops[k].MountAt? && ops[k].path == path))
  {
    forall i | 0 <= i < k
      ensures UnmountedSince(ops, path, i, k + 1) <==> UnmountedSince(ops, path, i, k) || ops[k] == UnmountAt(path)
    {
      UnmountedStep(ops, path, i, k);
    }
  }

  /** What is mounted at a path is what the operations say: the first mount there since it was last free. */
  lemma {:induction false} MountLife<Node(!new)>(
    lookup: (Node, string) -> Result<Node>, trace: seq<State<Node>>, ops: seq<Op<Node>>, path: string, k: nat)
    requires IsRun(lookup, trace, ops) && k < |trace|
    ensures path in trace[k].mounts <==> !Free(ops, path, k)
    ensures path in trace[k].mounts ==> exists i :: 0 <= i < k && MountedBy(ops, path, trace[k].mounts[path], i, k)
    decreases k
  {
    if k > 0 {
      var j := k - 1;
      MountLife(lookup, trace, ops, path, j);
      assert trace[k] == Step(trace[j], lookup, ops[j]);
      FreeStep(ops, path, j);
      if path in trace[j].mounts {
        var i :| 0 <= i < j && MountedBy(ops, path, trace[j].mounts[path], i, j);
        UnmountedStep(ops, path, i, j);
        assert path in trace[k].mounts ==> MountedBy(ops, path, trace[k].mounts[path], i, k);
      } else if path in trace[k].mounts {
        assert MountedBy(ops, path, trace[k].mounts[path], j, k);
      }
    }
  }

  /** Operation `i` gave out `fd`, and it is not closed until `k`. */
  ghost predicate OpenedBy<Node(!new)>(
    lookup: (Node, string) -> Result<Node>, trace: seq<State<Node>>, ops: seq<Op<Node>>, fd: nat, i: nat, k: nat)
    requires |trace| == |ops| + 1 && i < k <= |ops|
  {
    Opens(lookup, trace, ops, i, fd) && forall n | i < n < k :: ops[n] != CloseFd(fd)
  }

  lemma {:induction false} OpenWasOpened<Node(!new)>(
    lookup: (Node, string) -> Result<Node>, trace: seq<State<Node>>, ops: seq<Op<Node>>, fd: nat, k: nat)
    returns (i: nat)
    requires IsRun(lookup, trace, ops) && k < |trace| && fd in trace[k].open
    ensures i < k && OpenedBy(lookup, trace, ops, fd, i, k)
    decreases k
  {
    var j := k - 1;
    assert trace[k] == Step(trace[j], lookup, ops[j]);
    if fd in trace[j].open { i := OpenWasOpened(lookup, trace, ops, fd, j); } else { i := j; }
  }

  /** Over every run, a mount is answered by success exactly when the path is free, an unmount exactly when it is not,
      and a close exactly when the descriptor was given out and not closed since; the error is the same each time and
      then nothing changes. */
  lemma RunAnswers<Node(!new)>(
    lookup: (Node, string) -> Result<Node>, trace: seq<State<Node>>, ops: seq<Op<Node>>, k: nat)
    requires IsRun(lookup, trace, ops) && k < |ops|
    ensures match ops[k]
      case MountAt(path, root) =>
        Mount(trace[k], path, root).1 == (if Free(ops, path, k) then Ok(Unit) else Err(PageAlreadyMapped))
        && (!Free(ops, path, k) ==> Mount(trace[k], path, root).0 == trace[k])
      case UnmountAt(path) =>
        Unmount(trace[k], path).1 == (if Free(ops, path, k) then Err(FileSystemNotFound) else Ok(Unit))
        && (Free(ops, path, k) ==> Unmount(trace[k], path).0 == trace[k])
      case CloseFd(fd) =>
        var given := exists i :: 0 <= i < k && OpenedBy(lookup, trace, ops, fd, i, k);
        Close(trace[k], fd).1 == (if given then Ok(Unit) else Err(InvalidArgument))
        && (!given ==> Close(trace[k], fd).0 == trace[k])
      case OpenAt(path) => true
  {
    match ops[k]
    case MountAt(path, _) => MountLife(lookup, trace, ops, path, k);
    case UnmountAt(path) => MountLife(lookup, trace, ops, path, k);
    case CloseFd(fd) =>
      if fd in trace[k].open { var _ := OpenWasOpened(lookup, trace, ops, fd, k); }
      forall i | 0 <= i < k && OpenedBy(lookup, trace, ops, fd, i, k) ensures fd in trace[k].open {
        DescriptorLife(lookup, trace, ops, i, k, fd);
      }
    case OpenAt(_) =>
  }
}
