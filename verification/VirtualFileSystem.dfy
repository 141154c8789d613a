/** The `Vfs` of src/fs/vfs.rs as an object, proved against the operations of `Vfs`. */
module VirtualFileSystem {
  import opened Kernel
  import opened Paths
  import Vfs

  class VirtualFileSystem<Node> {
    /** The lookup of the inodes. */
    const lookup: (Node, string) -> Result<Node>

    var mountPoints: map<string, Node>
    var nextFd: nat
    var openFiles: map<nat, Node>

    ghost function View(): Vfs.State<Node>
      reads this
    {
      Vfs.State(mountPoints, nextFd, openFiles)
    }

    constructor (lookup: (Node, string) -> Result<Node>)
      ensures View() == Vfs.New() && this.lookup == lookup
    {
      this.lookup := lookup;
      mountPoints, nextFd, openFiles := map[], 3, map[];
    }

    /** `mount` */
    method Mount(path: string, root: Node) returns (r: Result<Unit>)
      modifies this
      ensures (View(), r) == Vfs.Mount(old(View()), path, root)
    {
      if path in mountPoints { return Err(PageAlreadyMapped); }
      mountPoints := mountPoints[path := root];
      return Ok(Unit);
    }

    /** `unmount` */
    method Unmount(path: string) returns (r: Result<Unit>)
      modifies this
      ensures (View(), r) == Vfs.Unmount(old(View()), path)
    {
      if path !in mountPoints { return Err(FileSystemNotFound); }
      mountPoints := mountPoints - {path};
      return Ok(Unit);
    }

    /** The loop of `resolve_mount_point`, over the mounts in any order: the longest mount that the path starts with */
    method BestMount(path: string) returns (best: string)
      ensures best == "" ==> forall m | m in mountPoints :: !Vfs.Covers(mountPoints.Keys, path, m)
      ensures best != "" ==> Vfs.IsBest(mountPoints.Keys, path, best)
    {
      best := "";
      var keys := mountPoints.Keys;
      while keys != {}
        invariant keys <= mountPoints.Keys && (best == "" || Vfs.Covers(mountPoints.Keys, path, best))
        invariant forall m | m in mountPoints.Keys - keys && Vfs.Covers(mountPoints.Keys, path, m) :: |m| <= |best|
        decreases keys
      {
        var m :| m in keys;
        if m <= path && |m| > |best| { best := m; }
        keys := keys - {m};
      }
    }

    /** `resolve_mount_point` */
    method ResolveMountPoint(path: string) returns (r: Result<(string, string)>)
      ensures r == Vfs.Resolve(mountPoints.Keys, path)
    {
      var best := BestMount(path);
      if best == "" {
        Vfs.NothingCovers(mountPoints.Keys, path);
        if "/" in mountPoints { return Ok(("/", path)); }
        return Err(FileSystemNotFound);
      }
      Vfs.ResolvedIsBest(mountPoints.Keys, path, best);
      return Ok((best, path[|best|..]));
    }

    /** `traverse_path` */
    method TraversePath(root: Node, path: string) returns (r: Result<Node>)
      ensures r == Vfs.Traverse(lookup, root, path)
    {
      if path == "" || path == "/" { return Ok(root); }
      var components := Components(path);
      var current := root;
      var i := 0;
      assert components[0..] == components;
      while i < |components|
        invariant 0 <= i <= |components|
        invariant Vfs.Follow(lookup, current, components[i..]) == Vfs.Follow(lookup, root, components)
      {
        assert components[i..][0] == components[i] && components[i..][1..] == components[i + 1..];
        var next := lookup(current, components[i]);
        if next.Err? { return next; }
        current := next.value;
        i := i + 1;
      }
      return Ok(current);
    }

    /** `open` */
    method Open(path: string) returns (r: Result<nat>)
      modifies this
      ensures (View(), r) == Vfs.Open(old(View()), lookup, path)
    {
      var resolved := ResolveMountPoint(path);
      if resolved.Err? { return Err(resolved.error); }
      var (m, rest) := resolved.value;
      Vfs.ResolvedIsMounted(mountPoints.Keys, path);
      var inode := TraversePath(mountPoints[m], rest);
      if inode.Err? { return Err(inode.error); }
      var fd := nextFd;
      nextFd := nextFd + 1;
      openFiles := openFiles[fd := inode.value];
      return Ok(fd);
    }

    /** `close` */
    method Close(fd: nat) returns (r: Result<Unit>)
      modifies this
      ensures (View(), r) == Vfs.Close(old(View()), fd)
    {
      if fd !in openFiles { return Err(InvalidArgument); }
      openFiles := openFiles - {fd};
      return Ok(Unit);
    }
  }
}
