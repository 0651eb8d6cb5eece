/** The file system as the kernel runs it: nodes on the heap, walked and relinked in place. */
module Vfs {
  import opened Words
  import opened Paths
  import opened VfsGraph
  import opened VfsCreate

  /** sizeof(FSNode::name), and of the buffers that hold one name */
  const NAME_MAX := 128

  /** The segment at `i` runs to the next slash or to the end. */
  lemma SegmentChars(path: string, i: nat)
    requires i <= |path|
    ensures var n := |Segment(path[i..], '/')|;
      && i + n <= |path| && Segment(path[i..], '/') == path[i..i + n]
      && (forall k :: i <= k < i + n ==> path[k] != '/')
      && (i + n < |path| ==> path[i + n] == '/')
  {
  }

  /** The copying loop at the head of each step of the walk: the next segment, in its buffer. */
  method TakeSegment(path: string, i: nat) returns (name: string, j: nat)
    requires i <= |path| && |Segment(path[i..], '/')| < NAME_MAX
    ensures name == Segment(path[i..], '/') && j == i + |name|
  {
    SegmentChars(path, i);
    ghost var n := |Segment(path[i..], '/')|;
    var segment := new char[NAME_MAX];
    var index := 0;
    j := i;
    while j < |path| && path[j] != '/'
      invariant j <= |path| && index == j - i <= n
      invariant forall k :: 0 <= k < index ==> segment[k] == path[i + k]
      decreases |path| - j
    {
      segment[index] := path[j];
      index := index + 1;
      j := j + 1;
    }
    name := segment[..index];
  }

  /** Consumes consecutive slashes. */
  method SkipSlashes(path: string, j: nat) returns (k: nat)
    requires j <= |path|
    ensures j <= k <= |path| && (k < |path| ==> path[k] != '/')
    ensures Names(path[k..]) == Names(path[j..])
  {
    k := j;
    while k < |path| && path[k] == '/'
      invariant j <= k <= |path|
      invariant Names(path[k..]) == Names(path[j..])
    {
      assert path[k..][1..] == path[k + 1..];
      k := k + 1;
    }
  }

  /** The names of the rest of a path: its segment and the names after it. */
  lemma NamesAfterSegment(path: string, i: nat)
    requires i <= |path| && (i < |path| ==> path[i] != '/')
    ensures var j := i + |Segment(path[i..], '/')|;
      && j <= |path|
      && (Segment(path[i..], '/') == "" <==> i == |path|)
      && Names(path[i..]) == if i == |path| then [] else [Segment(path[i..], '/')] + Names(path[j..])
  {
  }

  /** Every name that the walk takes fits in its buffer with the terminating NUL. */
  ghost predicate WalkFits(g: Graph, n: FSNode?, names: seq<string>)
    requires Closed(g) && (n == null || n in g)
    decreases |names|
  {
    n == null || g[n].flags != Directory || names == [] ||
    (|names[0]| < NAME_MAX && WalkFits(g, Enter(g, n, names[0]), names[1..]))
  }

  /** The same for a path, from where its resolution starts */
  ghost predicate PathFits(g: Graph, root: FSNode?, path: string, cwd: FSNode?)
    requires Closed(g) && (root == null || root in g) && (cwd == null || cwd in g)
  {
    path == "" || WalkFits(g, if path[0] == '/' then root else cwd, Names(path))
  }

  /** Every name fits in its buffer, wherever the walk goes. */
  ghost predicate NamesFit(names: seq<string>) {
    forall k :: 0 <= k < |names| ==> |names[k]| < NAME_MAX
  }

  lemma {:induction false} NamesFitWalk(g: Graph, n: FSNode?, names: seq<string>)
    requires Closed(g) && (n == null || n in g) && NamesFit(names)
    ensures WalkFits(g, n, names)
    decreases |names|
  {
    if n != null && g[n].flags == Directory && names != [] {
      NamesFitWalk(g, Enter(g, n, names[0]), names[1..]);
    }
  }

  lemma NamesFitPath(g: Graph, root: FSNode?, path: string, cwd: FSNode?)
    requires Closed(g) && (root == null || root in g) && (cwd == null || cwd in g) && NamesFit(Names(path))
    ensures PathFits(g, root, path, cwd)
  {
    if path != "" {
      NamesFitWalk(g, if path[0] == '/' then root else cwd, Names(path));
    }
  }

  lemma WalkFitsStep(g: Graph, n: FSNode, name: string, rest: seq<string>)
    requires Closed(g) && IsDir(g, n) && WalkFits(g, n, [name] + rest)
    ensures |name| < NAME_MAX && WalkFits(g, Enter(g, n, name), rest)
  {
    assert ([name] + rest)[1..] == rest;
  }

  /** Takes one name off the path, and the slashes after it. */
  method NextName(path: string, i: nat) returns (name: string, next: nat)
    requires i <= |path| && (i < |path| ==> path[i] != '/')
    requires Names(path[i..]) != [] ==> |Names(path[i..])[0]| < NAME_MAX
    ensures i <= next <= |path| && (next < |path| ==> path[next] != '/')
    ensures if i == |path| then name == "" && Names(path[i..]) == []
            else name != "" && i < next && Names(path[i..]) == [name] + Names(path[next..])
  {
    NamesAfterSegment(path, i);
    assert i < |path| ==> Names(path[i..])[0] == Segment(path[i..], '/');
    var j;
    name, j := TakeSegment(path, i);
    next := SkipSlashes(path, j);
  }

  /** What `strncpy` leaves of a name in its buffer; a name of 128 characters or more gets no terminating NUL. */
  function Cut(name: string): (r: string)
    ensures |r| == if |name| <= NAME_MAX then |name| else NAME_MAX
    ensures r == name[..|r|]
  {
    if |name| < NAME_MAX then name else name[..NAME_MAX]
  }

  /** `vfs_split_path`: scans backwards for the last slash. */
  method SplitPathInto(full: string) returns (dir: string, base: string)
    ensures dir == SplitPath(full).0 && base == Cut(SplitPath(full).1)
  {
    var last := -1;
    var i := |full| - 1;
    while i >= 0
      invariant -1 <= i < |full| && last == -1
      invariant LastSlash(full) == LastSlash(full[..i + 1])
    {
      if full[i] == '/' {
        last := i;
        break;
      }
      assert full[..i + 1][..i] == full[..i];
      i := i - 1;
    }
    assert full[..|full|] == full;
    if last == -1 {
      dir, base := ".", Cut(full);
    } else if last == 0 {
      dir, base := "/", Cut(full[1..]);
    } else {
      var copyLen := if last < DIR_MAX - 1 then last else DIR_MAX - 1;
      dir, base := full[..copyLen], Cut(full[last + 1..]);
    }
  }

  class FileSystem {
    var root: FSNode?           // fs_root
    var current: FSNode?        // Shell::current_directory
    ghost var nodes: set<FSNode>

    ghost function View(): (g: Graph)
      reads this, nodes
      ensures g.Keys == nodes
    {
      map n | n in nodes :: Node(n.name, n.flags, n.parent, n.mountTarget, n.children)
    }

    ghost predicate Valid()
      reads this, nodes
    {
      && Closed(View())
      && (root == null || root in nodes)
      && (current == null || current in nodes)
    }

    ghost predicate Known(n: FSNode?)
      reads this
    {
      n == null || n in nodes
    }

    constructor ()
      ensures Valid() && nodes == {} && root == null && current == null
    {
      root, current, nodes := null, null, {};
    }

    /** `vfs_lookup`, with `RamFSDirectory::lookup` for directories */
    method Lookup(node: FSNode?, name: string) returns (c: FSNode?)
      requires Valid() && Known(node)
      ensures c == if IsDir(View(), node) then Find(View(), View()[node].children, name) else null
    {
      if node == null || node.flags != Directory {
        return null;
      }
      ghost var g := View();
      var children := node.children;
      assert g[node].children == children;
      var i := 0;
      while i < |children|
        invariant 0 <= i <= |children|
        invariant Find(g, children, name) == Find(g, children[i..], name)
      {
        var child := children[i];
        assert child in children && g[child].name == child.name;
        assert children[i..][1..] == children[i + 1..];
        if child.name == name {
          return child;
        }
        i := i + 1;
      }
      return null;
    }

    /** The `..` step of the walk */
    method GoUp(node: FSNode) returns (u: FSNode)
      requires Valid() && node in nodes
      ensures u == Up(View(), node)
    {
      ghost var g := View();
      assert g[node].parent == node.parent;
      var parent := node.parent;
      if parent == null {
        return node;
      }
      assert g[parent].flags == parent.flags;
      if parent.flags == Mountpoint && parent.mountTarget == node && parent.parent != null {
        return parent.parent;
      }
      return parent;
    }

    /** A child, or what is mounted on it */
    method StepDown(node: FSNode, name: string) returns (c: FSNode?)
      requires Valid() && node in nodes && node.flags == Directory
      ensures c == Through(View(), Find(View(), View()[node].children, name))
    {
      ghost var g := View();
      c := Lookup(node, name);
      if c != null {
        assert c in nodes && g[c].flags == c.flags && g[c].mountTarget == c.mountTarget;
        if c.flags == Mountpoint && c.mountTarget != null {
          c := c.mountTarget;
        }
      }
    }

    /** One step of the walk */
    method Walk(node: FSNode, name: string) returns (c: FSNode?)
      requires Valid() && node in nodes && node.flags == Directory
      ensures c == Enter(View(), node, name)
    {
      if name == "." {
        c := node;
      } else if name == ".." {
        c := GoUp(node);
      } else {
        c := StepDown(node, name);
      }
    }

    /** The loop of `vfs_resolve_path`, from position `from` of the path */
    method FollowPath(path: string, from: nat, start: FSNode?) returns (node: FSNode?)
      requires Valid() && Known(start)
      requires from <= |path| && (from < |path| ==> path[from] != '/')
      requires WalkFits(View(), start, Names(path[from..]))
      ensures node == Descend(View(), start, Names(path[from..]))
    {
      ghost var g := View();
      var i := from;
      node := start;
      ghost var rest := Names(path[i..]);
      while node != null && node.flags == Directory
        invariant from <= i <= |path| && (i < |path| ==> path[i] != '/')
        invariant View() == g && Known(node)
        invariant rest == Names(path[i..]) && WalkFits(g, node, rest)
        invariant Descend(g, node, rest) == Descend(g, start, Names(path[from..]))
        decreases |path| - i
      {
        var name, next := NextName(path, i);
        if name == "" {
          break;
        }
        rest := Names(path[next..]);
        WalkFitsStep(g, node, name, rest);
        DescendStep(g, node, name, rest);
        node := Walk(node, name);
        i := next;
      }
    }

    /** `vfs_resolve_path` */
    method ResolvePath(path: string, cwd: FSNode?) returns (node: FSNode?)
      requires Valid() && Known(cwd) && PathFits(View(), root, path, cwd)
      ensures node == Resolve(View(), root, path, cwd)
    {
      if path == "" {
        return null;
      }
      assert path[0..] == path;
      if path[0] == '/' {
        var i := SkipSlashes(path, 0);
        node := FollowPath(path, i, root);
      } else {
        node := FollowPath(path, 0, cwd);
      }
    }

    /** `vfs_add_child` */
    method AddChild(d: FSNode?, c: FSNode)
      requires Valid() && Known(d) && c in nodes
      modifies nodes
      ensures Valid() && View() == if IsDir(old(View()), d) then Attach(old(View()), d, c) else old(View())
    {
      if d == null || d.flags != Directory {
        return;
      }
      d.children := d.children + [c];
      c.parent := d;
      AttachClosed(old(View()), d, c);
      assert View() == Attach(old(View()), d, c);
    }

    /** `vfs_mount` */
    method MountAt(m: FSNode?, r: FSNode?) returns (ok: bool)
      requires Valid() && Known(m) && Known(r)
      modifies nodes
      ensures Valid() && View() == Mount(old(View()), m, r)
      ensures ok <==> IsDir(old(View()), m) && IsDir(old(View()), r)
    {
      if m == null || r == null {
        return false;
      }
      if r.flags != Directory || m.flags != Directory {
        return false;
      }
      m.flags := Mountpoint;
      m.mountTarget := r;
      r.parent := m;
      MountClosed(old(View()), m, r);
      assert View() == Mount(old(View()), m, r);
      return true;
    }

    /** `new RamFSFile` or `new RamFSDirectory`, then `vfs_set_name` */
    method NewNode(name: string, flags: Flags) returns (node: FSNode)
      requires Valid() && |name| < NAME_MAX
      modifies this`nodes
      ensures Valid() && fresh(node) && nodes == old(nodes) + {node}
      ensures View() == old(View())[node := Node(name, flags, null, null, [])]
    {
      node := new FSNode(flags);
      node.name := name;
      nodes := nodes + {node};
      assert View() == old(View())[node := Node(name, flags, null, null, [])];
    }

    /** A new node, attached to directory `d` */
    method CreateIn(d: FSNode, name: string, flags: Flags) returns (node: FSNode)
      requires Valid() && IsDir(View(), d) && |name| < NAME_MAX && flags != Mountpoint
      requires Find(View(), View()[d].children, name) == null
      modifies this`nodes, nodes
      ensures Valid() && fresh(node) && nodes == old(nodes) + {node}
      ensures CanCreate(old(View()), d, node, name, flags)
      ensures View() == Create(old(View()), d, node, name, flags)
    {
      ghost var g := View();
      node := NewNode(name, flags);
      AttachNew(g, d, node, name, flags);
      AddChild(d, node);
    }

    /** Makes an entry in directory `d` unless there is one of that name. */
    method MakeIn(d: FSNode?, name: string, flags: Flags) returns (created: FSNode?)
      requires Valid() && Known(d) && |name| < NAME_MAX && flags != Mountpoint
      modifies this`nodes, nodes
      ensures Valid() && fresh(nodes - old(nodes)) && Makes(old(View()), View(), d, name, flags, created)
    {
      if d == null || d.flags != Directory {
        return null;
      }
      var existing := Lookup(d, name);
      if existing != null {
        return null;
      }
      created := CreateIn(d, name, flags);
    }

    /** `path` is within the limits of `touch` and `mkdir`. */
    ghost predicate EntryFits(path: string)
      requires Valid()
      reads this, nodes
    {
      PathFits(View(), root, SplitPath(path).0, current) && |SplitPath(path).1| < NAME_MAX
    }

    /** One argument of `builtin_touch` or `builtin_mkdir` */
    method MakeEntry(path: string, flags: Flags) returns (created: FSNode?)
      requires Valid() && (flags == File || flags == Directory) && EntryFits(path)
      modifies this`nodes, nodes
      ensures Valid() && fresh(nodes - old(nodes))
      ensures var d := Resolve(old(View()), root, SplitPath(path).0, current);
        Makes(old(View()), View(), d, SplitPath(path).1, flags, created)
    {
      var dir, name := SplitPathInto(path);
      var d := ResolvePath(dir, current);
      created := MakeIn(d, name, flags);
    }

    /** `builtin_touch` or `builtin_mkdir`: one argument after the other, each on the graph that the last one left */
    method MakeEntries(paths: seq<string>, flags: Flags) returns (ghost graphs: seq<Graph>, ghost created: seq<FSNode?>)
      requires Valid() && (flags == File || flags == Directory)
      requires forall path :: path in paths ==> NamesFit(Names(SplitPath(path).0)) && |SplitPath(path).1| < NAME_MAX
      modifies this`nodes, nodes
      ensures Valid() && fresh(nodes - old(nodes)) && |graphs| == |paths| + 1 && |created| == |paths|
      ensures graphs[0] == old(View()) && graphs[|paths|] == View()
      ensures forall i {:trigger MakesAt(graphs, created, root, current, paths, flags, i)} ::
                0 <= i < |paths| ==> MakesAt(graphs, created, root, current, paths, flags, i)
    {
      graphs, created := [View()], [];
      for i := 0 to |paths|
        invariant Valid() && |graphs| == i + 1 && |created| == i
        invariant graphs[0] == old(View()) && graphs[i] == View()
        invariant fresh(nodes - old(nodes))
        invariant forall j {:trigger MakesAt(graphs, created, root, current, paths, flags, j)} ::
                    0 <= j < i ==> MakesAt(graphs, created, root, current, paths, flags, j)
      {
        assert paths[i] in paths;
        NamesFitPath(View(), root, SplitPath(paths[i]).0, current);
        ghost var graphs0, created0 := graphs, created;
        var node := MakeEntry(paths[i], flags);
        graphs, created := graphs + [View()], created + [node];
        forall j | 0 <= j <= i
          ensures MakesAt(graphs, created, root, current, paths, flags, j)
        {
          assert j < i ==> MakesAt(graphs0, created0, root, current, paths, flags, j);
        }
      }
    }

    /** `builtin_mount`: the source comes first, and a node is not mounted on itself. */
    method MountCommand(sourcePath: string, targetPath: string) returns (ok: bool)
      requires Valid() && PathFits(View(), root, sourcePath, current)
      requires Resolve(View(), root, sourcePath, current) != null ==> PathFits(View(), root, targetPath, current)
      modifies nodes
      ensures Valid()
      ensures var g := old(View());
        var r, m := Resolve(g, root, sourcePath, current), Resolve(g, root, targetPath, current);
        && (ok <==> IsDir(g, m) && IsDir(g, r) && m != r)
        && View() == if m == r then g else Mount(g, m, r)
    {
      var r := ResolvePath(sourcePath, current);
      if r == null {
        return false;
      }
      var m := ResolvePath(targetPath, current);
      if m == null || r == m {
        return false;
      }
      ok := MountAt(m, r);
    }

    /** `builtin_cd` with one argument; without one, the home directory is `/`. */
    method ChangeDirectory(path: string) returns (ok: bool)
      requires Valid() && PathFits(View(), root, path, current)
      modifies this`current
      ensures Valid() && View() == old(View())
      ensures var d := Resolve(View(), root, path, old(current));
        (ok <==> IsDir(View(), d)) && current == if ok then d else old(current)
    {
      var existing := ResolvePath(path, current);
      if existing == null || existing.flags != Directory {
        return false;
      }
      current := existing;
      return true;
    }

    /** The first root, which is where the shell starts */
    method BootRoot()
      requires Valid() && nodes == {}
      modifies this
      ensures Valid() && root != null && current == root && fresh(root)
      ensures View() == RootOnly(root) && nodes == {root}
    {
      var rootDir := NewNode("/", Directory);
      root, current := rootDir, rootDir;
      assert View() == RootOnly(rootDir);
    }

    /** A file in it */
    method BootFile() returns (file: FSNode)
      requires Valid() && root != null && View() == RootOnly(root)
      modifies this`nodes, nodes
      ensures Valid() && fresh(file) && file != root && View() == WithFile(root, file)
    {
      file := CreateIn(root, "test.txt", File);
      RootWithFile(root, file);
    }

    /** A directory in it, to mount on */
    method BootDirectory(file: FSNode) returns (mnt: FSNode)
      requires Valid() && root != null && file != root && View() == WithFile(root, file)
      modifies this`nodes, nodes
      ensures Valid() && fresh(mnt) && mnt != root && mnt != file && View() == Tree(root, file, mnt)
    {
      RootWithFile(root, file);
      mnt := CreateIn(root, "mnt", Directory);
      RootWithDirectory(root, file, mnt);
    }

    /** A second root, mounted on it */
    method BootSecond(file: FSNode, mnt: FSNode) returns (second: FSNode)
      requires Valid() && root != null && root != file && root != mnt && file != mnt && View() == Tree(root, file, mnt)
      modifies this`nodes, nodes
      ensures Valid() && fresh(second) && Booted(View(), root, file, mnt, second)
    {
      second := NewNode("second", Directory);
      ghost var g := View();
      var ok := MountAt(mnt, second);
      MountSecond(g, root, file, mnt, second);
    }

    /** The file system part of `_start` */
    method Boot() returns (file: FSNode, mnt: FSNode, second: FSNode)
      requires Valid() && nodes == {}
      modifies this
      ensures Valid() && root != null && current == root && Booted(View(), root, file, mnt, second)
    {
      BootRoot();
      file := BootFile();
      mnt := BootDirectory(file);
      second := BootSecond(file, mnt);
    }
  }

  /** The `i`th argument of `touch` or `mkdir` */
  ghost predicate MakesAt(graphs: seq<Graph>, created: seq<FSNode?>, root: FSNode?, cwd: FSNode?,
                          paths: seq<string>, flags: Flags, i: nat)
    requires |graphs| == |created| + 1 && i < |created| && i < |paths|
  {
    var g := graphs[i];
    && Closed(g) && (root == null || root in g) && (cwd == null || cwd in g)
    && Makes(g, graphs[i + 1], Resolve(g, root, SplitPath(paths[i]).0, cwd), SplitPath(paths[i]).1, flags, created[i])
  }

  /**
   A made entry is a new node of the kind and name asked for, which the path leads to from now on, if its last part
   is a real name and its directory part was not cut. Whatever path led to a node before leads there still.
   */
  lemma MakesResolves(g: Graph, g': Graph, root: FSNode?, cwd: FSNode?, path: string, flags: Flags, created: FSNode?)
    requires Closed(g) && (root == null || root in g) && (cwd == null || cwd in g) && flags != Mountpoint
    requires path != "" && LastSlash(path) < DIR_MAX
    requires Makes(g, g', Resolve(g, root, SplitPath(path).0, cwd), SplitPath(path).1, flags, created)
    ensures Closed(g') && g.Keys <= g'.Keys
    ensures created != null <==>
      var d := Resolve(g, root, SplitPath(path).0, cwd);
      IsDir(g, d) && forall c :: c in g[d].children ==> g[c].name != SplitPath(path).1
    ensures created == null ==> g' == g
    ensures created != null ==>
      created !in g && created in g' && g'[created].name == SplitPath(path).1 && g'[created].flags == flags
    ensures created != null && SplitPath(path).1 != "" && IsEntry(SplitPath(path).1) ==>
      Resolve(g', root, path, cwd) == created
  {
    var d, name := Resolve(g, root, SplitPath(path).0, cwd), SplitPath(path).1;
    if created != null {
      CreateClosed(g, d, created, name, flags);
      CreateResolvesIff(g, root, path, cwd, d, created, flags);
    }
    if IsDir(g, d) && Find(g, g[d].children, name) == null {
      forall c | c in g[d].children
        ensures g[c].name != name
      {
        var k :| 0 <= k < |g[d].children| && g[d].children[k] == c;
      }
    }
  }

  lemma MakesKeepsPaths(g: Graph, g': Graph, root: FSNode?, d: FSNode?, name: string, flags: Flags, created: FSNode?,
                        q: string, c: FSNode?)
    requires Closed(g) && (root == null || root in g) && (c == null || c in g)
    requires Makes(g, g', d, name, flags, created) && Resolve(g, root, q, c) != null
    ensures Closed(g') && (root == null || root in g') && (c == null || c in g')
    ensures Resolve(g', root, q, c) == Resolve(g, root, q, c)
  {
    if created != null {
      CreateIsMonotone(g, root, d, created, name, flags, q, c);
    }
  }

  // ---------- The graph that `_start` builds ----------

  function RootOnly(root: FSNode): Graph {
    map[root := Node("/", Directory, null, null, [])]
  }

  function WithFile(root: FSNode, file: FSNode): Graph {
    map[root := Node("/", Directory, null, null, [file]), file := Node("test.txt", File, root, null, [])]
  }

  function Tree(root: FSNode, file: FSNode, mnt: FSNode): Graph {
    map[root := Node("/", Directory, null, null, [file, mnt]), file := Node("test.txt", File, root, null, []),
        mnt := Node("mnt", Directory, root, null, [])]
  }

  lemma RootWithFile(root: FSNode, file: FSNode)
    requires root != file
    ensures Create(RootOnly(root), root, file, "test.txt", File) == WithFile(root, file)
    ensures Find(WithFile(root, file), WithFile(root, file)[root].children, "mnt") == null
  {
    assert [] + [file] == [file];
  }

  lemma RootWithDirectory(root: FSNode, file: FSNode, mnt: FSNode)
    requires root != file && root != mnt && file != mnt
    ensures Create(WithFile(root, file), root, mnt, "mnt", Directory) == Tree(root, file, mnt)
  {
    assert [file] + [mnt] == [file, mnt];
  }

  ghost predicate Booted(g: Graph, root: FSNode, file: FSNode, mnt: FSNode, second: FSNode) {
    && AllDifferent(root, file, mnt, second)
    && g == map[root := Node("/", Directory, null, null, [file, mnt]), file := Node("test.txt", File, root, null, []),
                mnt := Node("mnt", Mountpoint, root, second, []), second := Node("second", Directory, mnt, null, [])]
  }

  lemma MountSecond(g: Graph, root: FSNode, file: FSNode, mnt: FSNode, second: FSNode)
    requires AllDifferent(root, file, mnt, second) && g == AddRoot(Tree(root, file, mnt), second, "second")
    ensures Booted(Mount(g, mnt, second), root, file, mnt, second)
  {
  }

  /** What the kernel boots with is linked, and `/mnt` leads to the second root. */
  lemma BootedLinked(g: Graph, root: FSNode, file: FSNode, mnt: FSNode, second: FSNode)
    requires Booted(g, root, file, mnt, second)
    ensures Linked(g) && Enter(g, root, "mnt") == second && Up(g, second) == root
  {
    assert g[root].children == [file, mnt];
    assert file in g[root].children && mnt in g[root].children;
    assert UniqueNames(g, g[root].children) by {
      assert "test.txt" != "mnt";
    }
  }

  lemma BootedSteps(g: Graph, root: FSNode, file: FSNode, mnt: FSNode, second: FSNode)
    requires Booted(g, root, file, mnt, second)
    ensures Closed(g) && IsDir(g, root) && IsDir(g, second)
    ensures Enter(g, root, "mnt") == second && Enter(g, root, "test.txt") == file && Enter(g, second, "..") == root
  {
    BootedLinked(g, root, file, mnt, second);
    FindFirst(g, g[root].children, "test.txt", 0);
  }

  /** In that graph, absolute paths lead to the same places from everywhere. */
  lemma BootedPaths(g: Graph, root: FSNode, file: FSNode, mnt: FSNode, second: FSNode, c: FSNode?)
    requires Booted(g, root, file, mnt, second) && (c == null || c in g)
    ensures Closed(g)
    ensures Resolve(g, root, "/" + "mnt", c) == second && Resolve(g, root, "/" + "test.txt", c) == file
    ensures Resolve(g, root, "/", c) == root && Resolve(g, root, "..", second) == root
  {
    BootedSteps(g, root, file, mnt, second);
    ResolveFromRoot(g, root, "mnt", c);
    ResolveFromRoot(g, root, "test.txt", c);
    ResolveAbsolute(g, root, "", c);
    ResolveName(g, root, second, "..");
  }

  /** A node becomes the last child of a directory. */
  function Attach(g: Graph, d: FSNode, c: FSNode): Graph
    requires d in g && c in g
  {
    var g1 := g[d := g[d].(children := g[d].children + [c])];
    g1[c := g1[c].(parent := d)]
  }

  /** Exactly the child list of the directory and the parent of the child change. */
  lemma AttachChanges(g: Graph, d: FSNode, c: FSNode, n: FSNode)
    requires d in g && c in g && n in g
    ensures var g' := Attach(g, d, c);
      && g'.Keys == g.Keys
      && g'[n].children == (if n == d then g[d].children + [c] else g[n].children)
      && g'[n].parent == (if n == c then d else g[n].parent)
      && g'[n].name == g[n].name && g'[n].flags == g[n].flags && g'[n].mountTarget == g[n].mountTarget
  {
  }

  lemma AttachNew(g: Graph, d: FSNode, node: FSNode, name: string, flags: Flags)
    requires IsDir(g, d) && node !in g
    ensures var g1 := g[node := Node(name, flags, null, null, [])];
      IsDir(g1, d) && Attach(g1, d, node) == Create(g, d, node, name, flags)
  {
  }

  lemma AttachClosed(g: Graph, d: FSNode, c: FSNode)
    requires Closed(g) && d in g && c in g
    ensures Closed(Attach(g, d, c))
  {
  }

  /** What `touch` and `mkdir` do once they know the directory: a new node, unless there is an entry of that name. */
  ghost predicate Makes(g: Graph, g': Graph, d: FSNode?, name: string, flags: Flags, created: FSNode?)
    requires Closed(g)
  {
    if IsDir(g, d) && Find(g, g[d].children, name) == null
    then created != null && CanCreate(g, d, created, name, flags) && g' == Create(g, d, created, name, flags)
    else created == null && g' == g
  }

  lemma DescendStep(g: Graph, n: FSNode, name: string, rest: seq<string>)
    requires Closed(g) && IsDir(g, n)
    ensures Descend(g, n, [name] + rest) == Descend(g, Enter(g, n, name), rest)
  {
  }
}
