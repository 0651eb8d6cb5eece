/** What `touch` and `mkdir` do to the meaning of paths, and what whole runs of the shell keep. */
module VfsCreate {
  import opened Paths
  import opened VfsGraph

  /** sizeof(dirname) in `builtin_touch` and `builtin_mkdir` */
  const DIR_MAX := 256

  /** `vfs_split_path`: the directory part, cut to its buffer, and the name after the last slash. */
  function SplitPath(full: string): (r: (string, string))
  {
    var k := LastSlash(full);
    if k == -1 then (".", full)
    else if k == 0 then ("/", full[1..])
    else (full[..if k < DIR_MAX - 1 then k else DIR_MAX - 1], full[k + 1..])
  }

  /** The two parts have the names of the whole, and the directory part starts where the whole starts. */
  lemma SplitNames(full: string)
    requires full != "" && LastSlash(full) < DIR_MAX
    ensures var (dir, base) := SplitPath(full);
      && dir != "" && (dir[0] == '/' <==> full[0] == '/')
      && '/' !in base
      && if LastSlash(full) == -1 then dir == "." && base == full else Names(full) == Names(dir) + Names(base)
  {
    var k := LastSlash(full);
    if k >= 0 {
      NamesCut(full, k);
      NamesOfSlash();
    }
  }

  /** The name is what follows the last slash, and the directory part what precedes it, cut to its buffer. */
  lemma SplitRejoins(full: string)
    ensures var (dir, base) := SplitPath(full);
      && '/' !in base
      && if '/' !in full then dir == "." && base == full
         else if full[0] == '/' && '/' !in full[1..] then dir == "/" && full == "/" + base
         else exists rest ::
                && 0 < |dir| < DIR_MAX && full == dir + rest + "/" + base
                && (rest == "" || |dir| == DIR_MAX - 1)
  {
    var k := LastSlash(full);
    var (dir, base) := SplitPath(full);
    if k > 0 {
      var rest := full[|dir|..k];
      assert full == full[..k] + "/" + full[k + 1..];
      assert full[..k] == dir + rest;
      assert full[0] == '/' ==> full[1..][k - 1] == '/';
    } else if k == 0 {
      assert full == "/" + full[1..];
    }
  }

  /** A path whose directory part was not cut leads where its name leads from its directory. */
  lemma ResolveSplit(g: Graph, root: FSNode?, full: string, cwd: FSNode?)
    requires Closed(g) && (root == null || root in g) && (cwd == null || cwd in g)
    requires full != "" && LastSlash(full) < DIR_MAX
    ensures Resolve(g, root, full, cwd)
         == Descend(g, Resolve(g, root, SplitPath(full).0, cwd), Names(SplitPath(full).1))
  {
    var (dir, base) := SplitPath(full);
    SplitNames(full);
    if LastSlash(full) == -1 {
      NamesOfName(".");
      if IsDir(g, cwd) {
        ResolveName(g, root, cwd, ".");
      }
    } else {
      DescendAppend(g, if full[0] == '/' then root else cwd, Names(dir), Names(base));
    }
  }

  /** `touch` and `mkdir`: a fresh node becomes the last child of directory `d`. */
  function Create(g: Graph, d: FSNode, node: FSNode, name: string, flags: Flags): Graph
    requires d in g
  {
    g[d := g[d].(children := g[d].children + [node])][node := Node(name, flags, d, null, [])]
  }

  ghost predicate CanCreate(g: Graph, d: FSNode, node: FSNode, name: string, flags: Flags) {
    && Closed(g) && IsDir(g, d) && node !in g && flags != Mountpoint
    && Find(g, g[d].children, name) == null
  }

  lemma CreateClosed(g: Graph, d: FSNode, node: FSNode, name: string, flags: Flags)
    requires Closed(g) && IsDir(g, d) && node !in g
    ensures Closed(Create(g, d, node, name, flags))
  {
  }

  lemma CreateHolds(g: Graph, d: FSNode, node: FSNode, name: string, flags: Flags, p: FSNode, c: FSNode)
    requires CanCreate(g, d, node, name, flags) && (p in g || p == node)
    ensures Holds(Create(g, d, node, name, flags), p, c) <==> (p in g && Holds(g, p, c)) || (p == d && c == node)
  {
  }

  lemma CreateKeepsNames(g: Graph, d: FSNode, node: FSNode, name: string, flags: Flags, p: FSNode)
    requires CanCreate(g, d, node, name, flags) && Closed(Create(g, d, node, name, flags)) && (p in g || p == node)
    requires p in g ==> UniqueNames(g, g[p].children)
    ensures UniqueNames(Create(g, d, node, name, flags), Create(g, d, node, name, flags)[p].children)
  {
  }

  lemma CreateLinked(g: Graph, d: FSNode, node: FSNode, name: string, flags: Flags)
    requires Linked(g) && CanCreate(g, d, node, name, flags)
    ensures Linked(Create(g, d, node, name, flags))
  {
    var g' := Create(g, d, node, name, flags);
    CreateClosed(g, d, node, name, flags);
    forall p, c | p in g' && c in g' && Holds(g', p, c)
      ensures g'[c].parent == p
    {
      CreateHolds(g, d, node, name, flags, p, c);
    }
    forall c | c in g' && g'[c].parent != null
      ensures Holds(g', g'[c].parent, c)
    {
      CreateHolds(g, d, node, name, flags, g'[c].parent, c);
    }
    forall p | p in g'
      ensures UniqueNames(g', g'[p].children)
    {
      CreateKeepsNames(g, d, node, name, flags, p);
    }
  }

  /** A search that found a child, or looks for another name, is not changed by a new last child. */
  lemma FindAppend(g: Graph, g': Graph, children: seq<FSNode>, node: FSNode, name: string)
    requires node in g' && forall c :: c in children ==> c in g && c in g' && g'[c].name == g[c].name
    ensures Find(g', children + [node], name) ==
      if Find(g, children, name) != null then Find(g, children, name)
      else if g'[node].name == name then node else null
  {
    if children != [] && g[children[0]].name != name {
      assert (children + [node])[1..] == children[1..] + [node];
    }
  }

  /** Looking up a child after a creation, mounts included. */
  lemma LookupAfterCreate(g: Graph, d: FSNode, node: FSNode, name: string, flags: Flags, n: FSNode, step: string)
    requires CanCreate(g, d, node, name, flags) && n in g
    ensures var g' := Create(g, d, node, name, flags);
      && Closed(g')
      && Through(g', Find(g', g'[n].children, step)) ==
         if n == d && step == name then node else Through(g, Find(g, g[n].children, step))
  {
    var g' := Create(g, d, node, name, flags);
    CreateClosed(g, d, node, name, flags);
    if n == d {
      FindAppend(g, g', g[d].children, node, step);
    } else {
      FindStable(g, g', g[n].children, step);
    }
  }

  lemma UpAfterCreate(g: Graph, d: FSNode, node: FSNode, name: string, flags: Flags, n: FSNode)
    requires CanCreate(g, d, node, name, flags) && n in g
    ensures Closed(Create(g, d, node, name, flags)) && Up(Create(g, d, node, name, flags), n) == Up(g, n)
  {
  }

  lemma EnterAfterCreate(g: Graph, d: FSNode, node: FSNode, name: string, flags: Flags, n: FSNode, step: string)
    requires CanCreate(g, d, node, name, flags) && n in g
    ensures var g' := Create(g, d, node, name, flags);
      && Closed(g')
      && Enter(g', n, step) ==
         if n == d && step == name && step != "." && step != ".." then node else Enter(g, n, step)
  {
    LookupAfterCreate(g, d, node, name, flags, n, step);
    UpAfterCreate(g, d, node, name, flags, n);
  }

  lemma {:induction false} CreateKeepsDescents(g: Graph, d: FSNode, node: FSNode, name: string, flags: Flags,
                                               n: FSNode?, names: seq<string>)
    requires CanCreate(g, d, node, name, flags) && (n == null || n in g)
    requires Descend(g, n, names) != null
    ensures Closed(Create(g, d, node, name, flags))
    ensures Descend(Create(g, d, node, name, flags), n, names) == Descend(g, n, names)
    decreases |names|
  {
    CreateClosed(g, d, node, name, flags);
    if n != null && g[n].flags == Directory && names != [] {
      EnterAfterCreate(g, d, node, name, flags, n, names[0]);
      var e := Enter(g, n, names[0]);
      assert e != null;
      CreateKeepsDescents(g, d, node, name, flags, e, names[1..]);
    }
  }

  /** Every path that led to a node still leads to that node, whatever the current directory. */
  lemma CreateIsMonotone(g: Graph, root: FSNode?, d: FSNode, node: FSNode, name: string, flags: Flags,
                         q: string, c: FSNode?)
    requires CanCreate(g, d, node, name, flags) && (root == null || root in g) && (c == null || c in g)
    requires Resolve(g, root, q, c) != null
    ensures Closed(Create(g, d, node, name, flags))
    ensures Resolve(Create(g, d, node, name, flags), root, q, c) == Resolve(g, root, q, c)
  {
    CreateKeepsDescents(g, d, node, name, flags, if q[0] == '/' then root else c, Names(q));
  }

  lemma CreatedIsEntered(g: Graph, d: FSNode, node: FSNode, name: string, flags: Flags)
    requires CanCreate(g, d, node, name, flags) && '/' !in name
    ensures Closed(Create(g, d, node, name, flags))
    ensures Descend(Create(g, d, node, name, flags), d, Names(name)) == node
            <==> name != "" && name != "." && name != ".."
  {
    var g' := Create(g, d, node, name, flags);
    CreateClosed(g, d, node, name, flags);
    if name != "" {
      NamesOfName(name);
      EnterAfterCreate(g, d, node, name, flags, d, name);
      assert Descend(g', Enter(g', d, name), []) == Enter(g', d, name);
    }
  }

  /** The created node is found under the path it was created with exactly when its name is a real one. */
  lemma CreateResolvesIff(g: Graph, root: FSNode?, path: string, cwd: FSNode?, d: FSNode, node: FSNode, flags: Flags)
    requires Closed(g) && (root == null || root in g) && (cwd == null || cwd in g)
    requires path != "" && LastSlash(path) < DIR_MAX
    requires Resolve(g, root, SplitPath(path).0, cwd) == d
    requires CanCreate(g, d, node, SplitPath(path).1, flags)
    ensures var name := SplitPath(path).1;
      && Closed(Create(g, d, node, name, flags))
      && (Resolve(Create(g, d, node, name, flags), root, path, cwd) == node
          <==> name != "" && name != "." && name != "..")
  {
    var (dir, name) := SplitPath(path);
    var g' := Create(g, d, node, name, flags);
    CreateIsMonotone(g, root, d, node, name, flags, dir, cwd);
    ResolveSplit(g', root, path, cwd);
    SplitNames(path);
    CreatedIsEntered(g, d, node, name, flags);
  }

  /** A new directory that nothing holds yet, as `_start` makes one to mount it. */
  function AddRoot(g: Graph, node: FSNode, name: string): Graph {
    g[node := Node(name, Directory, null, null, [])]
  }

  lemma AddRootLinked(g: Graph, node: FSNode, name: string)
    requires Linked(g) && node !in g
    ensures Linked(AddRoot(g, node, name))
  {
    var g' := AddRoot(g, node, name);
    forall c | c in g' && g'[c].parent != null
      ensures Holds(g', g'[c].parent, c)
    {
      assert Holds(g, g[c].parent, c);
    }
    forall p, c | p in g' && c in g' && Holds(g', p, c)
      ensures g'[c].parent == p
    {
      assert Holds(g, p, c);
    }
    forall p | p in g'
      ensures UniqueNames(g', g'[p].children)
    {
      assert p in g ==> UniqueNames(g, g[p].children);
    }
  }

  lemma {:induction false} AddRootKeepsDescents(g: Graph, node: FSNode, name: string, n: FSNode?, names: seq<string>)
    requires Closed(g) && node !in g && (n == null || n in g)
    ensures Closed(AddRoot(g, node, name)) && Descend(AddRoot(g, node, name), n, names) == Descend(g, n, names)
    decreases |names|
  {
    if n != null && g[n].flags == Directory && names != [] {
      FindStable(g, AddRoot(g, node, name), g[n].children, names[0]);
      AddRootKeepsDescents(g, node, name, Enter(g, n, names[0]), names[1..]);
    }
  }

  lemma CreateKeepsUp(g: Graph, d: FSNode, node: FSNode, name: string, flags: Flags)
    requires CanCreate(g, d, node, name, flags) && UpInverts(g)
    ensures Closed(Create(g, d, node, name, flags)) && UpInverts(Create(g, d, node, name, flags))
  {
    var g' := Create(g, d, node, name, flags);
    CreateClosed(g, d, node, name, flags);
    forall e, step, n | e in g' && n in g' && Leads(g', e, step, n)
      ensures Up(g', n) == e
    {
      if e != node {
        EnterAfterCreate(g, d, node, name, flags, e, step);
        if n != node {
          UpAfterCreate(g, d, node, name, flags, n);
          assert Leads(g, e, step, n);
        }
      }
    }
  }

  lemma AddRootKeepsUp(g: Graph, node: FSNode, name: string)
    requires Closed(g) && UpInverts(g) && node !in g
    ensures Closed(AddRoot(g, node, name)) && UpInverts(AddRoot(g, node, name))
  {
    var g' := AddRoot(g, node, name);
    forall e, step, n | e in g' && n in g' && Leads(g', e, step, n)
      ensures Up(g', n) == e
    {
      if e != node {
        FindStable(g, g', g[e].children, step);
        assert Leads(g, e, step, n);
      }
    }
  }

  // ---------- Runs ----------

  /** What the kernel and its shell do to the graph. */
  datatype Op =
    | Make(dir: FSNode, node: FSNode, name: string, flags: Flags)
    | MakeRoot(root: FSNode, rootName: string)
    | MountOn(mountpoint: FSNode, source: FSNode)

  /** Making an absent entry or a new root, or mounting any node on any other */
  ghost predicate OpStep(g: Graph, op: Op, g': Graph) {
    match op
    case Make(d, node, name, flags) => CanCreate(g, d, node, name, flags) && g' == Create(g, d, node, name, flags)
    case MakeRoot(r, name) => r !in g && g' == AddRoot(g, r, name)
    case MountOn(m, r) => m in g && r in g && g' == Mount(g, m, r)
  }

  /** `graphs` are the graphs before, between and after `ops`, from the empty graph. */
  ghost predicate Run(graphs: seq<Graph>, ops: seq<Op>) {
    && |graphs| == |ops| + 1 && graphs[0] == map[]
    && forall i {:trigger StepAt(graphs, ops, i)} :: 0 <= i < |ops| ==> StepAt(graphs, ops, i)
  }

  ghost predicate StepAt(graphs: seq<Graph>, ops: seq<Op>, i: nat)
    requires |graphs| == |ops| + 1 && i < |ops|
  {
    OpStep(graphs[i], ops[i], graphs[i + 1])
  }

  ghost predicate NamesUnique(g: Graph)
    requires Closed(g)
  {
    forall p :: p in g ==> UniqueNames(g, g[p].children)
  }

  lemma StepKeepsNames(g: Graph, op: Op, g': Graph)
    requires OpStep(g, op, g') && Closed(g) && NamesUnique(g)
    ensures Closed(g') && NamesUnique(g')
  {
    match op
    case Make(d, node, name, flags) =>
      CreateClosed(g, d, node, name, flags);
      forall p | p in g'
        ensures UniqueNames(g', g'[p].children)
      {
        CreateKeepsNames(g, d, node, name, flags, p);
      }
    case MakeRoot(r, name) =>
      forall p | p in g'
        ensures UniqueNames(g', g'[p].children)
      {
        assert p in g ==> UniqueNames(g, g[p].children);
      }
    case MountOn(m, r) =>
      MountClosed(g, m, r);
      forall p | p in g'
        ensures UniqueNames(g', g'[p].children)
      {
        MountKeepsNames(g, m, r, p);
      }
  }

  /** Sibling names stay unique over every run, whatever is mounted where. */
  lemma {:induction false} RunKeepsNames(graphs: seq<Graph>, ops: seq<Op>, k: nat)
    requires Run(graphs, ops) && k < |graphs|
    ensures Closed(graphs[k]) && NamesUnique(graphs[k])
  {
    if k > 0 {
      RunKeepsNames(graphs, ops, k - 1);
      assert StepAt(graphs, ops, k - 1);
      StepKeepsNames(graphs[k - 1], ops[k - 1], graphs[k]);
    }
  }

  /** If the operation is a mount that takes place, the steps down that it concerns start at the mountpoint's parent. */
  ghost predicate OpKeepsUp(g: Graph, op: Op) {
    op.MountOn? && IsDir(g, op.mountpoint) && IsDir(g, op.source) ==>
      Closed(g) && MountKeepsUp(g, op.mountpoint, op.source)
  }

  lemma StepUpIff(g: Graph, op: Op, g': Graph)
    requires OpStep(g, op, g') && Closed(g) && Closed(g') && UpInverts(g)
    ensures UpInverts(g') <==> OpKeepsUp(g, op)
  {
    match op
    case Make(d, node, name, flags) => CreateKeepsUp(g, d, node, name, flags);
    case MakeRoot(r, name) => AddRootKeepsUp(g, r, name);
    case MountOn(m, r) =>
      if IsDir(g, m) && IsDir(g, r) {
        MountUpIff(g, m, r);
      }
  }

  ghost predicate UpInvertsAt(graphs: seq<Graph>, k: nat)
    requires k < |graphs|
  {
    Closed(graphs[k]) && UpInverts(graphs[k])
  }

  /** `..` stays the inverse of a step down over a whole run exactly when every mount of the run keeps it so. */
  lemma {:induction false} RunUpIff(graphs: seq<Graph>, ops: seq<Op>, k: nat)
    requires Run(graphs, ops) && k < |graphs|
    ensures (forall j :: 0 <= j <= k ==> UpInvertsAt(graphs, j))
            <==> (forall j :: 0 <= j < k ==> OpKeepsUp(graphs[j], ops[j]))
  {
    RunKeepsNames(graphs, ops, k);
    if k > 0 {
      RunUpIff(graphs, ops, k - 1);
      RunKeepsNames(graphs, ops, k - 1);
      assert StepAt(graphs, ops, k - 1);
      if UpInvertsAt(graphs, k - 1) {
        StepUpIff(graphs[k - 1], ops[k - 1], graphs[k]);
        assert UpInvertsAt(graphs, k) <==> OpKeepsUp(graphs[k - 1], ops[k - 1]);
      }
    }
  }

  /** If the operation is a mount that takes place, the mounted directory has no parent, or the mountpoint itself. */
  ghost predicate OpKeepsLinks(g: Graph, op: Op) {
    op.MountOn? && IsDir(g, op.mountpoint) && IsDir(g, op.source) ==>
      g[op.source].parent == null || g[op.source].parent == op.mountpoint
  }

  lemma StepLinkedIff(g: Graph, op: Op, g': Graph)
    requires OpStep(g, op, g') && Linked(g)
    ensures Linked(g') <==> OpKeepsLinks(g, op)
  {
    match op
    case Make(d, node, name, flags) => CreateLinked(g, d, node, name, flags);
    case MakeRoot(r, name) => AddRootLinked(g, r, name);
    case MountOn(m, r) =>
      if IsDir(g, m) && IsDir(g, r) {
        MountLinkedIff(g, m, r);
      }
  }

  /** Parents and holders agree over a whole run exactly when it mounts only directories that nothing holds yet. */
  lemma {:induction false} RunLinkedIff(graphs: seq<Graph>, ops: seq<Op>, k: nat)
    requires Run(graphs, ops) && k < |graphs|
    ensures (forall j :: 0 <= j <= k ==> Linked(graphs[j]))
            <==> (forall j :: 0 <= j < k ==> OpKeepsLinks(graphs[j], ops[j]))
  {
    if k > 0 {
      RunLinkedIff(graphs, ops, k - 1);
      if Linked(graphs[k - 1]) {
        assert StepAt(graphs, ops, k - 1);
        StepLinkedIff(graphs[k - 1], ops[k - 1], graphs[k]);
      }
    }
  }

  /** Between moments `j` and `k` of a run without mounts, a path that leads to a node keeps leading to it. */
  lemma {:induction false} RunKeepsPaths(graphs: seq<Graph>, ops: seq<Op>, j: nat, k: nat,
                                         root: FSNode?, q: string, c: FSNode?)
    requires Run(graphs, ops) && j <= k < |graphs| && forall i :: j <= i < k ==> !ops[i].MountOn?
    requires Closed(graphs[j]) && (root == null || root in graphs[j]) && (c == null || c in graphs[j])
    requires Resolve(graphs[j], root, q, c) != null
    ensures Closed(graphs[k]) && (root == null || root in graphs[k]) && (c == null || c in graphs[k])
    ensures Resolve(graphs[k], root, q, c) == Resolve(graphs[j], root, q, c)
    decreases k - j
  {
    if j < k {
      RunKeepsPaths(graphs, ops, j, k - 1, root, q, c);
      assert StepAt(graphs, ops, k - 1);
      var g := graphs[k - 1];
      match ops[k - 1] {
        case Make(d, node, name, flags) => CreateIsMonotone(g, root, d, node, name, flags, q, c);
        case MakeRoot(r, name) => AddRootKeepsDescents(g, r, name, if q[0] == '/' then root else c, Names(q));
      }
    }
  }

  /** A directory with two directories, the second of which holds a third */
  function SmallTree(top: FSNode, a: FSNode, c: FSNode, b: FSNode): Graph {
    map[top := Node("/", Directory, null, null, [a, c]), a := Node("a", Directory, top, null, []),
        c := Node("c", Directory, top, null, [b]), b := Node("b", Directory, c, null, [])]
  }

  predicate AllDifferent(top: FSNode, a: FSNode, c: FSNode, b: FSNode) {
    top != a && top != c && top != b && a != c && a != b && c != b
  }

  lemma SmallTreeLinked(top: FSNode, a: FSNode, c: FSNode, b: FSNode)
    requires AllDifferent(top, a, c, b)
    ensures Linked(SmallTree(top, a, c, b))
  {
    var g := SmallTree(top, a, c, b);
    assert a in g[top].children && c in g[top].children && b in g[c].children;
    assert UniqueNames(g, g[top].children) by {
      assert "a" != "c";
    }
  }

  /** `mount a c/b` in the small tree: `..` no longer leads from `a` to the top, but to `c`. */
  lemma MountOfChildMisleadsUp(top: FSNode, a: FSNode, c: FSNode, b: FSNode)
    requires AllDifferent(top, a, c, b)
    ensures var g' := Mount(SmallTree(top, a, c, b), b, a);
      Closed(g') && Leads(g', top, "a", a) && Up(g', a) == c && c != top && !UpInverts(g')
  {
    SmallTreeLinked(top, a, c, b);
    MountClosed(SmallTree(top, a, c, b), b, a);
    assert Leads(Mount(SmallTree(top, a, c, b), b, a), top, "a", a);
  }

  /** `mount c a` in the small tree: parents and holders disagree, but `..` leads from `c` to the top as before. */
  lemma MountOnSiblingKeepsUp(top: FSNode, a: FSNode, c: FSNode, b: FSNode)
    requires AllDifferent(top, a, c, b)
    ensures var g' := Mount(SmallTree(top, a, c, b), a, c);
      Closed(g') && UpInverts(g') && !Linked(g')
  {
    var g := SmallTree(top, a, c, b);
    SmallTreeLinked(top, a, c, b);
    MountLinkedIff(g, a, c);
    LinkedMountUpIff(g, a, c);
    forall d, name | d in g && Leads(g, d, name, c) && d != a
      ensures g[a].parent == d
    {
      UpUndoesEnter(g, d, name);
    }
  }
}
