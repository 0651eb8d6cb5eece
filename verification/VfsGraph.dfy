/** The node graph of the file system as a value, and what paths mean in it. */
module VfsGraph {
  import opened Paths

  datatype Flags = File | Directory | CharDevice | BlockDevice | Pipe | Symlink | Mountpoint

  class FSNode {
    var name: string
    var flags: Flags
    var parent: FSNode?
    var mountTarget: FSNode?
    var children: seq<FSNode>   // of a RamFSDirectory; empty in other nodes

    constructor (nodeFlags: Flags)
      ensures name == "" && flags == nodeFlags && parent == null && mountTarget == null && children == []
    {
      name, flags, parent, mountTarget, children := "", nodeFlags, null, null, [];
    }
  }

  /** The fields of a node at one moment. */
  datatype Node = Node(name: string, flags: Flags, parent: FSNode?, mountTarget: FSNode?, children: seq<FSNode>)

  type Graph = map<FSNode, Node>

  /** Links lead to nodes of the graph. */
  ghost predicate Closed(g: Graph) {
    forall n :: n in g ==>
      && (g[n].parent == null || g[n].parent in g)
      && (g[n].mountTarget == null || g[n].mountTarget in g)
      && forall c :: c in g[n].children ==> c in g
  }

  ghost predicate IsDir(g: Graph, n: FSNode?) {
    n != null && n in g && g[n].flags == Directory
  }

  // ---------- What one name means ----------

  /** The first of `children` called `name`. */
  function Find(g: Graph, children: seq<FSNode>, name: string): (c: FSNode?)
    requires forall c :: c in children ==> c in g
    ensures c != null ==> c in children && g[c].name == name
    ensures c == null <==> forall k :: 0 <= k < |children| ==> g[children[k]].name != name
  {
    if children == [] then null
    else if g[children[0]].name == name then children[0]
    else Find(g, children[1..], name)
  }

  /** Where `..` leads: to the parent, and from a mounted root past the mountpoint. */
  function Up(g: Graph, n: FSNode): (u: FSNode)
    requires Closed(g) && n in g
    ensures u in g
  {
    var p := g[n].parent;
    if p == null then n
    else if g[p].flags == Mountpoint && g[p].mountTarget == n && g[p].parent != null then g[p].parent
    else p
  }

  /** A mountpoint stands for what is mounted on it. */
  function Through(g: Graph, n: FSNode?): (r: FSNode?)
    requires Closed(g) && (n == null || n in g)
    ensures r == null || r in g
  {
    if n != null && g[n].flags == Mountpoint && g[n].mountTarget != null then g[n].mountTarget else n
  }

  function Enter(g: Graph, d: FSNode, name: string): (r: FSNode?)
    requires Closed(g) && d in g
    ensures r == null || r in g
  {
    if name == "." then d
    else if name == ".." then Up(g, d)
    else Through(g, Find(g, g[d].children, name))
  }

  // ---------- What a path means ----------

  /** Follows names from `n`. Names that remain at a node which is no directory are ignored. */
  function Descend(g: Graph, n: FSNode?, names: seq<string>): (r: FSNode?)
    requires Closed(g) && (n == null || n in g)
    ensures r == null || r in g
    decreases |names|
  {
    if n == null || g[n].flags != Directory || names == [] then n
    else Descend(g, Enter(g, n, names[0]), names[1..])
  }

  function Resolve(g: Graph, root: FSNode?, path: string, cwd: FSNode?): (r: FSNode?)
    requires Closed(g) && (root == null || root in g) && (cwd == null || cwd in g)
    ensures r == null || r in g
  {
    if path == "" then null
    else Descend(g, if path[0] == '/' then root else cwd, Names(path))
  }

  lemma {:induction false} DescendAppend(g: Graph, n: FSNode?, a: seq<string>, b: seq<string>)
    requires Closed(g) && (n == null || n in g)
    ensures Descend(g, n, a + b) == Descend(g, Descend(g, n, a), b)
    decreases |a|
  {
    if a == [] {
      assert a + b == b;
    } else if n != null && g[n].flags == Directory {
      DescendAppend(g, Enter(g, n, a[0]), a[1..], b);
      assert (a + b)[1..] == a[1..] + b;
    }
  }

  /** Resolution of a joined path is resolution of the second part from where the first part leads. */
  lemma ResolveJoin(g: Graph, root: FSNode?, p: string, q: string, cwd: FSNode?)
    requires Closed(g) && (root == null || root in g) && (cwd == null || cwd in g)
    requires p != "" && q != "" && q[0] != '/'
    ensures Resolve(g, root, p + "/" + q, cwd) == Resolve(g, root, q, Resolve(g, root, p, cwd))
  {
    NamesJoin(p, q);
    DescendAppend(g, if p[0] == '/' then root else cwd, Names(p), Names(q));
  }

  /** A path that starts with a slash means what the rest of it means from the root, whatever the current directory. */
  lemma ResolveAbsolute(g: Graph, root: FSNode?, q: string, cwd: FSNode?)
    requires Closed(g) && (root == null || root in g) && (cwd == null || cwd in g)
    ensures Resolve(g, root, "/", cwd) == root
    ensures q != "" ==> Resolve(g, root, "/" + q, cwd) == Resolve(g, root, q, root)
  {
    NamesOfSlash();
    NamesJoin("", q);
    assert "" + "/" + q == "/" + q;
    assert Names("") + Names(q) == Names(q);
  }

  lemma ResolveFromRoot(g: Graph, root: FSNode, name: string, cwd: FSNode?)
    requires Closed(g) && IsDir(g, root) && (cwd == null || cwd in g) && name != "" && '/' !in name
    ensures Resolve(g, root, "/" + name, cwd) == Enter(g, root, name)
  {
    ResolveAbsolute(g, root, name, cwd);
    ResolveName(g, root, root, name);
  }

  /** Slashes at the end, and more than one between names, make no difference. */
  lemma ResolveExtraSlash(g: Graph, root: FSNode?, p: string, q: string, cwd: FSNode?)
    requires Closed(g) && (root == null || root in g) && (cwd == null || cwd in g) && p != ""
    ensures Resolve(g, root, p + "/", cwd) == Resolve(g, root, p, cwd)
    ensures Resolve(g, root, p + "/" + ("/" + q), cwd) == Resolve(g, root, p + "/" + q, cwd)
  {
    NamesOfSlash();
    NamesJoin(p, "");
    assert p + "/" + "" == p + "/" && Names(p) + Names("") == Names(p);
    NamesJoin(p, "/" + q);
    NamesJoin(p, q);
    NamesJoin("", q);
    assert "" + "/" + q == "/" + q && Names("") + Names(q) == Names(q);
  }

  /** The empty path leads nowhere, and a single dot nowhere else. */
  lemma ResolveDot(g: Graph, root: FSNode?, cwd: FSNode?)
    requires Closed(g) && (root == null || root in g) && (cwd == null || cwd in g)
    ensures Resolve(g, root, "", cwd) == null && Resolve(g, root, ".", cwd) == cwd
  {
    NamesOfName(".");
    if IsDir(g, cwd) {
      ResolveName(g, root, cwd, ".");
    }
  }

  /** What follows a node that is no directory, or a missing one, is not looked at. */
  lemma ResolvePastFile(g: Graph, root: FSNode?, p: string, q: string, cwd: FSNode?)
    requires Closed(g) && (root == null || root in g) && (cwd == null || cwd in g) && p != ""
    requires !IsDir(g, Resolve(g, root, p, cwd))
    ensures Resolve(g, root, p + "/" + q, cwd) == Resolve(g, root, p, cwd)
  {
    NamesJoin(p, q);
    DescendAppend(g, if p[0] == '/' then root else cwd, Names(p), Names(q));
  }

  /** A lookup finds the first child of the name. */
  lemma {:induction false} FindFirst(g: Graph, children: seq<FSNode>, name: string, k: nat)
    requires forall c :: c in children ==> c in g
    requires k < |children| && g[children[k]].name == name
    requires forall j :: 0 <= j < k ==> g[children[j]].name != name
    ensures Find(g, children, name) == children[k]
    decreases k
  {
    if k > 0 {
      FindFirst(g, children[1..], name, k - 1);
    }
  }

  /** One name down, without and with a mount on the child, and up from a directory that nothing holds */
  lemma EnterChild(g: Graph, root: FSNode?, d: FSNode, name: string, c: FSNode)
    requires Closed(g) && (root == null || root in g) && IsDir(g, d)
    requires name != "" && '/' !in name && IsEntry(name) && Find(g, g[d].children, name) == c
    ensures g[c].flags != Mountpoint || g[c].mountTarget == null ==> Resolve(g, root, name, d) == c
    ensures g[c].flags == Mountpoint && g[c].mountTarget != null ==> Resolve(g, root, name, d) == g[c].mountTarget
    ensures g[d].parent == null ==> Resolve(g, root, "..", d) == d
    ensures g[d].parent != null && g[g[d].parent].mountTarget != d ==> Resolve(g, root, "..", d) == g[d].parent
  {
    ResolveName(g, root, d, name);
    ResolveName(g, root, d, "..");
  }

  // ---------- Linked graphs ----------

  /** `c` is held by `p`: as a child, or as the root mounted on it. */
  ghost predicate Holds(g: Graph, p: FSNode, c: FSNode)
    requires p in g
  {
    c in g[p].children || (g[p].flags == Mountpoint && g[p].mountTarget == c)
  }

  /** The parent of a node is the one node that holds it, and siblings have different names. */
  ghost predicate Linked(g: Graph) {
    && Closed(g)
    && (forall p, c :: p in g && c in g && Holds(g, p, c) ==> g[c].parent == p)
    && (forall c :: c in g && g[c].parent != null ==> Holds(g, g[c].parent, c))
    && (forall p :: p in g ==> UniqueNames(g, g[p].children))
  }

  ghost predicate UniqueNames(g: Graph, children: seq<FSNode>)
    requires forall c :: c in children ==> c in g
  {
    forall i, j :: 0 <= i < j < |children| ==> g[children[i]].name != g[children[j]].name
  }

  /** `..` takes back every step down that lands on a directory, across mounts too. */
  lemma UpUndoesEnter(g: Graph, d: FSNode, name: string)
    requires Linked(g) && IsDir(g, d) && name != "." && name != ".."
    requires IsDir(g, Enter(g, d, name))
    ensures Up(g, Enter(g, d, name)) == d
  {
    var c := Find(g, g[d].children, name);
    assert Holds(g, d, c);
    var e := Through(g, c);
    if e != c {
      assert Holds(g, c, e);
    }
  }

  /** A path of one name. */
  lemma ResolveName(g: Graph, root: FSNode?, d: FSNode, name: string)
    requires Closed(g) && (root == null || root in g) && IsDir(g, d)
    requires name != "" && '/' !in name
    ensures Resolve(g, root, name, d) == Enter(g, d, name)
  {
    NamesOfName(name);
    assert Descend(g, Enter(g, d, name), []) == Enter(g, d, name);
  }

  lemma ResolveUpUndoesName(g: Graph, root: FSNode?, d: FSNode, name: string)
    requires Linked(g) && (root == null || root in g)
    requires IsDir(g, d) && name != "" && '/' !in name && name != "." && name != ".."
    requires IsDir(g, Resolve(g, root, name, d))
    ensures Resolve(g, root, name + "/" + "..", d) == d
  {
    var e := Resolve(g, root, name, d);
    ResolveName(g, root, d, name);
    ResolveName(g, root, e, "..");
    UpUndoesEnter(g, d, name);
    ResolveJoin(g, root, name, "..", d);
  }

  // ---------- Mounting ----------

  /** `vfs_mount` */
  function Mount(g: Graph, m: FSNode?, r: FSNode?): Graph {
    if m == null || r == null || m !in g || r !in g then g
    else if g[r].flags != Directory || g[m].flags != Directory then g
    else
      var g1 := g[m := g[m].(flags := Mountpoint, mountTarget := r)];
      g1[r := g1[r].(parent := m)]
  }

  lemma MountClosed(g: Graph, m: FSNode?, r: FSNode?)
    requires Closed(g)
    ensures Closed(Mount(g, m, r)) && Mount(g, m, r).Keys == g.Keys
  {
  }

  /** A mount takes place exactly if both nodes are directories; otherwise the graph stays as it is. */
  lemma MountRefusedIff(g: Graph, m: FSNode?, r: FSNode?)
    ensures Mount(g, m, r) == g <==> !IsDir(g, m) || !IsDir(g, r)
  {
    if IsDir(g, m) && IsDir(g, r) {
      assert Mount(g, m, r)[m].flags == Mountpoint;
    }
  }

  /** It changes the mountpoint's flags and target, the parent of the mounted directory, and nothing else. */
  lemma MountChanges(g: Graph, m: FSNode, r: FSNode, n: FSNode)
    requires IsDir(g, m) && IsDir(g, r) && n in g
    ensures var g' := Mount(g, m, r);
      && g'.Keys == g.Keys
      && g'[n].name == g[n].name && g'[n].children == g[n].children
      && g'[n].flags == (if n == m then Mountpoint else g[n].flags)
      && g'[n].mountTarget == (if n == m then r else g[n].mountTarget)
      && g'[n].parent == (if n == r then m else g[n].parent)
  {
  }

  lemma MountHolds(g: Graph, m: FSNode, r: FSNode, p: FSNode, c: FSNode)
    requires Closed(g) && IsDir(g, m) && IsDir(g, r) && p in g
    ensures Holds(Mount(g, m, r), p, c) <==> Holds(g, p, c) || (p == m && c == r)
  {
  }

  lemma MountKeepsNames(g: Graph, m: FSNode, r: FSNode, p: FSNode)
    requires Closed(g) && p in g && UniqueNames(g, g[p].children) && Closed(Mount(g, m, r))
    ensures UniqueNames(Mount(g, m, r), Mount(g, m, r)[p].children)
  {
  }

  lemma MountLinked(g: Graph, m: FSNode, r: FSNode)
    requires Linked(g) && IsDir(g, m) && IsDir(g, r)
    requires g[r].parent == null || g[r].parent == m
    ensures Linked(Mount(g, m, r))
  {
    var g' := Mount(g, m, r);
    MountClosed(g, m, r);
    forall p, c | p in g' && c in g' && Holds(g', p, c)
      ensures g'[c].parent == p
    {
      MountHolds(g, m, r, p, c);
    }
    forall c | c in g' && g'[c].parent != null
      ensures Holds(g', g'[c].parent, c)
    {
      MountHolds(g, m, r, g'[c].parent, c);
      assert c != r ==> Holds(g, g[c].parent, c);
    }
    forall p | p in g'
      ensures UniqueNames(g', g'[p].children)
    {
      MountKeepsNames(g, m, r, p);
    }
  }

  /** A mount keeps the graph linked exactly when the mounted directory had no parent, or the mountpoint itself. */
  lemma MountLinkedIff(g: Graph, m: FSNode, r: FSNode)
    requires Linked(g) && IsDir(g, m) && IsDir(g, r)
    ensures Linked(Mount(g, m, r)) <==> g[r].parent == null || g[r].parent == m
  {
    var p := g[r].parent;
    if p == null || p == m {
      MountLinked(g, m, r);
    } else {
      assert Holds(g, p, r);
      MountHolds(g, m, r, p, r);
      assert Mount(g, m, r)[r].parent == m;
    }
  }

  /** A name that is looked up; the other two are steps of their own. */
  predicate IsEntry(name: string) {
    name != "." && name != ".."
  }

  /** From directory `d`, `name` leads down to directory `n`. */
  ghost predicate Leads(g: Graph, d: FSNode, name: string, n: FSNode)
    requires Closed(g)
  {
    IsDir(g, d) && IsEntry(name) && IsDir(g, n) && Enter(g, d, name) == n
  }

  /** `..` takes back every step down onto a directory. */
  ghost predicate UpInverts(g: Graph)
    requires Closed(g)
  {
    forall d, name, n {:trigger Leads(g, d, name, n)} :: d in g && n in g && Leads(g, d, name, n) ==> Up(g, n) == d
  }

  lemma LinkedUpInverts(g: Graph)
    requires Linked(g)
    ensures UpInverts(g)
  {
    forall d, name, n | d in g && n in g && Leads(g, d, name, n)
      ensures Up(g, n) == d
    {
      UpUndoesEnter(g, d, name);
    }
  }

  /** A step down onto the mountpoint or onto the mounted directory starts where the mountpoint's parent is. */
  ghost predicate MountKeepsUp(g: Graph, m: FSNode, r: FSNode)
    requires Closed(g) && m in g
  {
    r == m ||
    forall d, name, n {:trigger Leads(g, d, name, n)} :: d in g && n in g && Leads(g, d, name, n) && d != m ==>
      n == r || Find(g, g[d].children, name) == m ==> g[m].parent == d
  }

  lemma MountUp(g: Graph, m: FSNode, r: FSNode, n: FSNode)
    requires Closed(g) && IsDir(g, m) && IsDir(g, r) && n in g
    ensures Closed(Mount(g, m, r))
    ensures n != r ==> Up(Mount(g, m, r), n) == Up(g, n)
    ensures n == r != m ==> Up(Mount(g, m, r), n) == if g[m].parent == null then m else g[m].parent
  {
    MountClosed(g, m, r);
  }

  lemma MountEnter(g: Graph, m: FSNode, r: FSNode, d: FSNode, name: string)
    requires Closed(g) && IsDir(g, m) && IsDir(g, r) && d in g && IsEntry(name)
    ensures Closed(Mount(g, m, r))
    ensures Enter(Mount(g, m, r), d, name) == if Find(g, g[d].children, name) == m then r else Enter(g, d, name)
  {
    MountClosed(g, m, r);
    FindStable(g, Mount(g, m, r), g[d].children, name);
  }

  /** Where names lead after a mount */
  lemma MountLeads(g: Graph, m: FSNode, r: FSNode, d: FSNode, name: string, n: FSNode)
    requires Closed(g) && IsDir(g, m) && IsDir(g, r) && d in g && n in g
    ensures Closed(Mount(g, m, r))
    ensures Leads(Mount(g, m, r), d, name, n) <==>
      && d != m && n != m
      && if IsDir(g, d) && IsEntry(name) && Find(g, g[d].children, name) == m then n == r else Leads(g, d, name, n)
  {
    MountClosed(g, m, r);
    if IsEntry(name) {
      MountEnter(g, m, r, d, name);
    }
  }

  /** A mount keeps `..` the inverse of a step down exactly when all such steps start at the mountpoint's parent. */
  lemma MountUpIff(g: Graph, m: FSNode, r: FSNode)
    requires Closed(g) && UpInverts(g) && IsDir(g, m) && IsDir(g, r)
    ensures Closed(Mount(g, m, r))
    ensures UpInverts(Mount(g, m, r)) <==> MountKeepsUp(g, m, r)
  {
    var g' := Mount(g, m, r);
    MountClosed(g, m, r);
    if MountKeepsUp(g, m, r) {
      forall d, name, n | d in g' && n in g' && Leads(g', d, name, n)
        ensures Up(g', n) == d
      {
        MountLeads(g, m, r, d, name, n);
        MountUp(g, m, r, n);
        assert Find(g, g[d].children, name) == m ==> Leads(g, d, name, m);
      }
    } else {
      var d, name, n :| d in g && n in g && Leads(g, d, name, n) && d != m
                        && (n == r || Find(g, g[d].children, name) == m) && g[m].parent != d;
      var n' := if Find(g, g[d].children, name) == m then r else n;
      MountLeads(g, m, r, d, name, n');
      MountUp(g, m, r, r);
      assert Leads(g', d, name, n');
    }
  }

  /** In a linked graph only the steps onto the mounted directory matter. */
  lemma LinkedMountUpIff(g: Graph, m: FSNode, r: FSNode)
    requires Linked(g) && IsDir(g, m) && IsDir(g, r)
    ensures Closed(Mount(g, m, r))
    ensures UpInverts(Mount(g, m, r)) <==>
      r == m || forall d, name {:trigger Leads(g, d, name, r)} ::
                  d in g && Leads(g, d, name, r) && d != m ==> g[m].parent == d
  {
    LinkedUpInverts(g);
    MountUpIff(g, m, r);
    forall d, name, n | d in g && n in g && Leads(g, d, name, n) && Find(g, g[d].children, name) == m
      ensures g[m].parent == d
    {
      assert Holds(g, d, m);
    }
  }

  /** From `n`, following `names` never reaches `m` and never climbs out of `r`. */
  ghost predicate Inside(g: Graph, n: FSNode?, names: seq<string>, m: FSNode, r: FSNode)
    requires Closed(g) && (n == null || n in g)
    decreases |names|
  {
    n == null ||
    (n != m &&
     (g[n].flags == Directory && names != [] ==>
        (names[0] == ".." ==> n != r && g[n].parent != m) && Inside(g, Enter(g, n, names[0]), names[1..], m, r)))
  }

  lemma FindStable(g: Graph, g': Graph, children: seq<FSNode>, name: string)
    requires forall c :: c in children ==> c in g && c in g' && g'[c].name == g[c].name
    ensures Find(g', children, name) == Find(g, children, name)
  {
  }

  /** A step that neither starts at the mountpoint nor goes up from the mounted root is not changed by the mount. */
  lemma MountKeepsStep(g: Graph, n: FSNode, name: string, m: FSNode, r: FSNode)
    requires Closed(g) && IsDir(g, m) && IsDir(g, r) && n in g && n != m
    requires name == ".." ==> n != r && g[n].parent != m
    requires Enter(g, n, name) != m
    ensures Closed(Mount(g, m, r)) && Enter(Mount(g, m, r), n, name) == Enter(g, n, name)
  {
    MountClosed(g, m, r);
    FindStable(g, Mount(g, m, r), g[n].children, name);
  }

  lemma {:induction false} MountKeepsInside(g: Graph, n: FSNode?, names: seq<string>, m: FSNode, r: FSNode)
    requires Closed(g) && IsDir(g, m) && IsDir(g, r) && (n == null || n in g)
    requires Inside(g, n, names, m, r)
    ensures Closed(Mount(g, m, r)) && Descend(Mount(g, m, r), n, names) == Descend(g, n, names)
    decreases |names|
  {
    MountClosed(g, m, r);
    if n != null && g[n].flags == Directory && names != [] {
      var e := Enter(g, n, names[0]);
      assert Inside(g, e, names[1..], m, r);
      MountKeepsStep(g, n, names[0], m, r);
      MountKeepsInside(g, e, names[1..], m, r);
    }
  }

  /** After a mount, paths through the mountpoint mean what they meant from the mounted directory. */
  lemma MountTransplants(g: Graph, root: FSNode?, d: FSNode, name: string, m: FSNode, r: FSNode, q: string)
    requires Closed(g) && (root == null || root in g)
    requires IsDir(g, d) && IsDir(g, m) && IsDir(g, r) && d != m
    requires name != "" && '/' !in name && name != "." && name != ".." && Find(g, g[d].children, name) == m
    requires q != "" && q[0] != '/' && Inside(g, r, Names(q), m, r)
    ensures Closed(Mount(g, m, r))
    ensures Resolve(Mount(g, m, r), root, name + "/" + q, d) == Resolve(g, root, q, r)
  {
    var g' := Mount(g, m, r);
    MountClosed(g, m, r);
    ResolveJoin(g', root, name, q, d);
    ResolveName(g', root, d, name);
    FindStable(g, g', g[d].children, name);
    assert Enter(g', d, name) == r;
    MountKeepsInside(g, r, Names(q), m, r);
  }
}
