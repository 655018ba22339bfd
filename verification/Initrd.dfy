/** The initrd tree: nodes whose child lists grow in place, proved to be the first-wins path map of its entries. */
module Initrd {
  import opened Options
  import opened Bytes
  import opened Tar
  import opened Paths

  class InodeNode {
    const name: Text
    const kind: Node
    /** Where the node was put. */
    ghost const path: seq<Text>
    var children: seq<InodeNode>

    constructor (name: Text, kind: Node, ghost path: seq<Text>)
      ensures this.name == name && this.kind == kind && this.path == path && children == []
    {
      this.name, this.kind, this.path, children := name, kind, path, [];
    }
  }

  /** `find_child`: the first child with the name. */
  function FirstNamed(kids: seq<InodeNode>, name: Text): (r: Option<InodeNode>)
    ensures r.Some? ==> r.value in kids && r.value.name == name
    ensures r.None? <==> forall c :: c in kids ==> c.name != name
  {
    if kids == [] then None
    else if kids[0].name == name then Some(kids[0])
    else FirstNamed(kids[1..], name)
  }

  // ---- a snapshot of the tree ----

  type Graph = map<InodeNode, seq<InodeNode>>

  /** Child lists stay inside the graph, and every node lies where its parent puts it. */
  ghost predicate IsTree(g: Graph, root: InodeNode) {
    && root in g && root.path == []
    && forall n, c :: n in g && c in g[n] ==> c in g && c.path == n.path + [c.name]
  }

  /** Follow `path` down from the root. */
  ghost function Walk(g: Graph, root: InodeNode, path: seq<Text>): (r: Option<InodeNode>)
    requires IsTree(g, root)
    ensures r.Some? ==> r.value in g && r.value.path == path
    decreases |path|
  {
    if path == [] then Some(root)
    else
      match Walk(g, root, path[..|path| - 1])
      case None => None
      case Some(parent) =>
        assert path == path[..|path| - 1] + [path[|path| - 1]];
        FirstNamed(g[parent], path[|path| - 1])
  }

  ghost function NodeAt(g: Graph, root: InodeNode, path: seq<Text>): (r: Option<Node>)
    requires IsTree(g, root)
  {
    match Walk(g, root, path)
    case None => None
    case Some(n) => Some(n.kind)
  }

  ghost function Pushed(g: Graph, parent: InodeNode, child: InodeNode): (g': Graph)
    requires parent in g
  {
    g[parent := g[parent] + [child]][child := []]
  }

  lemma {:induction false} FirstNamedAppend(kids: seq<InodeNode>, child: InodeNode, name: Text)
    ensures FirstNamed(kids + [child], name)
            == if FirstNamed(kids, name).Some? then FirstNamed(kids, name)
               else if child.name == name then Some(child) else None
  {
    if kids == [] {
    } else {
      assert (kids + [child])[1..] == kids[1..] + [child];
      FirstNamedAppend(kids[1..], child, name);
    }
  }

  lemma PushedIsTree(g: Graph, root: InodeNode, parent: InodeNode, child: InodeNode)
    requires IsTree(g, root) && parent in g && child !in g && child.path == parent.path + [child.name]
    ensures IsTree(Pushed(g, parent, child), root)
  {}

  /** Pushing a child changes no walk but the one to the child, and that one only if it led nowhere. */
  lemma {:induction false} PushedWalk(g: Graph, root: InodeNode, parent: InodeNode, child: InodeNode, path: seq<Text>)
    requires IsTree(g, root) && Walk(g, root, parent.path) == Some(parent)
    requires child !in g && child.path == parent.path + [child.name]
    ensures IsTree(Pushed(g, parent, child), root)
    ensures var before := Walk(g, root, path);
            Walk(Pushed(g, parent, child), root, path)
            == if before.Some? then before else if path == child.path then Some(child) else None
    decreases |path|
  {
    PushedIsTree(g, root, parent, child);
    hide IsTree, FirstNamed;
    if path != [] {
      var up, name := path[..|path| - 1], path[|path| - 1];
      assert path == up + [name];
      PushedWalk(g, root, parent, child, up);
      FirstNamedAppend(g[parent], child, name);
    }
  }

  /** `path` is one of the first `i` directories on the way down `comps`. */
  predicate OnWay(comps: seq<Text>, i: nat, path: seq<Text>)
    requires i <= |comps|
  {
    path != [] && path <= comps[..i]
  }

  lemma OnWayStep(comps: seq<Text>, i: nat)
    requires i < |comps|
    ensures comps[..i + 1] == comps[..i] + [comps[i]] && comps[..|comps|] == comps
    ensures forall path :: OnWay(comps, i + 1, path) <==> OnWay(comps, i, path) || path == comps[..i + 1]
  {}

  class Initrd {
    const root: InodeNode
    ghost var nodes: set<InodeNode>

    ghost function Snapshot(): (g: Graph)
      reads this, nodes
    {
      map n | n in nodes :: n.children
    }

    ghost predicate Valid()
      reads this, nodes
    {
      IsTree(Snapshot(), root)
    }

    ghost function At(path: seq<Text>): (r: Option<Node>)
      requires Valid()
      reads this, nodes
    {
      NodeAt(Snapshot(), root, path)
    }

    /** Create a node and push it onto the children of `parent`. */
    method Push(parent: InodeNode, name: Text, kind: Node) returns (child: InodeNode)
      requires Valid() && Walk(Snapshot(), root, parent.path) == Some(parent)
      modifies this`nodes, nodes
      ensures Valid() && fresh(nodes - old(nodes))
      ensures child.path == parent.path + [name] && child.kind == kind && fresh(child)
      ensures forall path :: Walk(Snapshot(), root, path)
                             == if old(Walk(Snapshot(), root, path)).Some? then old(Walk(Snapshot(), root, path))
                                else if path == child.path then Some(child) else None
    {
      ghost var g := Snapshot();
      child := new InodeNode(name, kind, parent.path + [name]);
      parent.children := parent.children + [child];
      nodes := nodes + {child};
      assert Snapshot() == Pushed(g, parent, child);
      forall path
        ensures IsTree(Snapshot(), root)
        ensures Walk(Snapshot(), root, path) == if Walk(g, root, path).Some? then Walk(g, root, path)
                                                else if path == child.path then Some(child) else None
      {
        PushedWalk(g, root, parent, child, path);
      }
      assert IsTree(Snapshot(), root) by { PushedWalk(g, root, parent, child, []); }
    }

    /** Follow or create the directory `name` below `cur`. */
    method Descend(cur: InodeNode, name: Text) returns (next: InodeNode)
      requires Valid() && Walk(Snapshot(), root, cur.path) == Some(cur)
      modifies this`nodes, nodes
      ensures Valid() && fresh(nodes - old(nodes))
      ensures next.path == cur.path + [name] && Walk(Snapshot(), root, next.path) == Some(next)
      ensures forall path :: At(path) == if old(At(path)).Some? then old(At(path))
                                         else if path == next.path then Some(Directory) else None
    {
      var c := FirstNamed(cur.children, name);
      ghost var path := cur.path + [name];
      assert path[..|path| - 1] == cur.path;
      assert Walk(Snapshot(), root, path) == FirstNamed(cur.children, name);
      if c.Some? {
        return c.value;
      }
      next := Push(cur, name, Directory);
    }

    /** Place one entry, creating the parent directories it needs. */
    method Insert(e: Entry)
      requires Valid()
      modifies this`nodes, nodes
      ensures Valid() && fresh(nodes - old(nodes))
      ensures forall path :: At(path) == if old(At(path)).Some? then old(At(path)) else Made(e, path)
    {
      var comps := Components(e.path);
      if comps == [] {
        return;
      }
      var cur := root;
      for i := 0 to |comps| - 1
        invariant Valid() && fresh(nodes - old(nodes))
        invariant cur.path == comps[..i] && Walk(Snapshot(), root, cur.path) == Some(cur)
        invariant forall path :: At(path) == if old(At(path)).Some? then old(At(path))
                                             else if OnWay(comps, i, path) then Some(Directory) else None
      {
        cur := Descend(cur, comps[i]);
        OnWayStep(comps, i);
      }
      OnWayStep(comps, |comps| - 1);
      var child := Push(cur, comps[|comps| - 1], if e.isDir then Directory else File(e.data));
    }

    /** The tree of an entry list is its first-wins path map. */
    constructor FromEntries(entries: seq<Entry>)
      ensures Valid() && fresh(nodes)
      ensures forall path :: At(path) == FirstWins(entries, path)
    {
      var r := new InodeNode([SLASH], Directory, []);
      root := r;
      nodes := {r};
      new;
      for i := 0 to |entries|
        invariant Valid() && fresh(nodes)
        invariant forall path :: At(path) == FirstWins(entries[..i], path)
      {
        Insert(entries[i]);
        assert entries[..i + 1] == entries[..i] + [entries[i]];
        forall path ensures At(path) == FirstWins(entries[..i + 1], path) {
          FirstWinsAppend(entries[..i], entries[i], path);
        }
      }
      assert entries[..|entries|] == entries;
    }
  }

  /** `from_tar`: parse an archive and build its tree. */
  method FromTar(tar: seq<byte>, decode: seq<byte> -> Text) returns (fs: Initrd)
    ensures fresh(fs) && fs.Valid()
    ensures forall path :: fs.At(path) == FirstWins(ParseFrom(tar, 0, decode), path)
  {
    var entries := Parse(tar, decode);
    fs := new Initrd.FromEntries(entries);
  }

  /** Packing members into an archive and loading it gives the first-wins map of the members. */
  method LoadPacked(members: seq<Member>, tail: seq<byte>, decode: seq<byte> -> Text) returns (fs: Initrd)
    requires forall m :: m in members ==> Tar.Valid(m)
    requires |tail| < BLOCK || tail[0] == 0
    ensures fresh(fs) && fs.Valid()
    ensures forall path :: fs.At(path) == FirstWins(Expected(members, decode), path)
  {
    ParseUndoesWrite(members, tail, decode);
    fs := FromTar(Archive(members, tail), decode);
  }
}
