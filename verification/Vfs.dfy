/** Mount points and path resolution. */
module Vfs {
  import opened Options
  import opened FsErrors
  import opened Tar
  import opened Paths
  import opened Initrd

  /** A mounted tree: its root, and the lookup of a child by name. */
  datatype FileSystem<!N> = FileSystem(root: N, lookup: (N, Text) -> Option<N>)
  datatype Mount<!N> = Mount(prefix: Text, fs: FileSystem<N>)

  predicate Covers(prefix: Text, path: Text) {
    path == prefix || (prefix <= path && |path| > |prefix| && path[|prefix|] == SLASH)
  }

  // ---- the longest mount ----

  /** Mount `k` covers the path, no covering prefix is longer, and among equals it was mounted last. */
  ghost predicate IsLongest<N>(mounts: seq<Mount<N>>, path: Text, k: nat) {
    && k < |mounts| && Covers(mounts[k].prefix, path)
    && forall j :: 0 <= j < |mounts| && Covers(mounts[j].prefix, path) ==>
                     |mounts[j].prefix| < |mounts[k].prefix| || (|mounts[j].prefix| == |mounts[k].prefix| && j <= k)
  }

  method LongestMount<N>(mounts: seq<Mount<N>>, path: Text) returns (best: Option<nat>)
    ensures best.Some? ==> IsLongest(mounts, path, best.value)
    ensures best.None? ==> forall j :: 0 <= j < |mounts| ==> !Covers(mounts[j].prefix, path)
  {
    best := None;
    for i := 0 to |mounts|
      invariant best.Some? ==> IsLongest(mounts[..i], path, best.value)
      invariant best.None? ==> forall j :: 0 <= j < i ==> !Covers(mounts[j].prefix, path)
    {
      if Covers(mounts[i].prefix, path) && (best.None? || |mounts[i].prefix| >= |mounts[best.value].prefix|) {
        best := Some(i);
      }
    }
    assert mounts[..|mounts|] == mounts;
  }

  lemma LongestUnique<N>(mounts: seq<Mount<N>>, path: Text, j: nat, k: nat)
    requires IsLongest(mounts, path, j) && IsLongest(mounts, path, k)
    ensures j == k
  {}

  /** A file system mounted over another, or below it, hides it from the paths it covers. */
  lemma LaterMountHides<N>(mounts: seq<Mount<N>>, m: Mount<N>, path: Text)
    requires Covers(m.prefix, path)
    requires forall j :: 0 <= j < |mounts| && Covers(mounts[j].prefix, path) ==> |mounts[j].prefix| <= |m.prefix|
    ensures IsLongest(mounts + [m], path, |mounts|)
  {}

  // ---- resolution ----

  function Descend<N>(fs: FileSystem<N>, node: N, comps: seq<Text>): (r: Option<N>) {
    if comps == [] then Some(node)
    else
      match fs.lookup(node, comps[0])
      case None => None
      case Some(c) => Descend(fs, c, comps[1..])
  }

  /** What resolving a path gives when mount `k` is the longest that covers it. */
  function Found<N>(mounts: seq<Mount<N>>, path: Text, k: nat): (r: FsResult<N>)
    requires k < |mounts| && |mounts[k].prefix| <= |path|
  {
    match Descend(mounts[k].fs, mounts[k].fs.root, Components(path[|mounts[k].prefix|..]))
    case None => Err(NotFound)
    case Some(n) => Ok(n)
  }

  method Resolve<N>(mounts: seq<Mount<N>>, path: Text) returns (r: FsResult<N>)
    ensures path == [] || path[0] != SLASH ==> r == Err(InvalidArg)
    ensures path != [] && path[0] == SLASH && (forall j :: 0 <= j < |mounts| ==> !Covers(mounts[j].prefix, path)) ==>
              r == Err(NotFound)
    ensures path != [] && path[0] == SLASH ==> forall k: nat :: IsLongest(mounts, path, k) ==> r == Found(mounts, path, k)
  {
    if path == [] || path[0] != SLASH {
      return Err(InvalidArg);
    }
    var best := LongestMount(mounts, path);
    if best.None? {
      return Err(NotFound);
    }
    forall k: nat | IsLongest(mounts, path, k) ensures k == best.value {
      LongestUnique(mounts, path, k, best.value);
    }
    var fs := mounts[best.value].fs;
    var node := fs.root;
    var comps := Components(path[|mounts[best.value].prefix|..]);
    for i := 0 to |comps|
      invariant Descend(fs, fs.root, comps) == Descend(fs, node, comps[i..])
    {
      assert comps[i..][1..] == comps[i + 1..];
      var c := fs.lookup(node, comps[i]);
      if c.None? {
        return Err(NotFound);
      }
      node := c.value;
    }
    r := Ok(node);
  }

  // ---- whole path components ----

  function Render(comps: seq<Text>): (t: Text)
    ensures comps == [] <==> t == []
    ensures t != [] ==> t[0] == SLASH
  {
    if comps == [] then [] else [SLASH] + comps[0] + Render(comps[1..])
  }

  /** The canonical text of an absolute path. */
  function Absolute(comps: seq<Text>): (t: Text) {
    if comps == [] then [SLASH] else Render(comps)
  }

  ghost predicate Names(comps: seq<Text>) {
    forall i :: 0 <= i < |comps| ==> IsName(comps[i])
  }

  /** Splitting undoes rendering. */
  lemma {:induction false} ComponentsOfRendered(comps: seq<Text>)
    requires Names(comps)
    ensures Components(Render(comps)) == comps
  {
    if comps != [] {
      ComponentsOfRendered(comps[1..]);
      ComponentsCons(comps[0], Render(comps[1..]));
    }
  }

  lemma CoversPeel(x: Text, s: Text, y: Text, t: Text)
    requires IsName(x) && IsName(y)
    requires s != [] ==> s[0] == SLASH
    requires t != [] ==> t[0] == SLASH
    ensures Covers([SLASH] + x + s, [SLASH] + y + t) <==> x == y && Covers(s, t)
  {
    var p, q := [SLASH] + x + s, [SLASH] + y + t;
    assert |y| < |x| ==> p[1 + |y|] == x[|y|];
    if Covers(p, q) {
      assert x == p[1..1 + |x|] && y == q[1..1 + |x|];
    }
  }

  lemma {:induction false} CoversRendered(a: seq<Text>, b: seq<Text>)
    requires Names(a) && Names(b)
    ensures Covers(Render(a), Render(b)) <==> a <= b
  {
    if a != [] && b != [] {
      CoversPeel(a[0], Render(a[1..]), b[0], Render(b[1..]));
      CoversRendered(a[1..], b[1..]);
    }
  }

  /**
   Among canonical paths, a mount covers exactly those at or below it when it is
   not the root; a `/` mount covers no canonical path but `/` itself.
   */
  lemma CoversCanonicalIff(a: seq<Text>)
    requires Names(a)
    ensures (forall b :: Names(b) ==> (Covers(Absolute(a), Absolute(b)) <==> a <= b)) <==> a != []
  {
    if a == [] {
      var b: seq<Text> := [[97]];
      assert !Covers(Absolute(a), Absolute(b)) && Names(b);
    } else {
      forall b | Names(b) ensures Covers(Absolute(a), Absolute(b)) <==> a <= b {
        CoversRendered(a, b);
      }
    }
  }

  /** A slash after a canonical prefix ends its last name. */
  lemma ComponentsAfter(a: seq<Text>, rest: Text)
    requires Names(a) && (rest != [] ==> rest[0] == SLASH)
    ensures Components(Render(a) + rest) == a + Components(rest)
  {
    ComponentsOfRendered(a);
    if rest == [] {
      assert Render(a) + rest == Render(a);
    } else {
      ComponentsSplit(Render(a), rest[1..]);
      assert Render(a) + rest == Render(a) + [SLASH] + rest[1..];
    }
  }

  lemma Regroup(x: Text, y: Text, z: Text)
    ensures (x + y) + z == x + (y + z)
  {}

  /** A name that goes on with a byte that is no slash is another name. */
  lemma LongerFirst(name: Text, rest: Text)
    requires IsName(name) && rest != [] && rest[0] != SLASH
    ensures var c := Components([SLASH] + name + rest); c != [] && c[0] != name
  {
    var word := Word(rest);
    var tail := rest[|word|..];
    ComponentsCons(name + word, tail);
    hide Components, Word;
    assert [SLASH] + name + rest == [SLASH] + (name + word) + tail;
  }

  lemma {:induction false} LongerName(a: seq<Text>, rest: Text)
    requires Names(a) && a != [] && rest != [] && rest[0] != SLASH
    ensures !(a <= Components(Render(a) + rest))
  {
    var head, r := [SLASH] + a[0], Render(a[1..]);
    assert Render(a) == head + r;
    Regroup(head, r, rest);
    if |a| == 1 {
      assert r + rest == rest;
      LongerFirst(a[0], rest);
    } else {
      LongerName(a[1..], rest);
      hide Components;
      ComponentsCons(a[0], r + rest);
      assert forall c :: a <= [a[0]] + c ==> a[1..] <= c;
    }
  }

  /**
   What a mount other than the root covers, among all texts: the paths that
   begin with its text and have its components first.
   */
  lemma CoversIff(a: seq<Text>, p: Text)
    requires Names(a) && a != []
    ensures Covers(Render(a), p) <==> Render(a) <= p && a <= Components(p)
  {
    if Render(a) <= p {
      var rest := p[|Render(a)|..];
      assert p == Render(a) + rest;
      if rest == [] || rest[0] == SLASH {
        ComponentsAfter(a, rest);
      } else {
        LongerName(a, rest);
      }
    }
  }

  lemma CoversIsPrefix(prefix: Text, path: Text)
    requires Covers(prefix, path)
    ensures prefix <= path
  {}

  /**
   Covering is by whole components, for every mount point but the root, exactly
   for the paths that write each of their components after a single slash.
   */
  lemma CoversByComponentsIff(p: Text)
    ensures (forall a :: Names(a) && a != [] ==> (Covers(Render(a), p) <==> a <= Components(p)))
            <==> Render(Components(p)) <= p
  {
    hide Covers, Render, Components;
    var comps := Components(p);
    if Render(comps) <= p {
      forall a | Names(a) && a != [] ensures Covers(Render(a), p) <==> a <= comps {
        CoversIff(a, p);
        if a <= comps {
          CoversRendered(a, comps);
          CoversIsPrefix(Render(a), Render(comps));
        }
      }
    } else {
      assert Names(comps) && comps <= comps && comps != [];
      CoversIff(comps, p);
    }
  }

  /** A path with a doubled slash in front is not covered by the mount its components are below. */
  lemma DoubledSlashEscapes(a: seq<Text>)
    requires Names(a) && a != []
    ensures var p := [SLASH] + Render(a); Components(p) == a && !Covers(Render(a), p)
  {
    ComponentsOfRendered(a);
    var p := [SLASH] + Render(a);
    assert p[1..] == Render(a) && p[1] == SLASH;
    assert Render(a)[1] == a[0][0];
  }

  /** What a mount at the root covers. */
  lemma RootCoversIff(p: Text)
    ensures Covers(Absolute([]), p) <==> p == [SLASH] || [SLASH, SLASH] <= p
  {
    assert [SLASH, SLASH] <= p ==> p[0] == SLASH && p[1] == SLASH;
  }

  // ---- the initrd under its mount ----

  /** The initrd tree as a mounted file system. */
  ghost function InitrdFs(g: Graph, root: InodeNode): (fs: FileSystem<InodeNode>) {
    FileSystem(root, (n, name) => if n in g then FirstNamed(g[n], name) else None)
  }

  lemma {:induction false} DescendIsWalk(g: Graph, root: InodeNode, comps: seq<Text>, i: nat)
    requires IsTree(g, root) && i <= |comps|
    ensures Walk(g, root, comps)
            == match Walk(g, root, comps[..i])
               case None => None
               case Some(n) => Descend(InitrdFs(g, root), n, comps[i..])
    decreases |comps| - i
  {
    if i == |comps| {
      assert comps[..i] == comps;
    } else {
      DescendIsWalk(g, root, comps, i + 1);
      assert comps[..i + 1][..i] == comps[..i] && comps[..i + 1][i] == comps[i];
    }
  }

  const DEV: Text := [47, 100, 101, 118]
  const PROC: Text := [47, 112, 114, 111, 99]
  const INITRD: Text := [47, 105, 110, 105, 116, 114, 100]

  /** The kernel's mount table. */
  ghost predicate KernelMounts(mounts: seq<Mount<InodeNode>>, g: Graph, root: InodeNode) {
    && |mounts| == 3 && mounts[0].prefix == DEV && mounts[1].prefix == PROC && mounts[2].prefix == INITRD
    && mounts[2].fs == InitrdFs(g, root)
  }

  lemma InitrdIsLongest(mounts: seq<Mount<InodeNode>>, g: Graph, root: InodeNode, rest: Text)
    requires KernelMounts(mounts, g, root) && (rest != [] ==> rest[0] == SLASH)
    ensures IsLongest(mounts, INITRD + rest, 2)
  {}

  /** Resolving a path below `/initrd` finds what the first-wins map of the archive has there. */
  lemma ResolveInInitrd(mounts: seq<Mount<InodeNode>>, g: Graph, root: InodeNode, entries: seq<Entry>, rest: Text)
    requires IsTree(g, root) && KernelMounts(mounts, g, root)
    requires forall p :: NodeAt(g, root, p) == FirstWins(entries, p)
    requires rest != [] ==> rest[0] == SLASH
    ensures IsLongest(mounts, INITRD + rest, 2)
    ensures var r := Found(mounts, INITRD + rest, 2);
            match FirstWins(entries, Components(rest))
            case None => r == Err(NotFound)
            case Some(node) => r.Ok? && r.value.kind == node
  {
    hide IsLongest, Descend, Components, FirstWins, IsTree;
    InitrdIsLongest(mounts, g, root, rest);
    var comps := Components(rest);
    DescendIsWalk(g, root, comps, 0);
  }

  /** In particular the canonical path of any file or directory of the archive resolves to it. */
  lemma ResolveCanonical(mounts: seq<Mount<InodeNode>>, g: Graph, root: InodeNode, entries: seq<Entry>, comps: seq<Text>)
    requires IsTree(g, root) && KernelMounts(mounts, g, root) && Names(comps)
    requires forall p :: NodeAt(g, root, p) == FirstWins(entries, p)
    requires FirstWins(entries, comps).Some?
    ensures IsLongest(mounts, INITRD + Render(comps), 2)
    ensures var r := Found(mounts, INITRD + Render(comps), 2); r.Ok? && Some(r.value.kind) == FirstWins(entries, comps)
  {
    ComponentsOfRendered(comps);
    hide IsLongest, Found, Components, FirstWins, IsTree, Render;
    ResolveInInitrd(mounts, g, root, entries, Render(comps));
  }
}
