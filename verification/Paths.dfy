/** Splitting a path at its slashes, and the first-wins map from paths to files that the initrd stands for. */
module Paths {
  import opened Options
  import opened Bytes
  import opened Tar

  const SLASH: byte := 47

  predicate IsName(t: Text) {
    t != [] && SLASH !in t
  }

  /** The bytes up to the first slash. */
  function Word(s: Text): (w: Text)
    ensures |w| <= |s| && w == s[..|w|] && SLASH !in w
    ensures |w| < |s| ==> s[|w|] == SLASH
  {
    if s == [] || s[0] == SLASH then [] else [s[0]] + Word(s[1..])
  }

  /** The non-empty pieces between slashes. */
  function Components(s: Text): (c: seq<Text>)
    ensures forall i :: 0 <= i < |c| ==> IsName(c[i])
    decreases |s|
  {
    if s == [] then []
    else if s[0] == SLASH then Components(s[1..])
    else [Word(s)] + Components(s[|Word(s)|..])
  }

  lemma {:induction false} WordStops(s: Text, t: Text)
    requires SLASH !in s && (t != [] ==> t[0] == SLASH)
    ensures Word(s + t) == s
  {
    if s == [] {
    } else {
      assert (s + t)[1..] == s[1..] + t;
      WordStops(s[1..], t);
    }
  }

  /** A name in front of a path is its first component. */
  lemma ComponentsCons(name: Text, t: Text)
    requires IsName(name) && (t != [] ==> t[0] == SLASH)
    ensures Components([SLASH] + name + t) == [name] + Components(t)
  {
    var s := name + t;
    assert ([SLASH] + name + t)[1..] == s;
    assert s[|name|..] == t;
  }

  /** A slash separates: what is before it and what is after it are split on their own. */
  lemma {:induction false} ComponentsSplit(s: Text, t: Text)
    ensures Components(s + [SLASH] + t) == Components(s) + Components(t)
    decreases |s|
  {
    var whole := s + [SLASH] + t;
    if s == [] {
    } else if s[0] == SLASH {
      assert whole[1..] == s[1..] + [SLASH] + t;
      ComponentsSplit(s[1..], t);
    } else {
      var w := Word(s);
      assert whole == w + (s[|w|..] + [SLASH] + t);
      WordStops(w, s[|w|..] + [SLASH] + t);
      ComponentsSplit(s[|w|..], t);
    }
  }

  /** `/a//b/` has the components `a` and `b`. */
  lemma ComponentsExample()
    ensures Components([47, 97, 47, 47, 98, 47]) == [[97], [98]]
  {
    ComponentsCons([97], [47, 47, 98, 47]);
    ComponentsSplit([], [47, 98, 47]);
    ComponentsCons([98], [47]);
    assert [47, 97, 47, 47, 98, 47] == [SLASH] + [97] + [47, 47, 98, 47];
    assert [47, 47, 98, 47] == [] + [SLASH] + [47, 98, 47] && [47, 98, 47] == [SLASH] + [98] + [47];
    assert Components([47]) == [] by { assert [47][1..] == []; }
  }

  // ---- the path map ----

  datatype Node = Directory | File(data: seq<byte>)

  /** What entry `e` puts at `path`: itself, a parent directory, or nothing. */
  function Made(e: Entry, path: seq<Text>): (n: Option<Node>) {
    if path == [] || !(path <= Components(e.path)) then None
    else if path == Components(e.path) && !e.isDir then Some(File(e.data))
    else Some(Directory)
  }

  /** The root is a directory; any other path is what the earliest entry that reaches it makes of it. */
  function FirstWins(entries: seq<Entry>, path: seq<Text>): (n: Option<Node>) {
    if path == [] then Some(Directory)
    else if entries == [] then None
    else if Made(entries[0], path).Some? then Made(entries[0], path)
    else FirstWins(entries[1..], path)
  }

  lemma {:induction false} FirstWinsAppend(entries: seq<Entry>, e: Entry, path: seq<Text>)
    ensures FirstWins(entries + [e], path)
            == if FirstWins(entries, path).Some? then FirstWins(entries, path) else Made(e, path)
  {
    if entries == [] {
    } else {
      assert (entries + [e])[1..] == entries[1..] + [e];
      FirstWinsAppend(entries[1..], e, path);
    }
  }

  /** The first entry to reach a path decides what is there: a parent is a directory, the entry's own path what it says. */
  lemma FirstEntryDecides(before: seq<Entry>, e: Entry, after: seq<Entry>, path: seq<Text>)
    requires path != [] && path <= Components(e.path) && FirstWins(before, path).None?
    ensures FirstWins(before + [e] + after, path)
            == Some(if path == Components(e.path) && !e.isDir then File(e.data) else Directory)
  {
    FirstWinsAppend(before, e, path);
    LaterChangesNothing(before + [e], after, path);
  }

  /** Later entries change nothing at a path that is present. */
  lemma {:induction false} LaterChangesNothing(entries: seq<Entry>, after: seq<Entry>, path: seq<Text>)
    requires FirstWins(entries, path).Some?
    ensures FirstWins(entries + after, path) == FirstWins(entries, path)
  {
    if after == [] {
      assert entries + after == entries;
    } else {
      LaterChangesNothing(entries, after[..|after| - 1], path);
      FirstWinsAppend(entries + after[..|after| - 1], after[|after| - 1], path);
      assert entries + after == entries + after[..|after| - 1] + [after[|after| - 1]];
    }
  }

  /** Every prefix of a path that is present is present, too. */
  lemma {:induction false} ParentsPresent(entries: seq<Entry>, path: seq<Text>, n: nat)
    requires n <= |path| && FirstWins(entries, path).Some?
    ensures FirstWins(entries, path[..n]).Some?
  {
    if n > 0 && Made(entries[0], path).None? {
      ParentsPresent(entries[1..], path, n);
    }
  }
}
