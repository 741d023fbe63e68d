/** The virtual file system: lookups that cross mounts, mounting, paths of nodes, and the nodes tmpfs makes
    (kernel/src/fs/vfs.c; kernel/src/fs/tmpfs.c:37-104, 147-163). */
module Vfs {
  import opened Options
  import opened VfsState
  import opened VfsLookup
  import opened VfsPaths
  import opened VfsGrowth

  /** What the lookup operation of a file system answers; Null for the parent of a root. */
  datatype Answer = Fail(errno: Errno) | Null | Found(node: Id)

  lemma ChildrenKnown(s: State, n: Id)
    requires WellFormed(s) && n in s.nodes
    ensures forall i :: 0 <= i < |s.nodes[n].children| ==> s.nodes[n].children[i] in s.nodes
    ensures s.nodes[n].parent.Some? ==> s.nodes[n].parent.value in s.nodes
    ensures s.nodes[n].mounted.Some? ==> s.nodes[n].mounted.value in s.systems
    ensures s.nodes[n].system in s.systems
  {
    assert NodeOk(s, n);
  }

  lemma ListKnown(s: State)
    requires WellFormed(s) && s.list != []
    ensures s.list[0] in s.systems && s.systems[s.list[0]].root in s.nodes && Top(s) == s.systems[s.list[0]].root
  {
    assert SystemOk(s, s.list[0]);
  }

  class Vfs {
    var nodes: map<Id, Node>
    var systems: map<Id, System>
    var list: seq<Id>
    ghost var rank: map<Id, nat>

    ghost function Snap(): State
      reads this
    {
      State(nodes, systems, list, rank)
    }

    ghost predicate Valid()
      reads this
    {
      WellFormed(Snap())
    }

    /** Nothing is mounted. */
    constructor ()
      ensures Valid() && Unstacked(Snap()) && list == []
    {
      nodes, systems, list, rank := map[], map[], [], map[];
    }

    /** dir_find */
    method DirFind(dir: Id, name: string) returns (res: Option<Id>)
      requires Valid() && dir in nodes
      ensures forall i :: 0 <= i < |nodes[dir].children| ==> nodes[dir].children[i] in nodes
      ensures res == FindChild(Snap(), nodes[dir].children, name)
    {
      hide WellFormed;
      ChildrenKnown(Snap(), dir);
      var children := nodes[dir].children;
      var i := 0;
      assert children[0..] == children;
      while i < |children|
        invariant 0 <= i <= |children|
        invariant FindChild(Snap(), children, name) == FindChild(Snap(), children[i..], name)
      {
        if nodes[children[i]].name == Some(name) { return Some(children[i]); }
        assert children[i..][1..] == children[i + 1..];
        i := i + 1;
      }
      return None;
    }

    /** tmpfs_node_lookup */
    method NodeLookup(node: Id, name: string) returns (res: Answer)
      requires Valid() && node in nodes
      ensures match Step(Snap(), node, name)
              case Err(e) => res == Fail(e)
              case Ok(m) => res == Found(m) || (res == Null && m == node && name == ".." && nodes[node].parent.None?)
      ensures !nodes[node].isDir ==> res == Fail(ENOTDIR)
      ensures nodes[node].isDir && name == "." ==> res == Found(node)
      ensures nodes[node].isDir && name == ".." ==>
        res == if nodes[node].parent.None? then Null else Found(nodes[node].parent.value)
      ensures nodes[node].isDir && name != "." && name != ".." ==>
        if NamedChild(Snap(), node, name)
        then res.Found? && res.node in nodes[node].children && res.node in nodes && nodes[res.node].name == Some(name)
        else res == Fail(ENOENT)
    {
      hide WellFormed;
      ChildrenKnown(Snap(), node);
      FoundChild(Snap(), nodes[node].children, name);
      if !nodes[node].isDir { return Fail(ENOTDIR); }
      if name == "." { return Found(node); }
      if name == ".." {
        if nodes[node].parent.Some? { return Found(nodes[node].parent.value); }
        return Null;
      }
      var found := DirFind(node, name);
      if found.None? { return Fail(ENOENT); }
      return Found(found.value);
    }

    /** vfs_root */
    method Root() returns (r: Result)
      requires Valid()
      ensures r == if list == [] then Err(ENOENT) else Ok(Top(Snap()))
    {
      hide WellFormed;
      if list == [] { return Err(ENOENT); }
      ListKnown(Snap());
      return Ok(systems[list[0]].root);
    }

    /** Where a lookup begins. */
    ghost function Begin(path: string, cwd: Option<Id>): Result
      requires Valid()
      reads this
    {
      if path != "" && path[0] == '/' then (if list == [] then Err(ENOENT) else Ok(Top(Snap())))
      else if cwd.None? then Err(ENOENT) else Ok(cwd.value)
    }

    /** vfs_lookup on a path without its terminator */
    method Lookup(path: string, cwd: Option<Id>) returns (r: Result)
      requires Valid() && (cwd.Some? ==> cwd.value in nodes)
      ensures Begin(path, cwd).Err? ==> r == Begin(path, cwd)
      ensures Begin(path, cwd).Ok? ==> r == LookedUp(Snap(), Begin(path, cwd).node, path)
      ensures Absolute(path) && list == [] ==> r == Err(ENOENT)
      ensures Absolute(path) && list != [] ==> r == LookedUp(Snap(), Top(Snap()), path)
      ensures !Absolute(path) && cwd.None? ==> r == Err(ENOENT)
      ensures !Absolute(path) && cwd.Some? ==> r == Scanned(Snap(), cwd.value, "", path)
      ensures Unstacked(Snap()) && (if Absolute(path) then list != [] else cwd.Some?) ==>
        r == Walk(Snap(), if Absolute(path) then Top(Snap()) else cwd.value, Split(path))
    {
      hide WellFormed, Scanned, Unstacked, Walk, Split;
      if Unstacked(Snap()) {
        if list != [] { LookupWalks(Snap(), Top(Snap()), path); }
        if cwd.Some? { LookupWalks(Snap(), cwd.value, path); }
      }
      var compStart: nat, compEnd: nat := 0, 0;
      var current := cwd;
      assert path[0..] == path;
      if compEnd < |path| && path[compEnd] == '/' {
        var root := Root();
        if root.Err? { return root; }
        current := Some(root.node);
        compStart, compEnd := compStart + 1, compEnd + 1;
      }
      if current.None? { return Err(ENOENT); }
      r := Scan(path, current.value, compStart);
    }

    /** The character loop of vfs_lookup_ext. */
    method Scan(path: string, first: Id, start: nat) returns (r: Result)
      requires Valid() && first in nodes && start <= |path|
      ensures r == Scanned(Snap(), first, "", path[start..])
    {
      hide WellFormed, Step, Hop;
      var compStart: nat, compEnd: nat, current: Id := start, start, first;
      assert path[start..start] == "";
      var more := true;
      while more
        invariant current in nodes && (more ==> compStart <= compEnd <= |path|)
        invariant more ==>
          Scanned(Snap(), first, "", path[start..])
          == Scanned(Snap(), current, path[compStart..compEnd], path[compEnd..])
        invariant !more ==> Scanned(Snap(), first, "", path[start..]) == Ok(current)
        decreases more, |path| - compEnd
      {
        ghost var before := current;
        OneCharacter(path, compStart, compEnd);
        if compEnd == |path| || path[compEnd] == '/' {
          if compStart == compEnd {
            compStart := compStart + 1;
          } else {
            var component := path[compStart..compEnd];
            compStart := compEnd + 1;
            var answer := NodeLookup(current, component);
            if answer.Fail? { return Err(answer.errno); }
            if answer.Found? { current := answer.node; }
          }
        }
        MountCrossed(Snap(), current);
        if nodes[current].mounted.Some? { current := systems[nodes[current].mounted.value].root; }
        more := compEnd < |path|;
        compEnd := compEnd + 1;
      }
      return Ok(current);
    }

    /** vfs_mount of a file system whose nodes are `tree`; the result is the error, if any. */
    method Mount(path: Option<string>, f: Id, root: Id, readOnly: bool, tree: map<Id, Node>, ghost ranks: map<Id, nat>)
      returns (error: Option<Errno>)
      requires Valid() && Solo(f, root, readOnly, tree, ranks)
      requires f !in systems && tree.Keys !! nodes.Keys && ranks.Keys !! rank.Keys
      requires path.None? ==> list == []
      modifies this
      ensures Valid() && (error.Some? ==> Snap() == old(Snap()))
      ensures old(list) == [] ==> error == if path.Some? then Some(ENOENT) else None
      ensures old(list) == [] && path.None? ==>
        Snap() == Attached(old(Snap()), None, f, root, readOnly, tree, ranks)
        && Joined(old(Snap()), Snap(), None, f, root, readOnly, tree)
        && (old(Unstacked(Snap())) ==> Unstacked(Snap()))
      ensures old(list) != [] ==>
        match old(Begin(path.value, None))
        case Err(e) => error == Some(e)
        case Ok(n) =>
          match old(LookedUp(Snap(), n, path.value))
          case Err(e) => error == Some(e)
          case Ok(m) =>
            m in old(nodes) && m in old(rank) &&
            if old(nodes)[m].mounted.Some? then error == Some(EBUSY)
            else
              && error == None && Snap() == Attached(old(Snap()), Some(m), f, root, readOnly, tree, ranks)
              && Joined(old(Snap()), Snap(), Some(m), f, root, readOnly, tree)
              && (old(Unstacked(Snap())) ==> (Unstacked(Snap()) <==> !MountedRoot(old(Snap()), m)))
    {
      hide WellFormed, Unstacked, LookedUp, Solo, MountedRoot, Attached, Joined;
      ghost var s := Snap();
      var mountNode := None;
      if list == [] {
        if path.Some? { return Some(ENOENT); }
      } else {
        var r := Lookup(path.value, None);
        if r.Err? { return Some(r.errno); }
        NodeRank(s, r.node);
        if nodes[r.node].mounted != None { return Some(EBUSY); }
        mountNode := Some(r.node);
      }
      Attach(mountNode, f, root, readOnly, tree, ranks);
      return None;
    }

    /** The end of vfs_mount: the new system and its mount node point to each other, and it joins the list. */
    method Attach(mountNode: Option<Id>, f: Id, root: Id, readOnly: bool, tree: map<Id, Node>,
                  ghost ranks: map<Id, nat>)
      requires CanAttach(Snap(), mountNode, f, root, readOnly, tree, ranks)
      modifies this
      ensures Valid() && Snap() == old(Attached(Snap(), mountNode, f, root, readOnly, tree, ranks))
      ensures Joined(old(Snap()), Snap(), mountNode, f, root, readOnly, tree)
      ensures old(Unstacked(Snap())) ==>
        (Unstacked(Snap()) <==> mountNode.None? || !old(MountedRoot(Snap(), mountNode.value)))
    {
      hide WellFormed, Unstacked, Solo, MountedRoot, Joined;
      AttachedExact(Snap(), mountNode, f, root, readOnly, tree, ranks);
      AttachedOk(Snap(), mountNode, f, root, readOnly, tree, ranks);
      rank := rank + Shifted(ranks, if mountNode.None? then 0 else rank[mountNode.value] + 1);
      if mountNode.Some? { nodes := nodes[mountNode.value := nodes[mountNode.value].(mounted := Some(f))]; }
      nodes, systems := nodes + tree, systems[f := System(root, mountNode, readOnly)];
      list := list + [f];
    }

    /** vfs_mkdir and vfs_create, with tmpfs_node_mkdir and tmpfs_node_create for the descriptor `id`; a read-only file
        system refuses. */
    method MakeNode(path: string, name: string, isDir: bool, id: Id, cwd: Option<Id>) returns (r: Result)
      requires Valid() && id !in nodes && (cwd.Some? ==> cwd.value in nodes)
      modifies this`nodes, this`rank
      ensures Valid() && (old(Unstacked(Snap())) ==> Unstacked(Snap())) && (r.Err? ==> Snap() == old(Snap()))
      ensures match old(Begin(path, cwd))
              case Err(e) => r == Err(e)
              case Ok(n) =>
                match old(LookedUp(Snap(), n, path))
                case Err(e) => r == Err(e)
                case Ok(p) =>
                  && p in old(nodes) && old(nodes[p].system) in old(systems) && p in old(rank)
                  && if old(systems)[old(nodes[p].system)].readOnly then r == Err(EROFS)
                     else if !old(nodes[p].isDir) then r == Err(ENOTDIR)
                     else if old(NamedChild(Snap(), p, name)) then r == Err(EEXIST)
                     else r == Ok(id) && Snap() == WithChild(old(Snap()), p, id, name, isDir)
                          && MadeIn(old(Snap()), Snap(), p, id, name, isDir)
    {
      hide WellFormed, Unstacked, LookedUp, FindChild, MadeIn;
      var parent := Lookup(path, cwd);
      if parent.Err? { return parent; }
      var p := parent.node;
      ChildrenKnown(Snap(), p);
      NodeRank(Snap(), p);
      if systems[nodes[p].system].readOnly { return Err(EROFS); }
      if !nodes[p].isDir { return Err(ENOTDIR); }
      var existing := DirFind(p, name);
      NamedChildFound(Snap(), p, name);
      if existing.Some? { return Err(EEXIST); }
      WithChildOk(Snap(), p, id, name, isDir);
      WithChildExact(Snap(), p, id, name, isDir);
      var node := Node(nodes[p].system, isDir, Some(name), Some(p), [], None);
      nodes := nodes[p := nodes[p].(children := [id] + nodes[p].children)];
      nodes := nodes[id := node];
      rank := rank[id := rank[p] + 1];
      return Ok(id);
    }

    /** vfs_path; None stands for the assertion that fails on the way up from a node that is no directory. */
    method Path(node: Id) returns (text: Option<string>)
      requires Valid() && node in nodes
      ensures text == if DirsAbove(Snap(), node) then Some(PathText(NamesTo(Snap(), node))) else None
    {
      hide WellFormed;
      var current, buffer := node, "";
      UpOne(Snap(), current);
      while true
        invariant current in nodes && current in rank && (DirsAbove(Snap(), node) <==> DirsAbove(Snap(), current))
        invariant Spelled(NamesTo(Snap(), node)) == Spelled(NamesTo(Snap(), current)) + buffer
        decreases rank[current]
      {
        UpOne(Snap(), current);
        ChildrenKnown(Snap(), current);
        var name := nodes[current].name;
        if name.None? {
          var mountNode := systems[nodes[current].system].mountNode;
          if mountNode.None? { break; }
          current := mountNode.value;
        } else {
          SpelledBefore(NamesTo(Snap(), nodes[current].parent.value), name.value, buffer);
          buffer := ("/" + name.value) + buffer;
          var up := NodeLookup(current, "..");
          if !up.Found? { return None; }
          current := up.node;
        }
      }
      SpelledEmpty(NamesTo(Snap(), node), buffer);
      if buffer == "" { buffer := "/"; }
      return Some(buffer);
    }

    /** vfs_path, then vfs_lookup of its result: back at the same node exactly if a path can spell its names and a
        lookup comes through the stacks of mounts on the way to it; without stacked mounts, if it is visible. */
    method PathThenLookup(node: Id, cwd: Option<Id>) returns (text: Option<string>, r: Result)
      requires Valid() && node in nodes && (cwd.Some? ==> cwd.value in nodes)
      ensures text.Some? <==> DirsAbove(Snap(), node)
      ensures text.Some? ==> text.value == PathText(NamesTo(Snap(), node))
      ensures text.Some? ==>
        (r == Ok(node) <==> Meets(Snap(), node, 1) && MetAbove(Snap(), node) && Spellable(Snap(), node))
      ensures text.Some? && Unstacked(Snap()) ==> (r == Ok(node) <==> Visible(Snap(), node) && Spellable(Snap(), node))
    {
      hide WellFormed, Unstacked, Visible, Spellable, NamesTo, PathText, LookedUp, Meets, MetAbove;
      r := Err(ENOENT);
      text := Path(node);
      if text.None? { return; }
      PathRoundTrip(Snap(), node);
      if Unstacked(Snap()) { VisibleRoundTrip(Snap(), node); }
      TextFront(NamesTo(Snap(), node));
      r := Lookup(text.value, cwd);
    }

    /** A relative path from a directory leads where it leads behind the directory's own path, from wherever that is
        looked up, if that path leads to the directory at all. */
    method RelativeLookup(dir: Id, rest: string, cwd: Option<Id>)
      returns (text: Option<string>, back: Result, here: Result, there: Result)
      requires Valid() && dir in nodes && (cwd.Some? ==> cwd.value in nodes) && !Absolute(rest)
      ensures text.Some? <==> DirsAbove(Snap(), dir)
      ensures text.Some? ==> (back == Ok(dir) <==>
        Meets(Snap(), dir, 1) && MetAbove(Snap(), dir) && Spellable(Snap(), dir))
      ensures text.Some? && back == Ok(dir) ==> here == there
    {
      hide WellFormed, Unstacked, Visible, Spellable, NamesTo, PathText, LookedUp, Meets, MetAbove, Scanned;
      back, there := Err(ENOENT), Err(ENOENT);
      here := Lookup(rest, Some(dir));
      text, back := PathThenLookup(dir, cwd);
      if text.None? { return; }
      RelativeIsBehind(Snap(), dir, rest);
      PathRoundTrip(Snap(), dir);
      var whole := text.value + ("/" + rest);
      TextFront(NamesTo(Snap(), dir));
      there := Lookup(whole, cwd);
    }
  }

  predicate Absolute(path: string) { path != "" && path[0] == '/' }

  /** One turn of the loop of vfs_path. */
  lemma UpOne(s: State, n: Id)
    requires WellFormed(s) && n in s.nodes
    ensures n in s.rank && s.nodes[n].system in s.systems && (s.nodes[n].name.None? <==> s.nodes[n].parent.None?)
    ensures s.nodes[n].parent.Some? ==>
      var p := s.nodes[n].parent.value;
      p in s.nodes && p in s.rank && s.rank[p] < s.rank[n] && NamesTo(s, n) == NamesTo(s, p) + [s.nodes[n].name.value]
      && (DirsAbove(s, n) <==> s.nodes[n].isDir && DirsAbove(s, p))
    ensures s.nodes[n].parent.None? ==>
      match s.systems[s.nodes[n].system].mountNode
      case None => NamesTo(s, n) == [] && DirsAbove(s, n)
      case Some(m) =>
        && m in s.nodes && m in s.rank && s.rank[m] < s.rank[n] && NamesTo(s, n) == NamesTo(s, m)
        && (DirsAbove(s, n) <==> DirsAbove(s, m))
  {
    assert NodeOk(s, n);
    assert SystemOk(s, s.nodes[n].system);
  }

  lemma SpelledBefore(names: seq<string>, c: string, buffer: string)
    ensures Spelled(names + [c]) + buffer == Spelled(names) + (("/" + c) + buffer)
  {
    assert (names + [c])[..|names|] == names;
    assert (Spelled(names) + ("/" + c)) + buffer == Spelled(names) + (("/" + c) + buffer);
  }

  lemma SpelledEmpty(names: seq<string>, text: string)
    requires Spelled(names) == "" + text
    ensures text == "" <==> names == []
    ensures names != [] ==> text == PathText(names)
  {
  }

  ghost predicate NamedChild(s: State, p: Id, name: string)
    requires p in s.nodes
  {
    exists i ::
      && 0 <= i < |s.nodes[p].children| && s.nodes[p].children[i] in s.nodes
      && s.nodes[s.nodes[p].children[i]].name == Some(name)
  }

  lemma NamedChildFound(s: State, p: Id, name: string)
    requires WellFormed(s) && p in s.nodes
    ensures forall i :: 0 <= i < |s.nodes[p].children| ==> s.nodes[p].children[i] in s.nodes
    ensures NamedChild(s, p, name) <==> FindChild(s, s.nodes[p].children, name).Some?
  {
    ChildrenKnown(s, p);
    FoundChild(s, s.nodes[p].children, name);
  }

  lemma NodeRank(s: State, n: Id)
    requires WellFormed(s) && n in s.nodes
    ensures n in s.rank
  {
    assert NodeOk(s, n);
  }

  /** What reading one character does to a text. */
  lemma OneCharacter(path: string, start: nat, end: nat)
    requires start <= end <= |path|
    ensures path[end..] == "" <==> end == |path|
    ensures end < |path| ==>
      path[end..][0] == path[end] && path[end..][1..] == path[end + 1..] && path[end + 1..end + 1] == ""
    ensures end < |path| ==> path[start..end] + [path[end]] == path[start..end + 1]
    ensures path[start..end] == "" <==> start == end
  {
  }

  /** The step across a mount that follows every character. */
  lemma MountCrossed(s: State, n: Id)
    requires WellFormed(s) && n in s.nodes
    ensures s.nodes[n].mounted.Some? ==>
      s.nodes[n].mounted.value in s.systems && s.systems[s.nodes[n].mounted.value].root in s.nodes
    ensures Hop(s, n) == if s.nodes[n].mounted.None? then n else s.systems[s.nodes[n].mounted.value].root
  {
    ChildrenKnown(s, n);
    if s.nodes[n].mounted.Some? { assert SystemOk(s, s.nodes[n].mounted.value); }
  }
}
