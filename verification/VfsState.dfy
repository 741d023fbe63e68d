/** The mounted file systems as one forest of nodes, what a path means in it, and the path of a node
    (kernel/src/fs/vfs.c:48-116, 143-173; kernel/src/fs/tmpfs.c:37-104). */
module VfsState {
  import opened Options

  type Id = nat

  /** A node with its children, newest first; the root of a file system has neither name nor parent. */
  datatype Node = Node(
    system: Id, isDir: bool, name: Option<string>, parent: Option<Id>, children: seq<Id>, mounted: Option<Id>)

  datatype System = System(root: Id, mountNode: Option<Id>, readOnly: bool)

  /** `list` are the mounted systems, first one first; `rank` (for the proofs only) grows on every way down. */
  datatype State = State(nodes: map<Id, Node>, systems: map<Id, System>, list: seq<Id>, rank: map<Id, nat>)

  datatype Errno = ENOENT | ENOTDIR | EEXIST | EROFS | EBUSY

  datatype Result = Ok(node: Id) | Err(errno: Errno)

  /** A name that a path can spell. */
  predicate Ordinary(name: string) {
    name != "" && '/' !in name && name != "." && name != ".."
  }

  // ----- Well-formed forests

  ghost predicate NodeOk(s: State, n: Id)
    requires n in s.nodes
  {
    var x := s.nodes[n];
    && x.system in s.systems && n in s.rank
    && (x.name.None? <==> x.parent.None?) && (x.parent.None? <==> s.systems[x.system].root == n)
    && (x.parent.Some? ==>
          && x.parent.value in s.nodes && s.nodes[x.parent.value].system == x.system
          && n in s.nodes[x.parent.value].children
          && s.nodes[x.parent.value].isDir && x.parent.value in s.rank && s.rank[x.parent.value] < s.rank[n])
    && (forall i :: 0 <= i < |x.children| ==> x.children[i] in s.nodes && s.nodes[x.children[i]].parent == Some(n))
    && (forall i, j :: 0 <= i < j < |x.children| ==> s.nodes[x.children[i]].name != s.nodes[x.children[j]].name)
    && (x.mounted.Some? ==> x.mounted.value in s.systems && s.systems[x.mounted.value].mountNode == Some(n))
  }

  ghost predicate SystemOk(s: State, f: Id)
    requires f in s.systems
  {
    var x := s.systems[f];
    && f in s.list && (x.mountNode.None? <==> f == s.list[0])
    && x.root in s.nodes && s.nodes[x.root].system == f && s.nodes[x.root].isDir && x.root in s.rank
    && (x.mountNode.Some? ==>
          && x.mountNode.value in s.nodes && s.nodes[x.mountNode.value].mounted == Some(f)
          && x.mountNode.value in s.rank && s.rank[x.mountNode.value] < s.rank[x.root])
  }

  ghost predicate WellFormed(s: State) {
    && (forall f :: f in s.list <==> f in s.systems)
    && (forall n {:trigger NodeOk(s, n)} :: n in s.nodes ==> NodeOk(s, n))
    && (forall f {:trigger SystemOk(s, f)} :: f in s.systems ==> SystemOk(s, f))
  }

  /** The root of a file system that is mounted on a node. */
  predicate MountedRoot(s: State, n: Id)
    requires n in s.nodes
  {
    s.nodes[n].parent.None? && s.nodes[n].system in s.systems && s.systems[s.nodes[n].system].mountNode.Some?
  }

  /** No file system is mounted on the root of a mounted one. */
  predicate Unstacked(s: State) {
    forall n :: n in s.nodes && s.nodes[n].mounted.Some? ==> !MountedRoot(s, n)
  }

  // ----- Looking up

  /** From a mount point to what is mounted there. */
  ghost function Hop(s: State, n: Id): (m: Id)
    requires WellFormed(s) && n in s.nodes
    ensures m in s.nodes
  {
    assert NodeOk(s, n);
    if s.nodes[n].mounted.None? then n
    else
      assert SystemOk(s, s.nodes[n].mounted.value);
      s.systems[s.nodes[n].mounted.value].root
  }

  lemma HopOnce(s: State, n: Id)
    requires WellFormed(s) && Unstacked(s) && n in s.nodes
    ensures s.nodes[Hop(s, n)].mounted.None? && Hop(s, Hop(s, n)) == Hop(s, n)
  {
    assert NodeOk(s, n);
    if s.nodes[n].mounted.Some? {
      assert SystemOk(s, s.nodes[n].mounted.value);
      assert NodeOk(s, Hop(s, n));
    }
  }

  function FindChild(s: State, children: seq<Id>, name: string): Option<Id>
    requires forall i :: 0 <= i < |children| ==> children[i] in s.nodes
  {
    if children == [] then None
    else if s.nodes[children[0]].name == Some(name) then Some(children[0]) else FindChild(s, children[1..], name)
  }

  lemma {:induction false} FoundChild(s: State, children: seq<Id>, name: string)
    requires forall i :: 0 <= i < |children| ==> children[i] in s.nodes
    ensures FindChild(s, children, name).Some? ==>
      FindChild(s, children, name).value in children && s.nodes[FindChild(s, children, name).value].name == Some(name)
    ensures FindChild(s, children, name).None? ==>
      forall i :: 0 <= i < |children| ==> s.nodes[children[i]].name != Some(name)
  {
    if children != [] {
      FoundChild(s, children[1..], name);
      assert children == [children[0]] + children[1..];
    }
  }

  /** One component, from a node that nothing is mounted on; the parent of a root is the root itself. */
  ghost function Step(s: State, n: Id, name: string): (r: Result)
    requires WellFormed(s) && n in s.nodes
    ensures r.Ok? ==> r.node in s.nodes
  {
    assert NodeOk(s, n);
    if !s.nodes[n].isDir then Err(ENOTDIR)
    else if name == "." then Ok(n)
    else if name == ".." then (if s.nodes[n].parent.None? then Ok(n) else Ok(s.nodes[n].parent.value))
    else
      FoundChild(s, s.nodes[n].children, name);
      match FindChild(s, s.nodes[n].children, name)
      case None => Err(ENOENT)
      case Some(c) => Ok(c)
  }

  ghost function Walk(s: State, n: Id, names: seq<string>): (r: Result)
    requires WellFormed(s) && n in s.nodes
    ensures r.Ok? ==> r.node in s.nodes
    decreases |names|
  {
    if names == [] then Ok(Hop(s, n))
    else
      match Step(s, Hop(s, n), names[0])
      case Err(e) => Err(e)
      case Ok(m) => Walk(s, m, names[1..])
  }

  /** The components of a path. */
  function Split(path: string): seq<string> {
    if path == "" then []
    else if path[0] == '/' then Split(path[1..])
    else FirstIsShort(path); [First(path)] + Split(path[|First(path)|..])
  }

  /** Everything before the first slash. */
  function First(path: string): (c: string)
    ensures |c| <= |path| && c == path[..|c|]
  {
    if path == "" || path[0] == '/' then "" else [path[0]] + First(path[1..])
  }

  lemma FirstIsShort(path: string)
    requires path != "" && path[0] != '/'
    ensures 0 < |First(path)|
  {
  }

  lemma {:induction false} FirstIs(c: string, rest: string)
    requires '/' !in c && (rest == "" || rest[0] == '/')
    ensures First(c + rest) == c
  {
    if c == "" {
      assert c + rest == rest;
    } else {
      assert (c + rest)[1..] == c[1..] + rest;
      FirstIs(c[1..], rest);
    }
  }

  /** A component, and what follows it. */
  lemma SplitFront(c: string, rest: string)
    requires c != "" && '/' !in c && (rest == "" || rest[0] == '/')
    ensures Split(c + rest) == [c] + Split(rest)
  {
    FirstIs(c, rest);
    assert (c + rest)[|c|..] == rest;
  }

  // ----- The path of a node

  /** The names from the root of all file systems down to a node. */
  ghost function NamesTo(s: State, n: Id): seq<string>
    requires WellFormed(s) && n in s.nodes
    decreases (assert NodeOk(s, n); s.rank[n])
  {
    assert NodeOk(s, n);
    var x := s.nodes[n];
    if x.parent.Some? then NamesTo(s, x.parent.value) + [x.name.value]
    else
      assert SystemOk(s, x.system);
      if s.systems[x.system].mountNode.None? then [] else NamesTo(s, s.systems[x.system].mountNode.value)
  }

  function Spelled(names: seq<string>): string {
    if names == [] then "" else Spelled(names[..|names| - 1]) + ("/" + names[|names| - 1])
  }

  /** vfs_path */
  function PathText(names: seq<string>): string {
    if names == [] then "/" else Spelled(names)
  }

  /** The first mounted file system's root. */
  ghost function Top(s: State): (n: Id)
    requires WellFormed(s) && s.list != []
    ensures n in s.nodes
  {
    assert SystemOk(s, s.list[0]);
    s.systems[s.list[0]].root
  }

  /** No directory above a node is covered by a mount, except where a mount is crossed. */
  ghost predicate VisibleAbove(s: State, n: Id)
    requires WellFormed(s) && n in s.nodes
    decreases (assert NodeOk(s, n); s.rank[n])
  {
    assert NodeOk(s, n);
    var x := s.nodes[n];
    if x.parent.Some? then s.nodes[x.parent.value].mounted.None? && VisibleAbove(s, x.parent.value)
    else
      assert SystemOk(s, x.system);
      s.systems[x.system].mountNode.Some? ==> VisibleAbove(s, s.systems[x.system].mountNode.value)
  }

  ghost predicate Visible(s: State, n: Id)
    requires WellFormed(s) && n in s.nodes
  {
    s.nodes[n].mounted.None? && VisibleAbove(s, n)
  }

  /** Every node that vfs_path steps up from by ".." is a directory. */
  ghost predicate DirsAbove(s: State, n: Id)
    requires WellFormed(s) && n in s.nodes
    decreases (assert NodeOk(s, n); s.rank[n])
  {
    assert NodeOk(s, n);
    var x := s.nodes[n];
    if x.parent.Some? then x.isDir && DirsAbove(s, x.parent.value)
    else
      assert SystemOk(s, x.system);
      s.systems[x.system].mountNode.Some? ==> DirsAbove(s, s.systems[x.system].mountNode.value)
  }

  // ----- Names are spelled and split again

  /** A path can spell the names of the node and of everything above it. */
  ghost predicate Spellable(s: State, n: Id)
    requires WellFormed(s) && n in s.nodes
  {
    forall i :: 0 <= i < |NamesTo(s, n)| ==> Ordinary(NamesTo(s, n)[i])
  }

  /** The names of a node are those of its parent, or of what its file system is mounted on, and its own. */
  lemma SpellableUp(s: State, n: Id)
    requires WellFormed(s) && n in s.nodes && s.nodes[n].parent.Some?
    ensures s.nodes[n].name.Some? && s.nodes[n].parent.value in s.nodes
    ensures Spellable(s, n) <==> Spellable(s, s.nodes[n].parent.value) && Ordinary(s.nodes[n].name.value)
  {
    assert NodeOk(s, n);
    var names, name := NamesTo(s, s.nodes[n].parent.value), s.nodes[n].name.value;
    assert NamesTo(s, n) == names + [name];
    assert (names + [name])[|names|] == name;
    assert forall i :: 0 <= i < |names| ==> (names + [name])[i] == names[i];
  }

  lemma JoinRight(a: string, c: string, rest: string)
    ensures (a + ("/" + c)) + rest == a + ("/" + (c + rest)) && ("/" + (c + rest))[1..] == c + rest
  {
  }

  lemma {:induction false} SplitSpelled(names: seq<string>, rest: string)
    requires forall i :: 0 <= i < |names| ==> Ordinary(names[i])
    requires rest == "" || rest[0] == '/'
    ensures Split(Spelled(names) + rest) == names + Split(rest)
    ensures Spelled(names) != "" ==> Spelled(names)[0] == '/'
    decreases |names|
  {
    if names == [] {
      assert Spelled(names) + rest == rest && names + Split(rest) == Split(rest);
    } else {
      hide Split, First;
      var init, c := names[..|names| - 1], names[|names| - 1];
      JoinRight(Spelled(init), c, rest);
      SplitSpelled(init, "/" + (c + rest));
      SplitSlash(c + rest);
      SplitFront(c, rest);
      assert names == init + [c];
      NamesRight(init, c, Split(rest));
    }
  }

  lemma SplitSlash(path: string)
    ensures Split("/" + path) == Split(path)
  {
    assert ("/" + path)[1..] == path;
  }

  lemma NamesRight(init: seq<string>, c: string, rest: seq<string>)
    ensures init + ([c] + rest) == (init + [c]) + rest
  {
  }

  /** The text of a path splits into the names it was made of. */
  lemma PathSplits(names: seq<string>)
    requires forall i :: 0 <= i < |names| ==> Ordinary(names[i])
    ensures Split(PathText(names)) == names && PathText(names) != "" && PathText(names)[0] == '/'
  {
    SplitSpelled(names, "");
    assert Spelled(names) + "" == Spelled(names);
    assert names + Split("") == names;
    if names == [] { assert Split("/") == Split("/"[1..]) == []; }
  }
}
