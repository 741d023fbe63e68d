/** How the forest of file systems grows: new nodes and new mounts (kernel/src/fs/tmpfs.c:46-79, 147-163;
    kernel/src/fs/vfs.c:12-41). */
module VfsGrowth {
  import opened Options
  import opened VfsState
  import opened VfsLookup
  import opened VfsPaths

  // ----- A new node in a directory

  /** create_tnode: the node becomes the first child of directory p. */
  ghost function WithChild(s: State, p: Id, id: Id, name: string, isDir: bool): State
    requires p in s.nodes && p in s.rank
  {
    s.(nodes := s.nodes[p := s.nodes[p].(children := [id] + s.nodes[p].children)]
                       [id := Node(s.nodes[p].system, isDir, Some(name), Some(p), [], None)],
       rank := s.rank[id := s.rank[p] + 1])
  }

  ghost predicate CanHold(s: State, p: Id, id: Id, name: string) {
    && WellFormed(s) && p in s.nodes && p in s.rank && s.nodes[p].isDir && id !in s.nodes
    && (forall i :: 0 <= i < |s.nodes[p].children| ==>
          s.nodes[p].children[i] in s.nodes && s.nodes[s.nodes[p].children[i]].name != Some(name))
  }

  lemma WithChildNew(s: State, p: Id, id: Id, name: string, isDir: bool)
    requires CanHold(s, p, id, name)
    ensures NodeOk(WithChild(s, p, id, name, isDir), id)
  {
    assert NodeOk(s, p);
    assert SystemOk(s, s.nodes[p].system);
  }

  lemma WithChildParent(s: State, p: Id, id: Id, name: string, isDir: bool)
    requires CanHold(s, p, id, name)
    ensures NodeOk(WithChild(s, p, id, name, isDir), p)
  {
    var u := WithChild(s, p, id, name, isDir);
    assert NodeOk(s, p);
    assert forall i :: 0 < i < |u.nodes[p].children| ==> u.nodes[p].children[i] == s.nodes[p].children[i - 1];
  }

  lemma WithChildOther(s: State, p: Id, id: Id, name: string, isDir: bool, n: Id)
    requires CanHold(s, p, id, name) && n in s.nodes && n != p
    ensures NodeOk(WithChild(s, p, id, name, isDir), n)
  {
    assert NodeOk(s, n);
  }

  lemma WithChildOk(s: State, p: Id, id: Id, name: string, isDir: bool)
    requires CanHold(s, p, id, name)
    ensures WellFormed(WithChild(s, p, id, name, isDir))
    ensures Unstacked(s) ==> Unstacked(WithChild(s, p, id, name, isDir))
  {
    hide NodeOk;
    var u := WithChild(s, p, id, name, isDir);
    forall n | n in u.nodes ensures NodeOk(u, n) {
      if n == id {
        WithChildNew(s, p, id, name, isDir);
      } else if n == p {
        WithChildParent(s, p, id, name, isDir);
      } else {
        WithChildOther(s, p, id, name, isDir, n);
      }
    }
    forall f | f in u.systems ensures SystemOk(u, f) { assert SystemOk(s, f); }
    if Unstacked(s) {
      forall n | n in u.nodes && u.nodes[n].mounted.Some? ensures !MountedRoot(u, n) { assert !MountedRoot(s, n); }
    }
  }

  /** The new node is the first child of its directory, and no other node has changed. */
  ghost predicate MadeIn(s: State, u: State, p: Id, id: Id, name: string, isDir: bool) {
    && p in s.nodes && u.nodes.Keys == s.nodes.Keys + {id}
    && u.nodes[id] == Node(s.nodes[p].system, isDir, Some(name), Some(p), [], None)
    && u.nodes[p] == s.nodes[p].(children := [id] + s.nodes[p].children)
    && (forall n :: n in s.nodes && n != p ==> u.nodes[n] == s.nodes[n])
    && u.systems == s.systems && u.list == s.list
  }

  lemma WithChildExact(s: State, p: Id, id: Id, name: string, isDir: bool)
    requires CanHold(s, p, id, name)
    ensures MadeIn(s, WithChild(s, p, id, name, isDir), p, id, name, isDir)
  {
  }

  /** No path changes, and nothing is hidden or shown. */
  lemma {:induction false} PathsKept(s: State, p: Id, id: Id, name: string, isDir: bool, n: Id)
    requires CanHold(s, p, id, name) && n in s.nodes && WellFormed(WithChild(s, p, id, name, isDir))
    ensures NamesTo(WithChild(s, p, id, name, isDir), n) == NamesTo(s, n)
    ensures VisibleAbove(WithChild(s, p, id, name, isDir), n) <==> VisibleAbove(s, n)
    ensures MetAbove(WithChild(s, p, id, name, isDir), n) <==> MetAbove(s, n)
    ensures Depth(WithChild(s, p, id, name, isDir), n) == Depth(s, n)
    decreases (assert NodeOk(s, n); s.rank[n])
  {
    var u := WithChild(s, p, id, name, isDir);
    assert NodeOk(s, n);
    assert NodeOk(u, n);
    if s.nodes[n].parent.Some? {
      assert u.nodes[s.nodes[n].parent.value].mounted == s.nodes[s.nodes[n].parent.value].mounted;
      PathsKept(s, p, id, name, isDir, s.nodes[n].parent.value);
    } else {
      assert SystemOk(s, s.nodes[n].system);
      if s.systems[s.nodes[n].system].mountNode.Some? {
        PathsKept(s, p, id, name, isDir, s.systems[s.nodes[n].system].mountNode.value);
      }
    }
  }

  /** A node made in a directory is found under that directory's path and its own name exactly if a path can spell them
      and a lookup comes through the stacks of mounts on the way; without stacked mounts, if the directory is
      visible. */
  lemma NewNodePath(s: State, p: Id, id: Id, name: string, isDir: bool)
    requires CanHold(s, p, id, name)
    ensures var u := WithChild(s, p, id, name, isDir);
      && WellFormed(u) && NamesTo(u, id) == NamesTo(s, p) + [name] && u.list != []
      && (LookedUp(u, Top(u), PathText(NamesTo(s, p) + [name])) == Ok(id) <==>
            && Meets(s, p, Turns(NamesTo(s, p), name)) && MetAbove(s, p)
            && Spellable(s, p) && Ordinary(name))
      && (Unstacked(s) ==>
            (LookedUp(u, Top(u), PathText(NamesTo(s, p) + [name])) == Ok(id) <==>
              Visible(s, p) && Spellable(s, p) && Ordinary(name)))
  {
    var u := WithChild(s, p, id, name, isDir);
    WithChildOk(s, p, id, name, isDir);
    PathsKept(s, p, id, name, isDir, p);
    assert NodeOk(u, id);
    PathRoundTrip(u, id);
    SpellableUp(u, id);
    if Unstacked(s) { VisibleRoundTrip(u, id); }
  }

  // ----- A new mount

  /** A file system of its own: its root, and everything below. */
  ghost predicate Solo(f: Id, root: Id, readOnly: bool, tree: map<Id, Node>, ranks: map<Id, nat>) {
    && WellFormed(State(tree, map[f := System(root, None, readOnly)], [f], ranks))
    && forall n :: n in tree ==> tree[n].mounted.None?
  }

  /** tmpfs_mount: a root directory without children. */
  lemma TmpfsSolo(f: Id, root: Id)
    ensures Solo(f, root, false, map[root := Node(f, true, None, None, [], None)], map[root := 0])
  {
  }

  ghost function Shifted(ranks: map<Id, nat>, amount: nat): map<Id, nat> {
    map n | n in ranks :: ranks[n] + amount
  }

  /** vfs_mount: file system f is attached to node m. */
  ghost function Attached(s: State, m: Option<Id>, f: Id, root: Id, readOnly: bool, tree: map<Id, Node>, ranks: map<Id,
                          nat>): State
    requires m.Some? ==> m.value in s.nodes && m.value in s.rank
  {
    var nodes := if m.None? then s.nodes else s.nodes[m.value := s.nodes[m.value].(mounted := Some(f))];
    State(nodes + tree, s.systems[f := System(root, m, readOnly)], s.list + [f],
          s.rank + Shifted(ranks, if m.None? then 0 else s.rank[m.value] + 1))
  }

  ghost predicate CanAttach(s: State, m: Option<Id>, f: Id, root: Id, readOnly: bool, tree: map<Id, Node>,
                            ranks: map<Id, nat>) {
    && WellFormed(s) && Solo(f, root, readOnly, tree, ranks) && f !in s.systems && tree.Keys !! s.nodes.Keys
    && ranks.Keys !! s.rank.Keys && (m.None? <==> s.list == [])
    && (m.Some? ==> m.value in s.nodes && m.value in s.rank && s.nodes[m.value].mounted.None?)
  }

  /** The new system is the last of the list, what it is mounted on points to it, and no other node or system has
      changed. */
  ghost predicate Joined(s: State, u: State, m: Option<Id>, f: Id, root: Id, readOnly: bool, tree: map<Id, Node>) {
    && u.list == s.list + [f]
    && u.systems.Keys == s.systems.Keys + {f} && u.systems[f] == System(root, m, readOnly)
    && (forall g :: g in s.systems ==> u.systems[g] == s.systems[g])
    && u.nodes.Keys == s.nodes.Keys + tree.Keys && (forall n :: n in tree ==> u.nodes[n] == tree[n])
    && (forall n :: n in s.nodes && Some(n) != m ==> u.nodes[n] == s.nodes[n])
    && (m.Some? ==> m.value in s.nodes && u.nodes[m.value] == s.nodes[m.value].(mounted := Some(f)))
  }

  lemma AttachedExact(s: State, m: Option<Id>, f: Id, root: Id, readOnly: bool, tree: map<Id, Node>, ranks: map<Id,
                      nat>)
    requires CanAttach(s, m, f, root, readOnly, tree, ranks)
    ensures Joined(s, Attached(s, m, f, root, readOnly, tree, ranks), m, f, root, readOnly, tree)
  {
    hide WellFormed, Solo;
  }

  lemma AttachedNew(s: State, m: Option<Id>, f: Id, root: Id, readOnly: bool, tree: map<Id, Node>, ranks: map<Id, nat>,
                    n: Id)
    requires CanAttach(s, m, f, root, readOnly, tree, ranks) && n in tree
    ensures n in Attached(s, m, f, root, readOnly, tree, ranks).nodes
    ensures NodeOk(Attached(s, m, f, root, readOnly, tree, ranks), n)
  {
    assert NodeOk(State(tree, map[f := System(root, None, readOnly)], [f], ranks), n);
  }

  lemma AttachedOld(s: State, m: Option<Id>, f: Id, root: Id, readOnly: bool, tree: map<Id, Node>, ranks: map<Id, nat>,
                    n: Id)
    requires CanAttach(s, m, f, root, readOnly, tree, ranks) && n in s.nodes
    ensures n in Attached(s, m, f, root, readOnly, tree, ranks).nodes
    ensures NodeOk(Attached(s, m, f, root, readOnly, tree, ranks), n)
  {
    hide Solo;
    assert NodeOk(s, n);
  }

  lemma AttachedParts(s: State, m: Option<Id>, f: Id, root: Id, readOnly: bool, tree: map<Id, Node>, ranks: map<Id,
                      nat>)
    requires CanAttach(s, m, f, root, readOnly, tree, ranks)
    ensures m.Some? ==> m.value in s.nodes && m.value in s.rank
    ensures var u := Attached(s, m, f, root, readOnly, tree, ranks);
      && (forall g :: g in u.list <==> g in u.systems) && (forall n :: n in u.nodes ==> n in tree || n in s.nodes)
  {
    hide Solo, NodeOk, SystemOk;
  }

  lemma AttachedSystem(s: State, m: Option<Id>, f: Id, root: Id, readOnly: bool, tree: map<Id, Node>, ranks: map<Id,
                       nat>, g: Id)
    requires CanAttach(s, m, f, root, readOnly, tree, ranks)
    requires g in Attached(s, m, f, root, readOnly, tree, ranks).systems
    ensures SystemOk(Attached(s, m, f, root, readOnly, tree, ranks), g)
  {
    var solo := State(tree, map[f := System(root, None, readOnly)], [f], ranks);
    if g == f { assert SystemOk(solo, f); } else { assert SystemOk(s, g); }
    if m.Some? { assert NodeOk(s, m.value); }
  }

  /** The forest stays well-formed; mounts stay unstacked exactly if the node was not the root of a mounted system. */
  lemma AttachedOk(s: State, m: Option<Id>, f: Id, root: Id, readOnly: bool, tree: map<Id, Node>, ranks: map<Id, nat>)
    requires CanAttach(s, m, f, root, readOnly, tree, ranks)
    ensures var u := Attached(s, m, f, root, readOnly, tree, ranks);
      WellFormed(u) && (Unstacked(s) ==> (Unstacked(u) <==> m.None? || !MountedRoot(s, m.value)))
  {
    hide CanAttach, Attached, NodeOk, SystemOk, MountedRoot;
    AttachedParts(s, m, f, root, readOnly, tree, ranks);
    var u := Attached(s, m, f, root, readOnly, tree, ranks);
    forall n | n in u.nodes ensures NodeOk(u, n) {
      if n in tree {
        AttachedNew(s, m, f, root, readOnly, tree, ranks, n);
      } else {
        AttachedOld(s, m, f, root, readOnly, tree, ranks, n);
      }
    }
    forall g | g in u.systems ensures SystemOk(u, g) { AttachedSystem(s, m, f, root, readOnly, tree, ranks, g); }
    if Unstacked(s) {
      forall n | n in u.nodes && u.nodes[n].mounted.Some? && Some(n) != m ensures !MountedRoot(u, n) {
        StillNoRoot(s, m, f, root, readOnly, tree, ranks, n);
      }
      if m.Some? { StillRoot(s, m.value, f, root, readOnly, tree, ranks); }
    }
  }

  lemma StillNoRoot(s: State, m: Option<Id>, f: Id, root: Id, readOnly: bool, tree: map<Id, Node>, ranks: map<Id, nat>,
                    n: Id)
    requires CanAttach(s, m, f, root, readOnly, tree, ranks) && Unstacked(s)
    requires var u := Attached(s, m, f, root, readOnly, tree, ranks);
      n in u.nodes && u.nodes[n].mounted.Some? && Some(n) != m
    ensures !MountedRoot(Attached(s, m, f, root, readOnly, tree, ranks), n)
  {
    assert n in s.nodes;
    assert NodeOk(s, n);
    assert !MountedRoot(s, n);
  }

  lemma StillRoot(s: State, m: Id, f: Id, root: Id, readOnly: bool, tree: map<Id, Node>, ranks: map<Id, nat>)
    requires CanAttach(s, Some(m), f, root, readOnly, tree, ranks)
    ensures MountedRoot(Attached(s, Some(m), f, root, readOnly, tree, ranks), m) <==> MountedRoot(s, m)
    ensures m in Attached(s, Some(m), f, root, readOnly, tree, ranks).nodes
    ensures Attached(s, Some(m), f, root, readOnly, tree, ranks).nodes[m].mounted.Some?
  {
    hide Solo;
    assert NodeOk(s, m);
  }

  /** Mounting renames no node that was there. */
  lemma {:induction false} OldPaths(s: State, m: Option<Id>, f: Id, root: Id, readOnly: bool, tree: map<Id, Node>,
                                    ranks: map<Id, nat>, n: Id)
    requires CanAttach(s, m, f, root, readOnly, tree, ranks) && n in s.nodes
    requires WellFormed(Attached(s, m, f, root, readOnly, tree, ranks))
    ensures NamesTo(Attached(s, m, f, root, readOnly, tree, ranks), n) == NamesTo(s, n)
    decreases (assert NodeOk(s, n); s.rank[n])
  {
    hide Solo;
    var u := Attached(s, m, f, root, readOnly, tree, ranks);
    assert NodeOk(s, n);
    assert NodeOk(u, n);
    if s.nodes[n].parent.Some? {
      OldPaths(s, m, f, root, readOnly, tree, ranks, s.nodes[n].parent.value);
    } else {
      var g := s.nodes[n].system;
      assert SystemOk(s, g);
      if s.systems[g].mountNode.Some? { OldPaths(s, m, f, root, readOnly, tree, ranks, s.systems[g].mountNode.value); }
    }
  }

  /** What is mounted on m is found under the path of m. */
  lemma {:induction false} MountedPaths(s: State, m: Id, f: Id, root: Id, readOnly: bool, tree: map<Id, Node>,
                                        ranks: map<Id, nat>,
                                        n: Id)
    requires CanAttach(s, Some(m), f, root, readOnly, tree, ranks) && n in tree
    requires WellFormed(Attached(s, Some(m), f, root, readOnly, tree, ranks))
    ensures m in s.nodes && n in Attached(s, Some(m), f, root, readOnly, tree, ranks).nodes
    ensures WellFormed(State(tree, map[f := System(root, None, readOnly)], [f], ranks))
    ensures NamesTo(Attached(s, Some(m), f, root, readOnly, tree, ranks), n)
            == NamesTo(s, m) + NamesTo(State(tree, map[f := System(root, None, readOnly)], [f], ranks), n)
    decreases (assert NodeOk(State(tree, map[f := System(root, None, readOnly)], [f], ranks), n); ranks[n])
  {
    var u := Attached(s, Some(m), f, root, readOnly, tree, ranks);
    var solo := State(tree, map[f := System(root, None, readOnly)], [f], ranks);
    assert NodeOk(solo, n);
    assert NodeOk(u, n);
    if tree[n].parent.Some? {
      var p := tree[n].parent.value;
      MountedPaths(s, m, f, root, readOnly, tree, ranks, p);
      assert NamesTo(s, m) + (NamesTo(solo, p) + [tree[n].name.value])
        == (NamesTo(s, m) + NamesTo(solo, p)) + [tree[n].name.value];
    } else {
      assert SystemOk(u, f);
      OldPaths(s, Some(m), f, root, readOnly, tree, ranks, m);
      assert NamesTo(solo, n) == [] by { assert SystemOk(solo, f); }
      assert NamesTo(s, m) + [] == NamesTo(s, m);
    }
  }

  /** Nothing above the mount node, and neither the node itself, is hidden or shown by the mount. */
  lemma {:induction false} OldVisible(s: State, m: Id, f: Id, root: Id, readOnly: bool, tree: map<Id, Node>,
                                      ranks: map<Id, nat>, n: Id)
    requires CanAttach(s, Some(m), f, root, readOnly, tree, ranks) && n in s.nodes && n in s.rank
    requires m in s.rank && s.rank[n] <= s.rank[m]
    requires WellFormed(Attached(s, Some(m), f, root, readOnly, tree, ranks))
    ensures n in Attached(s, Some(m), f, root, readOnly, tree, ranks).nodes
    ensures VisibleAbove(Attached(s, Some(m), f, root, readOnly, tree, ranks), n) <==> VisibleAbove(s, n)
    decreases s.rank[n]
  {
    hide Solo;
    var u := Attached(s, Some(m), f, root, readOnly, tree, ranks);
    assert NodeOk(s, n);
    assert NodeOk(u, n);
    if s.nodes[n].parent.Some? {
      OldVisible(s, m, f, root, readOnly, tree, ranks, s.nodes[n].parent.value);
    } else {
      var g := s.nodes[n].system;
      assert SystemOk(s, g);
      if s.systems[g].mountNode.Some? {
        OldVisible(s, m, f, root, readOnly, tree, ranks, s.systems[g].mountNode.value);
      }
    }
  }

  /** After a mount the path of the node it is on leads to the root of what is mounted, exactly if that path led to the
      node before. */
  lemma MountLeads(s: State, m: Id, f: Id, root: Id, readOnly: bool, tree: map<Id, Node>, ranks: map<Id, nat>)
    requires CanAttach(s, Some(m), f, root, readOnly, tree, ranks) && Unstacked(s) && !MountedRoot(s, m) && s.list != []
    ensures var u := Attached(s, Some(m), f, root, readOnly, tree, ranks);
      && WellFormed(u) && u.list != []
      && (LookedUp(u, Top(u), PathText(NamesTo(s, m))) == Ok(root) <==>
            LookedUp(s, Top(s), PathText(NamesTo(s, m))) == Ok(m))
  {
    var u := Attached(s, Some(m), f, root, readOnly, tree, ranks);
    AttachedOk(s, Some(m), f, root, readOnly, tree, ranks);
    VisibleRoundTrip(s, m);
    assert SystemOk(u, f);
    assert NodeOk(u, root);
    OldPaths(s, Some(m), f, root, readOnly, tree, ranks, m);
    OldVisible(s, m, f, root, readOnly, tree, ranks, m);
    VisibleRoundTrip(u, root);
  }
}
