/** What looking up a path comes to: the walk along its components and the character loop of vfs_lookup_ext
    (kernel/src/fs/vfs.c:48-120). */
module VfsLookup {
  import opened Options
  import opened VfsState

  // ----- The character loop

  /** vfs_lookup_ext from a node on: `c` is what has been read of a component, and after every character a mount is
      crossed if there is one. */
  ghost function Scanned(s: State, n: Id, c: string, rest: string): (r: Result)
    requires WellFormed(s) && n in s.nodes
    ensures r.Ok? ==> r.node in s.nodes
    decreases |rest|
  {
    if rest != "" && rest[0] != '/' then Scanned(s, Hop(s, n), c + [rest[0]], rest[1..])
    else
      match (if c == "" then Ok(n) else Step(s, n, c))
      case Err(e) => Err(e)
      case Ok(m) => if rest == "" then Ok(Hop(s, m)) else Scanned(s, Hop(s, m), "", rest[1..])
  }

  /** A lookup that begins at node n: the first slash of an absolute path is skipped. */
  ghost function LookedUp(s: State, n: Id, path: string): (r: Result)
    requires WellFormed(s) && n in s.nodes
    ensures r.Ok? ==> r.node in s.nodes
  {
    Scanned(s, n, "", if path != "" && path[0] == '/' then path[1..] else path)
  }

  lemma {:induction false} WalkHop(s: State, n: Id, names: seq<string>)
    requires WellFormed(s) && Unstacked(s) && n in s.nodes
    ensures Walk(s, Hop(s, n), names) == Walk(s, n, names)
  {
    HopOnce(s, n);
  }

  lemma {:induction false} ScannedIsWalk(s: State, n: Id, c: string, rest: string)
    requires WellFormed(s) && Unstacked(s) && n in s.nodes && '/' !in c && (c != "" ==> Hop(s, n) == n)
    ensures Scanned(s, n, c, rest) == Walk(s, n, Split(c + rest))
    decreases |rest|
  {
    hide Step, First, Hop;
    HopOnce(s, n);
    if rest != "" && rest[0] != '/' {
      assert (c + [rest[0]]) + rest[1..] == c + rest;
      WalkHop(s, n, Split(c + rest));
      ScannedIsWalk(s, Hop(s, n), c + [rest[0]], rest[1..]);
    } else {
      var behind := if rest == "" then "" else rest[1..];
      assert Split(rest) == Split(behind);
      if c == "" {
        assert c + rest == rest;
        ScannedOn(s, n, rest);
      } else {
        SplitFront(c, rest);
        assert ([c] + Split(behind))[1..] == Split(behind);
        var r := Step(s, n, c);
        if r.Ok? { ScannedOn(s, r.node, rest); }
      }
    }
  }

  /** After a component. */
  lemma ScannedOn(s: State, m: Id, rest: string)
    requires WellFormed(s) && Unstacked(s) && m in s.nodes && (rest == "" || rest[0] == '/')
    ensures var behind := if rest == "" then "" else rest[1..];
      (if rest == "" then Ok(Hop(s, m)) else Scanned(s, Hop(s, m), "", rest[1..])) == Walk(s, m, Split(behind))
    decreases |rest|, 0
  {
    if rest == "" {
      assert Split("") == [];
    } else {
      assert "" + rest[1..] == rest[1..];
      WalkHop(s, m, Split(rest[1..]));
      ScannedIsWalk(s, Hop(s, m), "", rest[1..]);
    }
  }

  /** An absolute path spelled from ordinary names is looked up name by name. */
  lemma SpelledLookup(s: State, n: Id, names: seq<string>)
    requires WellFormed(s) && Unstacked(s) && n in s.nodes
    requires forall i :: 0 <= i < |names| ==> Ordinary(names[i])
    ensures LookedUp(s, n, PathText(names)) == Walk(s, n, names)
  {
    hide WellFormed, Unstacked, Scanned, Walk, Split, PathText;
    var text := PathText(names);
    PathSplits(names);
    assert text == "/" + text[1..];
    SplitSlash(text[1..]);
    ScannedIsWalk(s, n, "", text[1..]);
    assert "" + text[1..] == text[1..];
  }

  /** The loop follows the components of every text from every node exactly if no mounts are stacked. */
  lemma ScanExact(s: State)
    requires WellFormed(s)
    ensures (forall n, rest {:trigger Scanned(s, n, "", rest)} :: n in s.nodes ==>
               Scanned(s, n, "", rest) == Walk(s, n, Split(rest)))
            <==> Unstacked(s)
  {
    if Unstacked(s) {
      forall n, rest | n in s.nodes ensures Scanned(s, n, "", rest) == Walk(s, n, Split(rest)) {
        ScannedIsWalk(s, n, "", rest);
        assert "" + rest == rest;
      }
    } else {
      var m :| m in s.nodes && s.nodes[m].mounted.Some? && MountedRoot(s, m);
      StackDiffers(s, m);
    }
  }

  /** From the node below a stack of mounts a single slash leads further than no component at all. */
  lemma StackDiffers(s: State, m: Id)
    requires WellFormed(s) && m in s.nodes && s.nodes[m].mounted.Some? && MountedRoot(s, m)
    ensures exists n :: n in s.nodes && Scanned(s, n, "", "/") != Walk(s, n, Split("/"))
  {
    assert NodeOk(s, m);
    assert SystemOk(s, s.nodes[m].system);
    assert SystemOk(s, s.nodes[m].mounted.value);
    var n := s.systems[s.nodes[m].system].mountNode.value;
    assert Hop(s, n) == m && Hop(s, m) != m;
    assert "/"[1..] == "" && Split("/") == Split("");
    assert Scanned(s, n, "", "/") == Scanned(s, m, "", "") == Ok(Hop(s, m));
  }

  /** A root, and two systems mounted on "/" one over the other, each with a file "a". */
  function Stack(): State {
    State(map[10 := Node(0, true, None, None, [], Some(1)), 11 := Node(1, true, None, None, [21], Some(2)),
              12 := Node(2, true, None, None, [22], None), 21 := Node(1, false, Some("a"), Some(11), [], None),
              22 := Node(2, false, Some("a"), Some(12), [], None)],
          map[0 := System(10, None, false), 1 := System(11, Some(10), false), 2 := System(12, Some(11), false)],
          [0, 1, 2], map[10 := 0, 11 := 1, 12 := 2, 21 := 2, 22 := 3])
  }

  lemma StackNode(n: Id)
    requires n in {10, 11, 12, 21, 22}
    ensures n in Stack().nodes && NodeOk(Stack(), n)
  {
  }

  lemma StackSystem(f: Id)
    requires f in {0, 1, 2}
    ensures f in Stack().systems && SystemOk(Stack(), f)
  {
  }

  lemma StackKeys()
    ensures Stack().nodes.Keys == {10, 11, 12, 21, 22} && Stack().systems.Keys == {0, 1, 2}
    ensures forall f :: f in Stack().list <==> f in {0, 1, 2}
  {
  }

  lemma StackWellFormed()
    ensures WellFormed(Stack())
  {
    StackKeys();
    hide Stack, NodeOk, SystemOk;
    forall n | n in Stack().nodes ensures NodeOk(Stack(), n) { StackNode(n); }
    forall f | f in Stack().systems ensures SystemOk(Stack(), f) { StackSystem(f); }
  }

  /** On a stack of mounts "/a" and "//a" are different files. */
  lemma StackedLookups()
    ensures WellFormed(Stack()) && 10 in Stack().nodes && !Unstacked(Stack()) && Top(Stack()) == 10
    ensures LookedUp(Stack(), 10, "/a") == Ok(21) && LookedUp(Stack(), 10, "//a") == Ok(22)
  {
    hide NodeOk, SystemOk, LookedUp;
    StackWellFormed();
    assert MountedRoot(Stack(), 11);
    assert FindChild(Stack(), [21], "a") == Some(21) && FindChild(Stack(), [22], "a") == Some(22);
    StackedFacts(Stack());
  }

  lemma StackedFacts(s: State)
    requires WellFormed(s) && {10, 11, 12, 21, 22} <= s.nodes.Keys
    requires Hop(s, 10) == 11 && Hop(s, 11) == 12 && Hop(s, 12) == 12 && Hop(s, 21) == 21 && Hop(s, 22) == 22
    requires Step(s, 11, "a") == Ok(21) && Step(s, 12, "a") == Ok(22)
    ensures LookedUp(s, 10, "/a") == Ok(21) && LookedUp(s, 10, "//a") == Ok(22)
  {
    assert "/a"[1..] == "a" && "a"[1..] == "" && "//a"[1..] == "/a" && "" + "a" == "a";
    assert Scanned(s, 10, "", "a") == Scanned(s, 11, "a", "");
    assert Scanned(s, 10, "", "/a") == Scanned(s, 11, "", "a") == Scanned(s, 12, "a", "");
  }
}
