/** Which lookups end at visible nodes, and when the path of a node leads back to it, in any forest of mounts
    (kernel/src/fs/vfs.c:58-112, 143-173). */
module VfsPaths {
  import opened Options
  import opened VfsState
  import opened VfsLookup

  // ----- Visible nodes

  lemma HopVisible(s: State, n: Id)
    requires WellFormed(s) && n in s.nodes && VisibleAbove(s, n)
    ensures VisibleAbove(s, Hop(s, n))
  {
    assert NodeOk(s, n);
    if s.nodes[n].mounted.Some? {
      assert SystemOk(s, s.nodes[n].mounted.value);
      assert NodeOk(s, Hop(s, n));
    }
  }

  lemma StepVisible(s: State, n: Id, name: string)
    requires WellFormed(s) && n in s.nodes && Visible(s, n) && Step(s, n, name).Ok?
    ensures VisibleAbove(s, Step(s, n, name).node)
  {
    assert NodeOk(s, n);
    FoundChild(s, s.nodes[n].children, name);
  }

  /** No mount that can be seen is covered by another one. */
  ghost predicate SeenUnstacked(s: State)
    requires WellFormed(s)
  {
    forall n :: n in s.nodes && VisibleAbove(s, n) ==> s.nodes[Hop(s, n)].mounted.None?
  }

  lemma {:induction false} ScannedVisible(s: State, n: Id, c: string, rest: string)
    requires WellFormed(s) && SeenUnstacked(s) && n in s.nodes && VisibleAbove(s, n) && (c != "" ==> Visible(s, n))
    ensures Scanned(s, n, c, rest).Ok? ==> Visible(s, Scanned(s, n, c, rest).node)
    decreases |rest|
  {
    hide Step, Hop;
    HopVisible(s, n);
    if rest != "" && rest[0] != '/' {
      ScannedVisible(s, Hop(s, n), c + [rest[0]], rest[1..]);
    } else {
      var r := if c == "" then Ok(n) else Step(s, n, c);
      if r.Ok? {
        if c != "" { StepVisible(s, n, c); }
        HopVisible(s, r.node);
        if rest != "" { ScannedVisible(s, Hop(s, r.node), "", rest[1..]); }
      }
    }
  }

  /** Lookups from where nothing above is hidden never end at a node that a mount hides, exactly if no mount that can be
      seen is covered by another one. */
  lemma LookupsVisible(s: State)
    requires WellFormed(s)
    ensures (forall n, text {:trigger Scanned(s, n, "", text)} :: n in s.nodes && VisibleAbove(s, n) ==>
               Scanned(s, n, "", text).Ok? ==> Visible(s, Scanned(s, n, "", text).node))
            <==> SeenUnstacked(s)
  {
    hide Visible, VisibleAbove, Hop;
    if SeenUnstacked(s) {
      forall n, text {:trigger Scanned(s, n, "", text)} | n in s.nodes && VisibleAbove(s, n)
        ensures Scanned(s, n, "", text).Ok? ==> Visible(s, Scanned(s, n, "", text).node)
      {
        ScannedVisible(s, n, "", text);
      }
    } else {
      var n :| n in s.nodes && VisibleAbove(s, n) && s.nodes[Hop(s, n)].mounted.Some?;
      assert Scanned(s, n, "", "") == Ok(Hop(s, n));
      Covered(s, Hop(s, n));
    }
  }

  lemma Covered(s: State, n: Id)
    requires WellFormed(s) && n in s.nodes && s.nodes[n].mounted.Some?
    ensures !Visible(s, n)
  {
  }

  // ----- Lookups end where a path can lead

  lemma HopSpellable(s: State, n: Id)
    requires WellFormed(s) && n in s.nodes && Spellable(s, n)
    ensures Spellable(s, Hop(s, n))
  {
    assert NodeOk(s, n);
    if s.nodes[n].mounted.Some? {
      assert SystemOk(s, s.nodes[n].mounted.value);
      assert NodeOk(s, Hop(s, n));
      assert NamesTo(s, Hop(s, n)) == NamesTo(s, n);
    }
  }

  lemma StepSpellable(s: State, n: Id, name: string)
    requires WellFormed(s) && n in s.nodes && Spellable(s, n) && name != "" && '/' !in name && Step(s, n, name).Ok?
    ensures Spellable(s, Step(s, n, name).node)
  {
    var m := Step(s, n, name).node;
    assert NodeOk(s, n);
    assert NodeOk(s, m);
    if m != n {
      FoundChild(s, s.nodes[n].children, name);
      if name == ".." { SpellableUp(s, n); } else { SpellableUp(s, m); }
    }
  }

  lemma {:induction false} ScannedSpellable(s: State, n: Id, c: string, rest: string)
    requires WellFormed(s) && n in s.nodes && Spellable(s, n) && '/' !in c
    ensures Scanned(s, n, c, rest).Ok? ==> Spellable(s, Scanned(s, n, c, rest).node)
    decreases |rest|
  {
    hide Step, Hop, Spellable;
    HopSpellable(s, n);
    if rest != "" && rest[0] != '/' {
      ScannedSpellable(s, Hop(s, n), c + [rest[0]], rest[1..]);
    } else {
      var r := if c == "" then Ok(n) else Step(s, n, c);
      if r.Ok? {
        if c != "" { StepSpellable(s, n, c); }
        HopSpellable(s, r.node);
        if rest != "" { ScannedSpellable(s, Hop(s, r.node), "", rest[1..]); }
      }
    }
  }

  // ----- Stacks of mounts

  /** Crossing k mounts, one over the other, as far as there are any. */
  ghost function Hops(s: State, n: Id, k: nat): (m: Id)
    requires WellFormed(s) && n in s.nodes
    ensures m in s.nodes
  {
    if k == 0 then n else Hop(s, Hops(s, n, k - 1))
  }

  lemma {:induction false} HopsFront(s: State, n: Id, k: nat)
    requires WellFormed(s) && n in s.nodes
    ensures Hops(s, Hop(s, n), k) == Hops(s, n, k + 1)
  {
    hide Hop;
    if k > 0 { HopsFront(s, n, k - 1); }
  }

  /** How many mounts a root lies above the node at the bottom of its stack. */
  ghost function Depth(s: State, n: Id): nat
    requires WellFormed(s) && n in s.nodes
    decreases (assert NodeOk(s, n); s.rank[n])
  {
    assert NodeOk(s, n);
    var x := s.nodes[n];
    if x.parent.Some? then 0
    else
      assert SystemOk(s, x.system);
      if s.systems[x.system].mountNode.None? then 0 else Depth(s, s.systems[x.system].mountNode.value) + 1
  }

  ghost function Bottom(s: State, n: Id): (b: Id)
    requires WellFormed(s) && n in s.nodes
    ensures b in s.nodes && Depth(s, b) == 0 && NamesTo(s, b) == NamesTo(s, n)
    ensures Depth(s, n) == 0 ==> b == n
    decreases (assert NodeOk(s, n); s.rank[n])
  {
    assert NodeOk(s, n);
    var x := s.nodes[n];
    if x.parent.Some? then n
    else
      assert SystemOk(s, x.system);
      if s.systems[x.system].mountNode.None? then n else Bottom(s, s.systems[x.system].mountNode.value)
  }

  /** Crossing k mounts from the bottom of the stack that n is in ends at n. */
  ghost predicate Meets(s: State, n: Id, k: nat)
    requires WellFormed(s) && n in s.nodes
  {
    Depth(s, n) == k || (Depth(s, n) < k && s.nodes[n].mounted.None?)
  }

  lemma {:induction false} HopsMeet(s: State, b: Id, n: Id, k: nat)
    requires WellFormed(s) && b in s.nodes && Depth(s, b) == 0 && n in s.nodes
    ensures Hops(s, b, k) == n <==> Bottom(s, n) == b && Meets(s, n, k)
    decreases k
  {
    hide NodeOk, SystemOk;
    if k > 0 {
      var q := Hops(s, b, k - 1);
      HopsMeet(s, b, q, k - 1);
      HopsMeet(s, b, n, k - 1);
      HopUp(s, q);
      HopUp(s, n);
      if Depth(s, n) == k {
        var m := HopDown(s, n);
        HopsMeet(s, b, m, k - 1);
      }
    }
  }

  lemma HopUp(s: State, q: Id)
    requires WellFormed(s) && q in s.nodes
    ensures s.nodes[q].mounted.None? ==> Hop(s, q) == q
    ensures s.nodes[q].mounted.Some? ==>
      Depth(s, Hop(s, q)) == Depth(s, q) + 1 && Bottom(s, Hop(s, q)) == Bottom(s, q)
  {
    assert NodeOk(s, q);
    if s.nodes[q].mounted.Some? {
      assert SystemOk(s, s.nodes[q].mounted.value);
      assert NodeOk(s, Hop(s, q));
    }
  }

  lemma HopDown(s: State, n: Id) returns (m: Id)
    requires WellFormed(s) && n in s.nodes && Depth(s, n) > 0
    ensures m in s.nodes && Hop(s, m) == n && Depth(s, m) == Depth(s, n) - 1 && Bottom(s, m) == Bottom(s, n)
  {
    assert NodeOk(s, n);
    assert SystemOk(s, s.nodes[n].system);
    m := s.systems[s.nodes[n].system].mountNode.value;
    assert NodeOk(s, m);
  }

  // ----- What the character loop makes of a path

  /** How many mounts are crossed before a component is looked up: one after each of its characters, and one after the
      component before it. */
  function Turns(before: seq<string>, c: string): nat {
    |c| + if before == [] then 0 else 1
  }

  /** Where the last component of a path leads, before the mount behind it is crossed. */
  ghost function Reach(s: State, names: seq<string>): (r: Result)
    requires WellFormed(s) && s.list != []
    ensures r.Ok? ==> r.node in s.nodes
  {
    if names == [] then Ok(Top(s))
    else
      var before, c := names[..|names| - 1], names[|names| - 1];
      match Reach(s, before)
      case Err(e) => Err(e)
      case Ok(q) => Step(s, Hops(s, q, Turns(before, c)), c)
  }

  /** The rest of the loop once a component has led to a node. */
  ghost function Onwards(s: State, r: Result, rest: string): Result
    requires WellFormed(s) && (r.Ok? ==> r.node in s.nodes)
  {
    match r
    case Err(e) => Err(e)
    case Ok(m) => if rest == "" then Ok(Hop(s, m)) else Scanned(s, Hop(s, m), "", rest[1..])
  }

  lemma {:induction false} Reading(s: State, n: Id, done: string, c: string, rest: string)
    requires WellFormed(s) && n in s.nodes && '/' !in c && done + c != "" && (rest == "" || rest[0] == '/')
    ensures Scanned(s, n, done, c + rest) == Onwards(s, Step(s, Hops(s, n, |c|), done + c), rest)
    decreases |c|
  {
    hide Step, Hop;
    if c == "" {
      assert c + rest == rest && done + c == done;
    } else {
      var text := c + rest;
      assert text[0] == c[0] && text[1..] == c[1..] + rest;
      assert (done + [c[0]]) + c[1..] == done + c;
      HopsFront(s, n, |c| - 1);
      Reading(s, Hop(s, n), done + [c[0]], c[1..], rest);
    }
  }

  lemma {:induction false} ReadNames(s: State, names: seq<string>, rest: string)
    requires WellFormed(s) && s.list != [] && names != [] && (rest == "" || rest[0] == '/')
    requires forall i :: 0 <= i < |names| ==> Ordinary(names[i])
    ensures Spelled(names) != ""
    ensures Scanned(s, Top(s), "", (Spelled(names) + rest)[1..]) == Onwards(s, Reach(s, names), rest)
    decreases |names|
  {
    hide Step, Hop, Scanned;
    var before, c := names[..|names| - 1], names[|names| - 1];
    JoinRight(Spelled(before), c, rest);
    assert "" + c == c;
    if before == [] {
      assert (Spelled(names) + rest)[1..] == c + rest;
      Reading(s, Top(s), "", c, rest);
    } else {
      ReadNames(s, before, "/" + (c + rest));
      var r := Reach(s, before);
      if r.Ok? {
        Reading(s, Hop(s, r.node), "", c, rest);
        HopsFront(s, r.node, |c|);
      }
    }
  }

  lemma PathRead(s: State, names: seq<string>)
    requires WellFormed(s) && s.list != [] && forall i :: 0 <= i < |names| ==> Ordinary(names[i])
    ensures LookedUp(s, Top(s), PathText(names)) == Onwards(s, Reach(s, names), "")
  {
    hide Step, Hop;
    TextFront(names);
    if names == [] {
      assert PathText(names)[1..] == "";
    } else {
      ReadNames(s, names, "");
      assert Spelled(names) + "" == Spelled(names);
    }
  }

  // ----- The round trip

  /** On the way from the first root down to n every stack of mounts is left at the height where the next name is. */
  ghost predicate MetAbove(s: State, n: Id)
    requires WellFormed(s) && n in s.nodes
    decreases (assert NodeOk(s, n); s.rank[n])
  {
    assert NodeOk(s, n);
    var x := s.nodes[n];
    if x.parent.Some? then
      Meets(s, x.parent.value, Turns(NamesTo(s, x.parent.value), x.name.value)) && MetAbove(s, x.parent.value)
    else
      assert SystemOk(s, x.system);
      s.systems[x.system].mountNode.Some? ==> MetAbove(s, s.systems[x.system].mountNode.value)
  }

  lemma {:induction false} BottomMet(s: State, n: Id)
    requires WellFormed(s) && n in s.nodes
    ensures MetAbove(s, Bottom(s, n)) == MetAbove(s, n)
    ensures s.rank.Keys >= {n, Bottom(s, n)} && s.rank[Bottom(s, n)] <= s.rank[n]
    decreases (assert NodeOk(s, n); s.rank[n])
  {
    assert NodeOk(s, n);
    assert SystemOk(s, s.nodes[n].system);
    if s.nodes[n].parent.None? && s.systems[s.nodes[n].system].mountNode.Some? {
      BottomMet(s, s.systems[s.nodes[n].system].mountNode.value);
    }
  }

  /** A path of ordinary names leads to a node with a name, or to the first root. */
  lemma ReachBottom(s: State, names: seq<string>)
    requires WellFormed(s) && s.list != [] && forall i :: 0 <= i < |names| ==> Ordinary(names[i])
    ensures Reach(s, names).Ok? ==> Depth(s, Reach(s, names).node) == 0
  {
    hide Hops;
    if names == [] {
      assert SystemOk(s, s.list[0]);
      assert NodeOk(s, Top(s));
    } else {
      var r := Reach(s, names[..|names| - 1]);
      if r.Ok? { ChildOnly(s, Hops(s, r.node, Turns(names[..|names| - 1], names[|names| - 1])), names[|names| - 1]); }
    }
  }

  lemma ChildOnly(s: State, p: Id, name: string)
    requires WellFormed(s) && p in s.nodes && Ordinary(name)
    ensures Step(s, p, name).Ok? ==>
      s.nodes[Step(s, p, name).node].parent == Some(p) && Depth(s, Step(s, p, name).node) == 0
  {
    assert NodeOk(s, p);
    FoundChild(s, s.nodes[p].children, name);
    if Step(s, p, name).Ok? { assert NodeOk(s, Step(s, p, name).node); }
  }

  lemma OnlyChild(s: State, p: Id, n: Id)
    requires WellFormed(s) && n in s.nodes && s.nodes[n].parent == Some(p)
    requires s.nodes[n].name.Some? && Ordinary(s.nodes[n].name.value)
    ensures p in s.nodes && Step(s, p, s.nodes[n].name.value) == Ok(n)
  {
    assert NodeOk(s, n);
    assert NodeOk(s, p);
    FoundChild(s, s.nodes[p].children, s.nodes[n].name.value);
  }

  /** The names of a node lead to it exactly if all stacks above are left where they should be. */
  lemma {:induction false} ReachExact(s: State, n: Id)
    requires WellFormed(s) && s.list != [] && n in s.nodes && Depth(s, n) == 0 && Spellable(s, n)
    ensures Reach(s, NamesTo(s, n)) == Ok(n) <==> MetAbove(s, n)
    decreases (assert NodeOk(s, n); s.rank[n])
  {
    hide Hops, Step, Hop, Meets, Depth;
    assert NodeOk(s, n);
    assert SystemOk(s, s.nodes[n].system);
    if s.nodes[n].parent.Some? {
      var p, c := s.nodes[n].parent.value, s.nodes[n].name.value;
      var names := NamesTo(s, p);
      SpellableUp(s, n);
      assert (names + [c])[..|names|] == names;
      BottomMet(s, p);
      ReachExact(s, Bottom(s, p));
      OnlyChild(s, p, n);
      ReachBottom(s, names);
      var r := Reach(s, names);
      if r.Ok? {
        ChildOnly(s, Hops(s, r.node, Turns(names, c)), c);
        HopsMeet(s, r.node, p, Turns(names, c));
      }
    } else {
      FirstRoot(s, n);
    }
  }

  lemma FirstRoot(s: State, n: Id)
    requires WellFormed(s) && s.list != [] && n in s.nodes && Depth(s, n) == 0 && s.nodes[n].parent.None?
    ensures n == Top(s) && NamesTo(s, n) == [] && MetAbove(s, n)
  {
    assert NodeOk(s, n);
    assert SystemOk(s, s.nodes[n].system);
  }

  /** In any forest, stacked mounts included: looking up the path of a node finds that node exactly if a path can spell
      its names, the node is met by one crossing from the bottom of its stack, and every directory above it by as many
      as the next name has characters, and one more behind a name. */
  lemma PathRoundTrip(s: State, n: Id)
    requires WellFormed(s) && n in s.nodes
    ensures s.list != []
    ensures LookedUp(s, Top(s), PathText(NamesTo(s, n))) == Ok(n) <==>
      Meets(s, n, 1) && MetAbove(s, n) && Spellable(s, n)
  {
    hide Meets, Depth, Spellable, Hop, Step, NamesTo;
    assert NodeOk(s, n);
    assert s.list != [];
    var names, b := NamesTo(s, n), Bottom(s, n);
    FoundSpellable(s, n);
    if Spellable(s, n) {
      SpelledOut(s, n);
      PathRead(s, names);
      BottomMet(s, n);
      ReachExact(s, b);
      ReachBottom(s, names);
      var r := Reach(s, names);
      if r.Ok? {
        HopsMeet(s, r.node, n, 1);
        assert Hops(s, r.node, 1) == Hop(s, r.node);
      }
    }
  }

  lemma SpelledOut(s: State, n: Id)
    requires WellFormed(s) && n in s.nodes && Spellable(s, n)
    ensures forall i :: 0 <= i < |NamesTo(s, n)| ==> Ordinary(NamesTo(s, n)[i])
    ensures Spellable(s, Bottom(s, n))
  {
  }

  lemma FoundSpellable(s: State, n: Id)
    requires WellFormed(s) && s.list != [] && n in s.nodes
    ensures LookedUp(s, Top(s), PathText(NamesTo(s, n))) == Ok(n) ==> Spellable(s, n)
  {
    hide Scanned, Spellable;
    TopSpellable(s);
    TextFront(NamesTo(s, n));
    ScannedSpellable(s, Top(s), "", PathText(NamesTo(s, n))[1..]);
  }

  lemma TextFront(names: seq<string>)
    ensures PathText(names) != "" && PathText(names)[0] == '/'
    decreases |names|
  {
    if names != [] {
      var init := names[..|names| - 1];
      TextFront(init);
      assert Spelled(names) == Spelled(init) + ("/" + names[|names| - 1]);
      if init == [] { assert Spelled(init) == ""; } else { assert Spelled(init)[0] == '/'; }
    }
  }

  lemma TopSpellable(s: State)
    requires WellFormed(s) && s.list != []
    ensures Spellable(s, Top(s))
  {
    assert SystemOk(s, s.list[0]);
    assert NodeOk(s, Top(s));
  }

  // ----- Relative paths

  lemma ReadThen(s: State, names: seq<string>, rest: string)
    requires WellFormed(s) && s.list != [] && forall i :: 0 <= i < |names| ==> Ordinary(names[i])
    ensures LookedUp(s, Top(s), PathText(names) + ("/" + rest)) == Onwards(s, Reach(s, names), "/" + rest)
  {
    hide Step, Hop;
    var text, tail := PathText(names), "/" + rest;
    TextFront(names);
    assert tail[1..] == rest && (text + tail)[0] == text[0];
    if names == [] {
      assert (text + tail)[1..] == tail;
      assert Scanned(s, Top(s), "", tail) == Scanned(s, Hop(s, Top(s)), "", rest);
    } else {
      ReadNames(s, names, tail);
    }
  }

  /** In any forest: what a relative path leads to from a node is what it leads to behind the node's own path, if that
      path leads to the node. */
  lemma RelativeIsBehind(s: State, d: Id, rest: string)
    requires WellFormed(s) && d in s.nodes
    ensures s.list != []
    ensures LookedUp(s, Top(s), PathText(NamesTo(s, d))) == Ok(d) ==>
      LookedUp(s, Top(s), PathText(NamesTo(s, d)) + ("/" + rest)) == Scanned(s, d, "", rest)
  {
    hide Spellable, Hop, Step, NamesTo, LookedUp, Scanned, Reach;
    assert NodeOk(s, d);
    assert s.list != [];
    FoundSpellable(s, d);
    if LookedUp(s, Top(s), PathText(NamesTo(s, d))) == Ok(d) {
      SpelledOut(s, d);
      PathRead(s, NamesTo(s, d));
      ReadThen(s, NamesTo(s, d), rest);
      assert ("/" + rest)[1..] == rest;
    }
  }

  // ----- Without stacked mounts

  lemma {:induction false} MetIfVisible(s: State, n: Id)
    requires WellFormed(s) && Unstacked(s) && n in s.nodes && Spellable(s, n)
    ensures MetAbove(s, n) <==> VisibleAbove(s, n)
    decreases (assert NodeOk(s, n); s.rank[n])
  {
    hide Depth, Meets;
    assert NodeOk(s, n);
    assert SystemOk(s, s.nodes[n].system);
    if s.nodes[n].parent.Some? {
      var p := s.nodes[n].parent.value;
      SpellableUp(s, n);
      MetIfVisible(s, p);
      FlatStack(s, p);
    } else if s.systems[s.nodes[n].system].mountNode.Some? {
      var m := s.systems[s.nodes[n].system].mountNode.value;
      assert NamesTo(s, n) == NamesTo(s, m);
      MetIfVisible(s, m);
    }
  }

  lemma FlatStack(s: State, n: Id)
    requires WellFormed(s) && Unstacked(s) && n in s.nodes
    ensures forall k: nat :: k > 0 ==> (Meets(s, n, k) <==> s.nodes[n].mounted.None?)
  {
    assert NodeOk(s, n);
    assert SystemOk(s, s.nodes[n].system);
    if Depth(s, n) > 0 {
      var m := HopDown(s, n);
      assert NodeOk(s, m);
      HopOnce(s, m);
    }
  }

  /** Without stacked mounts a lookup walks the components of the text, whether the first slash is skipped or not. */
  lemma LookupWalks(s: State, n: Id, path: string)
    requires WellFormed(s) && Unstacked(s) && n in s.nodes
    ensures LookedUp(s, n, path) == Walk(s, n, Split(path))
  {
    var rest := if path != "" && path[0] == '/' then path[1..] else path;
    assert path != "" && path[0] == '/' ==> path == "/" + rest;
    if path != "" && path[0] == '/' { SplitSlash(rest); }
    ScannedIsWalk(s, n, "", rest);
    assert "" + rest == rest;
  }

  /** Without stacked mounts that is: nothing is mounted on the node, and no directory above it is covered. */
  lemma VisibleRoundTrip(s: State, n: Id)
    requires WellFormed(s) && Unstacked(s) && n in s.nodes
    ensures s.list != []
    ensures LookedUp(s, Top(s), PathText(NamesTo(s, n))) == Ok(n) <==> Visible(s, n) && Spellable(s, n)
  {
    hide Meets, Spellable, LookedUp;
    PathRoundTrip(s, n);
    FlatStack(s, n);
    if Spellable(s, n) { MetIfVisible(s, n); }
  }
}
