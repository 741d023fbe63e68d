/** Page tables against a flat page map, over whole runs. */
module PageTheorems {
  import opened Options
  import opened PageTree

  /** States between calls, each of which PageTables.Map, Unmap and CreateSpace perform as a Step. */
  ghost predicate Run(states: seq<Tables>, events: seq<Event>) {
    && |states| == |events| + 1 && ValidTables(states[0])
    && forall i :: 0 <= i < |events| ==> Step(states[i], events[i], states[i + 1])
  }

  function Apply(m: map<Label, Pte>, e: Event): map<Label, Pte> {
    match e
    case MappedPage(page, leaf) => m[page := leaf]
    case UnmappedPage(page) => m - {page}
    case Grown => m
  }

  /** The plain map that the same calls leave behind. */
  function Flat(initial: map<Label, Pte>, events: seq<Event>): map<Label, Pte> {
    if events == [] then initial else Apply(Flat(initial, events[..|events| - 1]), events[|events| - 1])
  }

  function Find(m: map<Label, Pte>, page: Label): Option<Pte> {
    if page in m then Some(m[page]) else None
  }

  ghost predicate Refines(t: Tables, m: map<Label, Pte>) {
    Framed(t) && forall p: Label :: IsPage(p.path) ==> Leaf(t, p) == Find(m, p)
  }

  lemma StepRefines(t: Tables, e: Event, u: Tables, m: map<Label, Pte>)
    requires Step(t, e, u) && Refines(t, m)
    ensures ValidTables(u) && Refines(u, Apply(m, e)) && forall s :: Root(s) in t.node ==> Root(s) in u.node
  {
    hide TreeUpTo, Leaf, IsPage;
    ValidFramed(u);
  }

  lemma {:induction false} RunLeaves(states: seq<Tables>, events: seq<Event>, initial: map<Label, Pte>)
    requires Run(states, events) && Refines(states[0], initial)
    ensures ValidTables(states[|events|]) && Refines(states[|events|], Flat(initial, events))
    ensures forall s :: Root(s) in states[0].node ==> Root(s) in states[|events|].node
    decreases |events|
  {
    hide ValidTables, Refines, Step, Apply;
    if events != [] {
      var n := |events| - 1;
      RunLeaves(states[..n + 1], events[..n], initial);
      StepRefines(states[n], events[n], states[n + 1], Flat(initial, events[..n]));
    }
  }

  /** After any run the walk from any root finds what the plain map says, with the rights of the page's last mapping. */
  lemma RunRefinesFlatMap(states: seq<Tables>, events: seq<Event>, initial: map<Label, Pte>, space: Space,
                          path: seq<nat>)
    requires Run(states, events) && Refines(states[0], initial)
    requires IsPage(path) && Root(space) in states[|events|].node
    ensures var t := states[|events|];
            var found := Find(Flat(initial, events), Canon(space, path));
            && Walk(t.mem, t.node[Root(space)], path) == found
            && (found.None? ==> WalkRights(t.mem, t.node[Root(space)], path) == None)
            && (found.Some? && OwnHalf(space, path) ==>
                  WalkRights(t.mem, t.node[Root(space)], path)
                    == Some(Rights(found.value.rw, found.value.user, found.value.nx)))
  {
    hide TreeUpTo, Leaf, Walk, WalkRights;
    RunLeaves(states, events, initial);
    WalkIsLeaf(states[|events|], space, path);
    EffectiveRights(states[|events|], space, path);
  }

  /** The kernel half looks the same from every root, whatever was mapped or unmapped since the root was made. */
  lemma KernelHalfShared(states: seq<Tables>, events: seq<Event>, initial: map<Label, Pte>, space: Space,
                         path: seq<nat>)
    requires Run(states, events) && Refines(states[0], initial)
    requires IsPage(path) && path[0] >= HALF && Root(space) in states[|events|].node
    ensures var t := states[|events|];
            && Root(Kernel) in t.node
            && Walk(t.mem, t.node[Root(space)], path) == Walk(t.mem, t.node[Root(Kernel)], path)
  {
    hide Walk, Leaf;
    RunLeaves(states, events, initial);
    WalkIsLeaf(states[|events|], space, path);
    WalkIsLeaf(states[|events|], Kernel, path);
  }
}
