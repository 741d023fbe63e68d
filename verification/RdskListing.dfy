/** A directory's children in the order in which its chains hold them. */
module RdskListing {
  import opened Options
  import opened RdskTree

  /** The files of a directory, last one first. */
  function Files(children: seq<Tree>): (list: seq<Tree>)
    ensures forall i :: 0 <= i < |list| ==> list[i].File?
  {
    if children == [] then []
    else
      var last, init := children[|children| - 1], children[..|children| - 1];
      if last.File? then [last] + Files(init) else Files(init)
  }

  function Dirs(children: seq<Tree>): (list: seq<Tree>)
    ensures forall i :: 0 <= i < |list| ==> list[i].Dir?
  {
    if children == [] then []
    else
      var last, init := children[|children| - 1], children[..|children| - 1];
      if last.Dir? then [last] + Dirs(init) else Dirs(init)
  }

  function FindIn(list: seq<Tree>, name: Name): Option<Tree> {
    if list == [] then None else if list[0].name == name then Some(list[0]) else FindIn(list[1..], name)
  }

  /** rdsk_node_lookup looks among the files first. */
  function Child(children: seq<Tree>, name: Name): Option<Tree> {
    match FindIn(Files(children), name)
    case Some(x) => Some(x)
    case None => FindIn(Dirs(children), name)
  }

  predicate UniqueNames(children: seq<Tree>) {
    forall i, j :: 0 <= i < j < |children| ==> children[i].name != children[j].name
  }

  /** Every child is listed exactly once. */
  lemma {:induction false} ListedOnce(children: seq<Tree>)
    ensures multiset(Files(children)) + multiset(Dirs(children)) == multiset(children)
  {
    if children != [] {
      var last, init := children[|children| - 1], children[..|children| - 1];
      ListedOnce(init);
      assert children == init + [last];
      assert multiset(Files(children)) + multiset(Dirs(children))
        == multiset([last]) + (multiset(Files(init)) + multiset(Dirs(init)));
    }
  }

  /** The listing has the files before the directories, and of each the last one first. */
  lemma {:induction false} ListingOrder(front: seq<Tree>, back: seq<Tree>)
    ensures Files(front + back) == Files(back) + Files(front) && Dirs(front + back) == Dirs(back) + Dirs(front)
    decreases back
  {
    if back == [] {
      assert front + back == front;
    } else {
      var last, init := back[|back| - 1], back[..|back| - 1];
      assert (front + back)[..|front + back| - 1] == front + init;
      ListingOrder(front, init);
    }
  }

  lemma SingleListing(x: Tree)
    ensures Files([x]) == (if x.File? then [x] else []) && Dirs([x]) == (if x.Dir? then [x] else [])
  {
    assert [x][..0] == [];
    assert Files([]) == [] && Dirs([]) == [];
  }

  /** Of several children of one name the last file is found, or the last directory if there is no such file. */
  lemma ChildIsLast(front: seq<Tree>, x: Tree, back: seq<Tree>)
    requires x.File? || forall y :: y in front + back ==> y.Dir? || y.name != x.name
    requires forall y :: y in back ==> y.name != x.name || y.File? != x.File?
    ensures Child(front + ([x] + back), x.name) == Some(x)
  {
    hide Files, Dirs, FindIn;
    var children := front + ([x] + back);
    ListingOrder(front, [x] + back);
    ListingOrder([x], back);
    SingleListing(x);
    forall y ensures (y in Files(back) ==> y in back && y.File?) && (y in Dirs(back) ==> y in back && y.Dir?) {
      FilesAre(back, y);
    }
    if x.File? {
      FoundBehind(Files(back), [x], Files(front), x.name);
      assert Files(children) == Files(back) + ([x] + Files(front));
    } else {
      NoFile(children, x.name);
      FoundBehind(Dirs(back), [x], Dirs(front), x.name);
      assert Dirs(children) == Dirs(back) + ([x] + Dirs(front));
    }
  }

  lemma NoFile(children: seq<Tree>, name: Name)
    requires forall y :: y in children ==> y.Dir? || y.name != name
    ensures FindIn(Files(children), name) == None
  {
    hide Files, FindIn;
    forall y | y in Files(children) ensures y in children { FilesAre(children, y); }
    FindInFirst(Files(children), name);
  }

  lemma {:induction false} FoundBehind(before: seq<Tree>, one: seq<Tree>, rest: seq<Tree>, name: Name)
    requires |one| == 1 && one[0].name == name && forall x :: x in before ==> x.name != name
    ensures FindIn(before + (one + rest), name) == Some(one[0])
  {
    if before == [] {
      assert before + (one + rest) == one + rest;
    } else {
      assert (before + (one + rest))[1..] == before[1..] + (one + rest);
      FoundBehind(before[1..], one, rest, name);
    }
  }

  lemma {:induction false} FilesAre(children: seq<Tree>, x: Tree)
    ensures x in Files(children) <==> x in children && x.File?
    ensures x in Dirs(children) <==> x in children && x.Dir?
  {
    if children != [] {
      var last, init := children[|children| - 1], children[..|children| - 1];
      FilesAre(init, x);
      assert children == init + [last];
    }
  }

  lemma {:induction false} FindInFirst(list: seq<Tree>, name: Name)
    ensures FindIn(list, name).Some? ==> FindIn(list, name).value in list && FindIn(list, name).value.name == name
    ensures FindIn(list, name).None? <==> forall x :: x in list ==> x.name != name
  {
    if list != [] {
      FindInFirst(list[1..], name);
      assert list == [list[0]] + list[1..];
    }
  }

  /** With unique names a child is found by its name, and nothing else is. */
  lemma ChildFound(children: seq<Tree>, name: Name)
    requires UniqueNames(children)
    ensures forall x :: Child(children, name) == Some(x) <==> x in children && x.name == name
  {
    forall x
      ensures (x in Files(children) <==> x in children && x.File?) && (x in Dirs(children) <==> x in children && x.Dir?)
    {
      FilesAre(children, x);
    }
    FindInFirst(Files(children), name);
    FindInFirst(Dirs(children), name);
    forall x, y | x in children && y in children && x.name == name && y.name == name ensures x == y {
      var i :| 0 <= i < |children| && children[i] == x;
      var j :| 0 <= j < |children| && children[j] == y;
    }
  }

  // ----- Walking the chains

  /** The head of the file chain is the first file of the listing, and the chain goes on with the others. */
  lemma {:induction false} FileStep(t: Tables, cur: nat, hi: nat, dir: nat, file: nat, children: seq<Tree>)
    returns (dir': nat, children': seq<Tree>)
    requires Holds(t, cur, hi, dir, file, children)
    ensures Files(children) == [] ==> file == 0
    ensures Files(children) != [] ==>
      && FileHolds(t, file, cur, Files(children)[0].name, Files(children)[0].bytes) && t.files[file - 1].next < file
      && Holds(t, cur, hi, dir', t.files[file - 1].next, children') && Files(children') == Files(children)[1..]
    decreases children
  {
    hide FileHolds, HasName;
    dir', children' := dir, children;
    if children != [] {
      var last, init := children[|children| - 1], children[..|children| - 1];
      if last.File? {
        children' := init;
      } else {
        dir', children' := FileStep(t, cur, hi, t.dirs[dir - 1].next, file, init);
      }
    }
  }

  lemma {:induction false} DirStep(t: Tables, cur: nat, hi: nat, dir: nat, file: nat, children: seq<Tree>)
    returns (file': nat, children': seq<Tree>)
    requires Holds(t, cur, hi, dir, file, children)
    ensures Dirs(children) == [] ==> dir == 0
    ensures Dirs(children) != [] ==>
      && DirHolds(t, dir, cur, hi, Dirs(children)[0]) && t.dirs[dir - 1].next < dir
      && Holds(t, cur, hi, t.dirs[dir - 1].next, file', children') && Dirs(children') == Dirs(children)[1..]
    decreases children
  {
    hide FileHolds, HasName;
    file', children' := file, children;
    if children != [] {
      var last, init := children[|children| - 1], children[..|children| - 1];
      if last.Dir? {
        children' := init;
      } else {
        FileHasRecord(t, file, cur, last.name, last.bytes);
        file', children' := DirStep(t, cur, hi, dir, t.files[file - 1].next, init);
      }
    }
  }

  /** A chain that ends holds no more. */
  lemma FilesEnd(t: Tables, cur: nat, hi: nat, dir: nat, children: seq<Tree>)
    requires Holds(t, cur, hi, dir, 0, children)
    ensures Files(children) == []
  {
    hide Holds;
    var dir', children' := FileStep(t, cur, hi, dir, 0, children);
  }

  lemma DirsEnd(t: Tables, cur: nat, hi: nat, file: nat, children: seq<Tree>)
    requires Holds(t, cur, hi, 0, file, children)
    ensures Dirs(children) == []
  {
    hide Holds;
    var file', children' := DirStep(t, cur, hi, 0, file, children);
  }

  /** Chains go to ever smaller indices, so a directory has no more files than there are records. */
  lemma {:induction false} FilesFit(t: Tables, cur: nat, hi: nat, dir: nat, file: nat, children: seq<Tree>)
    requires Holds(t, cur, hi, dir, file, children)
    ensures |Files(children)| <= file <= |t.files| || file == 0 == |Files(children)|
    decreases |Files(children)|
  {
    hide Holds;
    var dir', children' := FileStep(t, cur, hi, dir, file, children);
    if Files(children) != [] {
      FilesFit(t, cur, hi, dir', t.files[file - 1].next, children');
    }
  }

  lemma {:induction false} DirsFit(t: Tables, cur: nat, hi: nat, dir: nat, file: nat, children: seq<Tree>)
    requires Holds(t, cur, hi, dir, file, children)
    ensures |Dirs(children)| <= dir <= |t.dirs| || dir == 0 == |Dirs(children)|
    decreases |Dirs(children)|
  {
    hide Holds;
    var file', children' := DirStep(t, cur, hi, dir, file, children);
    if Dirs(children) != [] {
      DirsFit(t, cur, hi, t.dirs[dir - 1].next, file', children');
    }
  }

  /** A directory has no more children of either kind than there are records. */
  lemma ListingFits(t: Tables, cur: nat, hi: nat, dir: nat, file: nat, children: seq<Tree>)
    requires Holds(t, cur, hi, dir, file, children)
    ensures |Files(children)| <= |t.files| && |Dirs(children)| <= |t.dirs|
  {
    hide Holds;
    FilesFit(t, cur, hi, dir, file, children);
    DirsFit(t, cur, hi, dir, file, children);
  }
}
