/** Creating, linking, unlinking and renaming keep the namespace a tree with exact reference counts. */
module RegistryOps {
  import opened Options
  import opened Registry
  import opened RegistrySteps

  // ---------- a fresh inode ----------

  /** `registry_inode_alloc`: the caller holds the only reference. */
  function Alloc(s: State, id: Id, isDir: bool): State {
    s.(inodes := s.inodes[id := Inode(isDir, 1, false, [])], holders := s.holders + multiset{id})
  }

  lemma AllocHas(s: State, id: Id, isDir: bool)
    requires id !in s.inodes
    ensures forall x, n, u :: Has(Alloc(s, id, isDir), x, n, u) == Has(s, x, n, u)
    ensures forall x :: x != id ==> IsDir(Alloc(s, id, isDir), x) == IsDir(s, x)
    ensures forall x :: Deleted(Alloc(s, id, isDir), x) == Deleted(s, x) && Up(Alloc(s, id, isDir), x) == Up(s, x)
    ensures forall x :: Kids(Alloc(s, id, isDir), x) == Kids(s, x)
  {
    forall x
      ensures Kids(Alloc(s, id, isDir), x) == Kids(s, x)
    {
    }
  }

  lemma AllocBase(s: State, id: Id, isDir: bool)
    requires Base(s) && id !in s.inodes && s.root in s.inodes
    ensures Base(Alloc(s, id, isDir))
  {
    hide Namers, Kids;
    var s' := Alloc(s, id, isDir);
    AllocHas(s, id, isDir);
    forall x | x in s'.inodes
      ensures NamedAt(s'.inodes[x]) && CountedAt(s', x)
    {
      AllocNamers(s, id, isDir, x);
      if x == id {
        Unnamed(s, id);
      } else {
        assert NamedAt(s.inodes[x]) && CountedAt(s, x);
      }
    }
  }

  lemma AllocNamers(s: State, id: Id, isDir: bool, x: Id)
    requires id !in s.inodes
    ensures Namers(Alloc(s, id, isDir), x) == Namers(s, x)
  {
    forall y
      ensures y in Namers(Alloc(s, id, isDir), x) <==> y in Namers(s, x)
    {
    }
  }

  lemma Unnamed(s: State, id: Id)
    requires Closed(s) && id !in s.inodes
    ensures Namers(s, id) == {}
  {
    NamersByHas(s, id);
    forall y
      ensures y !in Namers(s, id)
    {
      assert y == Edge(y.dir, Dirent(y.entry.name, y.entry.target));
    }
  }

  /** The state after `walk` has made an inode, linked it, and let go of it. */
  function Made(s: State, cur: Id, name: string, id: Id, isDir: bool): State
    requires cur in s.inodes
  {
    var s1 := Put(Alloc(s, id, isDir), cur, name, id);
    var s2 := if isDir then Put(Put(s1, id, ".", id), id, "..", cur) else s1;
    Lowered(s2, id)
  }

  lemma MadeBase(s: State, cur: Id, name: string, id: Id, isDir: bool)
    requires Base(s) && s.root in s.inodes && IsDir(s, cur) && id !in s.inodes && GoodName(name) && Find(Kids(s, cur), name) == None
    ensures Base(Made(s, cur, name, id, isDir))
  {
    hide Base, Put, Find, Has, Lowered;
    var s0 := Alloc(s, id, isDir);
    AllocBase(s, id, isDir);
    AllocHas(s, id, isDir);
    PutBase(s0, cur, name, id);
    var s1 := Put(s0, cur, name, id);
    PutAt(s0, cur, name, id);
    var s2 := s1;
    if isDir {
      FindNothing(s1, id);
      PutBase(s1, id, ".", id);
      PutAt(s1, id, ".", id);
      var sd := Put(s1, id, ".", id);
      FindDot(sd, id);
      PutBase(sd, id, "..", cur);
      PutAt(sd, id, "..", cur);
      s2 := Put(sd, id, "..", cur);
    }
    assert s2.inodes[id].refcount == 2 && id in s2.holders;
    DropBase(s2, id);
    PlainDrop(s2, id);
  }

  /** What linking does at each inode. */
  lemma PutAt(s: State, d: Id, name: string, t: Id)
    requires d in s.inodes && t in s.inodes
    ensures var s' := Put(s, d, name, t);
            && s'.root == s.root && s'.holders == s.holders && s'.inodes.Keys == s.inodes.Keys
            && forall x :: x in s.inodes ==>
                 && s'.inodes[x].isDir == s.inodes[x].isDir && s'.inodes[x].deleted == s.inodes[x].deleted
                 && s'.inodes[x].refcount == s.inodes[x].refcount + (if x == t && t != d then 1 else 0)
                 && s'.inodes[x].children == if x == d then [Dirent(name, t)] + s.inodes[x].children else s.inodes[x].children
  {
  }

  lemma FindNothing(s: State, d: Id)
    requires d in s.inodes && s.inodes[d].children == []
    ensures Find(Kids(s, d), ".") == None
  {
  }

  lemma FindDot(s: State, d: Id)
    requires d in s.inodes && s.inodes[d].children == [Dirent(".", d)] + []
    ensures Find(Kids(s, d), "..") == None
  {
    assert s.inodes[d].children[1..] == [];
  }

  lemma MadeHas(s: State, cur: Id, name: string, id: Id, isDir: bool)
    requires cur in s.inodes && id !in s.inodes && name != ".."
    ensures var r := Made(s, cur, name, id, isDir);
            && r.root == s.root
            && (forall x :: x in r.inodes <==> x in s.inodes || x == id)
            && (forall x, n, u :: Has(r, x, n, u) <==>
                  Has(s, x, n, u) || (x == cur && n == name && u == id)
                  || (isDir && x == id && ((n == "." && u == id) || (n == ".." && u == cur))))
            && (forall x :: IsDir(r, x) <==> IsDir(s, x) || (x == id && isDir))
            && (forall x :: Deleted(r, x) == Deleted(s, x))
            && (forall x :: x != id ==> Up(r, x) == Up(s, x))
            && (isDir ==> Up(r, id) == cur)
  {
    hide Put, Has, Up;
    var s0 := Alloc(s, id, isDir);
    AllocHas(s, id, isDir);
    PutHas(s0, cur, name, id);
    var s1 := Put(s0, cur, name, id);
    var s2 := s1;
    if isDir {
      PutHas(s1, id, ".", id);
      var sd := Put(s1, id, ".", id);
      PutHas(sd, id, "..", cur);
      s2 := Put(sd, id, "..", cur);
      PutUp(sd, id, cur);
    }
    LoweredHas(s2, id);
  }

  lemma PutUp(s: State, d: Id, p: Id)
    requires d in s.inodes && p in s.inodes
    ensures Up(Put(s, d, "..", p), d) == p
    ensures forall x :: x != d ==> Up(Put(s, d, "..", p), x) == Up(s, x)
  {
  }

  lemma LoweredHas(s: State, i: Id)
    requires i in s.inodes
    ensures var r := Lowered(s, i);
            && SameGraph(s, r) && (forall x, n, u :: Has(r, x, n, u) == Has(s, x, n, u))
            && (forall x :: Up(r, x) == Up(s, x) && Deleted(r, x) == Deleted(s, x) && IsDir(r, x) == IsDir(s, x))
  {
    SameGraphHas(s, Lowered(s, i));
  }

  lemma MadeAttached(s: State, cur: Id, name: string, id: Id, isDir: bool)
    requires Inv(s) && cur in s.inodes && id !in s.inodes && !IsDotName(name)
    ensures Attached(Made(s, cur, name, id, isDir))
  {
    hide Has, Up, IsDir, Deleted, Climbs, Made, Base;
    var r := Made(s, cur, name, id, isDir);
    InThere(s, id);
    MadeHas(s, cur, name, id, isDir);
    forall t | IsDir(r, t) && !Deleted(r, t) && t != r.root
      ensures HasName(r, t)
    {
      if t == id {
        assert Has(r, Up(r, t), name, t);
      } else {
        assert HasName(s, t);
        var n :| !IsDotName(n) && Has(s, Up(s, t), n, t);
        assert Has(r, Up(r, t), n, t);
      }
    }
  }

  lemma MadeDotted(s: State, cur: Id, name: string, id: Id, isDir: bool)
    requires Inv(s) && cur in s.inodes && IsDir(s, cur) && !Deleted(s, cur) && id !in s.inodes && !IsDotName(name)
    ensures Dotted(Made(s, cur, name, id, isDir)) && Emptied(Made(s, cur, name, id, isDir))
  {
    hide Has, Up, IsDir, Deleted, Climbs, Made, Base, Rooted, Attached, Parented, NamedOnce;
    var r := Made(s, cur, name, id, isDir);
    InThere(s, id);
    MadeHas(s, cur, name, id, isDir);
    forall d | IsDir(r, d)
      ensures DottedAt(r, d)
    {
      assert d != id ==> DottedAt(s, d);
    }
  }

  lemma MadeParented(s: State, cur: Id, name: string, id: Id, isDir: bool)
    requires Inv(s) && cur in s.inodes && IsDir(s, cur) && !Deleted(s, cur) && id !in s.inodes && !IsDotName(name)
    ensures Parented(Made(s, cur, name, id, isDir)) && NamedOnce(Made(s, cur, name, id, isDir))
  {
    hide Has, Up, IsDir, Deleted, Climbs, Made, Named, Counted, Rooted, Attached;
    var r := Made(s, cur, name, id, isDir);
    InThere(s, id);
    MadeHas(s, cur, name, id, isDir);
    forall d, n, t | Has(r, d, n, t) && !IsDotName(n) && IsDir(r, t)
      ensures if t == id then d == cur && n == name else Has(s, d, n, t) && IsDir(s, t)
    {
    }
  }

  lemma MadeTree(s: State, cur: Id, name: string, id: Id, isDir: bool)
    requires Inv(s) && cur in s.inodes && IsDir(s, cur) && !Deleted(s, cur) && id !in s.inodes && !IsDotName(name)
    ensures Tree(Made(s, cur, name, id, isDir))
  {
    hide Has, Up, IsDir, Deleted, Climbs, Made, Base, Dotted, Emptied, Parented, NamedOnce, Attached, Rooted;
    MadeRooted(s, cur, name, id, isDir);
    MadeAttached(s, cur, name, id, isDir);
    MadeDotted(s, cur, name, id, isDir);
    MadeParented(s, cur, name, id, isDir);
  }

  lemma InThere(s: State, id: Id)
    requires id !in s.inodes
    ensures !IsDir(s, id) && !Deleted(s, id) && forall n, u :: !Has(s, id, n, u)
  {
  }

  lemma MadeRooted(s: State, cur: Id, name: string, id: Id, isDir: bool)
    requires Inv(s) && cur in s.inodes && IsDir(s, cur) && id !in s.inodes && name != ".."
    ensures Rooted(Made(s, cur, name, id, isDir))
  {
    hide Has, Up, IsDir, Deleted, Made, Base;
    var r := Made(s, cur, name, id, isDir);
    InThere(s, id);
    MadeHas(s, cur, name, id, isDir);
    forall d | IsDir(r, d)
      ensures ReachesRoot(r, d)
    {
      var from := if d == id then cur else d;
      assert ReachesRoot(s, from);
      var n: nat :| Climbs(s, from, n);
      SameClimb(s, r, from, n);
      if d == id {
        assert Climbs(r, d, n + 1);
      }
    }
  }

  /** Creating an entry in a directory that is still in the tree keeps everything. */
  lemma MadeKeeps(s: State, cur: Id, name: string, id: Id, isDir: bool)
    requires Inv(s) && cur in s.inodes && IsDir(s, cur) && !Deleted(s, cur) && id !in s.inodes && GoodName(name)
    requires Find(Kids(s, cur), name) == None
    ensures Inv(Made(s, cur, name, id, isDir)) && Made(s, cur, name, id, isDir).holders == s.holders
  {
    hide Has, Up, IsDir, Deleted, Climbs, Made, Base, Tree, Kids, Find;
    DotsAreTaken(s, cur, name);
    RootExists(s);
    MadeBase(s, cur, name, id, isDir);
    MadeTree(s, cur, name, id, isDir);
    MadeHolders(s, cur, name, id, isDir);
  }

  lemma RootExists(s: State)
    requires Tree(s)
    ensures s.root in s.inodes
  {
  }

  lemma MadeHolders(s: State, cur: Id, name: string, id: Id, isDir: bool)
    requires cur in s.inodes
    ensures Made(s, cur, name, id, isDir).holders == s.holders
  {
    assert s.holders + multiset{id} - multiset{id} == s.holders;
  }

  lemma DotsAreTaken(s: State, d: Id, name: string)
    requires Inv(s) && IsDir(s, d) && Find(Kids(s, d), name) == None
    ensures !IsDotName(name)
  {
    hide Up, Distinct;
    assert DottedAt(s, d);
    assert NamedAt(s.inodes[d]);
    FindIsEntry(Kids(s, d), ".");
    FindIsEntry(Kids(s, d), "..");
    assert Has(s, d, ".", d) && Has(s, d, "..", Up(s, d));
  }

  // ---------- making an inode fails partway ----------

  /** Dropping an inode just allocated, which nothing names, leaves the state of before. */
  lemma AllocUndone(s: State, id: Id, isDir: bool)
    requires id !in s.inodes
    ensures Unref(Alloc(s, id, isDir), id) == s
  {
    var a := Alloc(s, id, isDir);
    assert a.inodes - {id} == s.inodes;
    assert a.holders - multiset{id} == s.holders;
  }

  /** The rollback of `walk`: the entry is taken out again and both references go. */
  lemma MakingUndone(s: State, cur: Id, name: string, id: Id, isDir: bool)
    requires cur in s.inodes && id !in s.inodes
    ensures var d := Detach(Put(Alloc(s, id, isDir), cur, name, id), cur, name);
            id in d.inodes && id in Unref(d, id).inodes && Unref(Unref(d, id), id) == s
  {
    var a := Alloc(s, id, isDir);
    var p := Put(a, cur, name, id);
    var d := Detach(p, cur, name);
    var cs := p.inodes[cur].children;
    assert cs[1..] == s.inodes[cur].children;
    assert Find(cs, name) == Some(id);
    assert d.inodes[id] == Inode(isDir, 2, false, []);
    PlainDrop(d, id);
    var l := Lowered(d, id);
    assert l.inodes == a.inodes;
    assert d.holders - multiset{id} == a.holders;
    assert l == a;
    AllocUndone(s, id, isDir);
  }

  /** `.` put into the new directory and taken out again. */
  lemma DotUndone(s: State, id: Id)
    requires id in s.inodes && s.inodes[id].children == []
    ensures Detach(Put(s, id, ".", id), id, ".") == s
  {
    var p := Put(s, id, ".", id);
    assert p.inodes[id].children[1..] == [];
    assert Detach(p, id, ".").inodes == s.inodes;
  }

  // ---------- unlinking ----------

  /** The directory is marked as taken out of the tree. */
  function Marked(s: State, t: Id): State
    requires t in s.inodes
  {
    if s.inodes[t].isDir then s.(inodes := s.inodes[t := s.inodes[t].(deleted := true)]) else s
  }

  lemma MarkedHas(s: State, t: Id)
    requires t in s.inodes
    ensures var r := Marked(s, t);
            && SameKinds(s, r) && r.holders == s.holders
            && (forall x, n, u :: Has(r, x, n, u) == Has(s, x, n, u))
            && (forall x :: Up(r, x) == Up(s, x) && IsDir(r, x) == IsDir(s, x) && Kids(r, x) == Kids(s, x))
            && (forall x :: Deleted(r, x) <==> Deleted(s, x) || (x == t && IsDir(s, t)))
  {
    forall x
      ensures Kids(Marked(s, t), x) == Kids(s, x)
    {
    }
  }

  lemma MarkedBase(s: State, t: Id)
    requires Base(s) && t in s.inodes
    ensures Base(Marked(s, t))
  {
    hide Namers, Has, Distinct, GoodName;
    var r := Marked(s, t);
    MarkedHas(s, t);
    forall x | x in r.inodes
      ensures NamedAt(r.inodes[x]) && CountedAt(r, x)
    {
      assert NamedAt(s.inodes[x]) && CountedAt(s, x);
      MarkedNamers(s, t, x);
    }
  }

  lemma MarkedNamers(s: State, t: Id, x: Id)
    requires t in s.inodes
    ensures Namers(Marked(s, t), x) == Namers(s, x)
  {
    forall y
      ensures y in Namers(Marked(s, t), x) <==> y in Namers(s, x)
    {
    }
  }

  /** An entry cut off: taken out of its list, and a directory it named marked as deleted. */
  function CutOff(s: State, dir: Id, name: string, t: Id): State
    requires dir in s.inodes && t in s.inodes
  {
    Marked(Detach(s, dir, name), t)
  }

  /** What may be unlinked: an entry other than the dots, of a file or of a directory with nothing in it. */
  ghost predicate Cuttable(s: State, dir: Id, name: string, t: Id) {
    && dir in s.inodes && t in s.inodes && !IsDotName(name) && Find(Kids(s, dir), name) == Some(t)
    && (IsDir(s, t) ==> OnlyDots(Kids(s, t)))
  }

  lemma CutOffHas(s: State, dir: Id, name: string, t: Id)
    requires Named(s) && Cuttable(s, dir, name, t)
    ensures var r := CutOff(s, dir, name, t);
            && SameKinds(s, r)
            && (forall x, n, u :: Has(r, x, n, u) <==> Has(s, x, n, u) && !(x == dir && n == name))
            && (forall x :: Up(r, x) == Up(s, x) && IsDir(r, x) == IsDir(s, x))
            && (forall x :: Deleted(r, x) <==> Deleted(s, x) || (x == t && IsDir(s, t)))
  {
    hide Has, Up, Detach, Find, Kids, Marked;
    DetachHas(s, dir, name);
    MarkedHas(Detach(s, dir, name), t);
  }

  /** Facts about the entry that is cut off. */
  lemma CutFacts(s: State, dir: Id, name: string, t: Id)
    requires Inv(s) && Cuttable(s, dir, name, t)
    ensures Has(s, dir, name, t) && (forall u :: Has(s, dir, name, u) ==> u == t) && dir != t && IsDir(s, dir)
    ensures IsDir(s, t) ==> t != s.root && Up(s, t) == dir && !Deleted(s, dir) && !Deleted(s, t)
    ensures IsDir(s, t) ==> forall d, n :: Has(s, d, n, t) && !IsDotName(n) ==> d == dir && n == name
    ensures IsDir(s, t) ==> forall n, u :: Has(s, t, n, u) ==> IsDotName(n)
  {
    hide Up, Distinct, Kids, Find, Climbs, DottedAt, Counted, Closed, Attached, NamedAt;
    OnlyFound(s, dir, name, t);
    FilesHaveNone(s, dir);
    assert Has(s, dir, name, t);
    if IsDir(s, t) {
      assert ReachesRoot(s, t);
      var n: nat :| Climbs(s, t, n);
      UpIsAnother(s, t, n);
    }
  }

  lemma CutOffParented(s: State, dir: Id, name: string, t: Id)
    requires Inv(s) && Cuttable(s, dir, name, t)
    ensures Parented(CutOff(s, dir, name, t)) && NamedOnce(CutOff(s, dir, name, t)) && Emptied(CutOff(s, dir, name, t))
  {
    hide Has, Up, IsDir, Deleted, Climbs, Closed, Counted, NamedAt, Dotted, Attached, Rooted, CutOff, Find, Kids,
         OnlyDots;
    var r := CutOff(s, dir, name, t);
    CutFacts(s, dir, name, t);
    CutOffHas(s, dir, name, t);
  }

  lemma CutOffAttached(s: State, dir: Id, name: string, t: Id)
    requires Inv(s) && Cuttable(s, dir, name, t)
    ensures Attached(CutOff(s, dir, name, t))
  {
    hide Has, Up, IsDir, Deleted, Climbs, Closed, Counted, NamedAt, CutOff, Find, Kids, OnlyDots;
    var r := CutOff(s, dir, name, t);
    CutFacts(s, dir, name, t);
    CutOffHas(s, dir, name, t);
    forall u | IsDir(r, u) && !Deleted(r, u) && u != r.root
      ensures HasName(r, u)
    {
      assert HasName(s, u);
      var n :| !IsDotName(n) && Has(s, Up(s, u), n, u);
      assert Has(r, Up(r, u), n, u);
    }
  }

  lemma CutOffRooted(s: State, dir: Id, name: string, t: Id)
    requires Inv(s) && Cuttable(s, dir, name, t)
    ensures Rooted(CutOff(s, dir, name, t)) && Dotted(CutOff(s, dir, name, t))
  {
    hide Has, Up, IsDir, Deleted, Climbs, Closed, Counted, NamedAt, CutOff, Find, Kids, OnlyDots, Parented, NamedOnce,
         Attached;
    var r := CutOff(s, dir, name, t);
    CutFacts(s, dir, name, t);
    CutOffHas(s, dir, name, t);
    forall d | IsDir(r, d)
      ensures ReachesRoot(r, d)
    {
      assert ReachesRoot(s, d);
      var n: nat :| Climbs(s, d, n);
      SameClimb(s, r, d, n);
    }
    forall d | IsDir(r, d)
      ensures DottedAt(r, d)
    {
      assert DottedAt(s, d);
    }
  }

  lemma CutOffKeeps(s: State, dir: Id, name: string, t: Id)
    requires Inv(s) && Cuttable(s, dir, name, t)
    ensures Inv(CutOff(s, dir, name, t)) && CutOff(s, dir, name, t).holders == s.holders + multiset{t}
  {
    hide Has, Up, IsDir, Deleted, Climbs, Base, Marked, Parented, NamedOnce, Attached, Rooted, Dotted, Emptied, Kids;
    DetachBase(s, dir, name);
    MarkedBase(Detach(s, dir, name), t);
    MarkedHas(Detach(s, dir, name), t);
    CutOffParented(s, dir, name, t);
    CutOffAttached(s, dir, name, t);
    CutOffRooted(s, dir, name, t);
    CutFacts(s, dir, name, t);
    FoundIn(s, dir, name);
  }

  lemma FoundIn(s: State, d: Id, name: string)
    requires d in s.inodes
    ensures Kids(s, d) == s.inodes[d].children
  {
  }

  /** What unlinking leaves: the entry is gone and every other entry of what is left is still there. */
  ghost predicate Unlinked(s: State, r: State, dir: Id, name: string, t: Id) {
    && r.holders == s.holders && r.root == s.root
    && (forall x :: x in r.inodes ==> x in s.inodes)
    && (forall x, n, u :: x in r.inodes ==> (Has(r, x, n, u) <==> Has(s, x, n, u) && !(x == dir && n == name)))
    && (forall x :: x in r.inodes ==> IsDir(r, x) == IsDir(s, x) && Up(r, x) == Up(s, x))
    && (forall x :: x in r.inodes ==> (Deleted(r, x) <==> Deleted(s, x) || (x == t && IsDir(s, t))))
    && (forall x :: x in s.inodes && x !in r.inodes ==> x == t || Deleted(s, x))
  }

  /** Unlinking keeps the tree and the counts, whatever is destroyed with the last reference. */
  lemma UnlinkKeeps(s: State, dir: Id, name: string, t: Id)
    requires Cuttable(s, dir, name, t) && Inv(s)
    ensures t in CutOff(s, dir, name, t).inodes
    ensures Inv(Unref(CutOff(s, dir, name, t), t)) && Unlinked(s, Unref(CutOff(s, dir, name, t), t), dir, name, t)
  {
    hide Has, Up, IsDir, Deleted, Climbs, Base, Tree, Unref, Kids, CutOff, Inv;
    var c := CutOff(s, dir, name, t);
    CutOffKeeps(s, dir, name, t);
    UnrefKeeps(c, t);
    NamedIn(s);
    CutOffHas(s, dir, name, t);
    RemainsHas(c, Unref(c, t));
    assert s.holders + multiset{t} - multiset{t} == s.holders;
    OnlyThose(s, c, t);
  }

  lemma NamedIn(s: State)
    requires Inv(s)
    ensures Named(s)
  {
  }

  lemma RemainsHas(s: State, r: State)
    requires Remains(s, r)
    ensures forall x :: x in r.inodes ==> Kids(r, x) == Kids(s, x) && Up(r, x) == Up(s, x)
    ensures forall x :: x in r.inodes ==> IsDir(r, x) == IsDir(s, x) && Deleted(r, x) == Deleted(s, x)
    ensures forall x, n, u :: x in r.inodes ==> Has(r, x, n, u) == Has(s, x, n, u)
  {
  }

  lemma OnlyThose(s: State, c: State, t: Id)
    requires SameKinds(s, c) && forall x :: Deleted(c, x) <==> Deleted(s, x) || (x == t && IsDir(s, t))
    ensures forall r :: OnlyDeletedGo(c, r, t) ==> forall x :: x in s.inodes && x !in r.inodes ==> x == t || Deleted(s, x)
  {
  }

  // ---------- linking ----------

  /** A second name for a file keeps the tree and the counts, and adds that entry and no other. */
  lemma LinkKeeps(s: State, dir: Id, name: string, t: Id)
    requires Inv(s) && IsDir(s, dir) && !Deleted(s, dir) && t in s.inodes && !IsDir(s, t) && GoodName(name)
    requires dir in s.inodes && Find(Kids(s, dir), name) == None
    ensures Inv(Put(s, dir, name, t)) && Put(s, dir, name, t).holders == s.holders
  {
    hide Has, Up, Climbs, Base, Put, Kids, Find;
    PutBase(s, dir, name, t);
    DotsAreTaken(s, dir, name);
    PutHas(s, dir, name, t);
    PutAt(s, dir, name, t);
    LinkTree(s, Put(s, dir, name, t), dir, name, t);
  }

  lemma LinkTree(s: State, r: State, dir: Id, name: string, t: Id)
    requires Tree(s) && !IsDir(s, t) && !IsDotName(name) && !Deleted(s, dir) && r.root == s.root
    requires forall x, n, u :: Has(r, x, n, u) <==> Has(s, x, n, u) || (x == dir && n == name && u == t)
    requires forall x :: IsDir(r, x) == IsDir(s, x) && Deleted(r, x) == Deleted(s, x) && Up(r, x) == Up(s, x)
    ensures Tree(r)
  {
    hide Has, Up, IsDir, Deleted, Climbs;
    forall d | IsDir(r, d)
      ensures ReachesRoot(r, d)
    {
      assert ReachesRoot(s, d);
      var n: nat :| Climbs(s, d, n);
      SameClimb(s, r, d, n);
    }
    forall d | IsDir(r, d)
      ensures DottedAt(r, d)
    {
      assert DottedAt(s, d);
    }
    forall u | IsDir(r, u) && !Deleted(r, u) && u != r.root
      ensures HasName(r, u)
    {
      assert HasName(s, u);
      var n :| !IsDotName(n) && Has(s, Up(s, u), n, u);
      assert Has(r, Up(r, u), n, u);
    }
  }
}
