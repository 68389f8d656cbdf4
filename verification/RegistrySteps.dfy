/** What the basic steps on the registry's graph keep: names, and the exactness of every reference count. */
module RegistrySteps {
  import opened Options
  import opened Registry

  /** The two states have the same inodes, and they differ in nothing but counts and entries. */
  ghost predicate SameKinds(s: State, s': State) {
    && s'.root == s.root
    && (forall i :: i in s'.inodes <==> i in s.inodes)
    && (forall i :: i in s.inodes ==> s'.inodes[i].isDir == s.inodes[i].isDir)
  }

  lemma NamersByHas(s: State, i: Id)
    ensures forall d, n, t :: Edge(d, Dirent(n, t)) in Namers(s, i) <==> d != i && t == i && Has(s, d, n, i)
  {
  }

  // ---------- a new entry ----------

  lemma PutHas(s: State, d: Id, name: string, t: Id)
    requires d in s.inodes && t in s.inodes
    ensures forall x, n, u :: Has(Put(s, d, name, t), x, n, u) <==>
              Has(s, x, n, u) || (x == d && n == name && u == t)
    ensures SameKinds(s, Put(s, d, name, t))
    ensures forall i :: Deleted(Put(s, d, name, t), i) == Deleted(s, i)
    ensures name != ".." ==> forall i :: Up(Put(s, d, name, t), i) == Up(s, i)
  {
    var s' := Put(s, d, name, t);
    forall x
      ensures Kids(s', x) == if x == d then [Dirent(name, t)] + Kids(s, d) else Kids(s, x)
    {
    }
  }

  lemma PutNamers(s: State, d: Id, name: string, t: Id, i: Id)
    requires d in s.inodes && t in s.inodes && Find(Kids(s, d), name) == None && Named(s)
    ensures |Namers(Put(s, d, name, t), i)| == |Namers(s, i)| + if i == t && t != d then 1 else 0
  {
    hide Put, Has, Namers;
    PutHas(s, d, name, t);
    var s' := Put(s, d, name, t);
    NamersByHas(s, i);
    NamersByHas(s', i);
    var e := Edge(d, Dirent(name, t));
    NotFound(s, d, name, t);
    assert e !in Namers(s, i);
    forall x, n, u
      ensures Edge(x, Dirent(n, u)) in Namers(s', i) <==>
                Edge(x, Dirent(n, u)) in Namers(s, i) || (i == t && t != d && Edge(x, Dirent(n, u)) == e)
    {
    }
    SetGrows(Namers(s, i), Namers(s', i), e, i == t && t != d);
  }

  lemma NotFound(s: State, d: Id, name: string, t: Id)
    requires d in s.inodes && Named(s)
    ensures Find(Kids(s, d), name) == None ==> !Has(s, d, name, t)
  {
    hide Distinct;
    assert NamedAt(s.inodes[d]);
    FindIsEntry(s.inodes[d].children, name);
  }

  /** One more edge in a set of edges, or none. */
  lemma SetGrows(a: set<Edge>, b: set<Edge>, e: Edge, more: bool)
    requires e !in a
    requires forall x, n, u :: Edge(x, Dirent(n, u)) in b <==> Edge(x, Dirent(n, u)) in a || (more && Edge(x, Dirent(n, u)) == e)
    ensures |b| == |a| + if more then 1 else 0
  {
    forall y
      ensures y in b <==> y in a || (more && y == e)
    {
      assert y == Edge(y.dir, Dirent(y.entry.name, y.entry.target));
    }
    assert b == if more then a + {e} else a;
  }

  lemma PutNamed(s: State, d: Id, name: string, t: Id)
    requires Named(s) && d in s.inodes && t in s.inodes && s.inodes[d].isDir && GoodName(name)
    requires Find(Kids(s, d), name) == None
    ensures Named(Put(s, d, name, t))
  {
    hide Distinct, GoodName;
    var cs := s.inodes[d].children;
    assert NamedAt(s.inodes[d]);
    FindIsEntry(cs, name);
    forall e | e in cs
      ensures e.name != name
    {
      assert e == Dirent(e.name, e.target);
    }
    DistinctCons(Dirent(name, t), cs);
    var s' := Put(s, d, name, t);
    forall x | x in s'.inodes
      ensures NamedAt(s'.inodes[x])
    {
      assert NamedAt(s.inodes[x]);
    }
  }

  lemma PutCounted(s: State, d: Id, name: string, t: Id)
    requires Named(s) && Counted(s) && d in s.inodes && t in s.inodes && Find(Kids(s, d), name) == None
    ensures Counted(Put(s, d, name, t))
  {
    hide Namers, Find, Kids, Named;
    var s' := Put(s, d, name, t);
    forall i | i in s'.inodes
      ensures CountedAt(s', i)
    {
      assert CountedAt(s, i);
      PutNamers(s, d, name, t, i);
    }
  }

  /** Linking a free name into a directory keeps names and counts right. */
  lemma PutBase(s: State, d: Id, name: string, t: Id)
    requires Base(s) && d in s.inodes && t in s.inodes && s.inodes[d].isDir && GoodName(name)
    requires Find(Kids(s, d), name) == None
    ensures Base(Put(s, d, name, t))
  {
    hide Named, Counted, Put, Find, Kids, Has;
    PutNamed(s, d, name, t);
    PutCounted(s, d, name, t);
    PutHas(s, d, name, t);
  }

  // ---------- an entry taken out ----------

  lemma DetachHas(s: State, d: Id, name: string)
    requires Named(s) && d in s.inodes
    ensures forall x, n, u :: Has(Detach(s, d, name), x, n, u) <==> Has(s, x, n, u) && !(x == d && n == name)
    ensures SameKinds(s, Detach(s, d, name))
    ensures forall i :: Deleted(Detach(s, d, name), i) == Deleted(s, i)
    ensures name != ".." ==> forall i :: Up(Detach(s, d, name), i) == Up(s, i)
  {
    hide Distinct;
    assert NamedAt(s.inodes[d]);
    var cs := s.inodes[d].children;
    FindIsEntry(cs, name);
    WithoutEntries(cs, name);
    var s' := Detach(s, d, name);
    forall x
      ensures Find(cs, name).Some? ==> Kids(s', x) == if x == d then Without(cs, name) else Kids(s, x)
    {
    }
    if name != ".." {
      FindInWithout(cs, name, "..");
    }
  }

  lemma {:induction false} FindInWithout(cs: seq<Dirent>, name: string, other: string)
    requires name != other
    ensures Find(Without(cs, name), other) == Find(cs, other)
  {
    if cs != [] {
      FindInWithout(cs[1..], name, other);
    }
  }

  lemma DetachNamers(s: State, d: Id, name: string, t: Id, i: Id)
    requires d in s.inodes && Named(s) && Find(Kids(s, d), name) == Some(t)
    ensures |Namers(s, i)| == |Namers(Detach(s, d, name), i)| + if i == t && t != d then 1 else 0
  {
    hide Detach, Has, Namers;
    DetachHas(s, d, name);
    var s' := Detach(s, d, name);
    NamersByHas(s, i);
    NamersByHas(s', i);
    var e := Edge(d, Dirent(name, t));
    OnlyFound(s, d, name, t);
    assert e !in Namers(s', i);
    forall x, n, u
      ensures Edge(x, Dirent(n, u)) in Namers(s, i) <==>
                Edge(x, Dirent(n, u)) in Namers(s', i) || (i == t && t != d && Edge(x, Dirent(n, u)) == e)
    {
    }
    SetGrows(Namers(s', i), Namers(s, i), e, i == t && t != d);
  }

  lemma OnlyFound(s: State, d: Id, name: string, t: Id)
    requires d in s.inodes && Named(s) && Find(Kids(s, d), name) == Some(t)
    ensures forall u :: Has(s, d, name, u) <==> u == t
  {
    hide Distinct;
    assert NamedAt(s.inodes[d]);
    FindIsEntry(s.inodes[d].children, name);
  }

  lemma DetachNamed(s: State, d: Id, name: string)
    requires Named(s) && d in s.inodes
    ensures Named(Detach(s, d, name))
  {
    hide Distinct, GoodName;
    assert NamedAt(s.inodes[d]);
    WithoutEntries(s.inodes[d].children, name);
    var s' := Detach(s, d, name);
    forall x | x in s'.inodes
      ensures NamedAt(s'.inodes[x])
    {
      assert NamedAt(s.inodes[x]);
    }
  }

  lemma DetachCounted(s: State, d: Id, name: string)
    requires Named(s) && Counted(s) && Closed(s) && d in s.inodes
    ensures Counted(Detach(s, d, name))
  {
    hide Namers, Named, Closed;
    var s' := Detach(s, d, name);
    match Find(Kids(s, d), name)
    case None =>
    case Some(t) =>
      OnlyFound(s, d, name, t);
      EntryExists(s, d, name, t);
      forall i | i in s'.inodes
        ensures CountedAt(s', i)
      {
        assert CountedAt(s, i);
        DetachNamers(s, d, name, t, i);
      }
  }

  lemma EntryExists(s: State, d: Id, name: string, t: Id)
    requires Closed(s) && Has(s, d, name, t)
    ensures d in s.inodes && t in s.inodes
  {
  }

  /** Taking an entry out, and keeping its reference in hand, keeps names and counts right. */
  lemma DetachBase(s: State, d: Id, name: string)
    requires Base(s) && d in s.inodes
    ensures Base(Detach(s, d, name))
  {
    hide Named, Counted, Detach, Has;
    DetachNamed(s, d, name);
    DetachCounted(s, d, name);
    DetachHas(s, d, name);
  }

  // ---------- references ----------

  /** Only counts and holders may differ. */
  ghost predicate SameGraph(s: State, s': State) {
    && SameKinds(s, s')
    && forall i :: i in s.inodes ==> s'.inodes[i].children == s.inodes[i].children && s'.inodes[i].deleted == s.inodes[i].deleted
  }

  lemma SameGraphNamers(s: State, s': State, i: Id)
    requires SameGraph(s, s')
    ensures Namers(s', i) == Namers(s, i)
  {
    forall y
      ensures y in Namers(s', i) <==> y in Namers(s, i)
    {
    }
  }

  lemma SameGraphNamed(s: State, s': State)
    requires SameGraph(s, s') && Named(s)
    ensures Named(s')
  {
    hide Distinct, GoodName;
    forall x | x in s'.inodes
      ensures NamedAt(s'.inodes[x])
    {
      assert NamedAt(s.inodes[x]);
    }
  }

  lemma SameGraphHas(s: State, s': State)
    requires SameGraph(s, s')
    ensures forall d, n, t :: Has(s', d, n, t) == Has(s, d, n, t)
    ensures forall i :: Up(s', i) == Up(s, i) && Deleted(s', i) == Deleted(s, i) && IsDir(s', i) == IsDir(s, i)
  {
    forall d
      ensures Kids(s', d) == Kids(s, d)
    {
    }
  }

  lemma {:induction false} SameClimb(s: State, s': State, d: Id, n: nat)
    requires s'.root == s.root && Climbs(s, d, n)
    requires forall i :: IsDir(s, i) ==> IsDir(s', i) && Up(s', i) == Up(s, i)
    ensures Climbs(s', d, n)
    decreases n
  {
    hide IsDir, Up;
    if n > 0 {
      SameClimb(s, s', Up(s, d), n - 1);
    }
  }

  lemma SameGraphTree(s: State, s': State)
    requires SameGraph(s, s') && Tree(s)
    ensures Tree(s')
  {
    hide Has, Up, IsDir, Deleted, Climbs;
    SameGraphHas(s, s');
    forall d | IsDir(s', d)
      ensures ReachesRoot(s', d)
    {
      assert ReachesRoot(s, d);
      var n: nat :| Climbs(s, d, n);
      SameClimb(s, s', d, n);
    }
    forall d | IsDir(s', d)
      ensures DottedAt(s', d)
    {
      assert DottedAt(s, d);
    }
    forall t | IsDir(s', t) && !Deleted(s', t) && t != s'.root
      ensures HasName(s', t)
    {
      assert HasName(s, t);
      var n :| !IsDotName(n) && Has(s, Up(s, t), n, t);
      assert Has(s', Up(s', t), n, t);
    }
  }

  lemma HoldBase(s: State, i: Id)
    requires Base(s) && i in s.inodes
    ensures Base(Hold(s, i)) && SameGraph(s, Hold(s, i))
  {
    hide Namers, Named, Closed;
    var s' := Hold(s, i);
    SameGraphNamed(s, s');
    HoldCounted(s, i);
    SameGraphClosed(s, s');
  }

  lemma SameGraphClosed(s: State, s': State)
    requires SameGraph(s, s') && Closed(s)
    ensures Closed(s')
  {
    SameGraphHas(s, s');
  }

  lemma HoldCounted(s: State, i: Id)
    requires Counted(s) && i in s.inodes
    ensures Counted(Hold(s, i))
  {
    hide Namers;
    var s' := Hold(s, i);
    forall j | j in s'.inodes
      ensures CountedAt(s', j)
    {
      assert CountedAt(s, j);
      SameGraphNamers(s, s', j);
    }
  }

  /** One reference fewer on `i`. */
  function Lowered(s: State, i: Id): State
    requires i in s.inodes
  {
    s.(inodes := s.inodes[i := s.inodes[i].(refcount := s.inodes[i].refcount - 1)], holders := s.holders - multiset{i})
  }

  lemma PlainDrop(s: State, i: Id)
    requires i in s.inodes && s.inodes[i].refcount > 1
    ensures Unref(s, i) == Lowered(s, i) && SameGraph(s, Unref(s, i))
    ensures Unref(s, i).holders == s.holders - multiset{i}
  {
  }

  lemma LoweredCounted(s: State, i: Id)
    requires Counted(s) && i in s.inodes && i in s.holders && s.inodes[i].refcount > 1
    ensures Counted(Lowered(s, i))
  {
    hide Namers;
    var s' := Lowered(s, i);
    forall j | j in s'.inodes
      ensures CountedAt(s', j)
    {
      assert CountedAt(s, j);
      SameGraphNamers(s, s', j);
    }
  }

  /** Giving up a reference that is not the last one changes nothing but the count. */
  lemma DropBase(s: State, i: Id)
    requires Base(s) && i in s.holders && i in s.inodes && s.inodes[i].refcount > 1
    ensures Base(Unref(s, i)) && SameGraph(s, Unref(s, i))
    ensures Unref(s, i).holders == s.holders - multiset{i}
  {
    hide Counted, Named, Closed, Unref, Lowered;
    PlainDrop(s, i);
    SameGraphNamed(s, Unref(s, i));
    SameGraphClosed(s, Unref(s, i));
    LoweredCounted(s, i);
  }

  // ---------- the last reference ----------

  lemma {:induction false} UpIsAnother(s: State, d: Id, n: nat)
    requires Climbs(s, d, n) && d != s.root
    ensures Up(s, d) != d
    decreases n
  {
    hide Up, IsDir;
    if n > 0 && Up(s, d) == d {
      UpIsAnother(s, d, n - 1);
    }
  }

  /** What dropping the last reference to `i` leaves when it is only `i` that goes. */
  function Gone(s: State, i: Id): State {
    s.(inodes := s.inodes - {i},
       holders := s.holders - multiset{i} + if IsDir(s, i) then multiset{Up(s, i)} else multiset{})
  }

  ghost predicate LastReference(s: State, i: Id) {
    i in s.holders && i in s.inodes && s.inodes[i].refcount == 1
  }

  lemma LastIsUnnamed(s: State, i: Id)
    requires Counted(s) && LastReference(s, i)
    ensures i != s.root && s.holders[i] == 1
    ensures forall d, n :: Has(s, d, n, i) ==> d == i
  {
    hide Namers, Has;
    assert CountedAt(s, i);
    assert Namers(s, i) == {};
    NamersByHas(s, i);
    forall d, n | Has(s, d, n, i)
      ensures d == i
    {
      assert Edge(d, Dirent(n, i)) !in Namers(s, i);
    }
  }

  predicate LastEntry(s: State, i: Id, n: string, t: Id) {
    IsDir(s, i) && IsDotName(n) && (t == i || (n == ".." && t == Up(s, i)))
  }

  /** A directory whose last reference goes has been deleted, and has only its two dots. */
  lemma LastIsEmpty(s: State, i: Id)
    requires Inv(s) && LastReference(s, i)
    ensures IsDir(s, i) ==> Deleted(s, i) && Up(s, i) != i && IsDir(s, Up(s, i)) && Has(s, i, "..", Up(s, i))
    ensures forall n, t :: Has(s, i, n, t) ==> LastEntry(s, i, n, t)
  {
    hide Has, Up, IsDir, Deleted, Climbs, Namers, NamedAt, CountedAt;
    LastIsUnnamed(s, i);
    FilesHaveNone(s, i);
    if IsDir(s, i) {
      assert DottedAt(s, i);
      assert ReachesRoot(s, i);
      var n: nat :| Climbs(s, i, n);
      UpIsAnother(s, i, n);
      Nameless(s, i);
      DotsLead(s, i);
    }
  }

  lemma Nameless(s: State, i: Id)
    requires Up(s, i) != i && forall d, n :: Has(s, d, n, i) ==> d == i
    ensures !HasName(s, i)
  {
  }

  lemma FilesHaveNone(s: State, i: Id)
    requires Named(s)
    ensures !IsDir(s, i) ==> forall n, t :: !Has(s, i, n, t)
  {
    hide Distinct;
    if i in s.inodes {
      assert NamedAt(s.inodes[i]);
    }
  }

  lemma DotsLead(s: State, i: Id)
    requires Named(s) && Dotted(s) && IsDir(s, i)
    ensures forall t :: Has(s, i, ".", t) <==> t == i
    ensures forall t :: Has(s, i, "..", t) <==> t == Up(s, i)
  {
    hide Distinct;
    assert DottedAt(s, i);
    assert NamedAt(s.inodes[i]);
    FindIsEntry(s.inodes[i].children, ".");
    FindIsEntry(s.inodes[i].children, "..");
  }

  lemma GoneHas(s: State, i: Id)
    ensures forall x, n, u :: Has(Gone(s, i), x, n, u) <==> Has(s, x, n, u) && x != i
    ensures forall j :: IsDir(Gone(s, i), j) == (j != i && IsDir(s, j))
    ensures forall j :: Deleted(Gone(s, i), j) == (j != i && Deleted(s, j))
    ensures forall j :: j != i ==> Up(Gone(s, i), j) == Up(s, j)
  {
    forall x
      ensures x != i ==> Kids(Gone(s, i), x) == Kids(s, x)
    {
    }
  }

  lemma GoneNamers(s: State, i: Id, j: Id)
    requires Inv(s) && LastReference(s, i) && j != i
    ensures |Namers(s, j)| == |Namers(Gone(s, i), j)| + if IsDir(s, i) && j == Up(s, i) then 1 else 0
  {
    hide Has, Up, IsDir, Deleted, Namers, Gone, Inv;
    var s' := Gone(s, i);
    GoneHas(s, i);
    LastIsEmpty(s, i);
    NamersByHas(s, j);
    NamersByHas(s', j);
    var e := Edge(i, Dirent("..", Up(s, i)));
    assert e !in Namers(s', j);
    forall x, n, u
      ensures Edge(x, Dirent(n, u)) in Namers(s, j) <==>
                Edge(x, Dirent(n, u)) in Namers(s', j) || (IsDir(s, i) && j == Up(s, i) && Edge(x, Dirent(n, u)) == e)
    {
    }
    SetGrows(Namers(s', j), Namers(s, j), e, IsDir(s, i) && j == Up(s, i));
  }

  lemma GoneBase(s: State, i: Id)
    requires Inv(s) && LastReference(s, i)
    ensures Base(Gone(s, i))
  {
    hide Has, Up, Namers, NamedAt, Tree;
    var s' := Gone(s, i);
    GoneHas(s, i);
    LastIsUnnamed(s, i);
    LastIsEmpty(s, i);
    forall x | x in s'.inodes
      ensures NamedAt(s'.inodes[x]) && CountedAt(s', x)
    {
      assert NamedAt(s.inodes[x]) && CountedAt(s, x);
      GoneNamers(s, i, x);
    }
  }

  /** Climbs that do not meet `i` are the same in a state that differs only at `i`. */
  lemma {:induction false} ClimbAvoids(s: State, s': State, i: Id, d: Id, n: nat)
    requires Climbs(s, d, n) && d != i && s'.root == s.root
    requires forall j :: j != i && IsDir(s, j) ==> IsDir(s', j) && Up(s', j) == Up(s, j) && Up(s, j) != i
    ensures Climbs(s', d, n)
    decreases n
  {
    hide Up, IsDir;
    if n > 0 {
      ClimbAvoids(s, s', i, Up(s, d), n - 1);
    }
  }

  lemma GoneRoot(s: State, i: Id)
    ensures Gone(s, i).root == s.root
  {
  }

  /** No other directory's `..` leads to what has lost its last reference. */
  lemma NotAbove(s: State, i: Id)
    requires Inv(s) && LastReference(s, i)
    ensures forall d :: IsDir(s, d) && d != i ==> Up(s, d) != i && Has(s, d, "..", Up(s, d))
  {
    hide Has, Up, IsDir, Deleted, Climbs, Namers;
    LastIsUnnamed(s, i);
    forall d | IsDir(s, d) && d != i
      ensures Up(s, d) != i && Has(s, d, "..", Up(s, d))
    {
      assert DottedAt(s, d);
    }
  }

  lemma GoneRooted(s: State, i: Id)
    requires Inv(s) && LastReference(s, i)
    ensures Rooted(Gone(s, i))
  {
    hide Has, Up, IsDir, Deleted, Climbs, Namers, Gone, Base, LastReference;
    var s' := Gone(s, i);
    GoneHas(s, i);
    GoneRoot(s, i);
    NotAbove(s, i);
    forall d | IsDir(s', d)
      ensures ReachesRoot(s', d)
    {
      assert ReachesRoot(s, d);
      var n: nat :| Climbs(s, d, n);
      ClimbAvoids(s, s', i, d, n);
    }
  }

  lemma GoneAttached(s: State, i: Id)
    requires Inv(s) && LastReference(s, i)
    ensures Attached(Gone(s, i))
  {
    hide Has, Up, IsDir, Deleted, Climbs, Namers, Gone, Base, LastReference;
    var s' := Gone(s, i);
    GoneHas(s, i);
    GoneRoot(s, i);
    LastIsEmpty(s, i);
    forall t | IsDir(s', t) && !Deleted(s', t) && t != s'.root
      ensures HasName(s', t)
    {
      assert HasName(s, t);
      var n :| !IsDotName(n) && Has(s, Up(s, t), n, t);
      assert Has(s', Up(s', t), n, t);
    }
  }

  lemma GoneTree(s: State, i: Id)
    requires Inv(s) && LastReference(s, i)
    ensures Tree(Gone(s, i))
  {
    hide Has, Up, IsDir, Deleted, Climbs, Namers, Gone, LastReference, Rooted, Attached, Named, Closed, Counted;
    var s' := Gone(s, i);
    GoneHas(s, i);
    GoneRoot(s, i);
    LastIsUnnamed(s, i);
    NotAbove(s, i);
    GoneRooted(s, i);
    GoneAttached(s, i);
    forall d | IsDir(s', d)
      ensures DottedAt(s', d)
    {
      assert DottedAt(s, d);
    }
  }

  lemma Apart(cs: seq<Dirent>, i: nat, j: nat)
    requires Distinct(cs) && i < j
    ensures j < |cs| ==> cs[i].name != cs[j].name
  {
  }

  lemma TwoOf(cs: seq<Dirent>, a: Dirent, b: Dirent)
    requires Distinct(cs) && a in cs && b in cs && a.name != b.name
    requires forall k :: 0 <= k < |cs| ==> cs[k] == a || cs[k] == b
    ensures cs == [a, b] || cs == [b, a]
  {
    Apart(cs, 0, 1);
    Apart(cs, 1, 2);
    Apart(cs, 0, 2);
  }

  lemma HadEntry(s: State, i: Id, n: string, t: Id)
    ensures Has(s, i, n, t) <==> Dirent(n, t) in Kids(s, i)
  {
  }

  lemma LastEntries(s: State, i: Id, e: Dirent)
    requires Inv(s) && LastReference(s, i) && e in Kids(s, i)
    ensures IsDir(s, i) && (e == Dirent(".", i) || e == Dirent("..", Up(s, i)))
  {
    hide Up, Kids, Closed, Counted, Rooted, Attached, Distinct;
    LastIsEmpty(s, i);
    assert Has(s, i, e.name, e.target);
    assert LastEntry(s, i, e.name, e.target);
    DotsLead(s, i);
  }

  /** Two dots, in one order or the other. */
  lemma TwoDots(s: State, i: Id)
    requires Inv(s) && LastReference(s, i) && IsDir(s, i)
    ensures var dot, up := Dirent(".", i), Dirent("..", Up(s, i));
            Kids(s, i) == [dot, up] || Kids(s, i) == [up, dot]
  {
    hide Up, Kids, Closed, Counted, Rooted, Attached, Distinct, Has;
    LastIsEmpty(s, i);
    DotsLead(s, i);
    KidsDistinct(s, i);
    var cs := Kids(s, i);
    forall k | 0 <= k < |cs|
      ensures cs[k] == Dirent(".", i) || cs[k] == Dirent("..", Up(s, i))
    {
      LastEntries(s, i, cs[k]);
    }
    HadEntry(s, i, ".", i);
    HadEntry(s, i, "..", Up(s, i));
    TwoOf(cs, Dirent(".", i), Dirent("..", Up(s, i)));
  }

  lemma KidsDistinct(s: State, i: Id)
    requires Named(s)
    ensures Distinct(Kids(s, i))
  {
    if i in s.inodes {
      assert NamedAt(s.inodes[i]);
    }
  }

  /** Giving up the entries of a directory that has only dots is giving up its parent. */
  lemma DotsGivenUp(s: State, i: Id, up: Id, cs: seq<Dirent>)
    requires cs == [Dirent(".", i), Dirent("..", up)] || cs == [Dirent("..", up), Dirent(".", i)]
    requires up != i && up in s.inodes
    ensures UnrefAll(s, i, cs) == Unref(s.(holders := s.holders + multiset{up}), up)
  {
    hide Unref;
    var dot, r := Dirent(".", i), Unref(s.(holders := s.holders + multiset{up}), up);
    var one: seq<Dirent> := [dot];
    assert one[1..] == [];
    assert UnrefAll(r, i, one) == UnrefAll(r, i, []) == r;
    if cs[0] == dot {
      assert cs[1..] == [Dirent("..", up)];
      assert cs[1..][1..] == [];
      assert UnrefAll(r, i, []) == r;
    } else {
      assert cs[1..] == one;
    }
  }

  /** What is left of a state after some of its inodes have been destroyed. */
  ghost predicate Remains(s: State, r: State) {
    && r.root == s.root
    && forall x :: x in r.inodes ==>
         && x in s.inodes && r.inodes[x].isDir == s.inodes[x].isDir && r.inodes[x].deleted == s.inodes[x].deleted
         && r.inodes[x].children == s.inodes[x].children
  }

  /** Nothing goes but `i`, if it is a file, and directories that had been deleted. */
  ghost predicate OnlyDeletedGo(s: State, r: State, i: Id) {
    forall x :: x in s.inodes && x !in r.inodes ==> if IsDir(s, x) then Deleted(s, x) else x == i
  }

  lemma UnrefLast(s: State, i: Id)
    requires Inv(s) && LastReference(s, i)
    ensures |Gone(s, i).inodes| < |s.inodes|
    ensures IsDir(s, i) ==> Up(s, i) in Gone(s, i).inodes && Unref(s, i) == Unref(Gone(s, i), Up(s, i))
    ensures !IsDir(s, i) ==> Unref(s, i) == Gone(s, i)
  {
    hide Unref, Up, Tree, Base;
    assert (s.inodes - {i}).Keys == s.inodes.Keys - {i};
    UnrefUnfolds(s, i);
    if IsDir(s, i) {
      LastIsEmpty(s, i);
      TwoDots(s, i);
      var s1 := s.(inodes := s.inodes - {i}, holders := s.holders - multiset{i});
      DotsGivenUp(s1, i, Up(s, i), s.inodes[i].children);
    }
  }

  lemma UnrefUnfolds(s: State, i: Id)
    requires i in s.inodes && s.inodes[i].refcount == 1
    ensures Unref(s, i) == UnrefAll(s.(inodes := s.inodes - {i}, holders := s.holders - multiset{i}), i,
                                    if s.inodes[i].isDir then s.inodes[i].children else [])
  {
  }

  /**
    Dropping a reference: every invariant holds again afterwards, however many directories go on the way up. The
    reference is gone from the holders, no other is, and what is left is as it was.
   */
  lemma {:induction false} UnrefKeeps(s: State, i: Id)
    requires Inv(s) && i in s.holders
    ensures i in s.inodes && Inv(Unref(s, i))
    ensures Unref(s, i).holders == s.holders - multiset{i}
    ensures Remains(s, Unref(s, i)) && OnlyDeletedGo(s, Unref(s, i), i)
    decreases |s.inodes|
  {
    hide Tree, Closed, Named, Unref, Up, Gone;
    assert CountedAt(s, i);
    if s.inodes[i].refcount > 1 {
      DropBase(s, i);
      SameGraphTree(s, Unref(s, i));
    } else {
      UnrefLast(s, i);
      GoneBase(s, i);
      GoneTree(s, i);
      var g := Gone(s, i);
      LastIsEmpty(s, i);
      GoneRemains(s, i);
      if IsDir(s, i) {
        UnrefKeeps(g, Up(s, i));
        MarksAgree(s, g, i, Up(s, i));
      }
    }
  }

  lemma GoneRemains(s: State, i: Id)
    requires i in s.inodes && (IsDir(s, i) ==> Deleted(s, i))
    ensures Remains(s, Gone(s, i)) && OnlyDeletedGo(s, Gone(s, i), i)
    ensures Gone(s, i).holders == s.holders - multiset{i} + if IsDir(s, i) then multiset{Up(s, i)} else multiset{}
    ensures IsDir(s, i) ==> Up(s, i) in Gone(s, i).holders
    ensures forall x :: x != i ==> (x in Gone(s, i).inodes <==> x in s.inodes)
  {
  }

  lemma MarksAgree(s: State, g: State, i: Id, up: Id)
    requires Remains(s, g) && OnlyDeletedGo(s, g, i) && i in s.inodes && up in g.inodes && Deleted(s, i)
    requires Remains(g, Unref(g, up)) && OnlyDeletedGo(g, Unref(g, up), up) && IsDir(s, up)
    ensures Remains(s, Unref(g, up)) && OnlyDeletedGo(s, Unref(g, up), i)
  {
    hide Unref;
  }

  /** An inode is there exactly as long as it is the root, or somebody holds it, or another directory names it. */
  lemma LivesExactly(s: State, i: Id)
    requires Inv(s)
    ensures i in s.inodes <==> i == s.root || i in s.holders || exists d, n :: d != i && Has(s, d, n, i)
  {
    hide Namers, Has, Tree, Named;
    NamersByHas(s, i);
    assert IsDir(s, s.root) by {
      RootIsDir(s);
    }
    if i in s.inodes && i != s.root && i !in s.holders {
      assert CountedAt(s, i);
      assert Namers(s, i) != {};
      var y :| y in Namers(s, i);
      assert y == Edge(y.dir, Dirent(y.entry.name, y.entry.target));
      assert Has(s, y.dir, y.entry.name, i);
    }
  }

  lemma RootIsDir(s: State)
    requires Tree(s)
    ensures IsDir(s, s.root)
  {
  }
}
