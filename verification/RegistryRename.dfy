/** Moving an entry to another name or another directory. */
module RegistryRename {
  import opened Options
  import opened Registry
  import opened RegistrySteps
  import opened RegistryOps

  // ---------- ancestors ----------

  /** `a` is met on the climb of `n` steps from `d`, or is `d`. */
  ghost predicate OnClimb(s: State, d: Id, a: Id, n: nat)
    decreases n
  {
    d == a || (n > 0 && OnClimb(s, Up(s, d), a, n - 1))
  }

  /** `a` is `d` or a directory above it. */
  ghost predicate Above(s: State, d: Id, a: Id) {
    exists n: nat :: Climbs(s, d, n) && OnClimb(s, d, a, n)
  }

  lemma {:induction false} ClimbIsUnique(s: State, d: Id, n: nat, m: nat)
    requires Climbs(s, d, n) && Climbs(s, d, m)
    ensures n == m
    decreases n
  {
    hide Up, IsDir;
    if n > 0 && m > 0 {
      ClimbIsUnique(s, Up(s, d), n - 1, m - 1);
    }
  }

  lemma {:induction false} SameOnClimb(s: State, r: State, d: Id, a: Id, n: nat)
    requires Climbs(r, d, n) && forall x :: IsDir(r, x) ==> Up(r, x) == Up(s, x)
    ensures OnClimb(r, d, a, n) == OnClimb(s, d, a, n)
    decreases n
  {
    hide Up, IsDir;
    if n > 0 {
      SameOnClimb(s, r, Up(r, d), a, n - 1);
    }
  }

  // ---------- `..` led elsewhere ----------

  /** The target of `..` is exchanged: the entry takes the held reference on `to` and leaves the one on its old target. */
  function Redirect(s: State, m: Id, to: Id): State
    requires m in s.inodes
  {
    s.(inodes := s.inodes[m := s.inodes[m].(children := Retarget(s.inodes[m].children, "..", to))],
       holders := s.holders - multiset{to} + multiset{Up(s, m)})
  }

  lemma RedirectHas(s: State, m: Id, to: Id)
    requires Named(s) && Has(s, m, "..", Up(s, m))
    ensures m in s.inodes && SameKinds(s, Redirect(s, m, to))
    ensures forall x, n, u :: Has(Redirect(s, m, to), x, n, u) <==>
              if x == m && n == ".." then u == to else Has(s, x, n, u)
    ensures forall x :: Deleted(Redirect(s, m, to), x) == Deleted(s, x)
    ensures forall x :: Up(Redirect(s, m, to), x) == if x == m then to else Up(s, x)
  {
    hide Distinct;
    assert NamedAt(s.inodes[m]);
    var cs := s.inodes[m].children;
    FindIsEntry(cs, "..");
    RetargetEntries(cs, "..", to);
    FindRetarget(cs, "..", to);
    var r := Redirect(s, m, to);
    forall x
      ensures Kids(r, x) == if x == m then Retarget(cs, "..", to) else Kids(s, x)
    {
    }
  }

  lemma {:induction false} FindRetarget(cs: seq<Dirent>, name: string, to: Id)
    requires Find(cs, name).Some?
    ensures Find(Retarget(cs, name, to), name) == Some(to)
  {
    if cs[0].name != name {
      FindRetarget(cs[1..], name, to);
    }
  }

  lemma RedirectNamed(s: State, m: Id, to: Id)
    requires Named(s) && m in s.inodes && Find(Kids(s, m), "..").Some?
    ensures Named(Redirect(s, m, to))
  {
    hide Distinct, GoodName;
    var cs := s.inodes[m].children;
    assert NamedAt(s.inodes[m]);
    RetargetEntries(cs, "..", to);
    var r := Redirect(s, m, to);
    FindIsEntry(cs, "..");
    assert GoodName("..") by {
      assert Dirent("..", Find(cs, "..").value) in cs;
    }
    forall x | x in r.inodes
      ensures NamedAt(r.inodes[x])
    {
      assert NamedAt(s.inodes[x]);
    }
  }

  lemma RedirectNamers(s: State, m: Id, to: Id, i: Id)
    requires Named(s) && Has(s, m, "..", Up(s, m)) && m != to && m != Up(s, m) && to != Up(s, m)
    ensures m in s.inodes
    ensures |Namers(Redirect(s, m, to), i)| ==
            |Namers(s, i)| + (if i == to then 1 else 0) - (if i == Up(s, m) then 1 else 0)
  {
    hide Has, Up, Namers, Redirect;
    RedirectHas(s, m, to);
    NamersByHas(s, i);
    NamersByHas(Redirect(s, m, to), i);
    UpOnly(s, m);
    var was, now := Edge(m, Dirent("..", Up(s, m))), Edge(m, Dirent("..", to));
    var a, b := Namers(s, i), Namers(Redirect(s, m, to), i);
    var both := a - {was};
    assert was !in b;
    forall x, n, u
      ensures Edge(x, Dirent(n, u)) in b <==> Edge(x, Dirent(n, u)) in both || (i == to && Edge(x, Dirent(n, u)) == now)
    {
    }
    SetGrows(both, a, was, i == Up(s, m));
    SetGrows(both, b, now, i == to);
  }

  lemma UpOnly(s: State, m: Id)
    requires Named(s) && Has(s, m, "..", Up(s, m))
    ensures forall u :: Has(s, m, "..", u) ==> u == Up(s, m)
  {
    hide Distinct;
    assert NamedAt(s.inodes[m]);
    FindIsEntry(s.inodes[m].children, "..");
  }

  lemma RedirectBase(s: State, m: Id, to: Id)
    requires m in s.inodes && Base(s) && Has(s, m, "..", Up(s, m)) && m != to && m != Up(s, m) && to != Up(s, m) && to in s.holders
    ensures Base(Redirect(s, m, to))
  {
    hide Namers, Has, Named, Kids;
    var r := Redirect(s, m, to);
    RedirectHas(s, m, to);
    UpIsFound(s, m);
    RedirectNamed(s, m, to);
    forall x | x in r.inodes
      ensures CountedAt(r, x)
    {
      assert CountedAt(s, x);
      RedirectNamers(s, m, to, x);
    }
  }

  lemma UpIsFound(s: State, m: Id)
    requires Named(s) && Has(s, m, "..", Up(s, m))
    ensures m in s.inodes && Find(Kids(s, m), "..") == Some(Up(s, m))
  {
    hide Distinct;
    assert NamedAt(s.inodes[m]);
    FindIsEntry(s.inodes[m].children, "..");
  }

  // ---------- the move ----------

  /** The move may be made: the new name is free, and a directory does not go below itself. */
  ghost predicate Movable(s: State, od: Id, on: string, nd: Id, nn: string, m: Id) {
    && od in s.inodes && nd in s.inodes && m in s.inodes
    && IsDir(s, od) && IsDir(s, nd) && !Deleted(s, od) && !Deleted(s, nd)
    && !IsDotName(on) && !IsDotName(nn) && GoodName(nn)
    && Find(Kids(s, od), on) == Some(m) && Find(Kids(s, nd), nn) == None
    && (IsDir(s, m) ==> !Above(s, nd, m))
  }

  /** The new name is linked and the old one taken out. */
  function Swapped(s: State, od: Id, on: string, nd: Id, nn: string, m: Id): (r: State)
    requires od in s.inodes && nd in s.inodes && m in s.inodes
    ensures od in r.inodes && nd in r.inodes && m in r.inodes
  {
    Detach(Put(s, nd, nn, m), od, on)
  }

  /** And the reference of the old one dropped. */
  function Relinked(s: State, od: Id, on: string, nd: Id, nn: string, m: Id): (r: State)
    requires od in s.inodes && nd in s.inodes && m in s.inodes
    ensures od in r.inodes && nd in r.inodes && m in r.inodes
  {
    Lowered(Swapped(s, od, on, nd, nn, m), m)
  }

  /** `..` of a directory that has moved is led to its new parent. */
  function Reparented(r: State, m: Id, nd: Id): (t: State)
    requires nd in r.inodes && m in r.inodes
    ensures forall x :: x in r.inodes ==> x in t.inodes
  {
    Redirect(Hold(r, nd), m, nd)
  }

  /** The whole move. */
  function Moved(s: State, od: Id, on: string, nd: Id, nn: string, m: Id): State
    requires od in s.inodes && nd in s.inodes && m in s.inodes
  {
    var r := Relinked(s, od, on, nd, nn, m);
    if IsDir(s, m) && od != nd then Lowered(Reparented(r, m, nd), od) else r
  }

  /** Dropping a reference on `i` is only counting it down, and gives `r`. */
  ghost predicate DropsTo(d: State, i: Id, r: State) {
    i in d.inodes && i in d.holders && d.inodes[i].refcount > 1 && Unref(d, i) == r
  }

  lemma DotsOf(s: State, d: Id)
    requires Dotted(s) && IsDir(s, d)
    ensures Has(s, d, ".", d) && Has(s, d, "..", Up(s, d)) && IsDir(s, Up(s, d))
  {
    hide Has, Up, IsDir;
    assert DottedAt(s, d);
  }

  lemma MoveFacts(s: State, od: Id, on: string, nd: Id, nn: string, m: Id)
    requires Movable(s, od, on, nd, nn, m) && Inv(s)
    ensures Has(s, od, on, m) && m != od && m != nd && !(od == nd && on == nn)
    ensures IsDir(s, m) ==> Up(s, m) == od && Has(s, m, "..", od) && m != s.root && !Deleted(s, m)
    ensures IsDir(s, m) ==> forall d, n :: Has(s, d, n, m) && !IsDotName(n) ==> d == od && n == on
    ensures forall u :: Has(s, od, on, u) ==> u == m
    ensures forall u :: !Has(s, nd, nn, u)
  {
    hide Up, Kids, Find, Climbs, DottedAt, Counted, Closed, Emptied, Attached, NamedAt, Has;
    OnlyFound(s, od, on, m);
    forall u
      ensures !Has(s, nd, nn, u)
    {
      NotFound(s, nd, nn, u);
    }
    if IsDir(s, m) {
      assert ReachesRoot(s, nd);
      var k: nat :| Climbs(s, nd, k);
      assert OnClimb(s, m, m, k);
      assert ReachesRoot(s, m);
      var n: nat :| Climbs(s, m, n);
      UpIsAnother(s, m, n);
      DotsOf(s, m);
    }
  }

  lemma RelinkedHas(s: State, od: Id, on: string, nd: Id, nn: string, m: Id)
    requires Movable(s, od, on, nd, nn, m) && Named(s) && !(od == nd && on == nn)
    ensures var r := Relinked(s, od, on, nd, nn, m);
            && SameKinds(s, r)
            && (forall x, n, u :: Has(r, x, n, u) <==>
                  (Has(s, x, n, u) && !(x == od && n == on)) || (x == nd && n == nn && u == m))
            && (forall x :: Up(r, x) == Up(s, x) && Deleted(r, x) == Deleted(s, x) && IsDir(r, x) == IsDir(s, x))
  {
    hide Has, Up, Put, Detach, Find, Kids, Lowered, Deleted, Above;
    PutHas(s, nd, nn, m);
    PutNamed(s, nd, nn, m);
    var p := Put(s, nd, nn, m);
    DetachHas(p, od, on);
    LoweredHas(Detach(p, od, on), m);
  }

  lemma DetachHolds(s: State, d: Id, name: string, t: Id)
    requires d in s.inodes && Find(Kids(s, d), name) == Some(t)
    ensures Detach(s, d, name).holders == if t == d then s.holders else s.holders + multiset{t}
  {
  }

  /** While something is held and something else names it, a reference can be dropped and the inode stays. */
  lemma SecondReference(s: State, d: Id, n: string, i: Id)
    requires Counted(s) && i in s.holders && ((d != i && Has(s, d, n, i)) || i == s.root)
    ensures i in s.inodes && s.inodes[i].refcount > 1
  {
    hide Has, Namers;
    assert CountedAt(s, i);
    NamersByHas(s, i);
    if i != s.root {
      assert Edge(d, Dirent(n, i)) in Namers(s, i);
      assert {Edge(d, Dirent(n, i))} <= Namers(s, i);
      assert |Namers(s, i)| != 0;
    }
  }

  lemma DropHere(s: State, d: Id, n: string, i: Id)
    requires Base(s) && i in s.holders && ((d != i && Has(s, d, n, i)) || i == s.root)
    ensures i in s.inodes && DropsTo(s, i, Lowered(s, i)) && Base(Lowered(s, i))
    ensures Lowered(s, i).holders == s.holders - multiset{i}
  {
    hide Has, Closed, Named, Counted, Unref;
    SecondReference(s, d, n, i);
    DropBase(s, i);
    PlainDrop(s, i);
  }

  lemma StillFound(s: State, od: Id, on: string, nd: Id, nn: string, m: Id)
    requires od in s.inodes && nd in s.inodes && m in s.inodes && !(od == nd && on == nn)
    ensures Find(Kids(Put(s, nd, nn, m), od), on) == Find(Kids(s, od), on)
  {
  }

  lemma SwappedBase(s: State, od: Id, on: string, nd: Id, nn: string, m: Id)
    requires Movable(s, od, on, nd, nn, m) && Inv(s)
    ensures Base(Swapped(s, od, on, nd, nn, m))
    ensures Swapped(s, od, on, nd, nn, m).holders == s.holders + multiset{m}
    ensures Has(Swapped(s, od, on, nd, nn, m), nd, nn, m)
  {
    hide Has, Up, Put, Detach, Find, Kids, Deleted, Tree, Closed, Named, Above, Counted;
    MoveFacts(s, od, on, nd, nn, m);
    PutBase(s, nd, nn, m);
    PutAt(s, nd, nn, m);
    PutHas(s, nd, nn, m);
    var p := Put(s, nd, nn, m);
    DetachBase(p, od, on);
    DetachHas(p, od, on);
    StillFound(s, od, on, nd, nn, m);
    DetachHolds(p, od, on, m);
  }

  lemma RelinkedBase(s: State, od: Id, on: string, nd: Id, nn: string, m: Id)
    requires Movable(s, od, on, nd, nn, m) && Inv(s)
    ensures DropsTo(Swapped(s, od, on, nd, nn, m), m, Relinked(s, od, on, nd, nn, m))
    ensures Base(Relinked(s, od, on, nd, nn, m)) && Relinked(s, od, on, nd, nn, m).holders == s.holders
  {
    hide Has, Up, Swapped, Find, Kids, Lowered, Deleted, Inv, Base, DropsTo, Above;
    SwappedBase(s, od, on, nd, nn, m);
    MoveFacts(s, od, on, nd, nn, m);
    DropHere(Swapped(s, od, on, nd, nn, m), nd, nn, m);
    assert s.holders + multiset{m} - multiset{m} == s.holders;
  }

  lemma ReparentedHas(r: State, m: Id, nd: Id)
    requires nd in r.inodes && m in r.inodes && Base(r) && Has(r, m, "..", Up(r, m))
    ensures var t := Reparented(r, m, nd);
            && SameKinds(r, t)
            && (forall x, n, u :: Has(t, x, n, u) <==> if x == m && n == ".." then u == nd else Has(r, x, n, u))
            && (forall x :: Deleted(t, x) == Deleted(r, x) && Up(t, x) == if x == m then nd else Up(r, x))
  {
    hide Has, Up, Deleted, Hold, Redirect, NamedAt, Counted, Closed;
    HoldBase(r, nd);
    SameGraphHas(r, Hold(r, nd));
    RedirectHas(Hold(r, nd), m, nd);
  }

  lemma ReparentedBase(r: State, m: Id, nd: Id)
    requires nd in r.inodes && m in r.inodes && Base(r) && Has(r, m, "..", Up(r, m))
    requires m != nd && m != Up(r, m) && nd != Up(r, m)
    ensures Base(Reparented(r, m, nd)) && Reparented(r, m, nd).holders == r.holders + multiset{Up(r, m)}
  {
    hide Has, Up, Deleted, NamedAt, Counted, Closed, Named;
    HoldBase(r, nd);
    SameGraphHas(r, Hold(r, nd));
    RedirectBase(Hold(r, nd), m, nd);
    assert r.holders + multiset{nd} - multiset{nd} + multiset{Up(r, m)} == r.holders + multiset{Up(r, m)};
  }

  lemma SameKindsDir(s: State, r: State)
    requires SameKinds(s, r)
    ensures forall x :: IsDir(r, x) == IsDir(s, x)
  {
  }

  ghost predicate MovedEdge(s: State, od: Id, on: string, nd: Id, nn: string, m: Id, x: Id, n: string, u: Id) {
    if IsDir(s, m) && x == m && n == ".." then u == nd
    else (Has(s, x, n, u) && !(x == od && n == on)) || (x == nd && n == nn && u == m)
  }

  lemma MovedHas(s: State, od: Id, on: string, nd: Id, nn: string, m: Id)
    requires Movable(s, od, on, nd, nn, m) && Inv(s)
    ensures var r := Moved(s, od, on, nd, nn, m);
            && SameKinds(s, r)
            && (forall x, n, u :: Has(r, x, n, u) <==> MovedEdge(s, od, on, nd, nn, m, x, n, u))
            && (forall x :: Deleted(r, x) == Deleted(s, x) && IsDir(r, x) == IsDir(s, x))
            && (forall x :: Up(r, x) == if IsDir(s, m) && x == m then nd else Up(s, x))
  {
    hide Has, Up, IsDir, Reparented, Find, Kids, Lowered, Deleted, Tree, Closed, Counted, NamedAt, Relinked, Above;
    MoveFacts(s, od, on, nd, nn, m);
    RelinkedHas(s, od, on, nd, nn, m);
    UpWasOnly(s, m);
    var r := Relinked(s, od, on, nd, nn, m);
    if IsDir(s, m) && od != nd {
      RelinkedBase(s, od, on, nd, nn, m);
      ReparentedHas(r, m, nd);
      SameKindsDir(r, Reparented(r, m, nd));
      LoweredHas(Reparented(r, m, nd), od);
    }
  }

  lemma UpWasOnly(s: State, m: Id)
    requires Inv(s)
    ensures IsDir(s, m) ==> forall u :: Has(s, m, "..", u) <==> u == Up(s, m)
  {
    hide Has, Up, Distinct;
    if IsDir(s, m) {
      assert DottedAt(s, m);
      UpOnly(s, m);
    }
  }

  lemma MovedBase(s: State, od: Id, on: string, nd: Id, nn: string, m: Id)
    requires Movable(s, od, on, nd, nn, m) && Inv(s)
    ensures IsDir(s, m) && od != nd ==>
              DropsTo(Reparented(Relinked(s, od, on, nd, nn, m), m, nd), od, Moved(s, od, on, nd, nn, m))
    ensures Base(Moved(s, od, on, nd, nn, m)) && Moved(s, od, on, nd, nn, m).holders == s.holders
  {
    hide Has, Up, IsDir, Reparented, Find, Kids, Lowered, Deleted, Base, Inv, Relinked, Above, DropsTo;
    MoveFacts(s, od, on, nd, nn, m);
    NamedIn(s);
    RelinkedHas(s, od, on, nd, nn, m);
    RelinkedBase(s, od, on, nd, nn, m);
    var r := Relinked(s, od, on, nd, nn, m);
    if IsDir(s, m) && od != nd {
      ReparentedBase(r, m, nd);
      ReparentedHas(r, m, nd);
      StaysNamed(s, od);
      var n: string :| od == s.root || (Up(s, od) != od && !IsDotName(n) && Has(s, Up(s, od), n, od));
      DropHere(Reparented(r, m, nd), Up(s, od), n, od);
      assert s.holders + multiset{od} - multiset{od} == s.holders;
    }
  }

  /** A directory that is in the tree is the root or is named by its parent. */
  lemma StaysNamed(s: State, d: Id)
    requires Inv(s) && IsDir(s, d) && !Deleted(s, d)
    ensures exists n :: d == s.root || (Up(s, d) != d && !IsDotName(n) && Has(s, Up(s, d), n, d))
  {
    hide Has, Up, IsDir, Deleted, Base;
    assert DottedAt(s, d);
    if d != s.root {
      assert HasName(s, d);
      assert ReachesRoot(s, d);
      var k: nat :| Climbs(s, d, k);
      UpIsAnother(s, d, k);
    }
  }

  // ---------- the tree after the move ----------

  lemma {:induction false} ClimbClear(s: State, r: State, m: Id, d: Id, n: nat)
    requires Climbs(s, d, n) && !OnClimb(s, d, m, n) && r.root == s.root
    requires forall x :: x != m && IsDir(s, x) ==> IsDir(r, x) && Up(r, x) == Up(s, x)
    ensures Climbs(r, d, n)
    decreases n
  {
    hide Up, IsDir;
    if n > 0 {
      ClimbClear(s, r, m, Up(s, d), n - 1);
    }
  }

  /** A climb that meets the moved directory goes on from its new parent. */
  lemma {:induction false} MovedClimb(s: State, r: State, m: Id, nd: Id, k: nat, d: Id, n: nat)
    requires Climbs(s, d, n) && Climbs(s, nd, k) && !OnClimb(s, nd, m, k) && r.root == s.root && m != s.root
    requires forall x :: x != m && IsDir(s, x) ==> IsDir(r, x) && Up(r, x) == Up(s, x)
    requires IsDir(r, m) && Up(r, m) == nd
    ensures exists h: nat :: Climbs(r, d, h)
    decreases n
  {
    hide Up, IsDir;
    if d == m {
      ClimbClear(s, r, m, nd, k);
      assert Climbs(r, d, k + 1);
    } else if n == 0 {
      assert Climbs(r, d, 0);
    } else {
      MovedClimb(s, r, m, nd, k, Up(s, d), n - 1);
      var h: nat :| Climbs(r, Up(s, d), h);
      assert Climbs(r, d, h + 1);
    }
  }

  lemma MovedRooted(s: State, od: Id, on: string, nd: Id, nn: string, m: Id)
    requires Movable(s, od, on, nd, nn, m) && Inv(s)
    ensures Rooted(Moved(s, od, on, nd, nn, m))
  {
    hide Has, Up, IsDir, Find, Kids, Deleted, Base, Dotted, Parented, NamedOnce, Attached, Emptied, Moved, OnClimb,
         Climbs;
    var r := Moved(s, od, on, nd, nn, m);
    MovedHas(s, od, on, nd, nn, m);
    MoveFacts(s, od, on, nd, nn, m);
    assert ReachesRoot(s, nd);
    var k: nat :| Climbs(s, nd, k);
    forall d | IsDir(r, d)
      ensures ReachesRoot(r, d)
    {
      assert ReachesRoot(s, d);
      var n: nat :| Climbs(s, d, n);
      if IsDir(s, m) {
        MovedClimb(s, r, m, nd, k, d, n);
      } else {
        SameClimb(s, r, d, n);
      }
    }
  }

  lemma MovedAttached(s: State, od: Id, on: string, nd: Id, nn: string, m: Id)
    requires Movable(s, od, on, nd, nn, m) && Inv(s)
    ensures Attached(Moved(s, od, on, nd, nn, m))
  {
    hide Has, Up, IsDir, Find, Kids, Deleted, Base, Dotted, Parented, NamedOnce, Rooted, Emptied, Moved, Above;
    var r := Moved(s, od, on, nd, nn, m);
    MovedHas(s, od, on, nd, nn, m);
    MoveFacts(s, od, on, nd, nn, m);
    forall t | IsDir(r, t) && !Deleted(r, t) && t != r.root
      ensures HasName(r, t)
    {
      if t == m {
        assert Has(r, Up(r, t), nn, t);
      } else {
        assert HasName(s, t);
        var n :| !IsDotName(n) && Has(s, Up(s, t), n, t);
        assert Has(r, Up(r, t), n, t);
      }
    }
  }

  lemma MovedDotted(s: State, od: Id, on: string, nd: Id, nn: string, m: Id)
    requires Movable(s, od, on, nd, nn, m) && Inv(s)
    ensures Dotted(Moved(s, od, on, nd, nn, m))
  {
    hide Has, Up, IsDir, Find, Kids, Deleted, Base, Parented, NamedOnce, Rooted, Attached, Emptied, Moved, Above,
         DottedAt;
    var r := Moved(s, od, on, nd, nn, m);
    MovedHas(s, od, on, nd, nn, m);
    MoveFacts(s, od, on, nd, nn, m);
    forall d | IsDir(r, d)
      ensures DottedAt(r, d)
    {
      MovedDottedAt(s, r, od, on, nd, nn, m, d);
    }
  }

  lemma MovedDottedAt(s: State, r: State, od: Id, on: string, nd: Id, nn: string, m: Id, d: Id)
    requires DottedAt(s, d) && IsDir(s, nd) && !IsDotName(on)
    requires forall x, n, u :: Has(r, x, n, u) <==> MovedEdge(s, od, on, nd, nn, m, x, n, u)
    requires forall x :: IsDir(r, x) == IsDir(s, x) && Up(r, x) == if IsDir(s, m) && x == m then nd else Up(s, x)
    ensures DottedAt(r, d)
  {
    hide Has, Up, IsDir;
    assert MovedEdge(s, od, on, nd, nn, m, d, ".", d);
    assert MovedEdge(s, od, on, nd, nn, m, d, "..", Up(r, d));
  }

  lemma MovedEmptied(s: State, od: Id, on: string, nd: Id, nn: string, m: Id)
    requires Movable(s, od, on, nd, nn, m) && Inv(s)
    ensures Emptied(Moved(s, od, on, nd, nn, m))
  {
    hide Has, Up, IsDir, Find, Kids, Deleted, Base, Parented, NamedOnce, Rooted, Attached, Dotted, Moved, Above,
         IsDotName;
    var r := Moved(s, od, on, nd, nn, m);
    MovedHas(s, od, on, nd, nn, m);
    forall d, n, t | Deleted(r, d) && Has(r, d, n, t)
      ensures IsDotName(n)
    {
      assert MovedEdge(s, od, on, nd, nn, m, d, n, t);
      DotDot();
    }
  }

  lemma DotDot()
    ensures IsDotName("..")
  {
  }

  lemma MovedParented(s: State, od: Id, on: string, nd: Id, nn: string, m: Id)
    requires Movable(s, od, on, nd, nn, m) && Inv(s)
    ensures Parented(Moved(s, od, on, nd, nn, m)) && NamedOnce(Moved(s, od, on, nd, nn, m))
  {
    hide Has, Up, IsDir, Find, Kids, Deleted, Base, Rooted, Attached, Moved, Above, Dotted, Emptied;
    var r := Moved(s, od, on, nd, nn, m);
    MovedHas(s, od, on, nd, nn, m);
    MoveFacts(s, od, on, nd, nn, m);
    forall d, n, t | Has(r, d, n, t) && !IsDotName(n) && IsDir(r, t)
      ensures if t == m then d == nd && n == nn else Has(s, d, n, t) && IsDir(s, t)
    {
      assert MovedEdge(s, od, on, nd, nn, m, d, n, t);
    }
  }

  /**
    A move keeps the tree and the counts. The old name is gone, the new one leads to what was moved, the `..` of a
    directory follows it, and no other entry has changed.
   */
  lemma MovedKeeps(s: State, od: Id, on: string, nd: Id, nn: string, m: Id)
    requires Movable(s, od, on, nd, nn, m) && Inv(s)
    ensures Inv(Moved(s, od, on, nd, nn, m)) && Moved(s, od, on, nd, nn, m).holders == s.holders
  {
    hide Base, Rooted, Attached, Moved, Movable, Dotted, Emptied, Parented, NamedOnce;
    MovedBase(s, od, on, nd, nn, m);
    MovedRooted(s, od, on, nd, nn, m);
    MovedAttached(s, od, on, nd, nn, m);
    MovedDotted(s, od, on, nd, nn, m);
    MovedEmptied(s, od, on, nd, nn, m);
    MovedParented(s, od, on, nd, nn, m);
  }
}
