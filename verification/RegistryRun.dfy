/** Whole runs of the namespace operations, and what every state of a run looks like. */
module RegistryRun {
  import opened Options
  import opened Registry
  import opened RegistrySteps
  import opened RegistryOps
  import opened RegistryRename
  import opened RegistryPaths
  import opened RegistryNamespace

  const MAX_PARENT := 128

  lemma WalkedTo(s: State, r: State, covered: set<Id>, base: Id, path: string, mem: Memory, out: Option<Id>)
    requires Inv(s) && base in s.inodes
    requires WalkOutcome(s, r, Walk(s, covered, base, path, false), true, mem, out)
    ensures r == s && (out.Some? ==> out.value in s.inodes)
    ensures if out.Some? then Walk(s, covered, base, path, false) == At(out.value) else !Walk(s, covered, base, path, false).At?
  {
    hide WalkFrom, Made, Tree, Named, Closed, Counted;
    RootIn(s);
    if path != "" {
      WalkEnds(s, covered, if path[0] == '/' then s.root else base, if path[0] == '/' then path[1..] else path, false);
    }
  }

  lemma MkdirOutcome(s: State, r: State, covered: set<Id>, base: Id, path: string, mem: Memory, out: Option<Id>)
    requires Inv(s) && base in s.inodes && path != ""
    requires WalkOutcome(s, r, Walk(s, covered, base, path, true), true, mem, out)
    ensures out == None ==> r == s
    ensures var f := Walk(s, covered, base, path, true);
            out.Some? <==> f.At? || (f.Free? && GoodName(f.name) && Suffices(mem, true))
    ensures out.Some? ==> var f := Walk(s, covered, base, path, true);
                   (f.At? && path[|path| - 1] == '/' && r == s)
                   || (f.Free? && f.dir in s.inodes && out.value !in s.inodes && r == Made(s, f.dir, f.name, out.value, true))
  {
    hide WalkFrom, Made, Tree, Named, Closed, Counted, Suffices;
    RootIn(s);
    WalkEnds(s, covered, if path[0] == '/' then s.root else base, if path[0] == '/' then path[1..] else path, true);
  }

  lemma SameBase(s: State, covered: set<Id>, start: Id, path: string)
    requires path != ""
    ensures Walk(s, covered, if path[0] == '/' then s.root else start, path, true) == Walk(s, covered, start, path, true)
  {
    hide WalkFrom;
  }

  lemma SameBaseMade(s: State, r: State, covered: set<Id>, start: Id, path: string)
    requires path != "" && MadeSomewhere(s, r, covered, if path[0] == '/' then s.root else start, path, true)
    ensures MadeSomewhere(s, r, covered, start, path, true)
  {
    hide Made, NamesLead;
    var base := if path[0] == '/' then s.root else start;
    var k: nat, dir, id :| MadeUnder(s, r, covered, base, path, true, k, dir, id);
    assert path[k..] != "" && path[0] == if k == 0 then path[k..][0] else path[..k][0];
    assert MadeUnder(s, r, covered, start, path, true, k, dir, id);
  }

  /** The path without the slashes at its end; a path of slashes keeps one. */
  function Trimmed(path: string): (p: string)
    ensures p <= path
  {
    if |path| > 1 && path[|path| - 1] == '/' then Trimmed(path[..|path| - 1]) else path
  }

  /**
    When a directory is made, or is there already and the path ends in a slash: what is before the last component is
    short enough and leads to a directory that has not been deleted, and the walk of the whole path ends at something
    or finds a free name that is not too long, with memory for the new directory.
   */
  predicate MkdirDone(s: State, covered: set<Id>, start: Id, path: string, mem: Memory) {
    path != "" &&
    var p := Trimmed(path);
    var last := LastStart(p);
    var base := if path[0] == '/' then s.root else start;
    var parent := if last == 0 then At(base) else Walk(s, covered, base, path[..last], false);
    var found := Walk(s, covered, start, path, true);
    && last < |p| && last < MAX_PARENT
    && parent.At? && IsDir(s, parent.id) && !Deleted(s, parent.id)
    && (found.At? || (found.Free? && |found.name| < MAX_NAME && Suffices(mem, true)))
  }

  /** A free name that the walk finds is a good one unless it is too long. */
  lemma FreeName(s: State, covered: set<Id>, start: Id, path: string)
    requires Inv(s) && start in s.inodes && '\0' !in path
    ensures var f := Walk(s, covered, start, path, true);
            f.Free? ==> (GoodName(f.name) <==> |f.name| < MAX_NAME)
  {
    hide WalkFrom, Tree, Named, Closed, Counted;
    RootIn(s);
    var f := Walk(s, covered, start, path, true);
    if f.Free? {
      FreeIsFree(s, covered, if path[0] == '/' then s.root else start, if path[0] == '/' then path[1..] else path, true);
    }
  }

  lemma IsDirHere(s: State, i: Id)
    requires i in s.inodes
    ensures (IsDir(s, i) <==> s.inodes[i].isDir) && (Deleted(s, i) <==> s.inodes[i].deleted)
  {
  }

  /** Where the path ends without its slashes, and where its last component starts. */
  method Ends(path: string) returns (len: nat, last: nat)
    requires path != ""
    ensures last <= len <= |path| && Trimmed(path) == path[..len] && LastStart(path[..len]) == last
  {
    len := |path|;
    assert path[..len] == path;
    while len > 1 && path[len - 1] == '/'
      invariant 1 <= len <= |path| && Trimmed(path[..len]) == Trimmed(path)
    {
      assert path[..len][..len - 1] == path[..len - 1];
      len := len - 1;
    }
    last := len;
    while last > 0 && path[last - 1] != '/'
      invariant 0 <= last <= len && LastStart(path[..last]) == LastStart(path[..len])
    {
      assert path[..last][..last - 1] == path[..last - 1];
      last := last - 1;
    }
  }

  /**
    There is a directory now under the last name of the path, in the directory the part before it leads to; nothing is
    made where something was.
   */
  ghost predicate MkdirMade(s: State, r: State, covered: set<Id>, start: Id, path: string) {
    if Walk(s, covered, start, path, true).At? then r == s else MadeSomewhere(s, r, covered, start, path, true)
  }

  lemma MadeIsMore(s: State, cur: Id, name: string, id: Id, isDir: bool)
    requires cur in s.inodes && id !in s.inodes
    ensures Made(s, cur, name, id, isDir) != s
  {
    assert id in Made(s, cur, name, id, isDir).inodes;
  }

  /** `registry_mkdir_at` in the native tree. */
  method MkdirAt(ns: Namespace, start: Id, path: string, mem: Memory) returns (ok: bool)
    requires Inv(ns.S()) && start in ns.inodes && '\0' !in path
    modifies ns`inodes, ns`holders
    ensures Inv(ns.S()) && ns.S().holders == old(ns.S()).holders
    ensures ok <==> MkdirDone(old(ns.S()), ns.covered, start, path, mem)
    ensures !ok ==> ns.S() == old(ns.S())
    ensures ok ==> MkdirMade(old(ns.S()), ns.S(), ns.covered, start, path)
    ensures ok ==> (ns.S() == old(ns.S()) <==> Walk(old(ns.S()), ns.covered, start, path, true).At?)
                   && (ns.S() == old(ns.S()) ==> path[|path| - 1] == '/')
  {
    hide Inv, Walk, Made, WalkOutcome, IsDir, Deleted, GoodName, Suffices, Resolves, MadeSomewhere;
    if path == "" {
      return false;
    }
    var len, last := Ends(path);
    if last == len {
      return false;
    }
    RootIn(ns.S());
    var base := if path[0] == '/' then ns.root else start;
    var parent := Some(base);
    if last != 0 {
      if last >= MAX_PARENT {
        return false;
      }
      ghost var was := ns.S();
      parent := ns.WalkPath(base, path[..last], false, true, mem);
      WalkedTo(was, ns.S(), ns.covered, base, path[..last], mem, parent);
    }
    if parent == None {
      return false;
    }
    IsDirHere(ns.S(), parent.value);
    if !ns.inodes[parent.value].isDir || ns.inodes[parent.value].deleted {
      return false;
    }
    SameBase(ns.S(), ns.covered, start, path);
    FreeName(ns.S(), ns.covered, start, path);
    ghost var before := ns.S();
    var n := ns.WalkPath(base, path, true, true, mem);
    MkdirOutcome(before, ns.S(), ns.covered, base, path, mem, n);
    ghost var f := Walk(before, ns.covered, base, path, true);
    if n.Some? && f.Free? {
      MadeIsMore(before, f.dir, f.name, n.value, true);
      SameBaseMade(before, ns.S(), ns.covered, start, path);
    }
    return n.Some?;
  }

  /** With `d` in the root and no memory left, making `d/` reports success and makes nothing; making `d` fails. */
  method NothingMade() returns (ns: Namespace, slashed: bool, plain: bool, ghost was: State)
    ensures fresh(ns) && Inv(was) && Find(Kids(was, was.root), "d").Some? && ns.S() == was
    ensures slashed && !plain
  {
    hide Inv, Made, IsDir, Deleted, WalkFrom;
    var none := Memory(false, false, false, false);
    ns := new Namespace();
    RootIsOpen(ns.S());
    ghost var s := ns.S();
    var made := ns.MakeEntry(ns.root, "d", true, Memory(true, true, true, true));
    DirMade(s, "d", made.value);
    was := ns.S();
    WalksToIt(was, made.value);
    slashed := MkdirAt(ns, ns.root, "d/", none);
    plain := MkdirAt(ns, ns.root, "d", none);
  }

  lemma DirMade(s: State, name: string, id: Id)
    requires s.root in s.inodes && IsDir(s, s.root) && !Deleted(s, s.root) && id !in s.inodes
    ensures var r := Made(s, s.root, name, id, true);
            && r.root == s.root && r.root in r.inodes && id in r.inodes && IsDir(r, id) && IsDir(r, r.root) && !Deleted(r, r.root)
            && Kids(r, r.root) == [Dirent(name, id)] + Kids(s, s.root)
            && Kids(r, id) == [Dirent("..", s.root), Dirent(".", id)]
  {
  }

  lemma WalksToIt(s: State, d: Id)
    requires IsDir(s, s.root) && IsDir(s, d) && Kids(s, s.root) != [] && Kids(s, s.root)[0] == Dirent("d", d)
    ensures Find(Kids(s, s.root), "d") == Some(d)
    ensures Walk(s, {}, s.root, "d/", true) == At(d) && Walk(s, {}, s.root, "d", true) == Missing
    ensures Trimmed("d/") == "d" && LastStart("d") == 0
  {
    hide IsDir, Kids;
    var path := "d/";
    assert path[..1] == "d" && path[1..] == "/" && path[2..] == "";
    assert "d"[..1] == "d" && "d"[1..] == "";
    assert SegLen(path) == 1 && SegLen("d") == 1;
  }

  // ---------- runs ----------

  datatype Op =
    | Make(start: Id, path: string, isDir: bool, mem: Memory)
    | Mkdir(start: Id, path: string, mem: Memory)
    | Link(target: Id, dir: Id, name: string, room: bool)
    | Unlink(dir: Id, name: string)
    | Rename(oldDir: Id, oldName: string, newDir: Id, newName: string, room: bool)
    | Retain(id: Id)
    | Release(id: Id)
    | Cover(over: set<Id>)

  /** What callers see to: inodes they name exist, names come from paths, and only a held reference is given up. */
  predicate Proper(s: State, op: Op) {
    match op
    case Make(start, path, _, _) => start in s.inodes && '\0' !in path
    case Mkdir(start, path, _) => start in s.inodes && '\0' !in path
    case Link(target, dir, name, _) => target in s.inodes && dir in s.inodes && Clean(name)
    case Unlink(dir, _) => dir in s.inodes
    case Rename(od, on, nd, nn, _) => od in s.inodes && nd in s.inodes && Clean(on) && Clean(nn)
    case Retain(id) => id in s.inodes
    case Release(id) => id in s.holders && id in s.inodes
    case Cover(_) => true
  }

  /** A state of a run: the inodes, and those under which another file system is mounted. */
  datatype View = View(s: State, covered: set<Id>)

  /** The operation succeeded exactly when it could, with the effect it is for. */
  ghost predicate Explained(op: Op, done: bool, v: View, v': View) {
    var s, s' := v.s, v'.s;
    && (!op.Cover? ==> v'.covered == v.covered)
    && match op
       case Make(start, path, isDir, mem) =>
         exists out: Option<Id> :: done == out.Some? && WalkOutcome(s, s', Walk(s, v.covered, start, path, true), isDir, mem, out)
       case Mkdir(start, path, mem) =>
         && (done <==> MkdirDone(s, v.covered, start, path, mem))
         && if done then MkdirMade(s, s', v.covered, start, path) else s' == s
       case Link(target, dir, name, room) =>
         && (done <==> LinkAllowed(s, target, dir, name) && room)
         && if done then EntryNew(s, s', dir, name, target) else s' == s
       case Unlink(dir, name) =>
         && (done <==> UnlinkAllowed(s, v.covered, dir, name))
         && if done then EntryGone(s, s', dir, name) else s' == s
       case Rename(od, on, nd, nn, room) =>
         && (done <==> RenameAllowed(s, v.covered, od, on, nd, nn, room))
         && if done then (if RenameIsNothing(s, od, on, nd, nn) then s' == s else Renamed(s, s', od, on, nd, nn))
            else if RenameAllowed(s, v.covered, od, on, nd, nn, true) && Find(Kids(s, nd), nn).Some?
            then s' != s && EntryGone(s, s', nd, nn)
            else s' == s
       case Retain(id) => done && id in s.inodes && s' == Hold(s, id)
       case Release(id) => done && id in s.inodes && s' == Unref(s, id)
       case Cover(over) => done && s' == s && v'.covered == over
  }

  /** One operation. */
  method Perform(ns: Namespace, op: Op) returns (done: bool)
    requires Inv(ns.S()) && Proper(ns.S(), op)
    modifies ns
    ensures Inv(ns.S())
    ensures ns.S().holders == match op
                              case Retain(id) => old(ns.S().holders) + multiset{id}
                              case Release(id) => old(ns.S().holders) - multiset{id}
                              case _ => old(ns.S().holders)
    ensures Explained(op, done, old(View(ns.S(), ns.covered)), View(ns.S(), ns.covered))
  {
    hide Inv, Unref, WalkOutcome, Renamed, RenameAllowed, EntryGone, EntryNew, UnlinkAllowed, LinkAllowed, Made,
         MkdirDone, MkdirMade, Walk;
    match op
    case Make(start, path, isDir, mem) =>
      var made := ns.WalkPath(start, path, true, isDir, mem);
      done := made.Some?;
    case Mkdir(start, path, mem) =>
      done := MkdirAt(ns, start, path, mem);
    case Link(target, dir, name, room) =>
      var rc := ns.Link(target, dir, name, room);
      done := rc == Done;
    case Unlink(dir, name) =>
      var rc := ns.Unlink(dir, name);
      done := rc == Done;
    case Rename(od, on, nd, nn, room) =>
      var rc := ns.Rename(od, on, nd, nn, room);
      done := rc == Done;
    case Retain(id) =>
      HoldKeeps(ns.S(), id);
      ns.Retain(id);
      done := true;
    case Release(id) =>
      UnrefKeeps(ns.S(), id);
      ns.InodeUnref(id);
      done := true;
    case Cover(over) =>
      ns.covered := over;
      done := true;
  }

  lemma HoldKeeps(s: State, i: Id)
    requires i in s.inodes && Inv(s)
    ensures Inv(Hold(s, i))
  {
    hide Base, Tree, Hold;
    HoldBase(s, i);
    SameGraphTree(s, Hold(s, i));
  }

  /** An operation the callers would not issue is passed over. */
  ghost predicate StepOf(op: Op, done: bool, v: View, v': View) {
    if Proper(v.s, op) then Explained(op, done, v, v') else !done && v' == v
  }

  /**
    Every run from `registry_init` on keeps all the invariants, and every operation in it succeeds exactly when it could.
    `held` is what the callers hold; an operation a caller would not issue is passed over.
   */
  method Run(ops: seq<Op>) returns (ns: Namespace, held: multiset<Id>, done: seq<bool>, ghost trace: seq<View>)
    ensures Inv(ns.S()) && ns.S().holders == held
    ensures |done| == |ops| && |trace| == |ops| + 1 && First(trace[0].s) && trace[|ops|] == View(ns.S(), ns.covered)
    ensures forall k :: 0 <= k < |ops| ==> StepOf(ops[k], done[k], trace[k], trace[k + 1]) && Inv(trace[k].s)
  {
    hide Inv, Proper, Explained;
    ns := new Namespace();
    held, done := multiset{}, [];
    trace := [View(ns.S(), ns.covered)];
    for k := 0 to |ops|
      invariant Inv(ns.S()) && fresh(ns) && ns.S().holders == held
      invariant |done| == k && |trace| == k + 1 && First(trace[0].s) && trace[k] == View(ns.S(), ns.covered)
      invariant forall j :: 0 <= j < k ==> StepOf(ops[j], done[j], trace[j], trace[j + 1]) && Inv(trace[j].s)
    {
      var op, ok := ops[k], false;
      if Proper(State(ns.inodes, ns.root, held), op) {
        ok := Perform(ns, op);
        match op
        case Retain(id) => held := held + multiset{id};
        case Release(id) => held := held - multiset{id};
        case _ =>
      }
      done := done + [ok];
      trace := trace + [View(ns.S(), ns.covered)];
    }
  }

  /** A file made under a free name in the root is found there, in front of what was there. */
  lemma FileMade(s: State, name: string, id: Id)
    requires s.root in s.inodes && id !in s.inodes
    ensures var r := Made(s, s.root, name, id, false);
            && r.root == s.root && r.root in r.inodes && id in r.inodes && !IsDir(r, id)
            && Kids(r, r.root) == [Dirent(name, id)] + Kids(s, s.root)
            && (IsDir(r, r.root) <==> IsDir(s, s.root)) && (Deleted(r, r.root) <==> Deleted(s, s.root))
            && forall x :: x in s.inodes ==> (IsDir(r, x) <==> IsDir(s, x))
  {
  }

  /** With `a` and `b` in the root and no memory left, renaming `a` to `b` fails and takes `b` away. */
  method ReplacedIsLost() returns (ns: Namespace, rc: Errno, ghost was: State)
    ensures Inv(was) && Find(Kids(was, was.root), "a").Some? && Find(Kids(was, was.root), "b").Some?
    ensures fresh(ns) && Inv(ns.S()) && ns.root == was.root && rc != Done
    ensures Find(Kids(ns.S(), ns.root), "b") == None
    ensures Find(Kids(ns.S(), ns.root), "a") == Find(Kids(was, was.root), "a")
  {
    hide Inv, RenameAllowed, Made, IsDir, Deleted, Above;
    var memory := Memory(true, true, true, true);
    ns := new Namespace();
    RootIsOpen(ns.S());
    ghost var s0 := ns.S();
    var a := ns.MakeEntry(ns.root, "a", false, memory);
    FileMade(s0, "a", a.value);
    ghost var s1 := ns.S();
    var b := ns.MakeEntry(ns.root, "b", false, memory);
    FileMade(s1, "b", b.value);
    was := ns.S();
    TwoFiles(was, a.value, b.value);
    rc := ns.Rename(ns.root, "a", ns.root, "b", false);
    LostAndKept(was, ns.S(), a.value);
  }

  lemma RootIsOpen(s: State)
    requires First(s)
    ensures s.root in s.inodes && IsDir(s, s.root) && !Deleted(s, s.root)
    ensures Kids(s, s.root) == [Dirent("..", s.root), Dirent(".", s.root)]
  {
  }

  lemma TwoFiles(s: State, a: Id, b: Id)
    requires IsDir(s, s.root) && !Deleted(s, s.root) && a != b && !IsDir(s, a) && !IsDir(s, b)
    requires Kids(s, s.root) == [Dirent("b", b)] + ([Dirent("a", a)] + [Dirent("..", s.root), Dirent(".", s.root)])
    ensures Find(Kids(s, s.root), "a") == Some(a) && Find(Kids(s, s.root), "b") == Some(b)
    ensures RenameAllowed(s, {}, s.root, "a", s.root, "b", true) && !RenameAllowed(s, {}, s.root, "a", s.root, "b", false)
  {
    hide IsDir, Deleted, Above, Kids;
    var cs := Kids(s, s.root);
    assert cs[1..] == [Dirent("a", a)] + [Dirent("..", s.root), Dirent(".", s.root)];
  }

  lemma LostAndKept(s: State, r: State, a: Id)
    requires Inv(s) && Inv(r) && EntryGone(s, r, s.root, "b") && Find(Kids(s, s.root), "a") == Some(a)
    ensures Find(Kids(r, r.root), "b") == None && Find(Kids(r, r.root), "a") == Some(a)
  {
    hide Tree, Closed, Counted, Kids;
    FindHas(s, s.root, "a");
    FindHas(r, s.root, "a");
    FindHas(r, s.root, "b");
  }

  // ---------- the shape of every state ----------

  /** A directory in the tree other than the root has exactly one name, in the directory its `..` leads to. */
  lemma OneName(s: State, t: Id)
    requires Inv(s) && IsDir(s, t) && !Deleted(s, t) && t != s.root
    ensures exists n :: Has(s, Up(s, t), n, t) && !IsDotName(n)
    ensures forall d, n, d', n' :: Has(s, d, n, t) && !IsDotName(n) && Has(s, d', n', t) && !IsDotName(n')
              ==> d == d' == Up(s, t) && n == n'
    ensures IsDir(s, Up(s, t)) && !Deleted(s, Up(s, t))
  {
    hide Has, Up, IsDir, Deleted, Base, Rooted, Emptied, DottedAt, IsDotName;
    assert HasName(s, t);
    DotsOf(s, t);
  }

  lemma {:induction false} ClimbLower(s: State, d: Id, a: Id, n: nat)
    requires Climbs(s, d, n) && OnClimb(s, d, a, n)
    ensures exists m: nat :: m <= n && Climbs(s, a, m) && (m == n ==> d == a)
    decreases n
  {
    hide Up, IsDir;
    if d == a {
      assert Climbs(s, a, n);
    } else {
      ClimbLower(s, Up(s, d), a, n - 1);
      var m: nat :| m <= n - 1 && Climbs(s, a, m);
      assert m <= n;
    }
  }

  /** Going up never comes back: of two different directories at most one is above the other. */
  lemma NoCycle(s: State, a: Id, b: Id)
    requires Above(s, a, b) && Above(s, b, a)
    ensures a == b
  {
    hide Climbs, OnClimb;
    var n: nat :| Climbs(s, a, n) && OnClimb(s, a, b, n);
    var m: nat :| Climbs(s, b, m) && OnClimb(s, b, a, m);
    ClimbLower(s, a, b, n);
    ClimbLower(s, b, a, m);
    var m': nat :| m' <= n && Climbs(s, b, m') && (m' == n ==> a == b);
    var n': nat :| n' <= m && Climbs(s, a, n') && (n' == m ==> b == a);
    ClimbIsUnique(s, a, n, n');
    ClimbIsUnique(s, b, m, m');
  }

  /** A deleted directory is empty, is no directory's parent in the tree, and nothing names it. */
  lemma DeletedIsOut(s: State, d: Id)
    requires Inv(s) && Deleted(s, d)
    ensures forall n, t :: Has(s, d, n, t) ==> IsDotName(n)
    ensures forall x, n :: Has(s, x, n, d) ==> IsDotName(n)
    ensures forall t :: IsDir(s, t) && !Deleted(s, t) && t != s.root ==> Up(s, t) != d
  {
    hide Has, Up, IsDir, Deleted, Closed, Counted, Rooted, DottedAt, IsDotName;
    DeletedIsDir(s, d);
    forall t | IsDir(s, t) && !Deleted(s, t) && t != s.root
      ensures Up(s, t) != d
    {
      OneName(s, t);
    }
  }

  lemma DeletedIsDir(s: State, d: Id)
    requires Named(s) && Deleted(s, d)
    ensures IsDir(s, d)
  {
    hide Distinct;
    assert NamedAt(s.inodes[d]);
  }
}
