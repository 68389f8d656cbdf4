/**
  The registry itself: the operations as they change the table of inodes in place, each proved to keep every
  invariant of `Registry` on each way out.
 */
module RegistryNamespace {
  import opened Options
  import opened Registry
  import opened RegistrySteps
  import opened RegistryOps
  import opened RegistryRename
  import opened RegistryPaths

  datatype Errno = Done | PlainErr | NotFound | Busy | Exists | Unsupported

  /** What the kernel allocator answers to the four requests of making an inode. */
  datatype Memory = Memory(inode: bool, entry: bool, dot: bool, dotdot: bool)

  predicate Suffices(mem: Memory, isDir: bool) {
    mem.inode && mem.entry && (isDir ==> mem.dot && mem.dotdot)
  }

  lemma FreshId(m: map<Id, Inode>)
    ensures exists id :: id !in m
  {
    var b := Beyond(m.Keys);
    assert b !in m;
  }

  lemma Beyond(ids: set<Id>) returns (b: Id)
    ensures forall i :: i in ids ==> i < b
    decreases ids
  {
    if i :| i in ids {
      var c := Beyond(ids - {i});
      b := if c > i then c else i + 1;
      forall j | j in ids
        ensures j < b
      {
        assert j == i || j in ids - {i};
      }
    } else {
      b := 0;
    }
  }

  // ---------- the table ----------

  class Namespace {
    var inodes: map<Id, Inode>
    var root: Id
    /** Inodes a file system is mounted over. */
    var covered: set<Id>
    ghost var holders: multiset<Id>

    ghost function S(): State
      reads this
    {
      State(inodes, root, holders)
    }

    /** `registry_init`, when memory lasts: the root, with both dots leading to itself. */
    constructor ()
      ensures Inv(S()) && First(S()) && covered == {}
    {
      root := 0;
      inodes := map[0 := Inode(true, 1, false, [Dirent("..", 0), Dirent(".", 0)])];
      covered := {};
      holders := multiset{};
      new;
      FirstState(S());
    }

    method FindDirent(dir: Id, name: string) returns (r: Option<Id>)
      requires dir in inodes
      ensures r == Find(inodes[dir].children, name)
    {
      var cs := inodes[dir].children;
      for k := 0 to |cs|
        invariant Find(cs, name) == Find(cs[k..], name)
      {
        if cs[k].name == name {
          return Some(cs[k].target);
        }
      }
      return None;
    }

    /** `registry_linkdirent`; `mem` says whether the allocator has room for the name and the entry. */
    method LinkDirent(dir: Id, name: string, target: Id, mem: bool) returns (ok: bool)
      requires dir in inodes && target in inodes
      modifies this`inodes
      ensures ok == (0 < |name| < MAX_NAME && mem)
      ensures S() == if ok then Put(old(S()), dir, name, target) else old(S())
    {
      if |name| == 0 || |name| >= MAX_NAME {
        return false;
      }
      if !mem {
        return false;
      }
      inodes := inodes[dir := inodes[dir].(children := [Dirent(name, target)] + inodes[dir].children)];
      if target != dir {
        inodes := inodes[target := inodes[target].(refcount := inodes[target].refcount + 1)];
      }
      return true;
    }

    /** `dirent_detach`: the reference the entry had is in the caller's hands now. */
    method DetachEntry(dir: Id, name: string) returns (r: Option<Id>)
      requires dir in inodes
      modifies this`inodes, this`holders
      ensures r == Find(old(inodes)[dir].children, name)
      ensures S() == Detach(old(S()), dir, name)
    {
      var cs := inodes[dir].children;
      var k := 0;
      while k < |cs| && cs[k].name != name
        invariant k <= |cs| && Find(cs, name) == Find(cs[k..], name)
        invariant Without(cs, name) == cs[..k] + Without(cs[k..], name)
      {
        assert cs[..k + 1] == cs[..k] + [cs[k]];
        k := k + 1;
      }
      if k == |cs| {
        return None;
      }
      assert Without(cs, name) == cs[..k] + cs[k + 1..];
      inodes := inodes[dir := inodes[dir].(children := cs[..k] + cs[k + 1..])];
      holders := if cs[k].target == dir then holders else holders + multiset{cs[k].target};
      return Some(cs[k].target);
    }

    /** `inode_ref` by somebody outside the graph. */
    method Retain(i: Id)
      requires i in inodes
      modifies this`inodes, this`holders
      ensures S() == Hold(old(S()), i)
    {
      inodes := inodes[i := inodes[i].(refcount := inodes[i].refcount + 1)];
      holders := holders + multiset{i};
    }

    /** `inode_unref`. */
    method InodeUnref(i: Id)
      requires i in inodes
      modifies this`inodes, this`holders
      ensures S() == Unref(old(S()), i)
      ensures root == old(root) && |inodes| <= |old(inodes)|
      decreases |inodes|
    {
      var x := inodes[i].(refcount := inodes[i].refcount - 1);
      holders := holders - multiset{i};
      if x.refcount != 0 {
        inodes := inodes[i := x];
        return;
      }
      // registry_destroy: the entries of a directory give up their references
      ghost var s := old(S());
      assert (inodes - {i}).Keys == inodes.Keys - {i};
      assert |(inodes - {i}).Keys| < |inodes.Keys|;
      inodes := inodes - {i};
      ghost var s1 := S();
      if x.isDir {
        var ds := x.children;
        for k := 0 to |ds|
          invariant UnrefAll(s1, i, ds) == UnrefAll(S(), i, ds[k..])
          invariant |inodes| < |old(inodes)| && root == old(root)
        {
          var t := ds[k].target;
          if t != i && t in inodes {
            holders := holders + multiset{t};
            InodeUnref(t);
          }
        }
      }
    }

    method DirIsEmpty(dir: Id) returns (empty: bool)
      requires dir in inodes
      ensures empty <==> OnlyDots(inodes[dir].children)
    {
      var cs := inodes[dir].children;
      for k := 0 to |cs|
        invariant OnlyDots(cs[..k])
      {
        if !IsDotName(cs[k].name) {
          return false;
        }
        assert cs[..k + 1] == cs[..k] + [cs[k]];
      }
      assert cs[..|cs|] == cs;
      return true;
    }

    /** `dir_has_ancestor`: the climb ends because `..` leads to the root from everywhere. */
    method DirHasAncestor(dir: Id, ancestor: Id) returns (below: bool)
      requires Inv(S()) && IsDir(S(), dir)
      ensures below <==> Above(S(), dir, ancestor)
    {
      hide Climbs, Inv, OnClimb, Above;
      ghost var total := ClimbOf(S(), dir);
      ghost var n := total;
      var d := dir;
      while true
        invariant Climbs(S(), d, n) && IsDir(S(), d)
        invariant OnClimb(S(), dir, ancestor, total) == OnClimb(S(), d, ancestor, n)
        decreases n
      {
        AboveIs(S(), dir, ancestor, total);
        ClimbStep(S(), d, ancestor, n);
        if d == ancestor {
          return true;
        }
        var up := FindDirent(d, "..");
        UpFound(S(), d);
        if up == None || up.value == d {
          return false;
        }
        d, n := up.value, n - 1;
      }
    }

    /** `registry_unlink`. */
    method Unlink(dir: Id, name: string) returns (rc: Errno)
      requires Inv(S()) && dir in inodes
      modifies this`inodes, this`holders
      ensures Inv(S()) && S().holders == old(S()).holders
      ensures rc == Done <==> UnlinkAllowed(old(S()), covered, dir, name)
      ensures rc != Done ==> S() == old(S())
      ensures rc == Done ==> EntryGone(old(S()), S(), dir, name)
      ensures rc == Done || rc == PlainErr || rc == Busy
      ensures rc == PlainErr <==>
                || !IsDir(old(S()), dir)
                || (name != "." && name != ".." && !Deleted(old(S()), dir) && forall t :: !Has(old(S()), dir, name, t))
    {
      FindHas(S(), dir, name);
      hide Inv, EntryGone, Detach, Unref, Marked, CutOff, Cuttable;
      if !inodes[dir].isDir {
        return PlainErr;
      }
      if IsDotName(name) || inodes[dir].deleted {
        return Busy;
      }
      var d := FindDirent(dir, name);
      if d == None {
        return PlainErr;
      }
      var t := d.value;
      EntryThere(S(), dir, name, t);
      if t in covered {
        return Busy;
      }
      if inodes[t].isDir {
        var empty := DirIsEmpty(t);
        if !empty {
          return Busy;
        }
      }
      CanCut(S(), dir, name, t);
      UnlinkKeeps(S(), dir, name, t);
      UnlinkedIs(S(), dir, name, t);
      CutEntry(dir, name, t);
      return Done;
    }

    /** Takes an entry out, marks a directory it named as deleted, and drops the entry's reference. */
    method CutEntry(dir: Id, name: string, t: Id)
      requires Inv(S()) && Cuttable(S(), dir, name, t)
      modifies this`inodes, this`holders
      ensures t in CutOff(old(S()), dir, name, t).inodes && S() == Unref(CutOff(old(S()), dir, name, t), t)
    {
      hide Inv, Unref, OnlyDots;
      CutWhat(S(), dir, name, t);
      var d := DetachEntry(dir, name);
      if inodes[t].isDir {
        inodes := inodes[t := inodes[t].(deleted := true)];
      }
      InodeUnref(t);
    }

    /** `registry_link` in the native tree. */
    method Link(target: Id, dir: Id, name: string, mem: bool) returns (rc: Errno)
      requires Inv(S()) && dir in inodes && target in inodes && Clean(name)
      modifies this`inodes
      ensures Inv(S())
      ensures rc == Done <==> LinkAllowed(old(S()), target, dir, name) && mem
      ensures rc != Done ==> S() == old(S())
      ensures rc == Done ==> EntryNew(old(S()), S(), dir, name, target)
      ensures rc == PlainErr <==> |name| == 0 || |name| > 255 || (LinkAllowed(old(S()), target, dir, name) && !mem)
      ensures rc == NotFound <==> 0 < |name| < 256 && !IsDir(old(S()), dir)
      ensures rc == Busy <==> 0 < |name| < 256 && Deleted(old(S()), dir)
      ensures rc == Unsupported <==>
                && 0 < |name| < 256 && IsDir(old(S()), dir) && !Deleted(old(S()), dir)
                && (name == "." || name == ".." || IsDir(old(S()), target))
      ensures rc == Exists <==>
                && 0 < |name| < 256 && IsDir(old(S()), dir) && !Deleted(old(S()), dir)
                && name != "." && name != ".." && !IsDir(old(S()), target) && exists t :: Has(old(S()), dir, name, t)
    {
      FindHas(S(), dir, name);
      DeletedDirs(S(), dir);
      hide Inv, EntryNew, Put;
      if |name| == 0 || |name| >= MAX_NAME {
        return PlainErr;
      }
      if !inodes[dir].isDir {
        return NotFound;
      }
      if inodes[dir].deleted {
        return Busy;
      }
      if IsDotName(name) || inodes[target].isDir {
        return Unsupported;
      }
      var d := FindDirent(dir, name);
      if d != None {
        return Exists;
      }
      LinkKeeps(S(), dir, name, target);
      LinkedIs(S(), dir, name, target);
      var ok := LinkDirent(dir, name, target, mem);
      if !ok {
        return PlainErr;
      }
      return Done;
    }

    /**
      `registry_rename` in the native tree. `mid` is the state in which the new name is free, because it was or
      because what stood there has been cut out.
     */
    method Rename(od: Id, on: string, nd: Id, nn: string, mem: bool) returns (rc: Errno)
      requires Inv(S()) && od in inodes && nd in inodes && Clean(on) && Clean(nn)
      modifies this`inodes, this`holders
      ensures Inv(S()) && S().holders == old(S()).holders
      ensures rc == Done <==> RenameAllowed(old(S()), covered, od, on, nd, nn, mem)
      ensures rc == Done ==>
                if RenameIsNothing(old(S()), od, on, nd, nn) then S() == old(S())
                else Renamed(old(S()), S(), od, on, nd, nn)
      ensures rc != Done ==>
                if RenameAllowed(old(S()), covered, od, on, nd, nn, true) && Find(Kids(old(S()), nd), nn).Some?
                then S() != old(S()) && EntryGone(old(S()), S(), nd, nn)
                else S() == old(S())
      ensures rc != Exists
      ensures rc == PlainErr <==>
                && IsDir(old(S()), od) && IsDir(old(S()), nd)
                && (|on| == 0 || |nn| == 0 || |on| > 255 || |nn| > 255
                    || (RenameAllowed(old(S()), covered, od, on, nd, nn, true) && !RenameAllowed(old(S()), covered, od, on, nd, nn, mem)))
      ensures rc == NotFound <==>
                || !IsDir(old(S()), od) || !IsDir(old(S()), nd)
                || (RenameNames(old(S()), od, on, nd, nn) && Find(Kids(old(S()), od), on) == None
                    && !CoveredAt(old(S()), covered, nd, nn))
      ensures rc == Unsupported <==>
                && RenameNames(old(S()), od, on, nd, nn) && Find(Kids(old(S()), od), on).Some? && Find(Kids(old(S()), nd), nn).Some?
                && !CoveredAt(old(S()), covered, od, on) && !CoveredAt(old(S()), covered, nd, nn)
                && var m, t := Find(Kids(old(S()), od), on).value, Find(Kids(old(S()), nd), nn).value;
                   IsDir(old(S()), m) != IsDir(old(S()), t) && (IsDir(old(S()), m) ==> !Above(old(S()), nd, m))
    {
      hide Inv, EntryGone, Renamed, CutOff, Unref, Movable, Moved, Above, Cuttable;
      if !inodes[od].isDir || !inodes[nd].isDir {
        return NotFound;
      }
      if |on| == 0 || |nn| == 0 || |on| >= MAX_NAME || |nn| >= MAX_NAME {
        return PlainErr;
      }
      if inodes[od].deleted || inodes[nd].deleted {
        return Busy;
      }
      if IsDotName(on) || IsDotName(nn) {
        return Busy;
      }
      if od == nd && on == nn {
        return Done;
      }
      var src := FindDirent(od, on);
      if src.Some? && src.value in covered {
        return Busy;
      }
      var dst := FindDirent(nd, nn);
      if dst.Some? && dst.value in covered {
        return Busy;
      }
      if src == None {
        return NotFound;
      }
      var m := src.value;
      EntryThere(S(), od, on, m);
      var isDir := inodes[m].isDir;
      if isDir {
        var below := DirHasAncestor(nd, m);
        if below {
          return Busy;
        }
      }
      ghost var s := S();
      if dst.Some? {
        var t := dst.value;
        EntryThere(S(), nd, nn, t);
        if t == m {
          return Done;
        }
        if isDir != inodes[t].isDir {
          return Unsupported;
        }
        if inodes[t].isDir {
          var empty := DirIsEmpty(t);
          if !empty {
            return Busy;
          }
        }
        CanCut(S(), nd, nn, t);
        UnlinkKeeps(S(), nd, nn, t);
        UnlinkedIs(S(), nd, nn, t);
        StillMovable(S(), Unref(CutOff(S(), nd, nn, t), t), od, on, nd, nn, m, t);
        CutEntry(nd, nn, t);
      } else {
        CanMove(S(), od, on, nd, nn, m);
      }
      ghost var mid := S();
      MovableThere(mid, od, on, nd, nn, m);
      if !mem {
        var none := LinkDirent(nd, nn, m, mem);
        return PlainErr;
      }
      Move(od, on, nd, nn, m);
      MovedKeeps(mid, od, on, nd, nn, m);
      RenamedIs(s, mid, od, on, nd, nn, m);
      return Done;
    }

    /** The last part of `registry_rename`: the new name first, then the old one goes, then `..` follows. */
    method Move(od: Id, on: string, nd: Id, nn: string, m: Id)
      requires Inv(S()) && Movable(S(), od, on, nd, nn, m)
      modifies this`inodes, this`holders
      ensures od in old(inodes) && nd in old(inodes) && m in old(inodes)
      ensures S() == Moved(old(S()), od, on, nd, nn, m)
    {
      hide Inv, Unref, Movable, Above, Find, Put, Detach, Lowered, Reparented, IsDir;
      ghost var s := S();
      MovableThere(s, od, on, nd, nn, m);
      RelinkedBase(s, od, on, nd, nn, m);
      MovedBase(s, od, on, nd, nn, m);
      var ok := LinkDirent(nd, nn, m, true);
      PutAt(s, nd, nn, m);
      var gone := DetachEntry(od, on);
      InodeUnref(m);
      RelinkedKinds(s, od, on, nd, nn, m);
      if inodes[m].isDir && od != nd {
        UpAfter(s, od, on, nd, nn, m);
        Follow(m, od, nd);
      }
    }

    /** Leads `..` of `m` from `od` to `nd`, with the references that go with it. */
    method Follow(m: Id, od: Id, nd: Id)
      requires m in inodes && nd in inodes && od != nd && Find(inodes[m].children, "..") == Some(od) && Up(S(), m) == od
      requires od in Reparented(S(), m, nd).inodes
      modifies this`inodes, this`holders
      ensures S() == Unref(Reparented(old(S()), m, nd), od)
    {
      hide Unref, Find;
      ghost var r := S();
      var up := FindDirent(m, "..");
      if up.Some? && up.value != nd {
        var oldParent := up.value;
        Retain(nd);
        UpHeld(r, m, nd);
        inodes := inodes[m := inodes[m].(children := Retarget(inodes[m].children, "..", nd))];
        holders := holders - multiset{nd} + multiset{oldParent};
        InodeUnref(oldParent);
      }
    }

    /** The creating step of `walk`: an inode, its entry, its two dots if it is a directory; or none of it. */
    method MakeEntry(cur: Id, name: string, isDir: bool, mem: Memory) returns (r: Option<Id>)
      requires Inv(S()) && cur in inodes && IsDir(S(), cur) && !Deleted(S(), cur)
      requires Clean(name) && Find(inodes[cur].children, name) == None
      modifies this`inodes, this`holders
      ensures r.Some? <==> 0 < |name| < MAX_NAME && Suffices(mem, isDir)
      ensures r.Some? ==> r.value !in old(inodes) && cur in old(inodes) && S() == Made(old(S()), cur, name, r.value, isDir)
      ensures r.None? ==> S() == old(S())
      ensures Inv(S()) && S().holders == old(S()).holders
    {
      hide Inv, Put, Detach, Unref, Made, IsDir, Deleted;
      if !mem.inode {
        return None;
      }
      ghost var s := S();
      FreshId(inodes);
      var id :| id !in inodes;
      inodes := inodes[id := Inode(isDir, 1, false, [])];
      holders := holders + multiset{id};
      ghost var a := S();
      assert a == Alloc(s, id, isDir);
      var entry := LinkDirent(cur, name, id, mem.entry);
      if !entry {
        AllocUndone(s, id, isDir);
        InodeUnref(id);
        return None;
      }
      ghost var p := S();
      MakingAt(s, cur, name, id, isDir);
      if isDir {
        var dot := LinkDirent(id, ".", id, mem.dot);
        var dotdot := false;
        if dot {
          PutAt(p, id, ".", id);
          dotdot := LinkDirent(id, "..", cur, mem.dotdot);
        }
        if !dotdot {
          NothingYet(p, id);
          DotUndone(p, id);
          var self := DetachEntry(id, ".");
          var parent := DetachEntry(id, "..");
          assert S() == p;
          MakingUndone(s, cur, name, id, isDir);
          var e := DetachEntry(cur, name);
          InodeUnref(id);
          InodeUnref(id);
          return None;
        }
      }
      MadeKeeps(s, cur, name, id, isDir);
      MadeByDrop(s, cur, name, id, isDir);
      InodeUnref(id);
      return Some(id);
    }

    /** `walk`: follows a path and, when asked to, makes its last component. */
    method WalkPath(start: Id, path: string, create: bool, isDir: bool, mem: Memory) returns (r: Option<Id>)
      requires Inv(S()) && start in inodes && '\0' !in path
      modifies this`inodes, this`holders
      ensures Inv(S()) && S().holders == old(S()).holders
      ensures WalkOutcome(old(S()), S(), Walk(old(S()), covered, start, path, create), isDir, mem, r)
      ensures !create ==> forall t :: r == Some(t) <==>
                path != "" && Resolves(old(S()), covered, start, path, t) && (path[|path| - 1] == '/' ==> IsDir(old(S()), t))
      ensures S() != old(S()) ==> create && MadeSomewhere(old(S()), S(), covered, start, path, isDir)
    {
      hide Inv, Walk, WalkOutcome, Resolves, MadeSomewhere, IsDir;
      WalkMeans(S(), covered, start, path, create, isDir, mem);
      r := WalkSteps(start, path, create, isDir, mem);
    }

    /** The walk itself, component by component. */
    method WalkSteps(start: Id, path: string, create: bool, isDir: bool, mem: Memory) returns (r: Option<Id>)
      requires Inv(S()) && start in inodes && '\0' !in path
      modifies this`inodes, this`holders
      ensures Inv(S()) && S().holders == old(S()).holders
      ensures WalkOutcome(old(S()), S(), Walk(old(S()), covered, start, path, create), isDir, mem, r)
    {
      hide Inv, IsDir, Deleted, Made, WalkFrom, SegLen, Find, Suffices;
      if path == "" {
        return None;
      }
      var cur := if path[0] == '/' then root else start;
      RootIn(S());
      if cur in covered {
        return None; // the path goes on in the file system mounted here
      }
      var p := if path[0] == '/' then 1 else 0;
      ghost var rest := path[p..];
      ghost var f := WalkFrom(S(), covered, cur, rest, create);
      assert path[0] != '/' ==> path[0..] == path;
      while p < |path|
        invariant p <= |path| && cur in inodes && unchanged(this)
        invariant WalkFrom(S(), covered, cur, path[p..], create) == f
      {
        var q := SegEnd(path, p);
        WalkStep(S(), covered, cur, path, p, create);
        if q == p {
          p := p + 1;
          continue;
        }
        var isLast := q == |path|;
        KindOf(S(), cur);
        if !inodes[cur].isDir {
          return None;
        }
        var name := path[p..q];
        var child := FindDirent(cur, name);
        assert inodes[cur].children == Kids(S(), cur);
        if child == None {
          if isLast && create {
            if inodes[cur].deleted {
              return None;
            }
            r := MakeEntry(cur, name, isDir, mem);
            return;
          }
          return None;
        }
        if isLast && create {
          return None;
        }
        if child.value in covered {
          return None; // the path goes on in the file system mounted here
        }
        EntryThere(S(), cur, name, child.value);
        cur := child.value;
        p := if q < |path| then q + 1 else q;
      }
      WalkEnd(S(), covered, cur, path, p, create);
      KindOf(S(), cur);
      if |path| > 1 && path[|path| - 1] == '/' && !inodes[cur].isDir {
        return None;
      }
      return Some(cur);
    }
  }

  // ---------- what the operations promise ----------

  /** What `walk` does with where the path leads. */
  ghost predicate WalkOutcome(s: State, r: State, f: Found, isDir: bool, mem: Memory, out: Option<Id>) {
    match f
    case At(id) => out == Some(id) && r == s
    case Missing => out == None && r == s
    case Outside => out == None && r == s
    case Free(dir, name) =>
      if GoodName(name) && Suffices(mem, isDir)
      then out.Some? && out.value !in s.inodes && dir in s.inodes && r == Made(s, dir, name, out.value, isDir)
      else out == None && r == s
  }

  /** What a walk comes to, by what the path means. */
  lemma WalkMeans(s: State, covered: set<Id>, start: Id, path: string, create: bool, isDir: bool, mem: Memory)
    requires Inv(s)
    ensures forall r, out :: WalkOutcome(s, r, Walk(s, covered, start, path, create), isDir, mem, out) ==>
              && (r != s ==> create && MadeSomewhere(s, r, covered, start, path, isDir))
              && (!create ==> forall t :: out == Some(t) <==>
                    path != "" && Resolves(s, covered, start, path, t) && (path[|path| - 1] == '/' ==> IsDir(s, t)))
  {
    hide Inv, Walk, Resolves, MadeSomewhere, IsDir, Made, Suffices, GoodName;
    var f := Walk(s, covered, start, path, create);
    forall r, out | WalkOutcome(s, r, f, isDir, mem, out)
      ensures r != s ==> create && MadeSomewhere(s, r, covered, start, path, isDir)
      ensures !create ==> forall t :: out == Some(t) <==>
                path != "" && Resolves(s, covered, start, path, t) && (path[|path| - 1] == '/' ==> IsDir(s, t))
    {
      if create {
        if r != s {
          FreeIsMade(s, r, covered, start, path, isDir, out.value);
        }
      } else {
        NoneFree(s, covered, start, path);
        forall t
          ensures out == Some(t) <==>
                  path != "" && Resolves(s, covered, start, path, t) && (path[|path| - 1] == '/' ==> IsDir(s, t))
        {
          WalkExactly(s, covered, start, path, t);
        }
      }
    }
  }

  lemma NoneFree(s: State, covered: set<Id>, start: Id, path: string)
    ensures !Walk(s, covered, start, path, false).Free?
  {
    hide WalkFrom;
    if path != "" {
      NothingFree(s, covered, if path[0] == '/' then s.root else start, if path[0] == '/' then path[1..] else path);
    }
  }

  /** The end of the component that starts at `p`. */
  method SegEnd(path: string, p: nat) returns (q: nat)
    requires p <= |path|
    ensures p <= q <= |path| && q - p == SegLen(path[p..])
  {
    q := p;
    while q < |path| && path[q] != '/'
      invariant p <= q <= |path| && SegLen(path[p..]) == q - p + SegLen(path[q..])
    {
      assert path[q..][1..] == path[q + 1..];
      q := q + 1;
    }
  }

  lemma RootIn(s: State)
    requires Inv(s)
    ensures s.root in s.inodes
  {
  }

  lemma KindOf(s: State, i: Id)
    requires i in s.inodes
    ensures IsDir(s, i) == s.inodes[i].isDir && Deleted(s, i) == s.inodes[i].deleted
  {
  }

  /** The state just after the entry has been linked. */
  lemma MakingAt(s: State, cur: Id, name: string, id: Id, isDir: bool)
    requires cur in s.inodes && id !in s.inodes
    ensures var p := Put(Alloc(s, id, isDir), cur, name, id);
            id in p.inodes && cur in p.inodes && p.inodes[id] == Inode(isDir, 2, false, [])
  {
  }

  lemma NothingYet(p: State, id: Id)
    requires id in p.inodes && p.inodes[id].children == []
    ensures Detach(p, id, ".") == p && Detach(p, id, "..") == p
  {
  }

  lemma MadeByDrop(s: State, cur: Id, name: string, id: Id, isDir: bool)
    requires cur in s.inodes && id !in s.inodes
    ensures var p := Put(Alloc(s, id, isDir), cur, name, id);
            && cur in p.inodes && id in p.inodes
            && var q := if isDir then Put(Put(p, id, ".", id), id, "..", cur) else p;
               id in q.inodes && Unref(q, id) == Made(s, cur, name, id, isDir)
  {
    hide Unref;
    var p := Put(Alloc(s, id, isDir), cur, name, id);
    var q := if isDir then Put(Put(p, id, ".", id), id, "..", cur) else p;
    PlainDrop(q, id);
  }

  /** What `registry_unlink` agrees to. */
  predicate UnlinkAllowed(s: State, covered: set<Id>, dir: Id, name: string) {
    && IsDir(s, dir) && !Deleted(s, dir) && !IsDotName(name)
    && match Find(Kids(s, dir), name)
       case None => false
       case Some(t) => t !in covered && (IsDir(s, t) ==> OnlyDots(Kids(s, t)))
  }

  /**
    The entry is gone. No other entry of a directory that is left has changed, and an inode that is not left is the
    one the entry named, or a directory deleted before.
   */
  ghost predicate EntryGone(s: State, r: State, dir: Id, name: string) {
    && r.root == s.root && dir in r.inodes
    && (forall x :: x in r.inodes ==> x in s.inodes)
    && (forall x, n, u :: x in r.inodes ==> (Has(r, x, n, u) <==> Has(s, x, n, u) && !(x == dir && n == name)))
    && (forall x :: x in r.inodes ==> IsDir(r, x) == IsDir(s, x) && Up(r, x) == Up(s, x))
    && (forall x :: x in r.inodes ==> (Deleted(r, x) <==> Deleted(s, x) || (Has(s, dir, name, x) && IsDir(s, x))))
    && (forall x :: x in s.inodes && x !in r.inodes ==> Has(s, dir, name, x) || Deleted(s, x))
  }

  predicate LinkAllowed(s: State, t: Id, dir: Id, name: string) {
    && GoodName(name) && !IsDotName(name) && IsDir(s, dir) && !Deleted(s, dir) && !IsDir(s, t)
    && Find(Kids(s, dir), name) == None
  }

  /** One entry is new, and everything else is as it was. */
  ghost predicate EntryNew(s: State, r: State, dir: Id, name: string, t: Id) {
    && SameKinds(s, r)
    && (forall x, n, u :: Has(r, x, n, u) <==> Has(s, x, n, u) || (x == dir && n == name && u == t))
    && (forall x :: Deleted(r, x) == Deleted(s, x))
  }

  /** Nothing is to be done: both names are one entry, or lead to one inode. */
  predicate RenameIsNothing(s: State, od: Id, on: string, nd: Id, nn: string) {
    (od == nd && on == nn) || (Find(Kids(s, nd), nn).Some? && Find(Kids(s, nd), nn) == Find(Kids(s, od), on))
  }

  /** Two different names, neither a dot, in two directories that have not been deleted. */
  predicate RenameNames(s: State, od: Id, on: string, nd: Id, nn: string) {
    && IsDir(s, od) && IsDir(s, nd) && !Deleted(s, od) && !Deleted(s, nd)
    && 0 < |on| < 256 && 0 < |nn| < 256 && on != "." && on != ".." && nn != "." && nn != ".."
    && !(od == nd && on == nn)
  }

  /** The name leads to a directory under which another file system is mounted. */
  predicate CoveredAt(s: State, covered: set<Id>, d: Id, name: string) {
    Find(Kids(s, d), name).Some? && Find(Kids(s, d), name).value in covered
  }

  /** What `registry_rename` agrees to. */
  ghost predicate RenameAllowed(s: State, covered: set<Id>, od: Id, on: string, nd: Id, nn: string, mem: bool) {
    && IsDir(s, od) && IsDir(s, nd) && !Deleted(s, od) && !Deleted(s, nd)
    && 0 < |on| < MAX_NAME && 0 < |nn| < MAX_NAME && !IsDotName(on) && !IsDotName(nn)
    && ((od == nd && on == nn)
        || match Find(Kids(s, od), on)
           case None => false
           case Some(m) =>
             && m !in covered && (IsDir(s, m) ==> !Above(s, nd, m))
             && match Find(Kids(s, nd), nn)
                case None => mem
                case Some(t) =>
                  t !in covered && (t == m || (mem && IsDir(s, m) == IsDir(s, t) && (IsDir(s, t) ==> OnlyDots(Kids(s, t))))))
  }

  /**
    The new name leads to what the old one led to, the old one is gone, the `..` of a moved directory leads to its
    new parent, and no other entry of what is left has changed.
   */
  ghost predicate Renamed(s: State, r: State, od: Id, on: string, nd: Id, nn: string) {
    && Find(Kids(s, od), on).Some? && r.root == s.root
    && var m := Find(Kids(s, od), on).value;
       && od in r.inodes && nd in r.inodes && m in r.inodes
       && (forall x :: x in r.inodes ==> x in s.inodes)
       && (forall x, n, u :: x in r.inodes ==> (Has(r, x, n, u) <==> AfterRename(s, od, on, nd, nn, m, x, n, u)))
       && (forall x :: x in s.inodes && x !in r.inodes ==> Has(s, nd, nn, x) || Deleted(s, x))
  }

  ghost predicate AfterRename(s: State, od: Id, on: string, nd: Id, nn: string, m: Id, x: Id, n: string, u: Id) {
    if x == nd && n == nn then u == m
    else if IsDir(s, m) && x == m && n == ".." then u == nd
    else Has(s, x, n, u) && !(x == od && n == on)
  }

  lemma DeletedDirs(s: State, d: Id)
    requires Inv(s)
    ensures Deleted(s, d) ==> IsDir(s, d)
  {
    hide Distinct, Tree, Closed, Counted;
    if Deleted(s, d) {
      assert NamedAt(s.inodes[d]);
    }
  }

  lemma MovableThere(s: State, od: Id, on: string, nd: Id, nn: string, m: Id)
    requires Movable(s, od, on, nd, nn, m)
    ensures od in s.inodes && nd in s.inodes && m in s.inodes && 0 < |nn| < MAX_NAME
  {
  }

  lemma CanMove(s: State, od: Id, on: string, nd: Id, nn: string, m: Id)
    requires Inv(s) && od in s.inodes && nd in s.inodes && m in s.inodes && GoodName(nn)
    requires s.inodes[od].isDir && s.inodes[nd].isDir && !s.inodes[od].deleted && !s.inodes[nd].deleted
    requires !IsDotName(on) && !IsDotName(nn)
    requires Find(s.inodes[od].children, on) == Some(m) && Find(s.inodes[nd].children, nn) == None
    requires s.inodes[m].isDir ==> !Above(s, nd, m)
    ensures Movable(s, od, on, nd, nn, m)
  {
    hide Inv, Above;
  }

  /** Cutting out what stood under the new name leaves the move possible. */
  lemma StillMovable(s: State, r: State, od: Id, on: string, nd: Id, nn: string, m: Id, t: Id)
    requires od in s.inodes && nd in s.inodes && m in s.inodes && GoodName(nn) && m != t
    requires s.inodes[od].isDir && s.inodes[nd].isDir && !s.inodes[od].deleted && !s.inodes[nd].deleted
    requires !IsDotName(on) && Find(s.inodes[od].children, on) == Some(m) && !(od == nd && on == nn)
    requires s.inodes[m].isDir ==> !Above(s, nd, m)
    requires Cuttable(s, nd, nn, t) && Inv(s) && Inv(r) && EntryGone(s, r, nd, nn)
    ensures Movable(r, od, on, nd, nn, m)
  {
    hide Inv, Above, EntryGone, Has, Up, Find;
    EntryThere(s, od, on, m);
    StillThere(s, r, od, on, nd, nn, m, t);
    FindAfter(s, r, od, on, nd, nn, m, t);
    if IsDir(s, m) {
      AboveAfter(s, r, nd, nn, m);
    }
  }

  lemma StillThere(s: State, r: State, od: Id, on: string, nd: Id, nn: string, m: Id, t: Id)
    requires Has(s, od, on, m) && od in s.inodes && nd in s.inodes && m in s.inodes && m != t && !IsDotName(on)
    requires IsDir(s, od) && IsDir(s, nd) && !Deleted(s, od) && !Deleted(s, nd)
    requires Cuttable(s, nd, nn, t) && Inv(s) && EntryGone(s, r, nd, nn)
    ensures od in r.inodes && nd in r.inodes && m in r.inodes
    ensures IsDir(r, od) && IsDir(r, nd) && !Deleted(r, od) && !Deleted(r, nd) && IsDir(r, m) == IsDir(s, m)
  {
    hide Up, Climbs, Closed, Counted, Distinct, Kids, Find, Has, DottedAt;
    CutFacts(s, nd, nn, t);
    FilesNotDeleted(s, m);
  }

  lemma FilesNotDeleted(s: State, m: Id)
    requires Named(s) && m in s.inodes
    ensures !IsDir(s, m) ==> !Deleted(s, m)
  {
    hide Distinct;
    assert NamedAt(s.inodes[m]);
  }

  lemma FindAfter(s: State, r: State, od: Id, on: string, nd: Id, nn: string, m: Id, t: Id)
    requires Has(s, od, on, m) && !(od == nd && on == nn) && od in r.inodes && nd in r.inodes
    requires Inv(r) && EntryGone(s, r, nd, nn)
    ensures Find(Kids(r, od), on) == Some(m) && Find(Kids(r, nd), nn) == None
  {
    hide Tree, Closed, Counted, Distinct, Kids, Find, Has;
    FindHas(r, od, on);
    FindHas(r, nd, nn);
    assert forall u :: !Has(r, nd, nn, u);
  }

  lemma AboveAfter(s: State, r: State, nd: Id, nn: string, m: Id)
    requires Inv(r) && EntryGone(s, r, nd, nn) && IsDir(r, nd) && !Above(s, nd, m) && Inv(s) && IsDir(s, nd)
    ensures !Above(r, nd, m)
  {
    hide Base, Has, Climbs, OnClimb, Up, Dotted, Parented, NamedOnce, Attached, Emptied, IsDir;
    assert ReachesRoot(r, nd);
    var n: nat :| Climbs(r, nd, n);
    AboveIs(r, nd, m, n);
    UpsAgree(s, r, nd, nn);
    SameOnClimb(s, r, nd, m, n);
    ClimbBack(s, r, nd, n);
    AboveIs(s, nd, m, n);
  }

  lemma UpsAgree(s: State, r: State, nd: Id, nn: string)
    requires EntryGone(s, r, nd, nn)
    ensures r.root == s.root && forall x :: IsDir(r, x) ==> IsDir(s, x) && Up(r, x) == Up(s, x)
  {
    hide Has, Up;
  }

  lemma {:induction false} ClimbBack(s: State, r: State, d: Id, n: nat)
    requires Climbs(r, d, n) && r.root == s.root && forall x :: IsDir(r, x) ==> IsDir(s, x) && Up(r, x) == Up(s, x)
    ensures Climbs(s, d, n)
    decreases n
  {
    hide IsDir, Up;
    if n > 0 {
      ClimbBack(s, r, Up(r, d), n - 1);
    }
  }

  /** Between taking the old name out and leading `..` elsewhere, `..` still leads to the old parent. */
  lemma UpAfter(s: State, od: Id, on: string, nd: Id, nn: string, m: Id)
    requires Movable(s, od, on, nd, nn, m) && Inv(s) && IsDir(s, m)
    ensures var r := Relinked(s, od, on, nd, nn, m);
            Find(r.inodes[m].children, "..") == Some(od) && Up(r, m) == od
  {
    hide Movable, Relinked, Tree, Has, Find, Up, Distinct;
    MoveFacts(s, od, on, nd, nn, m);
    RelinkedBase(s, od, on, nd, nn, m);
    RelinkedHas(s, od, on, nd, nn, m);
    var r := Relinked(s, od, on, nd, nn, m);
    assert Has(r, m, "..", od);
    FindHas(r, m, "..");
    FoundIn(r, m, "..");
  }

  lemma RelinkedKinds(s: State, od: Id, on: string, nd: Id, nn: string, m: Id)
    requires Movable(s, od, on, nd, nn, m) && Inv(s)
    ensures var r := Relinked(s, od, on, nd, nn, m); r.inodes[m].isDir == IsDir(s, m)
  {
    hide Inv, Movable, Relinked, Up, Has;
    MoveFacts(s, od, on, nd, nn, m);
    NamedIn(s);
    RelinkedHas(s, od, on, nd, nn, m);
  }

  lemma UpHeld(r: State, m: Id, nd: Id)
    requires nd in r.inodes && m in r.inodes
    ensures Up(Hold(r, nd), m) == Up(r, m) && Hold(r, nd).inodes[m].children == r.inodes[m].children
  {
  }

  lemma RenamedIs(s: State, mid: State, od: Id, on: string, nd: Id, nn: string, m: Id)
    requires Inv(s) && Find(Kids(s, od), on) == Some(m) && !(od == nd && on == nn)
    requires Movable(mid, od, on, nd, nn, m) && Inv(mid)
    requires mid == s || EntryGone(s, mid, nd, nn)
    ensures od in mid.inodes && nd in mid.inodes && m in mid.inodes
    ensures Renamed(s, Moved(mid, od, on, nd, nn, m), od, on, nd, nn)
  {
    hide Inv, Movable, Moved, Has, Find, Kids, Up, Deleted;
    MovableThere(mid, od, on, nd, nn, m);
    MoveFacts(mid, od, on, nd, nn, m);
    MovedHas(mid, od, on, nd, nn, m);
    var r := Moved(mid, od, on, nd, nn, m);
    forall x, n, u | x in r.inodes
      ensures Has(r, x, n, u) <==> AfterRename(s, od, on, nd, nn, m, x, n, u)
    {
      assert Has(r, x, n, u) <==> MovedEdge(mid, od, on, nd, nn, m, x, n, u);
    }
  }

  lemma EntryThere(s: State, dir: Id, name: string, t: Id)
    requires Inv(s) && dir in s.inodes && Find(s.inodes[dir].children, name) == Some(t)
    ensures t in s.inodes && Find(Kids(s, dir), name) == Some(t) && Has(s, dir, name, t)
  {
    hide Tree, Counted, Distinct;
    Child(s, dir, name, t);
  }

  lemma CanCut(s: State, dir: Id, name: string, t: Id)
    requires dir in s.inodes && t in s.inodes && !IsDotName(name) && Find(Kids(s, dir), name) == Some(t)
    requires s.inodes[t].isDir ==> OnlyDots(s.inodes[t].children)
    ensures Cuttable(s, dir, name, t)
  {
  }

  /** Where the entry leads once it is taken out, and that it is still there then. */
  lemma CutWhat(s: State, dir: Id, name: string, t: Id)
    requires Cuttable(s, dir, name, t) && Inv(s)
    ensures dir in s.inodes && dir != t && t in s.inodes && Find(s.inodes[dir].children, name) == Some(t)
    ensures t in Detach(s, dir, name).inodes && CutOff(s, dir, name, t) == Marked(Detach(s, dir, name), t)
  {
    hide Base, Tree, Find;
    CutFacts(s, dir, name, t) by {
      assert Inv(s);
    }
  }

  lemma UnlinkedIs(s: State, dir: Id, name: string, t: Id)
    requires Inv(s) && Cuttable(s, dir, name, t) && IsDir(s, dir) && !Deleted(s, dir)
    ensures t in CutOff(s, dir, name, t).inodes
    ensures EntryGone(s, Unref(CutOff(s, dir, name, t), t), dir, name)
  {
    hide Base, Tree, Unref, CutOff, Has, Kids;
    CutFacts(s, dir, name, t);
    UnlinkKeeps(s, dir, name, t);
  }

  lemma LinkedIs(s: State, dir: Id, name: string, t: Id)
    requires dir in s.inodes && t in s.inodes
    ensures EntryNew(s, Put(s, dir, name, t), dir, name, t)
  {
    hide Has, Put;
    PutHas(s, dir, name, t);
  }

  /** The registry as `registry_init` leaves it. */
  ghost predicate First(s: State) {
    s == State(map[0 := Inode(true, 1, false, [Dirent("..", 0), Dirent(".", 0)])], 0, multiset{})
  }

  lemma FirstHas(s: State)
    requires First(s)
    ensures forall d, n, t :: Has(s, d, n, t) <==> d == 0 && t == 0 && (n == "." || n == "..")
    ensures Up(s, 0) == 0 && (forall d :: IsDir(s, d) <==> d == 0) && (forall d :: !Deleted(s, d)) && s.root == 0
  {
    var cs := s.inodes[0].children;
    assert cs[1..] == [Dirent(".", 0)];
    forall d, n, t
      ensures Has(s, d, n, t) <==> d == 0 && t == 0 && (n == "." || n == "..")
    {
      assert Dirent(n, t) in Kids(s, d) <==> d == 0 && (Dirent(n, t) == cs[0] || Dirent(n, t) == cs[1]);
    }
  }

  lemma FirstBase(s: State)
    requires First(s)
    ensures Base(s)
  {
    hide Has;
    FirstHas(s);
    NamersByHas(s, 0);
    forall y
      ensures y !in Namers(s, 0)
    {
      assert y == Edge(y.dir, Dirent(y.entry.name, y.entry.target));
    }
    assert Namers(s, 0) == {};
    assert NamedAt(s.inodes[0]);
  }

  lemma FirstState(s: State)
    requires First(s)
    ensures Inv(s)
  {
    FirstBase(s);
    FirstTree(s);
  }

  lemma FirstTree(s: State)
    requires First(s)
    ensures Tree(s)
  {
    hide Has, Up, IsDir, Deleted;
    FirstHas(s);
    assert Climbs(s, 0, 0);
  }

  lemma ClimbOf(s: State, d: Id) returns (n: nat)
    requires Inv(s) && IsDir(s, d)
    ensures Climbs(s, d, n)
  {
    hide Climbs, IsDir;
    assert ReachesRoot(s, d);
    n :| Climbs(s, d, n);
  }

  lemma AboveIs(s: State, d: Id, a: Id, n: nat)
    requires Climbs(s, d, n)
    ensures Above(s, d, a) <==> OnClimb(s, d, a, n)
  {
    hide Climbs, OnClimb;
    if Above(s, d, a) {
      var m: nat :| Climbs(s, d, m) && OnClimb(s, d, a, m);
      ClimbIsUnique(s, d, n, m);
    }
  }

  lemma ClimbStep(s: State, d: Id, a: Id, n: nat)
    requires Climbs(s, d, n) && Inv(s)
    ensures n == 0 <==> Up(s, d) == d
    ensures OnClimb(s, d, a, n) <==> d == a || (n > 0 && OnClimb(s, Up(s, d), a, n - 1))
    ensures n > 0 ==> Climbs(s, Up(s, d), n - 1) && IsDir(s, Up(s, d))
  {
    hide Up, Base, Parented, NamedOnce, Attached, Emptied, Rooted, DottedAt;
    if d != s.root {
      UpIsAnother(s, d, n);
    }
  }

  lemma UpFound(s: State, d: Id)
    requires Inv(s) && IsDir(s, d)
    ensures d in s.inodes && Find(s.inodes[d].children, "..") == Some(Up(s, d))
  {
    hide Up, Counted, Closed, Attached, Parented, NamedOnce, Emptied, Rooted, Find;
    DotsOf(s, d);
    UpIsFound(s, d);
    FoundIn(s, d, "..");
  }
}
