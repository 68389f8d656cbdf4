/** The path of the working directory: the climb through `..` and the walk of the path it writes undo each other. */
module Getcwd {
  import opened Options
  import opened Registry
  import opened RegistrySteps
  import opened RegistryOps
  import opened RegistryRename
  import opened RegistryPaths
  import opened RegistryNamespace
  import opened RegistryRun

  const MAX_DEPTH := 64
  const SCRATCH := 1024

  // ---------- the path of a directory ----------

  /** The name of the first entry that leads to `t`. */
  function FirstName(cs: seq<Dirent>, t: Id): Option<string> {
    if cs == [] then None
    else if cs[0].target == t then Some(cs[0].name)
    else FirstName(cs[1..], t)
  }

  lemma {:induction false} FirstNameIs(cs: seq<Dirent>, t: Id)
    ensures FirstName(cs, t).Some? ==> Dirent(FirstName(cs, t).value, t) in cs
    ensures FirstName(cs, t).None? ==> forall n :: Dirent(n, t) !in cs
  {
    if cs != [] {
      FirstNameIs(cs[1..], t);
      assert cs == [cs[0]] + cs[1..];
    }
  }

  /** What the parent calls `d`. */
  function NameIn(s: State, d: Id): string {
    match FirstName(Kids(s, Up(s, d)), d)
    case Some(n) => n
    case None => ""
  }

  /** A slash and a name for each of the `n` steps down from the root to `d`. */
  function PathTo(s: State, d: Id, n: nat): string
    decreases n
  {
    if n == 0 then "" else PathTo(s, Up(s, d), n - 1) + "/" + NameIn(s, d)
  }

  /** The path as it is written. */
  function Written(s: State, d: Id, n: nat): string {
    if n == 0 then "/" else PathTo(s, d, n)
  }

  /** Nothing is mounted over a directory on the way up from `d`. */
  ghost predicate Uncovered(s: State, covered: set<Id>, d: Id, n: nat)
    decreases n
  {
    d !in covered && (n > 0 ==> Uncovered(s, covered, Up(s, d), n - 1))
  }

  /** A directory in the tree is found under the name its parent has for it. */
  lemma NameFound(s: State, d: Id)
    requires Inv(s) && IsDir(s, d) && !Deleted(s, d) && d != s.root
    ensures FirstName(Kids(s, Up(s, d)), d) == Some(NameIn(s, d))
    ensures Find(Kids(s, Up(s, d)), NameIn(s, d)) == Some(d) && GoodName(NameIn(s, d))
    ensures IsDir(s, Up(s, d)) && !Deleted(s, Up(s, d))
  {
    hide Up, IsDir, Deleted, Inv, Kids, Find, GoodName;
    OneName(s, d);
    FirstNameIs(Kids(s, Up(s, d)), d);
    NamedIn(s);
    var n :| Has(s, Up(s, d), n, d) && !IsDotName(n);
    FindHas(s, Up(s, d), NameIn(s, d));
    GoodNames(s, Up(s, d), NameIn(s, d), d);
  }

  lemma GoodNames(s: State, d: Id, n: string, t: Id)
    requires Named(s) && Has(s, d, n, t)
    ensures GoodName(n)
  {
    hide Distinct, GoodName;
    assert NamedAt(s.inodes[d]);
  }

  /** Nothing in the parent's list leads to a directory that has been deleted. */
  lemma NameLost(s: State, d: Id)
    requires Inv(s) && Deleted(s, d)
    ensures IsDir(s, d) && d != s.root && Up(s, d) != d && FirstName(Kids(s, Up(s, d)), d) == None
  {
    hide Up, Deleted, Base, Kids, Climbs, OnClimb, Parented, NamedOnce, Attached, Emptied, IsDir, DottedAt, Has;
    DeletedIsOut(s, d);
    DeletedDir(s, d);
    DotsOf(s, d);
    assert ReachesRoot(s, d);
    var n: nat :| Climbs(s, d, n);
    UpIsAnother(s, d, n);
    NotBelow(s, d, n);
    var p := Up(s, d);
    DotsOf(s, p);
    var found := FirstName(Kids(s, p), d);
    FirstNameIs(Kids(s, p), d);
    forall m
      ensures Dirent(m, d) !in Kids(s, p)
    {
      HadEntry(s, p, m, d);
      DotTargets(s, p, m, d);
    }
  }

  lemma DeletedDir(s: State, d: Id)
    requires Inv(s) && Deleted(s, d)
    ensures IsDir(s, d) && d != s.root
  {
    hide Closed, Counted, DottedAt;
    DeletedIsDir(s, d);
  }

  /** The parent is not below the directory. */
  lemma NotBelow(s: State, d: Id, n: nat)
    requires Climbs(s, d, n) && d != s.root && Up(s, s.root) == s.root
    ensures Up(s, Up(s, d)) != d
  {
    hide Up, IsDir;
    if Up(s, Up(s, d)) == d && n > 1 {
      ClimbIsUnique(s, d, n, n - 2);
    }
  }

  lemma DotTargets(s: State, p: Id, m: string, d: Id)
    requires Inv(s) && IsDir(s, p)
    ensures Has(s, p, m, d) && IsDotName(m) ==> d == p || d == Up(s, p)
  {
    hide Up, Has, Closed, Counted, DottedAt, NamedAt;
    DotsLead(s, p);
  }

  // ---------- walking the path ----------

  /** The path of a directory in the tree, walked from the root, leads to it. */
  lemma {:induction false} PathLeads(s: State, covered: set<Id>, d: Id, n: nat)
    requires Inv(s) && Climbs(s, d, n) && !Deleted(s, d) && Uncovered(s, covered, d, n)
    ensures WalkFrom(s, covered, s.root, PathTo(s, d, n), false) == At(d)
    decreases n
  {
    hide Up, Inv, Deleted, Kids, Find, NameIn, WalkFrom, IsDir;
    if n == 0 {
      WalkNothing(s, covered, s.root);
    } else {
      NameFound(s, d);
      PathLeads(s, covered, Up(s, d), n - 1);
      WalkOn(s, covered, s.root, PathTo(s, Up(s, d), n - 1), NameIn(s, d), false);
      WalkName(s, covered, Up(s, d), NameIn(s, d), d);
    }
  }

  lemma PathShape(s: State, d: Id, n: nat)
    requires Inv(s) && Climbs(s, d, n) && !Deleted(s, d) && n > 0
    ensures PathTo(s, d, n) != "" && PathTo(s, d, n)[0] == '/'
    ensures PathTo(s, d, n)[|PathTo(s, d, n)| - 1] != '/'
    decreases n
  {
    hide Up, Inv, Deleted, Kids, Find, NameIn, IsDir;
    NameFound(s, d);
    var name := NameIn(s, d);
    assert name[|name| - 1] in name;
    if n > 1 {
      ClimbsUp(s, d, n);
      PathShape(s, Up(s, d), n - 1);
    }
  }

  lemma ClimbsUp(s: State, d: Id, n: nat)
    requires Climbs(s, d, n) && n > 0
    ensures Climbs(s, Up(s, d), n - 1) && d != s.root
  {
  }

  /** Resolving the path that is written for a directory in the tree gives back that directory, from anywhere. */
  lemma LiveResolves(s: State, covered: set<Id>, start: Id, d: Id, n: nat)
    requires Inv(s) && Climbs(s, d, n) && !Deleted(s, d) && Uncovered(s, covered, d, n)
    ensures Walk(s, covered, start, Written(s, d, n), false) == At(d)
  {
    hide Up, Inv, Deleted, Kids, NameIn, WalkFrom, IsDir;
    RootUncovered(s, covered, d, n);
    PathLeads(s, covered, d, n);
    if n == 0 {
      var path := "/";
      assert path[1..] == "";
    } else {
      PathShape(s, d, n);
      var path := PathTo(s, d, n);
      SkipSlash(s, covered, s.root, path);
    }
  }

  /**
    The path that is written for a directory leads back to it just when the directory is in the tree: for a deleted
    one a bare slash is written.
   */
  lemma ResolvesBack(s: State, covered: set<Id>, start: Id, d: Id, n: nat)
    requires Inv(s) && Climbs(s, d, n) && Uncovered(s, covered, d, n)
    ensures Walk(s, covered, start, if Deleted(s, d) then "/" else Written(s, d, n), false) == At(d) <==> !Deleted(s, d)
  {
    hide Inv, Climbs, Uncovered, Deleted;
    if Deleted(s, d) {
      NameLost(s, d);
      RootUncovered(s, covered, d, n);
      var path := "/";
      assert path[1..] == "";
    } else {
      LiveResolves(s, covered, start, d, n);
    }
  }

  /** A working directory that is removed while it is held: its path is a slash, which leads to the root. */
  method HeldAndDeleted() returns (ns: Namespace, cwd: Id, buf: array<char>)
    ensures fresh(ns) && fresh(buf) && Inv(ns.S()) && Deleted(ns.S(), cwd) && cwd in ns.holders
    ensures buf.Length > 1 && buf[..2] == "/\0" && Walk(ns.S(), ns.covered, cwd, "/", false) == At(ns.root) && cwd != ns.root
  {
    hide Inv, Made, IsDir, Deleted, Hold, UnlinkAllowed, EntryGone, Climbs;
    ns := new Namespace();
    RootIsOpen(ns.S());
    ghost var s := ns.S();
    var made := ns.MakeEntry(ns.root, "d", true, Memory(true, true, true, true));
    cwd := made.value;
    DirMade(s, "d", cwd);
    HoldKeeps(ns.S(), cwd);
    ghost var r := ns.S();
    ns.Retain(cwd);
    EmptyGoes(r, cwd);
    ghost var h := ns.S();
    var rc := ns.Unlink(ns.root, "d");
    NowDeleted(h, ns.S(), cwd);
    ghost var n := ClimbOf(ns.S(), cwd);
    buf := new char[2];
    var ok := Getcwd(ns, cwd, buf, n);
    NameLost(ns.S(), cwd);
    RootWalk(ns.S(), cwd);
    assert buf[..2] == buf[..1] + [buf[1]];
  }

  lemma EmptyGoes(s: State, d: Id)
    requires d in s.inodes && IsDir(s, s.root) && !Deleted(s, s.root) && IsDir(s, d) && d != s.root
    requires Kids(s, s.root) != [] && Kids(s, s.root)[0] == Dirent("d", d)
    requires Kids(s, d) == [Dirent("..", s.root), Dirent(".", d)]
    ensures UnlinkAllowed(Hold(s, d), {}, s.root, "d") && d in Hold(s, d).holders && IsDir(Hold(s, d), d)
    ensures Find(Kids(Hold(s, d), s.root), "d") == Some(d)
  {
  }

  lemma NowDeleted(s: State, r: State, d: Id)
    requires Inv(s) && Inv(r) && EntryGone(s, r, s.root, "d") && Find(Kids(s, s.root), "d") == Some(d) && IsDir(s, d)
    requires r.holders == s.holders && d in s.holders
    ensures Deleted(r, d) && IsDir(r, d) && d in r.holders
  {
    hide Tree, Closed, Kids, CountedAt;
    FindHas(s, s.root, "d");
  }

  lemma RootWalk(s: State, d: Id)
    ensures Walk(s, {}, d, "/", false) == At(s.root)
  {
    var path := "/";
    assert path[1..] == "";
  }

  lemma {:induction false} RootUncovered(s: State, covered: set<Id>, d: Id, n: nat)
    requires Climbs(s, d, n) && Uncovered(s, covered, d, n)
    ensures s.root !in covered && (n == 0 ==> d == s.root)
    decreases n
  {
    hide Up, IsDir;
    if n > 0 {
      RootUncovered(s, covered, Up(s, d), n - 1);
    }
  }

  lemma SkipSlash(s: State, covered: set<Id>, cur: Id, path: string)
    requires path != "" && path[0] == '/'
    ensures WalkFrom(s, covered, cur, path[1..], false) == WalkFrom(s, covered, cur, path, false)
  {
    hide IsDir, Deleted, Find, Kids;
  }

  // ---------- the system call ----------

  /** The path made of the names collected, the outermost last. */
  function PathOf(comps: seq<string>): string {
    if comps == [] then "" else "/" + comps[|comps| - 1] + PathOf(comps[..|comps| - 1])
  }

  /** What is written for the names collected. */
  function Text(comps: seq<string>): string {
    if comps == [] then "/" else PathOf(comps)
  }

  lemma PathPush(comps: seq<string>, name: string)
    ensures PathOf(comps + [name]) == "/" + name + PathOf(comps)
  {
    assert (comps + [name])[..|comps|] == comps;
  }

  lemma PathPop(comps: seq<string>, i: nat)
    requires i < |comps|
    ensures PathOf(comps[..i + 1]) == "/" + comps[i] + PathOf(comps[..i])
  {
    assert comps[..i + 1][..i] == comps[..i];
  }

  /** The scan of the parent's list for the entry that leads to `t`. */
  method NameOfChild(cs: seq<Dirent>, t: Id) returns (r: Option<string>)
    ensures r == FirstName(cs, t)
  {
    for k := 0 to |cs|
      invariant FirstName(cs, t) == FirstName(cs[k..], t)
    {
      if cs[k].target == t {
        return Some(cs[k].name);
      }
    }
    return None;
  }

  /** Copies a string into the buffer. */
  method Copy(buf: array<char>, pos: nat, text: string) returns (next: nat)
    requires pos + |text| <= buf.Length
    modifies buf
    ensures next == pos + |text| && buf[..next] == old(buf[..pos]) + text
  {
    for k := 0 to |text|
      invariant buf[..pos] == old(buf[..pos]) && buf[pos..pos + k] == text[..k]
    {
      buf[pos + k] := text[k];
    }
    next := pos + |text|;
    assert buf[..next] == buf[..pos] + buf[pos..next];
  }

  /**
    `getcwd`. The names on the way up are collected in `comps`, the innermost first, within `MAX_DEPTH` names and
    `SCRATCH` bytes with their terminators. A directory in the tree gets its path, which leads back to it. One that
    has been deleted gets a bare slash.
   */
  method Getcwd(ns: Namespace, cwd: Id, buf: array<char>, ghost n: nat) returns (ok: bool)
    requires Inv(ns.S()) && IsDir(ns.S(), cwd) && Climbs(ns.S(), cwd, n)
    modifies buf
    ensures var path := if Deleted(ns.S(), cwd) then "/" else Written(ns.S(), cwd, n);
            && (ok <==> |path| < buf.Length
                        && (!Deleted(ns.S(), cwd) && n > 0 ==> n <= MAX_DEPTH && |path| <= SCRATCH))
            && (ok ==> |path| < buf.Length && buf[..|path|] == path && buf[|path|] == '\0')
            && (!ok ==> buf[..] == old(buf[..]))
  {
    hide Inv, Climbs, NameIn, Kids, Up, IsDir, Find, GoodName, FirstName, Deleted;
    if buf.Length == 0 {
      return false;
    }
    ghost var s := ns.S();
    var comps: seq<string> := [];
    var packed := 0;
    var cur := cwd;
    ghost var left: nat := n;
    ghost var dead := Deleted(s, cwd);
    AtTop(s, cwd, n);
    while cur != ns.root
      invariant ns.S() == s && IsDir(s, cur) && Climbs(s, cur, left) && left <= n
      invariant Deleted(s, cur) ==> dead && comps == []
      invariant dead ==> cur == cwd && comps == []
      invariant PathTo(s, cwd, n) == PathTo(s, cur, left) + PathOf(comps)
      invariant |comps| == n - left <= MAX_DEPTH && packed == |PathOf(comps)| <= SCRATCH
      invariant buf[..] == old(buf[..])
      decreases left
    {
      CwdStep(s, cur, left, dead);
      var up := ns.FindDirent(cur, "..");
      if up == None || up.value == cur {
        break;
      }
      var parent := up.value;
      var self := NameOfChild(ns.inodes[parent].children, cur);
      if self == None {
        break;
      }
      var name := self.value;
      if |name| == 0 || |name| >= MAX_NAME {
        break;
      }
      if |comps| == MAX_DEPTH || packed + |name| + 1 > SCRATCH {
        return false;
      }
      PathPush(comps, name);
      Regrouped(PathTo(s, parent, left - 1), name, PathOf(comps));
      comps := comps + [name];
      packed := packed + |name| + 1;
      cur, left := parent, left - 1;
    }
    AtTop(s, cur, left);
    ok := WriteOut(buf, comps);
  }

  lemma AtTop(s: State, d: Id, n: nat)
    requires Inv(s) && Climbs(s, d, n)
    ensures (n == 0 <==> d == s.root) && (d == s.root ==> !Deleted(s, d))
  {
    hide Up, Base, Parented, NamedOnce, Attached, Emptied, Rooted, DottedAt;
  }

  /** One step of the climb: where `..` leads, and under which name the parent's list has the directory. */
  lemma CwdStep(s: State, cur: Id, left: nat, dead: bool)
    requires Inv(s) && IsDir(s, cur) && Climbs(s, cur, left) && cur != s.root && (Deleted(s, cur) <==> dead)
    ensures cur in s.inodes && Find(s.inodes[cur].children, "..") == Some(Up(s, cur)) && Up(s, cur) != cur
    ensures left > 0 && Climbs(s, Up(s, cur), left - 1) && IsDir(s, Up(s, cur)) && Up(s, cur) in s.inodes
    ensures dead ==> FirstName(s.inodes[Up(s, cur)].children, cur) == None
    ensures !dead ==> FirstName(s.inodes[Up(s, cur)].children, cur) == Some(NameIn(s, cur))
    ensures !dead ==> 0 < |NameIn(s, cur)| < MAX_NAME && !Deleted(s, Up(s, cur))
    ensures PathTo(s, cur, left) == PathTo(s, Up(s, cur), left - 1) + "/" + NameIn(s, cur)
  {
    hide Inv, Climbs, NameIn, Kids, Up, IsDir, Find, GoodName;
    UpFound(s, cur);
    ClimbStep(s, cur, cur, left);
    AtTop(s, cur, left);
    Exist(s, cur);
    Exist(s, Up(s, cur));
    FoundIn(s, Up(s, cur), "");
    if dead {
      NameLost(s, cur);
    } else {
      NameFound(s, cur);
      NameFits(NameIn(s, cur));
    }
  }

  lemma NameFits(name: string)
    requires GoodName(name)
    ensures 0 < |name| < MAX_NAME
  {
  }

  lemma Regrouped(a: string, name: string, z: string)
    ensures (a + "/" + name) + z == a + ("/" + name + z)
  {
  }

  /** One name of the text, and what comes before and after it. */
  lemma Layout(text: string, pos: nat, name: string, rest: string)
    requires 0 < pos <= |text| && text == text[..pos - 1] + ("/" + name + rest)
    ensures pos + |name| <= |text| && text[..pos + |name|] == text[..pos] + name
    ensures text == text[..pos + |name|] + rest
  {
  }

  /** The length of the text, counted before a byte of it is written. */
  method CountText(comps: seq<string>) returns (total: nat)
    ensures total == |Text(comps)|
  {
    total := 1;
    assert comps[..|comps|] == comps;
    for i := 0 to |comps|
      invariant total == if i == 0 then 1 else |PathOf(comps[..i])|
    {
      PathPop(comps, i);
      total := total + |comps[i]|;
      if i > 0 {
        total := total + 1;
      }
    }
  }

  lemma TextStart(comps: seq<string>)
    ensures |Text(comps)| > 0 && Text(comps)[0] == '/' && (comps == [] ==> Text(comps) == "/")
    ensures comps != [] ==> Text(comps) == PathOf(comps[..|comps|])
  {
    assert comps[..|comps|] == comps;
  }

  lemma PathStart(comps: seq<string>, i: nat)
    requires i <= |comps|
    ensures i == 0 ==> PathOf(comps[..i]) == ""
    ensures i > 0 ==> PathOf(comps[..i]) != "" && PathOf(comps[..i])[0] == '/'
  {
  }

  lemma Slash(text: string, pos: nat, rest: string)
    requires pos <= |text| && text == text[..pos] + rest && rest != "" && rest[0] == '/'
    ensures pos < |text| && text[..pos + 1] == text[..pos] + "/" && text == text[..pos + 1 - 1] + rest
  {
  }

  /** One name, and a slash if more follow. */
  method WriteName(buf: array<char>, pos: nat, name: string, more: bool, ghost rest: string, ghost text: string)
    returns (next: nat)
    requires 0 < pos <= |text| < buf.Length && buf[..pos] == text[..pos]
    requires text == text[..pos - 1] + ("/" + name + rest)
    requires if more then rest != "" && rest[0] == '/' else rest == ""
    modifies buf
    ensures 0 < next <= |text| && buf[..next] == text[..next]
    ensures if more then text == text[..next - 1] + rest else next == |text|
  {
    Layout(text, pos, name, rest);
    next := Copy(buf, pos, name);
    if more {
      Slash(text, next, rest);
      next := Copy(buf, next, "/");
    }
  }

  /** The names go out, the outermost first. */
  method WriteText(buf: array<char>, comps: seq<string>)
    requires |Text(comps)| < buf.Length
    modifies buf
    ensures buf[..|Text(comps)|] == Text(comps) && buf[|Text(comps)|] == '\0'
  {
    hide Text, PathOf;
    ghost var text := Text(comps);
    TextStart(comps);
    var pos: nat := Copy(buf, 0, "/");
    assert text[..1] == "/";
    var i: nat := |comps|;
    PathStart(comps, 0);
    while i > 0
      invariant i <= |comps| && pos <= |text| && buf[..pos] == text[..pos]
      invariant i > 0 ==> pos > 0 && text == text[..pos - 1] + PathOf(comps[..i])
      invariant i == 0 ==> pos == |text|
    {
      i := i - 1;
      PathPop(comps, i);
      PathStart(comps, i);
      pos := WriteName(buf, pos, comps[i], i > 0, PathOf(comps[..i]), text);
    }
    buf[pos] := '\0';
    assert text[..pos] == text;
  }

  method WriteOut(buf: array<char>, comps: seq<string>) returns (ok: bool)
    requires buf.Length > 0
    modifies buf
    ensures ok <==> |Text(comps)| < buf.Length
    ensures ok ==> |Text(comps)| < buf.Length && buf[..|Text(comps)|] == Text(comps) && buf[|Text(comps)|] == '\0'
    ensures !ok ==> buf[..] == old(buf[..])
  {
    hide Text;
    var total := CountText(comps);
    if total >= buf.Length {
      return false;
    }
    WriteText(buf, comps);
    return true;
  }
}
