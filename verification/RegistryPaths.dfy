/** Paths: how `walk` follows one, and what that comes to, as a chain of entries. */
module RegistryPaths {
  import opened Options
  import opened Registry
  import opened RegistrySteps
  import opened RegistryOps
  import opened RegistryRename

  // ---------- following a path ----------

  /** How far the first component of `p` goes. */
  function SegLen(p: string): (k: nat)
    ensures k <= |p| && '/' !in p[..k] && (k < |p| ==> p[k] == '/')
  {
    if p == "" || p[0] == '/' then 0
    else
      var k := 1 + SegLen(p[1..]);
      assert p[..k] == [p[0]] + p[1..][..k - 1];
      k
  }

  /** Where a path leads: to an inode, to a free name of a directory, out of the native tree, or nowhere. */
  datatype Found = Missing | At(id: Id) | Free(dir: Id, name: string) | Outside

  /** The rest `p` of a path, resolved from `cur`. With `create` the last component must not be there yet. */
  function WalkFrom(s: State, covered: set<Id>, cur: Id, p: string, create: bool): Found
    decreases |p|
  {
    if p == "" then At(cur)
    else
      var k := SegLen(p);
      if k == 0 then WalkFrom(s, covered, cur, p[1..], create)
      else if !IsDir(s, cur) then Missing
      else
        match Find(Kids(s, cur), p[..k])
        case None => if k == |p| && create && !Deleted(s, cur) then Free(cur, p[..k]) else Missing
        case Some(c) =>
          if k == |p| && create then Missing
          else if c in covered then Outside
          else WalkFrom(s, covered, c, if k < |p| then p[k + 1..] else "", create)
  }

  /** A whole path. A slash at the end asks for a directory. */
  function Walk(s: State, covered: set<Id>, start: Id, path: string, create: bool): Found {
    if path == "" then Missing
    else
      var cur := if path[0] == '/' then s.root else start;
      if cur in covered then Outside
      else
        var f := WalkFrom(s, covered, cur, if path[0] == '/' then path[1..] else path, create);
        if f.At? && |path| > 1 && path[|path| - 1] == '/' && !IsDir(s, f.id) then Missing else f
  }

  lemma {:induction false} FreeIsFree(s: State, covered: set<Id>, cur: Id, p: string, create: bool)
    requires WalkFrom(s, covered, cur, p, create).Free? && cur in s.inodes && Closed(s) && Named(s)
    ensures var f := WalkFrom(s, covered, cur, p, create);
            && f.dir in s.inodes && IsDir(s, f.dir) && !Deleted(s, f.dir) && Find(Kids(s, f.dir), f.name) == None
            && 0 < |f.name| && '/' !in f.name && ('\0' !in p ==> '\0' !in f.name)
    decreases |p|
  {
    hide IsDir, Deleted, Named, Closed;
    var k := SegLen(p);
    if k == 0 {
      FreeIsFree(s, covered, cur, p[1..], create);
    } else {
      match Find(Kids(s, cur), p[..k])
      case None => Exist(s, cur);
      case Some(c) =>
        Child(s, cur, p[..k], c);
        FreeIsFree(s, covered, c, if k < |p| then p[k + 1..] else "", create);
    }
  }

  lemma Exist(s: State, i: Id)
    ensures IsDir(s, i) ==> i in s.inodes
  {
  }

  /** An entry that is found leads to an inode that is there. */
  lemma Child(s: State, d: Id, name: string, t: Id)
    requires Find(Kids(s, d), name) == Some(t) && Named(s) && Closed(s)
    ensures d in s.inodes && t in s.inodes && Has(s, d, name, t)
  {
    hide Distinct;
    assert d in s.inodes;
    OnlyFound(s, d, name, t);
    assert Has(s, d, name, t);
  }

  lemma FindHas(s: State, d: Id, name: string)
    requires Named(s)
    ensures forall t :: Find(Kids(s, d), name) == Some(t) <==> Has(s, d, name, t)
    ensures Find(Kids(s, d), name) == None || Has(s, d, name, Find(Kids(s, d), name).value)
  {
    hide Distinct;
    KidsDistinct(s, d);
    FindIsEntry(Kids(s, d), name);
  }

  /** A walk that finds something ends at an inode that is there, and makes nothing unless asked to. */
  lemma {:induction false} WalkEnds(s: State, covered: set<Id>, cur: Id, p: string, create: bool)
    requires cur in s.inodes && Closed(s) && Named(s)
    ensures var f := WalkFrom(s, covered, cur, p, create);
            && (f.At? ==> f.id in s.inodes && (create ==> p == "" || p[|p| - 1] == '/'))
            && (f.Free? ==> create)
    decreases |p|
  {
    hide IsDir, Deleted, Closed, Named, SegLen, Find, Kids;
    if p != "" {
      var k := SegLen(p);
      if k == 0 {
        WalkEnds(s, covered, cur, p[1..], create);
      } else {
        match Find(Kids(s, cur), p[..k])
        case None =>
        case Some(c) =>
          Child(s, cur, p[..k], c);
          WalkEnds(s, covered, c, if k < |p| then p[k + 1..] else "", create);
      }
    }
  }

  /** One component of a walk, in terms of positions in the path. */
  lemma WalkStep(s: State, covered: set<Id>, cur: Id, path: string, p: nat, create: bool)
    requires p < |path|
    ensures var q := p + SegLen(path[p..]);
            && q <= |path| && ('\0' !in path ==> Clean(path[p..q]))
            && WalkFrom(s, covered, cur, path[p..], create) ==
               if q == p then WalkFrom(s, covered, cur, path[p + 1..], create)
               else if !IsDir(s, cur) then Missing
               else
                 match Find(Kids(s, cur), path[p..q])
                 case None => if q == |path| && create && !Deleted(s, cur) then Free(cur, path[p..q]) else Missing
                 case Some(c) =>
                   if q == |path| && create then Missing
                   else if c in covered then Outside
                   else WalkFrom(s, covered, c, path[if q < |path| then q + 1 else q..], create)
  {
    hide *;
    SegmentAt(path, p);
    Component(s, covered, cur, path[p..], create);
  }

  /** The component at `p` and what follows it, as pieces of the path. */
  lemma SegmentAt(path: string, p: nat)
    requires p < |path|
    ensures var k := SegLen(path[p..]);
            && p + k <= |path| && ('\0' !in path ==> Clean(path[p..p + k])) && path[p..] != ""
            && path[p..][..k] == path[p..p + k] && path[p..][1..] == path[p + 1..] && |path[p..]| == |path| - p
            && (if p + k < |path| then path[p..][k + 1..] == path[p + k + 1..] else path[p + k..] == "")
  {
    hide SegLen;
  }

  /** One component of a walk. */
  lemma Component(s: State, covered: set<Id>, cur: Id, p: string, create: bool)
    requires p != ""
    ensures var k := SegLen(p);
            WalkFrom(s, covered, cur, p, create) ==
            if k == 0 then WalkFrom(s, covered, cur, p[1..], create)
            else if !IsDir(s, cur) then Missing
            else
              match Find(Kids(s, cur), p[..k])
              case None => if k == |p| && create && !Deleted(s, cur) then Free(cur, p[..k]) else Missing
              case Some(c) =>
                if k == |p| && create then Missing
                else if c in covered then Outside
                else WalkFrom(s, covered, c, if k < |p| then p[k + 1..] else "", create)
  {
    hide IsDir, Deleted, Find, Kids, SegLen;
  }

  lemma WalkEnd(s: State, covered: set<Id>, cur: Id, path: string, p: nat, create: bool)
    requires p == |path|
    ensures WalkFrom(s, covered, cur, path[p..], create) == At(cur)
  {
    assert path[p..] == "";
  }

  lemma {:induction false} SegOf(name: string, rest: string)
    requires '/' !in name
    ensures SegLen(name + "/" + rest) == |name| && SegLen(name) == |name|
  {
    if name != "" {
      SegOf(name[1..], rest);
      assert (name + "/" + rest)[1..] == name[1..] + "/" + rest;
    }
  }

  lemma {:induction false} SegWithin(p: string, rest: string)
    ensures SegLen(p + "/" + rest) == SegLen(p)
  {
    if p != "" && p[0] != '/' {
      SegWithin(p[1..], rest);
      assert (p + "/" + rest)[1..] == p[1..] + "/" + rest;
    }
  }

  /** A single good name is walked by one lookup. */
  lemma WalkName(s: State, covered: set<Id>, p: Id, name: string, d: Id)
    requires IsDir(s, p) && Find(Kids(s, p), name) == Some(d) && d !in covered && GoodName(name)
    ensures WalkFrom(s, covered, p, name, false) == At(d)
  {
    SegOf(name, "");
    assert name[..|name|] == name;
  }

  lemma WalkNothing(s: State, covered: set<Id>, cur: Id)
    ensures WalkFrom(s, covered, cur, "", false) == At(cur)
  {
  }

  /** A path that goes on behind a slash is walked by walking its first part and going on from where that leads. */
  lemma {:induction false} WalkOn(s: State, covered: set<Id>, cur: Id, p: string, rest: string, create: bool)
    ensures var f := WalkFrom(s, covered, cur, p, false);
            WalkFrom(s, covered, cur, p + "/" + rest, create) == if f.At? then WalkFrom(s, covered, f.id, rest, create) else f
    decreases |p|
  {
    hide IsDir, Deleted, Find, Kids;
    var all := p + "/" + rest;
    SegWithin(p, rest);
    var k := SegLen(p);
    if p == "" {
      assert all[1..] == rest;
    } else if k == 0 {
      assert all[1..] == p[1..] + "/" + rest;
      WalkOn(s, covered, cur, p[1..], rest, create);
    } else {
      assert all[..k] == p[..k];
      match Find(Kids(s, cur), p[..k])
      case None =>
      case Some(c) =>
        if k < |p| {
          assert all[k + 1..] == p[k + 1..] + "/" + rest;
          WalkOn(s, covered, c, p[k + 1..], rest, create);
        } else {
          assert all[k + 1..] == rest;
        }
    }
  }

  // ---------- what a path means ----------

  /** `p` spells the names: they come in order, none empty, with slashes in front, between and behind. */
  ghost predicate Spells(p: string, names: seq<string>)
    decreases |names|
  {
    if names == [] then forall i :: 0 <= i < |p| ==> p[i] == '/'
    else exists a: nat, b: nat :: NameAt(p, a, b, names[0]) && Spells(p[b..], names[1..])
  }

  /** Behind slashes only, `name` stands from `a` to `b`, where a slash or the end of the path is. */
  ghost predicate NameAt(p: string, a: nat, b: nat, name: string) {
    && a < b <= |p| && p[a..b] == name && '/' !in name
    && (forall i :: 0 <= i < a ==> p[i] == '/') && (b < |p| ==> p[b] == '/')
  }

  /** There are entries with these names, each in the directory the one before leads to, from `d` to `t`, none covered. */
  ghost predicate Leads(s: State, covered: set<Id>, d: Id, names: seq<string>, t: Id)
    decreases |names|
  {
    if names == [] then t == d
    else IsDir(s, d) && exists c :: Has(s, d, names[0], c) && c !in covered && Leads(s, covered, c, names[1..], t)
  }

  ghost predicate NamesLead(s: State, covered: set<Id>, d: Id, p: string, t: Id) {
    exists names :: Spells(p, names) && Leads(s, covered, d, names, t)
  }

  /** What a path means: the names in it lead from the root, if it begins with a slash, else from `start`, to `t`. */
  ghost predicate Resolves(s: State, covered: set<Id>, start: Id, path: string, t: Id) {
    var base := if path != "" && path[0] == '/' then s.root else start;
    base !in covered && NamesLead(s, covered, base, path, t)
  }

  lemma SlashFirst(p: string, names: seq<string>)
    requires p != "" && p[0] == '/'
    ensures Spells(p, names) <==> Spells(p[1..], names)
  {
    if names == [] {
      assert forall i :: 0 <= i < |p| ==> p[i] == if i == 0 then '/' else p[1..][i - 1];
    } else {
      if Spells(p, names) {
        SlashOff(p, names);
      }
      if Spells(p[1..], names) {
        SlashOn(p, names);
      }
    }
  }

  lemma SlashOff(p: string, names: seq<string>)
    requires p != "" && p[0] == '/' && names != [] && Spells(p, names)
    ensures Spells(p[1..], names)
  {
    var a: nat, b: nat :| NameAt(p, a, b, names[0]) && Spells(p[b..], names[1..]);
    assert p[a] == p[a..b][0] && names[0][0] in names[0];
    var q := p[1..];
    assert q[b - 1..] == p[b..] && q[a - 1..b - 1] == p[a..b];
    assert NameAt(q, a - 1, b - 1, names[0]);
  }

  lemma SlashOn(p: string, names: seq<string>)
    requires p != "" && p[0] == '/' && names != [] && Spells(p[1..], names)
    ensures Spells(p, names)
  {
    var q := p[1..];
    var a: nat, b: nat :| NameAt(q, a, b, names[0]) && Spells(q[b..], names[1..]);
    assert p[a + 1..b + 1] == q[a..b] && p[b + 1..] == q[b..];
    assert forall i :: 0 < i < a + 1 ==> p[i] == q[i - 1];
    assert NameAt(p, a + 1, b + 1, names[0]);
  }

  /** Behind the first component. */
  function Behind(p: string, k: nat): string
    requires k <= |p|
  {
    if k < |p| then p[k + 1..] else ""
  }

  lemma NameFirst(p: string, names: seq<string>)
    requires SegLen(p) > 0
    ensures Spells(p, names) <==> names != [] && names[0] == p[..SegLen(p)] && Spells(Behind(p, SegLen(p)), names[1..])
  {
    var k := SegLen(p);
    assert p[..k][0] == p[0] != '/';
    if k < |p| {
      assert p[k..][1..] == p[k + 1..];
      if names != [] {
        SlashFirst(p[k..], names[1..]);
      }
    } else {
      assert p[k..] == "";
    }
    if names != [] {
      if Spells(p, names) {
        var a: nat, b: nat :| NameAt(p, a, b, names[0]) && Spells(p[b..], names[1..]);
        assert a == 0;
        SameEnd(p, k, b);
      }
      if names[0] == p[..k] && Spells(Behind(p, k), names[1..]) {
        assert NameAt(p, 0, k, names[0]);
      }
    }
  }

  lemma AllInTake(p: string, n: nat)
    requires n <= |p|
    ensures forall i :: 0 <= i < n ==> p[i] in p[..n]
  {
    forall i | 0 <= i < n
      ensures p[i] in p[..n]
    {
      assert p[..n][i] == p[i];
    }
  }

  lemma SameEnd(p: string, k: nat, b: nat)
    requires k <= |p| && b <= |p| && '/' !in p[..k] && '/' !in p[..b]
    requires (k < |p| ==> p[k] == '/') && (b < |p| ==> p[b] == '/')
    ensures k == b
  {
    AllInTake(p, k);
    AllInTake(p, b);
  }

  /** The walk ends at `t` just when the names in the path lead there. */
  lemma {:induction false} WalkLeads(s: State, covered: set<Id>, cur: Id, p: string, t: Id)
    requires Named(s) && Closed(s)
    ensures WalkFrom(s, covered, cur, p, false) == At(t) <==> NamesLead(s, covered, cur, p, t)
    decreases |p|
  {
    hide IsDir, Deleted, Find, Kids, Has, Named, Closed, Spells;
    var k := SegLen(p);
    if p == "" {
      NoNames();
      var none: seq<string> := [];
      assert Spells(p, none) && (Leads(s, covered, cur, none, t) <==> t == cur);
    } else if k == 0 {
      WalkLeads(s, covered, cur, p[1..], t);
      forall names
        ensures Spells(p, names) <==> Spells(p[1..], names)
      {
        SlashFirst(p, names);
      }
    } else {
      FindHas(s, cur, p[..k]);
      forall names
        ensures Spells(p, names) <==> names != [] && names[0] == p[..k] && Spells(Behind(p, k), names[1..])
      {
        NameFirst(p, names);
      }
      match Find(Kids(s, cur), p[..k])
      case None =>
      case Some(c) =>
        WalkLeads(s, covered, c, Behind(p, k), t);
        if WalkFrom(s, covered, cur, p, false) == At(t) {
          var names :| Spells(Behind(p, k), names) && Leads(s, covered, c, names, t);
          var more := [p[..k]] + names;
          assert more[1..] == names && more[0] == p[..k];
          assert Leads(s, covered, cur, more, t);
        }
        forall names | Spells(p, names) && Leads(s, covered, cur, names, t)
          ensures WalkFrom(s, covered, cur, p, false) == At(t)
        {
          assert Spells(Behind(p, k), names[1..]) && Leads(s, covered, c, names[1..], t);
        }
    }
  }

  lemma NoNames()
    ensures forall names :: Spells("", names) <==> names == []
  {
  }

  lemma ResolvesIs(s: State, covered: set<Id>, start: Id, path: string, t: Id)
    requires Named(s) && Closed(s)
    ensures var slash := path != "" && path[0] == '/';
            var base := if slash then s.root else start;
            Resolves(s, covered, start, path, t) <==>
              base !in covered && WalkFrom(s, covered, base, if slash then path[1..] else path, false) == At(t)
  {
    hide IsDir, Deleted, WalkFrom, NamesLead, Named, Closed;
    var slash := path != "" && path[0] == '/';
    WalkLeads(s, covered, if slash then s.root else start, if slash then path[1..] else path, t);
    if slash {
      SlashLeads(s, covered, s.root, path, t);
    }
  }

  lemma SlashLeads(s: State, covered: set<Id>, d: Id, path: string, t: Id)
    requires path != "" && path[0] == '/'
    ensures NamesLead(s, covered, d, path, t) <==> NamesLead(s, covered, d, path[1..], t)
  {
    hide Spells, Leads;
    forall names
      ensures Spells(path, names) <==> Spells(path[1..], names)
    {
      SlashFirst(path, names);
    }
  }

  /** The whole walk: a path leads where the names in it do, and with a slash at its end to directories only. */
  lemma WalkExactly(s: State, covered: set<Id>, start: Id, path: string, t: Id)
    requires Inv(s)
    ensures Walk(s, covered, start, path, false) == At(t) <==>
            path != "" && Resolves(s, covered, start, path, t) && (path[|path| - 1] == '/' ==> IsDir(s, t))
  {
    hide IsDir, Deleted, WalkFrom, Resolves, Named, Closed, Counted;
    ResolvesIs(s, covered, start, path, t);
    RootIsDir(s);
    OnlySlash(s, covered, s.root);
    assert path != "" ==> (path == "/" <==> path[0] == '/' && |path| == 1);
  }

  lemma RootIsDir(s: State)
    requires Inv(s)
    ensures IsDir(s, s.root)
  {
  }

  lemma OnlySlash(s: State, covered: set<Id>, cur: Id)
    ensures "/"[1..] == "" && WalkFrom(s, covered, cur, "", false) == At(cur)
  {
  }

  /** A single name, resolved from a directory, leads to what the directory's entry of that name does. */
  lemma NameExactly(s: State, covered: set<Id>, start: Id, name: string, t: Id)
    requires Inv(s) && GoodName(name)
    ensures Walk(s, covered, start, name, false) == At(t) <==>
            start !in covered && t !in covered && IsDir(s, start) && Has(s, start, name, t)
  {
    hide IsDir, Deleted, Kids, Find, Counted, Closed, Has;
    SegOf(name, "");
    assert name[..|name|] == name && name[0] in name && name[|name| - 1] in name;
    FindHas(s, start, name);
    match Find(Kids(s, start), name)
    case None =>
    case Some(c) => OnlySlash(s, covered, c);
  }

  /** A relative path that goes on behind a slash: the rest is resolved from where the first part leads. */
  lemma RelativeOn(s: State, covered: set<Id>, start: Id, p: string, q: string, create: bool)
    requires p != "" && p[0] != '/' && q != "" && q[0] != '/'
    ensures var f := Walk(s, covered, start, p, false);
            Walk(s, covered, start, p + "/" + q, create) == if f.At? then Walk(s, covered, f.id, q, create) else f
  {
    hide IsDir, Deleted, Find, Kids, WalkFrom;
    var all := p + "/" + q;
    assert all[0] == p[0] && all[|all| - 1] == q[|q| - 1];
    WalkOn(s, covered, start, p, q, create);
    EndsOpen(s, covered, start, p);
    var f := WalkFrom(s, covered, start, p, false);
    if f.At? && !IsDir(s, f.id) {
      FromFile(s, covered, f.id, q, create);
    }
  }

  /** A path with a name in it ends at something that is not covered. */
  lemma {:induction false} EndsOpen(s: State, covered: set<Id>, cur: Id, p: string)
    ensures var f := WalkFrom(s, covered, cur, p, false);
            f.At? && ((p != "" && p[0] != '/') || cur !in covered) ==> f.id !in covered
    decreases |p|
  {
    hide IsDir, Deleted, Find, Kids;
    if p != "" {
      var k := SegLen(p);
      if k == 0 {
        if cur !in covered {
          EndsOpen(s, covered, cur, p[1..]);
        }
      } else {
        match Find(Kids(s, cur), p[..k])
        case None =>
        case Some(c) =>
          if c !in covered {
            EndsOpen(s, covered, c, Behind(p, k));
          }
      }
    }
  }

  lemma FromFile(s: State, covered: set<Id>, m: Id, q: string, create: bool)
    requires q != "" && q[0] != '/' && !IsDir(s, m)
    ensures WalkFrom(s, covered, m, q, create) == Missing
  {
    hide IsDir;
  }

  /** A path cut behind its last slash: the last name is looked for, or free, where the part before it leads. */
  lemma LastName(s: State, covered: set<Id>, cur: Id, before: string, name: string, create: bool)
    requires '/' !in name && (before != "" ==> before[|before| - 1] == '/')
    ensures var f := WalkFrom(s, covered, cur, before, false);
            WalkFrom(s, covered, cur, before + name, create) == if f.At? then WalkFrom(s, covered, f.id, name, create) else f
  {
    hide WalkFrom;
    if before == "" {
      assert before + name == name;
      OnlySlash(s, covered, cur);
    } else {
      var b := before[..|before| - 1];
      assert before == b + "/" && before + name == b + "/" + name && b + "/" + "" == before;
      WalkOn(s, covered, cur, b, name, create);
      WalkOn(s, covered, cur, b, "", false);
      forall d
        ensures WalkFrom(s, covered, d, "", false) == At(d)
      {
        OnlySlash(s, covered, d);
      }
    }
  }

  /** The walk finds the last name of the path free just when the part before it leads to a directory that lacks it. */
  lemma FreeExactly(s: State, covered: set<Id>, start: Id, before: string, name: string, d: Id, n: string)
    requires Inv(s) && '/' !in name && (before != "" ==> before[|before| - 1] == '/')
    ensures Walk(s, covered, start, before + name, true) == Free(d, n) <==>
            && n == name != "" && Resolves(s, covered, start, before, d)
            && IsDir(s, d) && !Deleted(s, d) && forall t :: !Has(s, d, name, t)
  {
    hide IsDir, Deleted, WalkFrom, Resolves, Counted, Closed, Has, Find, Kids, NamedAt;
    var path := before + name;
    if path != "" {
      assert name != "" ==> path[|path| - 1] == name[|name| - 1] && name[|name| - 1] in name && name[0] in name;
      assert path[0] == if before == "" then name[0] else before[0];
      var slash := path[0] == '/';
      assert slash <==> before != "" && before[0] == '/';
      var base := if slash then s.root else start;
      var b := if slash then before[1..] else before;
      assert (if slash then path[1..] else path) == b + name;
      LastName(s, covered, base, b, name, true);
      ResolvesIs(s, covered, start, before, d);
      var f := WalkFrom(s, covered, base, b, false);
      NothingFree(s, covered, base, b);
      if f.At? {
        NameFree(s, covered, f.id, name, d, n);
      }
    } else {
      assert before == "" == name;
    }
  }

  /** A walk that is to make nothing finds nothing free. */
  lemma {:induction false} NothingFree(s: State, covered: set<Id>, cur: Id, p: string)
    ensures !WalkFrom(s, covered, cur, p, false).Free?
    decreases |p|
  {
    hide IsDir, Deleted, Find, Kids;
    if p != "" {
      var k := SegLen(p);
      if k == 0 {
        NothingFree(s, covered, cur, p[1..]);
      } else {
        match Find(Kids(s, cur), p[..k])
        case None =>
        case Some(c) => NothingFree(s, covered, c, Behind(p, k));
      }
    }
  }

  lemma NameFree(s: State, covered: set<Id>, d: Id, name: string, e: Id, n: string)
    requires Named(s) && '/' !in name
    ensures WalkFrom(s, covered, d, name, true) == Free(e, n) <==>
            e == d && n == name != "" && IsDir(s, d) && !Deleted(s, d) && forall t :: !Has(s, d, name, t)
  {
    hide IsDir, Deleted, Has, Kids, NamedAt;
    if name != "" {
      SegOf(name, "");
      assert name[..|name|] == name;
      FindHas(s, d, name);
    }
  }

  /** Where the last component starts: behind the last slash. */
  function LastStart(p: string): (k: nat)
    ensures k <= |p|
  {
    if p == "" || p[|p| - 1] == '/' then |p| else LastStart(p[..|p| - 1])
  }

  lemma {:induction false} BehindLastSlash(p: string)
    ensures var k := LastStart(p); '/' !in p[k..] && (k > 0 ==> p[k - 1] == '/')
  {
    if p != "" && p[|p| - 1] != '/' {
      var q := p[..|p| - 1];
      BehindLastSlash(q);
      assert p[LastStart(p)..] == q[LastStart(q)..] + [p[|p| - 1]];
    }
  }

  /**
    An inode has been made under the last name of the path, which starts at `k`, in the directory that the part before
    it leads to.
   */
  ghost predicate MadeUnder(s: State, r: State, covered: set<Id>, start: Id, path: string, isDir: bool, k: nat, dir: Id, id: Id) {
    && k < |path| && '/' !in path[k..] && (if k == 0 then dir == start else path[k - 1] == '/')
    && Resolves(s, covered, start, path[..k], dir)
    && dir in s.inodes && id !in s.inodes && r == Made(s, dir, path[k..], id, isDir)
  }

  ghost predicate MadeSomewhere(s: State, r: State, covered: set<Id>, start: Id, path: string, isDir: bool) {
    exists k: nat, dir, id :: MadeUnder(s, r, covered, start, path, isDir, k, dir, id)
  }

  /** What is made where the walk finds a free name. */
  lemma FreeIsMade(s: State, r: State, covered: set<Id>, start: Id, path: string, isDir: bool, id: Id)
    requires Inv(s) && Walk(s, covered, start, path, true).Free? && id !in s.inodes
    requires var f := Walk(s, covered, start, path, true); f.dir in s.inodes && r == Made(s, f.dir, f.name, id, isDir)
    ensures MadeSomewhere(s, r, covered, start, path, isDir)
  {
    hide Inv, Walk, Resolves, Made, IsDir, Deleted, Has;
    var f := Walk(s, covered, start, path, true);
    var k := LastStart(path);
    assert path == path[..k] + path[k..];
    BehindLastSlash(path);
    FreeExactly(s, covered, start, path[..k], path[k..], f.dir, f.name);
    if k == 0 {
      assert path[..k] == "";
      NoPath(s, covered, start, f.dir);
    }
    assert MadeUnder(s, r, covered, start, path, isDir, k, f.dir, id);
  }

  lemma NoPath(s: State, covered: set<Id>, start: Id, t: Id)
    ensures Resolves(s, covered, start, "", t) ==> t == start
  {
    hide Leads;
    NoNames();
    NoneLeads(s, covered, start, t);
  }

  lemma NoneLeads(s: State, covered: set<Id>, d: Id, t: Id)
    ensures Leads(s, covered, d, [], t) <==> t == d
  {
  }
}
