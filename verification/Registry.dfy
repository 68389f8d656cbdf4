/**
  The native namespace of the kernel registry: inodes that hold lists of named entries, with `.` and `..` among
  them, and a count of references on each inode. This module is about values of that graph: what holds of it in
  every state, and what the basic steps do to it.
 */
module Registry {
  import opened Options

  /** What stands for the address of an inode. */
  type Id = int

  const MAX_NAME := 256

  datatype Dirent = Dirent(name: string, target: Id)

  datatype Inode = Inode(isDir: bool, refcount: int, deleted: bool, children: seq<Dirent>)

  /** One entry of one directory. */
  datatype Edge = Edge(dir: Id, entry: Dirent)

  /** `holders` counts the references held outside the graph: open files, working directories, covers. */
  datatype State = State(inodes: map<Id, Inode>, root: Id, holders: multiset<Id>)

  predicate IsDotName(name: string) {
    name == "." || name == ".."
  }

  /** A path component: what the callers cut out of a C string at its slashes. */
  predicate Clean(name: string) {
    '/' !in name && '\0' !in name
  }

  predicate GoodName(name: string) {
    0 < |name| < MAX_NAME && Clean(name)
  }

  // ---------- lists of entries ----------

  /** The target of the first entry with the name. */
  function Find(cs: seq<Dirent>, name: string): Option<Id> {
    if cs == [] then None
    else if cs[0].name == name then Some(cs[0].target)
    else Find(cs[1..], name)
  }

  /** The list without the first entry with the name. */
  function Without(cs: seq<Dirent>, name: string): (r: seq<Dirent>)
    ensures |r| <= |cs|
  {
    if cs == [] then []
    else if cs[0].name == name then cs[1..]
    else [cs[0]] + Without(cs[1..], name)
  }

  /** The list with the target of the first entry of that name changed. */
  function Retarget(cs: seq<Dirent>, name: string, target: Id): (r: seq<Dirent>)
    ensures |r| == |cs|
  {
    if cs == [] then []
    else if cs[0].name == name then [Dirent(name, target)] + cs[1..]
    else [cs[0]] + Retarget(cs[1..], name, target)
  }

  /** The first entry's name does not come again, and the rest are distinct too. */
  lemma DistinctRest(cs: seq<Dirent>)
    requires Distinct(cs) && cs != []
    ensures Distinct(cs[1..]) && cs == [cs[0]] + cs[1..]
    ensures forall e :: e in cs[1..] ==> e.name != cs[0].name
    ensures forall e :: e in cs <==> e == cs[0] || e in cs[1..]
  {
    assert cs == [cs[0]] + cs[1..];
  }

  lemma DistinctCons(c: Dirent, rest: seq<Dirent>)
    requires Distinct(rest) && forall e :: e in rest ==> e.name != c.name
    ensures Distinct([c] + rest)
    ensures forall e :: e in [c] + rest <==> e == c || e in rest
  {
  }

  predicate Distinct(cs: seq<Dirent>) {
    forall i, j :: 0 <= i < j < |cs| ==> cs[i].name != cs[j].name
  }

  lemma {:induction false} FindIsEntry(cs: seq<Dirent>, name: string)
    requires Distinct(cs)
    ensures forall t :: Find(cs, name) == Some(t) <==> Dirent(name, t) in cs
  {
    hide Distinct;
    if cs != [] {
      DistinctRest(cs);
      FindIsEntry(cs[1..], name);
    }
  }

  /** Without a name, a list with distinct names holds the other entries, and they are still distinct. */
  lemma {:induction false} WithoutEntries(cs: seq<Dirent>, name: string)
    requires Distinct(cs)
    ensures Distinct(Without(cs, name))
    ensures forall e :: e in Without(cs, name) <==> e in cs && e.name != name
  {
    hide Distinct;
    if cs != [] {
      DistinctRest(cs);
      WithoutEntries(cs[1..], name);
      if cs[0].name != name {
        DistinctCons(cs[0], Without(cs[1..], name));
      }
    }
  }

  lemma {:induction false} RetargetEntries(cs: seq<Dirent>, name: string, target: Id)
    requires Distinct(cs)
    ensures Distinct(Retarget(cs, name, target))
    ensures forall e :: e in Retarget(cs, name, target) <==>
              (e in cs && e.name != name) || (e == Dirent(name, target) && Find(cs, name).Some?)
  {
    hide Distinct;
    if cs != [] {
      DistinctRest(cs);
      RetargetEntries(cs[1..], name, target);
      FindIsEntry(cs[1..], name);
      if cs[0].name != name {
        DistinctCons(cs[0], Retarget(cs[1..], name, target));
      } else {
        DistinctCons(Dirent(name, target), cs[1..]);
      }
    }
  }

  /** Nothing but `.` and `..` is in the list. */
  predicate OnlyDots(cs: seq<Dirent>) {
    forall e :: e in cs ==> IsDotName(e.name)
  }

  // ---------- what is in the graph ----------

  function Kids(s: State, d: Id): seq<Dirent> {
    if d in s.inodes then s.inodes[d].children else []
  }

  predicate Has(s: State, d: Id, name: string, t: Id) {
    Dirent(name, t) in Kids(s, d)
  }

  predicate IsDir(s: State, i: Id) {
    i in s.inodes && s.inodes[i].isDir
  }

  predicate Deleted(s: State, i: Id) {
    i in s.inodes && s.inodes[i].deleted
  }

  /** Where `..` leads. */
  function Up(s: State, d: Id): Id {
    match Find(Kids(s, d), "..")
    case Some(p) => p
    case None => d
  }

  /** The entries that hold a reference on `i`: those naming it in other directories' lists. */
  function Namers(s: State, i: Id): set<Edge> {
    set d, e | d in s.inodes && d != i && e in s.inodes[d].children && e.target == i :: Edge(d, e)
  }

  /** `..` leads from `d` to the root in `n` steps. */
  ghost predicate Climbs(s: State, d: Id, n: nat)
    decreases n
  {
    IsDir(s, d) && if n == 0 then d == s.root else d != s.root && Climbs(s, Up(s, d), n - 1)
  }

  // ---------- what holds in every state ----------

  /** Entries lead to inodes that exist. */
  ghost predicate Closed(s: State) {
    forall d, n, t :: Has(s, d, n, t) ==> t in s.inodes
  }

  /** Names are good and used once in a directory; what is not a directory has no entries. */
  ghost predicate Named(s: State) {
    forall d {:trigger NamedAt(s.inodes[d])} :: d in s.inodes ==> NamedAt(s.inodes[d])
  }

  ghost predicate NamedAt(x: Inode) {
    && Distinct(x.children)
    && (forall e :: e in x.children ==> GoodName(e.name))
    && (!x.isDir ==> x.children == [] && !x.deleted)
  }

  /** Every count is exact, and nothing is kept at zero. */
  ghost predicate Counted(s: State) {
    && (forall i {:trigger CountedAt(s, i)} :: i in s.inodes ==> CountedAt(s, i))
    && (forall i :: i in s.holders ==> i in s.inodes)
  }

  ghost predicate CountedAt(s: State, i: Id)
    requires i in s.inodes
  {
    && s.inodes[i].refcount == |Namers(s, i)| + s.holders[i] + (if i == s.root then 1 else 0)
    && s.inodes[i].refcount > 0
  }

  ghost predicate Base(s: State) {
    Closed(s) && Named(s) && Counted(s)
  }

  /** Every directory has `.` for itself and `..` for a directory; the root's leads to itself. */
  ghost predicate Dotted(s: State) {
    && IsDir(s, s.root) && !Deleted(s, s.root) && Up(s, s.root) == s.root
    && forall d {:trigger DottedAt(s, d)} :: IsDir(s, d) ==> DottedAt(s, d)
  }

  ghost predicate DottedAt(s: State, d: Id) {
    Has(s, d, ".", d) && Has(s, d, "..", Up(s, d)) && IsDir(s, Up(s, d))
  }

  /** A directory that is named is named by the directory its `..` leads to, and neither is deleted. */
  ghost predicate Parented(s: State) {
    forall d, n, t :: Has(s, d, n, t) && !IsDotName(n) && IsDir(s, t) ==>
      t != s.root && !Deleted(s, t) && Up(s, t) == d && !Deleted(s, d)
  }

  ghost predicate NamedOnce(s: State) {
    forall d, n, n', t :: Has(s, d, n, t) && Has(s, d, n', t) && !IsDotName(n) && !IsDotName(n') && IsDir(s, t) ==> n == n'
  }

  /** A directory that is not deleted has a name. */
  ghost predicate Attached(s: State) {
    forall t :: IsDir(s, t) && !Deleted(s, t) && t != s.root ==> HasName(s, t)
  }

  ghost predicate HasName(s: State, t: Id) {
    exists n :: !IsDotName(n) && Has(s, Up(s, t), n, t)
  }

  /** Deleted directories are empty. */
  ghost predicate Emptied(s: State) {
    forall d, n, t :: Deleted(s, d) && Has(s, d, n, t) ==> IsDotName(n)
  }

  /** From every directory `..` leads to the root. */
  ghost predicate Rooted(s: State) {
    forall d {:trigger ReachesRoot(s, d)} :: IsDir(s, d) ==> ReachesRoot(s, d)
  }

  ghost predicate ReachesRoot(s: State, d: Id) {
    exists n: nat :: Climbs(s, d, n)
  }

  ghost predicate Tree(s: State) {
    Dotted(s) && Parented(s) && NamedOnce(s) && Attached(s) && Emptied(s) && Rooted(s)
  }

  ghost predicate Inv(s: State) {
    Base(s) && Tree(s)
  }

  // ---------- basic steps ----------

  /** `registry_linkdirent` once the entry has been allocated: the new entry comes first in the list. */
  function Put(s: State, d: Id, name: string, t: Id): State
    requires d in s.inodes && t in s.inodes
  {
    var x := s.inodes[d];
    var m := s.inodes[d := x.(children := [Dirent(name, t)] + x.children)];
    s.(inodes := if t == d then m else m[t := m[t].(refcount := m[t].refcount + 1)])
  }

  /** `dirent_detach`: the reference of the entry passes to whoever holds the detached entry. */
  function Detach(s: State, d: Id, name: string): State
    requires d in s.inodes
  {
    var x := s.inodes[d];
    match Find(x.children, name)
    case None => s
    case Some(t) =>
      s.(inodes := s.inodes[d := x.(children := Without(x.children, name))],
         holders := if t == d then s.holders else s.holders + multiset{t})
  }

  function Hold(s: State, i: Id): State
    requires i in s.inodes
  {
    s.(inodes := s.inodes[i := s.inodes[i].(refcount := s.inodes[i].refcount + 1)], holders := s.holders + multiset{i})
  }

  /** `inode_unref`, and `registry_destroy` when that was the last reference. */
  function Unref(s: State, i: Id): (r: State)
    requires i in s.inodes
    ensures |r.inodes| <= |s.inodes|
    decreases |s.inodes|, 0
  {
    var x := s.inodes[i];
    var h := s.holders - multiset{i};
    if x.refcount - 1 != 0 then s.(inodes := s.inodes[i := x.(refcount := x.refcount - 1)], holders := h)
    else
      assert |(s.inodes - {i}).Keys| < |s.inodes.Keys| by {
        assert (s.inodes - {i}).Keys == s.inodes.Keys - {i};
      }
      UnrefAll(s.(inodes := s.inodes - {i}, holders := h), i, if x.isDir then x.children else [])
  }

  /** The entries of a destroyed directory give up their references, except those on the directory itself. */
  function UnrefAll(s: State, gone: Id, ds: seq<Dirent>): (r: State)
    ensures |r.inodes| <= |s.inodes|
    decreases |s.inodes|, |ds| + 1
  {
    if ds == [] then s
    else if ds[0].target == gone || ds[0].target !in s.inodes then UnrefAll(s, gone, ds[1..])
    else
      UnrefAll(Unref(s.(holders := s.holders + multiset{ds[0].target}), ds[0].target), gone, ds[1..])
  }
}
