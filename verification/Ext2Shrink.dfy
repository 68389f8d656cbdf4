/** Releasing every logical block from one index to another, as truncation and deletion do. */
module Ext2Shrink {
  import opened Arith
  import opened Words
  import opened Ext2Tree
  import opened Ext2State
  import opened Ext2Room
  import opened Ext2Trim
  import opened Ext2Volume

  /** The work to be done: the range, and the inode's slots and the disk as they were when it began. */
  datatype Job = Job(disk0: Disk, slots0: seq<nat>, r: Range) {

    ghost predicate Fits(v: Volume)
      reads v`disk
    {
      && r.apb == v.Apb() && |disk0| == |v.disk| <= WORD_LIMIT && Sized(v.disk, v.Apb())
      && Rep(disk0, slots0, r.own, r.apb) && Tight(disk0, r.own)
      && forall b :: b in r.own ==> v.first <= b < |disk0|
    }
  }

  /** No block at or below `q` is queued for freeing yet. */
  ghost predicate NotQueued(r: Range, q: Pos, pending: seq<nat>) {
    forall b :: b in r.own && Under(r.own[b], q) ==> b !in pending
  }

  /** `pending'` is `pending` with the blocks of `gone` queued behind it, each once. */
  ghost predicate Queued(pending: seq<nat>, pending': seq<nat>, gone: set<nat>) {
    pending <= pending' && Lists(pending'[|pending|..], gone)
  }

  lemma QueuedNone(pending: seq<nat>)
    ensures Queued(pending, pending, {})
  {
  }

  lemma QueuedOne(pending: seq<nat>, pending': seq<nat>, gone: set<nat>, b: nat)
    requires Queued(pending, pending', gone) && b !in gone
    ensures Queued(pending, pending' + [b], gone + {b})
  {
    var more := pending'[|pending|..];
    assert (pending' + [b])[|pending|..] == more + [b];
    ListsAppend(more, gone, [b], {b});
  }

  lemma QueuedTrans(pending: seq<nat>, pending': seq<nat>, pending'': seq<nat>, gone: set<nat>, gone': set<nat>)
    requires Queued(pending, pending', gone) && Queued(pending', pending'', gone') && gone !! gone'
    ensures Queued(pending, pending'', gone + gone')
  {
    var more, more' := pending'[|pending|..], pending''[|pending'|..];
    assert pending''[|pending|..] == more + more';
    ListsAppend(more, gone, more', gone');
  }

  lemma QueuedOnly(pending: seq<nat>, pending': seq<nat>, gone: set<nat>, b: nat)
    requires Queued(pending, pending', gone) && b !in pending && b !in gone
    ensures b !in pending'
  {
    assert pending' == pending + pending'[|pending|..];
  }

  /** One entry of an indirect block: the block it names goes if everything below it is in the range. */
  method FreeEntry(v: Volume, entry: nat, idx: nat, depth: nat, first: nat, last: nat,
                   ghost x: Pos, ghost job: Job)
    returns (gone: bool, freed: nat)
    requires job.Fits(v) && job.r.first == first && job.r.last == last
    requires entry in job.r.own && job.r.own[entry] == x && IsPos(x, job.r.apb)
    requires depth < 3 && |x.path| + depth == Height(x.root) && idx == FirstIndex(x, job.r.apb) <= last
    requires Untouched(job.disk0, v.disk, job.r, x) && NotQueued(job.r, x, v.pending)
    modifies v`disk, v`pending
    decreases depth, 0
    ensures job.Fits(v) && OnlyUnder(old(v.disk), v.disk, job.r, x)
    ensures Done(job.disk0, v.disk, job.r, x)
    ensures gone <==> job.r.Doomed(x)
    ensures Queued(old(v.pending), v.pending, job.r.Gone(x)) && freed == |job.r.Gone(x)|
  {
    hide AddrsPerBlock, Entry, NodeAt, NoEntries, Lists, Queued, Done, OnlyUnder, Untouched, NotQueued, Rep, Tight;
    hide Span, FirstIndex, IsPos, Range.Doomed, Range.Gone;
    ghost var r := job.r;
    QueuedNone(v.pending);
    if depth == 0 {
      OneLeaf(job, v, x, entry);
      if idx < first {
        return false, 0;
      }
      var ok := v.FreeBlock(entry);
      QueuedOne(old(v.pending), old(v.pending), {}, entry);
      assert r.Gone(x) == {} + {entry};
      return true, 1;
    }
    var stride := if depth == 2 then v.Apb() else 1;
    SpanOfDepth(depth, r.apb);
    NotQueuedAt(r, x, v.pending, entry);
    gone, freed := FreeLevel(v, entry, idx, stride, depth - 1, first, last, x, job);
    ghost var below := r.Gone(x) - {entry};
    GoneOfEntry(r, x, entry);
    if gone {
      QueuedOnly(old(v.pending), v.pending, below, entry);
      ghost var mid := v.pending;
      var ok := v.FreeBlock(entry);
      QueuedOne(old(v.pending), mid, below, entry);
      assert below + {entry} == r.Gone(x);
      freed := freed + 1;
    }
  }

  lemma NotQueuedAt(r: Range, x: Pos, pending: seq<nat>, b: nat)
    requires NotQueued(r, x, pending) && b in r.own && r.own[b] == x
    ensures b !in pending
  {
  }

  lemma GoneOfEntry(r: Range, x: Pos, b: nat)
    requires b in r.own && r.own[b] == x
    ensures b in r.Gone(x) <==> r.Doomed(x)
    ensures !r.Doomed(x) ==> r.Gone(x) - {b} == r.Gone(x)
  {
  }

  lemma SpanOfDepth(depth: nat, apb: nat)
    ensures 0 < depth < 3 ==> Span(depth - 1, apb) == if depth == 2 then apb else 1
  {
    assert Span(0, apb) == 1;
  }

  /**
    One indirect block: reads it, releases what its entries name within the range, writes it back if an entry
    was cleared, and says whether that left it empty.
   */
  method FreeLevel(v: Volume, container: nat, base: nat, stride: nat, depth: nat, first: nat, last: nat,
                   ghost q: Pos, ghost job: Job)
    returns (emptied: bool, freed: nat)
    requires job.Fits(v) && job.r.first == first && job.r.last == last
    requires container in job.r.own && job.r.own[container] == q && IsPos(q, job.r.apb)
    requires depth < 3 && |q.path| + depth + 1 == Height(q.root) && base == FirstIndex(q, job.r.apb) && stride == Span(depth, job.r.apb)
    requires Untouched(job.disk0, v.disk, job.r, q) && NotQueued(job.r, q, v.pending)
    modifies v`disk, v`pending
    decreases depth, 1
    ensures job.Fits(v) && OnlyUnder(old(v.disk), v.disk, job.r, q)
    ensures Done(job.disk0, v.disk, job.r, q)
    ensures emptied <==> job.r.Doomed(q)
    ensures Queued(old(v.pending), v.pending, job.r.Gone(q) - {container}) && freed == |job.r.Gone(q) - {container}|
  {
    hide AddrsPerBlock, Entry, SetEntry, NodeAt, NoEntries, Lists, Queued, Done, OnlyUnder, Untouched, NotQueued, Rep,
         Tight;
    hide Span, FirstIndex, IsPos, GoneBefore, Zeros, AllZero, Range.Doomed, Range.Gone, Range.Left;
    ghost var r := job.r;
    var buf := v.disk[container];
    var changed := false;
    freed := 0;
    LevelStart(job, v, container);
    var k := 0;
    while k < v.Apb()
      invariant 0 <= k <= v.Apb()
      invariant job.Fits(v) && |buf| == v.bs && LevelAt(job, v.disk, v.pending, old(v.disk), old(v.pending), container, k)
      invariant BufAt(job, container, buf, k)
      invariant !changed ==> buf == v.disk[container]
      invariant freed == |GoneBefore(r, q, k)|
    {
      FirstBelow(q, k, r.apb);
      var idx := base + k * stride;
      if idx > last {
        break;
      }
      var entry := Entry(buf, k);
      EntryAt(job, v, container, k, buf, old(v.disk), old(v.pending));
      if entry == 0 {
        HoleStep(job, v, container, k, buf, old(v.disk), old(v.pending));
      } else {
        ghost var disk1, pending1 := v.disk, v.pending;
        var gone, more := FreeEntry(v, entry, idx, depth, first, last, Below(q, k), job);
        LevelStep(job, disk1, pending1, v.disk, v.pending, old(v.disk), old(v.pending), container, k);
        BufStep(job, container, buf, k);
        if gone {
          buf := SetEntry(buf, k, 0);
          changed := true;
        }
        freed := freed + more;
      }
      k := k + 1;
    }
    LevelRest(job, v, old(v.disk), old(v.pending), container, buf, k);
    LevelEnd(job, v, old(v.disk), old(v.pending), container, buf);
    if changed {
      v.disk := v.disk[container := buf];
    }
    emptied := true;
    var i := 0;
    while i < v.Apb()
      invariant 0 <= i <= v.Apb()
      invariant emptied && forall j: nat :: j < i ==> Entry(buf, j) == 0
    {
      if Entry(buf, i) != 0 {
        emptied := false;
        break;
      }
      i := i + 1;
    }
  }

  /** The volume once the entries of the indirect block `c` below `k` have been dealt with. */
  ghost predicate LevelAt(job: Job, disk: Disk, pending: seq<nat>, was: Disk, pendingWas: seq<nat>, c: nat, k: nat) {
    && c in job.r.own && c < |disk| == |job.disk0| == |was|
    && var q := job.r.own[c];
    && OnlyUnder(was, disk, job.r, q) && disk[c] == job.disk0[c]
    && (forall j: nat :: j < k ==> Done(job.disk0, disk, job.r, Below(q, j)))
    && (forall j: nat :: j >= k ==> Untouched(job.disk0, disk, job.r, Below(q, j)))
    && (forall j: nat :: j >= k ==> NotQueued(job.r, Below(q, j), pending))
    && Queued(pendingWas, pending, GoneBefore(job.r, q, k))
  }

  /** The copy of the indirect block `c` with its entries below `k` dealt with. */
  ghost predicate BufAt(job: Job, c: nat, buf: Block, k: nat) {
    && c in job.r.own && c < |job.disk0|
    && forall j: nat :: Entry(buf, j) == if j < k then job.r.Left(c, job.disk0[c], j) else Entry(job.disk0[c], j)
  }

  /** A data block: it goes exactly when its own number is in the range. */
  lemma OneLeaf(job: Job, v: Volume, x: Pos, b: nat)
    requires job.Fits(v) && b in job.r.own && job.r.own[b] == x && |x.path| == Height(x.root)
    requires Untouched(job.disk0, v.disk, job.r, x) && NotQueued(job.r, x, v.pending)
    ensures job.r.Doomed(x) <==> job.r.first <= FirstIndex(x, job.r.apb) <= job.r.last
    ensures job.r.Gone(x) == if job.r.Doomed(x) then {b} else {}
    ensures Done(job.disk0, v.disk, job.r, x) && b !in v.pending
    ensures OnlyUnder(v.disk, v.disk, job.r, x)
  {
    hide Entry, NodeAt;
    LeafDoom(job.r, b);
    LeafInSpan(x, x, job.r.apb);
    forall c | c in job.r.own && Under(job.r.own[c], x)
      ensures c == b
    {
      assert job.r.own[c].path == x.path;
    }
  }

  lemma LevelStart(job: Job, v: Volume, c: nat)
    requires job.Fits(v) && c in job.r.own
    requires var q := job.r.own[c]; Untouched(job.disk0, v.disk, job.r, q) && NotQueued(job.r, q, v.pending)
    ensures LevelAt(job, v.disk, v.pending, v.disk, v.pending, c, 0) && BufAt(job, c, v.disk[c], 0)
    ensures |GoneBefore(job.r, job.r.own[c], 0)| == 0
  {
    hide Entry, NodeAt;
    var q := job.r.own[c];
    QueuedNone(v.pending);
    assert GoneBefore(job.r, q, 0) == {};
    forall j: nat, b | b in job.r.own && Under(job.r.own[b], Below(q, j))
      ensures Under(job.r.own[b], q)
    {
    }
  }

  lemma EntryAt(job: Job, v: Volume, c: nat, k: nat, buf: Block, was: Disk, pendingWas: seq<nat>)
    requires job.Fits(v) && c in job.r.own && !IsLeaf(job.r.own[c]) && k < job.r.apb
    requires LevelAt(job, v.disk, v.pending, was, pendingWas, c, k) && BufAt(job, c, buf, k)
    ensures var q := job.r.own[c];
            var e := Entry(buf, k);
            && e == Entry(job.disk0[c], k)
            && Untouched(job.disk0, v.disk, job.r, Below(q, k)) && NotQueued(job.r, Below(q, k), v.pending)
            && (e != 0 ==> e in job.r.own && job.r.own[e] == Below(q, k) && IsPos(Below(q, k), job.r.apb))
  {
    hide AddrsPerBlock, Entry, NodeAt, Queued, NotQueued, Untouched, Done, OnlyUnder, Tight, GoneBefore, Range.Left;
    ChildIsNode(job.disk0, job.slots0, job.r.own, job.r.apb, job.r.own[c], k);
  }

  lemma HoleStep(job: Job, v: Volume, c: nat, k: nat, buf: Block, was: Disk, pendingWas: seq<nat>)
    requires job.Fits(v) && c in job.r.own && !IsLeaf(job.r.own[c]) && k < job.r.apb
    requires LevelAt(job, v.disk, v.pending, was, pendingWas, c, k) && BufAt(job, c, buf, k)
    requires Entry(buf, k) == 0 == Entry(job.disk0[c], k)
    ensures LevelAt(job, v.disk, v.pending, was, pendingWas, c, k + 1) && BufAt(job, c, buf, k + 1)
    ensures var q := job.r.own[c]; GoneBefore(job.r, q, k + 1) == GoneBefore(job.r, q, k)
  {
    hide AddrsPerBlock, Entry, NodeAt, Queued, NotQueued, OnlyUnder, Done, Untouched, Tight, Rep, GoneBefore,
         Range.Doomed;
    var q := job.r.own[c];
    GoneStep(job.r, q, k);
    NothingBelowHole(job.disk0, job.slots0, job.r, q, k, c);
    assert job.r.Gone(Below(q, k)) == {};
    EmptyIsDone(job.disk0, v.disk, job.r, Below(q, k));
    assert GoneBefore(job.r, q, k + 1) == GoneBefore(job.r, q, k);
  }

  lemma EmptyIsDone(disk0: Disk, disk: Disk, r: Range, x: Pos)
    requires |disk| == |disk0| && forall c :: c in r.own ==> !Under(r.own[c], x)
    ensures Done(disk0, disk, r, x)
  {
  }

  lemma LevelStep(job: Job, disk1: Disk, pending1: seq<nat>, disk2: Disk, pending2: seq<nat>,
                  was: Disk, pendingWas: seq<nat>, c: nat, k: nat)
    requires LevelAt(job, disk1, pending1, was, pendingWas, c, k)
    requires var x := Below(job.r.own[c], k);
             && OnlyUnder(disk1, disk2, job.r, x) && Done(job.disk0, disk2, job.r, x)
             && Queued(pending1, pending2, job.r.Gone(x))
    ensures LevelAt(job, disk2, pending2, was, pendingWas, c, k + 1)
    ensures var q := job.r.own[c];
            |GoneBefore(job.r, q, k + 1)| == |GoneBefore(job.r, q, k)| + |job.r.Gone(Below(q, k))|
  {
    hide Entry, NodeAt, Queued, Done, Untouched, NotQueued, OnlyUnder;
    var q := job.r.own[c];
    GoneStep(job.r, q, k);
    OnlyUnderSize(disk1, disk2, job.r, Below(q, k));
    forall j: nat | j != k
      ensures j < k + 1 ==> Done(job.disk0, disk2, job.r, Below(q, j))
      ensures j >= k + 1 ==> Untouched(job.disk0, disk2, job.r, Below(q, j))
    {
      OtherEntries(job.disk0, disk1, disk2, job.r, q, k, j);
    }
    OtherEntries(job.disk0, disk1, disk2, job.r, q, k, k + 1);
    assert disk2[c] == disk1[c];
    forall j: nat | j >= k + 1
      ensures NotQueued(job.r, Below(q, j), pending2)
    {
      StillNotQueued(job.r, q, k, j, pending1, pending2);
    }
    QueuedTrans(pendingWas, pending1, pending2, GoneBefore(job.r, q, k), job.r.Gone(Below(q, k)));
    OnlyUnderTrans(was, disk1, disk2, job.r, q, k);
  }

  lemma OnlyUnderSize(disk: Disk, disk': Disk, r: Range, x: Pos)
    requires OnlyUnder(disk, disk', r, x)
    ensures |disk'| == |disk|
  {
  }

  lemma OnlyUnderTrans(was: Disk, disk1: Disk, disk2: Disk, r: Range, q: Pos, k: nat)
    requires OnlyUnder(was, disk1, r, q) && OnlyUnder(disk1, disk2, r, Below(q, k))
    ensures OnlyUnder(was, disk2, r, q)
  {
    forall b | b in r.own && Under(r.own[b], Below(q, k))
      ensures Under(r.own[b], q)
    {
    }
  }

  lemma StillNotQueued(r: Range, q: Pos, k: nat, j: nat, pending1: seq<nat>, pending2: seq<nat>)
    requires j != k && NotQueued(r, Below(q, j), pending1) && Queued(pending1, pending2, r.Gone(Below(q, k)))
    ensures NotQueued(r, Below(q, j), pending2)
  {
    hide Queued;
    forall b | b in r.own && Under(r.own[b], Below(q, j))
      ensures b !in pending2
    {
      UnderEntry(r.own[b], q, j);
      UnderEntry(r.own[b], q, k);
      QueuedOnly(pending1, pending2, r.Gone(Below(q, k)), b);
    }
  }

  lemma BufStep(job: Job, c: nat, buf: Block, k: nat)
    requires BufAt(job, c, buf, k) && 4 * k + 4 <= |buf| && Entry(buf, k) != 0
    ensures if job.r.Doomed(Below(job.r.own[c], k)) then BufAt(job, c, SetEntry(buf, k, 0), k + 1) else BufAt(job, c, buf, k + 1)
  {
    hide Entry, SetEntry;
    forall j: nat
      ensures Entry(SetEntry(buf, k, 0), j) == if j == k then 0 else Entry(buf, j)
    {
      StoredEntry(buf, k, 0, j);
    }
  }

  /** An entry the loop did not come to names nothing in the range. */
  lemma RestOfEntries(job: Job, v: Volume, c: nat, k: nat, j: nat)
    requires job.Fits(v) && c in job.r.own && c < |job.disk0| && !IsLeaf(job.r.own[c]) && k <= j < job.r.apb
    requires FirstIndex(Below(job.r.own[c], k), job.r.apb) > job.r.last
    requires Untouched(job.disk0, v.disk, job.r, Below(job.r.own[c], j))
    ensures job.r.Gone(Below(job.r.own[c], j)) == {}
    ensures Done(job.disk0, v.disk, job.r, Below(job.r.own[c], j))
    ensures job.r.Left(c, job.disk0[c], j) == Entry(job.disk0[c], j)
  {
    hide AddrsPerBlock, Entry, NodeAt, Done, Untouched, FirstIndex, Range.Doomed, Range.Gone, Tight;
    var q := job.r.own[c];
    PastRange(job.r, q, k, j);
    NothingGoes(job.disk0, job.slots0, job.r, Below(q, j), v.disk);
    ChildIsNode(job.disk0, job.slots0, job.r.own, job.r.apb, q, j);
  }

  lemma LevelRest(job: Job, v: Volume, was: Disk, pendingWas: seq<nat>, c: nat, buf: Block, k: nat)
    requires job.Fits(v) && c in job.r.own && !IsLeaf(job.r.own[c]) && k <= job.r.apb
    requires LevelAt(job, v.disk, v.pending, was, pendingWas, c, k) && BufAt(job, c, buf, k)
    requires k < job.r.apb ==> FirstIndex(Below(job.r.own[c], k), job.r.apb) > job.r.last
    ensures LevelAt(job, v.disk, v.pending, was, pendingWas, c, job.r.apb) && BufAt(job, c, buf, job.r.apb)
    ensures var q := job.r.own[c]; GoneBefore(job.r, q, job.r.apb) == GoneBefore(job.r, q, k)
  {
    hide AddrsPerBlock, Entry, NodeAt, Queued, NotQueued, OnlyUnder, Done, Untouched, FirstIndex, Rep, Tight;
    hide Range.Doomed, Range.Left, Range.Gone, GoneBefore;
    var q := job.r.own[c];
    forall j: nat | k <= j < job.r.apb
      ensures job.r.Gone(Below(q, j)) == {}
      ensures Done(job.disk0, v.disk, job.r, Below(q, j))
      ensures job.r.Left(c, job.disk0[c], j) == Entry(job.disk0[c], j)
    {
      RestOfEntries(job, v, c, k, j);
    }
    NoneGoneAfter(job.r, q, k, job.r.apb);
  }

  lemma NoneGoneAfter(r: Range, q: Pos, k: nat, n: nat)
    requires k <= n && forall j :: k <= j < n ==> r.Gone(Below(q, j)) == {}
    ensures GoneBefore(r, q, n) == GoneBefore(r, q, k)
    decreases n - k
  {
    hide Range.Gone, GoneBefore;
    if k < n {
      GoneStep(r, q, k);
      NoneGoneAfter(r, q, k + 1, n);
    }
  }

  /** The copy is what the block is to hold, and once it is written the whole level is dealt with. */
  lemma LevelEnd(job: Job, v: Volume, was: Disk, pendingWas: seq<nat>, c: nat, buf: Block)
    requires job.Fits(v) && c in job.r.own && !IsLeaf(job.r.own[c]) && |buf| == v.bs
    requires LevelAt(job, v.disk, v.pending, was, pendingWas, c, job.r.apb) && BufAt(job, c, buf, job.r.apb)
    ensures var q := job.r.own[c];
            var disk' := v.disk[c := buf];
            && Done(job.disk0, disk', job.r, q) && OnlyUnder(was, disk', job.r, q)
            && Queued(pendingWas, v.pending, job.r.Gone(q) - {c})
            && GoneBefore(job.r, q, job.r.apb) == job.r.Gone(q) - {c}
    ensures buf == v.disk[c] ==> v.disk[c := buf] == v.disk
    ensures job.r.Doomed(job.r.own[c]) <==> forall j: nat :: j < job.r.apb ==> Entry(buf, j) == 0
  {
    hide AddrsPerBlock, Entry, NodeAt, Queued, Tight, GoneBefore, Range.Gone, Range.Doomed, Range.Left;
    var q := job.r.own[c];
    var disk' := v.disk[c := buf];
    DoomOfChildren(job.disk0, job.slots0, job.r, c);
    GoneWhole(job.r, q, c);
    EndEntries(job, c, buf);
    forall b | b in job.r.own && Under(job.r.own[b], q) && b != c
      ensures |job.r.own[b].path| > |q.path| && job.r.own[b].path[|q.path|] < job.r.apb
      ensures Under(job.r.own[b], Below(q, job.r.own[b].path[|q.path|]))
    {
      UnderAtDepth(job.r.own[b], q);
    }
    assert Done(job.disk0, disk', job.r, q);
  }

  lemma EndEntries(job: Job, c: nat, buf: Block)
    requires BufAt(job, c, buf, job.r.apb) && |buf| == 4 * job.r.apb && |job.disk0[c]| == 4 * job.r.apb
    ensures forall j: nat :: Entry(buf, j) == job.r.Left(c, job.disk0[c], j)
    ensures (forall j: nat :: Entry(job.disk0[c], j) != 0 ==> job.r.Doomed(Below(job.r.own[c], j))) <==>
            (forall j: nat :: j < job.r.apb ==> Entry(buf, j) == 0)
  {
    hide Range.Doomed;
    forall j: nat | j >= job.r.apb
      ensures Entry(job.disk0[c], j) == 0
    {
    }
  }

  // ---------- the whole inode ----------

  ghost function GoneRoots(r: Range, n: nat): set<nat> {
    set b | b in r.own && r.own[b].root < n && r.Doomed(r.own[b])
  }

  /** The volume once the trees in slots below `n` have been dealt with. */
  ghost predicate RootsAt(job: Job, disk: Disk, slots: seq<nat>, pending: seq<nat>, pendingWas: seq<nat>, n: nat) {
    && |disk| == |job.disk0| && |slots| == |job.slots0| == SLOTS
    && (forall b :: 0 <= b < |disk| && b !in job.r.own ==> disk[b] == job.disk0[b])
    && (forall i :: 0 <= i < n && i < SLOTS ==> Done(job.disk0, disk, job.r, Pos(i, [])))
    && (forall i :: 0 <= i < n && i < SLOTS ==>
          slots[i] == if job.slots0[i] != 0 && job.r.Doomed(Pos(i, [])) then 0 else job.slots0[i])
    && (forall i :: n <= i < SLOTS ==> Untouched(job.disk0, disk, job.r, Pos(i, [])))
    && (forall i :: n <= i < SLOTS ==> NotQueued(job.r, Pos(i, []), pending) && slots[i] == job.slots0[i])
    && Queued(pendingWas, pending, GoneRoots(job.r, n))
  }

  lemma RootsStart(job: Job, v: Volume)
    requires job.Fits(v) && job.disk0 == v.disk && job.slots0 == v.slots
    requires forall b :: b in job.r.own ==> b !in v.pending
    ensures RootsAt(job, v.disk, v.slots, v.pending, v.pending, 0) && GoneRoots(job.r, 0) == {}
  {
    hide Entry, NodeAt, Queued;
    QueuedNone(v.pending);
    assert GoneRoots(job.r, 0) == {};
  }

  lemma GoneRootsStep(r: Range, n: nat)
    ensures GoneRoots(r, n + 1) == GoneRoots(r, n) + r.Gone(Pos(n, []))
    ensures GoneRoots(r, n) !! r.Gone(Pos(n, []))
  {
  }

  /** The tree in slot `n` has been dealt with. */
  lemma RootsStep(job: Job, disk1: Disk, slots1: seq<nat>, pending1: seq<nat>,
                  disk2: Disk, slots2: seq<nat>, pending2: seq<nat>, pendingWas: seq<nat>, n: nat)
    requires n < SLOTS && RootsAt(job, disk1, slots1, pending1, pendingWas, n)
    requires OnlyUnder(disk1, disk2, job.r, Pos(n, [])) && Done(job.disk0, disk2, job.r, Pos(n, []))
    requires Queued(pending1, pending2, job.r.Gone(Pos(n, [])))
    requires slots2 == slots1[n := if job.slots0[n] != 0 && job.r.Doomed(Pos(n, [])) then 0 else job.slots0[n]]
    ensures RootsAt(job, disk2, slots2, pending2, pendingWas, n + 1)
    ensures |GoneRoots(job.r, n + 1)| == |GoneRoots(job.r, n)| + |job.r.Gone(Pos(n, []))|
  {
    hide Entry, NodeAt, Queued, Range.Doomed, Range.Gone, GoneRoots, Range.Left;
    GoneRootsStep(job.r, n);
    QueuedTrans(pendingWas, pending1, pending2, GoneRoots(job.r, n), job.r.Gone(Pos(n, [])));
    forall i | 0 <= i < SLOTS && i != n
      ensures NotQueued(job.r, Pos(i, []), pending1) ==> NotQueued(job.r, Pos(i, []), pending2)
    {
      OtherRootNotQueued(job.r, n, i, pending1, pending2);
    }
  }

  lemma OtherRootNotQueued(r: Range, n: nat, i: nat, pending1: seq<nat>, pending2: seq<nat>)
    requires i != n && Queued(pending1, pending2, r.Gone(Pos(n, [])))
    ensures NotQueued(r, Pos(i, []), pending1) ==> NotQueued(r, Pos(i, []), pending2)
  {
    hide Queued;
    if NotQueued(r, Pos(i, []), pending1) {
      forall b | b in r.own && Under(r.own[b], Pos(i, []))
        ensures b !in pending2
      {
        QueuedOnly(pending1, pending2, r.Gone(Pos(n, [])), b);
      }
    }
  }

  /** Slot `n` is empty, or everything below it is outside the range. */
  lemma RootUntouched(job: Job, v: Volume, pendingWas: seq<nat>, n: nat)
    requires job.Fits(v) && n < SLOTS && RootsAt(job, v.disk, v.slots, v.pending, pendingWas, n)
    requires job.slots0[n] == 0 || forall b :: b in job.r.own && IsLeaf(job.r.own[b]) && Under(job.r.own[b], Pos(n, [])) ==> !job.r.Hit(job.r.own[b])
    ensures RootsAt(job, v.disk, v.slots, v.pending, pendingWas, n + 1)
    ensures |GoneRoots(job.r, n + 1)| == |GoneRoots(job.r, n)|
  {
    hide AddrsPerBlock, Entry, Queued, Range.Doomed, Range.Gone, GoneRoots, Range.Left, Done, Untouched, NotQueued,
         Range.Hit;
    var x := Pos(n, []);
    if job.slots0[n] == 0 {
      forall b | b in job.r.own
        ensures !Under(job.r.own[b], x)
      {
        if Under(job.r.own[b], x) {
          AncestorOwned(job.disk0, job.slots0, job.r.own, job.r.apb, b, x);
          SlotIsNode(job.disk0, job.slots0, n);
          assert false;
        }
      }
    }
    NothingGoes(job.disk0, job.slots0, job.r, x, v.disk);
    SlotNode(job, n);
    QueuedNone(v.pending);
    RootsStep(job, v.disk, v.slots, v.pending, v.disk, v.slots, v.pending, pendingWas, n);
  }

  lemma SlotNode(job: Job, n: nat)
    requires n < SLOTS && Rep(job.disk0, job.slots0, job.r.own, job.r.apb)
    ensures job.slots0[n] != 0 ==> job.slots0[n] in job.r.own && job.r.own[job.slots0[n]] == Pos(n, [])
  {
    hide Entry;
    SlotIsNode(job.disk0, job.slots0, n);
  }

  /** Slots from `n` up to `m` hold data blocks outside the range. */
  lemma DirectUntouched(job: Job, v: Volume, pendingWas: seq<nat>, n: nat, m: nat)
    requires job.Fits(v) && n <= m <= NDIR && RootsAt(job, v.disk, v.slots, v.pending, pendingWas, n)
    requires m <= job.r.first || n > job.r.last
    ensures RootsAt(job, v.disk, v.slots, v.pending, pendingWas, m)
    ensures |GoneRoots(job.r, m)| == |GoneRoots(job.r, n)|
    decreases m - n
  {
    hide AddrsPerBlock, Entry, NodeAt, GoneRoots, RootsAt, Tight;
    if n < m {
      forall b | b in job.r.own && IsLeaf(job.r.own[b]) && Under(job.r.own[b], Pos(n, []))
        ensures !job.r.Hit(job.r.own[b])
      {
        DirectIndex(job.r.own[b], n, job.r.apb);
      }
      RootUntouched(job, v, pendingWas, n);
      DirectUntouched(job, v, pendingWas, n + 1, m);
    }
  }

  lemma DirectIndex(p: Pos, n: nat, apb: nat)
    requires n < NDIR && IsPos(p, apb) && Under(p, Pos(n, []))
    ensures p == Pos(n, []) && IndexOf(p, apb) == n
  {
  }

  /** A direct block in the range: queued for freeing, its slot cleared. */
  lemma DirectGone(job: Job, v: Volume, n: nat)
    requires job.Fits(v) && n < NDIR && job.r.first <= n <= job.r.last && job.slots0[n] != 0
    requires Untouched(job.disk0, v.disk, job.r, Pos(n, [])) && NotQueued(job.r, Pos(n, []), v.pending)
    ensures job.r.Doomed(Pos(n, [])) && job.r.Gone(Pos(n, [])) == {job.slots0[n]}
    ensures Done(job.disk0, v.disk, job.r, Pos(n, [])) && OnlyUnder(v.disk, v.disk, job.r, Pos(n, []))
    ensures v.first <= job.slots0[n] < |v.disk| && job.slots0[n] !in v.pending
  {
    hide AddrsPerBlock, Entry, NodeAt, Tight, Done, OnlyUnder, Untouched, NotQueued, Range.Doomed, Range.Gone;
    SlotNode(job, n);
    DirectIndex(Pos(n, []), n, job.r.apb);
    LeafInSpan(Pos(n, []), Pos(n, []), job.r.apb);
    OneLeaf(job, v, Pos(n, []), job.slots0[n]);
    FirstOfRoot(n, job.r.apb);
  }

  lemma FirstOfRoot(n: nat, apb: nat)
    requires n < SLOTS
    ensures FirstIndex(Pos(n, []), apb) == Base(n, apb)
    ensures n >= IND ==> Span(Height(n) - 1, apb) == if n == IND then 1 else if n == DIND then apb else Square(apb)
  {
    assert Digits([], apb) == 0;
    assert Span(0, apb) == 1;
    assert Span(1, apb) == apb * Span(0, apb) == apb;
    assert Span(2, apb) == apb * Span(1, apb);
  }

  /** The direct slots of the range. */
  method FreeDirects(v: Volume, first: nat, last: nat, ghost job: Job) returns (freed: nat)
    requires job.Fits(v) && job.r.first == first <= job.r.last == last
    requires RootsAt(job, v.disk, v.slots, v.pending, v.pending, 0)
    modifies v`slots, v`pending
    ensures RootsAt(job, v.disk, v.slots, v.pending, old(v.pending), NDIR) && freed == |GoneRoots(job.r, NDIR)|
  {
    hide AddrsPerBlock, Entry, NodeAt, Tight, Queued, Range.Doomed, Range.Gone, GoneRoots, RootsAt, Done, OnlyUnder,
         Rep;
    freed := 0;
    var i := first;
    NoRootsGone(job.r);
    DirectUntouched(job, v, old(v.pending), 0, if first < NDIR then first else NDIR);
    while i < NDIR && i <= last
      invariant job.Fits(v) && first <= i && (i <= NDIR || i == first) && i <= last + 1
      invariant RootsAt(job, v.disk, v.slots, v.pending, old(v.pending), if i < NDIR then i else NDIR)
      invariant freed == |GoneRoots(job.r, if i < NDIR then i else NDIR)|
    {
      RootsParts(job, v.disk, v.slots, v.pending, old(v.pending), i);
      var block := v.slots[i];
      if block == 0 || block >= |v.disk| {
        SlotOnDisk(job, v, i);
        RootUntouched(job, v, old(v.pending), i);
      } else {
        ghost var slots1, pending1 := v.slots, v.pending;
        DirectGone(job, v, i);
        QueuedNone(pending1);
        QueuedOne(pending1, pending1, {}, block);
        var ok := v.FreeBlock(block);
        v.slots := v.slots[i := 0];
        freed := freed + 1;
        assert {} + {block} == job.r.Gone(Pos(i, []));
        RootsStep(job, v.disk, slots1, pending1, v.disk, v.slots, v.pending, old(v.pending), i);
      }
      i := i + 1;
    }
    if i < NDIR {
      DirectUntouched(job, v, old(v.pending), i, NDIR);
    }
  }

  lemma NoRootsGone(r: Range)
    ensures |GoneRoots(r, 0)| == 0
  {
    assert GoneRoots(r, 0) == {};
  }

  lemma RootsParts(job: Job, disk: Disk, slots: seq<nat>, pending: seq<nat>, pendingWas: seq<nat>, n: nat)
    requires RootsAt(job, disk, slots, pending, pendingWas, n) && n < SLOTS
    ensures |slots| == |job.slots0| == SLOTS && |disk| == |job.disk0| && slots[n] == job.slots0[n]
    ensures Untouched(job.disk0, disk, job.r, Pos(n, [])) && NotQueued(job.r, Pos(n, []), pending)
  {
  }

  lemma SlotOnDisk(job: Job, v: Volume, n: nat)
    requires job.Fits(v) && n < SLOTS
    ensures job.slots0[n] < |job.disk0| || job.slots0[n] == 0
  {
    hide Entry;
    SlotNode(job, n);
  }

  /** One of the three indirect trees. */
  method FreeTree(v: Volume, root: nat, first: nat, last: nat, ghost job: Job, ghost pendingWas: seq<nat>)
    returns (freed: nat)
    requires NDIR <= root < SLOTS && job.Fits(v) && job.r.first == first <= job.r.last == last
    requires RootsAt(job, v.disk, v.slots, v.pending, pendingWas, root)
    modifies v`disk, v`slots, v`pending
    ensures job.Fits(v) && RootsAt(job, v.disk, v.slots, v.pending, pendingWas, root + 1)
    ensures |GoneRoots(job.r, root + 1)| == |GoneRoots(job.r, root)| + freed
  {
    hide AddrsPerBlock, Entry, NodeAt, Tight, Queued, Range.Doomed, Range.Gone, GoneRoots, RootsAt, Done, OnlyUnder,
         Rep, NotQueued, Untouched;
    hide Span, FirstIndex;
    RootsParts(job, v.disk, v.slots, v.pending, pendingWas, root);
    var container := v.slots[root];
    SlotOnDisk(job, v, root);
    if container == 0 || container >= |v.disk| {
      RootUntouched(job, v, pendingWas, root);
      return 0;
    }
    var apb := v.Apb();
    var base := if root == IND then NDIR else if root == DIND then NDIR + apb else NDIR + apb + apb * apb;
    var stride := if root == IND then 1 else if root == DIND then apb else apb * apb;
    ghost var x := Pos(root, []);
    ghost var slots1, pending1, disk1 := v.slots, v.pending, v.disk;
    SlotNode(job, root);
    FirstOfRoot(root, apb);
    RootIsPos(root, apb);
    NotQueuedAt(job.r, x, v.pending, container);
    GoneOfEntry(job.r, x, container);
    var emptied: bool;
    emptied, freed := FreeLevel(v, container, base, stride, root - NDIR, first, last, x, job);
    ghost var below := job.r.Gone(x) - {container};
    if emptied {
      QueuedOnly(pending1, v.pending, below, container);
      QueuedOne(pending1, v.pending, below, container);
      assert below + {container} == job.r.Gone(x);
      var ok := v.FreeBlock(container);
      v.slots := v.slots[root := 0];
      freed := freed + 1;
    }
    RootsStep(job, disk1, slots1, pending1, v.disk, v.slots, v.pending, pendingWas, root);
  }

  /** Everything about a sound volume that is on the disk, leaving the cached indirect block aside. */
  ghost predicate SoundOnDisk(s: State) {
    s.Geometry() && s.Ownership() && Rep(s.disk, s.slots, s.own, s.Apb())
  }

  /**
    Releases logical blocks `first` to `last`. The indirect blocks are written behind the cached one, so what is
    promised is about the disk; the cached copy is what the disk has afterwards just when that block named nothing that
    went.
   */
  method FreeBlocksFrom(v: Volume, first: nat, last: nat) returns (freed: nat)
    requires v.S().Sound() && v.S().NoEmpty()
    modifies v`disk, v`slots, v`pending, v`own
    ensures SoundOnDisk(v.S()) && v.S().NoEmpty() && DataKept(old(v.S()), v.S())
    ensures forall index: nat :: v.S().Mapped(index) == if first <= index <= last then 0 else old(v.S()).Mapped(index)
    ensures v.own == Range(old(v.own), v.Apb(), first, last).Kept()
    ensures freed == |old(v.own)| - |v.own|
    ensures v.S().CacheSame() <==> CacheSpared(old(v.S()), Range(old(v.own), v.Apb(), first, last))
    ensures v.S().CacheSame() <==> v.S().CacheOk()
  {
    hide CacheSpared;
    hide AddrsPerBlock, Entry, NodeAt, Tight, Queued, RootsAt, GoneRoots, Rep, Range.Doomed, Range.Kept,
         State.CacheOk, Capacity;
    ghost var s := v.S();
    ghost var job := Job(v.disk, v.slots, Range(v.own, v.Apb(), first, last));
    freed := 0;
    if first > last {
      NothingInRange(s, job.r);
      NothingCached(s, job.r);
      return;
    }
    SoundFits(v, job);
    RootsStart(job, v);
    freed := FreeDirects(v, first, last, job);
    var root := NDIR;
    while root < SLOTS
      invariant NDIR <= root <= SLOTS
      invariant job.Fits(v) && RootsAt(job, v.disk, v.slots, v.pending, s.pending, root)
      invariant freed == |GoneRoots(job.r, root)|
    {
      var more := FreeTree(v, root, first, last, job, s.pending);
      freed := freed + more;
      root := root + 1;
    }
    v.own := job.r.Kept();
    AllRootsDone(s, job, v.S());
    CacheAfter(s, job, v.S());
  }

  /** `s` became `s'` by releasing the job's range: only the disk, the slots, the pending list and the tree moved. */
  ghost predicate Shrunk(s: State, job: Job, s': State) {
    && job.disk0 == s.disk && job.slots0 == s.slots && job.r.own == s.own && job.r.apb == s.Apb()
    && s' == s.(disk := s'.disk, slots := s'.slots, pending := s'.pending, own := job.r.Kept())
    && Sized(s'.disk, s.Apb())
    && RootsAt(job, s'.disk, s'.slots, s'.pending, s.pending, SLOTS)
  }

  lemma AllTrimmed(s: State, job: Job, s': State)
    requires s.Sound() && Shrunk(s, job, s')
    ensures Trimmed(s.disk, s'.disk, job.r) && SlotsTrimmed(s.slots, s'.slots, job.r)
    ensures DataKept(s, s')
  {
    hide AddrsPerBlock, Entry, NodeAt, Tight, Queued, GoneRoots, Range.Doomed, Range.Left, State.CacheOk;
    forall b | b in s.own
      ensures s.own[b].root < SLOTS && Under(s.own[b], Pos(s.own[b].root, []))
    {
    }
  }

  lemma KeptOrGone(r: Range)
    requires forall b :: b in r.own ==> r.own[b].root < SLOTS
    ensures r.Kept().Keys + GoneRoots(r, SLOTS) == r.own.Keys && r.Kept().Keys !! GoneRoots(r, SLOTS)
    ensures |GoneRoots(r, SLOTS)| == |r.own| - |r.Kept()|
  {
    assert |r.Kept().Keys + GoneRoots(r, SLOTS)| == |r.Kept().Keys| + |GoneRoots(r, SLOTS)|;
  }

  lemma AllQueued(s: State, job: Job, s': State)
    requires s.Sound() && Shrunk(s, job, s')
    ensures s'.Ownership()
    ensures |GoneRoots(job.r, SLOTS)| == |s.own| - |s'.own|
  {
    hide State.Sound, State.Ownership, Shrunk, GoneRoots, Range.Kept, Lists;
    QueuedParts(s, job, s');
    RootsInside(s, job.r);
    KeptOrGone(job.r);
    var more := s'.pending[|s.pending|..];
    PendingOwnership(s, s', more, GoneRoots(job.r, SLOTS));
  }

  lemma QueuedParts(s: State, job: Job, s': State)
    requires s.Sound() && Shrunk(s, job, s')
    ensures s.pending <= s'.pending && Lists(s'.pending[|s.pending|..], GoneRoots(job.r, SLOTS))
    ensures s'.bitmap == s.bitmap && s'.first == s.first && s'.reserved == s.reserved && |s'.disk| == |s.disk|
    ensures s.Ownership() && job.r.own == s.own && s'.own == job.r.Kept() && s.Apb() == job.r.apb
    ensures s'.pending == s.pending + s'.pending[|s.pending|..]
  {
    hide AddrsPerBlock, Rep, Range.Doomed, State.CacheOk, Lists, GoneRoots, Range.Kept;
  }

  lemma RootsInside(s: State, r: Range)
    requires s.Sound() && r.own == s.own
    ensures forall b :: b in r.own ==> r.own[b].root < SLOTS
  {
    hide AddrsPerBlock, Entry, NodeAt, State.CacheOk, State.Ownership;
  }

  lemma PendingOwnership(s: State, s': State, more: seq<nat>, gone: set<nat>)
    requires s.Ownership() && Lists(more, gone) && s'.pending == s.pending + more
    requires s'.bitmap == s.bitmap && s'.first == s.first && s'.reserved == s.reserved && |s'.disk| == |s.disk|
    requires s'.own.Keys + gone == s.own.Keys && s'.own.Keys !! gone
    ensures s'.Ownership()
  {
    hide Lists;
    forall i | 0 <= i < |s'.pending|
      ensures s.first <= s'.pending[i] < |s.disk| && s.bitmap[s'.pending[i]]
      ensures s'.pending[i] !in s'.own && s'.pending[i] !in s.reserved
    {
      PendingOne(s, more, gone, s'.pending[i], i);
      assert s'.own.Keys <= s.own.Keys;
    }
    PendingApart(s);
    QueuedOnce(s.pending, more, s.own.Keys, gone);
  }

  /** A block in the longer queue was in the queue, or goes. */
  lemma PendingOne(s: State, more: seq<nat>, gone: set<nat>, b: nat, i: nat)
    requires s.Ownership() && Lists(more, gone) && gone <= s.own.Keys && i < |s.pending| + |more| && b == (s.pending + more)[i]
    ensures s.first <= b < |s.disk| && b < |s.bitmap| && s.bitmap[b] && b !in s.reserved && (b in gone || b !in s.own.Keys)
  {
    if i >= |s.pending| {
      assert more[i - |s.pending|] in gone;
      assert b in s.own;
    }
  }

  lemma PendingApart(s: State)
    requires s.Ownership()
    ensures forall i :: 0 <= i < |s.pending| ==> s.pending[i] !in s.own.Keys
    ensures forall i, j :: 0 <= i < j < |s.pending| ==> s.pending[i] != s.pending[j]
  {
  }

  lemma QueuedOnce(pending: seq<nat>, more: seq<nat>, own: set<nat>, gone: set<nat>)
    requires Lists(more, gone) && gone <= own && forall i :: 0 <= i < |pending| ==> pending[i] !in own
    requires forall i, j :: 0 <= i < j < |pending| ==> pending[i] != pending[j]
    ensures var all := pending + more; forall i, j :: 0 <= i < j < |all| ==> all[i] != all[j]
  {
    var all := pending + more;
    forall i, j | 0 <= i < j < |all|
      ensures all[i] != all[j]
    {
      if i < |pending| <= j {
        assert more[j - |pending|] in gone;
      }
    }
  }

  lemma AllRootsDone(s: State, job: Job, s': State)
    requires s.Sound() && s.NoEmpty() && Shrunk(s, job, s')
    ensures SoundOnDisk(s') && s'.NoEmpty() && DataKept(s, s')
    ensures forall index: nat :: s'.Mapped(index) == if job.r.first <= index <= job.r.last then 0 else s.Mapped(index)
    ensures |GoneRoots(job.r, SLOTS)| == |s.own| - |s'.own|
  {
    hide AddrsPerBlock, Entry, NodeAt, Tight, GoneRoots, Range.Doomed, Range.Kept, State.CacheOk, State.Ownership,
         RootsAt, Capacity, Rep, Trimmed;
    SoundSlots(s);
    AllTrimmed(s, job, s');
    AllQueued(s, job, s');
    TrimmedTree(s.disk, s.slots, s'.disk, s'.slots, job.r);
    TrimmedIsTight(s.disk, s.slots, s'.disk, job.r);
    forall index: nat
      ensures s'.Mapped(index) == if job.r.first <= index <= job.r.last then 0 else s.Mapped(index)
    {
      if index < Capacity(s.Apb()) {
        TrimmedMapping(s.disk, s.slots, s'.disk, s'.slots, job.r, index);
      }
    }
  }

  /** Something the indirect block `c` names goes. */
  ghost predicate LosesEntry(r: Range, disk: Disk, c: nat)
    requires c in r.own && c < |disk|
  {
    exists k: nat :: Entry(disk[c], k) != 0 && r.Doomed(Below(r.own[c], k))
  }

  /** The cached indirect block is not one of the file, or names nothing that goes. */
  ghost predicate CacheSpared(s: State, r: Range) {
    s.cached != 0 && s.cached < |s.disk| && s.cached in r.own ==> !LosesEntry(r, s.disk, s.cached)
  }

  /**
    The cached copy of an indirect block is what the disk has just when that block named nothing that went; and a block
    that lost nothing is still an indirect block in use.
   */
  lemma CacheAfter(s: State, job: Job, s': State)
    requires s.Sound() && s.NoEmpty() && Shrunk(s, job, s')
    ensures s'.CacheSame() <==> CacheSpared(s, job.r)
    ensures s'.CacheSame() <==> s'.CacheOk()
  {
    hide AddrsPerBlock, Entry, NodeAt, Tight, Queued, GoneRoots, Range.Doomed, RootsAt, Rep;
    AllTrimmed(s, job, s');
    var c := s.cached;
    if c != 0 && c in s.own {
      DoomOfChildren(s.disk, s.slots, job.r, c);
      if LosesEntry(job.r, s.disk, c) {
        var k: nat :| Entry(s.disk[c], k) != 0 && job.r.Doomed(Below(job.r.own[c], k));
        assert Entry(s'.disk[c], k) == job.r.Left(c, s.disk[c], k) == 0;
      } else {
        assert forall k: nat :: Entry(s'.disk[c], k) == job.r.Left(c, s.disk[c], k);
        EntriesAreAll(s.disk[c], s'.disk[c]);
      }
    }
  }

  lemma SoundFits(v: Volume, job: Job)
    requires v.S().Sound() && v.S().NoEmpty()
    requires job.disk0 == v.disk && job.slots0 == v.slots && job.r.own == v.own && job.r.apb == v.Apb()
    ensures job.Fits(v) && forall b :: b in job.r.own ==> b !in v.pending
  {
    hide Rep, Entry, NodeAt, AddrsPerBlock;
  }

  lemma NothingInRange(s: State, r: Range)
    requires s.Sound() && s.NoEmpty() && r.own == s.own && r.apb == s.Apb() && r.first > r.last
    ensures r.Kept() == s.own
  {
    hide Entry, NodeAt, AddrsPerBlock, Tight, Rep, IndexOf, State.CacheOk, State.Ownership, Range.Kept;
    forall b | b in s.own
      ensures !r.Doomed(s.own[b])
    {
      var l := HasLeaf(s.disk, s.slots, s.own, r.apb, b);
      assert !r.Hit(s.own[l]);
    }
    KeptAll(r);
  }

  lemma NothingCached(s: State, r: Range)
    requires s.Sound() && s.NoEmpty() && r.own == s.own && r.apb == s.Apb() && r.first > r.last
    ensures s.CacheSame() && s.CacheOk() && CacheSpared(s, r)
  {
    hide Entry, NodeAt, AddrsPerBlock, Tight, Rep, IndexOf, Range.Doomed;
    var c := s.cached;
    if c != 0 && c in s.own {
      NothingDoomed(s, r, c);
    }
  }

  lemma NothingDoomed(s: State, r: Range, c: nat)
    requires s.Sound() && s.NoEmpty() && r.own == s.own && r.apb == s.Apb() && r.first > r.last
    requires c in s.own && !IsLeaf(s.own[c])
    ensures c < |s.disk| && !LosesEntry(r, s.disk, c)
  {
    hide Entry, NodeAt, AddrsPerBlock, Tight, IndexOf, State.CacheOk;
    forall k: nat | Entry(s.disk[c], k) != 0
      ensures !r.Doomed(Below(r.own[c], k))
    {
      ChildIsNode(s.disk, s.slots, s.own, r.apb, s.own[c], k);
      var b := Entry(s.disk[c], k);
      var l := HasLeaf(s.disk, s.slots, s.own, r.apb, b);
      assert !r.Hit(s.own[l]);
    }
  }

  lemma KeptAll(r: Range)
    requires forall b :: b in r.own ==> !r.Doomed(r.own[b])
    ensures r.Kept() == r.own
  {
    hide Range.Doomed;
  }

  // ---------- a cached copy that goes stale ----------

  lemma TwelvePos(k: nat, apb: nat)
    requires k < apb
    ensures var p := Below(Pos(IND, []), k);
            && PosOf(IND + k, apb) == p && IsPos(p, apb) && IsLeaf(p) && Prefix(p, 0) == Pos(IND, []) && Prefix(p, 1) == p
            && IndexOf(p, apb) == IND + k && IND + k < Capacity(apb)
  {
    hide Quot, Rem;
    SlotOfIndex(IND + k, apb);
    var p := Below(Pos(IND, []), k);
    assert IND < SLOTS && p.path == [k];
  }

  /** Entry `k` of the indirect block in slot 12, for the logical blocks from 12 on. */
  lemma EntryOfTwelve(s: State, k: nat)
    requires s.Sound() && s.Mapped(IND + k) != 0 && k < s.Apb()
    ensures |s.slots| == SLOTS && 0 < s.slots[IND] < |s.disk| && s.slots[IND] in s.own && s.own[s.slots[IND]] == Pos(IND, [])
    ensures Entry(s.disk[s.slots[IND]], k) == s.Mapped(IND + k)
    ensures s.Mapped(IND + k) in s.own && s.own[s.Mapped(IND + k)] == Below(Pos(IND, []), k) && s.Mapped(IND + k) < |s.disk|
  {
    hide AddrsPerBlock, Entry, NodeAt, NoEntries, State.Sound, State.Mapped, BlockSlot, Capacity, IsPos, IndexOf;
    TwelvePos(k, s.Apb());
    var p := Below(Pos(IND, []), k);
    MappedIsNode(s, IND + k);
    SoundSlots(s);
    WalkStep(s, p, 0);
    SlotIsNode(s.disk, s.slots, IND);
    NodeOwner(s, p);
  }

  /** The indirect block of slot 12 is cached, and one of the blocks it names is to go. */
  lemma LosesBlock(s: State, k: nat)
    requires s.Sound() && s.NoEmpty() && s.Mapped(IND + k) != 0 && k < s.Apb() && |s.slots| == SLOTS && s.cached == s.slots[IND]
    ensures !CacheSpared(s, Range(s.own, s.Apb(), IND + k, IND + k))
    ensures s.Mapped(IND + k) !in Range(s.own, s.Apb(), IND + k, IND + k).Kept()
  {
    hide AddrsPerBlock, Entry, NodeAt, NoEntries, Range.Doomed, State.Sound, State.Mapped, Capacity, BlockSlot;
    var r := Range(s.own, s.Apb(), IND + k, IND + k);
    EntryOfTwelve(s, k);
    TwelvePos(k, s.Apb());
    assert r.Doomed(Below(r.own[s.cached], k)) by {
      OnlyHit(s, r, Below(Pos(IND, []), k));
    }
    assert LosesEntry(r, s.disk, s.cached);
  }

  lemma OnlyHit(s: State, r: Range, p: Pos)
    requires s.Sound() && r.own == s.own && IsLeaf(p) && r.Hit(p)
    ensures r.Doomed(p)
  {
    hide AddrsPerBlock, Entry, NodeAt, NoEntries, State.Sound, Range.Hit;
    forall b | b in r.own && IsLeaf(r.own[b]) && Under(r.own[b], p)
      ensures r.Hit(r.own[b])
    {
      UnderAtDepth(r.own[b], p);
    }
  }

  /** Room for block 12, its indirect block, and block 13 as well. */
  lemma RoomForThree(s: State)
    requires s == NewState(s.bs, s.first, s.disk) && s.first + 3 <= |s.disk|
    ensures |Missing(s.own, Way(PosOf(IND, s.Apb())))| <= 2 && 3 <= FreeCount(s.bitmap, s.first) && |s.own| == 0
  {
    hide AddrsPerBlock;
    var p := PosOf(IND, s.Apb());
    assert |p.path| == 1;
    var m := Missing(s.own, Way(p));
    assert m <= {Prefix(p, 0), Prefix(p, 1)};
    Smaller(m, {Prefix(p, 0), Prefix(p, 1)});
    var three := {s.first, s.first + 1, s.first + 2};
    assert three <= FreeSet(s.bitmap, s.first);
    Smaller(three, FreeSet(s.bitmap, s.first));
  }

  /** Once block 12 is there, block 13 lacks nothing but itself. */
  lemma RoomForOne(s: State)
    requires s.Sound() && s.Mapped(IND) != 0 && s.Apb() > 1
    ensures |Missing(s.own, Way(PosOf(IND + 1, s.Apb())))| <= 1
  {
    hide AddrsPerBlock, Entry, NodeAt, NoEntries, State.Sound, State.Mapped, Capacity, BlockSlot;
    EntryOfTwelve(s, 0);
    TwelvePos(1, s.Apb());
    var p := Below(Pos(IND, []), 1);
    assert Owned(s.own, Prefix(p, 0));
    var m := Missing(s.own, Way(p));
    assert m <= {Prefix(p, 1)};
    Smaller(m, {Prefix(p, 1)});
  }

  /** Logical blocks 12 and 13 of an empty inode are written. */
  method TwoWritten(disk: Disk) returns (v: Volume, block: nat)
    requires 4 <= |disk| <= WORD_LIMIT && Sized(disk, AddrsPerBlock(1024))
    ensures fresh(v) && v.Valid() && v.bs == 1024 && v.S().Mapped(IND) != 0 && v.S().Mapped(IND + 1) == block != 0
  {
    hide AddrsPerBlock, Entry, NodeAt, NoEntries, Capacity, Sized, Missing, Way, FreeCount, DataKept, CutAlong, Owned,
         BlockSlot, PosOf;
    hide State.Sound, State.Mapped, State.NoEmpty, Times, Extends, State.CacheOk, State.CacheSame, Single;
    v := new Volume(1024, 1, disk);
    ghost var s0 := v.S();
    RoomForThree(s0);
    ManyAddrs();
    TwelvePos(0, v.Apb());
    TwelvePos(1, v.Apb());
    var ok, data := v.MapBlockAlloc(IND);
    AllOnWay(s0, v.S(), IND);
    ExtraCount(s0.own, v.own, Way(PosOf(IND, v.Apb())));
    RoomForOne(v.S());
    ok, block := v.MapBlockAlloc(IND + 1);
  }

  lemma ManyAddrs()
    ensures AddrsPerBlock(1024) > 1
  {
  }

  /**
    With block 13 looked up and then released, the indirect block stays in use; a lookup through the cache still answers
    the block released.
   */
  method StaleCopy(disk: Disk) returns (v: Volume, was: nat, ok: bool, seen: nat)
    requires 4 <= |disk| <= WORD_LIMIT && Sized(disk, AddrsPerBlock(1024))
    ensures fresh(v) && SoundOnDisk(v.S()) && |v.slots| == SLOTS && v.slots[IND] in v.own && v.slots[IND] < |v.disk|
    ensures v.cached == v.slots[IND] && v.cachedBuf != v.disk[v.cached]
    ensures v.S().Mapped(IND) != 0 && v.S().Mapped(IND + 1) == 0
    ensures ok && seen == was && was !in v.own
  {
    hide AddrsPerBlock, Entry, NodeAt, NoEntries, Capacity, Sized, Missing, Way, FreeCount, CutAlong, BlockSlot, PosOf;
    hide State.Sound, State.Mapped, State.NoEmpty, CacheSpared, Range.Kept, Times, Extends, State.CacheOk, SoundOnDisk;
    v, was := TwoWritten(disk);
    ManyAddrs();
    EntryOfTwelve(v.S(), 1);
    CacheIsSame(v.S());
    LoadValid(v.S(), v.slots[IND]);
    var got, answer := v.IndirectEntry(v.slots[IND], 1);
    assert Entry(v.cachedBuf, 1) == was && 0 < was < |v.disk|;
    LosesBlock(v.S(), 1);
    ghost var s := v.S();
    var freed := FreeBlocksFrom(v, IND + 1, IND + 1);
    OnDiskStill(s, v.S(), Range(s.own, s.Apb(), IND + 1, IND + 1));
    ok, seen := v.IndirectEntry(v.slots[IND], 1);
  }

  /** Block 12 is still mapped on disk, so its indirect block is still in its slot. */
  lemma OnDiskStill(s: State, s': State, r: Range)
    requires s.Sound() && |s.slots| == SLOTS && s.slots[IND] in s.own && s.own[s.slots[IND]] == Pos(IND, [])
    requires SoundOnDisk(s') && s'.Mapped(IND) != 0 && s'.Apb() > 1 && r.own == s.own && s'.own == r.Kept()
    ensures |s'.slots| == SLOTS && s'.slots[IND] == s.slots[IND] && s'.slots[IND] in s'.own && 0 < s'.slots[IND] < |s'.disk|
  {
    hide AddrsPerBlock, Entry, BlockSlot, Capacity, State.Sound, Range.Doomed;
    TwelvePos(0, s'.Apb());
    assert |Below(Pos(IND, []), 0).path| == 1;
    SlotIsNode(s'.disk, s'.slots, IND);
    SingleOwn(s);
  }

  // ---------- an allocation that is not undone ----------

  /** One block free, two lacking. */
  lemma RoomForHalf(s: State)
    requires s == NewState(s.bs, s.first, s.disk) && s.first + 1 == |s.disk| && s.Apb() > 1
    ensures |Missing(s.own, Way(PosOf(IND + 1, s.Apb())))| == 2 && FreeCount(s.bitmap, s.first) == 1
  {
    hide AddrsPerBlock, Capacity, BlockSlot, PosOf;
    TwelvePos(1, s.Apb());
    var p := Below(Pos(IND, []), 1);
    assert Missing(s.own, Way(p)) == {Prefix(p, 0), Prefix(p, 1)};
    assert FreeSet(s.bitmap, s.first) == {s.first};
  }

  /**
    A volume of 13 blocks, the last one free: mapping logical block 13, its number the block count, fails, and what was
    made on the way stays in the inode.
   */
  method HalfMade(disk: Disk) returns (v: Volume, ok: bool)
    requires |disk| == IND + 1 && Sized(disk, AddrsPerBlock(1024))
    ensures fresh(v) && v.Apb() > 1 && IND + 1 == |v.disk| < Capacity(v.Apb())
    ensures !ok && v.own != map[] && v.S().Sound()
  {
    hide AddrsPerBlock, Entry, NodeAt, NoEntries, Capacity, Missing, Way, FreeCount, CutAlong, BlockSlot, PosOf, Sized;
    hide State.Sound, State.Mapped, State.NoEmpty, Times, State.CacheOk;
    v := new Volume(1024, IND, disk);
    ManyAddrs();
    TwelvePos(1, v.Apb());
    RoomForHalf(v.S());
    assert !v.bitmap[IND];
    var out;
    ok, out := v.MapBlockAlloc(IND + 1);
  }
}
