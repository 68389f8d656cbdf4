/** Placing a name in a directory block and taking one out, as edits of the block's list of records. */
module Ext2DirentEdit {
  import opened Words
  import opened Ext2Dirent

  // ---------- placing a name ----------

  datatype Verdict = Full | Placed | Exists | Corrupt

  /** A record in use that can give up `need` bytes and still hold its own name. */
  predicate Splittable(c: Block, need: nat)
    requires |c| >= HDR
  {
    |c| > need && |c| - need >= Need(NameLenOf(c))
  }

  /** The records `cs` have been seen, up to byte `off`. */
  ghost predicate Scanned(b: Block, cs: seq<Block>, off: nat) {
    && |b| < 65536 && off <= |b| && Records(cs) && b[..off] == Concat(cs)
    && Parse(b, 0) == Prepended(cs, Parse(b, off))
  }

  lemma ScanStart(b: Block)
    requires |b| < 65536
    ensures Scanned(b, [], 0)
  {
    hide Record;
    if Parse(b, 0).Good? {
      assert [] + Parse(b, 0).cs == Parse(b, 0).cs;
    }
  }

  /** Following one more record in a parse. */
  lemma ParseStep(b: Block, off: nat, len: nat)
    requires |b| < 65536 && RecordAt(b, off) == Rec(len)
    ensures HDR <= len && off + len <= |b| && HDR <= |b[off..off + len]|
    ensures var c := b[off..off + len]; Record(c) <==> !(Live(c) && !(0 < NameLenOf(c) <= len - HDR))
    ensures LenOf(b[off..off + len]) == len
    ensures Parse(b, off) == if !Record(b[off..off + len]) || Parse(b, off + len).Broken? then Broken
                             else Good([b[off..off + len]] + Parse(b, off + len).cs)
  {
    hide LenOf, InodeOf, NameLenOf;
    HeaderSlice(b, off, len);
  }

  /** The verdict of a whole parse, given the records already seen and the rest. */
  function Prepended(cs: seq<Block>, p: Parsed): Parsed {
    match p case Broken => Broken case Good(rest) => Good(cs + rest)
  }

  lemma ScanStep(b: Block, cs: seq<Block>, off: nat, len: nat)
    requires Scanned(b, cs, off) && RecordAt(b, off) == Rec(len)
    ensures HDR <= len && off + len <= |b|
    ensures Record(b[off..off + len]) ==> Scanned(b, cs + [b[off..off + len]], off + len)
    ensures !Record(b[off..off + len]) ==> Parse(b, 0) == Broken
  {
    hide Record, Parse, Concat;
    var c := b[off..off + len];
    ParseStep(b, off, len);
    if Record(c) {
      ConcatAppend(cs, [c]);
      ConcatOne(c);
      assert b[..off + len] == b[..off] + c;
      var p := Parse(b, off + len);
      if p.Good? {
        assert cs + ([c] + p.cs) == cs + [c] + p.cs;
      }
    }
  }


  // ---------- the scan ----------

  /** Record `i` of the list starts at byte `off`. */
  ghost predicate Stands(cs: seq<Block>, i: nat, off: nat) {
    i < |cs| && off == |Concat(cs[..i])|
  }

  predicate Hole(c: Block, need: nat) {
    |c| >= HDR && !Live(c) && |c| >= need
  }

  predicate Carvable(c: Block, need: nat) {
    |c| >= HDR && Live(c) && Splittable(c, need)
  }

  /** Record `i` is the first of the longest holes a record of `need` bytes fits in. */
  ghost predicate BestHole(cs: seq<Block>, need: nat, i: nat) {
    && i < |cs| && Hole(cs[i], need)
    && (forall j :: 0 <= j < |cs| && Hole(cs[j], need) ==> |cs[j]| <= |cs[i]|)
    && (forall j :: 0 <= j < i && Hole(cs[j], need) ==> |cs[j]| < |cs[i]|)
  }

  ghost predicate NoHole(cs: seq<Block>, need: nat) {
    forall j :: 0 <= j < |cs| ==> !Hole(cs[j], need)
  }

  ghost predicate FirstCarvable(cs: seq<Block>, need: nat, i: nat) {
    i < |cs| && Carvable(cs[i], need) && forall j :: 0 <= j < i ==> !Carvable(cs[j], need)
  }

  ghost predicate NoneCarvable(cs: seq<Block>, need: nat) {
    forall j :: 0 <= j < |cs| ==> !Carvable(cs[j], need)
  }

  ghost predicate HoleSeen(cs: seq<Block>, need: nat, i: nat, off: nat, len: nat) {
    if len == 0 then NoHole(cs, need) else Stands(cs, i, off) && BestHole(cs, need, i) && |cs[i]| == len
  }

  ghost predicate SplitSeen(cs: seq<Block>, need: nat, i: nat, off: int) {
    if off < 0 then NoneCarvable(cs, need) else Stands(cs, i, off) && FirstCarvable(cs, need, i)
  }

  lemma StandsStill(cs: seq<Block>, c: Block, i: nat, off: nat)
    requires Stands(cs, i, off)
    ensures Stands(cs + [c], i, off) && (cs + [c])[i] == cs[i]
  {
    assert (cs + [c])[..i] == cs[..i];
  }

  lemma StandsLast(cs: seq<Block>, c: Block)
    ensures Stands(cs + [c], |cs|, |Concat(cs)|) && (cs + [c])[|cs|] == c
  {
    assert (cs + [c])[..|cs|] == cs;
  }

  lemma HoleStep(cs: seq<Block>, c: Block, need: nat, i: nat, off: nat, len: nat)
    requires need > 0 && HoleSeen(cs, need, i, off, len)
    ensures if Hole(c, need) && |c| > len then HoleSeen(cs + [c], need, |cs|, |Concat(cs)|, |c|)
            else HoleSeen(cs + [c], need, i, off, len)
  {
    hide Live, Concat;
    StandsLast(cs, c);
    if len > 0 {
      StandsStill(cs, c, i, off);
    }
  }

  lemma SplitStep(cs: seq<Block>, c: Block, need: nat, i: nat, off: int)
    requires SplitSeen(cs, need, i, off)
    ensures if off < 0 && Carvable(c, need) then SplitSeen(cs + [c], need, |cs|, |Concat(cs)|)
            else SplitSeen(cs + [c], need, i, off)
  {
    hide Carvable, Concat;
    StandsLast(cs, c);
    if off >= 0 {
      StandsStill(cs, c, i, off);
    }
  }

  /** Whether the record is in use under this name. */
  predicate Bears(c: Block, name: Block)
    requires Record(c)
  {
    Live(c) && NameOf(c) == name
  }

  lemma NameStep(cs: seq<Block>, c: Block, name: Block)
    requires Record(c)
    ensures HasName(Entries(cs + [c]), name) <==> HasName(Entries(cs), name) || Bears(c, name)
  {
    hide Record, Live, NameOf, InodeOf;
    EntriesConcat(cs, [c]);
    var one := [c];
    assert one[1..] == [];
    var es, es' := Entries(cs), Entries(cs + [c]);
    if HasName(es, name) {
      var i :| 0 <= i < |es| && es[i].name == name;
      assert es'[i].name == name;
    }
    if Bears(c, name) {
      assert es'[|es|].name == name;
    }
  }

  lemma NamePrefix(cs: seq<Block>, rest: seq<Block>, name: Block)
    requires HasName(Entries(cs), name)
    ensures HasName(Entries(cs + rest), name)
  {
    hide Record, Live, NameOf, InodeOf;
    EntriesConcat(cs, rest);
    var es, es' := Entries(cs), Entries(cs + rest);
    var i :| 0 <= i < |es| && es[i].name == name;
    assert es'[i].name == name;
  }

  /** The scan of `ext2_dirent_place`: which records there are, whether the name is taken, and where there is room. */
  method Scan(buf: array<Byte>, need: nat, name: Block)
    returns (st: Verdict, holeOff: nat, holeLen: nat, splitOff: int, tailOff: nat, seen: bool,
             ghost cs: seq<Block>, ghost hole: nat, ghost split: nat)
    requires buf.Length < 65536 && need > 0
    ensures st != Placed
    ensures st == Corrupt ==> Parse(buf[..], 0) == Broken
    ensures st == Exists ==> Parse(buf[..], 0).Good? ==> HasName(Entries(Parse(buf[..], 0).cs), name)
    ensures st == Full ==> Parse(buf[..], 0) == Good(cs) && !HasName(Entries(cs), name)
    ensures st == Full ==> tailOff == |Concat(cs)| && (seen <==> cs != [])
    ensures st == Full ==> HoleSeen(cs, need, hole, holeOff, holeLen) && SplitSeen(cs, need, split, splitOff)
  {
    hide Concat, Parse, RecordAt, Entries, Record, Live, NameOf, InodeOf, NameLenOf, LenOf, HoleSeen,
         SplitSeen, Scanned, HasName;
    st, holeOff, holeLen, splitOff, tailOff, seen := Full, 0, 0, -1, 0, false;
    cs, hole, split := [], 0, 0;
    ScanBegins(buf[..], need, name);
    while true
      invariant st == Full && tailOff <= buf.Length && (seen <==> cs != [])
      invariant Scanned(buf[..], cs, tailOff) && tailOff == |Concat(cs)| && !HasName(Entries(cs), name)
      invariant HoleSeen(cs, need, hole, holeOff, holeLen) && SplitSeen(cs, need, split, splitOff)
      decreases buf.Length - tailOff
    {
      var b := buf[..];
      match RecordAt(b, tailOff)
      case Bad =>
        ScanStops(b, cs, tailOff);
        return Corrupt, holeOff, holeLen, splitOff, tailOff, seen, cs, hole, split;
      case End =>
        ScanStops(b, cs, tailOff);
        return;
      case Rec(len) =>
        var c := b[tailOff..tailOff + len];
        ParseStep(b, tailOff, len);
        ScanStep(b, cs, tailOff, len);
        if Live(c) {
          if NameLenOf(c) == 0 || NameLenOf(c) > len - HDR {
            return Corrupt, holeOff, holeLen, splitOff, tailOff, seen, cs, hole, split;
          }
          if NameOf(c) == name {
            NameStep(cs, c, name);
            FoundStays(b, cs + [c], tailOff + len, name);
            return Exists, holeOff, holeLen, splitOff, tailOff, seen, cs, hole, split;
          }
        }
        NameStep(cs, c, name);
        HoleStep(cs, c, need, hole, holeOff, holeLen);
        SplitStep(cs, c, need, split, splitOff);
        ConcatAppend(cs, [c]);
        ConcatOne(c);
        if !Live(c) {
          if len >= need && len > holeLen {
            holeLen, holeOff, hole := len, tailOff, |cs|;
          }
        } else if splitOff < 0 && len > need && len - need >= Ext2Dirent.Need(NameLenOf(c)) {
          splitOff, split := tailOff, |cs|;
        }
        cs, tailOff, seen := cs + [c], tailOff + len, true;
    }
  }

  lemma ScanBegins(b: Block, need: nat, name: Block)
    requires |b| < 65536
    ensures Scanned(b, [], 0) && !HasName(Entries([]), name) && Concat([]) == []
    ensures HoleSeen([], need, 0, 0, 0) && SplitSeen([], need, 0, -1)
  {
    ScanStart(b);
  }

  lemma ScanStops(b: Block, cs: seq<Block>, off: nat)
    requires Scanned(b, cs, off)
    ensures RecordAt(b, off) == End ==> Parse(b, 0) == Good(cs)
    ensures RecordAt(b, off) == Bad ==> Parse(b, 0) == Broken
  {
    hide RecordAt;
    if RecordAt(b, off) == End {
      assert cs + [] == cs;
    }
  }

  lemma FoundStays(b: Block, cs: seq<Block>, off: nat, name: Block)
    requires Scanned(b, cs, off) && HasName(Entries(cs), name)
    ensures Parse(b, 0).Good? ==> HasName(Entries(Parse(b, 0).cs), name)
  {
    hide Parse, HasName, Entries;
    if Parse(b, 0).Good? {
      NamePrefix(cs, Parse(b, off).cs, name);
    }
  }

  // ---------- the edits of placing ----------

  /** Where `ext2_dirent_place` decides to put a record. */
  datatype Spot = InHole(i: nat) | Carve(i: nat) | Append | NoRoom

  /** The choice the scan leads to: the longest hole, else the first record with slack, else the zeros at the end. */
  ghost predicate Chosen(cs: seq<Block>, tail: Block, need: nat, spot: Spot) {
    match spot
    case InHole(i) => BestHole(cs, need, i)
    case Carve(i) => NoHole(cs, need) && FirstCarvable(cs, need, i)
    case Append =>
      NoHole(cs, need) && NoneCarvable(cs, need) && |tail| >= need && (cs == [] || AllZero(tail))
    case NoRoom =>
      NoHole(cs, need) && NoneCarvable(cs, need) && cs != [] && !(|tail| >= need && AllZero(tail))
  }

  /** A record cut down to `keep` bytes: the same inode and name, and zeros after the name. */
  function Shortened(c: Block, keep: nat): (r: Block)
    requires |c| >= HDR && Need(NameLenOf(c)) <= keep <= |c| < 65536
    ensures |r| == keep
  {
    var self := Need(NameLenOf(c));
    c[..4] + [keep % 256, keep / 256] + c[6..self] + Zeros(keep - self)
  }

  lemma ShortenedIsRecord(c: Block, keep: nat)
    requires Record(c) && Live(c) && Need(NameLenOf(c)) <= keep <= |c| && keep % 4 == 0
    ensures var r := Shortened(c, keep);
            Record(r) && Live(r) && NameOf(r) == NameOf(c) && InodeOf(r) == InodeOf(c) && r[7] == c[7]
  {
    hide Decode;
    var r := Shortened(c, keep);
    assert r[0..4] == c[0..4];
    assert r[HDR..HDR + NameLenOf(c)] == c[HDR..HDR + NameLenOf(c)];
  }

  /** What is to be written: a name, its inode and the type of the file. */
  datatype Naming = Naming(name: Block, inum: nat, fileType: Byte) {
    predicate Ok() {
      0 < |name| < 256 && 0 < inum < WORD_LIMIT
    }

    function Need(): nat {
      Ext2Dirent.Need(|name|)
    }

    function Record(len: nat): (c: Block)
      requires Ok() && Need() <= len < 65536
      ensures |c| == len
    {
      NewRecord(name, inum, fileType, len)
    }
  }

  /** The records that take the place of record `i`, or that are put after all of them. */
  function Middle(cs: seq<Block>, n: Naming, spot: Spot): seq<Block>
    requires n.Ok() && Records(cs) && n.Need() < 65536 && spot != NoRoom
    requires spot.InHole? ==> spot.i < |cs| && Hole(cs[spot.i], n.Need())
    requires spot.Carve? ==> spot.i < |cs| && Carvable(cs[spot.i], n.Need())
  {
    match spot
    case InHole(i) => [n.Record(|cs[i]|)]
    case Carve(i) => [Shortened(cs[i], |cs[i]| - n.Need()), n.Record(n.Need())]
    case Append => [n.Record(n.Need())]
  }

  function Before(cs: seq<Block>, spot: Spot): seq<Block> {
    if (spot.InHole? || spot.Carve?) && spot.i < |cs| then cs[..spot.i] else cs
  }

  function After(cs: seq<Block>, spot: Spot): seq<Block> {
    if (spot.InHole? || spot.Carve?) && spot.i < |cs| then cs[spot.i + 1..] else []
  }

  /** The list of records after placing. */
  function Edited(cs: seq<Block>, n: Naming, spot: Spot): seq<Block>
    requires n.Ok() && Records(cs) && n.Need() < 65536 && spot != NoRoom
    requires spot.InHole? ==> spot.i < |cs| && Hole(cs[spot.i], n.Need())
    requires spot.Carve? ==> spot.i < |cs| && Carvable(cs[spot.i], n.Need())
  {
    Before(cs, spot) + Middle(cs, n, spot) + After(cs, spot)
  }

  function TailAfter(tail: Block, need: nat, spot: Spot): Block {
    if spot.Append? && |tail| >= need then tail[need..] else tail
  }

  lemma ThreeParts(a: seq<Block>, m: seq<Block>, z: seq<Block>)
    ensures Concat(a + m + z) == Concat(a) + Concat(m) + Concat(z)
    ensures Entries(a + m + z) == Entries(a) + Entries(m) + Entries(z)
  {
    hide Concat, Entries;
    ConcatAppend(a, m);
    ConcatAppend(a + m, z);
    EntriesConcat(a, m);
    EntriesConcat(a + m, z);
  }

  /** A list taken apart at record `i`. */
  lemma TakenApart(cs: seq<Block>, i: nat)
    requires i < |cs|
    ensures Concat(cs) == Concat(cs[..i]) + cs[i] + Concat(cs[i + 1..])
    ensures Entries(cs) == Entries(cs[..i]) + Entries([cs[i]]) + Entries(cs[i + 1..])
  {
    hide Concat, Entries;
    ApartAt(cs, i);
    ThreeParts(cs[..i], [cs[i]], cs[i + 1..]);
    ConcatOne(cs[i]);
  }

  lemma ApartAt(cs: seq<Block>, i: nat)
    requires i < |cs|
    ensures cs == cs[..i] + [cs[i]] + cs[i + 1..]
  {
  }

  /** The new records are records, and among them one name is new. */
  lemma MiddleEntries(cs: seq<Block>, n: Naming, spot: Spot)
    requires n.Ok() && Records(cs) && n.Need() < 65536 && spot != NoRoom
    requires spot.InHole? ==> spot.i < |cs| && Hole(cs[spot.i], n.Need())
    requires spot.Carve? ==> spot.i < |cs| && Carvable(cs[spot.i], n.Need())
    ensures Records(Middle(cs, n, spot))
    ensures Entries(Middle(cs, n, spot)) ==
            (if spot.Append? then [] else Entries([cs[spot.i]])) + [Entry(n.name, n.inum)]
  {
    hide Decode, InodeOf, LenOf, NameLenOf, NewRecord, Shortened;
    match spot
    case InHole(i) =>
      NewRecordIsRecord(n.name, n.inum, n.fileType, |cs[i]|);
      var one := [cs[i]];
      assert one[1..] == [];
    case Carve(i) =>
      var need := n.Need();
      var keep := |cs[i]| - need;
      assert Record(cs[i]);
      ShortenedIsRecord(cs[i], keep);
      NewRecordIsRecord(n.name, n.inum, n.fileType, need);
      var r, one := [Shortened(cs[i], keep)], [cs[i]];
      assert r[1..] == [] && one[1..] == [];
      assert Middle(cs, n, spot) == r + [n.Record(need)];
      EntriesConcat(r, [n.Record(need)]);
    case Append =>
      NewRecordIsRecord(n.name, n.inum, n.fileType, n.Need());
  }

  /** Where the record of the new name stands after placing. */
  function PlaceOfNew(cs: seq<Block>, spot: Spot): nat {
    |Before(cs, spot)| + if spot.Carve? then 1 else 0
  }

  /** The new record bears the name, the inode and the type; a record cut down for it keeps its type; no other changes. */
  lemma EditedTypes(cs: seq<Block>, n: Naming, spot: Spot)
    requires n.Ok() && Records(cs) && n.Need() < 65536 && spot != NoRoom
    requires spot.InHole? ==> spot.i < |cs| && Hole(cs[spot.i], n.Need())
    requires spot.Carve? ==> spot.i < |cs| && Carvable(cs[spot.i], n.Need())
    ensures var es, k := Edited(cs, n, spot), PlaceOfNew(cs, spot);
            && |es| == |cs| + (if spot.InHole? then 0 else 1) && k < |es|
            && Record(es[k]) && Live(es[k]) && NameOf(es[k]) == n.name && InodeOf(es[k]) == n.inum && es[k][7] == n.fileType
            && (spot.Carve? ==> |es[k - 1]| >= HDR && es[k - 1][7] == cs[spot.i][7])
            && forall j :: 0 <= j < |cs| && !((spot.InHole? || spot.Carve?) && j == spot.i) ==> cs[j] == es[if j < k then j else j + |es| - |cs|]
  {
    hide Decode, InodeOf, LenOf, NameLenOf, NewRecord, Shortened, Record, Live, NameOf;
    var len := if spot.InHole? then |cs[spot.i]| else n.Need();
    if spot.InHole? || spot.Carve? {
      RecordSize(cs[spot.i]);
    }
    NewRecordIsRecord(n.name, n.inum, n.fileType, len);
    NewRecordBytes(n.name, n.inum, n.fileType, len);
    if spot.Carve? {
      CarvedType(cs[spot.i], n);
    }
  }

  lemma RecordSize(c: Block)
    requires Record(c)
    ensures HDR <= |c| < 65536 && |c| % 4 == 0
  {
  }

  lemma CarvedType(c: Block, n: Naming)
    requires n.Ok() && n.Need() < 65536 && Record(c) && Carvable(c, n.Need())
    ensures Shortened(c, |c| - n.Need())[7] == c[7]
  {
    hide Decode, InodeOf, LenOf, Shortened;
    ShortenedIsRecord(c, |c| - n.Need());
  }

  lemma InsertedBy(before: seq<Entry>, own: seq<Entry>, after: seq<Entry>, e: Entry, es: seq<Entry>, es': seq<Entry>)
    requires es == before + own + after && es' == before + (own + [e]) + after
    ensures Inserted(es, es', e)
  {
    var head := before + own;
    assert es[..|head|] == head && es[|head|..] == after;
    assert es' == head + [e] + after;
  }

  lemma EditedRecords(cs: seq<Block>, n: Naming, spot: Spot)
    requires n.Ok() && Records(cs) && n.Need() < 65536 && spot != NoRoom
    requires spot.InHole? ==> spot.i < |cs| && Hole(cs[spot.i], n.Need())
    requires spot.Carve? ==> spot.i < |cs| && Carvable(cs[spot.i], n.Need())
    ensures Records(Before(cs, spot)) && Records(Middle(cs, n, spot)) && Records(After(cs, spot))
    ensures Entries(Edited(cs, n, spot)) ==
            Entries(Before(cs, spot)) + Entries(Middle(cs, n, spot)) + Entries(After(cs, spot))
  {
    hide Entries, Middle, Hole, Carvable, Record;
    MiddleEntries(cs, n, spot);
    EntriesConcat(Before(cs, spot), Middle(cs, n, spot));
    EntriesConcat(Before(cs, spot) + Middle(cs, n, spot), After(cs, spot));
  }

  /** Placing puts one name in, somewhere, and every other one stays where it was. */
  lemma EditInserts(cs: seq<Block>, n: Naming, spot: Spot)
    requires n.Ok() && Records(cs) && n.Need() < 65536 && spot != NoRoom
    requires spot.InHole? ==> spot.i < |cs| && Hole(cs[spot.i], n.Need())
    requires spot.Carve? ==> spot.i < |cs| && Carvable(cs[spot.i], n.Need())
    ensures Inserted(Entries(cs), Entries(Edited(cs, n, spot)), Entry(n.name, n.inum))
  {
    hide Entries, Middle, Hole, Carvable, Inserted, Record, Edited;
    var e := Entry(n.name, n.inum);
    EditedRecords(cs, n, spot);
    MiddleEntries(cs, n, spot);
    NoEntriesInNothing();
    var own := if spot.Append? then [] else Entries([cs[spot.i]]);
    if !spot.Append? {
      TakenApart(cs, spot.i);
    }
    InsertedBy(Entries(Before(cs, spot)), own, Entries(After(cs, spot)), e, Entries(cs), Entries(Edited(cs, n, spot)));
  }

  lemma NoEntriesInNothing()
    ensures Entries([]) == []
  {
  }

  // ---------- ext2_dirent_place ----------

  ghost predicate CanEdit(cs: seq<Block>, n: Naming, spot: Spot) {
    && n.Ok() && Records(cs) && n.Need() < 65536 && spot != NoRoom
    && (spot.InHole? ==> spot.i < |cs| && Hole(cs[spot.i], n.Need()))
    && (spot.Carve? ==> spot.i < |cs| && Carvable(cs[spot.i], n.Need()))
  }

  /** The bytes of the block after the edit: the edited records end to end, then what is left of the tail. */
  ghost predicate Written(b: Block, cs: seq<Block>, tail: Block, n: Naming, spot: Spot)
    requires CanEdit(cs, n, spot)
  {
    b == Concat(Before(cs, spot)) + Concat(Middle(cs, n, spot)) + Concat(After(cs, spot))
         + TailAfter(tail, n.Need(), spot)
  }

  method FillHole(buf: array<Byte>, ghost cs: seq<Block>, ghost tail: Block, ghost i: nat, off: nat, len: nat,
                  n: Naming, fileType: Byte, hasType: bool)
    requires buf.Length < 65536 && buf[..] == Concat(cs) + tail && n.fileType == if hasType then fileType else 0
    requires CanEdit(cs, n, InHole(i)) && Stands(cs, i, off) && |cs[i]| == len
    modifies buf
    ensures Written(buf[..], cs, tail, n, InHole(i))
  {
    hide Concat, Entries, Record, NewRecord, Live;
    TakenApart(cs, i);
    ghost var b, z := buf[..], Concat(cs[i + 1..]) + tail;
    assert b == Concat(cs[..i]) + cs[i] + z;
    assert b[..off] == Concat(cs[..i]) && b[off + len..] == z;
    DirentWrite(buf, off, n.inum, n.name, fileType, hasType, len);
    ConcatOne(n.Record(len));
    assert buf[..] == Concat(cs[..i]) + n.Record(len) + z;
  }

  /** Rewriting the length and clearing what follows the name shortens the record. */
  lemma ShortenedByPatches(c: Block, keep: nat)
    requires |c| >= HDR && Need(NameLenOf(c)) <= keep <= |c| < 65536
    ensures Splice(Splice(c, 4, [keep % 256, keep / 256]), Need(NameLenOf(c)), Zeros(keep - Need(NameLenOf(c))))
            == Shortened(c, keep) + c[keep..]
  {
  }

  /** Cuts a record short by `need` bytes where it stands. */
  method ShortenAt(buf: array<Byte>, ghost a: Block, ghost c: Block, ghost z: Block, off: nat, need: nat)
    returns (keep: nat)
    requires buf[..] == a + c + z && off == |a| && |c| < 65536
    requires |c| >= HDR && LenOf(c) == |c| && Splittable(c, need)
    modifies buf
    ensures keep == |c| - need && Need(NameLenOf(c)) <= keep
    ensures buf[..] == (a + Shortened(c, keep)) + c[keep..] + z
  {
    hide Splice, Shortened;
    HeaderBytes(buf[..], a, c, z);
    var len := (buf[off + 4] as int) + 256 * (buf[off + 5] as int);
    var self := Need(buf[off + 6]);
    keep := len - need;
    PutIn(buf, a, c, z, off, 4, [keep % 256, keep / 256]);
    PutIn(buf, a, Splice(c, 4, [keep % 256, keep / 256]), z, off, self, Zeros(keep - self));
    ShortenedByPatches(c, keep);
    Regroup(a, Shortened(c, keep), c[keep..], z);
  }

  method CarveRecord(buf: array<Byte>, ghost cs: seq<Block>, ghost tail: Block, ghost i: nat, off: nat,
                     n: Naming, fileType: Byte, hasType: bool)
    requires buf.Length < 65536 && buf[..] == Concat(cs) + tail && n.fileType == if hasType then fileType else 0
    requires CanEdit(cs, n, Carve(i)) && Stands(cs, i, off)
    modifies buf
    ensures Written(buf[..], cs, tail, n, Carve(i))
  {
    hide Concat, Entries, NewRecord, Live, Decode, Shortened, LenOf, NameLenOf, InodeOf, Zeros;
    TakenApart(cs, i);
    ghost var c, a, z := cs[i], Concat(cs[..i]), Concat(cs[i + 1..]) + tail;
    assert Record(c);
    assert buf[..] == a + c + z;
    var keep := ShortenAt(buf, a, c, z, off, n.Need());
    WriteOver(buf, a + Shortened(c, keep), c[keep..], z, off + keep, n, fileType, hasType);
    CarvedIsWritten(buf[..], cs, tail, n, i, keep);
  }

  lemma CarvedIsWritten(b: Block, cs: seq<Block>, tail: Block, n: Naming, i: nat, keep: nat)
    requires CanEdit(cs, n, Carve(i)) && keep == |cs[i]| - n.Need()
    requires b == (Concat(cs[..i]) + Shortened(cs[i], keep)) + n.Record(n.Need()) + (Concat(cs[i + 1..]) + tail)
    ensures Written(b, cs, tail, n, Carve(i))
  {
    hide Concat, Entries, NewRecord, Live, Decode, Shortened, LenOf, NameLenOf, InodeOf, Zeros;
    assert Record(cs[i]);
    ConcatTwo(Shortened(cs[i], keep), n.Record(n.Need()));
  }

  lemma Regroup(a: Block, s: Block, r: Block, z: Block)
    ensures a + (s + r) + z == (a + s) + r + z
  {
  }

  lemma HeaderBytes(b: Block, a: Block, c: Block, z: Block)
    requires b == a + c + z && |c| >= HDR
    ensures |a| + |c| <= |b|
    ensures b[|a| + 4] == c[4] && b[|a| + 5] == c[5] && b[|a| + 6] == c[6]
  {
  }

  method WriteOver(buf: array<Byte>, ghost a: Block, ghost c: Block, ghost z: Block, off: nat,
                   n: Naming, fileType: Byte, hasType: bool)
    requires buf.Length < 65536 && n.Ok() && n.fileType == if hasType then fileType else 0
    requires |c| == n.Need() && off == |a|
    requires buf[..] == a + c + z
    modifies buf
    ensures buf[..] == a + n.Record(n.Need()) + z
  {
    hide NewRecord;
    ghost var b := buf[..];
    assert b[..off] == a && b[off + |c|..] == z;
    DirentWrite(buf, off, n.inum, n.name, fileType, hasType, n.Need());
  }

  lemma ConcatTwo(c: Block, d: Block)
    ensures Concat([c, d]) == c + d
  {
    var two := [c, d];
    assert two[1..] == [d];
    ConcatOne(d);
  }

  method AppendRecord(buf: array<Byte>, ghost cs: seq<Block>, ghost tail: Block, off: nat,
                      n: Naming, fileType: Byte, hasType: bool)
    requires buf.Length < 65536 && buf[..] == Concat(cs) + tail && n.fileType == if hasType then fileType else 0
    requires CanEdit(cs, n, Append) && off == |Concat(cs)| && |tail| >= n.Need()
    modifies buf
    ensures Written(buf[..], cs, tail, n, Append)
  {
    hide Record, NewRecord, Live;
    var need := n.Need();
    ghost var b := buf[..];
    assert b[..off] == Concat(cs) && b[off + need..] == tail[need..];
    DirentWrite(buf, off, n.inum, n.name, fileType, hasType, need);
    ConcatOne(n.Record(need));
    assert Concat([]) == [];
    assert buf[..] == Concat(cs) + n.Record(need) + [] + tail[need..];
  }

  /** What `ext2_dirent_place` has done when it returns `st`. */
  ghost predicate Outcome(b: Block, b': Block, n: Naming, st: Verdict, spot: Spot)
    requires |b| < 65536
  {
    match st
    case Corrupt => Parse(b, 0) == Broken && b' == b
    case Exists => b' == b && (Parse(b, 0).Good? ==> HasName(Entries(Parse(b, 0).cs), n.name))
    case Full => b' == b && Fresh(b, n) && Chosen(Parse(b, 0).cs, TailOf(b), n.Need(), NoRoom)
    case Placed =>
      && Fresh(b, n) && Chosen(Parse(b, 0).cs, TailOf(b), n.Need(), spot)
      && CanEdit(Parse(b, 0).cs, n, spot) && Written(b', Parse(b, 0).cs, TailOf(b), n, spot)
  }

  /** The block can be read to its end and nothing in it has the name. */
  ghost predicate Fresh(b: Block, n: Naming)
    requires |b| < 65536
  {
    Parse(b, 0).Good? && !HasName(Entries(Parse(b, 0).cs), n.name)
  }

  /** What follows the records of a block. */
  function TailOf(b: Block): Block
    requires |b| < 65536
  {
    if Parse(b, 0).Good? && |Concat(Parse(b, 0).cs)| <= |b| then b[|Concat(Parse(b, 0).cs)|..] else []
  }

  lemma BlockIsRecordsAndTail(b: Block)
    requires |b| < 65536 && Parse(b, 0).Good?
    ensures b == Concat(Parse(b, 0).cs) + TailOf(b) && Tail(TailOf(b)) && Records(Parse(b, 0).cs)
  {
    hide Concat, Tail, Record, Parse;
    ParseIsConcat(b, 0);
  }

  method DirentPlace(buf: array<Byte>, n: Naming, fileType: Byte, hasType: bool) returns (st: Verdict, ghost spot: Spot)
    requires n.Ok() && n.Need() <= buf.Length < 65536 && n.fileType == if hasType then fileType else 0
    modifies buf
    ensures Outcome(old(buf[..]), buf[..], n, st, spot)
  {
    hide Concat, Entries, Record, Parse, BestHole, FirstCarvable, NoHole, NoneCarvable, HasName, Written, CanEdit,
         AllZero, Tail;
    ghost var b := buf[..];
    var need := n.Need();
    var verdict, holeOff, holeLen, splitOff, tailOff, seen, cs, hole, split := Scan(buf, need, n.name);
    st, spot := verdict, NoRoom;
    if verdict == Full {
      BlockIsRecordsAndTail(b);
      ghost var tail := TailOf(b);
      assert b[tailOff..] == tail;
      if holeLen >= need {
        spot := InHole(hole);
        CanFill(cs, n, hole);
        FillHole(buf, cs, tail, hole, holeOff, holeLen, n, fileType, hasType);
        st := Placed;
      } else {
        HoleTooShort(cs, need, hole, holeOff, holeLen);
        if splitOff >= 0 {
          spot := Carve(split);
          CanCarve(cs, n, split);
          CarveRecord(buf, cs, tail, split, splitOff, n, fileType, hasType);
          st := Placed;
        } else if !seen {
          spot := Append;
          NothingConcat();
          CanAppend(cs, n);
          AppendRecord(buf, cs, tail, 0, n, fileType, hasType);
          st := Placed;
        } else {
          var zero := false;
          if buf.Length - tailOff >= need {
            zero := AllZeroFrom(buf, tailOff);
          }
          if buf.Length - tailOff >= need && zero {
            spot := Append;
            CanAppend(cs, n);
            AppendRecord(buf, cs, tail, tailOff, n, fileType, hasType);
            st := Placed;
          }
        }
      }
    }
  }

  lemma NothingConcat()
    ensures Concat([]) == []
  {
  }

  lemma HoleTooShort(cs: seq<Block>, need: nat, i: nat, off: nat, len: nat)
    requires HoleSeen(cs, need, i, off, len) && len < need
    ensures NoHole(cs, need)
  {
  }

  lemma CanFill(cs: seq<Block>, n: Naming, i: nat)
    requires n.Ok() && Records(cs) && n.Need() < 65536
    ensures BestHole(cs, n.Need(), i) ==> CanEdit(cs, n, InHole(i))
  {
  }

  lemma CanCarve(cs: seq<Block>, n: Naming, i: nat)
    requires n.Ok() && Records(cs) && n.Need() < 65536
    ensures FirstCarvable(cs, n.Need(), i) ==> CanEdit(cs, n, Carve(i))
  {
  }

  lemma CanAppend(cs: seq<Block>, n: Naming)
    requires n.Ok() && Records(cs) && n.Need() < 65536
    ensures CanEdit(cs, n, Append)
  {
  }

  /** A name is refused as taken exactly when a record in use has it, and no answer but `Placed` comes with a change. */
  lemma ExistsExactly(b: Block, b': Block, n: Naming, st: Verdict, spot: Spot)
    requires |b| < 65536 && Outcome(b, b', n, st, spot)
    ensures Parse(b, 0).Good? ==> (st == Exists <==> HasName(Entries(Parse(b, 0).cs), n.name))
    ensures st != Placed ==> b' == b
    ensures st == Corrupt ==> Parse(b, 0) == Broken
  {
    hide Parse, Entries, HasName, Chosen, CanEdit, Written;
  }

  /** A well-formed block refuses a fresh name only when no hole, no slack and no tail is long enough. */
  lemma FullExactly(b: Block, b': Block, n: Naming, st: Verdict, spot: Spot)
    requires WellFormed(b) && Outcome(b, b', n, st, spot) && Fresh(b, n)
    ensures st == Full <==>
            var cs := Parse(b, 0).cs;
            cs != [] && |TailOf(b)| < n.Need() && forall j :: 0 <= j < |cs| ==> NoRoomIn(cs[j], n.Need())
  {
    hide Parse, Entries, HasName, Hole, Carvable, Written, Concat, NoRoomIn;
    assert AllZero(TailOf(b));
    forall j | 0 <= j < |Parse(b, 0).cs|
      ensures NoRoomIn(Parse(b, 0).cs[j], n.Need()) <==> !Hole(Parse(b, 0).cs[j], n.Need()) && !Carvable(Parse(b, 0).cs[j], n.Need())
    {
      NoRoomIs(Parse(b, 0).cs[j], n.Need());
    }
  }

  /** A hole is too short, and a record in use has too few bytes besides a header, its own name and what aligns them. */
  predicate NoRoomIn(c: Block, need: nat)
    requires Record(c)
  {
    if c[0] == c[1] == c[2] == c[3] == 0 then |c| < need
    else
      var own := 8 + c[6] as int + (if c[6] % 4 == 0 then 0 else 4 - c[6] % 4);
      |c| <= need || |c| - need < own
  }

  lemma NoRoomIs(c: Block, need: nat)
    requires Record(c)
    ensures NoRoomIn(c, need) <==> !Hole(c, need) && !Carvable(c, need)
  {
    hide Decode;
    DecodeIsZero(c[0..4]);
    assert c[0..4] == [c[0], c[1], c[2], c[3]];
    OwnBytes(c[6]);
  }

  lemma OwnBytes(k: nat)
    ensures Ext2Dirent.Need(k) == 8 + k + if k % 4 == 0 then 0 else 4 - k % 4
  {
  }

  lemma TailStays(tail: Block, need: nat, spot: Spot)
    requires AllZero(tail)
    ensures AllZero(TailAfter(tail, need, spot)) && Tail(TailAfter(tail, need, spot))
  {
    var t := TailAfter(tail, need, spot);
    if spot.Append? && |tail| >= need {
      forall i | 0 <= i < |t| ensures t[i] == 0 {
        assert t[i] == tail[need + i];
      }
    }
  }

  /** Placing a name keeps the block well formed, adds that one entry and leaves the others in their order. */
  lemma PlacedAddsOne(b: Block, b': Block, n: Naming, spot: Spot)
    requires WellFormed(b) && |b'| < 65536 && Outcome(b, b', n, Placed, spot)
    ensures WellFormed(b') && Parse(b', 0) == Good(Edited(Parse(b, 0).cs, n, spot))
    ensures Inserted(Entries(Parse(b, 0).cs), Entries(Parse(b', 0).cs), Entry(n.name, n.inum))
  {
    hide Parse, Entries, HasName, Hole, Carvable, Concat, Middle, Before, After, TailAfter, AllZero, Tail, Record,
         Inserted;
    var cs := Parse(b, 0).cs;
    TailStays(TailOf(b), n.Need(), spot);
    EditedRecords(cs, n, spot);
    EditInserts(cs, n, spot);
    Assembled(Before(cs, spot), Middle(cs, n, spot), After(cs, spot), TailAfter(TailOf(b), n.Need(), spot), b');
  }

  // ---------- the edit of ext2_dirent_remove ----------

  /** An empty record of `len` bytes. */
  function DeadRecord(len: nat): (c: Block)
    requires HDR <= len < 65536
    ensures |c| == len
  {
    Header(0, len, 0, 0) + Zeros(len - HDR)
  }

  lemma DeadRecordIsRecord(len: nat)
    requires HDR <= len < 65536 && len % 4 == 0
    ensures Record(DeadRecord(len)) && !Live(DeadRecord(len)) && Entries([DeadRecord(len)]) == []
  {
    hide Decode, Encode, InodeOf, LenOf, NameLenOf, Header;
    HeaderParts(0, len, 0, 0, Zeros(len - HDR));
    var one := [DeadRecord(len)];
    assert one[1..] == [];
  }

  /** Record `i` is the first in use with the name. */
  ghost predicate FirstBearing(cs: seq<Block>, name: Block, i: nat)
    requires Records(cs)
  {
    i < |cs| && Bears(cs[i], name) && forall j :: 0 <= j < i ==> !Bears(cs[j], name)
  }

  /** How many records the one at `i` becomes one with: itself, and the hole after it if there is one. */
  function Span(cs: seq<Block>, i: nat): (k: nat)
    requires i < |cs|
    ensures 1 <= k <= 2 && i + k <= |cs|
  {
    if i + 1 < |cs| && |cs[i + 1]| >= HDR && !Live(cs[i + 1]) then 2 else 1
  }

  /** The records after removing the one at `i`. */
  function Cleared(cs: seq<Block>, i: nat): seq<Block>
    requires i < |cs| && Records(cs) && |Concat(cs)| < 65536
  {
    SpanFits(cs, i);
    cs[..i] + [DeadRecord(|Concat(cs[i..i + Span(cs, i)])|)] + cs[i + Span(cs, i)..]
  }

  lemma SpanFits(cs: seq<Block>, i: nat)
    requires i < |cs| && Records(cs) && |Concat(cs)| < 65536
    ensures var run := cs[i..i + Span(cs, i)];
            && HDR <= |Concat(run)| < 65536 && |Concat(run)| % 4 == 0
            && Concat(cs) == Concat(cs[..i]) + Concat(run) + Concat(cs[i + Span(cs, i)..])
            && Entries(cs) == Entries(cs[..i]) + Entries([cs[i]]) + Entries(cs[i + Span(cs, i)..])
  {
    hide Concat, Entries, Live;
    var k := Span(cs, i);
    var run := cs[i..i + k];
    assert cs == cs[..i] + run + cs[i + k..];
    ThreeParts(cs[..i], run, cs[i + k..]);
    assert Record(cs[i]);
    if k == 1 {
      assert run == [cs[i]];
      ConcatOne(cs[i]);
    } else {
      assert Record(cs[i + 1]);
      assert run == [cs[i], cs[i + 1]] == [cs[i]] + [cs[i + 1]];
      ConcatTwo(cs[i], cs[i + 1]);
      EntriesConcat([cs[i]], [cs[i + 1]]);
      HoleHasNoEntry(cs[i + 1]);
    }
  }

  lemma HoleHasNoEntry(c: Block)
    ensures !Live(c) ==> Entries([c]) == []
    ensures Record(c) && Live(c) ==> Entries([c]) == [Entry(NameOf(c), InodeOf(c))]
  {
    var one := [c];
    assert one[1..] == [];
  }

  /** The first entry under the name is gone and the others are as they were. */
  ghost predicate Removed(es: seq<Entry>, es': seq<Entry>, name: Block) {
    exists k :: 0 <= k < |es| && es[k].name == name && !HasName(es[..k], name) && es' == es[..k] + es[k + 1..]
  }

  lemma NotBearing(cs: seq<Block>, name: Block)
    requires Records(cs) && forall j :: 0 <= j < |cs| ==> !Bears(cs[j], name)
    ensures !HasName(Entries(cs), name)
    decreases |cs|
  {
    hide Bears, Record, HasName, Entries;
    if cs == [] {
      NoEntriesInNothing();
      NoNameInNothing(name);
    } else {
      var m := |cs| - 1;
      NotBearing(cs[..m], name);
      assert cs == cs[..m] + [cs[m]];
      NameStep(cs[..m], cs[m], name);
    }
  }

  lemma NoNameInNothing(name: Block)
    ensures !HasName([], name)
  {
  }

  lemma RemovedBy(before: seq<Entry>, e: Entry, after: seq<Entry>, es: seq<Entry>, es': seq<Entry>)
    requires es == before + [e] + after && es' == before + [] + after && !HasName(before, e.name)
    ensures Removed(es, es', e.name)
  {
    hide HasName;
    var k := |before|;
    assert es[k].name == e.name && es[..k] == before && es[k + 1..] == after;
    assert es' == es[..k] + es[k + 1..];
  }

  /** Clearing the first record with the name takes out the first entry under it. */
  lemma ClearingRemoves(cs: seq<Block>, name: Block, i: nat)
    requires Records(cs) && |Concat(cs)| < 65536 && FirstBearing(cs, name, i)
    ensures Records(Cleared(cs, i)) && Removed(Entries(cs), Entries(Cleared(cs, i)), name)
  {
    hide Concat, Entries, Record, Header, Removed, HasName, NameOf, InodeOf, Span;
    SpanFits(cs, i);
    var rest := cs[i + Span(cs, i)..];
    var dead := DeadRecord(|Concat(cs[i..i + Span(cs, i)])|);
    DeadRecordIsRecord(|dead|);
    HoleHasNoEntry(cs[i]);
    NotBearing(cs[..i], name);
    ThreeParts(cs[..i], [dead], rest);
    RemovedBy(Entries(cs[..i]), Entry(name, InodeOf(cs[i])), Entries(rest), Entries(cs), Entries(Cleared(cs, i)));
  }

  /** The bytes of a hole that starts at `next`, if one does. */
  function HoleAt(b: Block, next: nat): (n: nat)
    ensures n > 0 ==> HDR <= n && next + n <= |b|
  {
    match RecordAt(b, next)
    case Rec(len) => if InodeOf(b[next..]) == 0 then len else 0
    case _ => 0
  }

  /** The first record of what is still to be read. */
  lemma NextRecord(b: Block, off: nat)
    requires |b| < 65536 && Parse(b, off).Good?
    ensures var rest := Parse(b, off).cs;
            HoleAt(b, off) == if rest != [] && |rest[0]| >= HDR && !Live(rest[0]) then |rest[0]| else 0
  {
    hide LenOf, NameLenOf, InodeOf;
    match RecordAt(b, off)
    case Rec(len) =>
      ParseStep(b, off, len);
      HeaderSlice(b, off, len);
    case _ =>
  }

  /** The record found, seen in the list of all records: what is before it, the run to clear, and what stays after. */
  lemma RunFound(b: Block, cs: seq<Block>, off: nat, len: nat)
    requires |b| < 65536 && Scanned(b, cs, off) && off == |Concat(cs)| && RecordAt(b, off) == Rec(len) && Parse(b, 0).Good?
    requires Record(b[off..off + len])
    ensures var full, total := Parse(b, 0).cs, len + HoleAt(b, off + len);
            && Records(full) && |Concat(full)| < 65536
            && |cs| < |full| && full[..|cs|] == cs && full[|cs|] == b[off..off + len]
            && off + total <= |b| && total < 65536
            && b[..off] + DeadRecord(total) + b[off + total..] == Concat(Cleared(full, |cs|)) + TailOf(b)
  {
    hide Concat, Parse, Record, Live, Entries, Tail, Cleared, DeadRecord, Scanned, TailOf;
    var full := Parse(b, 0).cs;
    RunStands(b, cs, off, len);
    BlockIsRecordsAndTail(b);
    ClearedBytes(b, full, |cs|, off, len + HoleAt(b, off + len));
  }

  lemma RunStands(b: Block, cs: seq<Block>, off: nat, len: nat)
    requires |b| < 65536 && Scanned(b, cs, off) && off == |Concat(cs)| && RecordAt(b, off) == Rec(len) && Parse(b, 0).Good?
    requires Record(b[off..off + len])
    ensures var full := Parse(b, 0).cs;
            && |cs| < |full| && full[..|cs|] == cs && full[|cs|] == b[off..off + len] && |full[|cs|]| == len
            && HoleAt(b, off + len) ==
               if |cs| + 1 < |full| && |full[|cs| + 1]| >= HDR && !Live(full[|cs| + 1]) then |full[|cs| + 1]| else 0
  {
    hide Concat, Parse, Record, Live, Entries, Tail;
    var c, full := b[off..off + len], Parse(b, 0).cs;
    ParseStep(b, off, len);
    ScanStep(b, cs, off, len);
    var rest := Parse(b, off + len).cs;
    assert full == cs + [c] + rest;
    NextRecord(b, off + len);
  }

  lemma ClearedBytes(b: Block, cs: seq<Block>, i: nat, off: nat, total: nat)
    requires Records(cs) && |Concat(cs)| < 65536 && i < |cs| && off == |Concat(cs[..i])| && |b| < 65536
    requires total == |cs[i]| + if i + 1 < |cs| && |cs[i + 1]| >= HDR && !Live(cs[i + 1]) then |cs[i + 1]| else 0
    requires b == Concat(cs) + TailOf(b)
    ensures HDR <= total && off + total <= |b|
    ensures b[..off] + DeadRecord(total) + b[off + total..] == Concat(Cleared(cs, i)) + TailOf(b)
  {
    hide Concat, Record, Live, Entries, Header, TailOf;
    SpanFits(cs, i);
    var k := Span(cs, i);
    var rest, dead := cs[i + k..], DeadRecord(|Concat(cs[i..i + k])|);
    RunLength(cs, i);
    assert b == Concat(cs[..i]) + Concat(cs[i..i + k]) + (Concat(rest) + TailOf(b));
    assert b[..off] == Concat(cs[..i]) && b[off + total..] == Concat(rest) + TailOf(b);
    ThreeParts(cs[..i], [dead], rest);
    ConcatOne(dead);
    assert Concat(Cleared(cs, i)) == Concat(cs[..i]) + dead + Concat(rest);
  }

  lemma RunLength(cs: seq<Block>, i: nat)
    requires i < |cs|
    ensures |Concat(cs[i..i + Span(cs, i)])| ==
            |cs[i]| + if i + 1 < |cs| && |cs[i + 1]| >= HDR && !Live(cs[i + 1]) then |cs[i + 1]| else 0
  {
    hide Concat, Live;
    if Span(cs, i) == 1 {
      assert cs[i..i + 1] == [cs[i]];
      ConcatOne(cs[i]);
    } else {
      assert cs[i..i + 2] == [cs[i], cs[i + 1]];
      ConcatTwo(cs[i], cs[i + 1]);
    }
  }

  /** Turns the record at `off`, and `extra` bytes of hole behind it, into one hole. */
  method ClearAt(buf: array<Byte>, off: nat, len: nat, extra: nat)
    requires HDR <= len && off + len + extra <= buf.Length < 65536
    modifies buf
    ensures buf[..] == old(buf[..off]) + DeadRecord(len + extra) + old(buf[off + (len + extra)..])
  {
    hide Header;
    ghost var a, c, z := buf[..off], buf[off..off + len + extra], buf[off + (len + extra)..];
    var total := len + extra;
    assert buf[..] == a + c + z;
    if extra > 0 {
      PutIn(buf, a, c, z, off, len, Zeros(extra));
      c := Splice(c, len, Zeros(extra));
    }
    PutIn(buf, a, c, z, off, 0, Header(0, total, 0, 0));
    c := Splice(c, 0, Header(0, total, 0, 0));
    PutIn(buf, a, c, z, off, HDR, Zeros(total - HDR));
    assert Splice(c, HDR, Zeros(total - HDR)) == DeadRecord(total);
  }

  /** What the edit has done: nothing, or the first record with the name has become a hole. */
  ghost predicate RemoveOutcome(b: Block, b': Block, name: Block, found: bool, at: nat)
    requires |b| < 65536
  {
    && (!found ==> b' == b)
    && (Parse(b, 0).Good? ==>
          var cs := Parse(b, 0).cs;
          if found then
            && Records(cs) && |Concat(cs)| < 65536 && FirstBearing(cs, name, at)
            && b' == Concat(Cleared(cs, at)) + TailOf(b)
          else !HasName(Entries(cs), name))
  }

  /** The edit of `ext2_dirent_remove` in one block. */
  method DirentRemove(buf: array<Byte>, name: Block) returns (found: bool, ghost at: nat)
    requires buf.Length < 65536
    modifies buf
    ensures RemoveOutcome(old(buf[..]), buf[..], name, found, at)
  {
    hide Concat, Parse, RecordAt, Entries, Record, Live, NameOf, InodeOf, NameLenOf, LenOf, Scanned, HasName, HoleAt,
         Cleared, TailOf, DeadRecord, Tail;
    ghost var b0 := buf[..];
    ghost var cs := [];
    var off := 0;
    at := 0;
    ScanBegins(buf[..], 1, name);
    while true
      invariant buf[..] == b0 && off <= buf.Length
      invariant Scanned(b0, cs, off) && off == |Concat(cs)| && Records(cs)
      invariant forall j :: 0 <= j < |cs| ==> !Bears(cs[j], name)
      decreases buf.Length - off
    {
      var b := buf[..];
      match RecordAt(b, off)
      case Bad =>
        ScanStops(b, cs, off);
        return false, 0;
      case End =>
        ScanStops(b, cs, off);
        NotBearing(cs, name);
        return false, 0;
      case Rec(len) =>
        var c := b[off..off + len];
        ParseStep(b, off, len);
        ScanStep(b, cs, off, len);
        if Live(c) {
          if NameLenOf(c) == 0 || NameLenOf(c) > len - HDR {
            return false, 0;
          }
          if NameOf(c) == name {
            var extra := HoleAt(b, off + len);
            FoundToRemove(b, cs, off, len, name);
            at := |cs|;
            ClearAt(buf, off, len, extra);
            return true, at;
          }
        }
        ConcatAppend(cs, [c]);
        ConcatOne(c);
        cs, off := cs + [c], off + len;
    }
  }

  lemma FoundToRemove(b: Block, cs: seq<Block>, off: nat, len: nat, name: Block)
    requires |b| < 65536 && Scanned(b, cs, off) && off == |Concat(cs)| && RecordAt(b, off) == Rec(len)
    requires HDR <= len && off + len <= |b| && Record(b[off..off + len]) && Bears(b[off..off + len], name)
    requires Records(cs) && forall j :: 0 <= j < |cs| ==> !Bears(cs[j], name)
    ensures off + len + HoleAt(b, off + len) <= |b|
    ensures Parse(b, 0).Good? ==>
            var full, total := Parse(b, 0).cs, len + HoleAt(b, off + len);
            && Records(full) && |Concat(full)| < 65536 && FirstBearing(full, name, |cs|)
            && HDR <= total < 65536 && off + total <= |b|
            && b[..off] + DeadRecord(total) + b[off + total..] == Concat(Cleared(full, |cs|)) + TailOf(b)
  {
    hide Concat, Parse, RecordAt, Entries, Record, Live, NameOf, InodeOf, NameLenOf, LenOf, Scanned, Cleared, TailOf,
         DeadRecord, Bears, HoleAt;
    if Parse(b, 0).Good? {
      RunFound(b, cs, off, len);
      var full := Parse(b, 0).cs;
      forall j | 0 <= j < |cs| ensures !Bears(full[j], name) {
        assert full[j] == full[..|cs|][j];
      }
    }
  }

  /** Removing finds a name exactly when it is in use; it keeps the block well formed and takes out one entry. */
  lemma RemovalTakesOne(b: Block, b': Block, name: Block, found: bool, at: nat)
    requires WellFormed(b) && |b'| < 65536 && RemoveOutcome(b, b', name, found, at)
    ensures WellFormed(b') && (found <==> HasName(Entries(Parse(b, 0).cs), name))
    ensures found ==> Removed(Entries(Parse(b, 0).cs), Entries(Parse(b', 0).cs), name)
    ensures !found ==> b' == b
  {
    hide Parse, Entries, HasName, Concat, AllZero, Tail, Record, Removed, Cleared, Bears;
    var cs := Parse(b, 0).cs;
    BlockIsRecordsAndTail(b);
    if found {
      ClearingRemoves(cs, name, at);
      ParseAll(Cleared(cs, at), TailOf(b), b');
      RemovedHad(Entries(cs), Entries(Cleared(cs, at)), name);
    }
  }

  lemma RemovedHad(es: seq<Entry>, es': seq<Entry>, name: Block)
    requires Removed(es, es', name)
    ensures HasName(es, name)
  {
  }

  lemma ParseAll(cs: seq<Block>, tail: Block, b: Block)
    requires Records(cs) && Tail(tail) && b == Concat(cs) + tail && |b| < 65536
    ensures Parse(b, 0) == Good(cs) && (AllZero(tail) <==> WellFormed(b))
  {
    hide Record, Concat, Parse, AllZero, Tail, WellFormed;
    assert b == [] + Concat(cs) + tail;
    ParseConcat([], cs, tail);
    WellFormedBy(b, cs, tail);
  }

  /** Placing a name that was free and then removing it leaves just the entries there were, in the same order. */
  lemma RemoveUndoesPlace(es: seq<Entry>, es': seq<Entry>, es'': seq<Entry>, e: Entry)
    requires !HasName(es, e.name) && Inserted(es, es', e) && Removed(es', es'', e.name)
    ensures es'' == es
  {
    var k :| 0 <= k <= |es| && es' == es[..k] + [e] + es[k..];
    var m :| 0 <= m < |es'| && es'[m].name == e.name && !HasName(es'[..m], e.name) && es'' == es'[..m] + es'[m + 1..];
    OnlyPlace(es, es', e, k, m);
    PutAndTaken(es, e, k);
  }

  lemma OnlyPlace(es: seq<Entry>, es': seq<Entry>, e: Entry, k: nat, m: nat)
    requires !HasName(es, e.name) && k <= |es| && es' == es[..k] + [e] + es[k..]
    requires m < |es'| && es'[m].name == e.name
    ensures m == k
  {
    forall i | 0 <= i < |es'| && i != k
      ensures es'[i].name != e.name
    {
      var j := if i < k then i else i - 1;
      assert es'[i] == es[j];
    }
  }

  lemma PutAndTaken(es: seq<Entry>, e: Entry, k: nat)
    requires k <= |es|
    ensures var es' := es[..k] + [e] + es[k..]; es'[..k] + es'[k + 1..] == es
  {
    var es' := es[..k] + [e] + es[k..];
    assert es'[..k] == es[..k] && es'[k + 1..] == es[k..];
  }

  /** A name placed in a well-formed block and removed again: it is found, and the entries are those of before. */
  lemma PlaceThenRemove(b: Block, b': Block, b'': Block, n: Naming, spot: Spot, found: bool, at: nat)
    requires WellFormed(b) && |b'| < 65536 && |b''| < 65536
    requires Outcome(b, b', n, Placed, spot) && RemoveOutcome(b', b'', n.name, found, at)
    ensures found && WellFormed(b'') && Entries(Parse(b'', 0).cs) == Entries(Parse(b, 0).cs)
  {
    hide Parse, Entries, HasName, Inserted, Removed, Concat, AllZero, Chosen, CanEdit, Written, Edited, RemoveOutcome;
    PlacedAddsOne(b, b', n, spot);
    var e := Entry(n.name, n.inum);
    InsertedHas(Entries(Parse(b, 0).cs), Entries(Parse(b', 0).cs), e);
    RemovalTakesOne(b', b'', n.name, found, at);
    RemoveUndoesPlace(Entries(Parse(b, 0).cs), Entries(Parse(b', 0).cs), Entries(Parse(b'', 0).cs), e);
  }

  lemma InsertedHas(es: seq<Entry>, es': seq<Entry>, e: Entry)
    requires Inserted(es, es', e)
    ensures HasName(es', e.name)
  {
    var k :| 0 <= k <= |es| && es' == es[..k] + [e] + es[k..];
    assert es'[k].name == e.name;
  }
}
