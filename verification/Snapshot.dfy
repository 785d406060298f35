/**
 Snapshots (internal/snapshot/snapshot.go): header, compressed records in walk order, checksum.
 Compression is a pair of functions of which only inflate(deflate(x)) == x is assumed.
 */
module Snapshot {
  import opened Octets
  import opened Records
  import opened Names
  import opened Zones
  import opened Tries
  import opened Walking
  import opened RadixTree
  import opened Codec
  import opened Wal

  const MAGIC: Bytes := [75, 68, 78, 83]
  const VERSION: Byte := 1
  const HEADER_SIZE := 13
  const MAX_U32 := 0xFFFF_FFFF

  /** deflate, inflate and the checksum. */
  datatype Lib = Lib(deflate: Bytes -> Bytes, inflate: Bytes -> Bytes, crc: Checksum)

  ghost predicate Inverts(lib: Lib) {
    forall x: Bytes :: lib.inflate(lib.deflate(x)) == x
  }

  // ---- saving ----

  predicate AllEncodable(w: seq<ListEntry>) {
    forall i :: 0 <= i < |w| ==> Encodable(w[i].name, w[i].rr)
  }

  function EncEntries(w: seq<ListEntry>): Bytes
    requires AllEncodable(w)
  {
    if w == [] then [] else EncRecord(w[0].name, w[0].rr) + EncEntries(w[1..])
  }

  function Header(count: U32, len: U32): (h: Bytes)
    ensures |h| == HEADER_SIZE
  {
    MAGIC + [VERSION] + PutU32(count) + PutU32(len)
  }

  function FileOf(count: U32, body: Bytes, crc: Checksum): Bytes
    requires |body| <= MAX_U32
  {
    var content := Header(count, |body|) + body;
    content + PutU32(crc(content))
  }

  /** A tree of count names that lists w can be saved. */
  predicate Savable(count: int, w: seq<ListEntry>, lib: Lib) {
    && 0 <= count <= MAX_U32 && AllEncodable(w)
    && |lib.deflate(EncEntries(w))| <= MAX_U32
  }

  lemma {:induction false} EncEntriesSnoc(w: seq<ListEntry>, i: nat)
    requires i < |w| && AllEncodable(w[..i]) && AllEncodable(w[..i + 1])
    ensures EncEntries(w[..i + 1]) == EncEntries(w[..i]) + EncRecord(w[i].name, w[i].rr)
    decreases i
  {
    hide EncRecord, SizeOk, SetsInLimits;
    if i == 0 {
      assert w[..1] == [w[0]] && w[..1][1..] == [] && w[..0] == [];
      assert EncEntries(w[..1]) == EncRecord(w[0].name, w[0].rr) + [];
    } else {
      assert w[..i + 1][1..] == w[1..][..i] && w[..i][1..] == w[1..][..i - 1];
      forall k | 0 <= k < i ensures Encodable(w[1..][..i][k].name, w[1..][..i][k].rr) {
        assert w[1..][..i][k] == w[..i + 1][k + 1];
      }
      assert AllEncodable(w[1..][..i - 1]) by { assert w[1..][..i - 1] == w[1..][..i][..i - 1]; }
      EncEntriesSnoc(w[1..], i - 1);
      assert w[1..][i - 1] == w[i];
      var x, y, z := EncRecord(w[0].name, w[0].rr), EncEntries(w[1..][..i - 1]), EncRecord(w[i].name, w[i].rr);
      assert w[..i + 1][0] == w[0] && w[..i][0] == w[0];
      assert x + (y + z) == (x + y) + z;
    }
  }

  method EncodeAll(w: seq<ListEntry>) returns (raw: Option<Bytes>)
    ensures raw.Some? <==> AllEncodable(w)
    ensures raw.Some? ==> raw.value == EncEntries(w)
  {
    hide EncRecord, Encodable;
    var acc: Bytes := [];
    assert w[..0] == [];
    for i := 0 to |w|
      invariant AllEncodable(w[..i]) && acc == EncEntries(w[..i])
    {
      var rec := WriteRecord(w[i].name, w[i].rr);
      if rec.None? { return None; }
      assert AllEncodable(w[..i + 1]) by {
        assert forall k :: 0 <= k < i ==> w[..i + 1][k] == w[..i][k];
      }
      EncEntriesSnoc(w, i);
      acc := acc + rec.value;
    }
    assert w[..|w|] == w;
    return Some(acc);
  }

  /** Walks the tree, encodes what it lists and frames the compressed bytes. */
  method Save(tree: Tree, lib: Lib) returns (out: Option<Bytes>)
    requires tree.Valid()
    ensures var w := Listing(tree.trie);
            && (out.Some? <==> Savable(|tree.contents|, w, lib))
            && (out.Some? ==> out.value == FileOf(|tree.contents|, lib.deflate(EncEntries(w)), lib.crc))
  {
    hide EncEntries, AllEncodable, PutU32, Header, Stored, Places, SeekFrom;
    var count := tree.Len();
    if count > MAX_U32 { return None; }
    SeekFromStart(tree.trie, None);
    var page := Seek(tree, [], None);
    var raw := EncodeAll(page.entries);
    if raw.None? { return None; }
    var body := lib.deflate(raw.value);
    if |body| > MAX_U32 { return None; }
    var content := Header(count, |body|) + body;
    return Some(content + PutU32(lib.crc(content)));
  }

  // ---- loading ----

  function ReadEntries(raw: Bytes, pos: nat, n: nat): Read<seq<Record>>
    decreases n
  {
    if n == 0 then Got([], pos)
    else
      match ReadRecord(raw, pos)
      case Eof => Eof
      case Corrupt => Corrupt
      case Got(rec, p) => Join([rec], ReadEntries(raw, p, n - 1))
  }

  /** The records a snapshot file delivers, or None when Load returns an error. */
  function LoadFile(b: Bytes, lib: Lib): Option<seq<Record>> {
    if |b| < HEADER_SIZE || b[..4] != MAGIC || b[4] != VERSION then None
    else
      var count, len := GetU32(b[5..9]), GetU32(b[9..13]);
      var end := if HEADER_SIZE + len <= |b| then HEADER_SIZE + len else |b|;
      match ReadEntries(lib.inflate(b[HEADER_SIZE..end]), 0, count)
      case Eof => None
      case Corrupt => None
      case Got(recs, _) =>
        if end + 4 <= |b| && GetU32(b[end..end + 4]) == lib.crc(b[..end]) then Some(recs) else None
  }

  function RecordOf(e: ListEntry): Record {
    Record(e.name, AllIN(e.rr))
  }

  function RecordsOfEntries(w: seq<ListEntry>): (r: seq<Record>)
    ensures |r| == |w|
  {
    seq(|w|, i requires 0 <= i < |w| => RecordOf(w[i]))
  }

  /** Reading n records from the encoding of w gives the first n, or end of file when n is too many. */
  lemma {:induction false} ReadEntriesAgrees(raw: Bytes, pos: nat, w: seq<ListEntry>, n: nat)
    requires AllEncodable(w) && Agrees(raw, pos, EncEntries(w)) && |raw| == pos + |EncEntries(w)|
    ensures n > |w| ==> ReadEntries(raw, pos, n) == Eof
    ensures n == |w| ==> ReadEntries(raw, pos, n) == Got(RecordsOfEntries(w), |raw|)
    decreases |w|
  {
    hide EncRecord, ReadRecord, SizeOk, SetsInLimits, Agrees;
    if w == [] {
      if n > 0 { ReadRecordAtEnd(raw); }
    } else {
      var e := EncRecord(w[0].name, w[0].rr);
      AgreesSplit(raw, pos, e, EncEntries(w[1..]));
      InLimitsOf(w[0]);
      ReadRecordAgrees(raw, pos, w[0].name, w[0].rr);
      if n > 0 {
        ReadEntriesAgrees(raw, pos + |e|, w[1..], n - 1);
        assert RecordsOfEntries(w) == [RecordOf(w[0])] + RecordsOfEntries(w[1..]);
      }
    }
  }

  lemma InLimitsOf(e: ListEntry)
    requires Encodable(e.name, e.rr)
    ensures InLimits(e.name, e.rr)
  {
  }

  lemma ReadRecordAtEnd(raw: Bytes)
    ensures ReadRecord(raw, |raw|) == Eof
  {
  }

  lemma HeaderParts(count: U32, body: Bytes, crc: Checksum)
    requires |body| <= MAX_U32
    ensures var b := FileOf(count, body, crc); var end := HEADER_SIZE + |body|;
            && |b| == end + 4 && b[..4] == MAGIC && b[4] == VERSION
            && GetU32(b[5..9]) == count && GetU32(b[9..13]) == |body|
            && b[HEADER_SIZE..end] == body && GetU32(b[end..end + 4]) == crc(b[..end])
  {
    hide PutU32, GetU32;
    var h := Header(count, |body|);
    var b := FileOf(count, body, crc);
    assert b[5..9] == PutU32(count) && b[9..13] == PutU32(|body|);
    U32RoundTrip(count);
    U32RoundTrip(|body|);
    assert b[..HEADER_SIZE + |body|] == h + body;
    assert b[HEADER_SIZE + |body|..HEADER_SIZE + |body| + 4] == PutU32(crc(h + body));
    U32RoundTrip(crc(h + body));
  }

  lemma LoadOfFile(w: seq<ListEntry>, count: nat, lib: Lib)
    requires Savable(count, w, lib) && Inverts(lib) && count >= |w|
    ensures LoadFile(FileOf(count, lib.deflate(EncEntries(w)), lib.crc), lib) ==
            if count == |w| then Some(RecordsOfEntries(w)) else None
  {
    hide FileOf, EncEntries, ReadEntries, GetU32, AllEncodable, LoadFile, RecordsOfEntries;
    var raw := EncEntries(w);
    LoadBody(count, lib.deflate(raw), lib);
    AgreesSelf(raw);
    ReadEntriesAgrees(raw, 0, w, count);
  }

  /** Of a well formed file, Load delivers what its inflated body holds. */
  lemma LoadBody(count: U32, body: Bytes, lib: Lib)
    requires |body| <= MAX_U32
    ensures LoadFile(FileOf(count, body, lib.crc), lib) ==
            match ReadEntries(lib.inflate(body), 0, count) case Got(recs, _) => Some(recs) case _ => None
  {
    hide FileOf, ReadEntries, GetU32;
    HeaderParts(count, body, lib.crc);
  }

  lemma AgreesSelf(b: Bytes)
    ensures Agrees(b, 0, b)
  {
  }

  // ---- the header count ----

  ghost function StoredPaths(ps: seq<Place>): set<Path> {
    set x | x in ps && x.rr != [] :: x.path
  }

  lemma StoredPathsStep(ps: seq<Place>)
    requires Distinct(ps) && ps != []
    ensures StoredPaths(ps) == StoredPaths(ps[1..]) + if ps[0].rr == [] then {} else {ps[0].path}
    ensures ps[0].path !in StoredPaths(ps[1..])
  {
    var rest := ps[1..];
    assert ps == [ps[0]] + rest;
    forall x | x in rest ensures x.path != ps[0].path {
      var i :| 0 <= i < |rest| && rest[i] == x;
      assert ps[i + 1] == x;
    }
  }

  lemma {:induction false} StoredCount(ps: seq<Place>)
    requires Distinct(ps)
    ensures |Stored(ps)| == |StoredPaths(ps)|
    decreases |ps|
  {
    hide StoredPaths, Stored;
    StoredStep(ps);
    if ps == [] {
      assert StoredPaths(ps) == {} by { NothingStored(); }
    } else {
      StoredCount(ps[1..]);
      StoredPathsStep(ps);
    }
  }

  lemma NothingStored()
    ensures StoredPaths([]) == {}
  {
  }

  ghost predicate AllFit(m: map<Path, RRSets>) {
    forall p :: p in m ==> Fits(p)
  }

  /** The tree's counter equals the number of listed names exactly when every name fits the walk's buffer. */
  lemma ListingCount(t: Trie, m: map<Path, RRSets>)
    requires WF(t) && Denotes(t, m)
    ensures |Listing(t)| <= |m|
    ensures |Listing(t)| == |m| <==> AllFit(m)
  {
    var ps := Places(t, []);
    PlacesDistinct(t, []);
    StoredCount(ps);
    var s := StoredPaths(ps);
    forall p ensures p in s <==> p in m && Fits(p) {
      StoredPathIff(t, m, p);
    }
    assert s <= m.Keys;
    SubsetSize(s, m.Keys);
    if |s| == |m.Keys| { assert s == m.Keys; }
    if AllFit(m) { assert s == m.Keys; }
  }

  lemma StoredPathIff(t: Trie, m: map<Path, RRSets>, p: Path)
    requires WF(t) && Denotes(t, m)
    ensures p in StoredPaths(Places(t, [])) <==> p in m && Fits(p)
  {
    var ps := Places(t, []);
    var x := Place(p, Lookup(t, p));
    PlacesExact(t, [], x);
    assert p[0..] == p;
    assert Fits([]);
    if p in StoredPaths(ps) {
      var y :| y in ps && y.rr != [] && y.path == p;
      PlacesExact(t, [], y);
    }
  }

  lemma SubsetSize<T>(a: set<T>, b: set<T>)
    requires a <= b
    ensures |a| <= |b|
    ensures |a| == |b| ==> a == b
  {
    var c := b - a;
    assert b == a + c;
  }

  // ---- rebuilding the map ----

  function Rebuild(recs: seq<Record>): map<Path, RRSets>
    decreases |recs|
  {
    if recs == [] then map[]
    else
      var r := recs[|recs| - 1];
      var m := Rebuild(recs[..|recs| - 1]);
      if r.sets == [] then m - {PathOf(r.domain)} else m[PathOf(r.domain) := r.sets]
  }

  ghost predicate DistinctRecords(recs: seq<Record>) {
    && (forall i, j :: 0 <= i < j < |recs| ==> PathOf(recs[i].domain) != PathOf(recs[j].domain))
    && (forall i :: 0 <= i < |recs| ==> recs[i].sets != [])
  }

  lemma RebuildSnoc(recs: seq<Record>, n: nat)
    requires DistinctRecords(recs) && |recs| == n + 1
    ensures DistinctRecords(recs[..n]) && Rebuild(recs) == Rebuild(recs[..n])[PathOf(recs[n].domain) := recs[n].sets]
  {
    hide PathOf;
  }

  lemma {:induction false} RebuildDomain(recs: seq<Record>, p: Path)
    requires DistinctRecords(recs)
    ensures p in Rebuild(recs) <==> exists i :: 0 <= i < |recs| && PathOf(recs[i].domain) == p
    decreases |recs|
  {
    if recs != [] {
      hide PathOf, DistinctRecords, Rebuild;
      var n := |recs| - 1;
      var front := recs[..n];
      RebuildSnoc(recs, n);
      RebuildDomain(front, p);
      if p in Rebuild(front) {
        var i :| 0 <= i < |front| && PathOf(front[i].domain) == p;
        assert PathOf(recs[i].domain) == p;
      }
      if i :| 0 <= i < |recs| && PathOf(recs[i].domain) == p {
        if i < n { assert PathOf(front[i].domain) == p; }
      }
    }
  }

  lemma {:induction false} RebuildDistinct(recs: seq<Record>, i: nat)
    requires DistinctRecords(recs) && i < |recs|
    ensures PathOf(recs[i].domain) in Rebuild(recs) && Rebuild(recs)[PathOf(recs[i].domain)] == recs[i].sets
    decreases |recs|
  {
    hide PathOf, Rebuild;
    var n := |recs| - 1;
    RebuildSnoc(recs, n);
    if i < n {
      assert recs[..n][i] == recs[i];
      RebuildDistinct(recs[..n], i);
    }
  }

  function ZoneIN(m: map<Path, RRSets>): map<Path, RRSets> {
    map p | p in m :: AllIN(m[p])
  }

  /** The loaded records rebuild the saved map, in class IN. */
  lemma RebuildListing(t: Trie, m: map<Path, RRSets>)
    requires WF(t) && Denotes(t, m) && ProperZone(m) && AllFit(m)
    ensures Rebuild(RecordsOfEntries(Listing(t))) == ZoneIN(m)
  {
    hide PathOf, Text, Rebuild, Listing, WF, Denotes, ProperPath, Fits, AllIN;
    var w := Listing(t);
    var recs := RecordsOfEntries(w);
    ListingDistinct(t, m);
    forall i | 0 <= i < |w|
      ensures var p := PathOf(recs[i].domain);
              p in m && recs[i].domain == Text(p) && recs[i].sets == AllIN(m[p]) && m[p] != []
    {
      EntryAt(t, m, i);
    }
    forall i | 0 <= i < |recs| ensures recs[i].sets != [] { NotEmptyIN(m[PathOf(recs[i].domain)]); }
    forall p | p in m ensures exists i :: 0 <= i < |recs| && PathOf(recs[i].domain) == p {
      ListingExact(t, m, ListEntry(Text(p), m[p]));
      var i :| 0 <= i < |w| && w[i] == ListEntry(Text(p), m[p]);
      PathOfText(p);
      assert PathOf(recs[i].domain) == p;
    }
    RebuiltIs(recs, m);
  }

  lemma NotEmptyIN(ss: RRSets)
    requires ss != []
    ensures AllIN(ss) != []
  {
    assert |AllIN(ss)| == |ss|;
  }

  lemma RebuiltIs(recs: seq<Record>, m: map<Path, RRSets>)
    requires DistinctRecords(recs)
    requires forall i :: 0 <= i < |recs| ==>
               PathOf(recs[i].domain) in m && recs[i].sets == AllIN(m[PathOf(recs[i].domain)])
    requires forall p :: p in m ==> exists i :: 0 <= i < |recs| && PathOf(recs[i].domain) == p
    ensures Rebuild(recs) == ZoneIN(m)
  {
    hide PathOf, AllIN, Rebuild, DistinctRecords;
    forall p ensures p in Rebuild(recs) <==> p in m {
      RebuildDomain(recs, p);
    }
    forall p | p in m ensures Rebuild(recs)[p] == AllIN(m[p]) {
      var i :| 0 <= i < |recs| && PathOf(recs[i].domain) == p;
      RebuildDistinct(recs, i);
    }
  }

  lemma EntryAt(t: Trie, m: map<Path, RRSets>, i: nat)
    requires WF(t) && Denotes(t, m) && ProperZone(m) && i < |Listing(t)|
    ensures var e := Listing(t)[i]; var p := PathOf(e.name); p in m && m[p] != [] && e == ListEntry(Text(p), m[p])
  {
    var e := Listing(t)[i];
    ListingExact(t, m, e);
    var p :| p in m && Fits(p) && e == ListEntry(Text(p), m[p]);
    PathOfText(p);
  }

  /**
   Loading a saved tree restores its map exactly when every stored name fits the walk's buffer
   and every record set is class IN.
   */
  lemma SaveLoad(t: Trie, m: map<Path, RRSets>, lib: Lib)
    requires WF(t) && Denotes(t, m) && ProperZone(m) && Inverts(lib) && Savable(|m|, Listing(t), lib)
    ensures var file := FileOf(|m|, lib.deflate(EncEntries(Listing(t))), lib.crc);
            LoadFile(file, lib).Some? && Rebuild(LoadFile(file, lib).value) == m <==> AllFit(m) && ZoneIN(m) == m
  {
    hide FileOf, LoadFile, EncEntries, Savable, Rebuild, ZoneIN;
    ListingCount(t, m);
    LoadOfFile(Listing(t), |m|, lib);
    if AllFit(m) { RebuildListing(t, m); }
  }
}
