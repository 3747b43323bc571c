/**
 The flat-file block store (storage/flatfile.go). Blocks are appended to one data file per chunk of
 10000 heights; a positional index file holds one 16-byte entry per height. The files are modelled
 byte by byte and proved to hold a map from heights to blocks.
 */
module FlatFile {
  import opened Options
  import opened Uint64
  import opened Bytes
  import opened Numerals
  import opened Ordering

  const CHUNK: nat := 10000
  const ENTRY: nat := 16
  const HASH: nat := 32
  const TWO_32: nat := 0x1_0000_0000

  function ChunkStart(height: nat): nat {
    height / CHUNK * CHUNK
  }

  function Pos(height: nat): nat {
    height - ChunkStart(height)
  }

  /** Chunks are the ranges of 10000 heights that begin at a multiple of 10000. */
  lemma ChunkOf(height: nat)
    ensures ChunkStart(height) % 10000 == 0 && ChunkStart(height) <= height < ChunkStart(height) + 10000
    ensures ChunkStart(height) + Pos(height) == height
  {
  }

  // ---- index entries as bytes ----

  datatype Entry = Entry(offset: nat, length: nat, height: nat)

  const EMPTY: Entry := Entry(0, 0, 0)

  /** Big-endian offset, length and height; each field keeps its low bytes only. */
  function EncodeEntry(e: Entry): (bs: seq<byte>)
    ensures |bs| == ENTRY
  {
    Fixed(e.offset, 256, 8) + Fixed(e.length, 256, 4) + Fixed(e.height, 256, 4)
  }

  function DecodeEntry(bs: seq<byte>): Entry
    requires |bs| == ENTRY
  {
    Entry(Value(bs[0..8], 256), Value(bs[8..12], 256), Value(bs[12..16], 256))
  }

  ghost predicate EntryFits(e: Entry) {
    e.offset < TWO_64 && e.length < TWO_32 && e.height < TWO_32
  }

  lemma Widths()
    ensures Pow(256, 4) == TWO_32 && Pow(256, 8) == TWO_64
  {
    assert Pow(256, 4) == TWO_32;
    PowSplit(256, 4, 4);
  }

  lemma EntryRoundTrip(e: Entry)
    requires EntryFits(e)
    ensures DecodeEntry(EncodeEntry(e)) == e
  {
    Widths();
    ValueOfFixed(e.offset, 256, 8);
    ValueOfFixed(e.length, 256, 4);
    ValueOfFixed(e.height, 256, 4);
    var bs := EncodeEntry(e);
    assert bs[0..8] == Fixed(e.offset, 256, 8);
    assert bs[8..12] == Fixed(e.length, 256, 4);
    assert bs[12..16] == Fixed(e.height, 256, 4);
  }

  /** Where the fields lie: 8 bytes of offset, 4 of length, 4 of height, most significant byte first. */
  lemma EntryLayout(e: Entry)
    requires EntryFits(e)
    ensures
      var bs := EncodeEntry(e);
      && |bs| == 16 && Value(bs[0..8], 256) == e.offset && Value(bs[8..12], 256) == e.length
      && Value(bs[12..16], 256) == e.height
      && bs[15] == e.height % 256 && bs[14] == e.height / 256 % 256
  {
    EntryRoundTrip(e);
    LastTwo(e.height);
    assert EncodeEntry(e)[12..16] == Fixed(e.height, 256, 4);
  }

  lemma LastTwo(n: nat)
    ensures Fixed(n, 256, 4)[3] == n % 256 && Fixed(n, 256, 4)[2] == n / 256 % 256
  {
  }

  /** The entries of an index file. */
  ghost function Slots(idx: seq<byte>): (s: seq<Entry>)
    ensures |s| == |idx| / ENTRY
  {
    seq(|idx| / ENTRY, i requires 0 <= i < |idx| / ENTRY => DecodeEntry(idx[ENTRY * i..ENTRY * i + ENTRY]))
  }

  /** Seek and write: a gap before `off` reads as zeros afterwards. */
  function WriteAt(f: seq<byte>, off: nat, bs: seq<byte>): seq<byte> {
    var base := if |f| < off then f + Zeros(off - |f|) else f;
    base[..off] + bs + if off + |bs| < |base| then base[off + |bs|..] else []
  }

  /** os.Truncate: cuts the file or extends it with zeros. */
  function Truncate(f: seq<byte>, size: nat): (r: seq<byte>)
    ensures |r| == size
  {
    if size <= |f| then f[..size] else f + Zeros(size - |f|)
  }

  ghost function EmptySlots(k: nat): (s: seq<Entry>)
    ensures |s| == k
  {
    seq(k, _ => EMPTY)
  }

  ghost function SetSlot(s: seq<Entry>, pos: nat, e: Entry): seq<Entry> {
    if pos < |s| then s[pos := e] else s + EmptySlots(pos - |s|) + [e]
  }

  ghost function TruncateSlots(s: seq<Entry>, n: nat): (r: seq<Entry>)
    ensures |r| == n
  {
    if n <= |s| then s[..n] else s + EmptySlots(n - |s|)
  }

  lemma {:induction false} ZeroValue(k: nat)
    ensures Value(Zeros(k), 256) == 0
  {
    if k > 0 {
      assert Zeros(k)[..k - 1] == Zeros(k - 1);
      ZeroValue(k - 1);
    }
  }

  lemma ZeroEntry(bs: seq<byte>)
    requires bs == Zeros(ENTRY)
    ensures DecodeEntry(bs) == EMPTY
  {
    ZeroValue(8);
    ZeroValue(4);
    assert bs[0..8] == Zeros(8) && bs[8..12] == Zeros(4) && bs[12..16] == Zeros(4);
  }

  /** The bytes of a file after a write. */
  lemma WriteAtBytes(f: seq<byte>, off: nat, bs: seq<byte>)
    ensures |WriteAt(f, off, bs)| == if off + |bs| < |f| then |f| else off + |bs|
    ensures forall k :: 0 <= k < |WriteAt(f, off, bs)| ==>
                          WriteAt(f, off, bs)[k] ==
                          if off <= k < off + |bs| then bs[k - off] else if k < |f| then f[k] else 0
  {
  }

  /** Writing an entry into the index file writes exactly one slot. */
  lemma SlotsOfWrite(idx: seq<byte>, pos: nat, e: Entry)
    requires |idx| % ENTRY == 0 && EntryFits(e)
    ensures
      var idx' := WriteAt(idx, pos * ENTRY, EncodeEntry(e));
      |idx'| % ENTRY == 0 && Slots(idx') == SetSlot(Slots(idx), pos, e)
  {
    hide WriteAt, EncodeEntry, DecodeEntry;
    var idx' := WriteAt(idx, pos * ENTRY, EncodeEntry(e));
    WriteAtBytes(idx, pos * ENTRY, EncodeEntry(e));
    var s, s' := SetSlot(Slots(idx), pos, e), Slots(idx');
    assert |s| == |s'|;
    forall i | 0 <= i < |s'| ensures s'[i] == s[i] {
      var cut := idx'[ENTRY * i..ENTRY * i + ENTRY];
      if i == pos {
        assert cut == EncodeEntry(e);
        EntryRoundTrip(e);
      } else if ENTRY * i < |idx| {
        assert cut == idx[ENTRY * i..ENTRY * i + ENTRY];
      } else {
        assert cut == Zeros(ENTRY);
        ZeroEntry(cut);
      }
    }
  }

  lemma SlotsOfTruncate(idx: seq<byte>, n: nat)
    requires |idx| % ENTRY == 0
    ensures Slots(Truncate(idx, n * ENTRY)) == TruncateSlots(Slots(idx), n)
  {
    var idx' := Truncate(idx, n * ENTRY);
    var s, s' := TruncateSlots(Slots(idx), n), Slots(idx');
    forall i | 0 <= i < |s'| ensures s'[i] == s[i] {
      var cut := idx'[ENTRY * i..ENTRY * i + ENTRY];
      if ENTRY * i < |idx| {
        assert cut == idx[ENTRY * i..ENTRY * i + ENTRY];
      } else {
        assert cut == Zeros(ENTRY);
        ZeroEntry(cut);
      }
    }
  }

  // ---- chunks hold a map from heights to blocks ----

  datatype Chunk = Chunk(slots: seq<Entry>, dat: seq<byte>)

  type Chunks = map<nat, Chunk>

  type Blocks = map<nat, seq<byte>>

  /** Blocks for which 32-bit heights and lengths are exact. */
  ghost predicate Storable(height: nat, data: seq<byte>) {
    1 <= height < TWO_32 && 0 < |data| < TWO_32 - HASH
  }

  /** Slot `pos` points at an intact record: the data followed by its hash. */
  ghost predicate Record(sha: Hasher, ch: Chunk, pos: nat, height: nat, data: seq<byte>) {
    && pos < |ch.slots|
    && var e := ch.slots[pos];
    && e.length == |data| && e.height == height
    && End(e) <= |ch.dat|
    && ch.dat[e.offset..e.offset + e.length] == data
    && ch.dat[e.offset + e.length..End(e)] == sha(data)
  }

  /** Where a record ends in the data file. */
  function End(e: Entry): nat {
    e.offset + e.length + HASH
  }

  ghost predicate WellPlaced(cs: Chunks) {
    forall c :: c in cs ==> ChunkStart(c) == c && |cs[c].slots| <= CHUNK
  }

  ghost predicate Stored(sha: Hasher, cs: Chunks, m: Blocks) {
    forall h :: h in m ==>
                  && Storable(h, m[h]) && ChunkStart(h) in cs
                  && Record(sha, cs[ChunkStart(h)], Pos(h), h, m[h])
  }

  /** The height has no entry, or one that was never written. */
  ghost predicate EmptyAt(cs: Chunks, height: nat) {
    var ch := ChunkAt(cs, ChunkStart(height));
    Pos(height) < |ch.slots| ==> ch.slots[Pos(height)] == EMPTY
  }

  ghost predicate OthersEmpty(cs: Chunks, m: Blocks) {
    forall h :: h !in m ==> EmptyAt(cs, h)
  }

  ghost predicate Inhabited(cs: Chunks, m: Blocks) {
    forall c :: c in cs ==> exists h :: h in m && ChunkStart(h) == c
  }

  /** The files hold exactly the blocks of `m`, and no chunk without blocks. */
  ghost predicate Holds(sha: Hasher, cs: Chunks, m: Blocks) {
    WellPlaced(cs) && Stored(sha, cs, m) && OthersEmpty(cs, m) && Inhabited(cs, m)
  }

  lemma Placement(c: nat, p: nat)
    requires ChunkStart(c) == c && p < CHUNK
    ensures ChunkStart(c + p) == c && Pos(c + p) == p
  {
  }

  lemma PlacementOf(h: nat)
    ensures ChunkStart(ChunkStart(h)) == ChunkStart(h) && ChunkStart(h) + Pos(h) == h && Pos(h) < CHUNK
    ensures ChunkStart(h) <= h
  {
  }

  ghost function ChunkAt(cs: Chunks, c: nat): Chunk {
    if c in cs then cs[c] else Chunk([], [])
  }

  /** WriteBlock on one chunk: append data and hash, overwrite the slot. */
  ghost function Append(sha: Hasher, ch: Chunk, height: nat, data: seq<byte>): Chunk {
    Chunk(SetSlot(ch.slots, Pos(height), Entry(|ch.dat|, |data| % TWO_32, height % TWO_32)),
          ch.dat + data + sha(data))
  }

  ghost function Put(sha: Hasher, cs: Chunks, height: nat, data: seq<byte>): Chunks {
    cs[ChunkStart(height) := Append(sha, ChunkAt(cs, ChunkStart(height)), height, data)]
  }

  lemma RecordKept(sha: Hasher, ch: Chunk, pos: nat, height: nat, data: seq<byte>, h: nat, d: seq<byte>)
    requires Record(sha, ch, pos, h, d) && pos != Pos(height)
    ensures Record(sha, Append(sha, ch, height, data), pos, h, d)
  {
    var e, ch' := ch.slots[pos], Append(sha, ch, height, data);
    assert ch'.slots[pos] == e;
    assert ch'.dat[e.offset..e.offset + e.length] == ch.dat[e.offset..e.offset + e.length];
    assert ch'.dat[e.offset + e.length..End(e)] == ch.dat[e.offset + e.length..End(e)];
  }

  lemma RecordAdded(sha: Hasher, ch: Chunk, height: nat, data: seq<byte>)
    requires Storable(height, data)
    ensures Record(sha, Append(sha, ch, height, data), Pos(height), height, data)
  {
    var ch' := Append(sha, ch, height, data);
    var e := ch'.slots[Pos(height)];
    assert e == Entry(|ch.dat|, |data|, height);
    assert ch'.dat[e.offset..e.offset + e.length] == data;
    assert ch'.dat[e.offset + e.length..End(e)] == sha(data);
  }

  lemma PutStored(sha: Hasher, cs: Chunks, m: Blocks, height: nat, data: seq<byte>)
    requires Stored(sha, cs, m) && Storable(height, data)
    ensures Stored(sha, Put(sha, cs, height, data), m[height := data])
  {
    hide Append, Record;
    var c := ChunkStart(height);
    var cs', m' := Put(sha, cs, height, data), m[height := data];
    forall h | h in m'
      ensures Storable(h, m'[h]) && ChunkStart(h) in cs' && Record(sha, cs'[ChunkStart(h)], Pos(h), h, m'[h])
    {
      PlacementOf(h);
      PlacementOf(height);
      if h == height {
        RecordAdded(sha, ChunkAt(cs, c), height, data);
      } else if ChunkStart(h) == c {
        RecordKept(sha, cs[c], Pos(h), height, data, h, m[h]);
      }
    }
  }

  lemma PutOthersEmpty(sha: Hasher, cs: Chunks, m: Blocks, height: nat, data: seq<byte>)
    requires WellPlaced(cs) && OthersEmpty(cs, m)
    ensures WellPlaced(Put(sha, cs, height, data)) && OthersEmpty(Put(sha, cs, height, data), m[height := data])
  {
    var cs', m' := Put(sha, cs, height, data), m[height := data];
    PlacementOf(height);
    forall h | h !in m' ensures EmptyAt(cs', h) {
      PlacementOf(h);
      assert EmptyAt(cs, h);
    }
  }

  /** Any write, at any height and also over an old block, updates the map at that height alone. */
  lemma PutHolds(sha: Hasher, cs: Chunks, m: Blocks, height: nat, data: seq<byte>)
    requires Holds(sha, cs, m) && Storable(height, data)
    ensures Holds(sha, Put(sha, cs, height, data), m[height := data])
  {
    hide Append, Stored, OthersEmpty;
    PutStored(sha, cs, m, height, data);
    PutOthersEmpty(sha, cs, m, height, data);
    var cs', m' := Put(sha, cs, height, data), m[height := data];
    forall b | b in cs' ensures exists h :: h in m' && ChunkStart(h) == b {
      if b == ChunkStart(height) {
        assert height in m';
      } else {
        var h :| h in m && ChunkStart(h) == b;
        assert h in m';
      }
    }
  }

  /** Over any run of writes, in any height order and with overwrites, the files hold the last data. */
  lemma {:induction false} WritesRefineMap(sha: Hasher, writes: seq<(nat, seq<byte>)>)
    requires forall w :: w in writes ==> Storable(w.0, w.1)
    ensures Holds(sha, FilesAfter(sha, writes), MapAfter(writes))
  {
    if writes != [] {
      hide Holds, Put;
      var i := |writes| - 1;
      WritesRefineMap(sha, writes[..i]);
      assert writes[i] in writes;
      PutHolds(sha, FilesAfter(sha, writes[..i]), MapAfter(writes[..i]), writes[i].0, writes[i].1);
    }
  }

  ghost function FilesAfter(sha: Hasher, writes: seq<(nat, seq<byte>)>): Chunks {
    if writes == [] then map[]
    else var i := |writes| - 1; Put(sha, FilesAfter(sha, writes[..i]), writes[i].0, writes[i].1)
  }

  ghost function MapAfter(writes: seq<(nat, seq<byte>)>): Blocks {
    if writes == [] then map[] else var i := |writes| - 1; MapAfter(writes[..i])[writes[i].0 := writes[i].1]
  }

  // ---- reading ----

  /** The part of ReadBlock after the index entry has been read. */
  function DataOf(e: Entry, dat: seq<byte>, height: nat): Option<seq<byte>> {
    if e.height != height % TWO_32 || e.length == 0 || e.offset + e.length > |dat| then None
    else Some(dat[e.offset..e.offset + e.length])
  }

  /** The same for ReadBlockWithVerify; the length check adds the hash size in 32 bits. */
  function VerifiedDataOf(sha: Hasher, e: Entry, dat: seq<byte>, height: nat): Option<seq<byte>> {
    var total := (e.length + HASH) % TWO_32;
    if e.height != height % TWO_32 || e.length == 0 || e.length > total || e.offset + total > |dat| then None
    else
      var data := dat[e.offset..e.offset + e.length];
      if sha(data) == dat[e.offset + e.length..e.offset + total] then Some(data) else None
  }

  ghost function Read(cs: Chunks, height: nat): Option<seq<byte>> {
    var ch, pos := ChunkAt(cs, ChunkStart(height)), Pos(height);
    if pos >= |ch.slots| then None else DataOf(ch.slots[pos], ch.dat, height)
  }

  ghost function ReadVerified(sha: Hasher, cs: Chunks, height: nat): Option<seq<byte>> {
    var ch, pos := ChunkAt(cs, ChunkStart(height)), Pos(height);
    if pos >= |ch.slots| then None else VerifiedDataOf(sha, ch.slots[pos], ch.dat, height)
  }

  ghost predicate Has(cs: Chunks, height: nat) {
    var ch, pos := ChunkAt(cs, ChunkStart(height)), Pos(height);
    pos < |ch.slots| && ch.slots[pos].height == height % TWO_32
  }

  /**
   What a read promises on any files, intact or not: the entry carries the requested height and a
   length, the bytes lie within the data file, and with verification their hash follows them.
   */
  lemma ReadGuards(sha: Hasher, cs: Chunks, height: nat, data: seq<byte>)
    ensures
      var ch, pos := ChunkAt(cs, ChunkStart(height)), Pos(height);
      && (Read(cs, height) == Some(data) <==>
            && pos < |ch.slots| && ch.slots[pos].height == height % 0x1_0000_0000
            && 0 < |data| == ch.slots[pos].length && ch.slots[pos].offset + |data| <= |ch.dat|
            && data == ch.dat[ch.slots[pos].offset..][..|data|])
      && (|data| + 32 < 0x1_0000_0000 ==>
            (ReadVerified(sha, cs, height) == Some(data) <==>
             && Read(cs, height) == Some(data) && ch.slots[pos].offset + |data| + 32 <= |ch.dat|
             && sha(data) == ch.dat[ch.slots[pos].offset + |data|..][..32]))
  {
    var ch, pos := ChunkAt(cs, ChunkStart(height)), Pos(height);
    if pos < |ch.slots| {
      var e := ch.slots[pos];
      if e.offset + |data| <= |ch.dat| {
        assert ch.dat[e.offset..][..|data|] == ch.dat[e.offset..e.offset + |data|];
      }
      if e.offset + |data| + 32 <= |ch.dat| {
        assert ch.dat[e.offset + |data|..][..32] == ch.dat[e.offset + |data|..e.offset + |data| + 32];
      }
    }
  }

  /** An empty slot whose height field, 0, is the requested height in 32 bits. */
  ghost predicate HasGhost(cs: Chunks, height: nat) {
    height % TWO_32 == 0 && Pos(height) < |ChunkAt(cs, ChunkStart(height)).slots|
  }

  lemma ReadsPresent(sha: Hasher, cs: Chunks, height: nat, data: seq<byte>)
    requires Storable(height, data) && ChunkStart(height) in cs
    requires Record(sha, cs[ChunkStart(height)], Pos(height), height, data)
    ensures Read(cs, height) == Some(data) && ReadVerified(sha, cs, height) == Some(data) && Has(cs, height)
  {
  }

  lemma ReadsAbsent(sha: Hasher, cs: Chunks, height: nat)
    requires EmptyAt(cs, height)
    ensures Read(cs, height) == None && ReadVerified(sha, cs, height) == None
    ensures Has(cs, height) <==> HasGhost(cs, height)
  {
  }

  /**
   Both reads return the last data written, or fail when there is none. HasBlock agrees, except for
   heights that are 0 in 32 bits, such as 0 itself, for which an empty slot counts as a block.
   */
  lemma ReadsAgree(sha: Hasher, cs: Chunks, m: Blocks, height: nat)
    requires Holds(sha, cs, m)
    ensures Read(cs, height) == (if height in m then Some(m[height]) else None)
    ensures ReadVerified(sha, cs, height) == Read(cs, height)
    ensures Has(cs, height) <==> height in m || HasGhost(cs, height)
  {
    hide Read, ReadVerified, Has, EmptyAt, Record, HasGhost;
    if height in m {
      ReadsPresent(sha, cs, height, m[height]);
    } else {
      ReadsAbsent(sha, cs, height);
    }
  }

  // ---- first and last block ----

  /** A slot counts as a block exactly when the map has one there, and then carries its height. */
  lemma SlotMeaning(sha: Hasher, cs: Chunks, m: Blocks, c: nat, p: nat)
    requires Holds(sha, cs, m) && c in cs && p < |cs[c].slots|
    ensures
      var e := cs[c].slots[p];
      (e.height > 0 && e.length > 0 <==> c + p in m) && (c + p in m ==> e.height == c + p)
  {
    Placement(c, p);
    if c + p !in m {
      assert EmptyAt(cs, c + p);
    }
  }

  ghost predicate IsEarliest(m: Blocks, h: nat) {
    h in m && forall k :: k in m ==> h <= k
  }

  ghost predicate IsLatest(m: Blocks, h: nat) {
    if m == map[] then h == 0 else h in m && forall k :: k in m ==> k <= h
  }

  /** Blocks of a lower chunk lie below those of a higher one. */
  lemma ChunksOrdered(h: nat, k: nat)
    ensures ChunkStart(h) < ChunkStart(k) ==> h < k
    ensures h <= k ==> ChunkStart(h) <= ChunkStart(k)
    ensures ChunkStart(h) == ChunkStart(k) ==> (h < k <==> Pos(h) < Pos(k))
  {
  }

  // ---- truncation for reorganisations ----

  /** One chunk after truncating the index behind `pos` and the data behind that record. */
  ghost function Cut(ch: Chunk, pos: nat): Chunk {
    var slots := TruncateSlots(ch.slots, pos + 1);
    Chunk(slots, Truncate(ch.dat, End(slots[pos])))
  }

  /** DeleteBlocksAboveHeight, when there is something above `t`. */
  ghost function DeleteAbove(cs: Chunks, t: nat): Chunks {
    map b | b in cs && b <= ChunkStart(t) :: if b == ChunkStart(t) then Cut(cs[b], Pos(t)) else cs[b]
  }

  ghost function Restrict(m: Blocks, t: nat): Blocks {
    map h | h in m && h <= t :: m[h]
  }

  /** The index entry of a height, empty when the file does not reach that far. */
  ghost function SlotOf(cs: Chunks, h: nat): Entry {
    var ch := ChunkAt(cs, ChunkStart(h));
    if Pos(h) < |ch.slots| then ch.slots[Pos(h)] else EMPTY
  }

  /** No kept record of the target's chunk lies behind the target's record. */
  ghost predicate EndsBy(cs: Chunks, m: Blocks, t: nat) {
    forall h :: h in m && h <= t && ChunkStart(h) == ChunkStart(t) ==> End(SlotOf(cs, h)) <= End(SlotOf(cs, t))
  }

  lemma RecordCut(sha: Hasher, ch: Chunk, pos: nat, h: nat, d: seq<byte>, last: nat)
    requires Record(sha, ch, pos, h, d) && pos <= last < |ch.slots| && End(ch.slots[last]) <= |ch.dat|
    ensures Record(sha, Cut(ch, last), pos, h, d) <==> End(ch.slots[pos]) <= End(ch.slots[last])
  {
    var e, cut := ch.slots[pos], Cut(ch, last);
    assert cut.slots[pos] == e;
    if End(e) <= |cut.dat| {
      assert cut.dat[e.offset..e.offset + e.length] == ch.dat[e.offset..e.offset + e.length];
      assert cut.dat[e.offset + e.length..End(e)] == ch.dat[e.offset + e.length..End(e)];
    }
  }

  lemma DeleteStored(sha: Hasher, cs: Chunks, m: Blocks, t: nat)
    requires Stored(sha, cs, m) && t in m
    ensures Stored(sha, DeleteAbove(cs, t), Restrict(m, t)) <==> EndsBy(cs, m, t)
  {
    var cs', m' := DeleteAbove(cs, t), Restrict(m, t);
    forall h | h in m'
      ensures ChunkStart(h) in cs'
      ensures Record(sha, cs'[ChunkStart(h)], Pos(h), h, m[h]) <==>
              (ChunkStart(h) == ChunkStart(t) ==> End(SlotOf(cs, h)) <= End(SlotOf(cs, t)))
    {
      hide Cut;
      ChunksOrdered(h, t);
      if ChunkStart(h) == ChunkStart(t) {
        RecordCut(sha, cs[ChunkStart(t)], Pos(h), h, m[h], Pos(t));
      }
    }
  }

  lemma DeleteOthersEmpty(sha: Hasher, cs: Chunks, m: Blocks, t: nat)
    requires Holds(sha, cs, m) && t in m
    ensures WellPlaced(DeleteAbove(cs, t)) && OthersEmpty(DeleteAbove(cs, t), Restrict(m, t))
  {
    var cs', m' := DeleteAbove(cs, t), Restrict(m, t);
    PlacementOf(t);
    forall h | h !in m' ensures EmptyAt(cs', h) {
      ChunksOrdered(t, h);
      ChunksOrdered(h, t);
      if h !in m {
        assert EmptyAt(cs, h);
      }
    }
  }

  /**
   Truncation keeps exactly the blocks up to a stored target, all of them intact, if and only if no
   kept record of the target's chunk was appended behind the target's.
   */
  lemma DeleteHoldsIff(sha: Hasher, cs: Chunks, m: Blocks, t: nat)
    requires Holds(sha, cs, m) && t in m
    ensures Holds(sha, DeleteAbove(cs, t), Restrict(m, t)) <==> EndsBy(cs, m, t)
  {
    hide Stored, OthersEmpty, WellPlaced, EndsBy;
    DeleteStored(sha, cs, m, t);
    DeleteOthersEmpty(sha, cs, m, t);
    var cs', m' := DeleteAbove(cs, t), Restrict(m, t);
    forall b | b in cs' ensures exists h :: h in m' && ChunkStart(h) == b {
      var h :| h in m && ChunkStart(h) == b;
      ChunksOrdered(h, t);
      ChunksOrdered(t, h);
      if b == ChunkStart(t) {
        assert t in m';
      } else {
        assert h in m';
      }
    }
  }

  /** A target that is not stored cuts the data file down to 32 bytes, which no record survives. */
  lemma MissingTargetDestroys(sha: Hasher, cs: Chunks, m: Blocks, t: nat, h: nat)
    requires Holds(sha, cs, m) && t !in m && h in m && h <= t && ChunkStart(h) == ChunkStart(t)
    ensures !Holds(sha, DeleteAbove(cs, t), Restrict(m, t))
  {
    var ch := cs[ChunkStart(t)];
    ChunksOrdered(h, t);
    assert EmptyAt(cs, t);
    assert TruncateSlots(ch.slots, Pos(t) + 1)[Pos(t)] == EMPTY;
    assert |Cut(ch, Pos(t)).dat| == HASH;
    assert h in Restrict(m, t) && Restrict(m, t)[h] == m[h];
    assert !Record(sha, Cut(ch, Pos(t)), Pos(h), h, m[h]);
  }

  /** Such a record cannot be read any more: with verification never, without it unless it is tiny. */
  lemma MissingTargetUnreadable(sha: Hasher, cs: Chunks, m: Blocks, t: nat, h: nat)
    requires Holds(sha, cs, m) && t !in m && h in m && h <= t && ChunkStart(h) == ChunkStart(t)
    ensures ReadVerified(sha, DeleteAbove(cs, t), h) == None
    ensures |m[h]| > HASH ==> Read(DeleteAbove(cs, t), h) == None
    ensures Read(DeleteAbove(cs, t), t) == None == ReadVerified(sha, DeleteAbove(cs, t), t)
  {
    var ch := cs[ChunkStart(t)];
    ChunksOrdered(h, t);
    assert EmptyAt(cs, t);
    assert TruncateSlots(ch.slots, Pos(t) + 1)[Pos(t)] == EMPTY;
    assert |Cut(ch, Pos(t)).dat| == HASH;
    assert Record(sha, ch, Pos(h), h, m[h]) && Storable(h, m[h]);
    assert Cut(ch, Pos(t)).slots[Pos(h)] == ch.slots[Pos(h)];
  }

  /** The chunk of the target keeps an index file but no block, so the earliest height goes wrong. */
  lemma MissingTargetLeavesEmptyChunk(sha: Hasher, cs: Chunks, m: Blocks, t: nat)
    requires ChunkStart(t) in cs && forall h :: h in m && ChunkStart(h) == ChunkStart(t) ==> h > t
    ensures !Inhabited(DeleteAbove(cs, t), Restrict(m, t))
  {
    PlacementOf(t);
    assert ChunkStart(t) in DeleteAbove(cs, t);
  }

  lemma AbsentChunk(cs: Chunks, t: nat)
    requires ChunkStart(t) !in cs
    ensures forall b :: b in DeleteAbove(cs, t) <==> b in cs && b <= ChunkStart(t)
    ensures forall b :: b in DeleteAbove(cs, t) ==> DeleteAbove(cs, t)[b] == cs[b]
  {
  }

  lemma StaysEmpty(cs: Chunks, cs': Chunks, h: nat)
    requires forall b :: b in cs' ==> b in cs && cs'[b] == cs[b]
    requires ChunkStart(h) in cs' ==> EmptyAt(cs, h)
    ensures EmptyAt(cs', h)
  {
  }

  lemma AbsentChunkHolds(sha: Hasher, cs: Chunks, m: Blocks, t: nat)
    requires Holds(sha, cs, m) && ChunkStart(t) !in cs
    ensures Holds(sha, DeleteAbove(cs, t), Restrict(m, t))
  {
    hide ChunkStart, Pos, Record, Storable, DeleteAbove, EmptyAt;
    var cs', m' := DeleteAbove(cs, t), Restrict(m, t);
    AbsentChunk(cs, t);
    forall h | h in m ensures h in m' <==> ChunkStart(h) in cs' {
      ChunksOrdered(h, t);
      ChunksOrdered(t, h);
    }
    assert Stored(sha, cs', m');
    forall h | h !in m' ensures EmptyAt(cs', h) {
      StaysEmpty(cs, cs', h);
    }
    forall b | b in cs' ensures exists h :: h in m' && ChunkStart(h) == b {
      var h :| h in m && ChunkStart(h) == b;
      assert h in m';
    }
  }

  /** With a target that is not stored, truncation is right if and only if its chunk has no files. */
  lemma MissingTargetIff(sha: Hasher, cs: Chunks, m: Blocks, t: nat)
    requires Holds(sha, cs, m) && t !in m
    ensures Holds(sha, DeleteAbove(cs, t), Restrict(m, t)) <==> ChunkStart(t) !in cs
  {
    hide Stored, OthersEmpty, WellPlaced, Inhabited, DeleteAbove, Restrict, ChunkStart;
    if ChunkStart(t) !in cs {
      AbsentChunkHolds(sha, cs, m, t);
    } else if h :| h in m && h <= t && ChunkStart(h) == ChunkStart(t) {
      MissingTargetDestroys(sha, cs, m, t, h);
    } else {
      MissingTargetLeavesEmptyChunk(sha, cs, m, t);
    }
  }

  // ---- appends in height order ----

  /** Within a chunk, records lie in height order and do not overlap. */
  ghost predicate Ordered(cs: Chunks, m: Blocks) {
    forall h, k :: h in m && k in m && h < k && ChunkStart(h) == ChunkStart(k) ==>
                     End(SlotOf(cs, h)) <= SlotOf(cs, k).offset
  }

  lemma OrderedEndsBy(cs: Chunks, m: Blocks, t: nat)
    requires Ordered(cs, m) && t in m
    ensures EndsBy(cs, m, t)
  {
  }

  /** Slots and data end after an append above a stored block. */
  lemma AppendedSlots(sha: Hasher, cs: Chunks, m: Blocks, height: nat, data: seq<byte>, h: nat)
    requires Stored(sha, cs, m) && Storable(height, data) && h in m && h < height
    ensures
      var cs' := Put(sha, cs, height, data);
      && SlotOf(cs', h) == SlotOf(cs, h)
      && (ChunkStart(h) == ChunkStart(height) ==> End(SlotOf(cs, h)) <= SlotOf(cs', height).offset)
  {
    ChunksOrdered(h, height);
  }

  lemma AppendKeepsOrder(sha: Hasher, cs: Chunks, m: Blocks, height: nat, data: seq<byte>)
    requires Stored(sha, cs, m) && Ordered(cs, m) && Storable(height, data)
    requires forall k :: k in m ==> k < height
    ensures Ordered(Put(sha, cs, height, data), m[height := data])
  {
    hide Put, SlotOf, Stored;
    var cs', m' := Put(sha, cs, height, data), m[height := data];
    forall h, k | h in m' && k in m' && h < k && ChunkStart(h) == ChunkStart(k)
      ensures End(SlotOf(cs', h)) <= SlotOf(cs', k).offset
    {
      AppendedSlots(sha, cs, m, height, data, h);
      if k != height {
        AppendedSlots(sha, cs, m, height, data, k);
      }
    }
  }

  lemma KeptSlots(sha: Hasher, cs: Chunks, m: Blocks, t: nat, h: nat)
    requires Stored(sha, cs, m) && t in m && h in m && h <= t
    ensures SlotOf(DeleteAbove(cs, t), h) == SlotOf(cs, h)
  {
    ChunksOrdered(h, t);
  }

  lemma DeleteKeepsOrder(sha: Hasher, cs: Chunks, m: Blocks, t: nat)
    requires Stored(sha, cs, m) && Ordered(cs, m) && t in m
    ensures Ordered(DeleteAbove(cs, t), Restrict(m, t))
  {
    hide DeleteAbove, SlotOf, Stored;
    var cs', m' := DeleteAbove(cs, t), Restrict(m, t);
    forall h, k | h in m' && k in m' && h < k && ChunkStart(h) == ChunkStart(k)
      ensures End(SlotOf(cs', h)) <= SlotOf(cs', k).offset
    {
      KeptSlots(sha, cs, m, t, h);
      KeptSlots(sha, cs, m, t, k);
    }
  }

  // ---- runs of writes and deletions ----

  datatype Op = Write(height: nat, data: seq<byte>) | DeleteAboveHeight(target: nat)

  /** There is nothing above `t`, and DeleteBlocksAboveHeight returns at once. */
  ghost predicate UpTo(m: Blocks, t: nat) {
    forall h :: h in m ==> h <= t
  }

  ghost function OnMap(m: Blocks, op: Op): Blocks {
    match op
    case Write(h, data) => m[h := data]
    case DeleteAboveHeight(t) => Restrict(m, t)
  }

  ghost function OnFiles(sha: Hasher, cs: Chunks, m: Blocks, op: Op): Chunks {
    match op
    case Write(h, data) => Put(sha, cs, h, data)
    case DeleteAboveHeight(t) => if UpTo(m, t) then cs else DeleteAbove(cs, t)
  }

  ghost function RunMap(ops: seq<Op>): Blocks {
    if ops == [] then map[] else OnMap(RunMap(ops[..|ops| - 1]), ops[|ops| - 1])
  }

  ghost function RunFiles(sha: Hasher, ops: seq<Op>): Chunks {
    if ops == [] then map[]
    else var i := |ops| - 1; OnFiles(sha, RunFiles(sha, ops[..i]), RunMap(ops[..i]), ops[i])
  }

  /** A deletion that leaves exactly the blocks up to its target. Writes always do their part. */
  ghost predicate Safe(cs: Chunks, m: Blocks, op: Op) {
    op.DeleteAboveHeight? ==>
      || UpTo(m, op.target)
      || (if op.target in m then EndsBy(cs, m, op.target) else ChunkStart(op.target) !in cs)
  }

  ghost predicate SafeRun(sha: Hasher, ops: seq<Op>) {
    forall i :: 0 <= i < |ops| ==> Safe(RunFiles(sha, ops[..i]), RunMap(ops[..i]), ops[i])
  }

  ghost predicate Writable(op: Op) {
    op.Write? ==> Storable(op.height, op.data)
  }

  lemma StepHolds(sha: Hasher, cs: Chunks, m: Blocks, op: Op)
    requires Holds(sha, cs, m) && Writable(op)
    ensures Holds(sha, OnFiles(sha, cs, m, op), OnMap(m, op)) <==> Safe(cs, m, op)
  {
    hide Holds, EndsBy, Put, DeleteAbove, Restrict, ChunkStart, Storable, UpTo;
    match op {
      case Write(h, data) =>
        PutHolds(sha, cs, m, h, data);
      case DeleteAboveHeight(t) =>
        if UpTo(m, t) {
          RestrictNothing(m, t);
        } else if t in m {
          DeleteHoldsIff(sha, cs, m, t);
        } else {
          MissingTargetIff(sha, cs, m, t);
        }
    }
  }

  /** The files hold exactly the specified map at the given point of the run. */
  ghost predicate HoldsAt(sha: Hasher, ops: seq<Op>, i: nat)
    requires i <= |ops|
  {
    Holds(sha, RunFiles(sha, ops[..i]), RunMap(ops[..i]))
  }

  lemma HoldsNext(sha: Hasher, ops: seq<Op>, i: nat)
    requires i < |ops| && Writable(ops[i]) && HoldsAt(sha, ops, i)
    ensures HoldsAt(sha, ops, i + 1) <==> Safe(RunFiles(sha, ops[..i]), RunMap(ops[..i]), ops[i])
  {
    hide Holds, Safe, OnFiles, OnMap;
    assert ops[..i + 1][..i] == ops[..i];
    StepHolds(sha, RunFiles(sha, ops[..i]), RunMap(ops[..i]), ops[i]);
  }

  lemma {:induction false} SafeRunHolds(sha: Hasher, ops: seq<Op>, i: nat)
    requires i <= |ops| && SafeRun(sha, ops) && forall op :: op in ops ==> Writable(op)
    ensures HoldsAt(sha, ops, i)
  {
    hide Holds, Safe, RunFiles, RunMap, Writable;
    if i == 0 {
      NothingRun(sha, ops);
    } else {
      SafeRunHolds(sha, ops, i - 1);
      assert ops[i - 1] in ops;
      HoldsNext(sha, ops, i - 1);
    }
  }

  /**
   Over any run of writes at any heights and deletions at any targets, the files hold exactly the
   specified map all the way if and only if every deletion meets its condition when it happens.
   */
  lemma RunsRefineMap(sha: Hasher, ops: seq<Op>)
    requires forall op :: op in ops ==> Writable(op)
    ensures SafeRun(sha, ops) <==> forall i :: 0 <= i <= |ops| ==> HoldsAt(sha, ops, i)
  {
    hide HoldsAt, Safe, RunFiles, RunMap, Writable;
    if SafeRun(sha, ops) {
      forall i | 0 <= i <= |ops| ensures HoldsAt(sha, ops, i) {
        SafeRunHolds(sha, ops, i);
      }
    }
    if forall i :: 0 <= i <= |ops| ==> HoldsAt(sha, ops, i) {
      forall i | 0 <= i < |ops| ensures Safe(RunFiles(sha, ops[..i]), RunMap(ops[..i]), ops[i]) {
        assert ops[i] in ops && HoldsAt(sha, ops, i) && HoldsAt(sha, ops, i + 1);
        HoldsNext(sha, ops, i);
      }
    }
  }

  lemma RunPush(sha: Hasher, ops: seq<Op>, op: Op)
    ensures RunMap(ops + [op]) == OnMap(RunMap(ops), op)
    ensures RunFiles(sha, ops + [op]) == OnFiles(sha, RunFiles(sha, ops), RunMap(ops), op)
  {
    assert (ops + [op])[..|ops|] == ops;
  }

  /**
   A store filled the way backfill does it: block 4 is appended behind block 5 in the same chunk. Going
   back to block 5 then loses block 4.
   */
  lemma BackfilledStoreBreaks(sha: Hasher, four: seq<byte>, five: seq<byte>, six: seq<byte>)
    requires Storable(4, four) && Storable(5, five) && Storable(6, six)
    ensures
      var ops := [Write(5, five), Write(4, four), Write(6, six)];
      && Holds(sha, RunFiles(sha, ops), RunMap(ops))
      && !Safe(RunFiles(sha, ops), RunMap(ops), DeleteAboveHeight(5))
      && !Holds(sha, DeleteAbove(RunFiles(sha, ops), 5), map[4 := four, 5 := five])
  {
    hide Holds, Put, DeleteAbove, Restrict, ChunkStart, Storable, EndsBy;
    var ops := [Write(5, five), Write(4, four), Write(6, six)];
    RunPush(sha, [], Write(5, five));
    RunPush(sha, [Write(5, five)], Write(4, four));
    RunPush(sha, [Write(5, five), Write(4, four)], Write(6, six));
    assert ops == [] + [Write(5, five)] + [Write(4, four)] + [Write(6, six)];
    var cs := Put(sha, Put(sha, Put(sha, map[], 5, five), 4, four), 6, six);
    var m: Blocks := map[5 := five, 4 := four, 6 := six];
    assert RunFiles(sha, ops) == cs && RunMap(ops) == m;
    NothingHeld(sha);
    PutHolds(sha, map[], map[], 5, five);
    PutHolds(sha, Put(sha, map[], 5, five), map[5 := five], 4, four);
    PutHolds(sha, Put(sha, Put(sha, map[], 5, five), 4, four), map[5 := five, 4 := four], 6, six);
    FourEndsLast(sha, four, five, six);
    DeleteHoldsIff(sha, cs, m, 5);
    RestrictToFive(m, four, five, six);
  }

  lemma RestrictToFive(m: Blocks, four: seq<byte>, five: seq<byte>, six: seq<byte>)
    requires m == map[5 := five, 4 := four, 6 := six]
    ensures Restrict(m, 5) == map[4 := four, 5 := five] && !UpTo(m, 5)
  {
    assert 6 in m;
  }

  lemma FourEndsLast(sha: Hasher, four: seq<byte>, five: seq<byte>, six: seq<byte>)
    requires Storable(4, four) && Storable(5, five) && Storable(6, six)
    ensures !EndsBy(
              Put(sha, Put(sha, Put(sha, map[], 5, five), 4, four), 6, six), map[5 := five, 4 := four, 6 := six], 5)
  {
    var one := Put(sha, map[], 5, five);
    var two := Put(sha, one, 4, four);
    var cs := Put(sha, two, 6, six);
    assert SlotOf(one, 5) == Entry(0, |five|, 5) && |one[0].dat| == |five| + HASH;
    assert SlotOf(two, 5) == Entry(0, |five|, 5) && SlotOf(two, 4) == Entry(|five| + HASH, |four|, 4);
    assert SlotOf(cs, 5) == Entry(0, |five|, 5) && SlotOf(cs, 4) == Entry(|five| + HASH, |four|, 4);
    assert 4 in map[5 := five, 4 := four, 6 := six];
  }

  // ---- runs in height order ----

  /** Blocks are appended above the latest one; reorganisations go back to a stored block, if at all. */
  ghost predicate Allowed(m: Blocks, op: Op) {
    match op
    case Write(h, data) => Storable(h, data) && forall k :: k in m ==> k < h
    case DeleteAboveHeight(t) => t in m || UpTo(m, t)
  }

  ghost predicate AllAllowed(ops: seq<Op>) {
    ops == [] || (AllAllowed(ops[..|ops| - 1]) && Allowed(RunMap(ops[..|ops| - 1]), ops[|ops| - 1]))
  }

  /** Runs that append at the end and go back to stored blocks are always safe. */
  lemma {:induction false} OrderedRunsRefineMap(sha: Hasher, ops: seq<Op>)
    requires AllAllowed(ops)
    ensures Holds(sha, RunFiles(sha, ops), RunMap(ops)) && Ordered(RunFiles(sha, ops), RunMap(ops))
  {
    hide Holds, Ordered, EndsBy, Stored, Put, DeleteAbove, Restrict;
    if ops == [] {
      NothingHeld(sha);
    } else {
      var i := |ops| - 1;
      var cs, m := RunFiles(sha, ops[..i]), RunMap(ops[..i]);
      OrderedRunsRefineMap(sha, ops[..i]);
      HoldsStored(sha, cs, m);
      match ops[i] {
        case Write(h, data) =>
          PutHolds(sha, cs, m, h, data);
          AppendKeepsOrder(sha, cs, m, h, data);
        case DeleteAboveHeight(t) =>
          if UpTo(m, t) {
            RestrictNothing(m, t);
          } else {
            OrderedEndsBy(cs, m, t);
            DeleteHoldsIff(sha, cs, m, t);
            DeleteKeepsOrder(sha, cs, m, t);
          }
      }
    }
  }

  lemma NothingRun(sha: Hasher, ops: seq<Op>)
    ensures HoldsAt(sha, ops, 0)
  {
    assert ops[..0] == [];
  }

  lemma RestrictNothing(m: Blocks, t: nat)
    requires UpTo(m, t)
    ensures Restrict(m, t) == m
  {
  }

  lemma NothingHeld(sha: Hasher)
    ensures Holds(sha, map[], map[]) && Ordered(map[], map[])
  {
  }

  lemma HoldsStored(sha: Hasher, cs: Chunks, m: Blocks)
    requires Holds(sha, cs, m)
    ensures Stored(sha, cs, m)
  {
  }

  // ---- scanning an index file ----

  predicate Live(e: Entry) {
    e.height > 0 && e.length > 0
  }

  /** The entry at a position of an index file, if the file reaches that far. */
  function EntryAt(idx: seq<byte>, pos: nat): (e: Option<Entry>)
    ensures e == if pos < |Slots(idx)| then Some(Slots(idx)[pos]) else None
  {
    if pos * ENTRY + ENTRY > |idx| then None else Some(DecodeEntry(idx[pos * ENTRY..pos * ENTRY + ENTRY]))
  }

  /** The first live entry among the positions of a chunk. */
  method ScanUp(idx: seq<byte>) returns (e: Option<Entry>, ghost pos: nat)
    ensures e.Some? ==> pos < |Slots(idx)| && e.value == Slots(idx)[pos] && Live(e.value)
    ensures forall q :: 0 <= q < CHUNK && q < |Slots(idx)| && (e.Some? ==> q < pos) ==> !Live(Slots(idx)[q])
  {
    var p := 0;
    while p < CHUNK
      invariant 0 <= p <= CHUNK
      invariant forall q :: 0 <= q < p && q < |Slots(idx)| ==> !Live(Slots(idx)[q])
    {
      e := EntryAt(idx, p);
      if e.None? {
        return None, 0;
      }
      if Live(e.value) {
        return e, p;
      }
      p := p + 1;
    }
    e, pos := None, 0;
  }

  /** The last live entry of the file. */
  method ScanDown(idx: seq<byte>) returns (e: Option<Entry>, ghost pos: nat)
    ensures e.Some? ==> pos < |Slots(idx)| && e.value == Slots(idx)[pos] && Live(e.value)
    ensures forall q :: 0 <= q < |Slots(idx)| && (e.Some? ==> pos < q) ==> !Live(Slots(idx)[q])
  {
    var p := |idx| / ENTRY;
    while p > 0
      invariant 0 <= p <= |Slots(idx)|
      invariant forall q :: p <= q < |Slots(idx)| ==> !Live(Slots(idx)[q])
    {
      p := p - 1;
      e := EntryAt(idx, p);
      if Live(e.value) {
        return e, p;
      }
    }
    e, pos := None, 0;
  }

  lemma NoChunks(sha: Hasher, cs: Chunks, m: Blocks)
    requires forall c :: c !in cs
    ensures Holds(sha, cs, m) ==> m == map[] && IsLatest(m, 0)
  {
    if Holds(sha, cs, m) {
      assert forall h :: h in m ==> ChunkStart(h) in cs;
    }
  }

  lemma LiveExists(sha: Hasher, cs: Chunks, m: Blocks, c: nat) returns (p: nat)
    requires Holds(sha, cs, m) && c in cs
    ensures p < |cs[c].slots| <= CHUNK && Live(cs[c].slots[p]) && m != map[]
  {
    var h :| h in m && ChunkStart(h) == c;
    p := Pos(h);
  }

  lemma LiveSlot(sha: Hasher, cs: Chunks, m: Blocks, c: nat, p: nat)
    requires Holds(sha, cs, m) && c in cs && p < |cs[c].slots| && Live(cs[c].slots[p])
    ensures c + p in m && cs[c].slots[p].height == c + p && ChunkStart(c + p) == c && Pos(c + p) == p
  {
    SlotMeaning(sha, cs, m, c, p);
    Placement(c, p);
  }

  /** The first live slot of the lowest chunk is the earliest block. */
  lemma EarliestFound(sha: Hasher, cs: Chunks, m: Blocks, c: nat, p: nat)
    requires Holds(sha, cs, m) && c in cs && p < |cs[c].slots| && Live(cs[c].slots[p])
    requires forall b :: b in cs ==> c <= b
    requires forall q :: 0 <= q < p ==> !Live(cs[c].slots[q])
    ensures IsEarliest(m, cs[c].slots[p].height)
  {
    hide ChunkStart, Pos, Holds;
    LiveSlot(sha, cs, m, c, p);
    forall k | k in m ensures c + p <= k {
      BlockIsLive(sha, cs, m, k);
      PlacementOf(k);
      ChunksOrdered(c + p, k);
    }
  }

  /** The last live slot of the highest chunk is the latest block. */
  lemma LatestFound(sha: Hasher, cs: Chunks, m: Blocks, c: nat, p: nat)
    requires Holds(sha, cs, m) && c in cs && p < |cs[c].slots| && Live(cs[c].slots[p])
    requires forall b :: b in cs ==> b <= c
    requires forall q :: p < q < |cs[c].slots| ==> !Live(cs[c].slots[q])
    ensures IsLatest(m, cs[c].slots[p].height)
  {
    hide ChunkStart, Pos, Holds;
    LiveSlot(sha, cs, m, c, p);
    forall k | k in m ensures k <= c + p {
      BlockIsLive(sha, cs, m, k);
      PlacementOf(k);
      ChunksOrdered(k, c + p);
    }
  }

  lemma BlockIsLive(sha: Hasher, cs: Chunks, m: Blocks, k: nat)
    requires Holds(sha, cs, m) && k in m
    ensures ChunkStart(k) in cs && Pos(k) < |cs[ChunkStart(k)].slots| && Live(cs[ChunkStart(k)].slots[Pos(k)])
  {
  }

  // ---- the store ----

  ghost predicate Aligned(dat: map<nat, seq<byte>>, idx: map<nat, seq<byte>>) {
    dat.Keys == idx.Keys && forall c :: c in idx ==> |idx[c]| % ENTRY == 0
  }

  /** The chunks that a set of files contains. */
  ghost function ChunksIn(dat: map<nat, seq<byte>>, idx: map<nat, seq<byte>>): Chunks
    requires Aligned(dat, idx)
  {
    map c | c in idx :: Chunk(Slots(idx[c]), dat[c])
  }

  function FileAt(files: map<nat, seq<byte>>, c: nat): seq<byte> {
    if c in files then files[c] else []
  }

  lemma WriteFiles(
    sha: Hasher, dat: map<nat, seq<byte>>, idx: map<nat, seq<byte>>, height: nat, data: seq<byte>, e: Entry)
    requires Aligned(dat, idx) && |FileAt(dat, ChunkStart(height))| < TWO_64
    requires e == Entry(|FileAt(dat, ChunkStart(height))|, |data| % TWO_32, height % TWO_32)
    ensures
      var c := ChunkStart(height);
      var dat' := dat[c := FileAt(dat, c) + data + sha(data)];
      var idx' := idx[c := WriteAt(FileAt(idx, c), Pos(height) * ENTRY, EncodeEntry(e))];
      Aligned(dat', idx') && ChunksIn(dat', idx') == Put(sha, ChunksIn(dat, idx), height, data)
  {
    hide ChunkStart, Pos, WriteAt, EncodeEntry, Slots, SetSlot;
    SlotsOfWrite(FileAt(idx, ChunkStart(height)), Pos(height), e);
    NoSlots();
  }

  lemma NoSlots()
    ensures Slots([]) == []
  {
  }

  class BlockStore {
    const sha: Hasher
    var datFiles: map<nat, seq<byte>>
    var idxFiles: map<nat, seq<byte>>
    ghost var blocks: Blocks  // what the files are meant to hold

    /** Every chunk has both files, and index files consist of whole entries. */
    ghost predicate Shape()
      reads this
    {
      Aligned(datFiles, idxFiles)
    }

    ghost function ChunksOf(): Chunks
      reads this
      requires Shape()
    {
      ChunksIn(datFiles, idxFiles)
    }

    ghost predicate Valid()
      reads this
    {
      Shape() && Holds(sha, ChunksOf(), blocks)
    }

    constructor (sha: Hasher)
      ensures this.sha == sha && Valid() && blocks == map[] && ChunksOf() == map[]
    {
      this.sha, datFiles, idxFiles, blocks := sha, map[], map[], map[];
    }

    /** Appends data and hash and overwrites the index entry; file sizes are below 2^64. */
    method WriteBlock(height: nat, data: seq<byte>)
      requires Shape() && |FileAt(datFiles, ChunkStart(height))| < TWO_64
      modifies this
      ensures Shape() && ChunksOf() == Put(sha, old(ChunksOf()), height, data)
      ensures
        var c := ChunkStart(height);
        datFiles == old(datFiles)[c := FileAt(old(datFiles), c) + data + sha(data)]
      ensures blocks == old(blocks)[height := data]
      ensures old(Valid()) && Storable(height, data) ==> Valid()
    {
      hide Holds, ChunkStart, WriteAt, EncodeEntry, ChunksIn, Put;
      var chunkStart := ChunkStart(height);
      var pos := Pos(height);
      var dat, idx := FileAt(datFiles, chunkStart), FileAt(idxFiles, chunkStart);
      var entry := Entry(|dat|, |data| % TWO_32, height % TWO_32);
      WriteFiles(sha, datFiles, idxFiles, height, data, entry);
      datFiles := datFiles[chunkStart := dat + data + sha(data)];
      idxFiles := idxFiles[chunkStart := WriteAt(idx, pos * ENTRY, EncodeEntry(entry))];
      blocks := blocks[height := data];
      if old(Valid()) && Storable(height, data) {
        PutHolds(sha, old(ChunksOf()), old(blocks), height, data);
      }
    }

    /** Reads return the last data written at a height, or fail when there is none. */
    method ReadBlock(height: nat) returns (r: Option<seq<byte>>)
      requires Shape()
      ensures r == Read(ChunksOf(), height)
      ensures Valid() ==> r == if height in blocks then Some(blocks[height]) else None
    {
      if Valid() {
        ReadsAgree(sha, ChunksOf(), blocks, height);
      }
      hide Holds, ChunkStart, Pos, DataOf, Slots;
      var c := ChunkStart(height);
      NoSlots();
      var entry := EntryAt(FileAt(idxFiles, c), Pos(height));
      r := if entry.None? then None else DataOf(entry.value, FileAt(datFiles, c), height);
    }

    method ReadBlockWithVerify(height: nat) returns (r: Option<seq<byte>>)
      requires Shape()
      ensures r == ReadVerified(sha, ChunksOf(), height)
      ensures Valid() ==> r == if height in blocks then Some(blocks[height]) else None
    {
      if Valid() {
        ReadsAgree(sha, ChunksOf(), blocks, height);
      }
      hide Holds, ChunkStart, Pos, Read, VerifiedDataOf, Slots;
      var c := ChunkStart(height);
      NoSlots();
      var entry := EntryAt(FileAt(idxFiles, c), Pos(height));
      r := if entry.None? then None else VerifiedDataOf(sha, entry.value, FileAt(datFiles, c), height);
    }

    method HasBlock(height: nat) returns (r: bool)
      requires Shape()
      ensures r == Has(ChunksOf(), height)
      ensures Valid() ==> (r <==> height in blocks || HasGhost(ChunksOf(), height))
    {
      if Valid() {
        ReadsAgree(sha, ChunksOf(), blocks, height);
      }
      hide Holds, ChunkStart, Pos, Read, ReadVerified, Slots, HasGhost;
      NoSlots();
      var entry := EntryAt(FileAt(idxFiles, ChunkStart(height)), Pos(height));
      r := entry.Some? && entry.value.height == height % TWO_32;
    }

    /** GetChunkList: the chunks that have a data file, in ascending order. */
    method GetChunkList() returns (chunks: seq<nat>)
      ensures forall c :: c in chunks <==> c in datFiles
      ensures forall i, j :: 0 <= i < j < |chunks| ==> chunks[i] <= chunks[j]
    {
      var pending, found: seq<nat> := datFiles.Keys, [];
      while pending != {}
        invariant pending <= datFiles.Keys
        invariant forall c :: c in found <==> c in datFiles && c !in pending
        decreases pending
      {
        var c :| c in pending;
        found := found + [c];
        pending := pending - {c};
      }
      SortSorts(NatLess, found);
      SortKeepsMembers(NatLess, found);
      chunks := SortBy(NatLess, found);
      assert forall i, j :: 0 <= i < j < |chunks| ==> !NatLess(chunks[j], chunks[i]);
    }

    /** GetEarliestBlockHeight: the lowest stored height, or an error for an empty store. */
    method GetEarliestBlockHeight() returns (r: Option<nat>)
      requires Shape()
      ensures Valid() ==> if blocks == map[] then r == None else r.Some? && IsEarliest(blocks, r.value)
    {
      var chunks := GetChunkList();
      hide Holds, Slots, Live, IsEarliest, IsLatest;
      if |chunks| == 0 {
        NoChunks(sha, ChunksOf(), blocks);
        return None;
      }
      var c := chunks[0];
      assert c in chunks;
      var e, p := ScanUp(idxFiles[c]);
      if Valid() {
        var q := LiveExists(sha, ChunksOf(), blocks, c);
        EarliestFound(sha, ChunksOf(), blocks, c, p);
      }
      r := if e.Some? then Some(e.value.height) else Some(c);
    }

    /** GetLatestBlockHeight: the highest stored height, 0 for an empty store. */
    method GetLatestBlockHeight() returns (r: nat)
      requires Shape()
      ensures Valid() ==> IsLatest(blocks, r)
    {
      var chunks := GetChunkList();
      hide Holds, Slots, Live, IsEarliest, IsLatest;
      if |chunks| == 0 {
        NoChunks(sha, ChunksOf(), blocks);
        return 0;
      }
      var c := chunks[|chunks| - 1];
      assert c in chunks;
      var e, p := ScanDown(idxFiles[c]);
      if Valid() {
        var q := LiveExists(sha, ChunksOf(), blocks, c);
        LatestFound(sha, ChunksOf(), blocks, c, p);
      }
      r := if e.Some? then e.value.height else 0;
    }

    /**
     DeleteBlocksAboveHeight does to the files what `DeleteAbove` says. The blocks above the target are
     gone and all others intact exactly when there was nothing to delete, or the target is stored and
     no kept record of its chunk lies behind it, or the target is not stored and its chunk has no files.
     */
    method DeleteBlocksAboveHeight(target: nat)
      requires Valid()
      modifies this
      ensures Shape() && blocks == Restrict(old(blocks), target)
      ensures
        if UpTo(old(blocks), target) then datFiles == old(datFiles) && idxFiles == old(idxFiles)
        else ChunksOf() == DeleteAbove(old(ChunksOf()), target)
      ensures
        Valid() <==>
        || UpTo(old(blocks), target)
        || (if target in old(blocks) then EndsBy(old(ChunksOf()), old(blocks), target)
            else ChunkStart(target) !in old(idxFiles))
    {
      hide Holds, Slots, IsLatest, EndsBy, DeleteAbove, Restrict, ChunkStart, ChunksIn;
      var latest := GetLatestBlockHeight();
      LatestDecides(blocks, latest, target);
      blocks := Restrict(blocks, target);
      if latest <= target {
        return;
      }
      LatestChunk(sha, ChunksOf(), old(blocks), latest);
      ChunkKeys(datFiles, idxFiles);
      DeleteFiles(target, ChunkStart(latest));
      if target in old(blocks) {
        DeleteHoldsIff(sha, old(ChunksOf()), old(blocks), target);
      } else {
        MissingTargetIff(sha, old(ChunksOf()), old(blocks), target);
      }
    }

    method DeleteFiles(target: nat, last: nat)
      requires Shape() && forall c :: c in idxFiles ==> ChunkStart(c) == c && c <= last
      modifies this`datFiles, this`idxFiles
      ensures Shape() && ChunksOf() == DeleteAbove(old(ChunksOf()), target)
    {
      PlacementOf(target);
      hide Slots, DeleteAbove, Truncate, ChunkStart;
      RemoveChunks(ChunkStart(target), last);
      CutTarget(target);
      DeleteInFiles(old(datFiles), old(idxFiles), datFiles, idxFiles, target);
    }

    /** Removes whole chunks above the target's, in steps of the chunk size. */
    method RemoveChunks(first: nat, last: nat)
      requires Shape() && ChunkStart(first) == first && forall c :: c in idxFiles ==> ChunkStart(c) == c && c <= last
      modifies this`datFiles, this`idxFiles
      ensures Shape()
      ensures idxFiles == map c | c in old(idxFiles) && c <= first :: old(idxFiles)[c]
      ensures datFiles == map c | c in old(datFiles) && c <= first :: old(datFiles)[c]
    {
      var c := first + CHUNK;
      while c <= last
        invariant Shape() && ChunkStart(c) == c && first < c
        invariant idxFiles == Outside(old(idxFiles), first, c)
        invariant datFiles == Outside(old(datFiles), first, c)
        decreases last + CHUNK - c
      {
        OutsideNext(old(idxFiles), first, c);
        OutsideNext(old(datFiles), first, c);
        datFiles, idxFiles := datFiles - {c}, idxFiles - {c};
        c := c + CHUNK;
      }
    }

    /** Truncates the index behind the target, then the data behind the target's record. */
    method CutTarget(target: nat)
      requires Shape()
      modifies this`datFiles, this`idxFiles
      ensures
        var c, pos := ChunkStart(target), Pos(target);
        if c in old(idxFiles) then
          var idx := Truncate(old(idxFiles)[c], (pos + 1) * ENTRY);
          && pos < |Slots(idx)|
          && idxFiles == old(idxFiles)[c := idx]
          && datFiles == old(datFiles)[c := Truncate(old(datFiles)[c], End(Slots(idx)[pos]))]
        else idxFiles == old(idxFiles) && datFiles == old(datFiles)
    {
      var c, pos := ChunkStart(target), Pos(target);
      if c in idxFiles {
        var idx := Truncate(idxFiles[c], (pos + 1) * ENTRY);
        idxFiles := idxFiles[c := idx];
        var e := EntryAt(idx, pos);
        datFiles := datFiles[c := Truncate(datFiles[c], End(e.value))];
      }
    }

    /**
     PruneChunks drops whole chunks: every block from the chunk of `latest - keep` upwards stays, and
     nothing below it.
     */
    method PruneChunks(latest: nat, keep: nat) returns (deleted: nat)
      requires Valid()
      modifies this
      ensures Valid()
      ensures blocks == if latest <= keep then old(blocks) else From(old(blocks), ChunkStart(latest - keep))
      ensures deleted == |old(idxFiles)| - |idxFiles|
    {
      hide Holds, ChunkStart, Slots, Pruned, From;
      if latest <= keep {
        return 0;
      }
      var minKeep := ChunkStart(latest - keep);
      PlacementOf(latest - keep);
      PruneHolds(sha, ChunksOf(), blocks, minKeep);
      deleted := RemoveBelow(minKeep);
      blocks := From(blocks, minKeep);
    }

    /** Deletes the chunks that end at or before `minKeep`. */
    method RemoveBelow(minKeep: nat) returns (deleted: nat)
      requires Shape()
      modifies this`datFiles, this`idxFiles
      ensures Shape() && ChunksOf() == Pruned(old(ChunksOf()), minKeep)
      ensures deleted == |old(idxFiles)| - |idxFiles|
    {
      hide Slots;
      var pending := idxFiles.Keys;
      deleted := 0;
      while pending != {}
        invariant pending <= idxFiles.Keys && Shape() && deleted == |old(idxFiles)| - |idxFiles|
        invariant forall c :: c in idxFiles <==> c in old(idxFiles) && (c in pending || c + CHUNK > minKeep)
        invariant forall c :: c in idxFiles ==> idxFiles[c] == old(idxFiles)[c] && datFiles[c] == old(datFiles)[c]
        decreases pending
      {
        var c :| c in pending;
        if c + CHUNK <= minKeep {
          OneFewer(idxFiles, c);
          datFiles, idxFiles := datFiles - {c}, idxFiles - {c};
          deleted := deleted + 1;
        }
        pending := pending - {c};
      }
    }
  }

  // ---- lemmas about deletion on files ----

  lemma OneFewer(files: map<nat, seq<byte>>, c: nat)
    requires c in files
    ensures |files - {c}| == |files| - 1
  {
    assert files == (files - {c})[c := files[c]];
  }

  lemma LatestDecides(m: Blocks, latest: nat, t: nat)
    requires IsLatest(m, latest)
    ensures latest <= t <==> UpTo(m, t)
    ensures latest <= t ==> Restrict(m, t) == m
  {
  }

  lemma LatestChunk(sha: Hasher, cs: Chunks, m: Blocks, latest: nat)
    requires Holds(sha, cs, m) && IsLatest(m, latest)
    ensures forall c :: c in cs ==> ChunkStart(c) == c && c <= ChunkStart(latest)
  {
    forall c | c in cs ensures c <= ChunkStart(latest) {
      var h :| h in m && ChunkStart(h) == c;
      ChunksOrdered(h, latest);
    }
  }

  lemma ChunkKeys(dat: map<nat, seq<byte>>, idx: map<nat, seq<byte>>)
    requires Aligned(dat, idx)
    ensures ChunksIn(dat, idx).Keys == idx.Keys
  {
  }

  /** The files outside the range of chunks already removed. */
  ghost function Outside(files: map<nat, seq<byte>>, first: nat, next: nat): map<nat, seq<byte>> {
    map b | b in files && (b <= first || next <= b) :: files[b]
  }

  lemma OutsideNext(files: map<nat, seq<byte>>, first: nat, c: nat)
    requires ChunkStart(c) == c && first < c && forall b :: b in files ==> ChunkStart(b) == b
    ensures Outside(files, first, c) - {c} == Outside(files, first, c + CHUNK)
  {
    forall b | b in files && c <= b ensures b == c || c + CHUNK <= b {
      NextChunk(c, b);
    }
  }

  lemma NextChunk(c: nat, b: nat)
    requires ChunkStart(c) == c && ChunkStart(b) == b && c <= b
    ensures b == c || c + CHUNK <= b
  {
  }

  lemma DeleteInFiles(
    dat: map<nat, seq<byte>>, idx: map<nat, seq<byte>>, dat': map<nat, seq<byte>>, idx': map<nat, seq<byte>>, t: nat)
    requires Aligned(dat, idx)
    requires
      var c, pos := ChunkStart(t), Pos(t);
      var idx1 := map b | b in idx && b <= c :: idx[b];
      var dat1 := map b | b in dat && b <= c :: dat[b];
      if c in idx1 then
        var cut := Truncate(idx1[c], (pos + 1) * ENTRY);
        && pos < |Slots(cut)|
        && idx' == idx1[c := cut]
        && dat' == dat1[c := Truncate(dat1[c], End(Slots(cut)[pos]))]
      else idx' == idx1 && dat' == dat1
    ensures Aligned(dat', idx') && ChunksIn(dat', idx') == DeleteAbove(ChunksIn(dat, idx), t)
  {
    hide ChunkStart, Pos, Slots, Truncate;
    if ChunkStart(t) in idx {
      SlotsOfTruncate(idx[ChunkStart(t)], Pos(t) + 1);
    }
  }

  ghost function From(m: Blocks, low: nat): Blocks {
    map h | h in m && low <= h :: m[h]
  }

  ghost function Pruned(cs: Chunks, minKeep: nat): Chunks {
    map c | c in cs && c + CHUNK > minKeep :: cs[c]
  }

  lemma PruneHolds(sha: Hasher, cs: Chunks, m: Blocks, minKeep: nat)
    requires Holds(sha, cs, m) && ChunkStart(minKeep) == minKeep
    ensures Holds(sha, Pruned(cs, minKeep), From(m, minKeep))
  {
    var cs', m' := Pruned(cs, minKeep), From(m, minKeep);
    forall h ensures h in m && h in m' ==> ChunkStart(h) in cs' {
      PlacementOf(h);
    }
    forall h | h !in m' ensures EmptyAt(cs', h) {
      PruneEmpty(cs, m, minKeep, h);
    }
    forall c | c in cs' ensures exists h :: h in m' && ChunkStart(h) == c {
      var h :| h in m && ChunkStart(h) == c;
      PruneKeeps(c, minKeep, h);
      assert h in m';
    }
  }

  lemma PruneEmpty(cs: Chunks, m: Blocks, minKeep: nat, h: nat)
    requires OthersEmpty(cs, m) && ChunkStart(minKeep) == minKeep && h !in From(m, minKeep)
    ensures EmptyAt(Pruned(cs, minKeep), h)
  {
    if h in m {
      PlacementOf(h);
      ChunksOrdered(minKeep, h);
      assert ChunkStart(h) < minKeep;
      NextChunk(ChunkStart(h), minKeep);
    } else {
      assert EmptyAt(cs, h);
    }
  }

  lemma PruneKeeps(c: nat, minKeep: nat, h: nat)
    requires ChunkStart(minKeep) == minKeep && ChunkStart(h) == c && c + CHUNK > minKeep
    ensures minKeep <= h
  {
  }

  predicate NatLess(a: nat, b: nat) {
    a < b
  }
}
