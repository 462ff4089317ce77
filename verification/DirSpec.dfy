/**
  Directory records of src/kernel/fs/filesystem.c on bytes: the walk of ext2_parse_dir and
  what ext2_link makes of a directory's bytes.
*/
module DirSpec {
  import opened Common
  import Ext2Spec

  const HEADER: nat := 8  // sizeof(ext2_dir_t): inode, size, length, type

  /** What a walk finds: where the record starts, the inode number and the name. */
  datatype Entry = Entry(offset: nat, inode: nat, name: seq<Byte>)

  function Inode(buf: seq<Byte>, i: nat): nat
    requires i + HEADER <= |buf|
  {
    (buf[i] as int) + 256 * (buf[i + 1] as int) + 65536 * (buf[i + 2] as int) + 16777216 * (buf[i + 3] as int)
  }

  function Size(buf: seq<Byte>, i: nat): nat
    requires i + HEADER <= |buf|
  {
    (buf[i + 4] as int) + 256 * (buf[i + 5] as int)
  }

  function Length(buf: seq<Byte>, i: nat): nat
    requires i + HEADER <= |buf|
  {
    buf[i + 6]
  }

  function Kind(buf: seq<Byte>, i: nat): Byte
    requires i + HEADER <= |buf|
  {
    buf[i + 7]
  }

  function Align4(x: nat): (r: nat)
    ensures x <= r < x + 4 && r % 4 == 0
  {
    (x + 3) / 4 * 4
  }

  /** Aligning an offset behind an aligned start, within an aligned size. */
  lemma AlignWithin(l: nat, x: nat, size: nat)
    requires l % 4 == 0
    ensures Align4(l + x) == l + Align4(x)
    ensures size % 4 == 0 && x <= size ==> Align4(x) <= size
  {
  }

  /** An aligned record that holds its name and stays inside its block. */
  predicate RecordOk(buf: seq<Byte>, i: nat) {
    && i % 4 == 0 && i + HEADER <= |buf|
    && Size(buf, i) % 4 == 0 && HEADER + Length(buf, i) <= Size(buf, i)
    && i % BLOCK_SIZE + Size(buf, i) <= BLOCK_SIZE && i + Size(buf, i) <= |buf|
  }

  /** From offset `i` on, records follow one another up to the end. */
  predicate Tiles(buf: seq<Byte>, i: nat)
    decreases |buf| - i
  {
    i == |buf| || (RecordOk(buf, i) && Tiles(buf, i + Size(buf, i)))
  }

  /** A directory: whole blocks tiled by records. */
  predicate IsDirectory(buf: seq<Byte>) {
    |buf| % BLOCK_SIZE == 0 && Tiles(buf, 0)
  }

  function EntryAt(buf: seq<Byte>, i: nat): Entry
    requires RecordOk(buf, i)
  {
    Entry(i, Inode(buf, i), buf[i + HEADER..i + HEADER + Length(buf, i)])
  }

  /** The entries that the walk i += size visits. */
  function Walk(buf: seq<Byte>, i: nat): seq<Entry>
    requires Tiles(buf, i)
    decreases |buf| - i
  {
    if i == |buf| then [] else [EntryAt(buf, i)] + Walk(buf, i + Size(buf, i))
  }

  /** Where the last record starts. */
  function LastStart(buf: seq<Byte>, i: nat): (l: nat)
    requires Tiles(buf, i) && i < |buf|
    ensures i <= l < |buf| && RecordOk(buf, l) && l + Size(buf, l) == |buf|
    decreases |buf| - i
  {
    if i + Size(buf, i) == |buf| then i else LastStart(buf, i + Size(buf, i))
  }

  // ---------- ext2_link ----------

  /** The bytes of a new record: header, then the name. */
  function Record(inode: nat, size: nat, name: seq<Byte>, kind: Byte): (r: seq<Byte>)
    requires inode < TWO32 && size < 65536 && |name| < 256
    ensures |r| == HEADER + |name|
  {
    [inode % 256, inode / 256 % 256, inode / 65536 % 256, inode / 16777216,
     size % 256, size / 256, |name|, kind] + name
  }

  function NewStart(buf: seq<Byte>): (s: nat)
    requires Tiles(buf, 0) && buf != []
    ensures LastStart(buf, 0) + HEADER <= s <= |buf| && s % 4 == 0
  {
    var last := LastStart(buf, 0);
    AlignWithin(last, HEADER + Length(buf, last), Size(buf, last));
    Align4(last + HEADER + Length(buf, last))
  }

  /** The size field of the record at `i` overwritten. */
  function Resized(buf: seq<Byte>, i: nat, size: nat): (r: seq<Byte>)
    requires i + HEADER <= |buf| && size < 65536
    ensures |r| == |buf|
  {
    buf[i + 4 := size % 256][i + 5 := size / 256]
  }

  /**
    The directory after ext2_link.  A new block behind the end is full of zeros; there the
    source gives the record the rest of the block minus the record's own length.
  */
  function Linked(buf: seq<Byte>, inode: nat, name: seq<Byte>, kind: Byte): seq<Byte>
    requires IsDirectory(buf) && buf != [] && inode < TWO32 && |name| < 256
  {
    var last := LastStart(buf, 0);
    var start := NewStart(buf);
    var rem := BLOCK_SIZE - start % BLOCK_SIZE;
    if HEADER + |name| > rem then
      var record := Record(inode, BLOCK_SIZE - (HEADER + |name|), name, kind);
      buf + (record + seq(BLOCK_SIZE - |record|, _ => 0))
    else
      var shrunk := Resized(buf, last, Align4(HEADER + Length(buf, last)));
      Ext2Spec.Splice(shrunk, start, Record(inode, rem, name, kind))
  }

  /** The new record fits behind the last one without leaving its slack. */
  predicate Fits(buf: seq<Byte>, name: seq<Byte>)
    requires Tiles(buf, 0) && buf != []
  {
    NewStart(buf) + HEADER + |name| <= |buf|
  }

  lemma LittleEndian(x: nat)
    requires x < TWO32
    ensures x % 256 + 256 * (x / 256 % 256) + 65536 * (x / 65536 % 256) + 16777216 * (x / 16777216) == x
    ensures x < 65536 ==> x % 256 + 256 * (x / 256) == x
  {
  }

  lemma SubSlice<T>(s: seq<T>, i: nat, j: nat, a: nat, b: nat)
    requires i <= j <= |s| && a <= b <= j - i
    ensures s[i..j][a..b] == s[i + a..i + b]
  {
    var x, y := s[i..j][a..b], s[i + a..i + b];
    assert |x| == |y| && forall k :: 0 <= k < |x| ==> x[k] == y[k];
  }

  /** The layout on disk: inode, size, length and type, low bytes first, then the name. */
  lemma RecordLayout()
    ensures Record(0x0403_0201, 12, [97, 98, 99, 100], 2) == [1, 2, 3, 4, 12, 0, 4, 2, 97, 98, 99, 100]
    ensures Record(11, 0x0304, [97], 1) == [11, 0, 0, 0, 4, 3, 1, 1, 97]
  {
  }

  lemma RecordFields(buf: seq<Byte>, i: nat, inode: nat, size: nat, name: seq<Byte>, kind: Byte)
    requires inode < TWO32 && size < 65536 && |name| < 256
    requires i + HEADER + |name| <= |buf| && buf[i..i + HEADER + |name|] == Record(inode, size, name, kind)
    ensures Inode(buf, i) == inode && Size(buf, i) == size && Length(buf, i) == |name| && Kind(buf, i) == kind
    ensures buf[i + HEADER..i + HEADER + |name|] == name
  {
    var end := i + HEADER + |name|;
    var r := buf[i..end];
    LittleEndian(inode);
    LittleEndian(size);
    var rec := Record(inode, size, name, kind);
    assert rec[0] == inode % 256 && rec[1] == inode / 256 % 256 && rec[2] == inode / 65536 % 256 &&
           rec[3] == inode / 16777216;
    assert rec[4] == size % 256 && rec[5] == size / 256 && rec[6] == |name|;
    assert r[0] == buf[i] && r[1] == buf[i + 1] && r[2] == buf[i + 2] && r[3] == buf[i + 3];
    assert r[4] == buf[i + 4] && r[5] == buf[i + 5] && r[6] == buf[i + 6] && r[7] == buf[i + 7] && rec[7] == kind;
    SubSlice(buf, i, end, HEADER, HEADER + |name|);
    assert r[HEADER..HEADER + |name|] == name;
  }

  /** The last record lies in the last block, so the slack reaches to the end of the buffer. */
  lemma SlackIsRest(buf: seq<Byte>)
    requires IsDirectory(buf) && buf != []
    ensures NewStart(buf) < |buf| ==> BLOCK_SIZE - NewStart(buf) % BLOCK_SIZE == |buf| - NewStart(buf)
    ensures NewStart(buf) == |buf| ==> NewStart(buf) % BLOCK_SIZE == 0
    ensures |buf| - BLOCK_SIZE <= LastStart(buf, 0)
  {
    var last := LastStart(buf, 0);
    assert RecordOk(buf, last);
    hide Tiles, LastStart, Size, Length, NewStart;
    BlockRest(|buf|, last, Size(buf, last), NewStart(buf));
  }

  lemma BlockRest(end: nat, last: nat, size: nat, start: nat)
    requires end % BLOCK_SIZE == 0 && last % BLOCK_SIZE + size <= BLOCK_SIZE && last + size == end &&
             last < start <= end
    ensures start < end ==> BLOCK_SIZE - start % BLOCK_SIZE == end - start
    ensures start == end ==> start % BLOCK_SIZE == 0
    ensures end - BLOCK_SIZE <= last
  {
  }

  /** Shrinking a record to its aligned length keeps its entry and reaches the next record. */
  lemma ShrunkRecord(buf: seq<Byte>, b: seq<Byte>, i: nat, size: nat)
    requires RecordOk(buf, i) && |b| == |buf| && size == Align4(HEADER + Length(buf, i)) && size <= Size(buf, i)
    requires b[i..i + 4] == buf[i..i + 4] && b[i + 4] == size % 256 && b[i + 5] == size / 256
    requires b[i + 6..i + HEADER + Length(buf, i)] == buf[i + 6..i + HEADER + Length(buf, i)]
    ensures RecordOk(b, i) && Size(b, i) == size && EntryAt(b, i) == EntryAt(buf, i)
  {
    var x, y := b[i..i + 4], buf[i..i + 4];
    assert x[0] == y[0] && x[1] == y[1] && x[2] == y[2] && x[3] == y[3];
    assert Inode(b, i) == Inode(buf, i);
    var u, v := b[i + 6..i + HEADER + Length(buf, i)], buf[i + 6..i + HEADER + Length(buf, i)];
    assert u[0] == v[0] && u[2..] == v[2..];
    assert u[2..] == b[i + HEADER..i + HEADER + Length(buf, i)];
    assert v[2..] == buf[i + HEADER..i + HEADER + Length(buf, i)];
  }

  lemma ShrinkFits(buf: seq<Byte>)
    requires Tiles(buf, 0) && buf != []
    ensures var last := LastStart(buf, 0);
            var size := Align4(HEADER + Length(buf, last));
            last + size == NewStart(buf) && size <= Size(buf, last)
  {
    var last := LastStart(buf, 0);
    AlignWithin(last, HEADER + Length(buf, last), Size(buf, last));
  }

  /** The first write of ext2_link: the last record is cut to its aligned length. */
  lemma LinkedLast(buf: seq<Byte>, inode: nat, name: seq<Byte>, kind: Byte)
    requires IsDirectory(buf) && buf != [] && inode < TWO32 && |name| < 256 && Fits(buf, name)
    ensures var b := Linked(buf, inode, name, kind);
            var last := LastStart(buf, 0);
            && |b| == |buf| && b[..last] == buf[..last]
            && RecordOk(b, last) && last + Size(b, last) == NewStart(buf) && EntryAt(b, last) == EntryAt(buf, last)
  {
    hide Linked, RecordOk, EntryAt;
    var last := LastStart(buf, 0);
    var size := Align4(HEADER + Length(buf, last));
    LinkedBytes(buf, inode, name, kind);
    ShrinkFits(buf);
    var b := Linked(buf, inode, name, kind);
    assert b[last..last + 4] == buf[last..last + 4];
    assert b[last + 6..last + HEADER + Length(buf, last)] == buf[last + 6..last + HEADER + Length(buf, last)];
    ShrunkRecord(buf, b, last, size);
  }

  /** The second write: the new record takes the rest of the block. */
  lemma LinkedNew(buf: seq<Byte>, inode: nat, name: seq<Byte>, kind: Byte)
    requires IsDirectory(buf) && buf != [] && inode < TWO32 && |name| < 256 && Fits(buf, name)
    ensures var b := Linked(buf, inode, name, kind);
            var start := NewStart(buf);
            && |b| == |buf| && RecordOk(b, start) && start + Size(b, start) == |b|
            && EntryAt(b, start) == Entry(start, inode, name) && Kind(b, start) == kind
  {
    hide Linked, Record, Resized;
    SlackIsRest(buf);
    LinkedBytes(buf, inode, name, kind);
    var start := NewStart(buf);
    var rem := BLOCK_SIZE - start % BLOCK_SIZE;
    var b := Linked(buf, inode, name, kind);
    assert b[start..start + HEADER + |name|] == Record(inode, rem, name, kind);
    RecordFields(b, start, inode, rem, name, kind);
    AlignedRest(|buf|, start);
  }

  lemma AlignedRest(end: nat, start: nat)
    requires end % BLOCK_SIZE == 0 && start % 4 == 0 && start < end
    ensures (end - start) % 4 == 0
  {
  }

  lemma LinkedIsSplice(buf: seq<Byte>, inode: nat, name: seq<Byte>, kind: Byte)
    requires IsDirectory(buf) && buf != [] && inode < TWO32 && |name| < 256 && Fits(buf, name)
    ensures Align4(HEADER + Length(buf, LastStart(buf, 0))) <= Size(buf, LastStart(buf, 0)) <= BLOCK_SIZE
    ensures Linked(buf, inode, name, kind) ==
            Ext2Spec.Splice(Resized(buf, LastStart(buf, 0), Align4(HEADER + Length(buf, LastStart(buf, 0)))),
                            NewStart(buf),
                            Record(inode, BLOCK_SIZE - NewStart(buf) % BLOCK_SIZE, name, kind))
  {
    SlackIsRest(buf);
    ShrinkFits(buf);
  }

  lemma LinkedBytes(buf: seq<Byte>, inode: nat, name: seq<Byte>, kind: Byte)
    requires IsDirectory(buf) && buf != [] && inode < TWO32 && |name| < 256 && Fits(buf, name)
    ensures var b := Linked(buf, inode, name, kind);
            var last, start := LastStart(buf, 0), NewStart(buf);
            var shrunk := Resized(buf, last, Align4(HEADER + Length(buf, last)));
            var record := Record(inode, BLOCK_SIZE - start % BLOCK_SIZE, name, kind);
            && |b| == |buf| && b == Ext2Spec.Splice(shrunk, start, record)
            && (forall k :: 0 <= k < start ==> b[k] == shrunk[k])
            && (forall k :: 0 <= k < |record| ==> b[start + k] == record[k])
  {
    SlackIsRest(buf);
  }

  lemma SameRecord(buf: seq<Byte>, b: seq<Byte>, i: nat)
    requires RecordOk(buf, i) && |b| == |buf| && b[i..i + Size(buf, i)] == buf[i..i + Size(buf, i)]
    ensures RecordOk(b, i) && Size(b, i) == Size(buf, i) && EntryAt(b, i) == EntryAt(buf, i)
  {
    var end, len := i + Size(buf, i), Length(buf, i);
    var x, y := b[i..end], buf[i..end];
    assert x[0] == y[0] && x[1] == y[1] && x[2] == y[2] && x[3] == y[3] && x[4] == y[4] && x[5] == y[5] && x[6] == y[6];
    SubSlice(b, i, end, HEADER, HEADER + len);
    SubSlice(buf, i, end, HEADER, HEADER + len);
  }

  lemma WalkCons(buf: seq<Byte>, b: seq<Byte>, i: nat, e: Entry)
    requires RecordOk(buf, i) && RecordOk(b, i) && Size(b, i) == Size(buf, i) && EntryAt(b, i) == EntryAt(buf, i)
    requires |b| == |buf| && Tiles(buf, i) && Tiles(b, i + Size(b, i))
    requires Walk(b, i + Size(b, i)) == Walk(buf, i + Size(buf, i)) + [e]
    ensures Tiles(b, i) && Walk(b, i) == Walk(buf, i) + [e]
  {
    RecordReach(b, i);
    hide RecordOk, EntryAt, Size;
    assert Walk(b, i) == [EntryAt(b, i)] + Walk(b, i + Size(b, i));
    assert Walk(buf, i) == [EntryAt(buf, i)] + Walk(buf, i + Size(buf, i));
  }

  lemma WalkOne(buf: seq<Byte>, i: nat)
    requires RecordOk(buf, i) && i + Size(buf, i) == |buf|
    ensures Tiles(buf, i) && Walk(buf, i) == [EntryAt(buf, i)]
  {
  }

  /** A walk that enters an unchanged prefix goes the same way up to the last record. */
  lemma {:induction false} WalkAppends(buf: seq<Byte>, b: seq<Byte>, i: nat, last: nat, start: nat, e: Entry)
    requires Tiles(buf, i) && i < |buf| && last == LastStart(buf, i)
    requires |b| == |buf| && b[..last] == buf[..last]
    requires RecordOk(b, last) && last + Size(b, last) == start && EntryAt(b, last) == EntryAt(buf, last)
    requires RecordOk(b, start) && start + Size(b, start) == |b| && EntryAt(b, start) == e
    ensures Tiles(b, i) && Walk(b, i) == Walk(buf, i) + [e]
    decreases |buf| - i
  {
    hide RecordOk, EntryAt, Size, Length, Inode, Walk;
    RecordReach(buf, i);
    if i == last {
      WalkLastTwo(b, last, start);
      WalkOne(buf, last);
    } else {
      var next := i + Size(buf, i);
      SubSlice(b, 0, last, i, next);
      SubSlice(buf, 0, last, i, next);
      SameRecord(buf, b, i);
      WalkAppends(buf, b, next, last, start, e);
      WalkCons(buf, b, i, e);
    }
  }

  lemma WalkLastTwo(b: seq<Byte>, last: nat, start: nat)
    requires RecordOk(b, last) && last + Size(b, last) == start && RecordOk(b, start) && start + Size(b, start) == |b|
    ensures Tiles(b, last) && Walk(b, last) == [EntryAt(b, last), EntryAt(b, start)]
  {
    RecordReach(b, start);
    RecordReach(b, last);
    hide RecordOk, EntryAt, Size;
    assert Tiles(b, |b|) && Tiles(b, start);
    assert Walk(b, |b|) == [] && Walk(b, start) == [EntryAt(b, start)];
  }

  lemma RecordReach(buf: seq<Byte>, i: nat)
    requires RecordOk(buf, i)
    ensures i + HEADER <= |buf| && i < i + Size(buf, i) <= |buf|
  {
  }

  /**
    When the new entry fits into the slack of the last record, the result is a directory
    again, and walking it yields the old entries followed by exactly the new one.
  */
  lemma LinkAppends(buf: seq<Byte>, inode: nat, name: seq<Byte>, kind: Byte)
    requires IsDirectory(buf) && buf != [] && inode < TWO32 && |name| < 256 && Fits(buf, name)
    ensures IsDirectory(Linked(buf, inode, name, kind))
    ensures Walk(Linked(buf, inode, name, kind), 0) == Walk(buf, 0) + [Entry(NewStart(buf), inode, name)]
    ensures NewStart(buf) + HEADER <= |Linked(buf, inode, name, kind)|
    ensures Kind(Linked(buf, inode, name, kind), NewStart(buf)) == kind
  {
    var b := Linked(buf, inode, name, kind);
    LinkedLast(buf, inode, name, kind);
    LinkedNew(buf, inode, name, kind);
    WalkAppends(buf, b, 0, LastStart(buf, 0), NewStart(buf), Entry(NewStart(buf), inode, name));
  }

  /** Records that were not touched are walked as before, up to the end of the old directory. */
  lemma {:induction false} WalkReachesOldEnd(buf: seq<Byte>, b: seq<Byte>, i: nat)
    requires Tiles(buf, i) && |buf| <= |b| && b[..|buf|] == buf && Tiles(b, i)
    ensures Tiles(b, |buf|)
    decreases |buf| - i
  {
    if i < |buf| {
      RecordReach(buf, i);
      assert forall k :: 0 <= k < |buf| ==> b[k] == b[..|buf|][k];
      assert Size(b, i) == Size(buf, i);
      WalkReachesOldEnd(buf, b, i + Size(buf, i));
    }
  }

  /** In the next-block case the record does not reach the end of its block; zeros follow it. */
  lemma NextBlockBreaks(buf: seq<Byte>, inode: nat, name: seq<Byte>, kind: Byte)
    requires IsDirectory(buf) && buf != [] && inode < TWO32 && |name| < 256
    requires HEADER + |name| > BLOCK_SIZE - NewStart(buf) % BLOCK_SIZE
    ensures !IsDirectory(Linked(buf, inode, name, kind))
  {
    hide LastStart, NewStart, Align4, Record, Resized, Inode;
    var size := BLOCK_SIZE - (HEADER + |name|);
    var record := Record(inode, size, name, kind);
    var b := buf + (record + seq(BLOCK_SIZE - |record|, _ => 0));
    assert Linked(buf, inode, name, kind) == b;
    assert b[..|buf|] == buf;
    assert b[|buf|..|buf| + HEADER + |name|] == record;
    RecordFields(b, |buf|, inode, size, name, kind);
    var x := |buf| + size;
    assert b[x + 4] == 0 && b[x + 5] == 0;
    assert !RecordOk(b, x);
    if Tiles(b, 0) {
      WalkReachesOldEnd(buf, b, 0);
    }
  }

  /** What the next-block case does write: a block of its own, with a size field short by the record itself. */
  lemma NextBlockFields(buf: seq<Byte>, inode: nat, name: seq<Byte>, kind: Byte)
    requires IsDirectory(buf) && buf != [] && inode < TWO32 && |name| < 256
    requires HEADER + |name| > BLOCK_SIZE - NewStart(buf) % BLOCK_SIZE
    ensures var b := Linked(buf, inode, name, kind);
            && |b| == |buf| + BLOCK_SIZE && b[..|buf|] == buf
            && Inode(b, |buf|) == inode && Length(b, |buf|) == |name| && Kind(b, |buf|) == kind
            && Size(b, |buf|) == BLOCK_SIZE - (HEADER + |name|)
            && b[|buf| + HEADER..|buf| + HEADER + |name|] == name
  {
    hide LastStart, NewStart, Align4, Record, Resized, Tiles;
    var size := BLOCK_SIZE - (HEADER + |name|);
    var record := Record(inode, size, name, kind);
    var b := buf + (record + seq(BLOCK_SIZE - |record|, _ => 0));
    assert b[|buf|..|buf| + HEADER + |name|] == record;
    RecordFields(b, |buf|, inode, size, name, kind);
  }

  /** With no slack at all the file grows by the record alone and is no longer whole blocks. */
  lemma NoSlackBreaks(buf: seq<Byte>, inode: nat, name: seq<Byte>, kind: Byte)
    requires IsDirectory(buf) && buf != [] && inode < TWO32 && |name| < 256 && NewStart(buf) == |buf|
    ensures !IsDirectory(Linked(buf, inode, name, kind))
  {
    SlackIsRest(buf);
    hide Tiles, LastStart, NewStart, RecordOk, Size, Length, Align4, Record, Resized;
    assert |Linked(buf, inode, name, kind)| == |buf| + (HEADER + |name|);
    NotWhole(|buf|, HEADER + |name|);
  }

  lemma NotWhole(n: nat, k: nat)
    requires n % BLOCK_SIZE == 0 && 0 < k < BLOCK_SIZE
    ensures (n + k) % BLOCK_SIZE != 0
  {
  }

  /** ext2_link keeps a directory well formed exactly when the entry fits into the last slack. */
  lemma LinkKeepsDirectoryIff(buf: seq<Byte>, inode: nat, name: seq<Byte>, kind: Byte)
    requires IsDirectory(buf) && buf != [] && inode < TWO32 && |name| < 256
    ensures IsDirectory(Linked(buf, inode, name, kind)) <==> Fits(buf, name)
  {
    hide Linked, Tiles;
    SlackIsRest(buf);
    if Fits(buf, name) {
      LinkAppends(buf, inode, name, kind);
    } else if NewStart(buf) == |buf| {
      NoSlackBreaks(buf, inode, name, kind);
    } else {
      NextBlockBreaks(buf, inode, name, kind);
    }
  }

  // ---------- A directory without slack ----------

  /** "." takes all of a block but the last twelve bytes, which the entry "file" fills exactly. */
  function PackedDirectory(): (buf: seq<Byte>)
    ensures |buf| == BLOCK_SIZE
  {
    Record(2, 1012, [46], 2) + seq(1003, _ => 0) + Record(11, 12, [102, 105, 108, 101], 1)
  }

  lemma PackedRecords()
    ensures var buf := PackedDirectory();
            && RecordOk(buf, 0) && Size(buf, 0) == 1012 && RecordOk(buf, 1012) && Size(buf, 1012) == 12
            && Length(buf, 1012) == 4
  {
    var buf := PackedDirectory();
    assert buf[0..9] == Record(2, 1012, [46], 2);
    assert buf[1012..1024] == Record(11, 12, [102, 105, 108, 101], 1);
    RecordFields(buf, 0, 2, 1012, [46], 2);
    RecordFields(buf, 1012, 11, 12, [102, 105, 108, 101], 1);
  }

  /** It is a directory, no entry fits into it, and linking any entry makes it none. */
  lemma PackedDirectoryBreaks(inode: nat, name: seq<Byte>, kind: Byte)
    requires inode < TWO32 && |name| < 256
    ensures IsDirectory(PackedDirectory()) && !Fits(PackedDirectory(), name)
    ensures !IsDirectory(Linked(PackedDirectory(), inode, name, kind))
  {
    var buf := PackedDirectory();
    PackedRecords();
    hide PackedDirectory, RecordOk, Size, Length, Linked;
    assert Tiles(buf, 1024) && Tiles(buf, 1012);
    assert LastStart(buf, 1012) == 1012 && LastStart(buf, 0) == 1012;
    LinkKeepsDirectoryIff(buf, inode, name, kind);
  }
}
