/**
  ext2_link (when the entry fits into the last record's slack) and the record walk of
  ext2_parse_dir, src/kernel/fs/filesystem.c, on a directory kept in the file system.
*/
module Directory {
  import opened Common
  import opened DirSpec
  import Ext2Spec
  import Ext2

  /** The walk of ext2_link: the last record of the directory. */
  method FindLast(buf: seq<Byte>) returns (last: nat)
    requires Tiles(buf, 0) && buf != []
    ensures last == LastStart(buf, 0)
  {
    var i := 0;
    last := 0;
    while i < |buf|
      invariant i <= |buf| && Tiles(buf, i)
      invariant i < |buf| ==> LastStart(buf, i) == LastStart(buf, 0)
      invariant i == |buf| ==> last == LastStart(buf, 0)
      decreases |buf| - i
    {
      last := i;
      i := i + Size(buf, last);
    }
  }

  /** The walk of ext2_parse_dir: every record with its offset, "." and ".." left aside. */
  method ParseDir(buf: seq<Byte>) returns (children: seq<Entry>)
    requires IsDirectory(buf)
    ensures children == Children(Walk(buf, 0))
  {
    hide RecordOk, EntryAt, Size, Children;
    var i := 0;
    children := [];
    NoChildren();
    ghost var seen := [];
    while i < |buf|
      invariant i <= |buf| && Tiles(buf, i) && seen + Walk(buf, i) == Walk(buf, 0)
      invariant children == Children(seen)
      decreases |buf| - i
    {
      RecordReach(buf, i);
      var e := EntryAt(buf, i);
      ChildrenOne(seen, e);
      if !IsDot(e.name) {
        children := children + [e];
      }
      assert seen + [e] + Walk(buf, i + Size(buf, i)) == seen + ([e] + Walk(buf, i + Size(buf, i)));
      seen := seen + [e];
      i := i + Size(buf, i);
    }
    assert seen + [] == seen;
  }

  const DOT: Byte := 46

  predicate IsDot(name: seq<Byte>) {
    name == [DOT] || name == [DOT, DOT]
  }

  /** The entries that become children of the directory in the path cache. */
  function Children(es: seq<Entry>): seq<Entry> {
    if es == [] then []
    else Children(es[..|es| - 1]) + (if IsDot(es[|es| - 1].name) then [] else [es[|es| - 1]])
  }

  /** A string as bytes. */
  function Ascii(s: string): seq<Byte>
    requires forall i :: 0 <= i < |s| ==> s[i] as int < 128
  {
    seq(|s|, i requires 0 <= i < |s| => s[i] as int)
  }

  /** The children are the entries not named "." or "..". */
  lemma {:induction false} ChildrenIff(es: seq<Entry>, e: Entry)
    ensures e in Children(es) <==> e in es && e.name != Ascii(".") && e.name != Ascii("..")
  {
    assert Ascii(".") == [DOT] && Ascii("..") == [DOT, DOT];
    if es == [] {
    } else {
      ChildrenIff(es[..|es| - 1], e);
      assert es == es[..|es| - 1] + [es[|es| - 1]];
    }
  }

  lemma ChildrenOne(es: seq<Entry>, e: Entry)
    ensures Children(es + [e]) == Children(es) + (if IsDot(e.name) then [] else [e])
  {
  }

  lemma NoChildren()
    ensures Children([]) == []
  {
  }

  /** After ext2_link, ext2_parse_dir finds the old children and the new entry. */
  lemma LinkThenParse(buf: seq<Byte>, inode: nat, name: seq<Byte>, kind: Byte)
    requires IsDirectory(buf) && buf != [] && inode < TWO32 && |name| < 256 && Fits(buf, name) && !IsDot(name)
    ensures IsDirectory(Linked(buf, inode, name, kind))
    ensures Children(Walk(Linked(buf, inode, name, kind), 0)) ==
            Children(Walk(buf, 0)) + [Entry(NewStart(buf), inode, name)]
  {
    LinkAppends(buf, inode, name, kind);
    ChildrenOne(Walk(buf, 0), Entry(NewStart(buf), inode, name));
  }

  /** last_start and new_start as ext2_link computes them from the end of the directory. */
  lemma LinkOffsets(buf: seq<Byte>, last: nat)
    requires Tiles(buf, 0) && buf != [] && last == LastStart(buf, 0)
    ensures last == |buf| - Size(buf, last) && NewStart(buf) == Align4(last + HEADER + Length(buf, last))
  {
  }

  /** Rewriting the last record up to its new size only changes the size field. */
  lemma FirstWrite(buf: seq<Byte>, last: nat, size: nat)
    requires last + HEADER <= |buf| && HEADER <= size < 65536 && last + size <= |buf|
    ensures Ext2Spec.Splice(buf, last, Resized(buf, last, size)[last..last + size]) == Resized(buf, last, size)
  {
  }

  /** The two writes of ext2_link: the last record cut to its length, then the new record behind it. */
  method WriteRecords(fs: Ext2.FileSystem, d: nat, ghost buf: seq<Byte>, last: nat, newSize: nat, start: nat,
                      shrunk: seq<Byte>, record: seq<Byte>) returns (ok: bool)
    requires fs.Valid() && d in fs.inodes && Ext2Spec.FileOf(fs.Contents(), d) == buf
    requires Ext2Spec.Ready(fs.g, fs.inodes[d], fs.inodes[d].size)
    requires |shrunk| == |buf| && last + newSize <= |buf| && start + |record| <= |buf|
    requires Ext2Spec.Splice(buf, last, shrunk[last..last + newSize]) == shrunk
    modifies fs`inodes, fs`saved, fs.cache, fs.cache.table, fs.cache.table.entries, fs.cache.table.model.Values
    ensures !ok ==> fs.Exhausted()
    ensures ok ==> fs.Valid() && fs.Contents() == old(fs.Contents())[d := Ext2Spec.Splice(shrunk, start, record)]
  {
    hide Ext2.FileSystem.Valid, Ext2.FileSystem.Exhausted;
    hide Ext2Spec.Files, Ext2Spec.Splice, Ext2Spec.Kept, Ext2Spec.Ready;
    FileLength(fs, d);
    KeptSelf(fs.g, fs.inodes);
    ReadyNow(fs, fs.inodes, d);
    ghost var before := fs.inodes;
    var w := fs.WriteContent(d, shrunk[last..last + newSize], last);
    if w.None? {
      return false;
    }
    ReadyNow(fs, before, d);
    w := fs.WriteContent(d, record, start);
    return w.Some?;
  }

  /** ext2_link: the entry's offset, and the directory with the entry appended; None aborts. */
  method Link(fs: Ext2.FileSystem, d: nat, inode: nat, name: seq<Byte>, kind: Byte) returns (offset: Option<nat>)
    requires fs.Valid() && d in fs.inodes && inode < TWO32 && |name| < 256
    requires IsDirectory(Ext2Spec.FileOf(fs.Contents(), d)) && Ext2Spec.FileOf(fs.Contents(), d) != []
    requires Fits(Ext2Spec.FileOf(fs.Contents(), d), name) && Ext2Spec.Ready(fs.g, fs.inodes[d], fs.inodes[d].size)
    modifies fs`inodes, fs`saved, fs.cache, fs.cache.table, fs.cache.table.entries, fs.cache.table.model.Values
    ensures offset.None? ==> fs.Exhausted()
    ensures offset.Some? ==> fs.Valid() && offset.value == NewStart(old(Ext2Spec.FileOf(fs.Contents(), d)))
    ensures offset.Some? ==>
              fs.Contents() ==
              old(fs.Contents())[d := Linked(old(Ext2Spec.FileOf(fs.Contents(), d)), inode, name, kind)]
  {
    hide Ext2.FileSystem.Valid, Ext2.FileSystem.Exhausted;
    hide Ext2Spec.Files, Ext2Spec.Splice, Ext2Spec.Kept, Ext2Spec.Ready;
    hide Linked, Tiles, LastStart, Resized, Record, RecordOk, Size, Length, Align4;
    FileLength(fs, d);
    var read := fs.ReadContent(d, 0, fs.inodes[d].size);
    if read.None? {
      return None;
    }
    ReadyNow(fs, old(fs.inodes), d);
    var buf := read.value;
    WholeFile(old(Ext2Spec.FileOf(fs.Contents(), d)));
    var last := FindLast(buf);
    LinkOffsets(buf, last);
    LinkedIsSplice(buf, inode, name, kind);
    ShrinkFits(buf);
    var lastStart := |buf| - Size(buf, last);
    var newSize := Align4(HEADER + Length(buf, last));
    var start := Align4(lastStart + HEADER + Length(buf, last));
    var rem := BLOCK_SIZE - start % BLOCK_SIZE;
    FirstWrite(buf, last, newSize);
    var shrunk, record := Resized(buf, last, newSize), Record(inode, rem, name, kind);
    var ok := WriteRecords(fs, d, buf, lastStart, newSize, start, shrunk, record);
    return if ok then Some(start) else None;
  }

  lemma WholeFile(file: seq<Byte>)
    ensures Ext2.SliceOf(file, 0, |file|) == file
  {
  }

  lemma KeptSelf(g: Ext2Spec.Geometry, fs: map<nat, Ext2Spec.Inode>)
    ensures Ext2Spec.Kept(g, fs, fs)
  {
  }

  /** A directory without holes can still be rewritten anywhere below its end. */
  lemma ReadyNow(fs: Ext2.FileSystem, before: map<nat, Ext2Spec.Inode>, d: nat)
    requires fs.Valid() && d in before && Ext2Spec.Ready(fs.g, before[d], before[d].size)
    requires Ext2Spec.Kept(fs.g, before, fs.inodes)
    ensures d in fs.inodes && Ext2Spec.Ready(fs.g, fs.inodes[d], fs.inodes[d].size)
    ensures forall end: nat :: end <= |Ext2Spec.FileOf(fs.Contents(), d)| ==> Ext2Spec.Ready(fs.g, fs.inodes[d], end)
  {
    FileLength(fs, d);
  }

  lemma FileLength(fs: Ext2.FileSystem, d: nat)
    requires fs.Valid() && d in fs.inodes
    ensures |Ext2Spec.FileOf(fs.Contents(), d)| == fs.inodes[d].size <= Ext2Spec.CAPACITY
  {
  }
}
