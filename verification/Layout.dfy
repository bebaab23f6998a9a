/**
 What the bytes of a file system image mean, in numbers.  `FileSystem` reads words, entries and
 blocks; here an image is described byte by byte, and what is read from it is what was put there.
 */
module Layout {
  import opened Bytes
  import opened Text
  import opened FileSystem
  import D = Descriptors

  /** The four bytes from `at` on hold a number, least significant first. */
  ghost predicate Holds(block: seq<byte>, at: nat, n: nat) {
    && at + 4 <= |block|
    && block[at] as nat == n % 256 && block[at + 1] as nat == n / 256 % 256
    && block[at + 2] as nat == n / 65536 % 256 && block[at + 3] as nat == n / 16777216
  }

  /** The number at byte 4 * k of a block is 1, 256, 65536 and 16777216 times its four bytes. */
  lemma WordIs(block: seq<byte>, k: nat)
    requires |block| == 4096 && k < 1024
    ensures Word(block, k) == block[4 * k] as nat + 256 * block[4 * k + 1] as nat
                              + 65536 * block[4 * k + 2] as nat + 16777216 * block[4 * k + 3] as nat
  {
  }

  lemma HoldsWord(block: seq<byte>, k: nat, n: nat)
    requires |block| == 4096 && k < 1024 && Holds(block, 4 * k, n)
    ensures Word(block, k) == n
  {
    WordIs(block, k);
    hide Word;
    assert n == n % 256 + 256 * (n / 256);
    assert n / 256 == n / 256 % 256 + 256 * (n / 65536);
    assert n / 65536 == n / 65536 % 256 + 256 * (n / 16777216);
  }

  /** A file laid out on an image: block 0 holds the number of inodes in bytes 4 to 7; the inodes follow, one
      a block, and then the data blocks.  An inode holds the file's length and behind it the numbers of
      the file's data blocks. */
  ghost predicate LaidOut(img: seq<seq<byte>>, inodes: nat, inode: nat, blocks: seq<nat>, file: seq<byte>) {
    && (forall b :: 0 <= b < |img| ==> |img[b]| == 4096)
    && inode < inodes && inodes + 1 <= |img| && Holds(img[0], 4, inodes)
    && Holds(img[inode + 1], 0, |file|)
    && |blocks| <= 1023 && |file| <= 4096 * |blocks| && |file| < 4096 * 1023
    && (forall k :: 0 <= k < |blocks| ==> Holds(img[inode + 1], 4 + 4 * k, blocks[k]) && inodes + 1 + blocks[k] < |img|)
    && (forall i :: 0 <= i < |file| ==> file[i] == img[inodes + 1 + blocks[i / 4096]][i % 4096])
  }

  /** Such a file is read back as it was laid out, wherever its blocks are. */
  lemma ReadBack(img: seq<seq<byte>>, inodes: nat, inode: nat, blocks: seq<nat>, file: seq<byte>)
    requires LaidOut(img, inodes, inode, blocks, file)
    ensures GoodFile(img, inode) && Contents(img, inode) == file
  {
    hide Word, Contents, Holds;
    HoldsWord(img[0], 1, inodes);
    HoldsWord(img[inode + 1], 0, |file|);
    forall k | 0 <= k < |blocks| ensures BlockIndex(img, inode, k) == inodes + 1 + blocks[k] {
      HoldsWord(img[inode + 1], k + 1, blocks[k]);
    }
    assert GoodFile(img, inode);
    forall i | 0 <= i < |file| ensures Contents(img, inode)[i] == file[i] {
      ContentsAt(img, inode, i);
    }
  }

  /** For example a file of 5000 bytes in the second of two inodes, on data blocks 258 and 0. */
  function Scattered(): seq<seq<byte>> {
    seq(262, b => seq(4096, i =>
      if b == 0 then if i == 4 then 2 else 0
      else if b == 2 then if i == 0 then 136 else if i == 1 then 19 else if i == 4 then 2 else if i == 5 then 1 else 0
      else if b == 261 then 65
      else if b == 3 then 66
      else 0))
  }

  lemma ScatteredIsRead()
    ensures GoodFile(Scattered(), 1)
    ensures Contents(Scattered(), 1) == seq(4096, _ => 65) + seq(904, _ => 66)
  {
    var file: seq<byte> := seq(4096, _ => 65) + seq(904, _ => 66);
    var img := Scattered();
    assert Holds(img[0], 4, 2) && Holds(img[2], 0, 5000);
    assert Holds(img[2], 4, 258) && Holds(img[2], 8, 0);
    assert forall i :: 0 <= i < 5000 ==> i / 4096 == if i < 4096 then 0 else 1;
    assert LaidOut(img, 2, 1, [258, 0], file);
    ReadBack(img, 2, 1, [258, 0], file);
  }

  // ----- Directory entries -----

  datatype Entry = Entry(name: seq<byte>, kind: nat, inode: nat)

  /** Block 0 begins with the number of entries; entry k takes the 64 bytes from 64 + 64 * k on: 32 for the
      name, filled up with zeros, 4 for the kind and 4 for the inode. */
  ghost predicate Listed(img: seq<seq<byte>>, entries: seq<Entry>) {
    && (forall b :: 0 <= b < |img| ==> |img[b]| == 4096)
    && |img| > 0 && |entries| <= 63 && Holds(img[0], 0, |entries|)
    && (forall k :: 0 <= k < |entries| ==> EntryAt(img[0], 64 + 64 * k, entries[k]))
    && (forall k :: |entries| <= k < 63 ==> img[0][64 + 64 * k] == 0)
  }

  ghost predicate EntryAt(block: seq<byte>, at: nat, e: Entry) {
    && at + 64 <= |block| && |e.name| <= 31 && 0 !in e.name
    && block[at..at + 32] == e.name + seq(32 - |e.name|, _ => 0)
    && Holds(block, at + 32, e.kind) && Holds(block, at + 36, e.inode)
  }

  lemma EntryIs(img: seq<seq<byte>>, entries: seq<Entry>, k: nat)
    requires Listed(img, entries) && k < |entries|
    ensures CString(EntryName(img, k)) == CString(EntryName(img, k)[..31]) == entries[k].name
    ensures EntryType(img, k) == entries[k].kind && EntryInode(img, k) == entries[k].inode
  {
    hide Word;
    var e, field, at := entries[k], EntryName(img, k), 64 + 64 * k;
    assert EntryAt(img[0], at, e);
    assert field == img[0][at..at + 32];
    HoldsWord(img[0], 24 + 16 * k, e.kind);
    HoldsWord(img[0], 25 + 16 * k, e.inode);
    assert e.name <= field && e.name <= field[..31];
    CStringIs(field, e.name);
    CStringIs(field[..31], e.name);
  }

  /** The directory is read as it was listed. */
  lemma EntriesAre(img: seq<seq<byte>>, entries: seq<Entry>)
    requires Listed(img, entries)
    ensures NumDirectory(img) == |entries|
    ensures forall k :: 0 <= k < |entries| ==>
              && CString(EntryName(img, k)) == entries[k].name
              && EntryType(img, k) == entries[k].kind && EntryInode(img, k) == entries[k].inode
  {
    hide Word, CString, EntryName, EntryType, EntryInode;
    HoldsWord(img[0], 0, |entries|);
    forall k | 0 <= k < |entries|
      ensures CString(EntryName(img, k)) == entries[k].name
      ensures EntryType(img, k) == entries[k].kind && EntryInode(img, k) == entries[k].inode
    {
      EntryIs(img, entries, k);
    }
  }

  lemma NamedIs(img: seq<seq<byte>>, entries: seq<Entry>, k: nat, name: seq<byte>)
    requires Listed(img, entries) && k < 63 && name != []
    ensures Named(img, k, name) <==> k < |entries| && entries[k].name == name
  {
    hide Word;
    if k < |entries| {
      EntryIs(img, entries, k);
    } else {
      assert EntryName(img, k)[..31][0] == 0;
      CStringIs(EntryName(img, k)[..31], []);
    }
  }

  /** A name is found at the first entry that has it, and not at all if none has. */
  lemma Lookup(img: seq<seq<byte>>, entries: seq<Entry>, name: seq<byte>)
    requires Listed(img, entries) && name != []
    ensures var i := FindEntry(img, name);
            if i == -1 then forall k :: 0 <= k < |entries| ==> entries[k].name != name
            else
              && 0 <= i < |entries| && entries[i].name == name
              && forall k :: 0 <= k < i ==> entries[k].name != name
  {
    hide Word, CString, Named;
    forall k: nat | k < 63 ensures Named(img, k, name) <==> k < |entries| && entries[k].name == name {
      NamedIs(img, entries, k, name);
    }
  }

  /** From the bytes of an image to what a program reads: a file that is listed and laid out is opened on the
      lowest free descriptor, and read from its start. */
  lemma OpenedAndRead(img: seq<seq<byte>>, entries: seq<Entry>, k: nat, inodes: nat, blocks: seq<nat>, file: seq<byte>,
                      f: D.Files, fd: nat, n: nat)
    requires Listed(img, entries) && k < |entries| && entries[k].name != [] && entries[k].kind == 2
    requires forall j :: 0 <= j < k ==> entries[j].name != entries[k].name
    requires LaidOut(img, inodes, entries[k].inode, blocks, file)
    requires D.Consistent(img, f) && 0 < n < U32
    requires 2 <= fd <= 7 && f.fds[fd].flags == 0 && forall i :: 2 <= i < fd ==> f.fds[i].flags != 0
    ensures var (f', a) := D.OpenStep(img, f, entries[k].name);
            var m := if n < |file| then n else |file|;
            && a == D.Answer(fd, []) && D.Consistent(img, f') && D.Callable(f', fd)
            && D.ReadStep(img, f', fd, n).1 == D.Answer(m, file[..m])
  {
    hide *;
    TableOf(img, f);
    var name := entries[k].name;
    LookupFirst(img, entries, k);
    ReadBack(img, inodes, entries[k].inode, blocks, file);
    OpenRegular(img, f, name, fd, file);
    var f' := D.OpenStep(img, f, name).0;
    LegalRead(img, f', fd, n);
    D.FileRead(img, f', fd, n);
  }

  lemma TableOf(img: seq<seq<byte>>, f: D.Files)
    requires D.Consistent(img, f)
    ensures D.Table(f) && |f.fds| == 8
  {
  }

  lemma LegalRead(img: seq<seq<byte>>, f: D.Files, fd: nat, n: nat)
    requires D.Legal(img, f, D.Read(fd, 0)) && n < U32
    ensures D.Legal(img, f, D.Read(fd, n)) && D.Consistent(img, f) && D.Callable(f, fd)
  {
  }

  lemma LookupFirst(img: seq<seq<byte>>, entries: seq<Entry>, k: nat)
    requires Listed(img, entries) && k < |entries| && entries[k].name != []
    requires forall j :: 0 <= j < k ==> entries[j].name != entries[k].name
    ensures Blocks(img) && FileName(entries[k].name) && FindEntry(img, entries[k].name) == k
    ensures EntryType(img, k) == entries[k].kind && EntryInode(img, k) == entries[k].inode
  {
    hide Word, CString, FindEntry, EntryName;
    assert EntryAt(img[0], 64 + 64 * k, entries[k]);
    Lookup(img, entries, entries[k].name);
    EntriesAre(img, entries);
  }

  lemma OpenRegular(img: seq<seq<byte>>, f: D.Files, name: seq<byte>, fd: nat, file: seq<byte>)
    requires D.Consistent(img, f) && FileName(name) && name != [] && FindEntry(img, name) != -1
    requires var e := FindEntry(img, name);
             EntryType(img, e) == 2 && GoodFile(img, EntryInode(img, e)) && Contents(img, EntryInode(img, e)) == file
    requires 2 <= fd <= 7 && f.fds[fd].flags == 0 && forall i :: 2 <= i < fd ==> f.fds[i].flags != 0
    ensures var (f', a) := D.OpenStep(img, f, name);
            && a == D.Answer(fd, []) && D.Legal(img, f', D.Read(fd, 0)) && D.Readable(f', fd)
            && f'.fds[fd].ops == D.FileOps && f'.fds[fd].filePosition == 0 && D.FileOf(img, f'.fds[fd]) == file
  {
    hide Word, CString, Contents, FindEntry, GoodFile;
    D.OpenAnswer(img, f, name);
  }
}
