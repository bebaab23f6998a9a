/**
 The read-only file system: a boot block, one block per inode, then data blocks, all of 4096
 bytes.  A file's bytes are scattered over data blocks; `Contents` is the flat file a user
 believes in, and `ReadData` is proved to return slices of it.
 */
module FileSystem {
  import opened Bytes
  import opened Text

  const BLOCK := 4096
  const WORDS := 1024
  const NUM_DIR_ENTRIES := 63
  const NUM_DATA_BLOCK := 1023
  const CHAR_LENGTH := 32

  /** The image in memory, from `bootHead` on, as 4096-byte blocks. */
  type Image = seq<seq<byte>>

  ghost predicate Blocks(img: Image) {
    |img| > 0 && forall b :: 0 <= b < |img| ==> |img[b]| == BLOCK
  }

  /** The k-th little-endian word of a block. */
  function Word(block: seq<byte>, k: nat): (w: nat)
    requires |block| == BLOCK && k < WORDS
    ensures w < U32
  {
    block[4 * k] as nat + 0x100 * block[4 * k + 1] as nat
    + 0x1_0000 * block[4 * k + 2] as nat + 0x100_0000 * block[4 * k + 3] as nat
  }

  function NumDirectory(img: Image): nat requires Blocks(img) { Word(img[0], 0) }

  function NumInode(img: Image): nat requires Blocks(img) { Word(img[0], 1) }

  // Directory entry i is 64 bytes: a 32-byte name, a type, an inode number and padding.

  function EntryName(img: Image, i: nat): (name: seq<byte>)
    requires Blocks(img) && i < NUM_DIR_ENTRIES
    ensures |name| == CHAR_LENGTH
  {
    img[0][64 + 64 * i..64 + 64 * i + CHAR_LENGTH]
  }

  function EntryType(img: Image, i: nat): nat
    requires Blocks(img) && i < NUM_DIR_ENTRIES
  {
    Word(img[0], 24 + 16 * i)
  }

  function EntryInode(img: Image, i: nat): nat
    requires Blocks(img) && i < NUM_DIR_ENTRIES
  {
    Word(img[0], 25 + 16 * i)
  }

  function FileLength(img: Image, inode: nat): nat
    requires Blocks(img) && inode + 1 < |img|
  {
    Word(img[inode + 1], 0)
  }

  /** Where in the image the k-th data block of a file is. */
  function BlockIndex(img: Image, inode: nat, k: nat): nat
    requires Blocks(img) && inode + 1 < |img| && k < NUM_DATA_BLOCK
  {
    Word(img[inode + 1], k + 1) + NumInode(img) + 1
  }

  /** A valid inode number whose file is shorter than 1023 full blocks and names valid blocks. */
  ghost predicate GoodFile(img: Image, inode: nat) {
    && Blocks(img)
    && inode < NumInode(img) && inode + 1 < |img|
    && FileLength(img, inode) < NUM_DATA_BLOCK * BLOCK
    && forall k :: 0 <= k < NUM_DATA_BLOCK && k * BLOCK < FileLength(img, inode) ==> BlockIndex(img, inode, k) < |img|
  }

  /** The first n data blocks of a file, joined. */
  ghost function Joined(img: Image, inode: nat, n: nat): (s: seq<byte>)
    requires GoodFile(img, inode) && (n > 0 ==> (n - 1) * BLOCK < FileLength(img, inode))
    ensures |s| == n * BLOCK
  {
    if n == 0 then [] else Joined(img, inode, n - 1) + img[BlockIndex(img, inode, n - 1)]
  }

  /** The flat file. */
  ghost function Contents(img: Image, inode: nat): (s: seq<byte>)
    requires GoodFile(img, inode)
    ensures |s| == FileLength(img, inode)
  {
    Joined(img, inode, (FileLength(img, inode) + BLOCK - 1) / BLOCK)[..FileLength(img, inode)]
  }

  lemma {:induction false} JoinedAt(img: Image, inode: nat, n: nat, i: nat)
    requires GoodFile(img, inode) && (n > 0 ==> (n - 1) * BLOCK < FileLength(img, inode)) && i < n * BLOCK
    ensures Joined(img, inode, n)[i] == img[BlockIndex(img, inode, i / BLOCK)][i % BLOCK]
  {
    if i < (n - 1) * BLOCK {
      JoinedAt(img, inode, n - 1, i);
    } else {
      assert i / BLOCK == n - 1 && i % BLOCK == i - (n - 1) * BLOCK;
    }
  }

  /** Byte i of a file is byte i % 4096 of its block i / 4096. */
  lemma ContentsAt(img: Image, inode: nat, i: nat)
    requires GoodFile(img, inode) && i < FileLength(img, inode)
    ensures i / BLOCK < NUM_DATA_BLOCK && BlockIndex(img, inode, i / BLOCK) < |img|
    ensures Contents(img, inode)[i] == img[BlockIndex(img, inode, i / BLOCK)][i % BLOCK]
  {
    JoinedAt(img, inode, (FileLength(img, inode) + BLOCK - 1) / BLOCK, i);
  }

  /** How many bytes a read asks the copy loop for; the subtraction is on 32-bit unsigned words. */
  function Clamp(fileLength: nat, offset: nat, length: nat): nat {
    var left := (fileLength - offset) % U32;
    if length >= left then left else length
  }

  /** A read asks for no more than the file holds beyond the offset exactly when the offset is not
      past the end: nothing else guards the copy loop. */
  lemma ClampedInside(fileLength: nat, offset: nat, length: nat)
    requires fileLength < U32 && offset < U32 && 0 < length < U32
    ensures offset + Clamp(fileLength, offset, length) <= fileLength <==> offset <= fileLength
  {
    if offset > fileLength {
      assert (fileLength - offset) % U32 == fileLength - offset + U32;
    }
  }

  /** For example byte 11 of a file of 10 bytes: all 5 bytes asked for are copied, from behind its end. */
  lemma PastTheEnd()
    ensures Clamp(10, 11, 5) == 5
  {
  }

  /** The number `read_data` returns. */
  function ReadResult(img: Image, inode: nat, offset: nat, noBuffer: bool, length: nat): (r: int)
    requires Blocks(img) && inode + 1 < |img|
    ensures r >= -1
    ensures offset <= FileLength(img, inode) && r > 0 ==> offset + r <= FileLength(img, inode) && r <= length
  {
    if offset == FileLength(img, inode) then 0
    else if inode >= NumInode(img) || noBuffer || length == 0 then -1
    else Clamp(FileLength(img, inode), offset, length)
  }

  /** Nothing at the end of the file, whoever asks; otherwise failure exactly for an inode that is not there,
      no buffer, or no bytes asked for. */
  lemma ReadAnswers(img: Image, inode: nat, offset: nat, noBuffer: bool, length: nat)
    requires Blocks(img) && inode + 1 < |img| && offset <= FileLength(img, inode)
    ensures var r := ReadResult(img, inode, offset, noBuffer, length);
            && (r == 0 <==> offset == FileLength(img, inode))
            && (r == -1 <==> offset != FileLength(img, inode) && (inode >= NumInode(img) || noBuffer || length == 0))
            && (r > 0 ==>
                  r == if length < FileLength(img, inode) - offset then length else FileLength(img, inode) - offset)
  {
    hide Word;
  }

  /** One step of the block pointer. */
  lemma NextByte(x: nat)
    ensures (x + 1) / BLOCK == if x % BLOCK == BLOCK - 1 then x / BLOCK + 1 else x / BLOCK
    ensures (x + 1) % BLOCK == if x % BLOCK == BLOCK - 1 then 0 else x % BLOCK + 1
  {
  }

  /** The copy loop of `read_data`: one byte at a time, hopping to the next block at a block's end. */
  method CopyBytes(img: Image, inode: nat, offset: nat, buf: array<byte>, start: nat, n: nat)
    requires GoodFile(img, inode) && 0 < n && offset + n <= FileLength(img, inode) && start + n <= buf.Length
    modifies buf
    ensures forall j :: start <= j < start + n ==> buf[j] == Contents(img, inode)[offset + (j - start)]
    ensures forall j :: 0 <= j < buf.Length && !(start <= j < start + n) ==> buf[j] == old(buf[j])
  {
    ghost var file := Contents(img, inode);
    ContentsAt(img, inode, offset);
    hide Contents, Word, BlockIndex;
    var blockNum, pos := offset / BLOCK, offset % BLOCK;
    var block := BlockIndex(img, inode, blockNum);
    for i := 0 to n
      invariant blockNum == (offset + i) / BLOCK && pos == (offset + i) % BLOCK
      invariant blockNum < NUM_DATA_BLOCK && block == BlockIndex(img, inode, blockNum)
      invariant forall j :: start <= j < start + i ==> buf[j] == file[offset + (j - start)]
      invariant forall j :: 0 <= j < buf.Length && !(start <= j < start + i) ==> buf[j] == old(buf[j])
    {
      ContentsAt(img, inode, offset + i);
      NextByte(offset + i);
      buf[start + i] := img[block][pos];
      if pos == BLOCK - 1 {
        blockNum := blockNum + 1;
        block := BlockIndex(img, inode, blockNum);
        pos := 0;
      } else {
        pos := pos + 1;
      }
    }
  }

  /** `read_data`, into the bytes of `buf` from `start` on. */
  method ReadData(img: Image, inode: nat, offset: nat, buf: array?<byte>, start: nat, length: nat) returns (r: int)
    requires Blocks(img) && inode + 1 < |img| && offset < U32 && length < U32
    requires inode < NumInode(img) ==> GoodFile(img, inode) && offset <= FileLength(img, inode)
    requires buf != null ==> start <= buf.Length && start + ReadResult(img, inode, offset, false, length) <= buf.Length
    modifies buf
    ensures r == ReadResult(img, inode, offset, buf == null, length)
    ensures inode < NumInode(img) && buf != null && length > 0 && offset < FileLength(img, inode) ==>
              r == if length < FileLength(img, inode) - offset then length else FileLength(img, inode) - offset
    ensures r <= 0 ==> buf == null || buf[..] == old(buf[..])
    ensures r > 0 ==>
              && buf != null && offset + r <= FileLength(img, inode) && start + r <= buf.Length
              && GoodFile(img, inode)
              && buf[..] == old(buf[..start]) + Contents(img, inode)[offset..offset + r] + old(buf[start + r..])
  {
    var dataLength := FileLength(img, inode);
    if offset == dataLength {
      return 0;
    }
    if inode >= NumInode(img) || buf == null || length == 0 {
      return -1;
    }
    r := length;
    if r >= (dataLength - offset) % U32 {
      r := (dataLength - offset) % U32;
    }
    CopyBytes(img, inode, offset, buf, start, r);
  }

  // ----- Looking names up -----

  /** `strncmp` of the kernel's library. */
  method Strncmp(s1: seq<byte>, s2: seq<byte>, n: nat) returns (r: int)
    requires n <= |s1| && n <= |s2|
    ensures r == 0 <==> CString(s1[..n]) == CString(s2[..n])
  {
    for i := 0 to n
      invariant s1[..i] == s2[..i] && NUL !in s1[..i]
    {
      if s1[i] != s2[i] || s1[i] == NUL {
        if s1[i] == s2[i] {
          CStringIs(s1[..n], s1[..i]);
          CStringIs(s2[..n], s1[..i]);
        } else if CString(s1[..n]) == CString(s2[..n]) {
          SamePrefix(s1[..n], s2[..n], i);
        }
        return s1[i] as int - s2[i] as int;
      }
    }
    CStringIs(s1[..n], s1[..n]);
    CStringIs(s2[..n], s1[..n]);
    return 0;
  }

  lemma {:induction false} SamePrefix(s: seq<byte>, t: seq<byte>, i: nat)
    requires i < |s| == |t| && s[..i] == t[..i] && NUL !in s[..i] && CString(s) == CString(t)
    ensures s[i] == t[i]
  {
    if i > 0 {
      assert s[0] == s[..i][0] && t[0] == t[..i][0] && s[0] in s[..i];
      assert s[1..][..i - 1] == s[..i][1..] && t[1..][..i - 1] == t[..i][1..];
      assert forall b :: b in s[..i][1..] ==> b in s[..i];
      SamePrefix(s[1..], t[1..], i - 1);
    }
  }

  /** Entry i carries this name; `strncmp` stops after 31 characters. */
  predicate Named(img: Image, i: nat, name: seq<byte>)
    requires Blocks(img) && i < NUM_DIR_ENTRIES
  {
    CString(EntryName(img, i)[..CHAR_LENGTH - 1]) == name
  }

  /** The first entry with this name, or -1. */
  function FindEntry(img: Image, name: seq<byte>, from: nat := 0): (i: int)
    requires Blocks(img) && from <= NUM_DIR_ENTRIES
    ensures i == -1 ==> forall j :: from <= j < NUM_DIR_ENTRIES ==> !Named(img, j, name)
    ensures i != -1 ==>
              from <= i < NUM_DIR_ENTRIES && Named(img, i, name) && forall j :: from <= j < i ==> !Named(img, j, name)
    decreases NUM_DIR_ENTRIES - from
  {
    if from == NUM_DIR_ENTRIES then -1 else if Named(img, from, name) then from else FindEntry(img, name, from + 1)
  }

  /** A C string that fits the 32-byte name fields with its terminator. */
  predicate FileName(name: seq<byte>) {
    |name| < CHAR_LENGTH && NUL !in name
  }

  /** `read_dentry_by_name`; the entry found is given by its index. */
  method ReadDentryByName(img: Image, name: seq<byte>) returns (i: int)
    requires Blocks(img) && FileName(name)
    ensures i == FindEntry(img, name)
  {
    var temp := name;
    while |temp| < CHAR_LENGTH
      invariant name <= temp && |temp| <= CHAR_LENGTH && forall j :: |name| <= j < |temp| ==> temp[j] == NUL
    {
      temp := temp + [NUL];
    }
    CStringIs(temp[..CHAR_LENGTH - 1], name);
    for j := 0 to NUM_DIR_ENTRIES
      invariant FindEntry(img, name) == FindEntry(img, name, j)
    {
      var differ := Strncmp(temp, EntryName(img, j), CHAR_LENGTH - 1);
      if differ == 0 {
        return j;
      }
    }
    return -1;
  }
}
