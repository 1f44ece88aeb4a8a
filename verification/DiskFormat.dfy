/** The on-disk format: what unmounting writes and mounting reads back. */
module DiskFormat {
  import opened Layout
  import opened Volume

  type Byte = n: nat | n < 256

  const ENTRY_SIZE := 32
  const NAME_SIZE := 16

  type Block = b: seq<Byte> | |b| == BLOCK_SIZE witness seq(BLOCK_SIZE, _ => 0)

  datatype Super = Super(signature: seq<Byte>, totalBlocks: nat, rootIndex: nat, dataStart: nat, totalData: nat, fatBlocks: nat)

  /**
   * A root entry in memory. The bytes of its name before the first NUL count; a name that is shorter than its buffer
   * has a NUL behind it.
   */
  datatype Entry = Entry(name: seq<Byte>, size: nat, index: nat)

  datatype Mounted = Mounted(sb: Super, fat: seq<nat>, root: seq<Entry>)

  ghost predicate Fits(m: Mounted) {
    && |m.sb.signature| == 8
    && m.sb.totalBlocks < 0x1_0000 && m.sb.rootIndex < 0x1_0000 && m.sb.dataStart < 0x1_0000 && m.sb.totalData < 0x1_0000
    && m.sb.fatBlocks < 256
    && |m.fat| == m.sb.fatBlocks * FAT_ENTRIES_PER_BLOCK && (forall i :: 0 <= i < |m.fat| ==> m.fat[i] < 0x1_0000)
    && |m.root| == FILE_MAX_COUNT
    && (forall i :: 0 <= i < |m.root| ==>
      |m.root[i].name| <= NAME_SIZE && m.root[i].size < 0x1_0000_0000 && m.root[i].index < 0x1_0000)
  }

  /** The bytes before the first NUL. */
  function CString(b: seq<Byte>): (s: seq<Byte>)
    ensures |s| <= |b| && s == b[..|s|] && 0 !in s
    ensures |s| < |b| ==> b[|s|] == 0
  {
    if b == [] || b[0] == 0 then [] else [b[0]] + CString(b[1..])
  }

  // Little-endian numbers

  function Low(x: nat): Byte { x % 256 }

  function U16(b: seq<Byte>, i: nat): nat
    requires i + 2 <= |b|
  {
    b[i] as nat + 256 * b[i + 1] as nat
  }

  function U32(b: seq<Byte>, i: nat): nat
    requires i + 4 <= |b|
  {
    b[i] as nat + 256 * (b[i + 1] as nat + 256 * (b[i + 2] as nat + 256 * b[i + 3] as nat))
  }

  function LE16(x: nat): (b: seq<Byte>)
    ensures |b| == 2
  {
    [Low(x), Low(x / 256)]
  }

  function LE32(x: nat): (b: seq<Byte>)
    ensures |b| == 4
  {
    [Low(x), Low(x / 256), Low(x / 256 / 256), Low(x / 256 / 256 / 256)]
  }

  lemma U16OfLE16(x: nat, b: seq<Byte>, i: nat)
    requires x < 0x1_0000 && i + 2 <= |b| && b[i] == LE16(x)[0] && b[i + 1] == LE16(x)[1]
    ensures U16(b, i) == x
  {
  }

  lemma U32OfLE32(x: nat, b: seq<Byte>, i: nat)
    requires x < 0x1_0000_0000 && i + 4 <= |b|
    requires b[i] == LE32(x)[0] && b[i + 1] == LE32(x)[1] && b[i + 2] == LE32(x)[2] && b[i + 3] == LE32(x)[3]
    ensures U32(b, i) == x
  {
  }

  // The superblock

  /** The packed superblock; the padding is whatever memory follows the fields. */
  function EncodeSuper(sb: Super, pad: seq<Byte>): (b: Block)
    requires |sb.signature| == 8 && sb.fatBlocks < 256 && |pad| == 4079
  {
    sb.signature + LE16(sb.totalBlocks) + LE16(sb.rootIndex) + LE16(sb.dataStart) + LE16(sb.totalData) + [sb.fatBlocks] + pad
  }

  function DecodeSuper(b: Block): Super {
    Super(b[..8], U16(b, 8), U16(b, 10), U16(b, 12), U16(b, 14), b[16])
  }

  lemma SuperRoundTrip(m: Mounted, pad: seq<Byte>)
    requires Fits(m) && |pad| == 4079
    ensures DecodeSuper(EncodeSuper(m.sb, pad)) == m.sb
  {
    var b := EncodeSuper(m.sb, pad);
    assert b[..8] == m.sb.signature;
    hide U16, LE16;
    U16OfLE16(m.sb.totalBlocks, b, 8);
    U16OfLE16(m.sb.rootIndex, b, 10);
    U16OfLE16(m.sb.dataStart, b, 12);
    U16OfLE16(m.sb.totalData, b, 14);
  }

  // The table

  /** Block i of the table, entry by entry. */
  function EncodeFatBlock(fat: seq<nat>, i: nat): (b: Block)
    requires (i + 1) * FAT_ENTRIES_PER_BLOCK <= |fat|
  {
    seq(BLOCK_SIZE, k requires 0 <= k < BLOCK_SIZE => LE16(fat[i * FAT_ENTRIES_PER_BLOCK + k / 2])[k % 2])
  }

  /** What a buffer holds after a read: a read outside the disk leaves it as it was. */
  function BlockAt(blocks: seq<Block>, i: nat, buffer: Block): Block {
    if i < |blocks| then blocks[i] else buffer
  }

  function DecodeFat(blocks: seq<Block>, buffer: nat -> Block, f: nat): (fat: seq<nat>)
    ensures |fat| == f * FAT_ENTRIES_PER_BLOCK
  {
    seq(f * FAT_ENTRIES_PER_BLOCK, x requires 0 <= x < f * FAT_ENTRIES_PER_BLOCK =>
      var i := 1 + x / FAT_ENTRIES_PER_BLOCK; U16(BlockAt(blocks, i, buffer(i)), 2 * (x % FAT_ENTRIES_PER_BLOCK)))
  }

  lemma FatEntry(fat: seq<nat>, i: nat, j: nat)
    requires (i + 1) * FAT_ENTRIES_PER_BLOCK <= |fat| && j < FAT_ENTRIES_PER_BLOCK
    requires fat[i * FAT_ENTRIES_PER_BLOCK + j] < 0x1_0000
    ensures U16(EncodeFatBlock(fat, i), 2 * j) == fat[i * FAT_ENTRIES_PER_BLOCK + j]
  {
    hide U16, LE16;
    U16OfLE16(fat[i * FAT_ENTRIES_PER_BLOCK + j], EncodeFatBlock(fat, i), 2 * j);
  }

  lemma FatRoundTrip(blocks: seq<Block>, buffer: nat -> Block, fat: seq<nat>, f: nat)
    requires f < |blocks| && |fat| == f * FAT_ENTRIES_PER_BLOCK && forall i :: 0 <= i < |fat| ==> fat[i] < 0x1_0000
    requires forall i :: 0 <= i < f ==> blocks[1 + i] == EncodeFatBlock(fat, i)
    ensures DecodeFat(blocks, buffer, f) == fat
  {
    hide U16, EncodeFatBlock;
    forall x | 0 <= x < |fat| ensures DecodeFat(blocks, buffer, f)[x] == fat[x] {
      var i := x / FAT_ENTRIES_PER_BLOCK;
      assert blocks[1 + i] == EncodeFatBlock(fat, i);
      FatEntry(fat, i, x % FAT_ENTRIES_PER_BLOCK);
    }
  }

  // The root directory

  /** The buffer of a name; behind its NUL the bytes are what the memory held. */
  function NameBuffer(name: seq<Byte>, memory: seq<Byte>): (b: seq<Byte>)
    requires |name| <= NAME_SIZE <= |memory|
    ensures |b| == NAME_SIZE && b[..|name|] == name
    ensures |name| < NAME_SIZE ==> b[|name|] == 0
  {
    if |name| == NAME_SIZE then name else name + [0] + memory[|name| + 1..NAME_SIZE]
  }

  lemma {:induction false} NameSurvives(name: seq<Byte>, b: seq<Byte>)
    requires |name| <= |b| && b[..|name|] == name && (|name| < |b| ==> b[|name|] == 0)
    ensures CString(b) == CString(name)
  {
    if name != [] && name[0] != 0 {
      assert b[1..][..|name| - 1] == name[1..];
      NameSurvives(name[1..], b[1..]);
    }
  }

  /** The bytes of an entry, in memory that held something else before. */
  function EncodeEntry(e: Entry, memory: seq<Byte>): (b: seq<Byte>)
    requires |e.name| <= NAME_SIZE && |memory| == ENTRY_SIZE
    ensures |b| == ENTRY_SIZE
  {
    NameBuffer(e.name, memory) + LE32(e.size) + LE16(e.index) + memory[22..]
  }

  ghost predicate RootFits(root: seq<Entry>, memory: seq<seq<Byte>>) {
    && |root| == |memory| == FILE_MAX_COUNT
    && forall i :: 0 <= i < FILE_MAX_COUNT ==> |root[i].name| <= NAME_SIZE && |memory[i]| == ENTRY_SIZE
  }

  function EncodeRoot(root: seq<Entry>, memory: seq<seq<Byte>>): (b: Block)
    requires RootFits(root, memory)
  {
    seq(BLOCK_SIZE, k requires 0 <= k < BLOCK_SIZE => EncodeEntry(root[k / ENTRY_SIZE], memory[k / ENTRY_SIZE])[k % ENTRY_SIZE])
  }

  function DecodeEntry(b: Block, i: nat): Entry
    requires i < FILE_MAX_COUNT
  {
    Entry(b[i * ENTRY_SIZE..i * ENTRY_SIZE + NAME_SIZE], U32(b, i * ENTRY_SIZE + 16), U16(b, i * ENTRY_SIZE + 20))
  }

  function Terminated(e: Entry): Entry {
    e.(name := CString(e.name))
  }

  /** Size and start of an entry survive, and its name up to the first NUL. */
  lemma EntryRoundTrip(root: seq<Entry>, memory: seq<seq<Byte>>, i: nat)
    requires RootFits(root, memory) && i < FILE_MAX_COUNT
    requires root[i].size < 0x1_0000_0000 && root[i].index < 0x1_0000
    ensures DecodeEntry(EncodeRoot(root, memory), i) == root[i].(name := NameBuffer(root[i].name, memory[i]))
    ensures Terminated(DecodeEntry(EncodeRoot(root, memory), i)) == Terminated(root[i])
  {
    hide U16, LE16, U32, LE32, NameBuffer, CString;
    var b, o, e := EncodeRoot(root, memory), i * ENTRY_SIZE, EncodeEntry(root[i], memory[i]);
    EntryBytes(root, memory, i);
    hide EncodeRoot;
    assert b[o..o + ENTRY_SIZE] == e;
    SliceIsEntry(b, o, root[i], memory[i]);
    NameSurvives(root[i].name, NameBuffer(root[i].name, memory[i]));
  }

  lemma EntryBytes(root: seq<Entry>, memory: seq<seq<Byte>>, i: nat)
    requires RootFits(root, memory) && i < FILE_MAX_COUNT
    ensures forall k :: 0 <= k < ENTRY_SIZE ==>
      EncodeRoot(root, memory)[i * ENTRY_SIZE + k] == EncodeEntry(root[i], memory[i])[k]
  {
    hide EncodeEntry;
    forall k | 0 <= k < ENTRY_SIZE
      ensures EncodeRoot(root, memory)[i * ENTRY_SIZE + k] == EncodeEntry(root[i], memory[i])[k]
    {
      assert (i * ENTRY_SIZE + k) / ENTRY_SIZE == i && (i * ENTRY_SIZE + k) % ENTRY_SIZE == k;
    }
  }

  lemma SliceIsEntry(b: Block, o: nat, entry: Entry, memory: seq<Byte>)
    requires o + ENTRY_SIZE <= |b| && |entry.name| <= NAME_SIZE && |memory| == ENTRY_SIZE
    requires entry.size < 0x1_0000_0000 && entry.index < 0x1_0000
    requires b[o..o + ENTRY_SIZE] == EncodeEntry(entry, memory)
    ensures Entry(b[o..o + NAME_SIZE], U32(b, o + 16), U16(b, o + 20)) == entry.(name := NameBuffer(entry.name, memory))
  {
    hide U16, LE16, U32, LE32, NameBuffer;
    var e := b[o..o + ENTRY_SIZE];
    assert b[o..o + NAME_SIZE] == e[..NAME_SIZE] == NameBuffer(entry.name, memory);
    assert e[16..20] == LE32(entry.size) && e[20..22] == LE16(entry.index);
    assert forall k :: 0 <= k < 4 ==> b[o + 16 + k] == e[16..20][k];
    assert b[o + 16] == e[16..20][0] && b[o + 17] == e[16..20][1] && b[o + 18] == e[16..20][2] && b[o + 19] == e[16..20][3];
    assert b[o + 20] == e[20..22][0] && b[o + 21] == e[20..22][1];
    U32OfLE32(entry.size, b, o + 16);
    U16OfLE16(entry.index, b, o + 20);
  }

  // The layout, byte by byte

  /** The byte at position i as a number. */
  function At(b: Block, i: nat): nat
    requires i < 4096
  {
    b[i]
  }

  /** Where the superblock's fields are in block 0; numbers have their low byte first. */
  ghost predicate SuperLayout(b: Block, sb: Super) {
    && sb.signature == b[0..8]
    && sb.totalBlocks == At(b, 8) + 256 * At(b, 9)
    && sb.rootIndex == At(b, 10) + 256 * At(b, 11)
    && sb.dataStart == At(b, 12) + 256 * At(b, 13)
    && sb.totalData == At(b, 14) + 256 * At(b, 15)
    && sb.fatBlocks == At(b, 16)
  }

  /** The entries of table block i, two bytes each. */
  ghost predicate TableLayout(b: Block, fat: seq<nat>, i: nat) {
    && i * 2048 + 2048 <= |fat|
    && forall j :: 0 <= j < 2048 ==> fat[i * 2048 + j] == At(b, 2 * j) + 256 * At(b, 2 * j + 1)
  }

  /** Entry i of the root directory: 16 bytes of name, with a NUL behind a shorter one, 4 of size, 2 of start. */
  ghost predicate EntryLayout(b: Block, i: nat, e: Entry)
    requires i < 128
  {
    && |e.name| <= 16 && b[32 * i..32 * i + |e.name|] == e.name && (|e.name| < 16 ==> b[32 * i + |e.name|] == 0)
    && e.size == At(b, 32 * i + 16) + 256 * At(b, 32 * i + 17) + 0x1_0000 * At(b, 32 * i + 18) + 0x100_0000 * At(b, 32 * i + 19)
    && e.index == At(b, 32 * i + 20) + 256 * At(b, 32 * i + 21)
  }

  ghost predicate RootLayout(b: Block, root: seq<Entry>) {
    |root| == 128 && forall i :: 0 <= i < 128 ==> EntryLayout(b, i, root[i])
  }

  /** What makes mounting succeed on a disk of n blocks, read off the bytes of block 0 and the start of block 1. */
  ghost predicate GoodHeader(first: Block, second: Block, n: nat) {
    && first[0..8] == [69, 67, 83, 49, 53, 48, 70, 83]
    && At(first, 8) + 256 * At(first, 9) == n
    && At(first, 10) + 256 * At(first, 11) == At(first, 16) + 1
    && At(first, 12) + 256 * At(first, 13) == At(first, 16) + 2
    && At(first, 14) + 256 * At(first, 15) == n - At(first, 16) - 2
    && At(first, 16) > 0 && At(second, 0) == 0xFF && At(second, 1) == 0xFF
  }

  lemma SuperIsLaidOut(b: Block)
    ensures SuperLayout(b, DecodeSuper(b))
  {
  }

  lemma EntryIsLaidOut(b: Block, i: nat, e: Entry)
    requires i < 128 && |e.name| <= 16 && (|e.name| < 16 ==> b[32 * i + |e.name|] == 0)
    requires e.name == b[32 * i..32 * i + |e.name|]
    requires e.size == DecodeEntry(b, i).size && e.index == DecodeEntry(b, i).index
    ensures EntryLayout(b, i, e)
  {
  }

  lemma NameIsLaidOut(b: Block, i: nat)
    requires i < 128
    ensures EntryLayout(b, i, Terminated(DecodeEntry(b, i))) && 0 !in Terminated(DecodeEntry(b, i)).name
  {
    var whole, e := b[32 * i..32 * i + 16], Terminated(DecodeEntry(b, i));
    assert e.name == CString(whole);
    hide CString;
    assert e.name == whole[..|e.name|] == b[32 * i..32 * i + |e.name|];
    EntryIsLaidOut(b, i, e);
  }

  lemma EncodedEntry(root: seq<Entry>, memory: seq<seq<Byte>>, i: nat)
    requires RootFits(root, memory) && i < 128 && root[i].size < 0x1_0000_0000 && root[i].index < 0x1_0000
    ensures EntryLayout(EncodeRoot(root, memory), i, root[i])
  {
    hide EncodeRoot, NameBuffer, EntryLayout, DecodeEntry, Terminated, CString;
    EntryRoundTrip(root, memory, i);
    BufferIsName(EncodeRoot(root, memory), i, root[i].name, memory[i]);
    EntryIsLaidOut(EncodeRoot(root, memory), i, root[i]);
  }

  lemma EncodedIsLaidOut(root: seq<Entry>, memory: seq<seq<Byte>>)
    requires RootFits(root, memory) && forall i :: 0 <= i < 128 ==> root[i].size < 0x1_0000_0000 && root[i].index < 0x1_0000
    ensures RootLayout(EncodeRoot(root, memory), root)
  {
    hide EncodeRoot, EntryLayout;
    forall i | 0 <= i < 128 ensures EntryLayout(EncodeRoot(root, memory), i, root[i]) {
      EncodedEntry(root, memory, i);
    }
  }

  lemma BufferIsName(b: Block, i: nat, name: seq<Byte>, memory: seq<Byte>)
    requires i < 128 && |name| <= 16 <= |memory| && DecodeEntry(b, i).name == NameBuffer(name, memory)
    ensures name == b[32 * i..32 * i + |name|] && (|name| < 16 ==> b[32 * i + |name|] == 0)
  {
    var whole := NameBuffer(name, memory);
    assert whole == b[32 * i..32 * i + 16];
    hide NameBuffer;
    assert whole[..|name|] == b[32 * i..32 * i + |name|];
    assert |name| < 16 ==> whole[|name|] == b[32 * i + |name|];
  }

  // Unmounting and mounting

  /** What the memory of the superblock's padding and of the entries held before. */
  datatype Padding = Padding(sb: seq<Byte>, entries: seq<seq<Byte>>)

  ghost predicate PaddingFits(p: Padding) {
    |p.sb| == 4079 && |p.entries| == FILE_MAX_COUNT && forall i :: 0 <= i < |p.entries| ==> |p.entries[i]| == ENTRY_SIZE
  }

  /** What the mount function checks of the superblock and the table. */
  predicate Consistent(m: Mounted, diskBlocks: nat) {
    && m.sb.signature == SIGNATURE
    && m.sb.totalBlocks == diskBlocks
    && m.sb.rootIndex == 1 + m.sb.fatBlocks
    && m.sb.dataStart == m.sb.rootIndex + 1
    && m.sb.totalData == m.sb.totalBlocks - m.sb.fatBlocks - 2
    && m.fat != [] && m.fat[0] == EOC
  }

  /** "ECS150FS" in ASCII. */
  const SIGNATURE: seq<Byte> := [69, 67, 83, 49, 53, 48, 70, 83]

  class Disk {
    var blocks: seq<Block>

    constructor (blocks: seq<Block>)
      ensures this.blocks == blocks
    {
      this.blocks := blocks;
    }

    /** A write outside the disk changes nothing. */
    method Write(i: nat, b: Block)
      modifies this
      ensures blocks == Put(old(blocks), i, b)
    {
      if i < |blocks| {
        blocks := blocks[i := b];
      }
    }

    /** Reads into a buffer; outside the disk the buffer stays as it was. */
    method Read(i: nat, buffer: Block) returns (b: Block)
      ensures b == BlockAt(blocks, i, buffer)
    {
      b := if i < |blocks| then blocks[i] else buffer;
    }
  }

  function Put(blocks: seq<Block>, i: nat, b: Block): seq<Block> {
    if i < |blocks| then blocks[i := b] else blocks
  }

  ghost function FatBlock(m: Mounted, i: nat): Block
    requires Fits(m) && i < m.sb.fatBlocks
  {
    EncodeFatBlock(m.fat, i)
  }

  /** Block i after the first n blocks of the table are written, over the root directory, over the superblock. */
  ghost function BlockWritten(before: seq<Block>, m: Mounted, p: Padding, n: nat, i: nat): Block
    requires Fits(m) && PaddingFits(p) && n <= m.sb.fatBlocks && i < |before|
  {
    if 1 <= i <= n then FatBlock(m, i - 1)
    else if i == m.sb.rootIndex then EncodeRoot(m.root, p.entries)
    else if i == 0 then EncodeSuper(m.sb, p.sb)
    else before[i]
  }

  ghost function Written(before: seq<Block>, m: Mounted, p: Padding, n: nat): (after: seq<Block>)
    requires Fits(m) && PaddingFits(p) && n <= m.sb.fatBlocks
    ensures |after| == |before|
  {
    seq(|before|, i requires 0 <= i < |before| => BlockWritten(before, m, p, n, i))
  }

  /** The disk after unmounting. */
  ghost function Unmounted(before: seq<Block>, m: Mounted, p: Padding): seq<Block>
    requires Fits(m) && PaddingFits(p)
  {
    Written(before, m, p, m.sb.fatBlocks)
  }

  /**
   * Where unmounting puts things: the table in blocks 1, 2, ..., the root directory where the superblock says unless
   * the table is written over it, and the superblock in block 0 unless the root directory is.
   */
  ghost predicate LaidOut(blocks: seq<Block>, m: Mounted) {
    && (forall i :: 1 <= i <= m.sb.fatBlocks && i < |blocks| ==> TableLayout(blocks[i], m.fat, i - 1))
    && (m.sb.rootIndex < |blocks| && !(1 <= m.sb.rootIndex <= m.sb.fatBlocks) ==> RootLayout(blocks[m.sb.rootIndex], m.root))
    && (0 < |blocks| && m.sb.rootIndex != 0 ==> SuperLayout(blocks[0], m.sb))
  }

  lemma EncodedTable(fat: seq<nat>, i: nat)
    requires (i + 1) * FAT_ENTRIES_PER_BLOCK <= |fat| && forall x :: 0 <= x < |fat| ==> fat[x] < 0x1_0000
    ensures TableLayout(EncodeFatBlock(fat, i), fat, i)
  {
    var b := EncodeFatBlock(fat, i);
    hide EncodeFatBlock;
    forall j | 0 <= j < 2048 ensures fat[i * 2048 + j] == At(b, 2 * j) + 256 * At(b, 2 * j + 1) {
      FatEntry(fat, i, j);
    }
  }

  lemma UnmountedIsLaidOut(before: seq<Block>, m: Mounted, p: Padding)
    requires Fits(m) && PaddingFits(p)
    ensures LaidOut(Unmounted(before, m, p), m)
  {
    hide EncodeSuper, EncodeRoot, EncodeFatBlock, TableLayout, RootLayout, SuperLayout, DecodeSuper;
    var after := Unmounted(before, m, p);
    SuperRoundTrip(m, p.sb);
    SuperIsLaidOut(EncodeSuper(m.sb, p.sb));
    EncodedIsLaidOut(m.root, p.entries);
    forall i | 1 <= i <= m.sb.fatBlocks && i < |after| ensures TableLayout(after[i], m.fat, i - 1) {
      EncodedTable(m.fat, i - 1);
      assert after[i] == EncodeFatBlock(m.fat, i - 1);
    }
  }

  lemma WrittenFirst(before: seq<Block>, m: Mounted, p: Padding)
    requires Fits(m) && PaddingFits(p)
    ensures Put(Put(before, 0, EncodeSuper(m.sb, p.sb)), m.sb.rootIndex, EncodeRoot(m.root, p.entries))
         == Written(before, m, p, 0)
  {
    hide EncodeSuper, EncodeRoot, FatBlock;
  }

  lemma WrittenNext(before: seq<Block>, m: Mounted, p: Padding, n: nat)
    requires Fits(m) && PaddingFits(p) && n < m.sb.fatBlocks
    ensures Put(Written(before, m, p, n), n + 1, FatBlock(m, n)) == Written(before, m, p, n + 1)
  {
    hide EncodeSuper, EncodeRoot, FatBlock;
  }

  /** Refuses while files are open; else writes the superblock, the root directory, then the table block by block. */
  method Umount(disk: Disk, m: Mounted, p: Padding, openFiles: nat) returns (r: int)
    requires Fits(m) && PaddingFits(p)
    modifies disk
    ensures r == if openFiles > 0 then -1 else 0
    ensures disk.blocks == if openFiles > 0 then old(disk.blocks) else Unmounted(old(disk.blocks), m, p)
    ensures openFiles == 0 ==> LaidOut(disk.blocks, m)
  {
    if openFiles > 0 {
      return -1;
    }
    ghost var before := disk.blocks;
    disk.Write(0, EncodeSuper(m.sb, p.sb));
    disk.Write(m.sb.rootIndex, EncodeRoot(m.root, p.entries));
    WrittenFirst(before, m, p);
    hide EncodeSuper, EncodeRoot, EncodeFatBlock, Written, Put, PaddingFits;
    for i := 0 to m.sb.fatBlocks
      invariant disk.blocks == Written(before, m, p, i)
    {
      WrittenNext(before, m, p, i);
      disk.Write(i + 1, EncodeFatBlock(m.fat, i));
    }
    UnmountedIsLaidOut(before, m, p);
    r := 0;
  }

  /** What mounting reads off a disk; names are copied up to their first NUL. The buffers are those of its reads in order. */
  ghost function Mount(blocks: seq<Block>, buffer: nat -> Block): (m: Mounted)
    ensures |m.root| == FILE_MAX_COUNT && |m.fat| == m.sb.fatBlocks * FAT_ENTRIES_PER_BLOCK
  {
    var sb := DecodeSuper(BlockAt(blocks, 0, buffer(0)));
    var rootBlock := BlockAt(blocks, sb.rootIndex, buffer(sb.fatBlocks + 1));
    Mounted(sb, DecodeFat(blocks, buffer, sb.fatBlocks),
            seq(FILE_MAX_COUNT, i requires 0 <= i < FILE_MAX_COUNT => Terminated(DecodeEntry(rootBlock, i))))
  }

  lemma EntryFits(b: Block, i: nat)
    requires i < FILE_MAX_COUNT
    ensures var e := Terminated(DecodeEntry(b, i)); |e.name| <= NAME_SIZE && e.size < 0x1_0000_0000 && e.index < 0x1_0000
  {
    hide CString;
  }

  /** Whatever is mounted can be unmounted. */
  lemma MountFits(blocks: seq<Block>, buffer: nat -> Block)
    ensures Fits(Mount(blocks, buffer))
  {
    var m := Mount(blocks, buffer);
    hide DecodeEntry, Terminated;
    forall i | 0 <= i < FILE_MAX_COUNT
      ensures |m.root[i].name| <= NAME_SIZE && m.root[i].size < 0x1_0000_0000 && m.root[i].index < 0x1_0000
    {
      EntryFits(BlockAt(blocks, m.sb.rootIndex, buffer(m.sb.fatBlocks + 1)), i);
    }
  }

  /**
   * Where mounting looks for things: the superblock in block 0, the table in blocks 1, 2, ..., the root directory where
   * the superblock says; names end before their first NUL.
   */
  ghost predicate ReadFrom(blocks: seq<Block>, buffer: nat -> Block, m: Mounted) {
    && SuperLayout(BlockAt(blocks, 0, buffer(0)), m.sb)
    && (forall i :: 1 <= i <= m.sb.fatBlocks ==> TableLayout(BlockAt(blocks, i, buffer(i)), m.fat, i - 1))
    && RootLayout(BlockAt(blocks, m.sb.rootIndex, buffer(m.sb.fatBlocks + 1)), m.root)
    && forall i :: 0 <= i < |m.root| ==> 0 !in m.root[i].name
  }

  lemma DecodedNumber(blocks: seq<Block>, buffer: nat -> Block, f: nat, i: nat, j: nat)
    requires i < f && j < FAT_ENTRIES_PER_BLOCK
    ensures DecodeFat(blocks, buffer, f)[i * FAT_ENTRIES_PER_BLOCK + j] == U16(BlockAt(blocks, i + 1, buffer(i + 1)), 2 * j)
  {
    hide BlockAt, U16;
    Position(i, j);
  }

  lemma DecodedTable(blocks: seq<Block>, buffer: nat -> Block, f: nat, i: nat)
    requires 1 <= i <= f
    ensures TableLayout(BlockAt(blocks, i, buffer(i)), DecodeFat(blocks, buffer, f), i - 1)
  {
    hide DecodeFat, BlockAt;
    var fat, b := DecodeFat(blocks, buffer, f), BlockAt(blocks, i, buffer(i));
    forall j | 0 <= j < 2048 ensures fat[(i - 1) * 2048 + j] == At(b, 2 * j) + 256 * At(b, 2 * j + 1) {
      DecodedNumber(blocks, buffer, f, i - 1, j);
    }
  }

  lemma MountReads(blocks: seq<Block>, buffer: nat -> Block)
    ensures ReadFrom(blocks, buffer, Mount(blocks, buffer))
  {
    hide DecodeSuper, DecodeFat, DecodeEntry, Terminated, TableLayout, EntryLayout, SuperLayout, BlockAt;
    var m := Mount(blocks, buffer);
    SuperIsLaidOut(BlockAt(blocks, 0, buffer(0)));
    forall i | 1 <= i <= m.sb.fatBlocks ensures TableLayout(BlockAt(blocks, i, buffer(i)), m.fat, i - 1) {
      DecodedTable(blocks, buffer, m.sb.fatBlocks, i);
    }
    var b := BlockAt(blocks, m.sb.rootIndex, buffer(m.sb.fatBlocks + 1));
    forall i | 0 <= i < 128 ensures EntryLayout(b, i, m.root[i]) && 0 !in m.root[i].name {
      NameIsLaidOut(b, i);
    }
  }

  /** Mounting succeeds if and only if the bytes at the start of blocks 0 and 1 say so. */
  lemma ConsistentExactly(blocks: seq<Block>, buffer: nat -> Block)
    ensures Consistent(Mount(blocks, buffer), |blocks|)
      <==> GoodHeader(BlockAt(blocks, 0, buffer(0)), BlockAt(blocks, 1, buffer(1)), |blocks|)
  {
    hide DecodeSuper, DecodeFat, DecodeEntry, Terminated, RootLayout, BlockAt;
    var m := Mount(blocks, buffer);
    MountReads(blocks, buffer);
    var second := BlockAt(blocks, 1, buffer(1));
    hide Mount;
    if m.sb.fatBlocks > 0 {
      assert TableLayout(second, m.fat, 0);
      assert m.fat[0 * 2048 + 0] == At(second, 2 * 0) + 256 * At(second, 2 * 0 + 1);
    }
  }

  /** When the superblock passes its checks, every read was inside the disk, and no buffer shows in what was mounted. */
  lemma ConsistentReadsTheDisk(blocks: seq<Block>, buffer: nat -> Block, buffer': nat -> Block)
    requires Consistent(Mount(blocks, buffer), |blocks|)
    ensures Mount(blocks, buffer') == Mount(blocks, buffer)
  {
    hide DecodeSuper, DecodeEntry, U16, CString;
    var sb := Mount(blocks, buffer).sb;
    assert 0 < sb.rootIndex < |blocks| && sb.fatBlocks < sb.rootIndex;
    forall x | 0 <= x < sb.fatBlocks * FAT_ENTRIES_PER_BLOCK
      ensures DecodeFat(blocks, buffer', sb.fatBlocks)[x] == DecodeFat(blocks, buffer, sb.fatBlocks)[x]
    {
      assert 1 + x / FAT_ENTRIES_PER_BLOCK <= sb.fatBlocks;
    }
    assert DecodeFat(blocks, buffer', sb.fatBlocks) == DecodeFat(blocks, buffer, sb.fatBlocks);
  }

  /** The root directory lies behind the table and inside the disk. */
  ghost predicate Placed(sb: Super, diskBlocks: nat) {
    sb.fatBlocks < sb.rootIndex < diskBlocks
  }

  /**
   * Unmounting and mounting again gives back the superblock, every table entry, and every root entry with its
   * name up to the first NUL, and finds the superblock consistent exactly when it was. It takes a root directory
   * that lies inside the disk and behind the table.
   */
  lemma MountAfterUmount(before: seq<Block>, m: Mounted, p: Padding, buffer: nat -> Block)
    requires Fits(m) && PaddingFits(p) && Placed(m.sb, |before|)
    ensures var after := Unmounted(before, m, p); var m' := Mount(after, buffer);
      && m'.sb == m.sb && m'.fat == m.fat
      && (forall i :: 0 <= i < |m.root| ==> m'.root[i] == Terminated(m.root[i]))
      && (Consistent(m', |after|) <==> Consistent(m, |before|))
      && (forall i :: m.sb.fatBlocks < i < |before| && i != m.sb.rootIndex ==> after[i] == before[i])
  {
    hide EncodeSuper, EncodeRoot, EncodeFatBlock, DecodeSuper, DecodeFat, DecodeEntry, U16, CString;
    var after := Unmounted(before, m, p);
    SuperRoundTrip(m, p.sb);
    assert after[0] == EncodeSuper(m.sb, p.sb);
    forall i | 0 <= i < m.sb.fatBlocks ensures after[1 + i] == EncodeFatBlock(m.fat, i) {}
    FatRoundTrip(after, buffer, m.fat, m.sb.fatBlocks);
    assert after[m.sb.rootIndex] == EncodeRoot(m.root, p.entries);
    forall i | 0 <= i < FILE_MAX_COUNT ensures Terminated(DecodeEntry(after[m.sb.rootIndex], i)) == Terminated(m.root[i]) {
      EntryRoundTrip(m.root, p.entries, i);
    }
  }

  /** The names of the root directory as text, and its entries as those of a volume. */
  function Text(b: seq<Byte>): (s: string)
    ensures s == "" <==> b == []
  {
    seq(|b|, i requires 0 <= i < |b| => b[i] as char)
  }

  function FileOf(e: Entry): File {
    File(Text(CString(e.name)), e.size, e.index)
  }

  function FilesOf(root: seq<Entry>): (files: seq<File>)
    ensures |files| == |root|
  {
    seq(|root|, i requires 0 <= i < |root| => FileOf(root[i]))
  }

  lemma NamedNext(root: seq<Entry>, e: Entry)
    ensures Named(FilesOf(root + [e])) == Named(FilesOf(root)) + if CString(e.name) != [] then 1 else 0
  {
    hide CString, Text;
    assert FilesOf(root + [e])[..|root|] == FilesOf(root);
  }

  /**
   * Reads the superblock, the table block by block, and the root directory, then checks the superblock. The count of
   * files goes up from what its memory held.
   */
  method MountDisk(disk: Disk, buffer: nat -> Block, count: nat) returns (r: int, m: Mounted, total: nat)
    requires count < 0x1_0000
    ensures m == Mount(disk.blocks, buffer) && ReadFrom(disk.blocks, buffer, m)
    ensures total == (count + Named(FilesOf(m.root))) % 0x1_0000
    ensures r == if Consistent(m, |disk.blocks|) then 0 else -1
    ensures r == 0 <==> GoodHeader(BlockAt(disk.blocks, 0, buffer(0)), BlockAt(disk.blocks, 1, buffer(1)), |disk.blocks|)
  {
    hide *;
    var first := disk.Read(0, buffer(0));
    var sb := DecodeSuper(first);
    var table := ReadTable(disk, buffer, sb.fatBlocks);
    var rootBlock := disk.Read(sb.rootIndex, buffer(sb.fatBlocks + 1));
    var root;
    root, total := ReadRoot(rootBlock, count);
    m := Mounted(sb, table, root);
    IsMount(disk.blocks, buffer, m);
    MountReads(disk.blocks, buffer);
    ConsistentExactly(disk.blocks, buffer);
    r := if Consistent(m, |disk.blocks|) then 0 else -1;
  }

  lemma IsMount(blocks: seq<Block>, buffer: nat -> Block, m: Mounted)
    requires m.sb == DecodeSuper(BlockAt(blocks, 0, buffer(0))) && m.fat == DecodeFat(blocks, buffer, m.sb.fatBlocks)
    requires |m.root| == FILE_MAX_COUNT && forall x :: 0 <= x < FILE_MAX_COUNT ==>
      m.root[x] == Terminated(DecodeEntry(BlockAt(blocks, m.sb.rootIndex, buffer(m.sb.fatBlocks + 1)), x))
    ensures m == Mount(blocks, buffer)
  {
    hide DecodeSuper, DecodeFat, DecodeEntry, Terminated, BlockAt;
    assert m.root == Mount(blocks, buffer).root;
  }

  /** Reads the table, block by block and entry by entry. */
  method ReadTable(disk: Disk, buffer: nat -> Block, fatBlocks: nat) returns (fat: seq<nat>)
    ensures fat == DecodeFat(disk.blocks, buffer, fatBlocks)
  {
    hide U16, BlockAt;
    var table := new nat[fatBlocks * FAT_ENTRIES_PER_BLOCK];
    ghost var whole := DecodeFat(disk.blocks, buffer, fatBlocks);
    for i := 1 to fatBlocks + 1
      invariant forall x :: 0 <= x < (i - 1) * FAT_ENTRIES_PER_BLOCK ==> table[x] == whole[x]
    {
      var data := disk.Read(i, buffer(i));
      for j := 0 to FAT_ENTRIES_PER_BLOCK
        invariant forall x :: 0 <= x < (i - 1) * FAT_ENTRIES_PER_BLOCK + j ==> table[x] == whole[x]
      {
        Position(i - 1, j);
        table[(i - 1) * FAT_ENTRIES_PER_BLOCK + j] := U16(data, 2 * j);
      }
    }
    fat := table[..];
  }

  /** Reads the root directory entry by entry, and counts the entries that have a name. */
  method ReadRoot(rootBlock: Block, count: nat) returns (root: seq<Entry>, total: nat)
    requires count < 0x1_0000
    ensures |root| == FILE_MAX_COUNT && forall x :: 0 <= x < FILE_MAX_COUNT ==> root[x] == Terminated(DecodeEntry(rootBlock, x))
    ensures total == (count + Named(FilesOf(root))) % 0x1_0000
  {
    hide Named, FilesOf, DecodeEntry, Terminated, CString;
    root, total := [], count;
    NoEntries();
    for i := 0 to FILE_MAX_COUNT
      invariant |root| == i && forall x :: 0 <= x < i ==> root[x] == Terminated(DecodeEntry(rootBlock, x))
      invariant total == (count + Named(FilesOf(root))) % 0x1_0000
    {
      var e := Terminated(DecodeEntry(rootBlock, i));
      NamedNext(root, e);
      TerminatedName(DecodeEntry(rootBlock, i));
      root := root + [e];
      if e.name != [] {
        total := (total + 1) % 0x1_0000;
      }
    }
  }

  lemma NoEntries()
    ensures Named(FilesOf([])) == 0
  {
  }

  lemma TerminatedName(e: Entry)
    ensures CString(Terminated(e).name) == Terminated(e).name
  {
    TerminatedOnce(e.name);
  }

  lemma {:induction false} TerminatedOnce(b: seq<Byte>)
    ensures CString(CString(b)) == CString(b)
  {
    if b != [] && b[0] != 0 {
      TerminatedOnce(b[1..]);
      assert CString(b)[1..] == CString(b[1..]);
    }
  }

  lemma Position(i: nat, j: nat)
    requires j < FAT_ENTRIES_PER_BLOCK
    ensures (i * FAT_ENTRIES_PER_BLOCK + j) / FAT_ENTRIES_PER_BLOCK == i
    ensures (i * FAT_ENTRIES_PER_BLOCK + j) % FAT_ENTRIES_PER_BLOCK == j
  {
  }
}
