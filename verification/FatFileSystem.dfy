/**
 * The file system in place: three fixed arrays, and the four commands as loops
 * over them.  Each command is proved to leave the arrays as the function of the
 * same name in Fat leaves the disk, and to give the same result.  Deleting and
 * reading follow links without checking them, so they ask that the links stay in
 * the table and come to an end, as those of every structured disk do
 * (FatStructure.StructuredIsUsable).
 */
module FatFileSystem {
  import opened Fat

  type BlockCount = n: nat | 0 < n < LAST witness 1024

  const MAX_FILE_NUM := 100
  const NUM_BLOCKS: BlockCount  // the program's is 1024; nothing depends on that
  const MAX_FILE_NAME := 100

  /** Where a block begins in the data area. */
  function Base(b: nat): (p: nat) {
    if b == 0 then 0 else Base(b - 1) + BLOCK_SIZE
  }

  lemma {:induction false} BaseIs(b: nat)
    ensures Base(b) == b * BLOCK_SIZE
  {
    if b > 0 {
      BaseIs(b - 1);
      assert b * BLOCK_SIZE == (b - 1) * BLOCK_SIZE + BLOCK_SIZE;
    }
  }

  lemma {:induction false} BaseGrows(b: nat, c: nat)
    requires b < c
    ensures Base(b) + BLOCK_SIZE <= Base(c)
  {
    if b < c - 1 {
      BaseGrows(b, c - 1);
    }
  }

  function Piece(area: string, blocks: nat, b: nat): (r: string)
    requires |area| == Base(blocks) && b < blocks
    ensures |r| == BLOCK_SIZE
  {
    BaseGrows(b, blocks);
    area[Base(b)..Base(b) + BLOCK_SIZE]
  }

  /** The data area cut into blocks. */
  function Cut(area: string, blocks: nat): (r: seq<string>)
    requires |area| == Base(blocks)
  {
    seq(blocks, b requires 0 <= b < blocks => Piece(area, blocks, b))
  }

  class FileSystem {
    const fatTable: array<int>
    const directory: array<FileEnt>
    const dataArea: array<char>

    /** A blank disk. */
    constructor ()
      ensures Shape() && fresh(fatTable) && fresh(directory) && fresh(dataArea)
      ensures Now() == Blank(NUM_BLOCKS, MAX_FILE_NUM)
    {
      fatTable := new int[NUM_BLOCKS](_ => FREE);
      directory := new FileEnt[MAX_FILE_NUM](_ => FileEnt("", 0, 0));
      BaseIs(NUM_BLOCKS);
      dataArea := new char[NUM_BLOCKS * BLOCK_SIZE](_ => NUL);
      new;
      assert fatTable[..] == Blank(NUM_BLOCKS, MAX_FILE_NUM).fat;
      assert directory[..] == Blank(NUM_BLOCKS, MAX_FILE_NUM).dir;
      BlankArea(dataArea[..]);
    }

    ghost predicate Shape() {
      fatTable.Length == NUM_BLOCKS && directory.Length == MAX_FILE_NUM && dataArea.Length == Base(NUM_BLOCKS)
    }

    /** The disk as a value. */
    ghost function Now(): Disk
      requires Shape()
      reads fatTable, directory, dataArea
    {
      Disk(fatTable[..], directory[..], Cut(dataArea[..], NUM_BLOCKS))
    }

    /** The first entry with this name. */
    method FindEntry(name: string) returns (i: nat)
      requires Shape()
      ensures i == Find(directory[..], name)
    {
      i := 0;
      while i < MAX_FILE_NUM
        invariant i <= MAX_FILE_NUM
        invariant Find(directory[..], name) == i + Find(directory[i..], name)
      {
        if directory[i].name == name {
          return;
        }
        assert directory[i..][1..] == directory[i + 1..];
        i := i + 1;
      }
    }

    /** The first block marked free. */
    method FindFree() returns (j: nat)
      requires Shape()
      ensures j == FirstFree(fatTable[..])
    {
      j := 0;
      while j < NUM_BLOCKS
        invariant j <= NUM_BLOCKS
        invariant FirstFree(fatTable[..]) == j + FirstFree(fatTable[j..])
      {
        if fatTable[j] == FREE {
          return;
        }
        assert fatTable[j..][1..] == fatTable[j + 1..];
        j := j + 1;
      }
    }

    method CreateFile(name: string) returns (code: int)
      requires Shape() && name != "" && IsText(name) && |name| < MAX_FILE_NAME
      modifies fatTable, directory
      ensures (Now(), code) == Create(old(Now()), name)
      ensures code == 0 || (code == -1 && Now() == old(Now()))
      ensures code == 0 <==> !HasFile(old(Now()), name) && HasFile(old(Now()), "") && FREE in old(fatTable[..])
    {
      CreateCode(Now(), name);
      var found := FindEntry(name);
      if found < MAX_FILE_NUM {
        return -1;
      }
      var i := 0;
      while i < MAX_FILE_NUM
        invariant 0 <= i <= MAX_FILE_NUM
        invariant Find(directory[..], "") >= i || FirstFree(fatTable[..]) == NUM_BLOCKS
        invariant Now() == old(Now())
      {
        if directory[i].name == "" {
          var j := FindFree();
          if j < NUM_BLOCKS {
            assert i == Find(directory[..], "");
            fatTable[j] := LAST;
            directory[i] := FileEnt(name, j, 0);
            return 0;
          }
        }
        i := i + 1;
      }
      return -1;
    }

    /** One past the last byte of the block that is not NUL. */
    method ComputeEnd(block: nat) returns (end: nat)
      requires Shape() && block < NUM_BLOCKS
      ensures end == BlockEnd(Now().data[block])
    {
      end := BLOCK_SIZE;
      BaseIs(block);
      BaseGrows(block, NUM_BLOCKS);
      ghost var text := Now().data[block];
      while end > 0 && dataArea[block * BLOCK_SIZE + end - 1] == NUL
        invariant end <= BLOCK_SIZE
        invariant forall j :: end <= j < BLOCK_SIZE ==> text[j] == NUL
      {
        end := end - 1;
      }
      EndIs(text, end);
    }

    /** Copies n bytes of the text behind the end of the block's own. */
    method CopyIn(block: nat, end: nat, text: string, offset: nat, n: nat)
      requires Shape() && block < NUM_BLOCKS && end == BlockEnd(Now().data[block]) && end + n <= BLOCK_SIZE
      requires offset + n <= |text|
      modifies dataArea
      ensures Now() == old(Now()).(data := old(Now()).data[block := Filled(old(Now()).data[block], text[offset..], n)])
    {
      ghost var area := dataArea[..];
      BaseIs(block);
      BaseGrows(block, NUM_BLOCKS);
      var base := block * BLOCK_SIZE + end;
      for t := 0 to n
        invariant forall p :: 0 <= p < dataArea.Length ==>
          dataArea[p] == if base <= p < base + t then text[offset + p - base] else area[p]
      {
        dataArea[base + t] := text[offset + t];
      }
      CutFilled(area, dataArea[..], block, end, text[offset..], n);
    }

    /** Appends to the file's first block, and on running out links in one free block after another. */
    method WriteFile(name: string, text: string) returns (code: int)
      requires Shape() && Now().Valid() && name != "" && IsText(name) && IsText(text)
      modifies fatTable, directory, dataArea
      ensures (Now(), code) == Write(old(Now()), name, text)
      ensures code == 0 || code == -1
      ensures code == 0 <==> exists i: nat :: IsFile(old(Now()), name, i) && HasGrown(old(Now()), Now(), i, |text|)
    {
      WriteCode(Now(), name, text);
      var i := FindEntry(name);
      if i == MAX_FILE_NUM {
        return -1;
      }
      code := WriteBlocks(i, directory[i].start, text);
    }

    /** The loop over the blocks that a write fills. */
    method WriteBlocks(i: nat, start: nat, text: string) returns (code: int)
      requires Shape() && Now().Valid() && i < MAX_FILE_NUM && start < NUM_BLOCKS && IsText(text)
      modifies fatTable, directory, dataArea
      ensures var w := WriteFrom(old(Now()), i, start, text); Now() == w.disk && code == if w.ok then 0 else -1
    {
      var block, offset := start, 0;
      ghost var whole := WriteFrom(Now(), i, block, text);
      ghost var rest := text;
      while offset < |text|
        invariant 0 <= offset <= |text| && 0 <= block < NUM_BLOCKS
        invariant rest == text[offset..] && SameEnd(WriteFrom(Now(), i, block, rest), whole)
        decreases if offset < |text| then Room(fatTable[..]) + 1 else 0
      {
        ghost var before := Now();
        var n, next := WriteRound(i, block, text, offset);
        RoundLeads(before, i, block, rest, rest[n..], n, next, whole);
        offset, rest := offset + n, rest[n..];
        if offset < |text| {
          if next == NUM_BLOCKS {
            return -1;
          }
          LinkBlock(block, next);
          block := next;
        }
      }
      return 0;
    }

    /** Puts the next block behind the current one; that leaves room for fewer. */
    method LinkBlock(block: nat, next: nat)
      requires Shape() && block < NUM_BLOCKS && next == FirstFree(fatTable[..]) < NUM_BLOCKS
      modifies fatTable
      ensures Now() == old(Now()).(fat := Link(old(Now()).fat, block, next))
      ensures Room(fatTable[..]) < old(Room(fatTable[..]))
    {
      LinkTakesRoom(fatTable[..], block);
      ghost var fat := fatTable[..];
      fatTable[block] := next;
      fatTable[next] := END;
      assert fatTable[..] == Link(fat, block, next);
    }

    /** Prints the file block by block, looking for END only; the links must not lead out of the table. */
    method ReadFile(name: string) returns (code: int, output: string)
      requires Shape() && name != "" && IsText(name) && Now().Valid()
      requires var i := Find(Now().dir, name); i < MAX_FILE_NUM ==> Readable(Now(), Now().dir[i].start, Now().dir[i].size)
      ensures match Read(Now(), name)
        case NotFound => code == -1 && output == "" && !HasFile(Now(), name)
        case Text(text) => code == 0 && output == text && HasFile(Now(), name)
    {
      ReadFinds(Now(), name);
      output := "";
      var i := FindEntry(name);
      if i == MAX_FILE_NUM {
        return -1, output;
      }
      var block, totalSize := directory[i].start, directory[i].size;
      ghost var d := Now();
      while block != END && totalSize > 0
        invariant Readable(d, block, totalSize)
        invariant output + ReadFrom(d, block, totalSize) == Content(d, i)
        decreases totalSize
      {
        var readSize := if totalSize < BLOCK_SIZE then totalSize else BLOCK_SIZE;
        var bytes := PrintBlock(block, readSize);
        ReadRound(d, block, totalSize, output, bytes);
        output := output + bytes;
        totalSize := totalSize - readSize;
        block := fatTable[block];
      }
      return 0, output;
    }

    /** The first n bytes of a block. */
    method PrintBlock(block: nat, n: nat) returns (bytes: string)
      requires Shape() && block < NUM_BLOCKS && n <= BLOCK_SIZE
      ensures bytes == Now().data[block][..n]
    {
      bytes := "";
      BaseIs(block);
      BaseGrows(block, NUM_BLOCKS);
      for j := 0 to n
        invariant bytes == Now().data[block][..j]
      {
        bytes := bytes + [dataArea[block * BLOCK_SIZE + j]];
      }
    }

    /** Frees the file's chain, block by block, and clears its entry; the bytes stay.  The chain must have an end. */
    method DeleteFile(name: string) returns (code: int)
      requires Shape() && name != "" && IsText(name) && Now().Valid()
      requires var i := Find(Now().dir, name); i < MAX_FILE_NUM ==> Ends(Now().fat, Now().dir[i].start, NUM_BLOCKS + 1)
      modifies fatTable, directory
      ensures (Now(), code) == Delete(old(Now()), name)
      ensures code == (if HasFile(old(Now()), name) then 0 else -1) && dataArea[..] == old(dataArea[..])
      ensures code == -1 ==> Now() == old(Now())
    {
      DeleteCode(Now(), name);
      var i := FindEntry(name);
      if i == MAX_FILE_NUM {
        return -1;
      }
      var block := directory[i].start;
      ghost var d, left := Now(), NUM_BLOCKS + 1;
      while block != END && block != LAST
        invariant 0 <= left && directory[..] == d.dir && Ends(fatTable[..], block, left)
        invariant Unlinked(fatTable[..], block, left) == Unlinked(d.fat, d.dir[i].start, NUM_BLOCKS + 1)
        decreases left
      {
        ghost var fat := fatTable[..];
        var next := fatTable[block];
        fatTable[block] := FREE;
        assert fatTable[..] == fat[block := FREE];
        block, left := next, left - 1;
      }
      directory[i] := FileEnt("", -1, 0);
      assert directory[..] == d.dir[i := FileEnt("", -1, 0)];
      return 0;
    }

    /** Puts what fits into the block, counts it, and looks for the next free block. */
    method WriteRound(i: nat, block: nat, text: string, offset: nat) returns (n: nat, next: nat)
      requires Shape() && i < MAX_FILE_NUM && block < NUM_BLOCKS && offset < |text|
      modifies directory, dataArea
      ensures n == Fits(old(Now()).data[block], text[offset..]) && next == FirstFree(old(Now()).fat)
      ensures Now() == Put(old(Now()), i, block, text[offset..])
    {
      var end := ComputeEnd(block);
      var space := BLOCK_SIZE - end;
      n := if |text| - offset < space then |text| - offset else space;
      CopyIn(block, end, text, offset, n);
      directory[i] := directory[i].(size := directory[i].size + n);
      next := FindFree();
    }
  }

  lemma BlankArea(area: string)
    requires |area| == Base(NUM_BLOCKS) && forall p :: 0 <= p < |area| ==> area[p] == NUL
    ensures Cut(area, NUM_BLOCKS) == Blank(NUM_BLOCKS, MAX_FILE_NUM).data
  {
    var blank := Blank(NUM_BLOCKS, MAX_FILE_NUM).data;
    forall b | 0 <= b < NUM_BLOCKS
      ensures Cut(area, NUM_BLOCKS)[b] == blank[b]
    {
      BaseGrows(b, NUM_BLOCKS);
    }
  }

  predicate SameEnd(a: Written, b: Written) {
    a.disk == b.disk && a.ok == b.ok
  }

  /** One round of the write loop, as the recursion sees it. */
  lemma RoundLeads(d: Disk, i: nat, block: nat, rest: string, later: string, n: nat, next: nat, whole: Written)
    requires i < |d.dir| && block < |d.fat| == |d.data| && rest != ""
    requires n == Fits(d.data[block], rest) && next == FirstFree(d.fat) && later == rest[n..]
    requires SameEnd(WriteFrom(d, i, block, rest), whole)
    ensures var put := Put(d, i, block, rest);
      if later == "" then whole.disk == put && whole.ok
      else if next == |d.fat| then whole.disk == put && !whole.ok
      else SameEnd(WriteFrom(put.(fat := Link(d.fat, block, next)), i, next, later), whole)
  {
  }

  lemma ReadRound(d: Disk, block: int, left: int, printed: string, bytes: string)
    requires d.Valid() && 0 <= block < |d.fat| && left > 0
    requires bytes == d.data[block][..if left < BLOCK_SIZE then left else BLOCK_SIZE]
    ensures printed + ReadFrom(d, block, left)
         == (printed + bytes) + ReadFrom(d, d.fat[block], left - if left < BLOCK_SIZE then left else BLOCK_SIZE)
  {
  }

  /** The bytes from `base` on are those of the text, the others are as before. */
  predicate Overwritten(area: string, after: string, base: nat, text: string, n: nat)
    requires |area| == |after| && n <= |text|
  {
    forall p :: 0 <= p < |area| ==> after[p] == if base <= p < base + n then text[p - base] else area[p]
  }

  lemma OtherPiece(area: string, after: string, block: nat, end: nat, text: string, n: nat, b: nat)
    requires |area| == |after| == Base(NUM_BLOCKS) && b < NUM_BLOCKS && b != block && end + n <= BLOCK_SIZE && n <= |text|
    requires Overwritten(area, after, Base(block) + end, text, n)
    ensures Piece(after, NUM_BLOCKS, b) == Piece(area, NUM_BLOCKS, b)
  {
    BaseGrows(b, NUM_BLOCKS);
    if b < block {
      BaseGrows(b, block);
    } else {
      BaseGrows(block, b);
    }
  }

  lemma OwnPiece(area: string, after: string, lo: nat, piece: string, end: nat, text: string, n: nat, filled: string)
    requires lo + |piece| <= |area| == |after| && piece == area[lo..lo + |piece|]
    requires n <= |text| && end + n <= |piece| && filled == piece[..end] + text[..n] + piece[end + n..]
    requires Overwritten(area, after, lo + end, text, n)
    ensures after[lo..lo + |piece|] == filled
  {
    forall j | 0 <= j < |piece|
      ensures after[lo + j] == filled[j]
    {
      assert piece[j] == area[lo + j];
    }
  }

  /** Overwriting n bytes of one block in the flat area. */
  lemma CutFilled(area: string, after: string, block: nat, end: nat, text: string, n: nat)
    requires |area| == |after| == Base(NUM_BLOCKS) && block < NUM_BLOCKS
    requires end == BlockEnd(Cut(area, NUM_BLOCKS)[block]) && end + n <= BLOCK_SIZE && n <= |text|
    requires Overwritten(area, after, Base(block) + end, text, n)
    ensures Cut(after, NUM_BLOCKS)
         == Cut(area, NUM_BLOCKS)[block := Filled(Cut(area, NUM_BLOCKS)[block], text, n)]
  {
    forall b | 0 <= b < NUM_BLOCKS
      ensures Cut(after, NUM_BLOCKS)[b]
           == if b == block then Filled(Cut(area, NUM_BLOCKS)[b], text, n) else Cut(area, NUM_BLOCKS)[b]
    {
      if b == block {
        OwnBlock(area, after, block, end, text, n, Piece(area, NUM_BLOCKS, block));
      } else {
        OtherPiece(area, after, block, end, text, n, b);
      }
    }
  }

  lemma OwnBlock(area: string, after: string, block: nat, end: nat, text: string, n: nat, piece: string)
    requires |area| == |after| == Base(NUM_BLOCKS) && block < NUM_BLOCKS && piece == Piece(area, NUM_BLOCKS, block)
    requires end == BlockEnd(piece) && end + n <= BLOCK_SIZE && n <= |text|
    requires Overwritten(area, after, Base(block) + end, text, n)
    ensures Piece(after, NUM_BLOCKS, block) == Filled(piece, text, n)
  {
    BaseGrows(block, NUM_BLOCKS);
    OwnPiece(area, after, Base(block), piece, end, text, n, Filled(piece, text, n));
  }
}
