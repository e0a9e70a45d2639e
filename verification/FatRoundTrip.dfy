/** What one write stores, and what reading prints of it afterwards. */
module FatRoundTrip {
  import opened Fat
  import opened FatStructure

  /** Free blocks hold no bytes. */
  ghost predicate FreeBlocksEmpty(d: Disk)
    requires |d.data| == |d.fat|
  {
    forall b :: 0 <= b < |d.fat| && d.fat[b] == FREE ==> BlockEnd(d.data[b]) == 0
  }

  predicate Shaped(d: Disk) {
    0 < |d.fat| == |d.data| < LAST && forall b :: 0 <= b < |d.data| ==> |d.data[b]| == BLOCK_SIZE
  }

  /** The disk right after the block has been filled and the next one linked. */
  function Grown(d: Disk, i: nat, block: nat, text: string): Disk
    requires i < |d.dir| && block < |d.fat| == |d.data| && FirstFree(d.fat) < |d.fat|
  {
    Put(d, i, block, text).(fat := Link(d.fat, block, FirstFree(d.fat)))
  }

  // ---- what one write stores ----------------------------------------------

  /** A full block followed by whatever the rest of the chain prints. */
  lemma ReadOn(d: Disk, block: nat, size: int)
    requires Shaped(d) && block < |d.fat| && size > BLOCK_SIZE
    ensures ReadFrom(d, block, size) == d.data[block] + ReadFrom(d, d.fat[block], size - BLOCK_SIZE)
  {
  }

  /** The statement of WriteAppends, for one write. */
  predicate Appended(d: Disk, block: nat, text: string, w: Written)
    requires block < |d.data| == |w.disk.data| && w.count <= |text|
  {
    var k := BlockEnd(d.data[block]);
    && ReadFrom(w.disk, block, k + w.count) == d.data[block][..k] + text[..w.count]
    && (w.blocks == [] ==> k + w.count <= BLOCK_SIZE)
    && (w.blocks != [] ==> k + w.count > BLOCK_SIZE && BlockEnd(w.disk.data[block]) == BLOCK_SIZE)
  }

  /** The blocks a write takes hold no bytes. */
  predicate TakenEmpty(d: Disk, w: Written) {
    forall b :: b in w.blocks ==> 0 <= b < |d.data| && BlockEnd(d.data[b]) == 0
  }

  /** Reading from the starting block gives the text that was there and the bytes that went in. */
  lemma {:induction false} WriteAppends(d: Disk, i: nat, block: nat, text: string, w: Written)
    requires Shaped(d) && i < |d.dir| && block < |d.fat| && IsText(text)
    requires d.fat[0] != FREE && d.fat[block] != FREE && w == WriteFrom(d, i, block, text) && TakenEmpty(d, w)
    ensures Appended(d, block, text, w)
    decreases Room(d.fat)
  {
    if Fits(d.data[block], text) < |text| && FirstFree(d.fat) < |d.fat| {
      var e, next, n, rest := GoesOn(d, i, block, text, w);
      RestTakesEmpty(d, i, block, text, w);
      WriteAppends(e, i, next, text[n..], rest);
      AppendedAtStart(e, next, text[n..], rest);
      FilledUp(d.data[block], text, n);
      AppendedBehind(d, block, text, n, next, rest, w);
    } else {
      AppendsHere(d, i, block, text, w);
    }
  }

  /** What a write takes after its first new block is still empty, and it puts something into that one. */
  lemma RestTakesEmpty(d: Disk, i: nat, block: nat, text: string, w: Written)
    requires Shaped(d) && i < |d.dir| && block < |d.fat| && d.fat[0] != FREE && d.fat[block] != FREE
    requires Fits(d.data[block], text) < |text| && FirstFree(d.fat) < |d.fat|
    requires w == WriteFrom(d, i, block, text) && TakenEmpty(d, w)
    ensures var n, e := Fits(d.data[block], text), Grown(d, i, block, text);
      var rest := WriteFrom(e, i, FirstFree(d.fat), text[n..]);
      && TakenEmpty(e, rest) && BlockEnd(e.data[FirstFree(d.fat)]) == 0 && rest.count > 0
      && w == Written(rest.disk, n + rest.count, rest.ok, [FirstFree(d.fat)] + rest.blocks)
  {
    var n, e, next := Fits(d.data[block], text), Grown(d, i, block, text), FirstFree(d.fat);
    var rest := WriteFrom(e, i, next, text[n..]);
    WriteStep(d, i, block, text);
    WriteTakes(e, i, next, text[n..]);
    assert next in w.blocks;
    forall b | b in rest.blocks
      ensures 0 <= b < |e.data| && BlockEnd(e.data[b]) == 0
    {
      assert b in w.blocks;
      var k :| 0 <= k < |rest.blocks| && rest.blocks[k] == b;
      assert e.fat[rest.blocks[k]] == FREE;
    }
    NextBlockTakesBytes(e, i, next, text[n..]);
  }

  /** A block that a text has filled up. */
  lemma FilledUp(block: string, text: string, n: nat)
    requires n <= |text| && BlockEnd(block) + n == |block| && IsText(text)
    ensures Filled(block, text, n) == block[..BlockEnd(block)] + text[..n] && BlockEnd(Filled(block, text, n)) == |block|
  {
    var front := block[..BlockEnd(block)] + text[..n];
    assert block[BlockEnd(block) + n..] == "";
    assert Filled(block, text, n) == front + "" == front;
    FilledEnd(block, text, n);
  }

  /** What has been appended to an empty block is all it holds. */
  lemma AppendedAtStart(d: Disk, block: nat, text: string, w: Written)
    requires block < |d.data| == |w.disk.data| && BlockEnd(d.data[block]) == 0 && w.count <= |text|
    requires Appended(d, block, text, w)
    ensures ReadFrom(w.disk, block, w.count) == text[..w.count]
  {
    assert d.data[block][..0] + text[..w.count] == text[..w.count];
  }

  /** A write that takes no other block. */
  lemma AppendsHere(d: Disk, i: nat, block: nat, text: string, w: Written)
    requires Shaped(d) && i < |d.dir| && block < |d.fat| && IsText(text) && w == WriteFrom(d, i, block, text)
    requires text == "" || Fits(d.data[block], text) == |text| || FirstFree(d.fat) == |d.fat|
    ensures Appended(d, block, text, w)
  {
    FilledEnd(d.data[block], text, Fits(d.data[block], text));
    assert w.disk.data[block] == Filled(d.data[block], text, Fits(d.data[block], text)) || text == "";
  }

  /** One round of the write loop that goes on to another block. */
  lemma WriteStep(d: Disk, i: nat, block: nat, text: string)
    requires i < |d.dir| && block < |d.fat| == |d.data|
    requires text != "" && Fits(d.data[block], text) < |text| && FirstFree(d.fat) < |d.fat|
    ensures var n, next := Fits(d.data[block], text), FirstFree(d.fat);
      var w := WriteFrom(Grown(d, i, block, text), i, next, text[n..]);
      WriteFrom(d, i, block, text) == Written(w.disk, n + w.count, w.ok, [next] + w.blocks)
  {
  }

  /** The disk on which the rest of a write goes on, in block `next`. */
  ghost predicate GoesOnIn(d: Disk, block: nat, e: Disk, next: nat)
    requires Shaped(d)
  {
    && Shaped(e) && |e.fat| == |d.fat| && |e.dir| == |d.dir| && e.fat[0] != FREE
    && next < |d.fat| && d.fat[next] == FREE && e.fat[next] == END && next != block
    && (forall b :: 0 <= b < |d.fat| ==> (e.fat[b] == FREE <==> d.fat[b] == FREE && b != next))
    && (forall b :: 0 <= b < |d.fat| && b != block ==> e.data[b] == d.data[b])
  }

  lemma GoesOn(d: Disk, i: nat, block: nat, text: string, w: Written) returns (e: Disk, next: nat, n: nat, rest: Written)
    requires Shaped(d) && i < |d.dir| && block < |d.fat| && d.fat[0] != FREE && d.fat[block] != FREE
    requires w == WriteFrom(d, i, block, text) && Fits(d.data[block], text) < |text| && FirstFree(d.fat) < |d.fat|
    ensures n == Fits(d.data[block], text) && next == FirstFree(d.fat) && e == Grown(d, i, block, text)
    ensures GoesOnIn(d, block, e, next) && Room(e.fat) < Room(d.fat) && rest == WriteFrom(e, i, next, text[n..])
    ensures w.disk == rest.disk && w.count == n + rest.count && w.ok == rest.ok
    ensures Shaped(w.disk) && |w.disk.fat| == |d.fat| && w.disk.fat[block] == next
    ensures w.disk.data[block] == Filled(d.data[block], text, n)
  {
    n, next, e := Fits(d.data[block], text), FirstFree(d.fat), Grown(d, i, block, text);
    rest := WriteFrom(e, i, next, text[n..]);
    LinkTakesRoom(d.fat, block);
    WriteStep(d, i, block, text);
    WriteTakes(e, i, next, text[n..]);
    WriteTouches(e, i, next, text[n..], block);
    WriteShape(e, i, next, text[n..]);
  }

  lemma AppendedBehind(d: Disk, block: nat, text: string, n: nat, next: nat, w: Written, whole: Written)
    requires Shaped(w.disk) && block < |w.disk.fat| == |d.data| && 0 < w.count && n + w.count <= |text|
    requires w.disk.fat[block] == next && BlockEnd(d.data[block]) + n == BLOCK_SIZE
    requires w.disk.data[block] == d.data[block][..BlockEnd(d.data[block])] + text[..n]
    requires BlockEnd(w.disk.data[block]) == BLOCK_SIZE
    requires ReadFrom(w.disk, next, w.count) == text[n..][..w.count]
    requires whole == Written(w.disk, n + w.count, w.ok, [next] + w.blocks)
    ensures Appended(d, block, text, whole)
  {
    ReadOn(w.disk, block, BLOCK_SIZE + w.count);
    Joins(d.data[block][..BlockEnd(d.data[block])], text, n, w.count, ReadFrom(w.disk, next, w.count));
  }

  lemma Joins(front: string, text: string, n: nat, m: nat, tail: string)
    requires n + m <= |text| && tail == text[n..][..m]
    ensures (front + text[..n]) + tail == front + text[..n + m]
  {
  }

  lemma GrownIsEmpty(d: Disk, i: nat, block: nat, text: string)
    requires Shaped(d) && i < |d.dir| && block < |d.fat| && d.fat[0] != FREE && d.fat[block] != FREE
    requires FreeBlocksEmpty(d) && FirstFree(d.fat) < |d.fat|
    ensures var e := Grown(d, i, block, text);
      && Shaped(e) && FreeBlocksEmpty(e) && e.fat[0] != FREE && e.fat[FirstFree(d.fat)] == END
      && BlockEnd(e.data[FirstFree(d.fat)]) == 0 && e.fat[block] == FirstFree(d.fat)
  {
  }

  /** An empty block takes at least one byte of a non-empty text. */
  lemma NextBlockTakesBytes(d: Disk, i: nat, block: nat, text: string)
    requires Shaped(d) && i < |d.dir| && block < |d.fat| && BlockEnd(d.data[block]) == 0 && text != ""
    ensures WriteFrom(d, i, block, text).count > 0
  {
  }

  lemma {:induction false} WriteShape(d: Disk, i: nat, block: nat, text: string)
    requires Shaped(d) && i < |d.dir| && block < |d.fat|
    ensures Shaped(WriteFrom(d, i, block, text).disk)
    decreases Room(d.fat)
  {
    if text != "" && Fits(d.data[block], text) < |text| && FirstFree(d.fat) < |d.fat| {
      LinkTakesRoom(d.fat, block);
      WriteShape(Grown(d, i, block, text), i, FirstFree(d.fat), text[Fits(d.data[block], text)..]);
    }
  }

  /** Following the chain from `block`, there are only NUL bytes after the first m, and then the chain ends. */
  predicate EndsAfter(d: Disk, block: int, m: int)
    requires Shaped(d)
    decreases m
  {
    && 0 <= block < |d.fat|
    && if m <= BLOCK_SIZE then d.fat[block] == END && BlockEnd(d.data[block]) <= m
       else EndsAfter(d, d.fat[block], m - BLOCK_SIZE)
  }

  /** Beyond what a write put into new blocks there are only NUL bytes. */
  lemma {:induction false} WriteEndsAfter(d: Disk, i: nat, block: nat, text: string, w: Written, m: int)
    requires Shaped(d) && i < |d.dir| && block < |d.fat| && IsText(text)
    requires d.fat[0] != FREE && d.fat[block] == END && FreeBlocksEmpty(d) && w == WriteFrom(d, i, block, text)
    requires m == BlockEnd(d.data[block]) + w.count
    ensures Shaped(w.disk) && EndsAfter(w.disk, block, m)
    decreases Room(d.fat)
  {
    WriteShape(d, i, block, text);
    if text != "" && Fits(d.data[block], text) < |text| && FirstFree(d.fat) < |d.fat| {
      var e, next, left, rest := Onward(d, i, block, text, w);
      WriteEndsAfter(e, i, next, left, rest, m - BLOCK_SIZE);
      EndsOneMore(w.disk, block, next, m);
    } else {
      WriteEndsHere(d, i, block, text, w, m);
    }
  }

  lemma EndsOneMore(d: Disk, block: nat, next: nat, m: int)
    requires Shaped(d) && block < |d.fat| && d.fat[block] == next && m > BLOCK_SIZE && EndsAfter(d, next, m - BLOCK_SIZE)
    ensures EndsAfter(d, block, m)
  {
  }

  lemma WriteEndsHere(d: Disk, i: nat, block: nat, text: string, w: Written, m: int)
    requires Shaped(d) && i < |d.dir| && block < |d.fat| && IsText(text) && Shaped(w.disk) && |w.disk.fat| == |d.fat|
    requires d.fat[block] == END && w == WriteFrom(d, i, block, text) && w.blocks == []
    requires m == BlockEnd(d.data[block]) + w.count
    ensures EndsAfter(w.disk, block, m)
  {
    WriteInPlace(d, i, block, text);
  }

  lemma {:induction false} ShowsNul(d: Disk, block: int, m: int, size: int, p: nat, shown: string)
    requires Shaped(d) && EndsAfter(d, block, m) && shown == ReadFrom(d, block, size) && m <= p < |shown|
    ensures shown[p] == NUL
    decreases m
  {
    if size > BLOCK_SIZE {
      ReadOn(d, block, size);
      if m > BLOCK_SIZE {
        ShowsNul(d, d.fat[block], m - BLOCK_SIZE, size - BLOCK_SIZE, p - BLOCK_SIZE,
                 ReadFrom(d, d.fat[block], size - BLOCK_SIZE));
      } else {
        assert ReadFrom(d, END, size - BLOCK_SIZE) == "";
      }
    }
  }

  /** A write that goes on to another block. */
  lemma Onward(d: Disk, i: nat, block: nat, text: string, w: Written)
    returns (e: Disk, next: nat, left: string, rest: Written)
    requires Shaped(d) && i < |d.dir| && block < |d.fat| && IsText(text)
    requires d.fat[0] != FREE && d.fat[block] != FREE && FreeBlocksEmpty(d) && w == WriteFrom(d, i, block, text)
    requires text != "" && Fits(d.data[block], text) < |text| && FirstFree(d.fat) < |d.fat|
    ensures Shaped(e) && i < |e.dir| && next < |e.fat| && IsText(left) && Room(e.fat) < Room(d.fat)
    ensures e.fat[0] != FREE && e.fat[next] == END && FreeBlocksEmpty(e) && rest == WriteFrom(e, i, next, left)
    ensures rest.disk == w.disk && |w.disk.fat| == |d.fat| && w.disk.fat[block] == next && rest.count > 0
    ensures BlockEnd(e.data[next]) == 0 && BlockEnd(d.data[block]) + w.count == BLOCK_SIZE + rest.count
  {
    var n;
    e, next, n, rest := GoesOn(d, i, block, text, w);
    left := text[n..];
    GrownIsEmpty(d, i, block, text);
    NextBlockTakesBytes(e, i, next, left);
  }

  // ---- clean disks --------------------------------------------------------

  /** A small file is one block whose text is the file; a larger one has a full first block behind which others hang. */
  ghost predicate Tidy(d: Disk, i: nat, c: seq<int>)
    requires i < |d.dir| && |d.fat| == |d.data| && c != [] && 0 <= c[0] < |d.data|
  {
    && (if d.dir[i].size <= BLOCK_SIZE then |c| == 1 && BlockEnd(d.data[c[0]]) == d.dir[i].size
        else |c| > 1 && BlockEnd(d.data[c[0]]) == BLOCK_SIZE)
    && |Content(d, i)| == d.dir[i].size && IsText(Content(d, i))
  }

  ghost predicate Kept(d: Disk, chains: seq<seq<int>>) {
    Structured(d, chains) && forall i :: 0 <= i < |d.dir| && Live(d, i) ==> TidyFile(d, chains, i)
  }

  /** Also, no free block holds bytes, and block 0 is in use if any is. */
  ghost predicate Clean(d: Disk, chains: seq<seq<int>>) {
    Kept(d, chains) && FreeBlocksEmpty(d) && forall i :: 0 <= i < |d.dir| && Live(d, i) ==> d.fat[0] != FREE
  }

  ghost predicate TidyFile(d: Disk, chains: seq<seq<int>>, i: nat)
    requires i < |d.dir| == |chains| && |d.fat| == |d.data|
  {
    Owns(d, i, chains[i]) && Tidy(d, i, chains[i])
  }

  /** On a clean disk, every write takes empty blocks. */
  lemma CleanTakesEmpty(d: Disk, i: nat, block: nat, text: string)
    requires i < |d.dir| && block < |d.fat| == |d.data| && d.fat[0] != FREE && d.fat[block] != FREE && FreeBlocksEmpty(d)
    ensures TakenEmpty(d, WriteFrom(d, i, block, text))
  {
    var c := WriteFrom(d, i, block, text).blocks;
    WriteTakes(d, i, block, text);
    forall b | b in c
      ensures 0 <= b < |d.data| && BlockEnd(d.data[b]) == 0
    {
      var k :| 0 <= k < |c| && c[k] == b;
      assert d.fat[c[k]] == FREE;
    }
  }

  lemma SafeWriteAppends(d: Disk, i: nat, text: string, w: Written)
    requires Shaped(d) && i < |d.dir| && 0 <= d.dir[i].start < |d.fat| && d.fat[d.dir[i].start] != FREE && IsText(text)
    requires SafeWrite(d, i, text) && w == WriteFrom(d, i, d.dir[i].start, text) && TakenEmpty(d, w)
    ensures Appended(d, d.dir[i].start, text, w)
  {
    if d.fat[0] != FREE {
      WriteAppends(d, i, d.dir[i].start, text, w);
    } else {
      AppendsHere(d, i, d.dir[i].start, text, w);
    }
  }

  /** Where a write to a small file goes: behind its text. */
  lemma AppendToSmall(d: Disk, chains: seq<seq<int>>, i: nat, text: string, w: Written)
    requires Kept(d, chains) && i < |d.dir| && Live(d, i) && IsText(text) && d.dir[i].size <= BLOCK_SIZE
    requires SafeWrite(d, i, text) && w == WriteFrom(d, i, d.dir[i].start, text) && TakenEmpty(d, w)
    ensures |w.disk.dir| == |d.dir| && Content(w.disk, i) == Content(d, i) + text[..w.count]
    ensures TidyFile(w.disk, ChainsAfterWrite(d, chains, i, text), i)
  {
    var start := d.dir[i].start;
    assert TidyFile(d, chains, i);
    WriteDir(d, i, start, text);
    SafeWriteAppends(d, i, text, w);
    WriteOwnChain(d, chains, i, text);
    if w.blocks == [] {
      WriteInPlace(d, i, start, text);
    }
    SmallIsTidy(d, i, text, w, ChainsAfterWrite(d, chains, i, text)[i]);
  }

  lemma SmallIsTidy(d: Disk, i: nat, text: string, w: Written, c: seq<int>)
    requires Shaped(d) && i < |d.dir| == |w.disk.dir| && |w.disk.fat| == |w.disk.data| == |d.data| && IsText(text)
    requires 0 <= d.dir[i].start < |d.data| && w.count <= |text|
    requires 0 <= d.dir[i].size == BlockEnd(d.data[d.dir[i].start]) && IsText(Content(d, i))
    requires w.disk.dir[i] == d.dir[i].(size := d.dir[i].size + w.count)
    requires Appended(d, d.dir[i].start, text, w)
    requires w.blocks == [] ==> |c| == 1 && BlockEnd(w.disk.data[d.dir[i].start]) == d.dir[i].size + w.count
    requires w.blocks != [] ==> |c| > 1
    requires c != [] && c[0] == d.dir[i].start
    ensures Content(w.disk, i) == Content(d, i) + text[..w.count]
    ensures Tidy(w.disk, i, c)
  {
    var k := d.dir[i].size;
    assert Content(d, i) == d.data[d.dir[i].start][..k];
  }

  /** A write to a large file does nothing if it is empty or the disk is full. */
  lemma NothingToDo(d: Disk, chains: seq<seq<int>>, i: nat, text: string)
    requires Kept(d, chains) && i < |d.dir| && Live(d, i) && d.dir[i].size > BLOCK_SIZE
    requires text == "" || FirstFree(d.fat) == |d.fat|
    ensures var w := WriteFrom(d, i, d.dir[i].start, text); w.disk == d && w.count == 0 && w.blocks == []
  {
    assert TidyFile(d, chains, i);
    var block := d.data[d.dir[i].start];
    assert Filled(block, text, 0) == block;
  }

  /** A write that takes a block for a large file loses the file's old tail. */
  lemma LosesTheTail(d: Disk, chains: seq<seq<int>>, i: nat, text: string, w: Written)
    requires Clean(d, chains) && i < |d.dir| && Live(d, i) && IsText(text) && d.dir[i].size > BLOCK_SIZE
    requires text != "" && FirstFree(d.fat) < |d.fat| && w == WriteFrom(d, i, d.dir[i].start, text)
    ensures Content(w.disk, i) != Content(d, i) + text[..w.count]
  {
    LargeFile(d, chains, i);
    LargeFileLoses(d, i, text, w);
  }

  /** What a clean disk says about a file of more than one block. */
  lemma LargeFile(d: Disk, chains: seq<seq<int>>, i: nat)
    requires Clean(d, chains) && i < |d.dir| && Live(d, i) && d.dir[i].size > BLOCK_SIZE
    ensures Shaped(d) && 0 <= d.dir[i].start < |d.fat| && d.fat[0] != FREE && d.fat[d.dir[i].start] != FREE
    ensures BlockEnd(d.data[d.dir[i].start]) == BLOCK_SIZE && |Content(d, i)| == d.dir[i].size && FreeBlocksEmpty(d)
  {
    assert TidyFile(d, chains, i);
  }

  lemma LargeFileLoses(d: Disk, i: nat, text: string, w: Written)
    requires Shaped(d) && i < |d.dir| && 0 <= d.dir[i].start < |d.fat| && d.fat[0] != FREE && d.fat[d.dir[i].start] != FREE
    requires BlockEnd(d.data[d.dir[i].start]) == BLOCK_SIZE && |Content(d, i)| == d.dir[i].size && FreeBlocksEmpty(d)
    requires IsText(text) && text != "" && FirstFree(d.fat) < |d.fat| && d.dir[i].size > BLOCK_SIZE
    requires w == WriteFrom(d, i, d.dir[i].start, text)
    ensures |w.disk.dir| == |d.dir| && Content(w.disk, i) != Content(d, i) + text[..w.count]
  {
    var start, size := d.dir[i].start, d.dir[i].size;
    LinksBehindTheFirst(d, i, start, text, w);
    TailIsLost(d, i, start, size, text, w, text[..w.count], Content(d, i), w.disk.dir[i].size, Content(w.disk, i));
  }

  lemma TailIsLost(d: Disk, i: nat, start: nat, size: int, text: string, w: Written, added: string,
                   shown: string, total: int, shows: string)
    requires Shaped(d) && i < |d.dir| && start < |d.fat| && d.dir[i].start == start && size > BLOCK_SIZE
    requires d.fat[0] != FREE && d.fat[start] != FREE && FreeBlocksEmpty(d) && FirstFree(d.fat) < |d.fat|
    requires IsText(text) && text != "" && w == WriteFrom(d, i, start, text) && added == text[..w.count]
    requires Shaped(w.disk) && w.disk.fat[start] == FirstFree(d.fat) && w.disk.data[start] == d.data[start]
    requires BlockEnd(d.data[start]) == BLOCK_SIZE && shown == ReadFrom(d, start, size) && |shown| == size
    requires total == size + w.count && shows == ReadFrom(w.disk, start, total)
    ensures shows != shown + added
  {
    var next, behind := FirstFree(d.fat), total - BLOCK_SIZE;
    var tail := ReadFrom(w.disk, next, behind);
    NewTail(d, i, start, text, w, next, behind, tail, added);
    TailDiffers(d, start, next, added, w.disk, size, behind, tail, shown, total, shows);
  }

  lemma NewTail(d: Disk, i: nat, start: nat, text: string, w: Written, next: nat, behind: int, tail: string, added: string)
    requires Shaped(d) && i < |d.dir| && start < |d.fat| && d.dir[i].start == start && IsText(text) && text != ""
    requires d.fat[0] != FREE && d.fat[start] != FREE && FreeBlocksEmpty(d) && next == FirstFree(d.fat) < |d.fat|
    requires BlockEnd(d.data[start]) == BLOCK_SIZE && w == WriteFrom(d, i, start, text) && added == text[..w.count]
    requires behind > w.count && tail == ReadFrom(w.disk, next, behind)
    ensures NotEndingIn(tail, behind, added)
  {
    LinksBehindTheFirst(d, i, start, text, w);
    LastByteDiffers(Grown(d, i, start, text), i, next, text, behind, w.disk, w.count, added, tail);
  }

  /** A write to a file whose first block is full puts everything into blocks behind that one. */
  lemma LinksBehindTheFirst(d: Disk, i: nat, start: nat, text: string, w: Written)
    requires Shaped(d) && i < |d.dir| && start < |d.fat| && d.dir[i].start == start && IsText(text) && text != ""
    requires d.fat[0] != FREE && d.fat[start] != FREE && FreeBlocksEmpty(d) && FirstFree(d.fat) < |d.fat|
    requires BlockEnd(d.data[start]) == BLOCK_SIZE && w == WriteFrom(d, i, start, text)
    ensures var e, next := Grown(d, i, start, text), FirstFree(d.fat);
      && Shaped(e) && FreeBlocksEmpty(e) && e.fat[0] != FREE && e.fat[next] == END && BlockEnd(e.data[next]) == 0
      && w.disk == WriteFrom(e, i, next, text).disk && w.count == WriteFrom(e, i, next, text).count > 0
    ensures Shaped(w.disk) && w.disk.fat[start] == FirstFree(d.fat) && w.disk.data[start] == d.data[start]
    ensures |w.disk.dir| == |d.dir| && w.disk.dir[i].start == start && w.disk.dir[i].size == d.dir[i].size + w.count
  {
    assert Fits(d.data[start], text) == 0 && text[0..] == text;
    WriteDir(d, i, start, text);
    var e, next, n, rest := GoesOn(d, i, start, text, w);
    GrownIsEmpty(d, i, start, text);
    NextBlockTakesBytes(e, i, next, text);
    assert Filled(d.data[start], text, 0) == d.data[start];
  }

  lemma TailDiffers(d: Disk, start: nat, next: nat, added: string, after: Disk, was: int, behind: int,
                    tail: string, shown: string, total: int, shows: string)
    requires Shaped(d) && Shaped(after) && start < |d.fat| == |after.fat| && was > BLOCK_SIZE
    requires after.fat[start] == next && after.data[start] == d.data[start]
    requires shown == ReadFrom(d, start, was) && |shown| == was && shows == ReadFrom(after, start, total)
    requires total == was + |added| && behind == total - BLOCK_SIZE && tail == ReadFrom(after, next, behind)
    requires NotEndingIn(tail, behind, added)
    ensures shows != shown + added
  {
    ReadOnAs(after, start, next, total, behind, shows, tail);
    var prior := ReadBehind(d, start, was, shown);
    TailStrings(d.data[start], tail, prior, added, behind, shown, shows);
  }

  lemma ReadBehind(d: Disk, block: nat, size: int, shown: string) returns (prior: string)
    requires Shaped(d) && block < |d.fat| && size > BLOCK_SIZE && shown == ReadFrom(d, block, size) && |shown| == size
    ensures shown == d.data[block] + prior && |prior| == size - BLOCK_SIZE
  {
    ReadOn(d, block, size);
    prior := ReadFrom(d, d.fat[block], size - BLOCK_SIZE);
  }

  lemma ReadOnAs(d: Disk, block: nat, next: int, size: int, behind: int, shown: string, tail: string)
    requires Shaped(d) && block < |d.fat| && size > BLOCK_SIZE && next == d.fat[block] && behind == size - BLOCK_SIZE
    requires shown == ReadFrom(d, block, size) && tail == ReadFrom(d, next, behind)
    ensures shown == d.data[block] + tail && |d.data[block]| == BLOCK_SIZE
  {
  }

  lemma TailStrings(block: string, tail: string, prior: string, added: string, size: int, shown: string, shows: string)
    requires NotEndingIn(tail, size, added) && |prior| + |added| == size && shown == block + prior && shows == block + tail
    ensures shows != shown + added
  {
    assert shows[|block|..] == tail;
    assert (shown + added)[|block|..] == prior + added;
  }

  /** `tail` is not `size` bytes long with `added` at its end. */
  ghost predicate NotEndingIn(tail: string, size: int, added: string) {
    forall prior: string :: |prior| + |added| == size ==> tail != prior + added
  }

  lemma LastByteDiffers(e: Disk, i: nat, next: nat, text: string, size: int, after: Disk, count: nat, added: string,
                        tail: string)
    requires Shaped(e) && i < |e.dir| && next < |e.fat| && IsText(text)
    requires e.fat[0] != FREE && e.fat[next] == END && FreeBlocksEmpty(e) && BlockEnd(e.data[next]) == 0
    requires after == WriteFrom(e, i, next, text).disk && count == WriteFrom(e, i, next, text).count
    requires 0 < count <= |text| && size > count && added == text[..count]
    requires tail == ReadFrom(after, next, size)
    ensures NotEndingIn(tail, size, added)
  {
    if |tail| == size {
      WriteEndsAfter(e, i, next, text, WriteFrom(e, i, next, text), count);
      ShowsNul(after, next, count, size, size - 1, tail);
      NulEndsNoText(text, tail, size, added, count);
    }
  }

  lemma NulEndsNoText(text: string, tail: string, size: int, added: string, count: nat)
    requires IsText(text) && 0 < count <= |text| && size > count && added == text[..count]
    requires |tail| == size && tail[size - 1] == NUL
    ensures NotEndingIn(tail, size, added)
  {
    forall prior: string | |prior| + |added| == size
      ensures tail != prior + added
    {
      assert (prior + added)[size - 1] == text[count - 1];
    }
  }

  /**
   * A write appends exactly the counted bytes to what the file prints if and only
   * if the file is at most one block long, or there is nothing to write, or no
   * block left to write to.
   */
  lemma WriteIsFaithfulIff(d: Disk, chains: seq<seq<int>>, i: nat, text: string)
    requires Clean(d, chains) && i < |d.dir| && Live(d, i) && IsText(text)
    ensures var w := WriteFrom(d, i, d.dir[i].start, text);
      Content(w.disk, i) == Content(d, i) + text[..w.count] <==>
      d.dir[i].size <= BLOCK_SIZE || text == "" || FirstFree(d.fat) == |d.fat|
  {
    if d.dir[i].size <= BLOCK_SIZE {
      assert TidyFile(d, chains, i);
      CleanTakesEmpty(d, i, d.dir[i].start, text);
      AppendToSmall(d, chains, i, text, WriteFrom(d, i, d.dir[i].start, text));
    } else if text == "" || FirstFree(d.fat) == |d.fat| {
      NothingToDo(d, chains, i, text);
    } else {
      LosesTheTail(d, chains, i, text, WriteFrom(d, i, d.dir[i].start, text));
    }
  }
}
