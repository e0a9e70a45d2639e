/** Runs from a blank disk that reach the cases in which a file is not read as it was written. */
module FatRuns {
  import opened Fat
  import opened FatStructure
  import opened FatContents
  import opened FatRoundTrip
  import opened FatLogs
  import opened FatReadBack

  predicate Name(s: string) {
    s != "" && IsText(s)
  }

  lemma OneMoreOp(d: Disk, ops: seq<Op>, op: Op, all: seq<Op>)
    requires d.Valid() && (forall o :: o in ops ==> o.Accepted()) && op.Accepted() && all == ops + [op]
    ensures forall o :: o in all ==> o.Accepted()
    ensures RunOps(d, all) == Apply(RunOps(d, ops), op)
    ensures AllGuarded(d, all) <==> AllGuarded(d, ops) && Guarded(RunOps(d, ops), op)
    ensures AllFrugal(d, all) <==> AllFrugal(d, ops) && Frugal(RunOps(d, ops), op)
    ensures AllAppending(d, all) <==> AllAppending(d, ops) && Appending(RunOps(d, ops), op)
  {
    assert all[..|all| - 1] == ops;
  }

  // ---- single commands ----------------------------------------------------

  /** Creating a file on a disk without files gives it entry 0 and block 0. */
  lemma CreateFirst(d: Disk, name: string)
    requires d.Valid() && Name(name) && d.dir != [] && d.fat[0] == FREE
    requires forall i :: 0 <= i < |d.dir| ==> d.dir[i].name == ""
    ensures Create(d, name) == (d.(fat := d.fat[0 := LAST], dir := d.dir[0 := FileEnt(name, 0, 0)]), 0)
  {
    assert Find(d.dir, "") == 0 && FirstFree(d.fat) == 0;
    assert Find(d.dir, name) == |d.dir|;
  }

  /** A write that fits into the file's only block. */
  lemma WriteSmall(d: Disk, name: string, text: string)
    requires d.Valid() && Name(name) && IsText(text) && text != "" && d.dir != [] && d.dir[0].name == name && d.dir[0].start == 0
    requires Fits(d.data[0], text) == |text|
    ensures Write(d, name, text).0 == Put(d, 0, 0, text)
  {
    assert Find(d.dir, name) == 0;
  }

  lemma DeleteSmall(d: Disk, name: string)
    requires d.Valid() && Name(name) && d.dir != [] && d.dir[0].name == name && d.dir[0].start == 0 && d.fat[0] == LAST
    ensures Delete(d, name).0 == d.(fat := d.fat[0 := FREE], dir := d.dir[0 := FileEnt("", -1, 0)])
  {
    assert Find(d.dir, name) == 0;
    var after := d.fat[0 := FREE];
    assert Unlinked(d.fat, 0, |d.fat| + 1) == Unlinked(after, LAST, |d.fat|) == after;
  }

  /** A text that fills the file's block and goes on in the next free one. */
  lemma WriteTwoBlocks(d: Disk, i: nat, block: nat, next: nat, text: string)
    requires d.Valid() && IsText(text) && BLOCK_SIZE < |text| <= 2 * BLOCK_SIZE && i < |d.dir|
    requires block < |d.fat| && next == FirstFree(d.fat) < |d.fat| && block != next
    requires BlockEnd(d.data[block]) == 0 == BlockEnd(d.data[next])
    ensures var w := WriteFrom(d, i, block, text);
      w.disk.fat == Link(d.fat, block, next) && w.disk.dir == d.dir[i := d.dir[i].(size := d.dir[i].size + |text|)]
  {
    var rest := text[BLOCK_SIZE..];
    assert Fits(d.data[block], text) == BLOCK_SIZE;
    var e := Put(d, i, block, text).(fat := Link(d.fat, block, next));
    assert e.data[next] == d.data[next] && Fits(e.data[next], rest) == |rest|;
    assert WriteFrom(e, i, next, rest) == Written(Put(e, i, next, rest), |rest|, true, []);
  }

  // ---- stale bytes --------------------------------------------------------

  /** A file is created in a block that still holds `was`, and `text` is written to it. */
  lemma RecreatedReads(d: Disk, name: string, was: string, text: string)
    requires d.Valid() && Name(name) && IsText(was) && IsText(text) && d.dir != [] && d.dir[0] == FileEnt(name, 0, 0)
    requires BlockEnd(d.data[0]) == |was| && d.data[0][..|was|] == was
    requires 0 < |text| <= |was| && |was| + |text| <= BLOCK_SIZE
    ensures Read(Write(d, name, text).0, name) == Text(was[..|text|])
  {
    WriteSmall(d, name, text);
    var after := Put(d, 0, 0, text);
    assert after.data[0] == d.data[0][..|was|] + text + d.data[0][|was| + |text|..];
    assert after.data[0][..|text|] == d.data[0][..|text|] == was[..|text|];
    assert Find(after.dir, name) == 0;
  }

  lemma BlankEnd()
    ensures BLOCK_SIZE == |seq(BLOCK_SIZE, _ => NUL)| && BlockEnd(seq(BLOCK_SIZE, _ => NUL)) == 0
  {
    EndIs(seq(BLOCK_SIZE, _ => NUL), 0);
  }

  lemma WrittenOnce(blocks: nat, files: nat, name: string, text: string, ops: seq<Op>)
    requires 0 < blocks < LAST && files > 0 && Name(name) && IsText(text) && 0 < |text| <= BLOCK_SIZE
    requires ops == [CreateOp(name), WriteOp(name, text)]
    ensures forall op :: op in ops ==> op.Accepted()
    ensures var d := RunOps(Blank(blocks, files), ops);
      && d.dir != [] && d.dir[0] == FileEnt(name, 0, |text|) && d.fat[0] == LAST
      && (forall i :: 0 < i < |d.dir| ==> d.dir[i].name == "")
      && BlockEnd(d.data[0]) == |text| && d.data[0][..|text|] == text
  {
    var d0 := Blank(blocks, files);
    OneMoreOp(d0, [], ops[0], ops[..1]);
    OneMoreOp(d0, ops[..1], ops[1], ops);
    var d1 := RunOps(d0, ops[..1]);
    CreateFirst(d0, name);
    BlankEnd();
    FilledEnd(d1.data[0], text, |text|);
    WriteSmall(d1, name, text);
  }

  /** Deleting the file and creating it again leaves an empty file in a block that holds the old bytes. */
  lemma Recreated(blocks: nat, files: nat, name: string, was: string, ops: seq<Op>)
    requires 0 < blocks < LAST && files > 0 && Name(name) && IsText(was) && 0 < |was| <= BLOCK_SIZE
    requires ops == [CreateOp(name), WriteOp(name, was), DeleteOp(name), CreateOp(name)]
    ensures forall op :: op in ops ==> op.Accepted()
    ensures var d := RunOps(Blank(blocks, files), ops);
      d.dir != [] && d.dir[0] == FileEnt(name, 0, 0) && BlockEnd(d.data[0]) == |was| && d.data[0][..|was|] == was
  {
    var d0 := Blank(blocks, files);
    WrittenOnce(blocks, files, name, was, ops[..2]);
    OneMoreOp(d0, ops[..2], ops[2], ops[..3]);
    OneMoreOp(d0, ops[..3], ops[3], ops);
    DeleteSmall(RunOps(d0, ops[..2]), name);
    CreateFirst(RunOps(d0, ops[..3]), name);
  }

  /** A deleted file's bytes are read as the beginning of a file created afterwards, whatever is written to that. */
  lemma DeletedBytesReturn(blocks: nat, files: nat, name: string, was: string, text: string, ops: seq<Op>)
    requires 0 < blocks < LAST && files > 0 && Name(name) && IsText(was) && IsText(text)
    requires 0 < |text| <= |was| && |was| + |text| <= BLOCK_SIZE
    requires ops == [CreateOp(name), WriteOp(name, was), DeleteOp(name), CreateOp(name), WriteOp(name, text)]
    ensures forall op :: op in ops ==> op.Accepted()
    ensures Read(RunOps(Blank(blocks, files), ops), name) == Text(was[..|text|])
  {
    Recreated(blocks, files, name, was, ops[..4]);
    OneMoreOp(Blank(blocks, files), ops[..4], ops[4], ops);
    RecreatedReads(RunOps(Blank(blocks, files), ops[..4]), name, was, text);
  }

  /** Two files created on a blank disk have blocks 0 and 1. */
  lemma TwoFiles(blocks: nat, files: nat, a: string, b: string, ops: seq<Op>)
    requires 1 < blocks < LAST && files > 1 && Name(a) && Name(b) && a != b && ops == [CreateOp(a), CreateOp(b)]
    ensures forall op :: op in ops ==> op.Accepted()
    ensures AllGuarded(Blank(blocks, files), ops)
    ensures var d := RunOps(Blank(blocks, files), ops);
      && d.Valid() && |d.dir| > 1 && d.dir[0] == FileEnt(a, 0, 0) && d.dir[1] == FileEnt(b, 1, 0)
      && (forall i :: 1 < i < |d.dir| ==> d.dir[i].name == "")
      && |d.fat| > 1 && d.fat[0] == LAST == d.fat[1] && BlockEnd(d.data[0]) == 0 == BlockEnd(d.data[1])
  {
    var d0 := Blank(blocks, files);
    OneMoreOp(d0, [], ops[0], ops[..1]);
    OneMoreOp(d0, ops[..1], ops[1], ops);
    CreateFirst(d0, a);
    BlankEnd();
    var d1 := RunOps(d0, ops[..1]);
    assert Find(d1.dir, "") == 1 && FirstFree(d1.fat) == 1;
    assert Find(d1.dir, b) == |d1.dir|;
  }

  /** A file and an empty block behind it, in which another file has left bytes. */
  lemma StaleBehindFirst(blocks: nat, files: nat, a: string, b: string, was: string, ops: seq<Op>)
    requires 1 < blocks < LAST && files > 1 && Name(a) && Name(b) && a != b && IsText(was) && 0 < |was| <= BLOCK_SIZE
    requires ops == [CreateOp(a), CreateOp(b), WriteOp(b, was), DeleteOp(b)]
    ensures forall op :: op in ops ==> op.Accepted()
    ensures AllGuarded(Blank(blocks, files), ops)
    ensures var d := RunOps(Blank(blocks, files), ops);
      && |d.dir| > 1 && d.dir[0] == FileEnt(a, 0, 0) && |d.fat| > 1 && d.fat[0] == LAST && d.fat[1] == FREE
      && BlockEnd(d.data[0]) == 0 && BlockEnd(d.data[1]) == |was|
  {
    var d0 := Blank(blocks, files);
    TwoFiles(blocks, files, a, b, ops[..2]);
    OneMoreOp(d0, ops[..2], ops[2], ops[..3]);
    OneMoreOp(d0, ops[..3], ops[3], ops);
    SecondFileGone(RunOps(d0, ops[..2]), b, was);
  }

  lemma SecondFileGone(d: Disk, name: string, was: string)
    requires d.Valid() && Name(name) && IsText(was) && 0 < |was| <= BLOCK_SIZE
    requires |d.dir| > 1 && d.dir[0].name != name && d.dir[1] == FileEnt(name, 1, 0)
    requires |d.fat| > 1 && d.fat[1] == LAST && BlockEnd(d.data[1]) == 0
    ensures var w := Write(d, name, was).0; w.Valid() && Guarded(d, WriteOp(name, was))
    ensures var e := Delete(Write(d, name, was).0, name).0;
      && e.fat == d.fat[1 := FREE] && |e.dir| == |d.dir| && e.dir[0] == d.dir[0]
      && |e.data| == |d.data| && e.data[0] == d.data[0] && BlockEnd(e.data[1]) == |was|
  {
    assert Find(d.dir, name) == 1;
    var w := Put(d, 1, 1, was);
    FilledEnd(d.data[1], was, |was|);
    assert Write(d, name, was).0 == w && Find(w.dir, name) == 1;
    var after := d.fat[1 := FREE];
    assert Unlinked(d.fat, 1, |d.fat| + 1) == Unlinked(after, LAST, |d.fat|) == after;
  }

  /** An empty file whose block is empty, and a text that is not read back from it: the next free block holds bytes. */
  lemma EmptyBlockIsNotEnough(blocks: nat, files: nat, a: string, b: string, was: string, ops: seq<Op>)
    returns (d: Disk, text: string)
    requires 1 < blocks < LAST && files > 1 && Name(a) && Name(b) && a != b && IsText(was) && 0 < |was| < BLOCK_SIZE
    requires ops == [CreateOp(a), CreateOp(b), WriteOp(b, was), DeleteOp(b)]
    ensures forall op :: op in ops ==> op.Accepted()
    ensures d == RunOps(Blank(blocks, files), ops) && d.dir != [] && d.dir[0] == FileEnt(a, 0, 0)
    ensures |d.fat| == |d.data| > 0 && d.fat[0] != FREE && BlockEnd(d.data[0]) == 0 && IsText(text)
    ensures var w := WriteFrom(d, 0, 0, text); w.disk.dir != [] && Content(w.disk, 0) != text[..w.count]
  {
    StaleBehindFirst(blocks, files, a, b, was, ops);
    d := RunOps(Blank(blocks, files), ops);
    BlankIsStructured(blocks, files);
    var chains := RunsStayStructured(Blank(blocks, files), seq(files, _ => []), ops);
    assert MayFill(d.fat, 0, 0, 1) && NotAfter(0, 1, 1) && !ReadsBack(d, 0);
    EmptyFileReadsBackIff(d, chains, 0);
    text :| IsText(text) && var w := WriteFrom(d, 0, 0, text); Content(w.disk, 0) != text[..w.count];
  }

  // ---- a lost tail --------------------------------------------------------

  /** The disk after a text of two blocks has been written to the first file. */
  lemma TwoBlocks(blocks: nat, files: nat, name: string, text: string, ops: seq<Op>)
    requires 2 < blocks < LAST && files > 0 && Name(name) && IsText(text) && BLOCK_SIZE < |text| <= 2 * BLOCK_SIZE
    requires ops == [CreateOp(name), WriteOp(name, text)]
    ensures forall op :: op in ops ==> op.Accepted()
    ensures AllGuarded(Blank(blocks, files), ops) && AllFrugal(Blank(blocks, files), ops) && AllAppending(Blank(blocks, files), ops)
    ensures var d := RunOps(Blank(blocks, files), ops);
      && d.dir != [] && d.dir[0] == FileEnt(name, 0, |text|)
      && |d.fat| > 2 && d.fat[0] == 1 && d.fat[1] == END && d.fat[2] == FREE
  {
    var d0 := Blank(blocks, files);
    OneMoreOp(d0, [], ops[0], ops[..1]);
    OneMoreOp(d0, ops[..1], ops[1], ops);
    CreateFirst(d0, name);
    BlankEnd();
    var d1 := RunOps(d0, ops[..1]);
    assert Find(d1.dir, name) == 0 && FirstFree(d1.fat) == 1;
    WriteTwoBlocks(d1, 0, 0, 1, text);
  }

  /** Writing to a file of two blocks loses its tail, and leaks its second block. */
  lemma RewritingLosesAndLeaks(blocks: nat, files: nat, name: string, text: string, more: string, ops: seq<Op>)
    returns (d: Disk, w: Written, chains: seq<seq<int>>)
    requires 2 < blocks < LAST && files > 0 && Name(name) && IsText(text) && BLOCK_SIZE < |text| <= 2 * BLOCK_SIZE
    requires IsText(more) && more != "" && ops == [CreateOp(name), WriteOp(name, text)]
    ensures forall op :: op in ops ==> op.Accepted()
    ensures d == RunOps(Blank(blocks, files), ops) && d.Valid() && d.dir != [] && d.dir[0].name == name
    ensures w == WriteFrom(d, 0, d.dir[0].start, more) && Write(d, name, more).0 == w.disk
    ensures Content(w.disk, 0) != Content(d, 0) + more[..w.count]
    ensures Structured(d, chains) && Accounted(d, chains)
    ensures !Accounted(w.disk, ChainsAfterWrite(d, chains, 0, more))
  {
    TwoBlocks(blocks, files, name, text, ops);
    d := RunOps(Blank(blocks, files), ops);
    w := WriteFrom(d, 0, d.dir[0].start, more);
    assert Find(d.dir, name) == 0;
    var tidy := RunsStayClean(blocks, files, ops);
    assert TidyFile(d, tidy, 0);
    WriteIsFaithfulIff(d, tidy, 0, more);
    BlankIsStructured(blocks, files);
    NoChainsNoBlocks(files);
    chains := RunsStayAccounted(Blank(blocks, files), seq(files, _ => []), ops);
    WriteAccountsIff(d, chains, 0, more);
  }

  // ---- growth through block 0 ---------------------------------------------

  /** Deleting the file in block 0 leaves the other one in block 1. */
  lemma BlockZeroFreed(blocks: nat, files: nat, a: string, b: string, ops: seq<Op>)
    requires 1 < blocks < LAST && files > 1 && Name(a) && Name(b) && a != b
    requires ops == [CreateOp(a), CreateOp(b), DeleteOp(a)]
    ensures forall op :: op in ops ==> op.Accepted()
    ensures AllGuarded(Blank(blocks, files), ops)
    ensures var d := RunOps(Blank(blocks, files), ops);
      && |d.dir| > 1 && d.dir[0].name == "" && d.dir[1] == FileEnt(b, 1, 0)
      && d.fat[0] == FREE && d.fat[1] == LAST && BlockEnd(d.data[0]) == 0 == BlockEnd(d.data[1])
      && forall i :: 0 <= i < |d.dir| && i != 1 ==> d.dir[i].name == ""
  {
    var d0 := Blank(blocks, files);
    TwoFiles(blocks, files, a, b, ops[..2]);
    OneMoreOp(d0, ops[..2], ops[2], ops);
    DeleteSmall(RunOps(d0, ops[..2]), a);
  }

  /** The write that follows links through block 0; the file's own block then counts as free, and the next file gets it too. */
  lemma BlockGivenTwice(blocks: nat, files: nat, a: string, b: string, c: string, text: string, ops: seq<Op>)
    returns (d: Disk, w: Written, chains: seq<seq<int>>)
    requires 1 < blocks < LAST && files > 1 && Name(a) && Name(b) && Name(c) && a != b && b != c
    requires IsText(text) && BLOCK_SIZE < |text| <= 2 * BLOCK_SIZE && ops == [CreateOp(a), CreateOp(b), DeleteOp(a)]
    ensures forall op :: op in ops ==> op.Accepted()
    ensures d == RunOps(Blank(blocks, files), ops) && d.Valid() && Structured(d, chains) && |d.dir| > 1
    ensures d.dir[1].name == b && w == WriteFrom(d, 1, d.dir[1].start, text) && Write(d, b, text).0 == w.disk
    ensures !IsChain(w.disk.fat, d.dir[1].start, [d.dir[1].start] + w.blocks)
    ensures var e := Create(w.disk, c).0;
      |e.dir| > 1 && e.dir[0].name == c && e.dir[1].name == b && e.dir[0].start == e.dir[1].start
  {
    BlockZeroFreed(blocks, files, a, b, ops);
    d := RunOps(Blank(blocks, files), ops);
    w := WriteFrom(d, 1, d.dir[1].start, text);
    BlankIsStructured(blocks, files);
    chains := RunsStayStructured(Blank(blocks, files), seq(files, _ => []), ops);
    GrowthIsSoundIff(d, chains, 1, text);
    assert Find(d.dir, b) == 1;
    WriteTwoBlocks(d, 1, 1, 0, text);
    assert Find(w.disk.dir, c) == |w.disk.dir| && Find(w.disk.dir, "") == 0 && FirstFree(w.disk.fat) == 1;
  }
}
