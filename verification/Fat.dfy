/**
 * The file system on values: a FAT, a directory and a data area, and what each
 * command makes of them.
 */
module Fat {
  import opened Sets

  const FREE := 0           // FAT entry of an unused block
  const END := -1           // FAT entry of the last block of a chain that has grown
  const LAST := 0xFFFF      // FAT entry of the only block of a file that has not
  const NUL := '\0'

  type Size = n: nat | n > 0 witness 32

  /** The program's is 32; nothing depends on that. */
  const BLOCK_SIZE: Size

  /** An entry with an empty name is unused. */
  datatype FileEnt = FileEnt(name: string, start: int, size: int)

  /** `data` is the data area cut into blocks. */
  datatype Disk = Disk(fat: seq<int>, dir: seq<FileEnt>, data: seq<string>)
  {
    /** The shape of the three areas; live entries start inside the disk. */
    ghost predicate Valid() {
      && 0 < |fat| == |data| < LAST
      && (forall b :: 0 <= b < |data| ==> |data[b]| == BLOCK_SIZE)
      && (forall i :: 0 <= i < |dir| && dir[i].name != "" ==> 0 <= dir[i].start < |fat| && dir[i].size >= 0)
    }
  }

  /** What the program accepts as a name, and as data: a non-empty string, and a string, without NUL. */
  predicate IsText(s: string) {
    NUL !in s
  }

  // ---- searches -----------------------------------------------------------

  /** The first entry with this name, or the number of entries. */
  function Find(dir: seq<FileEnt>, name: string): (i: nat)
    ensures i <= |dir|
    ensures i < |dir| ==> dir[i].name == name
    ensures forall j :: 0 <= j < i ==> dir[j].name != name
  {
    if dir == [] || dir[0].name == name then 0
    else
      var i := Find(dir[1..], name);
      assert forall j :: 0 < j < i + 1 ==> dir[j] == dir[1..][j - 1];
      i + 1
  }

  /** The first free block, or the number of blocks. */
  function FirstFree(fat: seq<int>): (j: nat)
    ensures j <= |fat|
    ensures j < |fat| ==> fat[j] == FREE
    ensures forall k :: 0 <= k < j ==> fat[k] != FREE
  {
    if fat == [] || fat[0] == FREE then 0
    else
      var j := FirstFree(fat[1..]);
      assert forall k :: 0 < k < j + 1 ==> fat[k] == fat[1..][k - 1];
      j + 1
  }

  /** One past the last byte of the block that is not NUL. */
  function BlockEnd(block: string): (k: nat)
    ensures k <= |block|
    ensures forall j :: k <= j < |block| ==> block[j] == NUL
    ensures k > 0 ==> block[k - 1] != NUL
  {
    if block == [] then 0
    else if block[|block| - 1] != NUL then |block|
    else BlockEnd(block[..|block| - 1])
  }

  // ---- create -------------------------------------------------------------

  function Create(d: Disk, name: string): (r: (Disk, int)) {
    var i, j := Find(d.dir, ""), FirstFree(d.fat);
    if Find(d.dir, name) < |d.dir| || i == |d.dir| || j == |d.fat| then (d, -1)
    else (d.(fat := d.fat[j := LAST], dir := d.dir[i := FileEnt(name, j, 0)]), 0)
  }

  // ---- write --------------------------------------------------------------

  function FreeBlocks(fat: seq<int>): set<int> {
    set b | 0 <= b < |fat| && fat[b] == FREE
  }

  /** Bounds the blocks one write can still take; a write that links to block 0 frees another block. */
  function Room(fat: seq<int>): nat {
    |FreeBlocks(fat)| + if fat != [] && fat[0] == FREE then 1 else 0
  }

  /** The FAT after `next` has been put behind `block`. */
  function Link(fat: seq<int>, block: nat, next: nat): seq<int>
    requires block < |fat| && next < |fat|
  {
    fat[block := next][next := END]
  }

  lemma LinkTakesRoom(fat: seq<int>, block: nat)
    requires block < |fat| && FirstFree(fat) < |fat|
    ensures Room(Link(fat, block, FirstFree(fat))) < Room(fat)
  {
    var next := FirstFree(fat);
    var after := Link(fat, block, next);
    var before: set<int> := FreeBlocks(fat);
    assert next in before;
    if next == 0 {
      LinkedBlocks(fat, block, next);
      var block': int := block;
      SubsetSize(FreeBlocks(after), before - {0} + {block'});
    } else {
      LinkedBlocks(fat, block, next);
      assert FreeBlocks(after) <= before - {next};
      SubsetSize(FreeBlocks(after), before - {next});
    }
  }

  lemma LinkedBlocks(fat: seq<int>, block: nat, next: nat)
    requires block < |fat| && next < |fat|
    ensures forall b :: b in FreeBlocks(Link(fat, block, next)) ==>
      b != next && (b in FreeBlocks(fat) || (b == block && next == FREE))
  {
  }

  /** A block after n bytes have been appended to its text. */
  function Filled(block: string, text: string, n: nat): (r: string)
    requires n <= |text| && BlockEnd(block) + n <= |block|
    ensures |r| == |block|
  {
    var k := BlockEnd(block);
    block[..k] + text[..n] + block[k + n..]
  }

  /** How much of the text fits into the block. */
  function Fits(block: string, text: string): (n: nat)
    ensures n <= |text| && BlockEnd(block) + n <= |block|
  {
    var space := |block| - BlockEnd(block);
    if |text| < space then |text| else space
  }

  /** A write: the disk after it, how many bytes went in, whether all did, and the blocks it took. */
  datatype Written = Written(disk: Disk, count: nat, ok: bool, blocks: seq<int>)

  /** Appends n bytes to the block and to the size of entry i. */
  function Put(d: Disk, i: nat, block: nat, text: string): Disk
    requires i < |d.dir| && block < |d.data|
  {
    var n := Fits(d.data[block], text);
    d.(data := d.data[block := Filled(d.data[block], text, n)],
       dir := d.dir[i := d.dir[i].(size := d.dir[i].size + n)])
  }

  function WriteFrom(d: Disk, i: nat, block: nat, text: string): (w: Written)
    requires i < |d.dir| && block < |d.fat| == |d.data|
    ensures |w.disk.fat| == |d.fat| && |w.disk.data| == |d.data| && |w.disk.dir| == |d.dir| && w.count <= |text|
    decreases Room(d.fat)
  {
    if text == "" then Written(d, 0, true, [])
    else
      var n := Fits(d.data[block], text);
      var put := Put(d, i, block, text);
      var next := FirstFree(d.fat);
      if n == |text| then Written(put, n, true, [])
      else if next == |d.fat| then Written(put, n, false, [])
      else
        LinkTakesRoom(d.fat, block);
        var w := WriteFrom(put.(fat := Link(d.fat, block, next)), i, next, text[n..]);
        Written(w.disk, n + w.count, w.ok, [next] + w.blocks)
  }

  function Write(d: Disk, name: string, text: string): (r: (Disk, int))
    requires d.Valid() && name != ""
  {
    var i := Find(d.dir, name);
    if i == |d.dir| then (d, -1)
    else
      var w := WriteFrom(d, i, d.dir[i].start, text);
      (w.disk, if w.ok then 0 else -1)
  }

  // ---- read ---------------------------------------------------------------

  /** What following the chain from `block` prints, up to `size` bytes. */
  function ReadFrom(d: Disk, block: int, size: int): string
    decreases size
  {
    if size <= 0 || !(0 <= block < |d.fat| && block < |d.data|) then ""
    else if size <= |d.data[block]| then d.data[block][..size]
    else if d.data[block] == "" then ""
    else d.data[block] + ReadFrom(d, d.fat[block], size - |d.data[block]|)
  }

  /** While there is something left to print, following the chain stays in the table. */
  predicate Readable(d: Disk, block: int, size: int)
    decreases size
  {
    size > 0 && block != END ==> 0 <= block < |d.fat| && Readable(d, d.fat[block], size - BLOCK_SIZE)
  }

  function Content(d: Disk, i: nat): string
    requires i < |d.dir|
  {
    ReadFrom(d, d.dir[i].start, d.dir[i].size)
  }

  datatype Output = NotFound | Text(text: string)

  function Read(d: Disk, name: string): Output
    requires name != ""
  {
    var i := Find(d.dir, name);
    if i == |d.dir| then NotFound else Text(Content(d, i))
  }

  // ---- delete -------------------------------------------------------------

  /** Freeing block after block, each link being read before its block is freed, at most n of them. */
  function Unlinked(fat: seq<int>, block: int, n: nat): (r: seq<int>)
    ensures |r| == |fat|
    decreases n
  {
    if n == 0 || !(0 <= block < |fat|) then fat else Unlinked(fat[block := FREE], fat[block], n - 1)
  }

  /** That comes to an end of the chain within n blocks, and does not leave the table before. */
  predicate Ends(fat: seq<int>, block: int, n: nat)
    decreases n
  {
    block == END || block == LAST || (n > 0 && 0 <= block < |fat| && Ends(fat[block := FREE], fat[block], n - 1))
  }

  function Freed(fat: seq<int>, chain: seq<int>): seq<int> {
    seq(|fat|, b requires 0 <= b < |fat| => if b in chain then FREE else fat[b])
  }

  function Delete(d: Disk, name: string): (r: (Disk, int))
    requires name != ""
  {
    var i := Find(d.dir, name);
    if i == |d.dir| then (d, -1)
    else
      (d.(fat := Unlinked(d.fat, d.dir[i].start, |d.fat| + 1), dir := d.dir[i := FileEnt("", -1, 0)]), 0)
  }

  // ---- codes --------------------------------------------------------------

  predicate HasFile(d: Disk, name: string) {
    exists i :: 0 <= i < |d.dir| && d.dir[i].name == name
  }

  /** Creating fails if the name is taken, no entry is unused or no block is free, and then changes nothing. */
  lemma CreateCode(d: Disk, name: string)
    requires name != ""
    ensures var r := Create(d, name);
      if !HasFile(d, name) && HasFile(d, "") && FREE in d.fat then
        r.1 == 0 && exists i: nat, b: nat :: NewFile(d, name, i, b, r.0)
      else r == (d, -1)
  {
    FindHas(d, name);
    FindHas(d, "");
    if Create(d, name).1 == 0 {
      assert NewFile(d, name, Find(d.dir, ""), FirstFree(d.fat), Create(d, name).0);
    }
  }

  /** The first unused entry and the first free block have become a file of size 0. */
  ghost predicate NewFile(d: Disk, name: string, i: nat, b: nat, e: Disk) {
    && i < |d.dir| && d.dir[i].name == "" && (forall k :: 0 <= k < i ==> d.dir[k].name != "")
    && b < |d.fat| && d.fat[b] == FREE && (forall k :: 0 <= k < b ==> d.fat[k] != FREE)
    && e == Disk(d.fat[b := LAST], d.dir[i := FileEnt(name, b, 0)], d.data)
  }

  lemma FindHas(d: Disk, name: string)
    ensures HasFile(d, name) <==> Find(d.dir, name) < |d.dir|
  {
  }

  /** The size of the file grows by the count; nothing else in the directory changes. */
  lemma {:induction false} WriteDir(d: Disk, i: nat, block: nat, text: string)
    requires i < |d.dir| && block < |d.fat| == |d.data|
    ensures var w := WriteFrom(d, i, block, text);
      w.disk.dir == d.dir[i := d.dir[i].(size := d.dir[i].size + w.count)]
    ensures var w := WriteFrom(d, i, block, text); w.ok <==> w.count == |text|
    decreases Room(d.fat)
  {
    var next := FirstFree(d.fat);
    if text != "" && Fits(d.data[block], text) < |text| && next < |d.fat| {
      var n := Fits(d.data[block], text);
      var e := Put(d, i, block, text).(fat := Link(d.fat, block, next));
      LinkTakesRoom(d.fat, block);
      WriteDir(e, i, next, text[n..]);
      GrowsTwice(d.dir, i, n, WriteFrom(e, i, next, text[n..]).count);
    }
  }

  function Grow(dir: seq<FileEnt>, i: nat, n: int): seq<FileEnt>
    requires i < |dir|
  {
    dir[i := dir[i].(size := dir[i].size + n)]
  }

  lemma GrowsTwice(dir: seq<FileEnt>, i: nat, n: int, m: int)
    requires i < |dir|
    ensures Grow(Grow(dir, i, n), i, m) == Grow(dir, i, n + m)
  {
  }

  /** Writing succeeds if the file exists and has grown by the whole text. */
  lemma WriteCode(d: Disk, name: string, text: string)
    requires d.Valid() && name != ""
    ensures var r := Write(d, name, text);
      if HasFile(d, name) then
        |r.0.dir| == |d.dir| && exists i: nat :: IsFile(d, name, i) && r.1 == if HasGrown(d, r.0, i, |text|) then 0 else -1
      else r == (d, -1)
  {
    FindHas(d, name);
    var i := Find(d.dir, name);
    if i < |d.dir| {
      WriteDir(d, i, d.dir[i].start, text);
      assert IsFile(d, name, i);
    }
  }

  /** The first entry with this name. */
  predicate IsFile(d: Disk, name: string, i: nat) {
    i < |d.dir| && d.dir[i].name == name && forall k :: 0 <= k < i ==> d.dir[k].name != name
  }

  predicate HasGrown(d: Disk, e: Disk, i: nat, n: nat)
    requires i < |d.dir| == |e.dir|
  {
    e.dir[i].size == d.dir[i].size + n
  }

  /** Deleting succeeds if the file exists, and clears its entry; the bytes stay. */
  lemma DeleteCode(d: Disk, name: string)
    requires name != ""
    ensures var r := Delete(d, name);
      if HasFile(d, name) then
        r.1 == 0 && r.0.data == d.data && exists i: nat :: IsFile(d, name, i) && r.0.dir == d.dir[i := FileEnt("", -1, 0)]
      else r == (d, -1)
  {
    FindHas(d, name);
    if HasFile(d, name) {
      assert IsFile(d, name, Find(d.dir, name));
    }
  }

  lemma ReadFinds(d: Disk, name: string)
    requires name != ""
    ensures Read(d, name) == NotFound <==> !HasFile(d, name)
  {
    FindHas(d, name);
  }

  // ---- commands -----------------------------------------------------------

  datatype Op = CreateOp(name: string) | WriteOp(name: string, text: string) | ReadOp(name: string) | DeleteOp(name: string)
  {
    predicate Accepted() {
      name != "" && IsText(name) && (WriteOp? ==> IsText(text))
    }
  }

  function Apply(d: Disk, op: Op): Disk
    requires d.Valid() && op.Accepted()
  {
    match op
    case CreateOp(name) => Create(d, name).0
    case WriteOp(name, text) => Write(d, name, text).0
    case ReadOp(name) => d
    case DeleteOp(name) => Delete(d, name).0
  }

  /** Appending text moves the end of a block by as many bytes. */
  lemma FilledEnd(block: string, text: string, n: nat)
    requires n <= |text| && BlockEnd(block) + n <= |block| && IsText(text)
    ensures BlockEnd(Filled(block, text, n)) == BlockEnd(block) + n
  {
    var after, k := Filled(block, text, n), BlockEnd(block);
    forall j | k + n <= j < |block|
      ensures after[j] == NUL
    {
      assert after[j] == block[k + n..][j - k - n] == block[j];
    }
    if n > 0 {
      assert after[k + n - 1] == text[..n][n - 1] == text[n - 1];
    }
    EndIs(after, k + n);
  }

  lemma {:induction false} EndIs(block: string, k: nat)
    requires k <= |block| && (forall j :: k <= j < |block| ==> block[j] == NUL) && (k > 0 ==> block[k - 1] != NUL)
    ensures BlockEnd(block) == k
  {
    if k < |block| {
      EndIs(block[..|block| - 1], k);
    }
  }

  /** No command changes the shape of the disk. */
  lemma ApplyValid(d: Disk, op: Op)
    requires d.Valid() && op.Accepted()
    ensures Apply(d, op).Valid()
  {
    if op.WriteOp? && Find(d.dir, op.name) < |d.dir| {
      WriteValid(d, Find(d.dir, op.name), d.dir[Find(d.dir, op.name)].start, op.text);
    }
  }

  lemma {:induction false} WriteValid(d: Disk, i: nat, block: nat, text: string)
    requires d.Valid() && i < |d.dir| && d.dir[i].name != "" && block < |d.fat|
    ensures WriteFrom(d, i, block, text).disk.Valid()
    decreases Room(d.fat)
  {
    var next := FirstFree(d.fat);
    if text != "" && Fits(d.data[block], text) < |text| && next < |d.fat| {
      LinkTakesRoom(d.fat, block);
      WriteValid(Put(d, i, block, text).(fat := Link(d.fat, block, next)), i, next, text[Fits(d.data[block], text)..]);
    }
  }

  /** The disk after a sequence of commands. */
  function RunOps(d: Disk, ops: seq<Op>): (r: Disk)
    requires d.Valid() && forall op :: op in ops ==> op.Accepted()
    ensures r.Valid()
  {
    if ops == [] then d
    else
      var before := RunOps(d, ops[..|ops| - 1]);
      ApplyValid(before, ops[|ops| - 1]);
      Apply(before, ops[|ops| - 1])
  }

  /** The disk the program starts from when it finds no saved state: all zero bytes. */
  function Blank(blocks: nat, files: nat): Disk {
    Disk(seq(blocks, _ => FREE), seq(files, _ => FileEnt("", 0, 0)), seq(blocks, _ => seq(BLOCK_SIZE, _ => NUL)))
  }
}
