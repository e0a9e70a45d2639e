/** Which blocks belong to which file, and what every command keeps of that. */
module FatStructure {
  import opened Sets
  import opened Fat

  predicate InRange(fat: seq<int>, c: seq<int>) {
    forall k :: 0 <= k < |c| ==> 0 <= c[k] < |fat|
  }

  /** Each block of `c` but the last points to the next. */
  predicate Linked(fat: seq<int>, c: seq<int>)
    requires InRange(fat, c)
  {
    forall k :: 0 <= k < |c| - 1 ==> fat[c[k]] == c[k + 1]
  }

  /** `c` is the chain that begins at `start`: distinct used blocks, linked in order, properly ended. */
  predicate IsChain(fat: seq<int>, start: int, c: seq<int>) {
    && c != [] && c[0] == start
    && NoRepeats(c) && InRange(fat, c) && Linked(fat, c)
    && (forall k :: 0 <= k < |c| ==> fat[c[k]] != FREE)
    && (fat[c[|c| - 1]] == END || fat[c[|c| - 1]] == LAST)
  }

  predicate Live(d: Disk, i: nat)
    requires i < |d.dir|
  {
    d.dir[i].name != ""
  }

  /** File i owns chain `c`; a chain still ended by LAST has one block, and the file's bytes fit before its text ends. */
  predicate Owns(d: Disk, i: nat, c: seq<int>)
    requires i < |d.dir| && |d.fat| == |d.data|
  {
    && IsChain(d.fat, d.dir[i].start, c)
    && (d.fat[c[|c| - 1]] == LAST ==> |c| == 1 && d.dir[i].size <= BlockEnd(d.data[c[0]]))
  }

  predicate Disjoint(a: seq<int>, b: seq<int>) {
    forall x :: x in a ==> x !in b
  }

  /** Unused entries own nothing; live files have distinct names and disjoint chains. */
  ghost predicate Structured(d: Disk, chains: seq<seq<int>>) {
    && d.Valid() && |chains| == |d.dir|
    && (forall i :: 0 <= i < |d.dir| ==> if Live(d, i) then Owns(d, i, chains[i]) else chains[i] == [])
    && (forall i, j :: 0 <= i < j < |d.dir| && Live(d, i) && Live(d, j) ==>
          d.dir[i].name != d.dir[j].name && Disjoint(chains[i], chains[j]))
  }

  // ---- chains -------------------------------------------------------------

  /** A chain only depends on the FAT entries of its own blocks. */
  lemma ChainStays(fat: seq<int>, after: seq<int>, start: int, c: seq<int>)
    requires IsChain(fat, start, c) && |after| == |fat|
    requires forall k :: 0 <= k < |c| ==> after[c[k]] == fat[c[k]]
    ensures IsChain(after, start, c)
  {
  }

  lemma ChainTail(fat: seq<int>, start: int, c: seq<int>)
    requires IsChain(fat, start, c) && |c| > 1
    ensures IsChain(fat, c[1], c[1..]) && fat[start] == c[1]
  {
  }

  /** A link to block 0 reads as "free", so no chain has block 0 behind another block. */
  lemma NoChainThroughZero(fat: seq<int>, start: int, c: seq<int>)
    requires |c| > 1 && c[1] == 0
    ensures !IsChain(fat, start, c)
  {
    if IsChain(fat, start, c) {
      ChainTail(fat, start, c);
    }
  }

  lemma {:induction false} UnlinkedChain(fat: seq<int>, start: int, c: seq<int>, n: nat)
    requires |fat| < LAST && IsChain(fat, start, c) && |c| <= n
    ensures Ends(fat, start, n) && Unlinked(fat, start, n) == Freed(fat, c)
    decreases n
  {
    var after := fat[start := FREE];
    assert fat[c[0]] == if |c| > 1 then c[1] else fat[c[|c| - 1]];
    if |c| > 1 {
      ChainTail(fat, start, c);
      assert start !in c[1..];
      ChainStays(fat, after, c[1], c[1..]);
      UnlinkedChain(after, c[1], c[1..], n - 1);
      assert c == [start] + c[1..];
    } else {
      assert c == [start];
    }
  }

  /** Reading a structured disk stays in its table. */
  lemma {:induction false} ChainIsReadable(d: Disk, start: int, c: seq<int>, size: int)
    requires d.Valid() && IsChain(d.fat, start, c)
    requires d.fat[c[|c| - 1]] == LAST ==> |c| == 1 && size <= BLOCK_SIZE
    ensures Readable(d, start, size)
    decreases |c|
  {
    if |c| > 1 {
      ChainTail(d.fat, start, c);
      ChainIsReadable(d, c[1], c[1..], size - BLOCK_SIZE);
    }
  }

  /** On a structured disk every file can be read and deleted. */
  lemma StructuredIsUsable(d: Disk, chains: seq<seq<int>>, i: nat)
    requires Structured(d, chains) && i < |d.dir| && Live(d, i)
    ensures Readable(d, d.dir[i].start, d.dir[i].size) && Ends(d.fat, d.dir[i].start, |d.fat| + 1)
  {
    assert Owns(d, i, chains[i]);
    DistinctSize(chains[i], Range(|d.fat|));
    UnlinkedChain(d.fat, d.dir[i].start, chains[i], |d.fat| + 1);
    ChainIsReadable(d, d.dir[i].start, chains[i], d.dir[i].size);
  }

  // ---- when deleting ends -------------------------------------------------

  lemma {:induction false} EndsLater(fat: seq<int>, block: int, n: nat, m: nat)
    requires Ends(fat, block, n) && n <= m
    ensures Ends(fat, block, m)
    decreases n
  {
    if block != END && block != LAST {
      EndsLater(fat[block := FREE], fat[block], n - 1, m - 1);
    }
  }

  /** A free block 0 leads to itself. */
  lemma {:induction false} NeverEnds(fat: seq<int>, n: nat)
    requires fat != [] && fat[0] == FREE
    ensures !Ends(fat, 0, n)
    decreases n
  {
    if n > 0 {
      assert fat[0 := FREE] == fat;
      NeverEnds(fat, n - 1);
    }
  }

  /** The blocks still to be freed, and one more for a free block that leads to block 0. */
  function Steps(fat: seq<int>, block: int): int {
    |fat| - |FreeBlocks(fat)| + if fat != [] && fat[0] != FREE && block != 0 then 1 else 0
  }

  /** If deleting ends at all, it does so within one step more than there are blocks. */
  lemma {:induction false} EndsInTime(fat: seq<int>, block: int, n: nat)
    requires fat != [] && Ends(fat, block, n)
    ensures 0 <= Steps(fat, block) <= |fat| + 1 && Ends(fat, block, Steps(fat, block))
    decreases n
  {
    SubsetSize(FreeBlocks(fat), Range(|fat|));
    if block != END && block != LAST {
      var after := fat[block := FREE];
      EndsInTime(after, fat[block], n - 1);
      if fat[block] == FREE {
        assert after == fat;
        if fat[0] == FREE {
          NeverEnds(fat, n - 1);
        }
      } else {
        assert FreeBlocks(after) == FreeBlocks(fat) + {block};
      }
      EndsLater(after, fat[block], Steps(after, fat[block]), Steps(fat, block) - 1);
    }
  }

  // ---- create -------------------------------------------------------------

  lemma CreateKeeps(d: Disk, chains: seq<seq<int>>, name: string)
    requires Structured(d, chains) && name != "" && Create(d, name).1 == 0
    ensures Structured(Create(d, name).0, chains[Find(d.dir, "") := [FirstFree(d.fat)]])
  {
    var i, j := Find(d.dir, ""), FirstFree(d.fat);
    var e := Create(d, name).0;
    forall k | 0 <= k < |d.dir| && k != i && Live(d, k)
      ensures Owns(e, k, chains[k]) && j !in chains[k]
    {
      ChainStays(d.fat, e.fat, d.dir[k].start, chains[k]);
    }
  }

  // ---- write --------------------------------------------------------------

  /** Distinct blocks that are free. */
  predicate FreshBlocks(fat: seq<int>, c: seq<int>) {
    NoRepeats(c) && InRange(fat, c) && forall k :: 0 <= k < |c| ==> fat[c[k]] == FREE
  }

  lemma MoreFreshBlocks(fat: seq<int>, block: nat, next: nat, c: seq<int>)
    requires block < |fat| && next < |fat| && fat[next] == FREE && fat[block] != FREE && next != 0
    requires FreshBlocks(Link(fat, block, next), c)
    ensures FreshBlocks(fat, [next] + c)
  {
    var after := Link(fat, block, next);
    forall k | 0 <= k < |c|
      ensures fat[c[k]] == FREE && c[k] != next
    {
      assert after[c[k]] == FREE;
    }
  }

  /** The blocks a write takes were free, and are taken once. */
  lemma {:induction false} WriteTakes(d: Disk, i: nat, block: nat, text: string)
    requires i < |d.dir| && block < |d.fat| == |d.data| && d.fat[0] != FREE && d.fat[block] != FREE
    ensures FreshBlocks(d.fat, WriteFrom(d, i, block, text).blocks)
    decreases Room(d.fat)
  {
    var next := FirstFree(d.fat);
    if text != "" && Fits(d.data[block], text) < |text| && next < |d.fat| {
      LinkTakesRoom(d.fat, block);
      var e := Put(d, i, block, text).(fat := Link(d.fat, block, next));
      var rest := text[Fits(d.data[block], text)..];
      WriteTakes(e, i, next, rest);
      MoreFreshBlocks(d.fat, block, next, WriteFrom(e, i, next, rest).blocks);
    }
  }

  /** A write touches its starting block and the blocks it takes, and no others. */
  lemma {:induction false} WriteTouches(d: Disk, i: nat, block: nat, text: string, b: nat)
    requires i < |d.dir| && block < |d.fat| == |d.data| && b < |d.fat|
    requires b != block && b !in WriteFrom(d, i, block, text).blocks
    ensures var w := WriteFrom(d, i, block, text); w.disk.fat[b] == d.fat[b] && w.disk.data[b] == d.data[b]
    decreases Room(d.fat)
  {
    var next := FirstFree(d.fat);
    if text != "" && Fits(d.data[block], text) < |text| && next < |d.fat| {
      LinkTakesRoom(d.fat, block);
      WriteTouches(Put(d, i, block, text).(fat := Link(d.fat, block, next)), i, next,
                   text[Fits(d.data[block], text)..], b);
    }
  }

  /** The blocks a write took are linked behind its starting block, and the last one ends the chain. */
  predicate LinkedBehind(before: seq<int>, after: seq<int>, block: nat, blocks: seq<int>)
    requires block < |before| == |after|
  {
    if blocks == [] then after == before
    else InRange(before, blocks) && Linked(after, [block] + blocks) && after[blocks[|blocks| - 1]] == END
  }

  lemma {:induction false} WriteLinks(d: Disk, i: nat, block: nat, text: string)
    requires i < |d.dir| && block < |d.fat| == |d.data| && d.fat[0] != FREE && d.fat[block] != FREE
    ensures var w := WriteFrom(d, i, block, text); LinkedBehind(d.fat, w.disk.fat, block, w.blocks)
    decreases Room(d.fat)
  {
    var next := FirstFree(d.fat);
    if text != "" && Fits(d.data[block], text) < |text| && next < |d.fat| {
      LinkTakesRoom(d.fat, block);
      var e := Put(d, i, block, text).(fat := Link(d.fat, block, next));
      var rest := text[Fits(d.data[block], text)..];
      WriteLinks(e, i, next, rest);
      WriteTakes(e, i, next, rest);
      var w := WriteFrom(e, i, next, rest);
      WriteTouches(e, i, next, rest, block);
      LinkFirst(d.fat, block, next, w.disk.fat, w.blocks);
    }
  }

  lemma LinkFirst(fat: seq<int>, block: nat, next: nat, after: seq<int>, blocks: seq<int>)
    requires block < |fat| == |after| && next < |fat| && block != next && after[block] == next
    requires LinkedBehind(Link(fat, block, next), after, next, blocks)
    ensures LinkedBehind(fat, after, block, [next] + blocks)
  {
  }

  /** What a write does to its own chain. */
  lemma WrittenChain(d: Disk, i: nat, start: nat, text: string, c: seq<int>)
    requires i < |d.dir| && start < |d.fat| == |d.data| && d.fat[start] != FREE && d.fat[0] != FREE
    requires c == WriteFrom(d, i, start, text).blocks && c != []
    ensures IsChain(WriteFrom(d, i, start, text).disk.fat, start, [start] + c)
    ensures WriteFrom(d, i, start, text).disk.fat[c[|c| - 1]] == END
  {
    var after := WriteFrom(d, i, start, text).disk.fat;
    WriteTakes(d, i, start, text);
    WriteLinks(d, i, start, text);
    var all := [start] + c;
    forall k | 0 <= k < |all|
      ensures after[all[k]] != FREE
    {
      if k < |c| {
        assert after[all[k]] == all[k + 1] == c[k];
      }
    }
  }

  /** Without new blocks the FAT stays, and the text ends up in the starting block. */
  lemma WriteInPlace(d: Disk, i: nat, start: nat, text: string)
    requires i < |d.dir| && start < |d.fat| == |d.data| && IsText(text)
    requires WriteFrom(d, i, start, text).blocks == []
    ensures var w := WriteFrom(d, i, start, text);
      w.disk.fat == d.fat && BlockEnd(w.disk.data[start]) == BlockEnd(d.data[start]) + w.count
  {
    if text != "" {
      FilledEnd(d.data[start], text, Fits(d.data[start], text));
    }
  }

  /** The caller-visible condition under which a write keeps the structure: block 0 is in use, or the text fits. */
  predicate SafeWrite(d: Disk, i: nat, text: string)
    requires i < |d.dir| && 0 <= d.dir[i].start < |d.fat| == |d.data|
  {
    d.fat[0] != FREE || Fits(d.data[d.dir[i].start], text) == |text|
  }

  function ChainsAfterWrite(d: Disk, chains: seq<seq<int>>, i: nat, text: string): seq<seq<int>>
    requires i < |d.dir| == |chains| && 0 <= d.dir[i].start < |d.fat| == |d.data|
  {
    var w := WriteFrom(d, i, d.dir[i].start, text);
    if w.blocks == [] then chains else chains[i := [d.dir[i].start] + w.blocks]
  }

  lemma WriteOwnChain(d: Disk, chains: seq<seq<int>>, i: nat, text: string)
    requires Structured(d, chains) && i < |d.dir| && Live(d, i) && IsText(text) && SafeWrite(d, i, text)
    ensures Owns(WriteFrom(d, i, d.dir[i].start, text).disk, i, ChainsAfterWrite(d, chains, i, text)[i])
  {
    var start := d.dir[i].start;
    var w := WriteFrom(d, i, start, text);
    assert Owns(d, i, chains[i]);
    WriteDir(d, i, start, text);
    if w.blocks == [] {
      WriteInPlace(d, i, start, text);
    } else {
      WrittenChain(d, i, start, text, w.blocks);
    }
  }

  /** Nothing a write touches belongs to another file. */
  lemma WriteSpares(d: Disk, chains: seq<seq<int>>, i: nat, text: string, j: nat)
    requires Structured(d, chains) && i < |d.dir| && Live(d, i) && SafeWrite(d, i, text)
    requires j < |d.dir| && j != i && Live(d, j)
    ensures var w := WriteFrom(d, i, d.dir[i].start, text);
      && (forall b :: b in chains[j] ==> 0 <= b < |d.fat| && w.disk.fat[b] == d.fat[b] && w.disk.data[b] == d.data[b])
      && Disjoint(ChainsAfterWrite(d, chains, i, text)[i], chains[j])
      && Disjoint(chains[j], ChainsAfterWrite(d, chains, i, text)[i])
      && w.disk.dir[j] == d.dir[j]
  {
    var start := d.dir[i].start;
    var w := WriteFrom(d, i, start, text);
    assert Owns(d, i, chains[i]) && Owns(d, j, chains[j]);
    assert start in chains[i];
    assert Disjoint(chains[i], chains[j]) && Disjoint(chains[j], chains[i]);
    WriteDir(d, i, start, text);
    if w.blocks != [] {
      WriteTakes(d, i, start, text);
    }
    forall b | b in chains[j]
      ensures 0 <= b < |d.fat| && w.disk.fat[b] == d.fat[b] && w.disk.data[b] == d.data[b]
      ensures b != start && b !in w.blocks
    {
      assert d.fat[b] != FREE;
      WriteTouches(d, i, start, text, b);
    }
  }

  /** Replacing one file's chain, and nothing else, keeps the structure. */
  lemma ReplaceChain(d: Disk, chains: seq<seq<int>>, e: Disk, i: nat, c: seq<int>)
    requires Structured(d, chains) && e.Valid() && i < |d.dir| == |e.dir| && Live(d, i)
    requires e.dir[i].name == d.dir[i].name && Owns(e, i, c)
    requires forall j :: 0 <= j < |d.dir| && j != i ==> Undisturbed(d, chains, e, j, c)
    ensures Structured(e, chains[i := c])
  {
    forall a, b | 0 <= a < b < |e.dir| && Live(e, a) && Live(e, b)
      ensures Disjoint(chains[i := c][a], chains[i := c][b]) && e.dir[a].name != e.dir[b].name
    {
      assert a != i ==> Undisturbed(d, chains, e, a, c);
      assert b != i ==> Undisturbed(d, chains, e, b, c);
    }
    forall j | 0 <= j < |e.dir|
      ensures if Live(e, j) then Owns(e, j, chains[i := c][j]) else chains[i := c][j] == []
    {
      assert j != i ==> Undisturbed(d, chains, e, j, c);
    }
  }

  /** File j is as before, and the new chain c keeps away from it. */
  predicate Undisturbed(d: Disk, chains: seq<seq<int>>, e: Disk, j: nat, c: seq<int>)
    requires j < |d.dir| == |e.dir| == |chains| && |e.fat| == |e.data|
  {
    && e.dir[j] == d.dir[j]
    && (Live(d, j) ==> Owns(e, j, chains[j]) && Disjoint(c, chains[j]) && Disjoint(chains[j], c))
  }

  lemma WriteKeeps(d: Disk, chains: seq<seq<int>>, name: string, text: string)
    requires Structured(d, chains) && name != "" && IsText(text)
    requires var i := Find(d.dir, name); i < |d.dir| && SafeWrite(d, i, text)
    ensures Structured(Write(d, name, text).0, ChainsAfterWrite(d, chains, Find(d.dir, name), text))
  {
    var i := Find(d.dir, name);
    var w := WriteFrom(d, i, d.dir[i].start, text);
    var after := ChainsAfterWrite(d, chains, i, text);
    WriteValid(d, i, d.dir[i].start, text);
    WriteDir(d, i, d.dir[i].start, text);
    WriteOwnChain(d, chains, i, text);
    forall j | 0 <= j < |d.dir| && j != i
      ensures Undisturbed(d, chains, w.disk, j, after[i])
    {
      if Live(d, j) {
        WriteSpares(d, chains, i, text, j);
        assert Owns(d, j, chains[j]);
        ChainStays(d.fat, w.disk.fat, d.dir[j].start, chains[j]);
      }
    }
    ReplaceChain(d, chains, w.disk, i, after[i]);
    assert after == chains[i := after[i]];
  }

  // ---- delete -------------------------------------------------------------

  /** Deleting frees exactly the blocks of the deleted file's chain. */
  lemma DeleteFreesTheChain(d: Disk, chains: seq<seq<int>>, name: string)
    requires Structured(d, chains) && name != "" && Find(d.dir, name) < |d.dir|
    ensures Delete(d, name).0.fat == Freed(d.fat, chains[Find(d.dir, name)])
  {
    var i := Find(d.dir, name);
    assert Owns(d, i, chains[i]);
    DistinctSize(chains[i], Range(|d.fat|));
    UnlinkedChain(d.fat, d.dir[i].start, chains[i], |d.fat| + 1);
  }

  lemma DeleteKeeps(d: Disk, chains: seq<seq<int>>, name: string)
    requires Structured(d, chains) && name != "" && Find(d.dir, name) < |d.dir|
    ensures Structured(Delete(d, name).0, chains[Find(d.dir, name) := []])
  {
    var i := Find(d.dir, name);
    var e := Delete(d, name).0;
    DeleteFreesTheChain(d, chains, name);
    forall j | 0 <= j < |d.dir| && j != i && Live(d, j)
      ensures Owns(e, j, chains[j])
    {
      DeleteSpares(d, chains, i, j);
      ChainStays(d.fat, e.fat, d.dir[j].start, chains[j]);
    }
  }

  lemma DeleteSpares(d: Disk, chains: seq<seq<int>>, i: nat, j: nat)
    requires Structured(d, chains) && i < |d.dir| && Live(d, i)
    requires j < |d.dir| && j != i && Live(d, j)
    ensures Owns(d, j, chains[j])
    ensures forall k :: 0 <= k < |chains[j]| ==> Freed(d.fat, chains[i])[chains[j][k]] == d.fat[chains[j][k]]
  {
    assert Owns(d, j, chains[j]);
    assert Disjoint(chains[i], chains[j]);
    forall k | 0 <= k < |chains[j]|
      ensures chains[j][k] !in chains[i]
    {
      assert chains[j][k] in chains[j];
    }
  }

  // ---- runs ---------------------------------------------------------------

  /** A command a caller may give: a write that needs another block is given only while block 0 is in use. */
  predicate Guarded(d: Disk, op: Op) {
    op.WriteOp? && op.name != "" && Find(d.dir, op.name) < |d.dir| ==>
      var i := Find(d.dir, op.name);
      0 <= d.dir[i].start < |d.fat| && |d.fat| == |d.data| && SafeWrite(d, i, op.text)
  }

  predicate AllGuarded(d: Disk, ops: seq<Op>)
    requires d.Valid() && forall op :: op in ops ==> op.Accepted()
  {
    ops == [] ||
    (AllGuarded(d, ops[..|ops| - 1]) && Guarded(RunOps(d, ops[..|ops| - 1]), ops[|ops| - 1]))
  }

  lemma ApplyKeeps(d: Disk, chains: seq<seq<int>>, op: Op) returns (after: seq<seq<int>>)
    requires Structured(d, chains) && op.Accepted() && Guarded(d, op)
    ensures Structured(Apply(d, op), after)
  {
    after := chains;
    match op
    case CreateOp(name) =>
      if Create(d, name).1 == 0 {
        CreateKeeps(d, chains, name);
        after := chains[Find(d.dir, "") := [FirstFree(d.fat)]];
      }
    case WriteOp(name, text) =>
      if Find(d.dir, name) < |d.dir| {
        WriteKeeps(d, chains, name, text);
        after := ChainsAfterWrite(d, chains, Find(d.dir, name), text);
      }
    case ReadOp(name) =>
    case DeleteOp(name) =>
      if Find(d.dir, name) < |d.dir| {
        DeleteKeeps(d, chains, name);
        after := chains[Find(d.dir, name) := []];
      }
  }

  lemma {:induction false} RunsStayStructured(d: Disk, chains: seq<seq<int>>, ops: seq<Op>) returns (after: seq<seq<int>>)
    requires Structured(d, chains) && (forall op :: op in ops ==> op.Accepted()) && AllGuarded(d, ops)
    ensures Structured(RunOps(d, ops), after)
  {
    if ops == [] {
      after := chains;
    } else {
      var n := |ops| - 1;
      assert ops[n] in ops;
      var before := RunsStayStructured(d, chains, ops[..n]);
      after := ApplyKeeps(RunOps(d, ops[..n]), before, ops[n]);
    }
  }

  lemma BlankIsStructured(blocks: nat, files: nat)
    requires 0 < blocks < LAST
    ensures Structured(Blank(blocks, files), seq(files, _ => []))
  {
  }

  /** From a blank disk, every guarded run keeps distinct names and disjoint, properly ended chains. */
  lemma EveryRunIsStructured(blocks: nat, files: nat, ops: seq<Op>) returns (chains: seq<seq<int>>)
    requires 0 < blocks < LAST && (forall op :: op in ops ==> op.Accepted()) && AllGuarded(Blank(blocks, files), ops)
    ensures Structured(RunOps(Blank(blocks, files), ops), chains)
  {
    BlankIsStructured(blocks, files);
    chains := RunsStayStructured(Blank(blocks, files), seq(files, _ => []), ops);
  }

  /**
   * The guard is exact: when a write runs out of room in the starting block and
   * finds another one, the blocks it takes form a chain behind the starting
   * block if and only if block 0 was in use.
   */
  lemma GrowthIsSoundIff(d: Disk, chains: seq<seq<int>>, i: nat, text: string)
    requires Structured(d, chains) && i < |d.dir| && Live(d, i)
    requires Fits(d.data[d.dir[i].start], text) < |text| && FirstFree(d.fat) < |d.fat|
    ensures var w := WriteFrom(d, i, d.dir[i].start, text);
      IsChain(w.disk.fat, d.dir[i].start, [d.dir[i].start] + w.blocks) <==> d.fat[0] != FREE
  {
    var start := d.dir[i].start;
    var w := WriteFrom(d, i, start, text);
    assert Owns(d, i, chains[i]);
    if d.fat[0] != FREE {
      WrittenChain(d, i, start, text, w.blocks);
    } else {
      var c := [start] + w.blocks;
      assert c[1] == FirstFree(d.fat) == 0;
      NoChainThroughZero(w.disk.fat, start, c);
    }
  }
}
