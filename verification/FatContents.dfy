/** What reading a file prints, through every command. */
module FatContents {
  import opened Sets
  import opened Fat
  import opened FatStructure

  // ---- non-interference ---------------------------------------------------

  /** Reading a chain depends on the FAT entries and bytes of its own blocks only. */
  lemma {:induction false} ReadDepends(d: Disk, e: Disk, start: int, c: seq<int>, size: int)
    requires |e.fat| == |d.fat| == |d.data| == |e.data| < LAST && IsChain(d.fat, start, c)
    requires forall b :: b in c ==> 0 <= b < |d.fat| && e.fat[b] == d.fat[b] && e.data[b] == d.data[b]
    ensures ReadFrom(e, start, size) == ReadFrom(d, start, size)
    decreases |c|
  {
    assert start in c;
    if size > |d.data[start]| && d.data[start] != "" && |c| > 1 {
      ChainTail(d.fat, start, c);
      ReadDepends(d, e, c[1], c[1..], size - |d.data[start]|);
    }
  }

  lemma {:induction false} FindStays(dir: seq<FileEnt>, i: nat, x: FileEnt, name: string)
    requires i < |dir| && dir[i].name != name && x.name != name
    ensures Find(dir[i := x], name) == Find(dir, name)
  {
    if i == 0 {
      assert dir[i := x][1..] == dir[1..];
    } else if dir[0].name != name {
      assert dir[i := x][1..] == dir[1..][i - 1 := x];
      FindStays(dir[1..], i - 1, x, name);
    }
  }

  /** Every block a write takes was free, or is the starting block after it was linked to block 0. */
  lemma {:induction false} WriteTakesFree(d: Disk, i: nat, block: nat, text: string, b: int)
    requires i < |d.dir| && block < |d.fat| == |d.data| && b in WriteFrom(d, i, block, text).blocks
    ensures 0 <= b < |d.fat| && (d.fat[b] == FREE || b == block)
    decreases Room(d.fat)
  {
    var n, next := Fits(d.data[block], text), FirstFree(d.fat);
    LinkTakesRoom(d.fat, block);
    var e := Put(d, i, block, text).(fat := Link(d.fat, block, next));
    if b != next {
      WriteTakesFree(e, i, next, text[n..], b);
    }
  }

  lemma WriteLeavesOthers(d: Disk, chains: seq<seq<int>>, i: nat, text: string, name: string)
    requires Structured(d, chains) && i < |d.dir| && Live(d, i)
    requires name != "" && name != d.dir[i].name
    ensures Read(WriteFrom(d, i, d.dir[i].start, text).disk, name) == Read(d, name)
  {
    var start, j := d.dir[i].start, Find(d.dir, name);
    var w := WriteFrom(d, i, start, text);
    WriteDir(d, i, start, text);
    FindStays(d.dir, i, w.disk.dir[i], name);
    if j < |d.dir| {
      assert Owns(d, i, chains[i]) && Owns(d, j, chains[j]);
      ChainsApart(d, chains, i);
      forall b | b in chains[j]
        ensures 0 <= b < |d.fat| && w.disk.fat[b] == d.fat[b] && w.disk.data[b] == d.data[b]
      {
        assert start in chains[i] && d.fat[b] != FREE;
        if b in w.blocks {
          WriteTakesFree(d, i, start, text, b);
        }
        WriteTouches(d, i, start, text, b);
      }
      ReadDepends(d, w.disk, d.dir[j].start, chains[j], d.dir[j].size);
    }
  }

  lemma CreateLeavesOthers(d: Disk, chains: seq<seq<int>>, n: string, name: string)
    requires Structured(d, chains) && n != "" && name != "" && name != n && Create(d, n).1 == 0
    ensures Read(Create(d, n).0, name) == Read(d, name)
  {
    var e, j := Create(d, n).0, Find(d.dir, name);
    FindStays(d.dir, Find(d.dir, ""), FileEnt(n, FirstFree(d.fat), 0), name);
    if j < |d.dir| {
      assert Owns(d, j, chains[j]);
      ReadDepends(d, e, d.dir[j].start, chains[j], d.dir[j].size);
    }
  }

  lemma DeleteLeavesOthers(d: Disk, chains: seq<seq<int>>, n: string, name: string)
    requires Structured(d, chains) && n != "" && name != "" && name != n && Find(d.dir, n) < |d.dir|
    ensures Read(Delete(d, n).0, name) == Read(d, name)
  {
    var e, i, j := Delete(d, n).0, Find(d.dir, n), Find(d.dir, name);
    FindStays(d.dir, i, FileEnt("", -1, 0), name);
    if j < |d.dir| {
      DeleteFreesTheChain(d, chains, n);
      DeleteSpares(d, chains, i, j);
      ReadDepends(d, e, d.dir[j].start, chains[j], d.dir[j].size);
    }
  }

  /** A command leaves what every other file prints unchanged. */
  lemma OthersUnchanged(d: Disk, chains: seq<seq<int>>, op: Op, name: string)
    requires Structured(d, chains) && op.Accepted() && name != "" && name != op.name
    ensures Read(Apply(d, op), name) == Read(d, name)
  {
    match op
    case ReadOp(_) =>
    case CreateOp(n) =>
      if Create(d, n).1 == 0 {
        CreateLeavesOthers(d, chains, n, name);
      }
    case WriteOp(n, text) =>
      if Find(d.dir, n) < |d.dir| {
        WriteLeavesOthers(d, chains, Find(d.dir, n), text, name);
      }
    case DeleteOp(n) =>
      if Find(d.dir, n) < |d.dir| {
        DeleteLeavesOthers(d, chains, n, name);
      }
  }

  // ---- accounting ---------------------------------------------------------

  function UsedBlocks(fat: seq<int>): set<int> {
    set b | 0 <= b < |fat| && fat[b] != FREE
  }

  function AllBlocks(chains: seq<seq<int>>): set<int> {
    if chains == [] then {} else AllBlocks(chains[..|chains| - 1]) + Elements(chains[|chains| - 1])
  }

  function TotalLength(chains: seq<seq<int>>): nat {
    if chains == [] then 0 else TotalLength(chains[..|chains| - 1]) + |chains[|chains| - 1]|
  }

  lemma {:induction false} InAllBlocks(chains: seq<seq<int>>, b: int)
    ensures b in AllBlocks(chains) <==> exists i :: 0 <= i < |chains| && b in chains[i]
  {
    if chains != [] {
      var n := |chains| - 1;
      InAllBlocks(chains[..n], b);
      assert forall i :: 0 <= i < n ==> chains[..n][i] == chains[i];
      if b in AllBlocks(chains[..n]) {
        var i :| 0 <= i < n && b in chains[..n][i];
        assert b in chains[i];
      }
      if i :| 0 <= i < |chains| && b in chains[i] {
        assert i < n ==> b in chains[..n][i];
      }
    }
  }

  lemma {:induction false} ElementsSize(c: seq<int>)
    requires NoRepeats(c)
    ensures |Elements(c)| == |c|
  {
    if c != [] {
      var n := |c| - 1;
      ElementsSize(c[..n]);
      assert Elements(c) == Elements(c[..n]) + {c[n]};
      assert c[n] !in c[..n];
    }
  }

  lemma {:induction false} AllBlocksSize(chains: seq<seq<int>>)
    requires forall i :: 0 <= i < |chains| ==> NoRepeats(chains[i])
    requires forall i, j :: 0 <= i < j < |chains| ==> Disjoint(chains[i], chains[j])
    ensures |AllBlocks(chains)| == TotalLength(chains)
  {
    if chains != [] {
      var n := |chains| - 1;
      AllBlocksSize(chains[..n]);
      ElementsSize(chains[n]);
      forall b | b in AllBlocks(chains[..n])
        ensures b !in chains[n]
      {
        InAllBlocks(chains[..n], b);
        var i :| 0 <= i < n && b in chains[..n][i];
        assert Disjoint(chains[i], chains[n]);
      }
    }
  }

  /** Every used block belongs to a live file: nothing has leaked. */
  ghost predicate Accounted(d: Disk, chains: seq<seq<int>>) {
    UsedBlocks(d.fat) == AllBlocks(chains)
  }

  /** With nothing leaked, the used blocks number the sum of the chain lengths. */
  lemma UsedIsSum(d: Disk, chains: seq<seq<int>>)
    requires Structured(d, chains) && Accounted(d, chains)
    ensures |UsedBlocks(d.fat)| == TotalLength(chains)
  {
    forall i | 0 <= i < |chains|
      ensures NoRepeats(chains[i])
    {
      assert Live(d, i) ==> Owns(d, i, chains[i]);
    }
    forall i, j | 0 <= i < j < |chains|
      ensures Disjoint(chains[i], chains[j])
    {
      assert !Live(d, i) ==> chains[i] == [];
      assert !Live(d, j) ==> chains[j] == [];
    }
    AllBlocksSize(chains);
  }

  lemma ReplacedBlocks(chains: seq<seq<int>>, i: nat, c: seq<int>)
    requires i < |chains|
    requires forall j :: 0 <= j < |chains| && j != i ==> Disjoint(chains[i], chains[j])
    ensures AllBlocks(chains[i := c]) == AllBlocks(chains) - Elements(chains[i]) + Elements(c)
  {
    var after := chains[i := c];
    forall b
      ensures b in AllBlocks(after) <==> b in AllBlocks(chains) - Elements(chains[i]) + Elements(c)
    {
      InAllBlocks(chains, b);
      InAllBlocks(after, b);
      if b in AllBlocks(after) {
        var j :| 0 <= j < |after| && b in after[j];
        assert j != i ==> b in chains[j] && Disjoint(chains[i], chains[j]);
      }
      if b in AllBlocks(chains) && b !in chains[i] {
        var j :| 0 <= j < |chains| && b in chains[j];
        assert b in after[j];
      }
      if b in c {
        assert b in after[i];
      }
    }
  }

  lemma ChainsApart(d: Disk, chains: seq<seq<int>>, i: nat)
    requires Structured(d, chains) && i < |d.dir|
    ensures forall j :: 0 <= j < |chains| && j != i ==> Disjoint(chains[i], chains[j])
  {
    forall j | 0 <= j < |chains| && j != i
      ensures Disjoint(chains[i], chains[j])
    {
      assert !Live(d, i) ==> chains[i] == [];
      assert !Live(d, j) ==> chains[j] == [];
      if Live(d, i) && Live(d, j) {
        assert if i < j then Disjoint(chains[i], chains[j]) else Disjoint(chains[j], chains[i]);
      }
    }
  }

  lemma CreateAccounts(d: Disk, chains: seq<seq<int>>, name: string)
    requires Structured(d, chains) && Accounted(d, chains) && name != "" && Create(d, name).1 == 0
    ensures Accounted(Create(d, name).0, chains[Find(d.dir, "") := [FirstFree(d.fat)]])
  {
    var i, j: int := Find(d.dir, ""), FirstFree(d.fat);
    ChainsApart(d, chains, i);
    ReplacedBlocks(chains, i, [j]);
    assert chains[i] == [];
    assert Elements(chains[i]) == {} && Elements([j]) == {j};
    assert UsedBlocks(Create(d, name).0.fat) == UsedBlocks(d.fat) + {j};
  }

  lemma DeleteAccounts(d: Disk, chains: seq<seq<int>>, name: string)
    requires Structured(d, chains) && Accounted(d, chains) && name != "" && Find(d.dir, name) < |d.dir|
    ensures Accounted(Delete(d, name).0, chains[Find(d.dir, name) := []])
  {
    var i := Find(d.dir, name);
    ChainsApart(d, chains, i);
    ReplacedBlocks(chains, i, []);
    assert Elements([]) == {};
    DeleteFreesTheChain(d, chains, name);
    assert UsedBlocks(Freed(d.fat, chains[i])) == UsedBlocks(d.fat) - Elements(chains[i]);
  }

  /** The used blocks after a write are those before it and those it took. */
  lemma WriteUses(d: Disk, i: nat, start: nat, text: string)
    requires i < |d.dir| && start < |d.fat| == |d.data| && d.fat[start] != FREE && d.fat[0] != FREE
    requires WriteFrom(d, i, start, text).blocks != []
    ensures var w := WriteFrom(d, i, start, text); UsedBlocks(w.disk.fat) == UsedBlocks(d.fat) + Elements(w.blocks)
  {
    var w := WriteFrom(d, i, start, text);
    WriteTakes(d, i, start, text);
    WrittenChain(d, i, start, text, w.blocks);
    var all := [start] + w.blocks;
    forall b | 0 <= b < |d.fat|
      ensures w.disk.fat[b] != FREE <==> d.fat[b] != FREE || b in w.blocks
    {
      if b == start || b in w.blocks {
        assert b in all;
        var k :| 0 <= k < |all| && all[k] == b;
        assert w.disk.fat[all[k]] != FREE;
      } else {
        WriteTouches(d, i, start, text, b);
      }
    }
  }

  /** The file's first block is its last. */
  predicate OneBlock(d: Disk, i: nat)
    requires i < |d.dir| && 0 <= d.dir[i].start < |d.fat|
  {
    d.fat[d.dir[i].start] == LAST || d.fat[d.dir[i].start] == END
  }

  lemma OneBlockIff(d: Disk, chains: seq<seq<int>>, i: nat)
    requires Structured(d, chains) && i < |d.dir| && Live(d, i)
    ensures OneBlock(d, i) <==> |chains[i]| == 1
  {
    assert Owns(d, i, chains[i]);
    if |chains[i]| > 1 {
      ChainTail(d.fat, d.dir[i].start, chains[i]);
    }
  }

  lemma GrowthAccounts(d: Disk, chains: seq<seq<int>>, i: nat, text: string, w: Written)
    requires Structured(d, chains) && Accounted(d, chains) && i < |d.dir| && Live(d, i) && IsText(text)
    requires SafeWrite(d, i, text) && w == WriteFrom(d, i, d.dir[i].start, text) && w.blocks != []
    ensures Accounted(w.disk, ChainsAfterWrite(d, chains, i, text)) <==> |chains[i]| == 1
  {
    var start := d.dir[i].start;
    assert Owns(d, i, chains[i]);
    ChainsApart(d, chains, i);
    ReplacedBlocks(chains, i, [start] + w.blocks);
    WriteUses(d, i, start, text);
    WriteTakes(d, i, start, text);
    assert Elements([start] + w.blocks) == {start} + Elements(w.blocks);
    if |chains[i]| == 1 {
      assert chains[i] == [start];
      assert Elements(chains[i]) == {start};
    } else {
      Leaked(d, chains, i, w);
    }
  }

  /**
   * A write leaks nothing if and only if it takes no block, because its text fits
   * or the disk is full, or the file has just one.
   */
  lemma WriteAccountsIff(d: Disk, chains: seq<seq<int>>, i: nat, text: string)
    requires Structured(d, chains) && Accounted(d, chains) && i < |d.dir| && Live(d, i) && IsText(text)
    requires SafeWrite(d, i, text)
    ensures Accounted(WriteFrom(d, i, d.dir[i].start, text).disk, ChainsAfterWrite(d, chains, i, text)) <==>
            Fits(d.data[d.dir[i].start], text) == |text| || FirstFree(d.fat) == |d.fat| || OneBlock(d, i)
  {
    var w := WriteFrom(d, i, d.dir[i].start, text);
    OneBlockIff(d, chains, i);
    if w.blocks == [] {
      WriteInPlace(d, i, d.dir[i].start, text);
    } else {
      GrowthAccounts(d, chains, i, text, w);
    }
  }

  /** The second block of a rewritten chain stays used but belongs to no file any more. */
  lemma Leaked(d: Disk, chains: seq<seq<int>>, i: nat, w: Written)
    requires Structured(d, chains) && i < |d.dir| && Live(d, i) && |chains[i]| > 1
    requires FreshBlocks(d.fat, w.blocks) && UsedBlocks(w.disk.fat) == UsedBlocks(d.fat) + Elements(w.blocks)
    ensures var after := AllBlocks(chains) - Elements(chains[i]) + ({d.dir[i].start} + Elements(w.blocks));
      UsedBlocks(w.disk.fat) != after
  {
    var c := chains[i];
    assert Owns(d, i, c);
    var b := c[1];
    assert b in UsedBlocks(d.fat) && b in Elements(c) && b != c[0];
    assert b !in w.blocks;
  }

  /** A write that leaks nothing, as a caller can tell beforehand. */
  predicate Frugal(d: Disk, op: Op) {
    op.WriteOp? && op.name != "" && Find(d.dir, op.name) < |d.dir| ==>
      var i := Find(d.dir, op.name);
      0 <= d.dir[i].start < |d.fat| && |d.fat| == |d.data| &&
      (Fits(d.data[d.dir[i].start], op.text) == |op.text| || FirstFree(d.fat) == |d.fat| || OneBlock(d, i))
  }

  predicate AllFrugal(d: Disk, ops: seq<Op>)
    requires d.Valid() && forall op :: op in ops ==> op.Accepted()
  {
    ops == [] || (AllFrugal(d, ops[..|ops| - 1]) && Frugal(RunOps(d, ops[..|ops| - 1]), ops[|ops| - 1]))
  }

  lemma ApplyAccounts(d: Disk, chains: seq<seq<int>>, op: Op) returns (after: seq<seq<int>>)
    requires Structured(d, chains) && Accounted(d, chains) && op.Accepted() && Guarded(d, op) && Frugal(d, op)
    ensures Structured(Apply(d, op), after) && Accounted(Apply(d, op), after)
  {
    after := chains;
    match op
    case CreateOp(name) =>
      if Create(d, name).1 == 0 {
        CreateKeeps(d, chains, name);
        CreateAccounts(d, chains, name);
        after := chains[Find(d.dir, "") := [FirstFree(d.fat)]];
      }
    case WriteOp(name, text) =>
      var i := Find(d.dir, name);
      if i < |d.dir| {
        WriteKeeps(d, chains, name, text);
        WriteAccountsIff(d, chains, i, text);
        after := ChainsAfterWrite(d, chains, i, text);
      }
    case ReadOp(name) =>
    case DeleteOp(name) =>
      if Find(d.dir, name) < |d.dir| {
        DeleteKeeps(d, chains, name);
        DeleteAccounts(d, chains, name);
        after := chains[Find(d.dir, name) := []];
      }
  }

  lemma {:induction false} RunsStayAccounted(d: Disk, chains: seq<seq<int>>, ops: seq<Op>) returns (after: seq<seq<int>>)
    requires Structured(d, chains) && Accounted(d, chains) && (forall op :: op in ops ==> op.Accepted())
    requires AllGuarded(d, ops) && AllFrugal(d, ops)
    ensures Structured(RunOps(d, ops), after) && Accounted(RunOps(d, ops), after)
    ensures |UsedBlocks(RunOps(d, ops).fat)| == TotalLength(after)
  {
    if ops == [] {
      after := chains;
    } else {
      var n := |ops| - 1;
      assert ops[n] in ops;
      var before := RunsStayAccounted(d, chains, ops[..n]);
      after := ApplyAccounts(RunOps(d, ops[..n]), before, ops[n]);
    }
    UsedIsSum(RunOps(d, ops), after);
  }

  lemma {:induction false} NoChainsNoBlocks(files: nat)
    ensures AllBlocks(seq(files, _ => [])) == {}
  {
    var none: seq<seq<int>> := seq(files, _ => []);
    forall b
      ensures b !in AllBlocks(none)
    {
      InAllBlocks(none, b);
    }
  }

  /** From a blank disk, guarded and frugal runs use exactly the blocks of the live files. */
  lemma EveryRunIsAccounted(blocks: nat, files: nat, ops: seq<Op>) returns (chains: seq<seq<int>>)
    requires 0 < blocks < LAST && (forall op :: op in ops ==> op.Accepted())
    requires AllGuarded(Blank(blocks, files), ops) && AllFrugal(Blank(blocks, files), ops)
    ensures var d := RunOps(Blank(blocks, files), ops);
      Structured(d, chains) && |UsedBlocks(d.fat)| == TotalLength(chains)
  {
    BlankIsStructured(blocks, files);
    NoChainsNoBlocks(files);
    chains := RunsStayAccounted(Blank(blocks, files), seq(files, _ => []), ops);
  }
}
