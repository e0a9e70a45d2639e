/** Whole runs of commands: a file reads as what has been written to it. */
module FatLogs {
  import opened Sets
  import opened Fat
  import opened FatStructure
  import opened FatContents
  import opened FatRoundTrip

  // ---- careful commands ---------------------------------------------------

  /** What a write to a file of more than one block must not do is to take a block. */
  predicate SmallOrIdle(d: Disk, i: nat, text: string)
    requires i < |d.dir|
  {
    d.dir[i].size <= BLOCK_SIZE || text == "" || FirstFree(d.fat) == |d.fat|
  }

  /** The blocks that the command hands out are empty, and it neither links to block 0 nor rewrites a larger file. */
  predicate Careful(d: Disk, op: Op)
    requires d.Valid() && op.Accepted()
  {
    match op
    case CreateOp(name) => Create(d, name).1 == 0 ==> BlockEnd(d.data[FirstFree(d.fat)]) == 0
    case WriteOp(name, text) =>
      var i := Find(d.dir, name);
      i < |d.dir| ==> SafeWrite(d, i, text) && SmallOrIdle(d, i, text) && TakenEmpty(d, WriteFrom(d, i, d.dir[i].start, text))
    case ReadOp(_) => true
    case DeleteOp(_) => true
  }

  predicate AllCareful(d: Disk, ops: seq<Op>)
    requires d.Valid() && forall op :: op in ops ==> op.Accepted()
  {
    ops == [] || (AllCareful(d, ops[..|ops| - 1]) && Careful(RunOps(d, ops[..|ops| - 1]), ops[|ops| - 1]))
  }

  /** A file that a command does not name stays tidy. */
  lemma StaysTidy(d: Disk, chains: seq<seq<int>>, e: Disk, j: nat)
    requires Structured(d, chains) && j < |d.dir| == |e.dir| && Live(d, j) && TidyFile(d, chains, j)
    requires |e.fat| == |d.fat| == |d.data| == |e.data| && e.dir[j] == d.dir[j] && Owns(e, j, chains[j])
    requires forall b :: b in chains[j] ==> 0 <= b < |d.fat| && e.fat[b] == d.fat[b] && e.data[b] == d.data[b]
    ensures TidyFile(e, chains, j)
  {
    ReadDepends(d, e, d.dir[j].start, chains[j], d.dir[j].size);
  }

  lemma CreateStaysKept(d: Disk, chains: seq<seq<int>>, name: string)
    requires Kept(d, chains) && name != "" && Create(d, name).1 == 0 && BlockEnd(d.data[FirstFree(d.fat)]) == 0
    ensures Kept(Create(d, name).0, chains[Find(d.dir, "") := [FirstFree(d.fat)]])
  {
    var i, b := Find(d.dir, ""), FirstFree(d.fat);
    var e := Create(d, name).0;
    var after := chains[i := [b]];
    CreateKeeps(d, chains, name);
    forall j | 0 <= j < |d.dir| && Live(e, j)
      ensures TidyFile(e, after, j)
    {
      assert Owns(e, j, after[j]);
      if j != i {
        assert Owns(d, j, chains[j]) && TidyFile(d, chains, j);
        StaysTidy(d, chains, e, j);
      }
    }
  }

  lemma WriteStaysKept(d: Disk, chains: seq<seq<int>>, i: nat, name: string, text: string, w: Written)
    requires Kept(d, chains) && name != "" && i == Find(d.dir, name) < |d.dir| && IsText(text)
    requires w == WriteFrom(d, i, d.dir[i].start, text)
    requires SafeWrite(d, i, text) && SmallOrIdle(d, i, text) && TakenEmpty(d, w)
    ensures Kept(w.disk, ChainsAfterWrite(d, chains, i, text))
  {
    var start, after := d.dir[i].start, ChainsAfterWrite(d, chains, i, text);
    assert TidyFile(d, chains, i);
    if d.dir[i].size <= BLOCK_SIZE {
      AppendToSmall(d, chains, i, text, w);
    } else {
      NothingToDo(d, chains, i, text);
    }
    WriteKeeps(d, chains, name, text);
    forall j | 0 <= j < |d.dir| && j != i && Live(w.disk, j)
      ensures TidyFile(w.disk, after, j)
    {
      WriteDir(d, i, start, text);
      assert TidyFile(d, chains, j) && Owns(w.disk, j, after[j]);
      WriteSpares(d, chains, i, text, j);
      StaysTidy(d, chains, w.disk, j);
    }
  }

  lemma DeleteStaysKept(d: Disk, chains: seq<seq<int>>, name: string)
    requires Kept(d, chains) && name != "" && Find(d.dir, name) < |d.dir|
    ensures Kept(Delete(d, name).0, chains[Find(d.dir, name) := []])
  {
    var i := Find(d.dir, name);
    var e, after := Delete(d, name).0, chains[i := []];
    DeleteKeeps(d, chains, name);
    DeleteFreesTheChain(d, chains, name);
    forall j | 0 <= j < |d.dir| && Live(e, j)
      ensures TidyFile(e, after, j)
    {
      assert j != i && TidyFile(d, chains, j) && Owns(e, j, after[j]);
      DeleteSpares(d, chains, i, j);
      StaysTidy(d, chains, e, j);
    }
  }

  lemma ApplyStaysKept(d: Disk, chains: seq<seq<int>>, op: Op) returns (after: seq<seq<int>>)
    requires Kept(d, chains) && op.Accepted() && Careful(d, op)
    ensures Kept(Apply(d, op), after)
  {
    after := chains;
    match op
    case CreateOp(name) =>
      if Create(d, name).1 == 0 {
        CreateStaysKept(d, chains, name);
        after := chains[Find(d.dir, "") := [FirstFree(d.fat)]];
      }
    case WriteOp(name, text) =>
      var i := Find(d.dir, name);
      if i < |d.dir| {
        WriteStaysKept(d, chains, i, name, text, WriteFrom(d, i, d.dir[i].start, text));
        after := ChainsAfterWrite(d, chains, i, text);
      }
    case ReadOp(_) =>
    case DeleteOp(name) =>
      if Find(d.dir, name) < |d.dir| {
        DeleteStaysKept(d, chains, name);
        after := chains[Find(d.dir, name) := []];
      }
  }

  // ---- logs ---------------------------------------------------------------

  /** The bytes that one command puts into the named file. */
  function Accepted(d: Disk, op: Op, name: string): string
    requires d.Valid() && op.Accepted()
  {
    var i := Find(d.dir, name);
    if op.WriteOp? && op.name == name && i < |d.dir| then op.text[..WriteFrom(d, i, d.dir[i].start, op.text).count] else ""
  }

  /** What reading should print after one more command, if it should print `out` before. */
  function Expect(d: Disk, op: Op, name: string, out: Output): Output
    requires d.Valid() && op.Accepted()
  {
    if op.name != name then out
    else
      match op
      case CreateOp(_) => if Create(d, name).1 == 0 then Text("") else out
      case WriteOp(_, _) => if out == NotFound then out else Text(out.text + Accepted(d, op, name))
      case ReadOp(_) => out
      case DeleteOp(_) => NotFound
  }

  /** Nothing before the file is created, and then what has been written to it since, until it is deleted. */
  function Expected(d: Disk, ops: seq<Op>, name: string): Output
    requires d.Valid() && forall op :: op in ops ==> op.Accepted()
  {
    if ops == [] then NotFound
    else Expect(RunOps(d, ops[..|ops| - 1]), ops[|ops| - 1], name, Expected(d, ops[..|ops| - 1], name))
  }

  /** What reading prints is the log. */
  predicate AsLogged(out: Output, log: string) {
    match out
    case NotFound => log == ""
    case Text(s) => s == log
  }

  lemma ApplyReads(d: Disk, chains: seq<seq<int>>, op: Op, name: string)
    requires Kept(d, chains) && op.Accepted() && Careful(d, op) && name != ""
    ensures Read(Apply(d, op), name) == Expect(d, op, name, Read(d, name))
  {
    if name != op.name {
      OthersUnchanged(d, chains, op, name);
    } else {
      match op
      case ReadOp(_) =>
      case CreateOp(n) =>
        if Create(d, n).1 == 0 {
          FindNew(d.dir, Find(d.dir, ""), FileEnt(n, FirstFree(d.fat), 0));
        }
      case WriteOp(n, text) =>
        if Find(d.dir, n) < |d.dir| {
          WriteReads(d, chains, Find(d.dir, n), text, WriteFrom(d, Find(d.dir, n), d.dir[Find(d.dir, n)].start, text));
        }
      case DeleteOp(n) =>
        if Find(d.dir, n) < |d.dir| {
          FindGone(d, chains, Find(d.dir, n));
        }
    }
  }

  lemma WriteReads(d: Disk, chains: seq<seq<int>>, i: nat, text: string, w: Written)
    requires Kept(d, chains) && i < |d.dir| && Live(d, i) && i == Find(d.dir, d.dir[i].name) && IsText(text)
    requires w == WriteFrom(d, i, d.dir[i].start, text)
    requires SafeWrite(d, i, text) && SmallOrIdle(d, i, text) && TakenEmpty(d, w)
    ensures Read(w.disk, d.dir[i].name) == Text(Content(d, i) + text[..w.count])
  {
    WriteDir(d, i, d.dir[i].start, text);
    FindSame(d.dir, i, d.dir[i].(size := d.dir[i].size + w.count));
    if d.dir[i].size <= BLOCK_SIZE {
      AppendToSmall(d, chains, i, text, w);
    } else {
      NothingToDo(d, chains, i, text);
    }
  }

  lemma {:induction false} FindNew(dir: seq<FileEnt>, i: nat, x: FileEnt)
    requires i < |dir| && Find(dir, x.name) == |dir|
    ensures Find(dir[i := x], x.name) == i
  {
    if i > 0 {
      assert dir[i := x][1..] == dir[1..][i - 1 := x];
      FindNew(dir[1..], i - 1, x);
    }
  }

  lemma {:induction false} FindSame(dir: seq<FileEnt>, i: nat, x: FileEnt)
    requires i < |dir| && Find(dir, x.name) == i
    ensures Find(dir[i := x], x.name) == i
  {
    if i > 0 {
      assert dir[i := x][1..] == dir[1..][i - 1 := x];
      FindSame(dir[1..], i - 1, x);
    }
  }

  /** As names are distinct, a deleted one is not found any more. */
  lemma FindGone(d: Disk, chains: seq<seq<int>>, i: nat)
    requires Structured(d, chains) && i < |d.dir| && Live(d, i) && i == Find(d.dir, d.dir[i].name)
    ensures Find(d.dir[i := FileEnt("", -1, 0)], d.dir[i].name) == |d.dir|
  {
    var after := d.dir[i := FileEnt("", -1, 0)];
    forall j | 0 <= j < |d.dir|
      ensures after[j].name != d.dir[i].name
    {
      assert j > i && Live(d, j) ==> d.dir[i].name != d.dir[j].name;
    }
  }

  // ---- runs with deletes --------------------------------------------------

  lemma BlankIsKept(blocks: nat, files: nat)
    requires 0 < blocks < LAST
    ensures Kept(Blank(blocks, files), seq(files, _ => []))
    ensures FreeBlocksEmpty(Blank(blocks, files)) && forall i :: 0 <= i < files ==> !Live(Blank(blocks, files), i)
  {
    BlankIsStructured(blocks, files);
    EndIs(seq(BLOCK_SIZE, _ => NUL), 0);
  }

  lemma {:induction false} RunsStayKept(blocks: nat, files: nat, ops: seq<Op>) returns (chains: seq<seq<int>>)
    requires 0 < blocks < LAST && (forall op :: op in ops ==> op.Accepted()) && AllCareful(Blank(blocks, files), ops)
    ensures Kept(RunOps(Blank(blocks, files), ops), chains)
  {
    if ops == [] {
      BlankIsKept(blocks, files);
      chains := seq(files, _ => []);
    } else {
      var n := |ops| - 1;
      assert ops[n] in ops;
      var before := RunsStayKept(blocks, files, ops[..n]);
      chains := ApplyStaysKept(RunOps(Blank(blocks, files), ops[..n]), before, ops[n]);
    }
  }

  /**
   * The round trip with deletes: from a blank disk, in every careful run, a file
   * is found if it has been created and not deleted, and reads as everything
   * written to it since it was created.
   */
  lemma {:induction false} ReadsWhatWasWrittenSince(blocks: nat, files: nat, ops: seq<Op>, name: string)
    requires 0 < blocks < LAST && (forall op :: op in ops ==> op.Accepted()) && AllCareful(Blank(blocks, files), ops)
    requires name != ""
    ensures Read(RunOps(Blank(blocks, files), ops), name) == Expected(Blank(blocks, files), ops, name)
  {
    var d := Blank(blocks, files);
    if ops == [] {
      assert forall j :: 0 <= j < files ==> d.dir[j].name == "";
    } else {
      var n := |ops| - 1;
      assert ops[n] in ops;
      ReadsWhatWasWrittenSince(blocks, files, ops[..n], name);
      var chains := RunsStayKept(blocks, files, ops[..n]);
      ApplyReads(RunOps(d, ops[..n]), chains, ops[n], name);
    }
  }

  // ---- runs without deletes -----------------------------------------------

  /** No deletes; a file that fills more than a block is written again only with nothing, or when nothing is free. */
  predicate Appending(d: Disk, op: Op) {
    !op.DeleteOp? && (op.WriteOp? && Find(d.dir, op.name) < |d.dir| ==> SmallOrIdle(d, Find(d.dir, op.name), op.text))
  }

  predicate AllAppending(d: Disk, ops: seq<Op>)
    requires d.Valid() && forall op :: op in ops ==> op.Accepted()
  {
    ops == [] || (AllAppending(d, ops[..|ops| - 1]) && Appending(RunOps(d, ops[..|ops| - 1]), ops[|ops| - 1]))
  }

  /** Everything that has been written to the named file. */
  function Logged(d: Disk, ops: seq<Op>, name: string): string
    requires d.Valid() && forall op :: op in ops ==> op.Accepted()
  {
    if ops == [] then ""
    else
      Logged(d, ops[..|ops| - 1], name) + Accepted(RunOps(d, ops[..|ops| - 1]), ops[|ops| - 1], name)
  }

  lemma AppendingIsCareful(d: Disk, chains: seq<seq<int>>, op: Op)
    requires Clean(d, chains) && op.Accepted() && Appending(d, op)
    ensures Careful(d, op)
  {
    if op.WriteOp? && Find(d.dir, op.name) < |d.dir| {
      var i := Find(d.dir, op.name);
      assert Live(d, i) && TidyFile(d, chains, i);
      CleanTakesEmpty(d, i, d.dir[i].start, op.text);
    }
  }

  /** What a write takes or touches was empty, so blocks that stay free stay empty. */
  lemma WriteLeavesFreeEmpty(d: Disk, i: nat, start: nat, text: string)
    requires Shaped(d) && i < |d.dir| && start < |d.fat| && FreeBlocksEmpty(d)
    requires d.fat[0] != FREE && d.fat[start] != FREE && IsText(text)
    ensures var w := WriteFrom(d, i, start, text); FreeBlocksEmpty(w.disk) && w.disk.fat[0] != FREE
  {
    var w := WriteFrom(d, i, start, text);
    if w.blocks == [] {
      WriteInPlace(d, i, start, text);
    } else {
      WriteUses(d, i, start, text);
    }
    forall b | 0 <= b < |d.fat| && (b == 0 || w.disk.fat[b] == FREE)
      ensures w.disk.fat[b] == FREE ==> BlockEnd(w.disk.data[b]) == 0
      ensures b == 0 ==> w.disk.fat[b] != FREE
    {
      assert w.blocks != [] ==> (b in UsedBlocks(w.disk.fat) <==> b in UsedBlocks(d.fat) || b in Elements(w.blocks));
      if b != start && b !in w.blocks {
        WriteTouches(d, i, start, text, b);
      }
    }
  }

  lemma ApplyStaysClean(d: Disk, chains: seq<seq<int>>, op: Op) returns (after: seq<seq<int>>)
    requires Clean(d, chains) && op.Accepted() && Appending(d, op)
    ensures Clean(Apply(d, op), after)
  {
    AppendingIsCareful(d, chains, op);
    after := ApplyStaysKept(d, chains, op);
    if op.WriteOp? && Find(d.dir, op.name) < |d.dir| {
      var i := Find(d.dir, op.name);
      assert Live(d, i) && TidyFile(d, chains, i);
      WriteLeavesFreeEmpty(d, i, d.dir[i].start, op.text);
    }
  }

  lemma {:induction false} RunsStayClean(blocks: nat, files: nat, ops: seq<Op>) returns (chains: seq<seq<int>>)
    requires 0 < blocks < LAST && (forall op :: op in ops ==> op.Accepted()) && AllAppending(Blank(blocks, files), ops)
    ensures Clean(RunOps(Blank(blocks, files), ops), chains)
  {
    if ops == [] {
      BlankIsKept(blocks, files);
      chains := seq(files, _ => []);
    } else {
      var n := |ops| - 1;
      assert ops[n] in ops;
      var before := RunsStayClean(blocks, files, ops[..n]);
      chains := ApplyStaysClean(RunOps(Blank(blocks, files), ops[..n]), before, ops[n]);
    }
  }

  /** Runs without deletes are careful by themselves, and creating a file finds its log empty. */
  lemma {:induction false} AppendingRuns(blocks: nat, files: nat, ops: seq<Op>, name: string)
    requires 0 < blocks < LAST && (forall op :: op in ops ==> op.Accepted()) && AllAppending(Blank(blocks, files), ops)
    requires name != ""
    ensures AllCareful(Blank(blocks, files), ops)
    ensures AsLogged(Expected(Blank(blocks, files), ops, name), Logged(Blank(blocks, files), ops, name))
  {
    if ops != [] {
      var n, d := |ops| - 1, Blank(blocks, files);
      assert ops[n] in ops;
      AppendingRuns(blocks, files, ops[..n], name);
      var chains := RunsStayClean(blocks, files, ops[..n]);
      AppendingIsCareful(RunOps(d, ops[..n]), chains, ops[n]);
      ReadsWhatWasWrittenSince(blocks, files, ops[..n], name);
    }
  }

  /** The round trip: from a blank disk, in every appending run, a file reads as everything written to it. */
  lemma ReadsWhatWasWritten(blocks: nat, files: nat, ops: seq<Op>, name: string)
    requires 0 < blocks < LAST && (forall op :: op in ops ==> op.Accepted()) && AllAppending(Blank(blocks, files), ops)
    requires name != ""
    ensures AsLogged(Read(RunOps(Blank(blocks, files), ops), name), Logged(Blank(blocks, files), ops, name))
  {
    AppendingRuns(blocks, files, ops, name);
    ReadsWhatWasWrittenSince(blocks, files, ops, name);
  }
}
