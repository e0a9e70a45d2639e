/** For which disks an empty file reads as what is written to it, however long that is. */
module FatReadBack {
  import opened Fat
  import opened FatStructure
  import opened FatRoundTrip

  /** A block that a write from `start` may fill, if it takes free blocks from `from` on only. */
  predicate MayFill(fat: seq<int>, start: int, from: int, b: int) {
    0 <= b < |fat| && (b == start || (from <= b && fat[b] == FREE))
  }

  /** The starting block comes first, then the free blocks in ascending order. */
  predicate NotAfter(start: int, b: int, c: int) {
    b == start || (c != start && b <= c)
  }

  /** In that order there are blocks without any bytes, and then full blocks. */
  ghost predicate EmptyThenFull(d: Disk, start: int, from: int)
    requires |d.data| == |d.fat|
  {
    forall b, c :: MayFill(d.fat, start, from, b) && MayFill(d.fat, start, from, c) && NotAfter(start, b, c) ==>
      BlockEnd(d.data[b]) > 0 ==> BlockEnd(d.data[c]) == BLOCK_SIZE
  }

  predicate IsFull(d: Disk, b: int)
    requires 0 <= b < |d.data|
  {
    BlockEnd(d.data[b]) == BLOCK_SIZE
  }

  // ---- bytes stay ---------------------------------------------------------

  /** The text of a block is the beginning of what it holds later. */
  predicate Extends(before: string, after: string) {
    BlockEnd(before) <= BlockEnd(after) && after[..BlockEnd(before)] == before[..BlockEnd(before)]
  }

  lemma ExtendsOn(a: string, b: string, c: string)
    requires Extends(a, b) && Extends(b, c)
    ensures Extends(a, c)
  {
    var k, m := BlockEnd(a), BlockEnd(b);
    assert c[..k] == c[..m][..k] && b[..k] == b[..m][..k];
  }

  lemma FilledExtends(block: string, text: string, n: nat, k: nat, after: string)
    requires k == BlockEnd(block) && n <= |text| && k + n <= |block| && IsText(text)
    requires after == block[..k] + text[..n] + block[k + n..]
    ensures BlockEnd(after) == k + n && after[..k] == block[..k]
  {
    FilledEnd(block, text, n);
    assert after == Filled(block, text, n);
  }

  /** A write keeps the text every block already has. */
  lemma {:induction false} WriteKeepsText(d: Disk, i: nat, block: nat, text: string, b: nat, w: Written)
    requires i < |d.dir| && block < |d.fat| == |d.data| && b < |d.data| && IsText(text) && w == WriteFrom(d, i, block, text)
    ensures Extends(d.data[b], w.disk.data[b])
    decreases Room(d.fat)
  {
    if text != "" {
      var n, next := Fits(d.data[block], text), FirstFree(d.fat);
      PutExtends(d, i, block, text, b);
      if n < |text| && next < |d.fat| {
        LinkTakesRoom(d.fat, block);
        WriteStep(d, i, block, text);
        var e := Grown(d, i, block, text);
        WriteKeepsText(e, i, next, text[n..], b, WriteFrom(e, i, next, text[n..]));
        ExtendsOn(d.data[b], e.data[b], w.disk.data[b]);
      }
    }
  }

  lemma PutExtends(d: Disk, i: nat, block: nat, text: string, b: nat)
    requires i < |d.dir| && block < |d.fat| == |d.data| && b < |d.data| && IsText(text)
    ensures Extends(d.data[b], Put(d, i, block, text).data[b])
  {
    var n := Fits(d.data[block], text);
    FilledExtends(d.data[block], text, n, BlockEnd(d.data[block]), Filled(d.data[block], text, n));
  }

  // ---- what is read back --------------------------------------------------

  /** A write that finds only full blocks stores nothing. */
  lemma {:induction false} StoresNothing(d: Disk, i: nat, block: nat, text: string)
    requires Shaped(d) && i < |d.dir| && block < |d.fat| && IsFull(d, block)
    requires forall b :: 0 <= b < |d.fat| && d.fat[b] == FREE ==> IsFull(d, b)
    ensures WriteFrom(d, i, block, text).count == 0
    decreases Room(d.fat)
  {
    if text != "" && FirstFree(d.fat) < |d.fat| {
      LinkTakesRoom(d.fat, block);
      WriteStep(d, i, block, text);
      var e := Grown(d, i, block, text);
      assert e.data[block] == d.data[block];
      StoresNothing(e, i, FirstFree(d.fat), text[0..]);
    }
  }

  lemma StaysEmptyThenFull(d: Disk, block: nat, from: nat, e: Disk, next: nat)
    requires Shaped(d) && block < |d.fat| && EmptyThenFull(d, block, from) && GoesOnIn(d, block, e, next)
    requires next == FirstFree(d.fat) >= from && d.fat[block] != FREE
    ensures EmptyThenFull(e, next, 0)
  {
    forall b, c | MayFill(e.fat, next, 0, b) && MayFill(e.fat, next, 0, c) && NotAfter(next, b, c)
      ensures BlockEnd(e.data[b]) > 0 ==> BlockEnd(e.data[c]) == BLOCK_SIZE
    {
      assert MayFill(d.fat, block, from, b) && MayFill(d.fat, block, from, c) && NotAfter(block, b, c);
    }
  }

  /** Empty blocks and then full ones: what is stored is read back. */
  lemma {:induction false} ReadBack(d: Disk, i: nat, block: nat, text: string, w: Written)
    requires Shaped(d) && i < |d.dir| && block < |d.fat| && d.fat[0] != FREE && d.fat[block] != FREE && IsText(text)
    requires EmptyThenFull(d, block, 0) && w == WriteFrom(d, i, block, text)
    ensures ReadFrom(w.disk, block, w.count) == text[..w.count]
    decreases Room(d.fat)
  {
    if BlockEnd(d.data[block]) > 0 {
      AllFull(d, block);
      StoresNothing(d, i, block, text);
    } else if Fits(d.data[block], text) < |text| && FirstFree(d.fat) < |d.fat| {
      var e, next, n, rest := GoesOn(d, i, block, text, w);
      StaysEmptyThenFull(d, block, 0, e, next);
      ReadBack(e, i, next, text[n..], rest);
      TailReads(d, block, text, w, n, next, rest.count, ReadFrom(w.disk, next, rest.count));
    } else {
      AppendsHere(d, i, block, text, w);
      AppendedAtStart(d, block, text, w);
    }
  }

  lemma TailReads(d: Disk, block: nat, text: string, w: Written, n: nat, next: nat, m: nat, tail: string)
    requires Shaped(d) && block < |d.fat| && BlockEnd(d.data[block]) == 0 && n == Fits(d.data[block], text) < |text|
    requires Shaped(w.disk) && |w.disk.fat| == |d.fat| && w.disk.fat[block] == next && w.count == n + m <= |text|
    requires w.disk.data[block] == Filled(d.data[block], text, n) && tail == ReadFrom(w.disk, next, m)
    requires tail == text[n..][..m]
    ensures ReadFrom(w.disk, block, w.count) == text[..w.count]
  {
    BlockAndRest(d, block, text, w, n, next, m, tail);
    assert text[..n] + text[n..][..m] == text[..w.count];
  }

  lemma AllFull(d: Disk, block: nat)
    requires Shaped(d) && block < |d.fat| && EmptyThenFull(d, block, 0) && BlockEnd(d.data[block]) > 0
    ensures IsFull(d, block) && forall b :: 0 <= b < |d.fat| && d.fat[b] == FREE ==> IsFull(d, b)
  {
    assert MayFill(d.fat, block, 0, block) && NotAfter(block, block, block);
    forall b | 0 <= b < |d.fat| && d.fat[b] == FREE
      ensures IsFull(d, b)
    {
      assert MayFill(d.fat, block, 0, b) && NotAfter(block, block, b);
    }
  }

  /** A block that was empty is filled with text; what the rest of the chain prints comes behind it. */
  lemma BlockAndRest(d: Disk, block: nat, text: string, w: Written, n: nat, next: nat, m: nat, tail: string)
    requires Shaped(d) && block < |d.fat| && BlockEnd(d.data[block]) == 0 && n == Fits(d.data[block], text) < |text|
    requires Shaped(w.disk) && |w.disk.fat| == |d.fat| && w.disk.fat[block] == next && w.count == n + m
    requires w.disk.data[block] == Filled(d.data[block], text, n) && tail == ReadFrom(w.disk, next, m)
    ensures n == BLOCK_SIZE && ReadFrom(w.disk, block, w.count) == text[..n] + tail
  {
    assert w.disk.data[block] == text[..n];
    if m > 0 {
      ReadOn(w.disk, block, w.count);
    } else {
      assert tail == "";
    }
  }

  // ---- what is not --------------------------------------------------------

  /** A write that finds a block with room stores something. */
  lemma {:induction false} StoresSomething(d: Disk, i: nat, block: nat, text: string, c: nat)
    requires Shaped(d) && i < |d.dir| && block < |d.fat| && text != ""
    requires c < |d.fat| && (c == block || d.fat[c] == FREE) && !IsFull(d, c)
    ensures WriteFrom(d, i, block, text).count > 0
    decreases Room(d.fat)
  {
    if IsFull(d, block) {
      LinkTakesRoom(d.fat, block);
      WriteStep(d, i, block, text);
      StoresSomething(Grown(d, i, block, text), i, FirstFree(d.fat), text[0..], c);
    }
  }

  /** The first byte of the block a write starts in. */
  lemma FirstByte(d: Disk, i: nat, block: nat, text: string, w: Written)
    requires Shaped(d) && i < |d.dir| && block < |d.fat| && IsText(text) && text != "" && w == WriteFrom(d, i, block, text)
    ensures Shaped(w.disk) && |w.disk.fat| == |d.fat|
    ensures w.disk.data[block][0] == if BlockEnd(d.data[block]) > 0 then d.data[block][0] else text[0]
  {
    WriteShape(d, i, block, text);
    WriteKeepsText(d, i, block, text, block, w);
    if BlockEnd(d.data[block]) > 0 {
      assert w.disk.data[block][..BlockEnd(d.data[block])][0] == d.data[block][..BlockEnd(d.data[block])][0];
    } else {
      FirstStored(d, i, block, text, w);
    }
  }

  lemma FirstStored(d: Disk, i: nat, block: nat, text: string, w: Written)
    requires Shaped(d) && i < |d.dir| && block < |d.fat| && IsText(text) && text != "" && w == WriteFrom(d, i, block, text)
    requires BlockEnd(d.data[block]) == 0 && Shaped(w.disk) && |w.disk.fat| == |d.fat|
    ensures w.disk.data[block][0] == text[0]
  {
    var n := Fits(d.data[block], text);
    var put := Put(d, i, block, text).data[block];
    FilledEnd(d.data[block], text, n);
    assert put[0] == text[..n][0] == text[0];
    if n < |text| && FirstFree(d.fat) < |d.fat| {
      WriteStep(d, i, block, text);
      WriteKeepsText(Grown(d, i, block, text), i, FirstFree(d.fat), text[n..], block,
                     WriteFrom(Grown(d, i, block, text), i, FirstFree(d.fat), text[n..]));
      assert w.disk.data[block][..BlockEnd(put)][0] == put[..BlockEnd(put)][0];
    }
  }

  /** Block b holds bytes, and none of those before it does. */
  ghost predicate FirstStale(d: Disk, block: int, from: int, b: int)
    requires |d.data| == |d.fat|
  {
    && MayFill(d.fat, block, from, b) && BlockEnd(d.data[b]) > 0
    && forall c :: MayFill(d.fat, block, from, c) && NotAfter(block, c, b) && c != b ==> BlockEnd(d.data[c]) == 0
  }

  lemma {:induction false} LeastStale(d: Disk, block: nat, from: nat, k: nat, most: int) returns (b: nat)
    requires Shaped(d) && block < |d.fat| && from <= k <= most
    requires MayFill(d.fat, block, from, most) && BlockEnd(d.data[most]) > 0 && most != block && BlockEnd(d.data[block]) == 0
    requires forall c :: from <= c < k && d.fat[c] == FREE ==> BlockEnd(d.data[c]) == 0
    ensures FirstStale(d, block, from, b) && b <= most && b != block
    decreases most - k
  {
    if k != block && d.fat[k] == FREE && BlockEnd(d.data[k]) > 0 {
      b := k;
    } else {
      b := LeastStale(d, block, from, k + 1, most);
    }
  }

  /** If a disk is not that way, the first block that holds bytes comes before one with room. */
  lemma Spoilers(d: Disk, start: nat, from: nat) returns (b: int, c: int)
    requires Shaped(d) && start < |d.fat| && BlockEnd(d.data[start]) == 0 && !EmptyThenFull(d, start, from)
    ensures FirstStale(d, start, from, b) && MayFill(d.fat, start, from, c)
    ensures b != start && c != start && b <= c && !IsFull(d, c)
  {
    var a :| exists c :: MayFill(d.fat, start, from, a) && MayFill(d.fat, start, from, c) && NotAfter(start, a, c) &&
                         BlockEnd(d.data[a]) > 0 && !IsFull(d, c);
    c :| MayFill(d.fat, start, from, c) && NotAfter(start, a, c) && !IsFull(d, c);
    b := LeastStale(d, start, from, from, a);
  }

  /** In a block that held bytes, before one that is not full, these bytes are printed instead of the text. */
  lemma {:induction false} StaleShows(d: Disk, i: nat, block: nat, text: string, b: int, c: int, w: Written)
    requires Shaped(d) && i < |d.dir| && block < |d.fat| && d.fat[0] != FREE && d.fat[block] != FREE && IsText(text)
    requires FirstStale(d, block, 0, b) && d.data[b][0] !in text
    requires MayFill(d.fat, block, 0, c) && NotAfter(block, b, c) && !IsFull(d, c)
    requires w == WriteFrom(d, i, block, text) && !w.ok
    ensures ReadFrom(w.disk, block, w.count) != text[..w.count]
    decreases Room(d.fat)
  {
    if b == block {
      StoresSomething(d, i, block, text, c);
      StaleBlockShows(d, i, block, text, w);
    } else {
      assert NotAfter(block, block, b) && MayFill(d.fat, block, 0, block);
      var e, next, n, rest := GoesOn(d, i, block, text, w);
      StaysFirstStale(d, block, b, e, next);
      StaleShows(e, i, next, text[n..], b, c, rest);
      TailShows(d, block, text, w, n, next, rest.count, ReadFrom(w.disk, next, rest.count));
    }
  }

  lemma StaleBlockShows(d: Disk, i: nat, block: nat, text: string, w: Written)
    requires Shaped(d) && i < |d.dir| && block < |d.fat| && IsText(text) && w == WriteFrom(d, i, block, text)
    requires BlockEnd(d.data[block]) > 0 && d.data[block][0] !in text && w.count > 0
    ensures ReadFrom(w.disk, block, w.count) != text[..w.count]
  {
    FirstByte(d, i, block, text, w);
    assert ReadFrom(w.disk, block, w.count)[0] == w.disk.data[block][0];
    assert text[..w.count][0] in text;
  }

  lemma TailShows(d: Disk, block: nat, text: string, w: Written, n: nat, next: nat, m: nat, tail: string)
    requires Shaped(d) && block < |d.fat| && BlockEnd(d.data[block]) == 0 && n == Fits(d.data[block], text) < |text|
    requires Shaped(w.disk) && |w.disk.fat| == |d.fat| && w.disk.fat[block] == next && w.count == n + m <= |text|
    requires w.disk.data[block] == Filled(d.data[block], text, n) && tail == ReadFrom(w.disk, next, m)
    requires tail != text[n..][..m]
    ensures ReadFrom(w.disk, block, w.count) != text[..w.count]
  {
    BlockAndRest(d, block, text, w, n, next, m, tail);
    assert (text[..n] + tail)[n..] == tail && text[..w.count][n..] == text[n..][..m];
  }

  lemma StaysFirstStale(d: Disk, block: nat, b: int, e: Disk, next: nat)
    requires Shaped(d) && block < |d.fat| && d.fat[block] != FREE && FirstStale(d, block, 0, b) && b != block
    requires GoesOnIn(d, block, e, next) && next == FirstFree(d.fat)
    ensures FirstStale(e, next, 0, b)
  {
    forall c | MayFill(e.fat, next, 0, c) && NotAfter(next, c, b) && c != b
      ensures BlockEnd(e.data[c]) == 0
    {
      assert MayFill(d.fat, block, 0, c) && NotAfter(block, c, b);
    }
  }

  /** A text that no disk with so many free blocks takes. */
  lemma {:induction false} TooLong(d: Disk, i: nat, block: nat, text: string, room: nat)
    requires Shaped(d) && i < |d.dir| && block < |d.fat| && room == Room(d.fat)
    requires |text| > BLOCK_SIZE * room + BLOCK_SIZE
    ensures !WriteFrom(d, i, block, text).ok
    decreases room
  {
    var n, next := Fits(d.data[block], text), FirstFree(d.fat);
    LongerThanBlock(|text|, room);
    if next < |d.fat| {
      LinkTakesRoom(d.fat, block);
      WriteStep(d, i, block, text);
      var left := Room(Link(d.fat, block, next));
      LeftTooLong(|text|, n, room, left);
      TooLong(Grown(d, i, block, text), i, next, text[n..], left);
    }
  }

  lemma LongerThanBlock(size: nat, room: nat)
    requires size > BLOCK_SIZE * room + BLOCK_SIZE
    ensures size > BLOCK_SIZE
  {
    assert BLOCK_SIZE * room >= 0;
  }

  lemma LeftTooLong(size: nat, n: nat, room: nat, left: nat)
    requires size > BLOCK_SIZE * room + BLOCK_SIZE && n <= BLOCK_SIZE && left < room
    ensures size - n > BLOCK_SIZE * left + BLOCK_SIZE
  {
    assert BLOCK_SIZE * room == BLOCK_SIZE * (room - left - 1) + BLOCK_SIZE * left + BLOCK_SIZE;
    assert BLOCK_SIZE * (room - left - 1) >= 0;
  }

  // ---- through block 0 ----------------------------------------------------

  // While block 0 is free, it is the first block that a write links, and that frees
  // the starting block again: the write takes it once more when it comes to it, and
  // the blocks in between are in the chain no longer.

  /** The block and every free one below `upto` are full. */
  ghost predicate BelowFull(d: Disk, block: int, upto: int)
    requires Shaped(d) && 0 <= block < |d.fat|
  {
    IsFull(d, block) && forall b :: 0 <= b < upto && b < |d.fat| && d.fat[b] == FREE ==> IsFull(d, b)
  }

  /** The disk when a write has come to block `upto`: no block below is free, and nothing beyond has changed. */
  ghost predicate HasComeTo(d: Disk, upto: int, e: Disk)
    requires Shaped(d)
  {
    && Shaped(e) && |e.fat| == |d.fat| && |e.dir| == |d.dir| && e.fat[0] != FREE
    && 0 <= upto < |d.fat| && e.fat[upto] == END && e.data[upto] == d.data[upto]
    && (forall b :: 0 <= b < upto ==> e.fat[b] != FREE)
    && (forall b :: upto < b < |d.fat| ==> (e.fat[b] == FREE <==> d.fat[b] == FREE))
    && (forall b :: upto < b < |d.fat| && d.fat[b] == FREE ==> e.data[b] == d.data[b])
  }

  /** A write that does not end before takes the free block `upto` after those below it, m bytes later. */
  lemma {:induction false} PassTo(d: Disk, i: nat, block: nat, text: string, upto: nat, w: Written)
    returns (e: Disk, m: nat, left: string, rest: Written)
    requires Shaped(d) && i < |d.dir| && block < |d.fat| && d.fat[0] != FREE && d.fat[block] != FREE
    requires upto < |d.fat| && d.fat[upto] == FREE && w == WriteFrom(d, i, block, text)
    requires !w.ok || (text != "" && BelowFull(d, block, upto))
    ensures HasComeTo(d, upto, e) && m < |text| && left == text[m..] && rest == WriteFrom(e, i, upto, left)
    ensures w.disk == rest.disk && w.count == m + rest.count && w.ok == rest.ok
    ensures m == 0 <==> BelowFull(d, block, upto)
    decreases Room(d.fat)
  {
    var d', next, n, w' := GoesOn(d, i, block, text, w);
    if next == upto {
      e, m, left, rest := d', n, text[n..], w';
      ArrivesAt(d, block, upto, e, n);
    } else {
      PassesNext(d, block, upto, d', next, n);
      var m';
      e, m', left, rest := PassTo(d', i, next, text[n..], upto, w');
      PassedOn(d, block, d', next, upto, e);
      m := n + m';
      LaterStill(text, n, m', left, m);
    }
  }

  lemma LaterStill(text: string, n: nat, m': nat, left: string, m: nat)
    requires m == n + m' <= |text| && left == text[n..][m'..]
    ensures left == text[m..]
  {
  }

  lemma ArrivesAt(d: Disk, block: nat, upto: nat, e: Disk, n: nat)
    requires Shaped(d) && block < |d.fat| && d.fat[block] != FREE && GoesOnIn(d, block, e, upto) && upto == FirstFree(d.fat)
    requires BlockEnd(d.data[block]) + n == BLOCK_SIZE
    ensures HasComeTo(d, upto, e) && (n == 0 <==> BelowFull(d, block, upto))
  {
  }

  lemma PassedOn(d: Disk, block: nat, d': Disk, next: nat, upto: nat, e: Disk)
    requires Shaped(d) && block < |d.fat| && d.fat[block] != FREE && GoesOnIn(d, block, d', next) && next < upto
    requires HasComeTo(d', upto, e) && d.fat[upto] == FREE
    ensures HasComeTo(d, upto, e)
  {
  }

  lemma PassesNext(d: Disk, block: nat, upto: nat, e: Disk, next: nat, n: nat)
    requires Shaped(d) && block < |d.fat| && d.fat[block] != FREE && GoesOnIn(d, block, e, next)
    requires next == FirstFree(d.fat) < upto < |d.fat| && d.fat[upto] == FREE && BlockEnd(d.data[block]) + n == BLOCK_SIZE
    ensures BelowFull(d, block, upto) <==> n == 0 && BelowFull(e, next, upto)
  {
    if BelowFull(e, next, upto) {
      forall b | 0 <= b < upto && d.fat[b] == FREE
        ensures IsFull(d, b)
      {
        assert b == next || e.fat[b] == FREE;
      }
    }
  }

  /** All free blocks below `start` are full. */
  ghost predicate FullBelow(d: Disk, start: int)
    requires Shaped(d)
  {
    forall b :: 0 <= b < start && b < |d.fat| && d.fat[b] == FREE ==> IsFull(d, b)
  }

  /** The disk when a write has come back to its starting block, which is full by then. */
  ghost predicate HasComeBack(d: Disk, start: int, e: Disk, front: string)
    requires Shaped(d)
  {
    && Shaped(e) && |e.fat| == |d.fat| && |e.dir| == |d.dir| && e.fat[0] != FREE
    && 0 <= start < |d.fat| && e.fat[start] == END && e.data[start] == front && IsFull(e, start)
    && (forall b :: 0 <= b < start ==> e.fat[b] != FREE)
    && (forall b :: start < b < |d.fat| ==> (e.fat[b] == FREE <==> d.fat[b] == FREE))
    && (forall b :: start < b < |d.fat| && d.fat[b] == FREE ==> e.data[b] == d.data[b])
  }

  /** Linking to block 0 frees the starting block, so the write takes it again, as a block behind others. */
  lemma ComesBack(d: Disk, i: nat, start: nat, text: string, w: Written) returns (e: Disk, m: nat, left: string, rest: Written)
    requires Shaped(d) && i < |d.dir| && start < |d.fat| && d.fat[0] == FREE && d.fat[start] != FREE && IsText(text)
    requires BlockEnd(d.data[start]) == 0 && |text| > BLOCK_SIZE && w == WriteFrom(d, i, start, text)
    requires !w.ok || FullBelow(d, start)
    ensures HasComeBack(d, start, e, text[..BLOCK_SIZE]) && m < |text| - BLOCK_SIZE
    ensures left == text[BLOCK_SIZE..][m..] && rest == WriteFrom(e, i, start, left)
    ensures w.disk == rest.disk && w.count == BLOCK_SIZE + m + rest.count && w.ok == rest.ok
    ensures m == 0 <==> FullBelow(d, start)
  {
    var d', behind := Grown(d, i, start, text), text[BLOCK_SIZE..];
    var w' := WriteFrom(d', i, 0, behind);
    WriteStep(d, i, start, text);
    FilledEnd(d.data[start], text, BLOCK_SIZE);
    assert d'.data[start] == text[..BLOCK_SIZE];
    ZeroAndAbove(d, start, d');
    e, m, left, rest := PassTo(d', i, 0, behind, start, w');
  }

  lemma ZeroAndAbove(d: Disk, start: nat, e: Disk)
    requires Shaped(d) && Shaped(e) && start < |d.fat| == |e.fat| && d.fat[0] == FREE && d.fat[start] != FREE
    requires e.fat == Link(d.fat, start, 0) && forall b :: 0 <= b < |d.fat| && b != start ==> e.data[b] == d.data[b]
    ensures BelowFull(e, 0, start) <==> FullBelow(d, start)
  {
    if BelowFull(e, 0, start) {
      forall b | 0 <= b < start && d.fat[b] == FREE
        ensures IsFull(d, b)
      {
        assert b == 0 || e.fat[b] == FREE;
      }
    }
  }

  /** What such a write leaves in the starting block, and where it goes on. */
  lemma SecondTime(e: Disk, i: nat, start: nat, text: string, rest: Written) returns (e': Disk, next: nat, rest': Written)
    requires Shaped(e) && i < |e.dir| && start < |e.fat| && e.fat[0] != FREE && e.fat[start] == END && IsFull(e, start)
    requires text != "" && rest == WriteFrom(e, i, start, text)
    ensures Shaped(rest.disk) && |rest.disk.fat| == |e.fat| && rest.disk.data[start] == e.data[start]
    ensures if FirstFree(e.fat) == |e.fat| then rest.count == 0 && rest.disk.fat[start] == END
            else GoesOnIn(e, start, e', next) && next == FirstFree(e.fat) == rest.disk.fat[start] &&
                 i < |e'.dir| && rest' == WriteFrom(e', i, next, text) && rest.disk == rest'.disk && rest.count == rest'.count
  {
    WriteShape(e, i, start, text);
    assert Filled(e.data[start], text, 0) == e.data[start];
    if FirstFree(e.fat) < |e.fat| {
      var n;
      e', next, n, rest' := GoesOn(e, i, start, text, rest);
      assert text[0..] == text;
    } else {
      e', next, rest' := e, 0, rest;
    }
  }

  lemma FrontAndRest(d: Disk, start: nat, next: int, front: string, size: int, behind: nat, tail: string)
    requires Shaped(d) && start < |d.fat| && d.data[start] == front && d.fat[start] == next
    requires size == BLOCK_SIZE + behind && tail == ReadFrom(d, next, behind)
    ensures ReadFrom(d, start, size) == front + tail && |front| == BLOCK_SIZE
  {
    if size > BLOCK_SIZE {
      ReadOn(d, start, size);
    } else {
      assert tail == "";
    }
  }

  /** What reading prints after such a write: the front, and what lies behind the starting block in the end. */
  lemma PrintsBehind(e: Disk, i: nat, start: nat, front: string, m: nat, left: string, rest: Written, size: int)
    returns (tail: string)
    requires Shaped(e) && i < |e.dir| && start < |e.fat| && e.fat[0] != FREE && e.fat[start] == END && IsFull(e, start)
    requires e.data[start] == front && left != "" && rest == WriteFrom(e, i, start, left)
    requires size == BLOCK_SIZE + m + rest.count
    ensures Shaped(rest.disk) && |rest.disk.fat| == |e.fat|
    ensures tail == ReadFrom(rest.disk, rest.disk.fat[start], m + rest.count)
    ensures ReadFrom(rest.disk, start, size) == front + tail
  {
    var e', next, rest' := SecondTime(e, i, start, left, rest);
    tail := ReadFrom(rest.disk, rest.disk.fat[start], m + rest.count);
    FrontAndRest(rest.disk, start, rest.disk.fat[start], front, size, m + rest.count, tail);
  }

  /** Only full blocks lie below the starting block, and empty ones before full ones above. */
  lemma ReadBackThroughZero(d: Disk, i: nat, start: nat, text: string, w: Written)
    requires Shaped(d) && i < |d.dir| && start < |d.fat| && d.fat[0] == FREE && d.fat[start] != FREE && IsText(text)
    requires FullBelow(d, start) && EmptyThenFull(d, start, start) && w == WriteFrom(d, i, start, text)
    ensures ReadFrom(w.disk, start, w.count) == text[..w.count]
  {
    if BlockEnd(d.data[start]) > 0 {
      AllFullThroughZero(d, start);
      StoresNothing(d, i, start, text);
    } else if |text| > BLOCK_SIZE {
      LongReadBack(d, i, start, text, w);
    } else {
      AppendsHere(d, i, start, text, w);
      AppendedAtStart(d, start, text, w);
    }
  }

  lemma LongReadBack(d: Disk, i: nat, start: nat, text: string, w: Written)
    requires Shaped(d) && i < |d.dir| && start < |d.fat| && d.fat[0] == FREE && d.fat[start] != FREE && IsText(text)
    requires FullBelow(d, start) && EmptyThenFull(d, start, start) && w == WriteFrom(d, i, start, text)
    requires BlockEnd(d.data[start]) == 0 && |text| > BLOCK_SIZE
    ensures ReadFrom(w.disk, start, w.count) == text[..w.count]
  {
    var e, m, left, rest := ComesBack(d, i, start, text, w);
    var tail := PrintsBehind(e, i, start, text[..BLOCK_SIZE], m, left, rest, w.count);
    RestReadBack(d, i, start, text[..BLOCK_SIZE], left, e, rest, m + rest.count, tail);
    JoinsFront(text, m, left, rest.count, w.count);
  }

  lemma JoinsFront(text: string, m: nat, left: string, n: nat, count: nat)
    requires BLOCK_SIZE < |text| && m == 0 && left == text[BLOCK_SIZE..][m..] && n <= |left| && count == BLOCK_SIZE + m + n
    ensures text[..BLOCK_SIZE] + left[..n] == text[..count]
  {
  }

  lemma RestReadBack(d: Disk, i: nat, start: nat, front: string, left: string, e: Disk, rest: Written,
                     size: int, tail: string)
    requires Shaped(d) && i < |d.dir| && start < |d.fat| && d.fat[start] != FREE && EmptyThenFull(d, start, start)
    requires Shaped(e) && |e.fat| == |d.fat| && HasComeBack(d, start, e, front) && IsText(left) && left != ""
    requires rest == WriteFrom(e, i, start, left) && |rest.disk.fat| == |d.fat|
    requires size == rest.count && tail == ReadFrom(rest.disk, rest.disk.fat[start], size)
    ensures tail == left[..rest.count]
  {
    var e', next, rest' := SecondTime(e, i, start, left, rest);
    if FirstFree(e.fat) < |e.fat| {
      StaysEmptyThenFullAbove(d, start, front, e, e', next);
      ReadBack(e', i, next, left, rest');
    }
  }

  lemma AllFullThroughZero(d: Disk, start: nat)
    requires Shaped(d) && start < |d.fat| && FullBelow(d, start) && EmptyThenFull(d, start, start)
    requires d.fat[start] != FREE && BlockEnd(d.data[start]) > 0
    ensures IsFull(d, start) && forall b :: 0 <= b < |d.fat| && d.fat[b] == FREE ==> IsFull(d, b)
  {
    assert MayFill(d.fat, start, start, start) && NotAfter(start, start, start);
    forall b | 0 <= b < |d.fat| && d.fat[b] == FREE
      ensures IsFull(d, b)
    {
      if b > start {
        assert MayFill(d.fat, start, start, b) && NotAfter(start, start, b);
      }
    }
  }

  lemma StaysEmptyThenFullAbove(d: Disk, start: nat, front: string, e: Disk, e': Disk, next: nat)
    requires Shaped(d) && start < |d.fat| && d.fat[start] != FREE && EmptyThenFull(d, start, start)
    requires Shaped(e) && |e.fat| == |d.fat| && HasComeBack(d, start, e, front)
    requires GoesOnIn(e, start, e', next) && next == FirstFree(e.fat)
    ensures EmptyThenFull(e', next, 0)
  {
    forall b, c | MayFill(e'.fat, next, 0, b) && MayFill(e'.fat, next, 0, c) && NotAfter(next, b, c)
      ensures BlockEnd(e'.data[b]) > 0 ==> BlockEnd(e'.data[c]) == BLOCK_SIZE
    {
      assert e.fat[b] == FREE && e.fat[c] == FREE && b > start && c > start;
      assert MayFill(d.fat, start, start, b) && MayFill(d.fat, start, start, c) && NotAfter(start, b, c);
    }
  }

  /** A write that has come back to the starting block with `front` in it, and bytes stored in between, cannot read them. */
  lemma LostInBetween(d: Disk, i: nat, start: nat, text: string, w: Written)
    requires Shaped(d) && i < |d.dir| && start < |d.fat| && d.fat[0] == FREE && d.fat[start] != FREE && IsText(text)
    requires BlockEnd(d.data[start]) == 0 && |text| > BLOCK_SIZE + 1 && w == WriteFrom(d, i, start, text) && !w.ok
    requires !FullBelow(d, start) && text[BLOCK_SIZE] !in text[BLOCK_SIZE + 1..]
    requires forall b :: IsNextAbove(d.fat, start, b) && BlockEnd(d.data[b]) > 0 ==> d.data[b][0] != text[BLOCK_SIZE]
    ensures ReadFrom(w.disk, start, w.count) != text[..w.count]
  {
    var e, m, left, rest := ComesBack(d, i, start, text, w);
    var tail := PrintsBehind(e, i, start, text[..BLOCK_SIZE], m, left, rest, w.count);
    LaterIsLess(text, m, left);
    TailAbove(d, i, start, text[..BLOCK_SIZE], left, e, rest, text[BLOCK_SIZE], tail, m + rest.count);
    NotTheText(text, w.count, tail);
  }

  lemma LaterIsLess(text: string, m: nat, left: string)
    requires 0 < m < |text| - BLOCK_SIZE && left == text[BLOCK_SIZE..][m..]
    ensures forall x :: x in left ==> x in text[BLOCK_SIZE + 1..]
    ensures left != "" && (IsText(text) ==> IsText(left))
  {
    assert left == text[BLOCK_SIZE + 1..][m - 1..];
  }

  lemma NotTheText(text: string, count: nat, tail: string)
    requires BLOCK_SIZE < count <= |text| && (tail != "" ==> tail[0] != text[BLOCK_SIZE])
    ensures text[..BLOCK_SIZE] + tail != text[..count]
  {
    if tail != "" {
      assert (text[..BLOCK_SIZE] + tail)[BLOCK_SIZE] == tail[0];
    }
    assert text[..count][BLOCK_SIZE] == text[BLOCK_SIZE];
  }

  /** The first free block above `start`. */
  predicate IsNextAbove(fat: seq<int>, start: int, b: int)
    requires 0 <= start
  {
    start < b < |fat| && fat[b] == FREE && forall c :: start < c < b ==> fat[c] != FREE
  }

  /** What is printed behind the starting block does not begin with x. */
  lemma TailAbove(d: Disk, i: nat, start: nat, front: string, left: string, e: Disk, rest: Written, x: char,
                  tail: string, size: int)
    requires Shaped(d) && i < |d.dir| && start < |d.fat| && HasComeBack(d, start, e, front)
    requires |e.fat| == |d.fat| && IsText(left) && left != "" && rest == WriteFrom(e, i, start, left) && x !in left
    requires forall b :: IsNextAbove(d.fat, start, b) && BlockEnd(d.data[b]) > 0 ==> d.data[b][0] != x
    requires tail == ReadFrom(rest.disk, rest.disk.fat[start], size)
    ensures Shaped(rest.disk) && |rest.disk.fat| == |d.fat| && rest.disk.data[start] == e.data[start]
    ensures tail != "" ==> tail[0] != x
  {
    var e', next, rest' := SecondTime(e, i, start, left, rest);
    if FirstFree(e.fat) < |e.fat| {
      assert IsNextAbove(d.fat, start, next);
      FirstByte(e', i, next, left, rest');
      assert left[0] in left;
      FirstPrinted(rest.disk, next, size, tail);
    }
  }

  lemma FirstPrinted(d: Disk, block: nat, size: int, tail: string)
    requires Shaped(d) && block < |d.fat| && tail == ReadFrom(d, block, size)
    ensures tail != "" ==> tail[0] == d.data[block][0]
  {
  }

  // ---- exactly when -------------------------------------------------------

  /** What is written to an empty file in block `start` is read back. */
  ghost predicate ReadsBack(d: Disk, start: int)
    requires Shaped(d)
  {
    if d.fat[0] != FREE then EmptyThenFull(d, start, 0) else FullBelow(d, start) && EmptyThenFull(d, start, start)
  }

  function Repeat(x: char, n: nat): (r: string)
    ensures |r| == n && forall c :: c in r ==> c == x
  {
    seq(n, _ => x)
  }

  function Other(x: char): char {
    if x == 'a' then 'b' else 'a'
  }

  /** More bytes than there is room for. */
  function Plenty(d: Disk): nat {
    BLOCK_SIZE * Room(d.fat) + BLOCK_SIZE + 1
  }

  lemma NotReadBack(d: Disk, i: nat, start: nat) returns (text: string)
    requires Shaped(d) && i < |d.dir| && start < |d.fat| && d.fat[start] != FREE && !ReadsBack(d, start)
    ensures IsText(text)
    ensures var w := WriteFrom(d, i, start, text); ReadFrom(w.disk, start, w.count) != text[..w.count]
  {
    if BlockEnd(d.data[start]) > 0 {
      text := Repeat(Other(d.data[start][0]), 1);
      RoomSomewhere(d, i, start, text);
      StaleBlockShows(d, i, start, text, WriteFrom(d, i, start, text));
    } else if d.fat[0] != FREE {
      text := StaleBehind(d, i, start);
    } else if !FullBelow(d, start) {
      text := BytesBelow(d, i, start);
    } else {
      text := StaleAbove(d, i, start);
    }
  }

  lemma RoomSomewhere(d: Disk, i: nat, start: nat, text: string)
    requires Shaped(d) && i < |d.dir| && start < |d.fat| && !ReadsBack(d, start) && text != ""
    ensures WriteFrom(d, i, start, text).count > 0
  {
    if forall c :: 0 <= c < |d.fat| && (c == start || d.fat[c] == FREE) ==> IsFull(d, c) {
      assert forall from, b :: MayFill(d.fat, start, from, b) ==> IsFull(d, b);
    }
    var c :| 0 <= c < |d.fat| && (c == start || d.fat[c] == FREE) && !IsFull(d, c);
    StoresSomething(d, i, start, text, c);
  }

  lemma StaleBehind(d: Disk, i: nat, start: nat) returns (text: string)
    requires Shaped(d) && i < |d.dir| && start < |d.fat| && d.fat[0] != FREE && d.fat[start] != FREE
    requires BlockEnd(d.data[start]) == 0 && !EmptyThenFull(d, start, 0)
    ensures IsText(text)
    ensures var w := WriteFrom(d, i, start, text); ReadFrom(w.disk, start, w.count) != text[..w.count]
  {
    var b, c := Spoilers(d, start, 0);
    text := Repeat(Other(d.data[b][0]), Plenty(d));
    TooLong(d, i, start, text, Room(d.fat));
    StaleShows(d, i, start, text, b, c, WriteFrom(d, i, start, text));
  }

  lemma BytesBelow(d: Disk, i: nat, start: nat) returns (text: string)
    requires Shaped(d) && i < |d.dir| && start < |d.fat| && d.fat[0] == FREE && d.fat[start] != FREE
    requires BlockEnd(d.data[start]) == 0 && !FullBelow(d, start)
    ensures IsText(text)
    ensures var w := WriteFrom(d, i, start, text); ReadFrom(w.disk, start, w.count) != text[..w.count]
  {
    var x := 'a';
    if b :| IsNextAbove(d.fat, start, b) {
      x := Other(d.data[b][0]);
    }
    text := Repeat('c', BLOCK_SIZE) + [x] + Repeat('c', Plenty(d));
    assert text[BLOCK_SIZE] == x && text[BLOCK_SIZE + 1..] == Repeat('c', Plenty(d));
    TooLong(d, i, start, text, Room(d.fat));
    LostInBetween(d, i, start, text, WriteFrom(d, i, start, text));
  }

  lemma StaleAbove(d: Disk, i: nat, start: nat) returns (text: string)
    requires Shaped(d) && i < |d.dir| && start < |d.fat| && d.fat[0] == FREE && d.fat[start] != FREE
    requires BlockEnd(d.data[start]) == 0 && FullBelow(d, start) && !EmptyThenFull(d, start, start)
    ensures IsText(text)
    ensures var w := WriteFrom(d, i, start, text); ReadFrom(w.disk, start, w.count) != text[..w.count]
  {
    var b, c := Spoilers(d, start, start);
    text := Repeat(Other(d.data[b][0]), Plenty(d));
    TooLong(d, i, start, text, Room(d.fat));
    var w := WriteFrom(d, i, start, text);
    assert BLOCK_SIZE * Room(d.fat) >= 0;
    StaleShowsAbove(d, i, start, text, b, c, w);
  }

  lemma StaleShowsAbove(d: Disk, i: nat, start: nat, text: string, b: int, c: int, w: Written)
    requires Shaped(d) && i < |d.dir| && start < |d.fat| && d.fat[0] == FREE && d.fat[start] != FREE && IsText(text)
    requires BlockEnd(d.data[start]) == 0 && |text| > BLOCK_SIZE && w == WriteFrom(d, i, start, text) && !w.ok
    requires FullBelow(d, start) && FirstStale(d, start, start, b) && MayFill(d.fat, start, start, c)
    requires b != start && c != start && b <= c && !IsFull(d, c) && d.data[b][0] !in text
    ensures ReadFrom(w.disk, start, w.count) != text[..w.count]
  {
    var e, m, left, rest := ComesBack(d, i, start, text, w);
    var tail := PrintsBehind(e, i, start, text[..BLOCK_SIZE], m, left, rest, w.count);
    assert left[0..] == left;
    StaleTail(d, i, start, text[..BLOCK_SIZE], left, e, rest, b, c, tail);
    assert (text[..BLOCK_SIZE] + tail)[BLOCK_SIZE..] == tail && text[..w.count][BLOCK_SIZE..] == left[..rest.count];
  }

  lemma StaleTail(d: Disk, i: nat, start: nat, front: string, left: string, e: Disk, rest: Written, b: int, c: int,
                  tail: string)
    requires Shaped(d) && i < |d.dir| && start < |d.fat| && HasComeBack(d, start, e, front)
    requires |e.fat| == |d.fat| && IsText(left) && left != "" && rest == WriteFrom(e, i, start, left) && !rest.ok
    requires FirstStale(d, start, start, b) && MayFill(d.fat, start, start, c)
    requires b != start && c != start && b <= c && !IsFull(d, c) && d.data[b][0] !in left
    requires |rest.disk.fat| == |d.fat| && tail == ReadFrom(rest.disk, rest.disk.fat[start], rest.count)
    ensures tail != left[..rest.count]
  {
    assert e.fat[b] == FREE && e.fat[c] == FREE;
    var e', next, rest' := SecondTime(e, i, start, left, rest);
    StaysFirstStaleAbove(d, start, front, e, b, e', next);
    WriteDir(e, i, start, left);
    WriteDir(e', i, next, left);
    StaleShows(e', i, next, left, b, c, rest');
  }

  lemma StaysFirstStaleAbove(d: Disk, start: nat, front: string, e: Disk, b: int, e': Disk, next: nat)
    requires Shaped(d) && start < |d.fat| && HasComeBack(d, start, e, front)
    requires |e.fat| == |d.fat| && FirstStale(d, start, start, b) && b != start
    requires GoesOnIn(e, start, e', next) && next == FirstFree(e.fat)
    ensures FirstStale(e', next, 0, b)
  {
    forall c | MayFill(e'.fat, next, 0, c) && NotAfter(next, c, b) && c != b
      ensures BlockEnd(e'.data[c]) == 0
    {
      assert e.fat[c] == FREE && c > start;
      assert MayFill(d.fat, start, start, c) && NotAfter(start, c, b);
    }
  }

  /**
   * What is written to an empty file is read back, whatever and however long it
   * is, if and only if the blocks a write may fill are empty ones and then full
   * ones, in the order in which it takes them.
   */
  lemma EmptyFileReadsBackIff(d: Disk, chains: seq<seq<int>>, i: nat)
    requires Structured(d, chains) && i < |d.dir| && Live(d, i) && d.dir[i].size == 0
    ensures (forall text :: IsText(text) ==>
               var w := WriteFrom(d, i, d.dir[i].start, text); Content(w.disk, i) == text[..w.count])
            <==> ReadsBack(d, d.dir[i].start)
  {
    var start := d.dir[i].start;
    assert Owns(d, i, chains[i]);
    if ReadsBack(d, start) {
      forall text | IsText(text)
        ensures var w := WriteFrom(d, i, start, text); Content(w.disk, i) == text[..w.count]
      {
        WriteDir(d, i, start, text);
        if d.fat[0] != FREE {
          ReadBack(d, i, start, text, WriteFrom(d, i, start, text));
        } else {
          ReadBackThroughZero(d, i, start, text, WriteFrom(d, i, start, text));
        }
      }
    } else {
      var text := NotReadBack(d, i, start);
      WriteDir(d, i, start, text);
    }
  }

  // ---- one block ----------------------------------------------------------

  /** A text that fits into an empty block is read back. */
  lemma FreshBlockReadsBack(d: Disk, i: nat, start: nat, text: string)
    requires Shaped(d) && i < |d.dir| && start < |d.fat| && d.dir[i].start == start && d.dir[i].size == 0
    requires BlockEnd(d.data[start]) == 0 && IsText(text) && |text| <= BLOCK_SIZE
    ensures Content(WriteFrom(d, i, start, text).disk, i) == text
  {
    var w := WriteFrom(d, i, start, text);
    assert text != "" ==> w.disk.data[start] == Filled(d.data[start], text, |text|);
    assert text != "" ==> w.disk.data[start][..|text|] == text;
  }

  /** A byte other than the block's first one is not. */
  lemma StaleBlockHidesBytes(d: Disk, i: nat, start: nat, text: string)
    requires Shaped(d) && i < |d.dir| && start < |d.fat| && d.dir[i].start == start && d.dir[i].size == 0
    requires BlockEnd(d.data[start]) > 0 && IsText(text) && |text| == 1 && text[0] != d.data[start][0]
    ensures Content(WriteFrom(d, i, start, text).disk, i) != text
  {
    var w := WriteFrom(d, i, start, text);
    WriteDir(d, i, start, text);
    if w.count > 0 {
      StaleBlockShows(d, i, start, text, w);
      assert text[..w.count] == text;
    }
  }

  /** For texts no longer than a block, only the file's own block matters, and it has to be empty to take them all. */
  lemma OneBlockReadsBackIff(d: Disk, chains: seq<seq<int>>, i: nat)
    requires Structured(d, chains) && i < |d.dir| && Live(d, i) && d.dir[i].size == 0
    ensures (forall text :: IsText(text) && |text| <= BLOCK_SIZE ==> Content(WriteFrom(d, i, d.dir[i].start, text).disk, i) == text)
            <==> BlockEnd(d.data[d.dir[i].start]) == 0
  {
    var start := d.dir[i].start;
    if BlockEnd(d.data[start]) == 0 {
      forall text | IsText(text) && |text| <= BLOCK_SIZE
        ensures Content(WriteFrom(d, i, start, text).disk, i) == text
      {
        FreshBlockReadsBack(d, i, start, text);
      }
    } else {
      StaleBlockHidesBytes(d, i, start, Repeat(Other(d.data[start][0]), 1));
    }
  }
}
