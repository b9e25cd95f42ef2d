/** How a chain of blocks is cut into batches, and what is delivered twice, makes no difference. */
module Batching {
  import opened Base
  import opened Store
  import opened Events

  predicate Increasing(blocks: seq<Block>) {
    forall i, j :: 0 <= i < j < |blocks| ==> blocks[i].number < blocks[j].number
  }

  // ----- Operations do not look at the last block -----

  /** Running a block neither reads nor writes the last-block record. */
  ghost predicate IgnoresLastBlock(run: BlockRun) {
    forall w, number, b :: run(WithLastBlock(w, number), b) == Stamp(run(w, b), number)
  }

  lemma UpsertIgnoresLastBlock(w: Work, number: uint64, row: Row)
    ensures Upsert(WithLastBlock(w, number), row) == WithLastBlock(Upsert(w, row), number)
  {
  }

  lemma CreateIgnoresLastBlock(lib: Lib, w: Work, number: uint64, block: uint64, o: Operation, c: Content)
    ensures StepCreate(lib, WithLastBlock(w, number), block, o, c)
            == WithLastBlock(StepCreate(lib, w, block, o, c), number)
  {
    UpsertIgnoresLastBlock(w, number, CreatedRow(lib, block, o, c));
  }

  lemma UpdateIgnoresLastBlock(lib: Lib, w: Work, number: uint64, block: uint64, c: Content)
    ensures StepUpdate(lib, WithLastBlock(w, number), block, c) == Stamp(StepUpdate(lib, w, block, c), number)
  {
    if GetCurrent(w.db, c.key).Some? {
      UpsertIgnoresLastBlock(w, number, UpdatedRow(lib, block, c, GetCurrent(w.db, c.key).value.1));
    }
  }

  lemma DeleteIgnoresLastBlock(w: Work, number: uint64, key: Key)
    ensures StepDelete(WithLastBlock(w, number), key) == Stamp(StepDelete(w, key), number)
  {
  }

  lemma ChangeIgnoresLastBlock(lib: Lib, w: Work, number: uint64, key: Key, btl: uint64, owner: Str)
    ensures StepExtend(WithLastBlock(w, number), key, btl) == Stamp(StepExtend(w, key, btl), number)
    ensures StepReown(lib, WithLastBlock(w, number), key, owner) == Stamp(StepReown(lib, w, key, owner), number)
  {
    if GetCurrent(w.db, key).Some? {
      var was := GetCurrent(w.db, key).value.1;
      UpsertIgnoresLastBlock(w, number, ExtendedRow(key, btl, was));
      UpsertIgnoresLastBlock(w, number, ReownedRow(lib, key, owner, was));
    }
  }

  lemma StepIgnoresLastBlock(lib: Lib, w: Work, number: uint64, block: uint64, o: Operation)
    ensures Step(lib, WithLastBlock(w, number), block, o) == Stamp(Step(lib, w, block, o), number)
  {
    var a := o.action;
    if a.Create? {
      CreateIgnoresLastBlock(lib, w, number, block, o, a.content);
    } else if a.Update? {
      UpdateIgnoresLastBlock(lib, w, number, block, a.content);
    } else if a.Delete? || a.Expire? {
      DeleteIgnoresLastBlock(w, number, a.key);
    } else if a.ExtendBTL? {
      ChangeIgnoresLastBlock(lib, w, number, a.key, a.btl, []);
    } else if a.ChangeOwner? {
      ChangeIgnoresLastBlock(lib, w, number, a.key, 0, a.owner);
    }
  }

  lemma {:induction false} OperationsIgnoreLastBlock(lib: Lib, w: Work, number: uint64, block: uint64,
      ops: seq<Operation>)
    ensures RunOperations(lib, WithLastBlock(w, number), block, ops, true)
            == Stamp(RunOperations(lib, w, block, ops, true), number)
    decreases ops
  {
    if |ops| > 0 {
      if Superseded(ops) {
        OperationsIgnoreLastBlock(lib, w, number, block, ops[1..]);
      } else {
        StepIgnoresLastBlock(lib, w, number, block, ops[0]);
        match Step(lib, w, block, ops[0])
        case Done(w') => OperationsIgnoreLastBlock(lib, w', number, block, ops[1..]);
        case Failed(_) =>
      }
    }
  }

  lemma FollowerIgnoresLastBlock(lib: Lib)
    ensures IgnoresLastBlock(RunBlock(lib))
  {
    forall w, number, b
      ensures RunBlock(lib)(WithLastBlock(w, number), b) == Stamp(RunBlock(lib)(w, b), number)
    {
      OperationsIgnoreLastBlock(lib, w, number, b.number, b.operations);
    }
  }

  lemma {:induction false} BlocksIgnoreLastBlock(run: BlockRun, w: Work, number: uint64, last: uint64,
      blocks: seq<Block>)
    requires IgnoresLastBlock(run)
    ensures RunBlocks(run, WithLastBlock(w, number), last, blocks) == Stamp(RunBlocks(run, w, last, blocks), number)
    decreases blocks
  {
    if |blocks| > 0 {
      if blocks[0].number <= last {
        BlocksIgnoreLastBlock(run, w, number, last, blocks[1..]);
      } else {
        match run(w, blocks[0])
        case Done(w') => BlocksIgnoreLastBlock(run, w', number, last, blocks[1..]);
        case Failed(_) =>
      }
    }
  }

  // ----- Skipping and splitting -----

  lemma {:induction false} SkipsOld(run: BlockRun, w: Work, last: uint64, old': seq<Block>, rest: seq<Block>)
    requires forall b :: b in old' ==> b.number <= last
    ensures RunBlocks(run, w, last, old' + rest) == RunBlocks(run, w, last, rest)
  {
    if |old'| == 0 {
      assert old' + rest == rest;
    } else {
      assert (old' + rest)[1..] == old'[1..] + rest;
      SkipsOld(run, w, last, old'[1..], rest);
    }
  }

  lemma {:induction false} NewAreNotSkipped(run: BlockRun, w: Work, last: uint64, last': uint64, blocks: seq<Block>)
    requires forall b :: b in blocks ==> b.number > last && b.number > last'
    ensures RunBlocks(run, w, last, blocks) == RunBlocks(run, w, last', blocks)
    decreases blocks
  {
    if |blocks| > 0 {
      assert blocks[0] in blocks;
      match run(w, blocks[0])
      case Done(w') => NewAreNotSkipped(run, w', last, last', blocks[1..]);
      case Failed(_) =>
    }
  }

  lemma {:induction false} BlocksSplit(run: BlockRun, w: Work, last: uint64, first: seq<Block>, second: seq<Block>)
    ensures RunBlocks(run, w, last, first + second)
            == match RunBlocks(run, w, last, first)
               case Done(w') => RunBlocks(run, w', last, second)
               case Failed(n) => Failed(n)
    decreases first
  {
    if |first| == 0 {
      assert first + second == second;
    } else {
      assert (first + second)[1..] == first[1..] + second;
      if first[0].number <= last {
        BlocksSplit(run, w, last, first[1..], second);
      } else {
        match run(w, first[0])
        case Done(w') => BlocksSplit(run, w', last, first[1..], second);
        case Failed(_) =>
      }
    }
  }

  // ----- Batches -----

  /** From the state after m blocks, redelivered blocks are skipped and the rest run as they would have. */
  lemma RestOfChain(run: BlockRun, u: Work, last: uint64, chain: seq<Block>, i: nat, m: nat, j: nat)
    requires IgnoresLastBlock(run)
    requires Increasing(chain) && i <= m <= j <= |chain| && i < j && 0 < m
    requires last <= chain[m - 1].number
    ensures var mid := chain[m - 1].number;
            RunBlocks(run, WithLastBlock(u, mid), mid, chain[i..j]) == Stamp(RunBlocks(run, u, last, chain[m..j]), mid)
  {
    var mid := chain[m - 1].number;
    var v := WithLastBlock(u, mid);
    assert chain[i..j] == chain[i..m] + chain[m..j];
    SkipsOld(run, v, mid, chain[i..m], chain[m..j]);
    NewAreNotSkipped(run, v, mid, last, chain[m..j]);
    BlocksIgnoreLastBlock(run, u, mid, last, chain[m..j]);
  }

  /**
   * Once the first m blocks of a chain are committed, a batch with blocks i to
   * j, where i <= m <= j, redelivers m - i of them; it commits iff a single
   * batch with the first j blocks would have, and leaves the same store.
   */
  lemma OneMoreBatch(run: BlockRun, w: Work, chain: seq<Block>, i: nat, m: nat, j: nat)
    requires IgnoresLastBlock(run)
    requires Increasing(chain) && i <= m <= j <= |chain| && i < j && 0 < m
    requires LastBlock(w.db) <= chain[m - 1].number
    requires RunBatch(run, w, chain[..m]).Done?
    ensures RunBatch(run, RunBatch(run, w, chain[..m]).work, chain[i..j]) == RunBatch(run, w, chain[..j])
  {
    var last, mid, end := LastBlock(w.db), chain[m - 1].number, chain[j - 1].number;
    SplitBatch(run, w, chain, m, j);
    BatchEnds(run, w, chain, 0, m);
    var u := RunBlocks(run, w, last, chain[..m]).work;
    RestOfChain(run, u, last, chain, i, m, j);
    StampTwice(RunBlocks(run, u, last, chain[m..j]), mid, end);
    BatchEnds(run, WithLastBlock(u, mid), chain, i, j);
  }

  lemma BatchEnds(run: BlockRun, w: Work, chain: seq<Block>, i: nat, j: nat)
    requires i < j <= |chain|
    ensures RunBatch(run, w, chain[i..j]) == Stamp(RunBlocks(run, w, LastBlock(w.db), chain[i..j]), chain[j - 1].number)
  {
  }

  lemma SplitBatch(run: BlockRun, w: Work, chain: seq<Block>, m: nat, j: nat)
    requires m <= j <= |chain| && 0 < j
    ensures RunBatch(run, w, chain[..j])
            == match RunBlocks(run, w, LastBlock(w.db), chain[..m])
               case Done(u) => Stamp(RunBlocks(run, u, LastBlock(w.db), chain[m..j]), chain[j - 1].number)
               case Failed(n) => Failed(n)
  {
    assert chain[..j] == chain[..m] + chain[m..j];
    BlocksSplit(run, w, LastBlock(w.db), chain[..m], chain[m..j]);
  }

  lemma StampTwice(o: Outcome, m: uint64, n: uint64)
    ensures Stamp(Stamp(o, m), n) == Stamp(o, n)
  {
  }

  /** Cutting points: batch k holds the blocks cuts[k].0 up to cuts[k].1. */
  predicate Cuts(cuts: seq<(nat, nat)>, n: nat) {
    forall k :: 0 <= k < |cuts| ==> cuts[k].0 < cuts[k].1 <= n
  }

  /** The batches delivered for a cutting of a chain. */
  function CutMessages(chain: seq<Block>, cuts: seq<(nat, nat)>): (messages: seq<Message>)
    requires Cuts(cuts, |chain|)
    ensures |messages| == |cuts|
    ensures forall k :: 0 <= k < |cuts| ==> messages[k] == Batch(chain[cuts[k].0..cuts[k].1])
  {
    seq(|cuts|, k requires 0 <= k < |cuts| => Batch(chain[cuts[k].0..cuts[k].1]))
  }

  /** No gap, no step back: each batch starts at or before, and ends at or after, where the previous one ended. */
  predicate Contiguous(cuts: seq<(nat, nat)>) {
    && (|cuts| > 0 ==> cuts[0].0 == 0)
    && forall k :: 0 < k < |cuts| ==> cuts[k].0 <= cuts[k - 1].1 <= cuts[k].1
  }

  lemma {:induction false} CutsGrow(cuts: seq<(nat, nat)>, i: nat, k: nat)
    requires Contiguous(cuts) && i <= k < |cuts|
    ensures cuts[i].1 <= cuts[k].1
  {
    if i < k {
      CutsGrow(cuts, i, k - 1);
    }
  }

  /** The last message is delivered to the store the others left, if they were all consumed. */
  lemma {:induction false} LastMessage(run: BlockRun, w: Work, messages: seq<Message>, last: Message)
    requires last.Batch? && |last.blocks| > 0
    ensures var before := RunMessages(run, w, messages);
            RunMessages(run, w, messages + [last])
            == if !before.1 then before
               else
                 match RunBatch(run, before.0, last.blocks)
                 case Done(u) => (u, true)
                 case Failed(n) => (Work(before.0.db, n), false)
    decreases messages
  {
    var all := messages + [last];
    if |messages| == 0 {
      assert all == [last] && all[1..] == [];
    } else {
      assert all[0] == messages[0] && all[1..] == messages[1..] + [last];
      if messages[0].Batch? && |messages[0].blocks| > 0 {
        match RunBatch(run, w, messages[0].blocks)
        case Done(u) => LastMessage(run, u, messages[1..], last);
        case Failed(_) =>
      }
    }
  }

  /**
   * What a single batch with the first k cuts' blocks, each once, would have
   * made of the store.
   */
  function Once(run: BlockRun, w: Work, chain: seq<Block>, cuts: seq<(nat, nat)>, k: nat): Outcome
    requires Cuts(cuts, |chain|) && k <= |cuts|
  {
    if k == 0 then Done(w) else RunBatch(run, w, chain[..cuts[k - 1].1])
  }

  /** k cuts were committed, each as a single batch up to its end; then either all are done or the next one fails. */
  predicate CommittedUpTo(run: BlockRun, w: Work, chain: seq<Block>, cuts: seq<(nat, nat)>, k: nat, end: (Work, bool))
    requires Cuts(cuts, |chain|) && k <= |cuts|
  {
    && Once(run, w, chain, cuts, k).Done?
    && end.0.db == Once(run, w, chain, cuts, k).work.db
    && (if end.1 then k == |cuts| && Done(end.0) == Once(run, w, chain, cuts, k)
        else k < |cuts| && Once(run, w, chain, cuts, k + 1) == Failed(end.0.next))
  }

  lemma LaterBlock(chain: seq<Block>, a: nat, b: nat)
    requires Increasing(chain) && a <= b < |chain|
    ensures chain[a].number <= chain[b].number
  {
  }

  lemma AllButLastCut(run: BlockRun, w: Work, chain: seq<Block>, cuts: seq<(nat, nat)>, m: nat)
    requires Cuts(cuts, |chain|) && Contiguous(cuts) && |cuts| == m + 1
    ensures Cuts(cuts[..m], |chain|) && Contiguous(cuts[..m])
    ensures CutMessages(chain, cuts) == CutMessages(chain, cuts[..m]) + [Batch(chain[cuts[m].0..cuts[m].1])]
    ensures forall k :: 0 <= k <= m ==> Once(run, w, chain, cuts[..m], k) == Once(run, w, chain, cuts, k)
  {
  }

  /** With m cuts committed, the next one does what a single batch up to its end does. */
  lemma NextCut(run: BlockRun, w: Work, chain: seq<Block>, cuts: seq<(nat, nat)>, m: nat)
    requires IgnoresLastBlock(run)
    requires Increasing(chain) && Cuts(cuts, |chain|) && Contiguous(cuts) && m < |cuts|
    requires LastBlock(w.db) <= chain[cuts[0].1 - 1].number
    requires Once(run, w, chain, cuts, m).Done?
    ensures RunBatch(run, Once(run, w, chain, cuts, m).work, chain[cuts[m].0..cuts[m].1])
            == Once(run, w, chain, cuts, m + 1)
  {
    if m == 0 {
      assert chain[cuts[0].0..cuts[0].1] == chain[..cuts[0].1];
    } else {
      CutsGrow(cuts, 0, m - 1);
      LaterBlock(chain, cuts[0].1 - 1, cuts[m - 1].1 - 1);
      OneMoreBatch(run, w, chain, cuts[m].0, cuts[m - 1].1, cuts[m].1);
    }
  }

  /**
   * Any way of cutting an increasing chain into batches, overlapping
   * redeliveries included, is invisible: after every commit the store is that
   * of one batch with every block so far once; the first cut to fail is the
   * first whose single batch would, and the store then is the one after the
   * last committed cut.
   */
  lemma {:induction false} BatchingIsInvisible(run: BlockRun, w: Work, chain: seq<Block>, cuts: seq<(nat, nat)>)
    returns (k: nat)
    requires IgnoresLastBlock(run)
    requires Increasing(chain) && Cuts(cuts, |chain|) && Contiguous(cuts)
    requires |cuts| > 0 ==> LastBlock(w.db) <= chain[cuts[0].1 - 1].number
    ensures k <= |cuts| && CommittedUpTo(run, w, chain, cuts, k, RunMessages(run, w, CutMessages(chain, cuts)))
    decreases |cuts|
  {
    if |cuts| == 0 {
      k := 0;
    } else {
      var m := |cuts| - 1;
      var init, batch := cuts[..m], chain[cuts[m].0..cuts[m].1];
      AllButLastCut(run, w, chain, cuts, m);
      k := BatchingIsInvisible(run, w, chain, init);
      LastMessage(run, w, CutMessages(chain, init), Batch(batch));
      var before := RunMessages(run, w, CutMessages(chain, init));
      if before.1 {
        NextCut(run, w, chain, cuts, m);
        k := if RunBatch(run, before.0, batch).Done? then m + 1 else m;
      }
    }
  }

  /** The blocks of a list that come after the last block. */
  function NewBlocks(last: uint64, blocks: seq<Block>): seq<Block> {
    if |blocks| == 0 then []
    else (if blocks[0].number <= last then [] else [blocks[0]]) + NewBlocks(last, blocks[1..])
  }

  /** Every block of a list, once and in order. */
  function RunAll(run: BlockRun, w: Work, blocks: seq<Block>): Outcome
    decreases blocks
  {
    if |blocks| == 0 then Done(w)
    else
      match run(w, blocks[0])
      case Done(w') => RunAll(run, w', blocks[1..])
      case Failed(n) => Failed(n)
  }

  /** They are the blocks with a number above it, in their order. */
  lemma {:induction false} NewBlocksAre(last: uint64, blocks: seq<Block>)
    ensures forall b :: b in NewBlocks(last, blocks) <==> b in blocks && b.number > last
    ensures Increasing(blocks) ==> Increasing(NewBlocks(last, blocks))
  {
    if |blocks| > 0 {
      var rest := NewBlocks(last, blocks[1..]);
      NewBlocksAre(last, blocks[1..]);
      assert forall b :: b in blocks <==> b == blocks[0] || b in blocks[1..];
      if Increasing(blocks) {
        assert forall i :: 0 <= i < |rest| ==> rest[i] in rest;
      }
    }
  }

  /** No block leaves the store alone; one more block is run on what those before it left. */
  lemma {:induction false} RunAllExtends(run: BlockRun, w: Work, blocks: seq<Block>, b: Block)
    ensures RunAll(run, w, []) == Done(w)
    ensures RunAll(run, w, blocks + [b])
            == match RunAll(run, w, blocks)
               case Done(u) => run(u, b)
               case Failed(n) => Failed(n)
    decreases blocks
  {
    var all := blocks + [b];
    if |blocks| == 0 {
      assert all == [b] && all[1..] == [];
      match run(w, b)
      case Done(u) => assert RunAll(run, u, all[1..]) == Done(u);
      case Failed(_) =>
    } else {
      assert all[0] == blocks[0] && all[1..] == blocks[1..] + [b];
      match run(w, blocks[0])
      case Done(u) => RunAllExtends(run, u, blocks[1..], b);
      case Failed(_) =>
    }
  }

  lemma {:induction false} NewBlocksRunOnce(run: BlockRun, w: Work, last: uint64, blocks: seq<Block>)
    ensures RunBlocks(run, w, last, blocks) == RunAll(run, w, NewBlocks(last, blocks))
    decreases blocks
  {
    if |blocks| > 0 {
      var rest := NewBlocks(last, blocks[1..]);
      if blocks[0].number <= last {
        assert NewBlocks(last, blocks) == rest;
        NewBlocksRunOnce(run, w, last, blocks[1..]);
      } else {
        assert NewBlocks(last, blocks)[1..] == rest;
        match run(w, blocks[0])
        case Done(w') => NewBlocksRunOnce(run, w', last, blocks[1..]);
        case Failed(_) =>
      }
    }
  }

  /** If the blocks up to the last cut can be run, so can those up to any earlier one. */
  lemma EarlierCutsRun(run: BlockRun, w: Work, chain: seq<Block>, cuts: seq<(nat, nat)>, k: nat)
    requires Cuts(cuts, |chain|) && Contiguous(cuts) && 0 < k <= |cuts| && Once(run, w, chain, cuts, |cuts|).Done?
    ensures Once(run, w, chain, cuts, k).Done?
  {
    CutsGrow(cuts, k - 1, |cuts| - 1);
    SplitBatch(run, w, chain, cuts[k - 1].1, cuts[|cuts| - 1].1);
  }

  lemma OnceIsRunAll(run: BlockRun, w: Work, chain: seq<Block>, cuts: seq<(nat, nat)>, k: nat)
    requires Cuts(cuts, |chain|) && 0 < k <= |cuts|
    ensures var end := cuts[k - 1].1;
            Once(run, w, chain, cuts, k)
            == Stamp(RunAll(run, w, NewBlocks(LastBlock(w.db), chain[..end])), chain[end - 1].number)
  {
    NewBlocksRunOnce(run, w, LastBlock(w.db), chain[..cuts[k - 1].1]);
  }

  /** If every new block can be run, every cut commits. */
  lemma AllCutsCommit(run: BlockRun, w: Work, chain: seq<Block>, cuts: seq<(nat, nat)>)
    requires IgnoresLastBlock(run)
    requires Increasing(chain) && Cuts(cuts, |chain|) && Contiguous(cuts) && |cuts| > 0
    requires LastBlock(w.db) <= chain[cuts[0].1 - 1].number
    requires RunAll(run, w, NewBlocks(LastBlock(w.db), chain[..cuts[|cuts| - 1].1])).Done?
    ensures var end := cuts[|cuts| - 1].1;
            RunMessages(run, w, CutMessages(chain, cuts))
            == (WithLastBlock(RunAll(run, w, NewBlocks(LastBlock(w.db), chain[..end])).work, chain[end - 1].number),
                true)
  {
    OnceIsRunAll(run, w, chain, cuts, |cuts|);
    var k := BatchingIsInvisible(run, w, chain, cuts);
    if k < |cuts| {
      EarlierCutsRun(run, w, chain, cuts, k + 1);
    }
  }

  /**
   * Exactly once: however the follower's chain is cut into overlapping
   * batches, the store it ends with is that of running each block after the
   * initially stored last block once, in order, as far as cut k; block 0 of a
   * fresh store is not run. If a batch fails, running on would have failed.
   */
  lemma FollowerRunsEachBlockOnce(lib: Lib, w: Work, chain: seq<Block>, cuts: seq<(nat, nat)>) returns (k: nat)
    requires Increasing(chain) && Cuts(cuts, |chain|) && Contiguous(cuts) && |cuts| > 0
    requires LastBlock(w.db) <= chain[cuts[0].1 - 1].number
    ensures var end := RunMessages(RunBlock(lib), w, CutMessages(chain, cuts));
            && k <= |cuts| && (end.1 <==> k == |cuts|)
            && (k == 0 ==> end.0.db == w.db)
            && (k > 0 ==>
                  var done := RunAll(RunBlock(lib), w, NewBlocks(LastBlock(w.db), chain[..cuts[k - 1].1]));
                  && done.Done? && end.0.db == WithLastBlock(done.work, chain[cuts[k - 1].1 - 1].number).db
                  && (end.1 ==> end.0.next == done.work.next))
            && (k < |cuts|
                ==> RunAll(RunBlock(lib), w, NewBlocks(LastBlock(w.db), chain[..cuts[k].1])) == Failed(end.0.next))
  {
    FollowerIgnoresLastBlock(lib);
    k := BatchingIsInvisible(RunBlock(lib), w, chain, cuts);
    if k > 0 {
      OnceIsRunAll(RunBlock(lib), w, chain, cuts, k);
    }
    if k < |cuts| {
      OnceIsRunAll(RunBlock(lib), w, chain, cuts, k + 1);
    }
  }

  /** A chain without its block 0, which a new store never runs. */
  function AfterGenesis(blocks: seq<Block>): seq<Block> {
    if |blocks| > 0 && blocks[0].number == 0 then blocks[1..] else blocks
  }

  lemma {:induction false} AllNew(last: uint64, blocks: seq<Block>)
    requires forall b :: b in blocks ==> b.number > last
    ensures NewBlocks(last, blocks) == blocks
  {
    if |blocks| > 0 {
      assert blocks[0] in blocks;
      AllNew(last, blocks[1..]);
    }
  }

  lemma NewSinceGenesis(blocks: seq<Block>)
    requires Increasing(blocks)
    ensures NewBlocks(0, blocks) == AfterGenesis(blocks)
  {
    AllNew(0, AfterGenesis(blocks));
    if |blocks| > 0 && blocks[0].number == 0 {
      assert NewBlocks(0, blocks) == [] + NewBlocks(0, blocks[1..]);
    }
  }

  /** A store with no block recorded runs every block from 1 on, once and in order, and records the end. */
  lemma FreshStoreRuns(run: BlockRun, w: Work, chain: seq<Block>)
    requires w.db.lastBlock == None && Increasing(chain) && |chain| > 0
    ensures RunBatch(run, w, chain)
            == match RunAll(run, w, AfterGenesis(chain))
               case Done(u) => Done(u.(db := u.db.(lastBlock := Some(chain[|chain| - 1].number))))
               case Failed(n) => Failed(n)
  {
    NewBlocksRunOnce(run, w, 0, chain);
    NewSinceGenesis(chain);
  }

  /** A store with a block recorded passes over the blocks up to it, runs those after it, and records the end. */
  lemma RecordedBlockSkips(run: BlockRun, w: Work, last: uint64, old': seq<Block>, new': seq<Block>)
    requires w.db.lastBlock == Some(last) && |old' + new'| > 0
    requires (forall b :: b in old' ==> b.number <= last) && (forall b :: b in new' ==> b.number > last)
    ensures RunBatch(run, w, old' + new')
            == match RunAll(run, w, new')
               case Done(u) => Done(u.(db := u.db.(lastBlock := Some((old' + new')[|old' + new'| - 1].number))))
               case Failed(n) => Failed(n)
  {
    SkipsOld(run, w, last, old', new');
    NewBlocksRunOnce(run, w, last, new');
    AllNew(last, new');
  }

  /** After k cuts: nothing if k is 0, else every block from 1 on up to the end of cut k, and that end recorded. */
  function FreshOnce(run: BlockRun, w: Work, chain: seq<Block>, cuts: seq<(nat, nat)>, k: nat): Outcome
    requires Cuts(cuts, |chain|) && k <= |cuts|
  {
    if k == 0 then Done(w)
    else
      match RunAll(run, w, AfterGenesis(chain[..cuts[k - 1].1]))
      case Done(u) => Done(u.(db := u.db.(lastBlock := Some(chain[cuts[k - 1].1 - 1].number))))
      case Failed(n) => Failed(n)
  }

  lemma FreshOnceIsOnce(run: BlockRun, w: Work, chain: seq<Block>, cuts: seq<(nat, nat)>, k: nat)
    requires w.db.lastBlock == None && Increasing(chain) && Cuts(cuts, |chain|) && k <= |cuts|
    ensures FreshOnce(run, w, chain, cuts, k) == Once(run, w, chain, cuts, k)
  {
    if k > 0 {
      FreshStoreRuns(run, w, chain[..cuts[k - 1].1]);
    }
  }

  /** Exactly once from a store with no block recorded: every block from 1 on, as far as the last committed cut. */
  lemma FreshFollowerRunsAll(lib: Lib, w: Work, chain: seq<Block>, cuts: seq<(nat, nat)>) returns (k: nat)
    requires w.db.lastBlock == None
    requires Increasing(chain) && Cuts(cuts, |chain|) && Contiguous(cuts)
    ensures k <= |cuts|
    ensures match FreshOnce(RunBlock(lib), w, chain, cuts, k)
            case Failed(_) => false
            case Done(done) =>
              var end := RunMessages(RunBlock(lib), w, CutMessages(chain, cuts));
              && end.0.db == done.db
              && (if end.1 then k == |cuts| && end.0 == done
                  else k < |cuts| && FreshOnce(RunBlock(lib), w, chain, cuts, k + 1) == Failed(end.0.next))
  {
    FollowerIgnoresLastBlock(lib);
    k := BatchingIsInvisible(RunBlock(lib), w, chain, cuts);
    FreshOnceIsOnce(RunBlock(lib), w, chain, cuts, k);
    if k < |cuts| {
      FreshOnceIsOnce(RunBlock(lib), w, chain, cuts, k + 1);
    }
  }

  /** An error from the iterator ends the run: what came before it stands, nothing after it is applied. */
  lemma {:induction false} StopsAtError(run: BlockRun, w: Work, before: seq<Message>, after: seq<Message>)
    ensures RunMessages(run, w, before + [ReceiveError] + after) == (RunMessages(run, w, before).0, false)
    decreases before
  {
    var all := before + [ReceiveError] + after;
    if |before| == 0 {
      assert all[0] == ReceiveError;
    } else {
      assert all[0] == before[0] && all[1..] == before[1..] + [ReceiveError] + after;
      if before[0].Batch? && |before[0].blocks| > 0 {
        match RunBatch(run, w, before[0].blocks)
        case Done(u) => StopsAtError(run, u, before[1..], after);
        case Failed(_) =>
      }
    }
  }

  /**
   * The stored last block is written without a test: it goes backwards exactly
   * when the batch ends before it, whatever its blocks.
   */
  lemma LastBlockMovesTo(run: BlockRun, w: Work, blocks: seq<Block>)
    requires |blocks| > 0 && RunBatch(run, w, blocks).Done?
    ensures LastBlock(RunBatch(run, w, blocks).work.db) < LastBlock(w.db)
            <==> blocks[|blocks| - 1].number < LastBlock(w.db)
  {
  }

  /** A batch that ends before the stored last block applies nothing, yet what it moved back over is run again. */
  lemma RedeliveryAfterStepBack(run: BlockRun, w: Work, a: Block, b: Block)
    requires a.number < b.number <= LastBlock(w.db)
    ensures var back := RunBatch(run, w, [a]);
            back == Done(WithLastBlock(w, a.number))
            && RunBatch(run, w, [b]) == Done(WithLastBlock(w, b.number))
            && RunBatch(run, back.work, [b])
               == Stamp(run(back.work, b), b.number)
  {
    var back := WithLastBlock(w, a.number);
    assert [a][1..] == [] && [b][1..] == [];
    assert RunBlocks(run, w, LastBlock(w.db), [a]) == Done(w);
    assert RunBlocks(run, w, LastBlock(w.db), [b]) == Done(w);
    match run(back, b)
    case Done(u) => assert RunBlocks(run, u, a.number, [b][1..]) == Done(u);
    case Failed(_) =>
  }
}
