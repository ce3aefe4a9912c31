/**
  How the blockchain explorer follows the node's chain: which heights it asks the node for, and what
  it makes of the blocks the node returns.
 */
module ChainUpdate {

  const HEIGHTS: nat := 0x1_0000_0000

  datatype Block = Block(height: nat, hash: nat, isOrphaned: bool)

  // ----- heights asked for --------------------------------------------------

  /** One notification of a new local height; the node is asked only if somebody observes. */
  datatype Update = Update(height: nat, observed: bool)

  function Range(lo: nat, hi: int): (r: seq<nat>)
    ensures |r| == if lo <= hi then hi + 1 - lo else 0
    ensures forall k :: 0 <= k < |r| ==> r[k] == lo + k
  {
    if lo <= hi then seq(hi + 1 - lo, k requires 0 <= k => lo + k) else []
  }

  lemma InRange(lo: nat, hi: nat, x: nat)
    ensures x in Range(lo, hi) <==> lo <= x <= hi
  {
    if lo <= x <= hi { assert Range(lo, hi)[x - lo] == x; }
  }

  /** The height known when update `i` arrives. */
  function Known(start: nat, updates: seq<Update>, i: nat): nat
    requires i <= |updates|
  {
    if i == 0 then start else updates[i - 1].height
  }

  ghost predicate Climbing(start: nat, updates: seq<Update>) {
    forall i, j :: 0 <= i <= j < |updates| ==> Known(start, updates, i) <= updates[j].height
  }

  /** The request made by update `i`, if any, includes height `x`. */
  ghost predicate AsksFor(start: nat, updates: seq<Update>, i: nat, x: nat)
    requires i < |updates|
  {
    updates[i].observed && x in Range(Known(start, updates, i), updates[i].height)
  }

  /** With observers present throughout, no height is skipped. */
  lemma {:induction false} NoHeightIsSkipped(start: nat, updates: seq<Update>, x: nat)
    requires Climbing(start, updates) && updates != []
    requires forall i :: 0 <= i < |updates| ==> updates[i].observed
    requires start <= x <= updates[|updates| - 1].height
    ensures exists i :: 0 <= i < |updates| && AsksFor(start, updates, i, x)
    decreases |updates|
  {
    var n := |updates| - 1;
    if Known(start, updates, n) <= x {
      InRange(Known(start, updates, n), updates[n].height, x);
      assert AsksFor(start, updates, n, x);
    } else {
      var earlier := updates[..n];
      assert forall i :: 0 <= i <= n ==> Known(start, earlier, i) == Known(start, updates, i);
      NoHeightIsSkipped(start, earlier, x);
      var i :| 0 <= i < |earlier| && AsksFor(start, earlier, i, x);
      assert AsksFor(start, updates, i, x);
    }
  }

  /** Two requests share a height only where one ends and the next begins. */
  lemma OverlapOnlyAtBoundaries(start: nat, updates: seq<Update>, i: nat, j: nat, x: nat)
    requires Climbing(start, updates) && i < j < |updates|
    requires AsksFor(start, updates, i, x) && AsksFor(start, updates, j, x)
    ensures x == updates[i].height == Known(start, updates, j)
  {
    InRange(Known(start, updates, i), updates[i].height, x);
    InRange(Known(start, updates, j), updates[j].height, x);
    assert Known(start, updates, i + 1) <= updates[j - 1].height;
  }

  /** An update that leaves `x` strictly inside what it passes is the only one that may ask for it. */
  lemma OnlyThePasserAsks(start: nat, updates: seq<Update>, i: nat, j: nat, x: nat)
    requires Climbing(start, updates) && i < |updates| && j < |updates|
    requires Known(start, updates, i) < x < updates[i].height
    requires Known(start, updates, j) <= x <= updates[j].height
    ensures i == j
  {
    if i < j { KnownClimbs(start, updates, i, j); }
    if j < i { KnownClimbs(start, updates, j, i); }
  }

  lemma KnownClimbs(start: nat, updates: seq<Update>, i: nat, j: nat)
    requires Climbing(start, updates) && i < j < |updates|
    ensures updates[i].height <= Known(start, updates, j)
  {
    assert Known(start, updates, i + 1) <= updates[j - 1].height || i + 1 == j;
  }

  /** A height passed over by one update is asked for in the run exactly if that update was observed. */
  lemma AskedForIffObserved(start: nat, updates: seq<Update>, i: nat, x: nat)
    requires Climbing(start, updates) && i < |updates|
    requires Known(start, updates, i) < x < updates[i].height
    ensures (exists j :: 0 <= j < |updates| && AsksFor(start, updates, j, x)) <==> updates[i].observed
  {
    InRange(Known(start, updates, i), updates[i].height, x);
    if updates[i].observed {
      assert AsksFor(start, updates, i, x);
    }
    forall j | 0 <= j < |updates| && AsksFor(start, updates, j, x) ensures j == i {
      InRange(Known(start, updates, j), updates[j].height, x);
      OnlyThePasserAsks(start, updates, i, j, x);
    }
  }

  /** The loop counter after `k` rounds, a 32-bit word. */
  function Counter(start: nat, k: nat): nat {
    (start + k) % HEIGHTS
  }

  /** The loop over the heights ends if and only if the new height is not the largest word. */
  lemma HeightLoopEndsIff(start: nat, height: nat)
    requires start < HEIGHTS && height < HEIGHTS
    ensures (exists k :: Counter(start, k) > height) <==> height < HEIGHTS - 1
  {
    if height < HEIGHTS - 1 {
      assert Counter(start, HEIGHTS - 1 - start) == HEIGHTS - 1;
    }
  }

  // ----- blocks returned ----------------------------------------------------

  function Flatten(reply: seq<seq<Block>>): seq<Block> {
    if reply == [] then [] else Flatten(reply[..|reply|-1]) + reply[|reply|-1]
  }

  /** What a returned block is to the observers. */
  datatype Kind = Orphan | New | KnownTop

  function KindOf(top: Block, b: Block): Kind {
    if b.isOrphaned then Orphan
    else if b.height <= top.height && b.hash == top.hash then KnownTop
    else New
  }

  function Select(top: Block, kind: Kind, blocks: seq<Block>): seq<Block> {
    if blocks == [] then []
    else
      var last := blocks[|blocks|-1];
      Select(top, kind, blocks[..|blocks|-1]) + (if KindOf(top, last) == kind then [last] else [])
  }

  lemma SelectLast(top: Block, kind: Kind, before: seq<Block>, last: Block)
    ensures multiset(Select(top, kind, before + [last]))
            == multiset(Select(top, kind, before)) + (if KindOf(top, last) == kind then multiset{last} else multiset{})
  {
    SelectNext(top, kind, before, last);
  }

  ghost function Kinds(top: Block, blocks: seq<Block>): multiset<Block> {
    multiset(Select(top, Orphan, blocks)) + multiset(Select(top, New, blocks)) + multiset(Select(top, KnownTop, blocks))
  }

  /** Every returned block is reported as an orphan, reported as new, or is the top known before. */
  lemma {:induction false} EveryBlockHasOneKind(top: Block, blocks: seq<Block>)
    ensures Kinds(top, blocks) == multiset(blocks)
  {
    if blocks != [] {
      var before, last := blocks[..|blocks|-1], blocks[|blocks|-1];
      EveryBlockHasOneKind(top, before);
      assert blocks == before + [last];
      KindsLast(top, before, last);
    }
  }

  lemma KindsLast(top: Block, before: seq<Block>, last: Block)
    ensures Kinds(top, before + [last]) == Kinds(top, before) + multiset{last}
  {
    SelectLast(top, Orphan, before, last);
    SelectLast(top, New, before, last);
    SelectLast(top, KnownTop, before, last);
  }

  /** A block to report as new: in the main chain, and above the known top or different from it. */
  predicate IsNews(top: Block, b: Block) {
    !b.isOrphaned && (b.height > top.height || b.hash != top.hash)
  }

  lemma {:induction false} SelectCounts(top: Block, kind: Kind, blocks: seq<Block>, b: Block)
    ensures multiset(Select(top, kind, blocks))[b] == if KindOf(top, b) == kind then multiset(blocks)[b] else 0
  {
    if blocks != [] {
      var before, last := blocks[..|blocks|-1], blocks[|blocks|-1];
      SelectCounts(top, kind, before, b);
      assert blocks == before + [last];
      SelectLast(top, kind, before, last);
    }
  }

  /** Each kind holds every occurrence of its blocks, told by their fields, and no other block. */
  lemma KindsByFields(top: Block, blocks: seq<Block>, b: Block)
    ensures multiset(Select(top, Orphan, blocks))[b] == if b.isOrphaned then multiset(blocks)[b] else 0
    ensures multiset(Select(top, New, blocks))[b] == if IsNews(top, b) then multiset(blocks)[b] else 0
    ensures multiset(Select(top, KnownTop, blocks))[b]
         == if !b.isOrphaned && b.height <= top.height && b.hash == top.hash then multiset(blocks)[b] else 0
  {
    SelectCounts(top, Orphan, blocks, b);
    SelectCounts(top, New, blocks, b);
    SelectCounts(top, KnownTop, blocks, b);
  }

  lemma {:induction false} SelectConcat(top: Block, kind: Kind, first: seq<Block>, second: seq<Block>)
    ensures Select(top, kind, first + second) == Select(top, kind, first) + Select(top, kind, second)
    decreases |second|
  {
    if second == [] {
      assert first + [] == first;
    } else {
      var before, last := second[..|second|-1], second[|second|-1];
      SelectConcat(top, kind, first, before);
      assert first + second == first + before + [last];
      SelectNext(top, kind, first + before, last);
      SelectNext(top, kind, before, last);
      assert before + [last] == second;
    }
  }

  /** The blocks of a reply in order, height by height. */
  lemma {:induction false} FlattenConcat(first: seq<seq<Block>>, second: seq<seq<Block>>)
    ensures Flatten(first + second) == Flatten(first) + Flatten(second)
    ensures forall blocks :: Flatten([blocks]) == blocks
    decreases |second|
  {
    forall blocks: seq<Block> ensures Flatten([blocks]) == blocks {
      assert [blocks][..0] == [];
      assert [] + blocks == blocks;
    }
    if second == [] {
      assert first + [] == first;
    } else {
      var before := second[..|second|-1];
      FlattenConcat(first, before);
      assert (first + second)[..|first + second|-1] == first + before;
    }
  }

  ghost predicate Returned(reply: seq<seq<Block>>, b: Block) {
    exists i :: 0 <= i < |reply| && b in reply[i]
  }

  lemma {:induction false} FlattenHolds(reply: seq<seq<Block>>, b: Block)
    ensures b in Flatten(reply) <==> Returned(reply, b)
  {
    if reply != [] {
      var before := reply[..|reply|-1];
      FlattenHolds(before, b);
      if Returned(before, b) {
        var i :| 0 <= i < |before| && b in before[i];
        assert b in reply[i];
      }
      if Returned(reply, b) && b !in reply[|reply|-1] {
        var i :| 0 <= i < |reply| && b in reply[i];
        assert b in before[i];
      }
    }
  }

  /** What is reported of a reply, in terms of the fields of the returned blocks and of the known top. */
  lemma ReportedIff(top: Block, reply: seq<seq<Block>>, b: Block)
    ensures b in Select(top, New, Flatten(reply)) <==> Returned(reply, b) && IsNews(top, b)
    ensures b in Select(top, Orphan, Flatten(reply)) <==> Returned(reply, b) && b.isOrphaned
  {
    var blocks := Flatten(reply);
    FlattenHolds(reply, b);
    KindsByFields(top, blocks, b);
    assert b in blocks <==> multiset(blocks)[b] > 0;
    assert b in Select(top, New, blocks) <==> multiset(Select(top, New, blocks))[b] > 0;
    assert b in Select(top, Orphan, blocks) <==> multiset(Select(top, Orphan, blocks))[b] > 0;
  }

  /** Position `p` holds the first block of the greatest height. */
  ghost predicate FirstTallest(blocks: seq<Block>, p: nat) {
    && p < |blocks|
    && (forall j :: 0 <= j < |blocks| ==> blocks[j].height <= blocks[p].height)
    && (forall j :: 0 <= j < p ==> blocks[j].height < blocks[p].height)
  }

  /** Position `k` holds the first block in the main chain at or after `p`. */
  ghost predicate FirstLive(blocks: seq<Block>, p: nat, k: nat) {
    && p <= k < |blocks| && !blocks[k].isOrphaned
    && (forall j :: p <= j < k ==> blocks[j].isOrphaned)
  }

  /** The new top: the first block in the main chain from the first tallest block on. */
  ghost predicate TopFound(blocks: seq<Block>, top: Block, p: nat, k: nat) {
    FirstTallest(blocks, p) && FirstLive(blocks, p, k) && top == blocks[k]
  }

  /** From the first tallest block on there are only orphans. */
  ghost predicate NoTop(blocks: seq<Block>) {
    blocks == [] ||
    exists p: nat :: FirstTallest(blocks, p) && forall j :: p <= j < |blocks| ==> blocks[j].isOrphaned
  }

  /** What the scan for the new top has found in `blocks`, and where. */
  ghost predicate Scanned(blocks: seq<Block>, topHeight: nat, found: bool, top: Block, p: nat, k: nat) {
    if blocks == [] then topHeight == 0 && !found
    else
      && FirstTallest(blocks, p) && topHeight == blocks[p].height
      && (if found then FirstLive(blocks, p, k) && top == blocks[k]
          else forall j :: p <= j < |blocks| ==> blocks[j].isOrphaned)
  }

  lemma ScanTaller(blocks: seq<Block>, topHeight: nat, found: bool, top: Block, p: nat, k: nat, b: Block, top': Block)
    requires Scanned(blocks, topHeight, found, top, p, k) && (topHeight < b.height || blocks == [])
    requires b.isOrphaned || top' == b
    ensures Scanned(blocks + [b], b.height, !b.isOrphaned, top', |blocks|, |blocks|)
  {
    var blocks' := blocks + [b];
    forall j | 0 <= j < |blocks| ensures blocks'[j].height < b.height {
      assert blocks'[j] == blocks[j];
    }
  }

  lemma ScanOther(blocks: seq<Block>, topHeight: nat, found: bool, top: Block, p: nat, k: nat, b: Block, top': Block)
    requires Scanned(blocks, topHeight, found, top, p, k) && blocks != [] && b.height <= topHeight
    requires top' == if found || b.isOrphaned then top else b
    ensures Scanned(blocks + [b], topHeight, found || !b.isOrphaned, top', p, if found then k else |blocks|)
  {
    var blocks' := blocks + [b];
    assert forall j :: 0 <= j < |blocks| ==> blocks'[j] == blocks[j];
    assert FirstTallest(blocks', p);
  }

  /** The local variables of the handler of a reply. */
  datatype Progress = Progress(
    newBlocks: seq<Block>,
    orphanedBlocks: seq<Block>,
    topHeight: nat,
    found: bool,
    top: Block)

  ghost predicate Describes(known: Block, done: seq<Block>, pr: Progress) {
    && pr.newBlocks == Select(known, New, done)
    && pr.orphanedBlocks == Select(known, Orphan, done)
    && exists p: nat, k: nat :: Scanned(done, pr.topHeight, pr.found, pr.top, p, k)
  }

  lemma ScanNext(done: seq<Block>, pr: Progress, b: Block, next: Progress)
    requires exists p: nat, k: nat :: Scanned(done, pr.topHeight, pr.found, pr.top, p, k)
    requires next.topHeight == if pr.topHeight < b.height then b.height else pr.topHeight
    requires var keep := pr.found && b.height <= pr.topHeight;
             next.found == (keep || !b.isOrphaned) && next.top == if keep || b.isOrphaned then pr.top else b
    ensures exists p: nat, k: nat :: Scanned(done + [b], next.topHeight, next.found, next.top, p, k)
  {
    var p: nat, k: nat :| Scanned(done, pr.topHeight, pr.found, pr.top, p, k);
    if pr.topHeight < b.height || done == [] {
      ScanTaller(done, pr.topHeight, pr.found, pr.top, p, k, b, next.top);
    } else {
      ScanOther(done, pr.topHeight, pr.found, pr.top, p, k, b, next.top);
    }
  }

  lemma SelectNext(known: Block, kind: Kind, done: seq<Block>, b: Block)
    ensures Select(known, kind, done + [b])
         == Select(known, kind, done) + (if KindOf(known, b) == kind then [b] else [])
  {
    assert (done + [b])[..|done|] == done;
  }

  lemma DescribesNext(known: Block, done: seq<Block>, pr: Progress, b: Block, next: Progress)
    requires Describes(known, done, pr)
    requires next.newBlocks == pr.newBlocks + (if KindOf(known, b) == New then [b] else [])
    requires next.orphanedBlocks == pr.orphanedBlocks + (if b.isOrphaned then [b] else [])
    requires next.topHeight == if pr.topHeight < b.height then b.height else pr.topHeight
    requires var keep := pr.found && b.height <= pr.topHeight;
             next.found == (keep || !b.isOrphaned) && next.top == if keep || b.isOrphaned then pr.top else b
    ensures Describes(known, done + [b], next)
  {
    SelectNext(known, New, done, b);
    SelectNext(known, Orphan, done, b);
    ScanNext(done, pr, b, next);
  }

  lemma Concludes(known: Block, blocks: seq<Block>, pr: Progress)
    requires Describes(known, blocks, pr)
    ensures pr.found ==> exists p: nat, k: nat :: TopFound(blocks, pr.top, p, k)
    ensures !pr.found ==> NoTop(blocks)
  {
    var p: nat, k: nat :| Scanned(blocks, pr.topHeight, pr.found, pr.top, p, k);
    if pr.found {
      assert TopFound(blocks, pr.top, p, k);
    } else {
      assert blocks == [] || FirstTallest(blocks, p);
    }
  }

  ghost predicate IsTallest(top: Block, blocks: seq<Block>) {
    forall j :: 0 <= j < |blocks| ==> blocks[j].height <= top.height
  }

  /** From `p` on, a lower block in the main chain comes only after one as tall as the block at `p`. */
  ghost predicate LeadsFrom(blocks: seq<Block>, p: nat)
    requires p < |blocks|
  {
    forall j :: p <= j < |blocks| && !blocks[j].isOrphaned && blocks[j].height < blocks[p].height ==>
      exists i :: p <= i < j && !blocks[i].isOrphaned && blocks[i].height == blocks[p].height
  }

  /** After the first tallest block the main chain goes on with a block of the same height. */
  ghost predicate TallestLeads(blocks: seq<Block>) {
    forall p: nat :: FirstTallest(blocks, p) ==> LeadsFrom(blocks, p)
  }

  /** The new top is as tall as any block of the reply exactly if the tallest lead in it. */
  lemma TopIsTallestIff(blocks: seq<Block>, top: Block, p: nat, k: nat)
    requires TopFound(blocks, top, p, k)
    ensures IsTallest(top, blocks) <==> TallestLeads(blocks)
  {
    assert IsTallest(top, blocks) <==> top.height == blocks[p].height;
    forall q: nat | FirstTallest(blocks, q) ensures q == p {
      assert blocks[p].height <= blocks[q].height && blocks[q].height <= blocks[p].height;
    }
    if top.height < blocks[p].height {
      assert !LeadsFrom(blocks, p);
    }
  }

  ghost predicate Ascending(blocks: seq<Block>) {
    forall i, j :: 0 <= i <= j < |blocks| ==> blocks[i].height <= blocks[j].height
  }

  /**
    If the node returns the blocks by ascending height, the new top is the first block in the main
    chain among those of the greatest height.
   */
  lemma AscendingTop(blocks: seq<Block>, top: Block, p: nat, k: nat)
    requires TopFound(blocks, top, p, k) && Ascending(blocks)
    ensures IsTallest(top, blocks)
    ensures forall j :: 0 <= j < k && blocks[j].height == top.height ==> blocks[j].isOrphaned
  {
    assert TallestLeads(blocks) by {
      forall q: nat | FirstTallest(blocks, q) ensures LeadsFrom(blocks, q) {
        assert forall j :: q <= j < |blocks| ==> blocks[q].height <= blocks[j].height;
      }
    }
    TopIsTallestIff(blocks, top, p, k);
  }

  /** A reply in which a tall orphan comes before a lower block, whatever comes before and after them. */
  lemma UnorderedTop(before: seq<Block>, tall: Block, low: Block, after: seq<Block>)
    requires tall.isOrphaned && !low.isOrphaned && low.height < tall.height
    requires forall j :: 0 <= j < |before| ==> before[j].height < tall.height
    requires forall j :: 0 <= j < |after| ==> after[j].height <= tall.height
    ensures var blocks := before + [tall, low] + after;
            TopFound(blocks, low, |before|, |before| + 1) && !TallestLeads(blocks)
  {
    var blocks, p := before + [tall, low] + after, |before|;
    assert forall j :: 0 <= j < |before| ==> blocks[j] == before[j];
    assert forall j :: p + 2 <= j < |blocks| ==> blocks[j] == after[j - (p + 2)];
    assert blocks[p] == tall && blocks[p + 1] == low;
    assert FirstTallest(blocks, p) && FirstLive(blocks, p, p + 1);
    TopIsTallestIff(blocks, low, p, p + 1);
  }

  lemma TopConcludes(blocks: seq<Block>, top: Block)
    requires exists p: nat, k: nat :: TopFound(blocks, top, p, k)
    ensures IsTallest(top, blocks) <==> TallestLeads(blocks)
    ensures Ascending(blocks) ==> IsTallest(top, blocks)
  {
    var p: nat, k: nat :| TopFound(blocks, top, p, k);
    TopIsTallestIff(blocks, top, p, k);
    if Ascending(blocks) { AscendingTop(blocks, top, p, k); }
  }

  /** The explorer's fields and its two handlers. */
  class Tracker {
    var knownTop: Block
    var knownHeight: nat

    constructor (top: Block)
      ensures knownTop == top && knownHeight == top.height
    {
      knownTop := top;
      knownHeight := top.height;
    }

    /** A new local height: the heights to ask the node for, if there are observers; not `ok` if it goes down. */
    method LocalBlockchainUpdated(height: nat, observers: nat) returns (ok: bool, heights: seq<nat>)
      requires height < HEIGHTS
      requires observers != 0 ==> height < HEIGHTS - 1
      modifies this`knownHeight
      ensures ok <==> observers == 0 || old(knownHeight) <= height
      ensures knownHeight == if ok then height else old(knownHeight)
      ensures heights == if observers == 0 then [] else Range(old(knownHeight), height)
    {
      ok, heights := true, [];
      if observers == 0 {
        knownHeight := height;
        return;
      }
      if height < knownHeight {
        return false, [];
      }
      var i := knownHeight;
      while i <= height
        invariant old(knownHeight) <= i <= height + 1 < HEIGHTS
        invariant heights == Range(old(knownHeight), i - 1)
      {
        heights := heights + [i];
        i := (i + 1) % HEIGHTS;
      }
      knownHeight := height;
    }

    /** One block of a reply, given what the blocks `done` before it have led to. */
    method Consider(block: Block, sofar: Progress, ghost done: seq<Block>) returns (next: Progress)
      requires Describes(knownTop, done, sofar)
      ensures Describes(knownTop, done + [block], next)
      ensures next.newBlocks == sofar.newBlocks + (if IsNews(knownTop, block) then [block] else [])
      ensures next.orphanedBlocks == sofar.orphanedBlocks + (if block.isOrphaned then [block] else [])
    {
      next := sofar;
      if next.topHeight < block.height {
        next := next.(topHeight := block.height, found := false);
      }
      if block.isOrphaned {
        next := next.(orphanedBlocks := next.orphanedBlocks + [block]);
      } else {
        if block.height > knownTop.height || block.hash != knownTop.hash {
          next := next.(newBlocks := next.newBlocks + [block]);
        }
        if !next.found {
          next := next.(top := block, found := true);
        }
      }
      DescribesNext(knownTop, done, sofar, block, next);
    }

    /** The blocks of one height. */
    method ConsiderAll(blocks: seq<Block>, sofar: Progress, ghost done: seq<Block>) returns (next: Progress)
      requires Describes(knownTop, done, sofar)
      ensures Describes(knownTop, done + blocks, next)
    {
      next := sofar;
      assert done + blocks[..0] == done;
      for j := 0 to |blocks|
        invariant Describes(knownTop, done + blocks[..j], next)
      {
        assert done + blocks[..j] + [blocks[j]] == done + blocks[..j + 1];
        next := Consider(blocks[j], next, done + blocks[..j]);
      }
      assert blocks[..|blocks|] == blocks;
    }

    /** The node's reply: the new top is remembered unless the tallest blocks are all orphans. */
    method BlocksReceived(reply: seq<seq<Block>>)
      returns (updated: bool, newBlocks: seq<Block>, orphanedBlocks: seq<Block>)
      modifies this`knownTop
      ensures newBlocks == Select(old(knownTop), New, Flatten(reply))
      ensures orphanedBlocks == Select(old(knownTop), Orphan, Flatten(reply))
      ensures forall b :: b in newBlocks <==> Returned(reply, b) && IsNews(old(knownTop), b)
      ensures forall b :: b in orphanedBlocks <==> Returned(reply, b) && b.isOrphaned
      ensures updated ==> exists p: nat, k: nat :: TopFound(Flatten(reply), knownTop, p, k)
      ensures updated ==> (IsTallest(knownTop, Flatten(reply)) <==> TallestLeads(Flatten(reply)))
      ensures updated && Ascending(Flatten(reply)) ==> IsTallest(knownTop, Flatten(reply))
      ensures !updated ==> knownTop == old(knownTop) && NoTop(Flatten(reply))
    {
      var sofar := Progress([], [], 0, false, knownTop);
      assert Scanned([], 0, false, knownTop, 0, 0);
      for i := 0 to |reply|
        invariant knownTop == old(knownTop) && Describes(knownTop, Flatten(reply[..i]), sofar)
      {
        assert reply[..i + 1][..i] == reply[..i];
        sofar := ConsiderAll(reply[i], sofar, Flatten(reply[..i]));
      }
      assert reply[..|reply|] == reply;
      updated, newBlocks, orphanedBlocks := sofar.found, sofar.newBlocks, sofar.orphanedBlocks;
      Concludes(knownTop, Flatten(reply), sofar);
      forall b ensures b in newBlocks <==> Returned(reply, b) && IsNews(knownTop, b)
               ensures b in orphanedBlocks <==> Returned(reply, b) && b.isOrphaned
      {
        ReportedIff(knownTop, reply, b);
      }
      if updated {
        knownTop := sofar.top;
        TopConcludes(Flatten(reply), knownTop);
      }
    }
  }
}
