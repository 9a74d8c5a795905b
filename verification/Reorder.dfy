/** `make_reorder_chain`: a greedy layout of the basic blocks as one chain. */
module Reorder {
  import opened Options

  /** The index of EXIT_BLOCK_PTR. */
  const EXIT := -2

  const REG_BR_PROB_BASE := 10000

  datatype Edge = Edge(dest: int, fallthru: bool, eh: bool, abnormalCall: bool)

  /** A basic block: its outgoing edges and, if it ends in a conditional jump with a REG_BR_PROB note,
      the probability in it. */
  datatype Block = Block(succ: seq<Edge>, probability: Option<int>)

  ghost predicate LastFallthru(succ: seq<Edge>, k: int) {
    0 <= k < |succ| && succ[k].fallthru && forall j :: k < j < |succ| ==> !succ[j].fallthru
  }

  ghost predicate FirstFallthru(succ: seq<Edge>, k: int) {
    0 <= k < |succ| && succ[k].fallthru && forall j :: 0 <= j < k ==> !succ[j].fallthru
  }

  /** An edge that is neither a fallthru nor exceptional. */
  predicate Jumps(e: Edge) {
    !e.fallthru && !e.eh
  }

  ghost predicate LastJump(succ: seq<Edge>, k: int) {
    0 <= k < |succ| && Jumps(succ[k]) && forall j :: k < j < |succ| ==> !Jumps(succ[j])
  }

  /** The successor s that block b should have next, in terms of its edges. With a prediction, that is the
      last jump if it is taken more than half of the time, and otherwise the last fallthru; without one, the
      first fallthru, or else the block that follows, if a normal edge leads there. */
  ghost predicate Favours(block: Block, b: nat, s: Option<int>) {
    var succ := block.succ;
    if block.probability.Some? && 2 * block.probability.value > REG_BR_PROB_BASE && exists k :: LastJump(succ, k) then
      exists k :: LastJump(succ, k) && s == Some(succ[k].dest)
    else if block.probability.Some? then
      exists k :: LastFallthru(succ, k) && s == Some(succ[k].dest)
    else if exists k :: FirstFallthru(succ, k) then
      exists k :: FirstFallthru(succ, k) && s == Some(succ[k].dest)
    else
      s == if exists e :: e in succ && e.dest == b + 1 && !e.abnormalCall && !e.eh then Some(b + 1) else None
  }

  /** There is one such successor at most. */
  lemma FavoursOne(block: Block, b: nat, s: Option<int>, t: Option<int>)
    requires Favours(block, b, s) && Favours(block, b, t)
    ensures s == t
  {
  }

  lemma {:induction false} TakenIsLast(succ: seq<Edge>)
    ensures if Taken(succ).None? then forall j :: 0 <= j < |succ| ==> !Jumps(succ[j])
            else exists k :: LastJump(succ, k) && Taken(succ) == Some(succ[k].dest)
  {
    if succ != [] {
      var last := |succ| - 1;
      TakenIsLast(succ[..last]);
      if Jumps(succ[last]) {
        assert LastJump(succ, last);
      } else if Taken(succ).Some? {
        var k :| LastJump(succ[..last], k) && Taken(succ) == Some(succ[..last][k].dest);
        assert LastJump(succ, k);
      }
    }
  }

  lemma {:induction false} FallthruIsLast(succ: seq<Edge>)
    ensures if Fallthru(succ).None? then forall j :: 0 <= j < |succ| ==> !succ[j].fallthru
            else exists k :: LastFallthru(succ, k) && Fallthru(succ) == Some(succ[k].dest)
  {
    if succ != [] {
      var last := |succ| - 1;
      FallthruIsLast(succ[..last]);
      if succ[last].fallthru {
        assert LastFallthru(succ, last);
      } else if Fallthru(succ).Some? {
        var k :| LastFallthru(succ[..last], k) && Fallthru(succ) == Some(succ[..last][k].dest);
        assert LastFallthru(succ, k);
      }
    }
  }

  lemma {:induction false} UndisturbedIs(succ: seq<Edge>, following: int)
    ensures if exists k :: FirstFallthru(succ, k)
            then exists k :: FirstFallthru(succ, k) && Undisturbed(succ, following) == Some(succ[k].dest)
            else Undisturbed(succ, following)
                 == (if exists e :: e in succ && e.dest == following && !e.abnormalCall && !e.eh then Some(following)
                     else None)
  {
    if succ != [] {
      UndisturbedIs(succ[1..], following);
      if succ[0].fallthru {
        assert FirstFallthru(succ, 0);
      } else if k :| FirstFallthru(succ[1..], k) && Undisturbed(succ[1..], following) == Some(succ[1..][k].dest) {
        assert FirstFallthru(succ, k + 1);
      } else {
        forall k ensures !FirstFallthru(succ, k) {
          if FirstFallthru(succ, k) { assert FirstFallthru(succ[1..], k - 1); }
        }
        assert succ == [succ[0]] + succ[1..];
      }
    }
  }

  /** The blocks are BASIC_BLOCK (0) and so on; edges lead to blocks or to the exit, and a conditional jump
      falls through. */
  ghost predicate FlowGraph(blocks: seq<Block>) {
    && (forall b, k :: 0 <= b < |blocks| && 0 <= k < |blocks[b].succ| ==>
          blocks[b].succ[k].dest == EXIT || 0 <= blocks[b].succ[k].dest < |blocks|)
    && (forall b :: 0 <= b < |blocks| && blocks[b].probability.Some? ==> exists k :: LastFallthru(blocks[b].succ, k))
  }

  /** The last fallthru edge, and the last one that is neither that nor exceptional. */
  function Fallthru(succ: seq<Edge>): Option<int> {
    if succ == [] then None
    else
      var e := succ[|succ| - 1];
      if e.fallthru then Some(e.dest) else Fallthru(succ[..|succ| - 1])
  }

  function Taken(succ: seq<Edge>): Option<int> {
    if succ == [] then None
    else
      var e := succ[|succ| - 1];
      if !e.fallthru && !e.eh then Some(e.dest) else Taken(succ[..|succ| - 1])
  }

  /** The first fallthru edge; without one, the last ordinary edge to the block that is next now. */
  function Undisturbed(succ: seq<Edge>, following: int): Option<int> {
    if succ == [] then None
    else if succ[0].fallthru then Some(succ[0].dest)
    else if Undisturbed(succ[1..], following).Some? then Undisturbed(succ[1..], following)
    else if succ[0].dest == following && !succ[0].abnormalCall && !succ[0].eh then Some(succ[0].dest)
    else None
  }

  /** The successor a block would like next. */
  function Selected(blocks: seq<Block>, b: nat): Option<int>
    requires b < |blocks|
  {
    var succ := blocks[b].succ;
    if blocks[b].probability.Some? then
      if blocks[b].probability.value > REG_BR_PROB_BASE / 2 && Taken(succ).Some? then Taken(succ) else Fallthru(succ)
    else Undisturbed(succ, b + 1)
  }

  lemma SelectedFavours(blocks: seq<Block>, b: nat)
    requires FlowGraph(blocks) && b < |blocks|
    ensures Favours(blocks[b], b, Selected(blocks, b))
  {
    TakenIsLast(blocks[b].succ);
    FallthruIsLast(blocks[b].succ);
    UndisturbedIs(blocks[b].succ, b + 1);
  }

  /** Block k of an order has its selected successor after it, if that was not placed before. */
  ghost predicate GreedyAt(blocks: seq<Block>, order: seq<nat>, k: nat)
    requires k < |order| && order[k] < |blocks|
  {
    var s := Selected(blocks, order[k]);
    s.Some? && s.value != EXIT && s.value !in order[..k + 1] ==> k + 1 < |order| && order[k + 1] == s.value
  }

  /** What the last block still wants. */
  ghost predicate Wants(blocks: seq<Block>, order: seq<nat>, s: int)
    requires order != [] && order[|order| - 1] < |blocks|
  {
    Selected(blocks, order[|order| - 1]) == Some(s) && s != EXIT && s !in order
  }

  ghost predicate NoRepeats(order: seq<nat>) {
    forall i, j :: 0 <= i < j < |order| ==> order[i] != order[j]
  }

  /** The edges that are followed: to blocks that do not end the program, and not exceptional. */
  predicate Followed(blocks: seq<Block>, e: Edge) {
    0 <= e.dest < |blocks| && blocks[e.dest].succ != [] && !e.abnormalCall && !e.eh
  }

  /** The first n edges of a block that are followed lead to placed blocks, or to the candidate. */
  ghost predicate ServedBut(blocks: seq<Block>, order: seq<nat>, b: nat, n: nat, candidate: Option<nat>)
    requires b < |blocks| && n <= |blocks[b].succ|
  {
    forall i :: 0 <= i < n && Followed(blocks, blocks[b].succ[i]) ==>
      blocks[b].succ[i].dest in order || candidate == Some(blocks[b].succ[i].dest)
  }

  ghost predicate Served(blocks: seq<Block>, order: seq<nat>, b: nat) {
    b < |blocks| && ServedBut(blocks, order, b, |blocks[b].succ|, None)
  }

  ghost predicate ServedFrom(blocks: seq<Block>, order: seq<nat>, lo: nat, hi: int) {
    hi <= |order| && forall k :: lo <= k < hi ==> Served(blocks, order, order[k])
  }

  lemma ServedJoined(blocks: seq<Block>, before: seq<nat>, order: seq<nat>, lo: nat)
    requires before <= order && ServedFrom(blocks, before, lo, |before|) && ServedFrom(blocks, order, |before|, |order|)
    ensures ServedFrom(blocks, order, lo, |order|)
  {
    forall k | lo <= k < |order| ensures Served(blocks, order, order[k]) {
      if k < |before| { assert Served(blocks, before, before[k]); }
    }
  }

  lemma ServedNext(blocks: seq<Block>, before: seq<nat>, order: seq<nat>, bb: nat, i: nat, candidate: Option<nat>,
      later: Option<nat>)
    requires before <= order && bb < |blocks| && i < |blocks[bb].succ| && ServedBut(blocks, before, bb, i, candidate)
    requires candidate.Some? ==> candidate.value in order || later == candidate
    requires var e := blocks[bb].succ[i]; Followed(blocks, e) ==> e.dest in order || later == Some(e.dest)
    ensures ServedBut(blocks, order, bb, i + 1, later)
  {
    assert forall d :: d in before ==> d in order;
  }

  /** After the successors of the block that was the last, only the candidate is still to be placed. */
  lemma ServedLater(blocks: seq<Block>, before: seq<nat>, order: seq<nat>, lo: nat, bb: nat, candidate: Option<nat>)
    requires before != [] && before <= order && before[|before| - 1] == bb < |blocks|
    requires ServedFrom(blocks, before, lo, |before| - 1) && ServedFrom(blocks, order, |before|, |order|)
    requires ServedBut(blocks, order, bb, |blocks[bb].succ|, candidate)
    ensures candidate.None? ==> ServedFrom(blocks, order, lo, |order|)
    ensures candidate.Some? ==> ServedFrom(blocks, order + [candidate.value], lo, |order|)
  {
    var later := if candidate.Some? then order + [candidate.value] else order;
    forall k | lo <= k < |order| ensures Served(blocks, later, later[k]) {
      if k < |before| - 1 {
        assert Served(blocks, before, before[k]);
      } else if k >= |before| {
        assert Served(blocks, order, order[k]);
      }
    }
  }

  class Chain {
    const blocks: seq<Block>
    var visited: seq<bool>
    var next: seq<Option<nat>>
    /** The blocks placed so far, in order. */
    ghost var order: seq<nat>

    ghost predicate Valid()
      reads this
    {
      && FlowGraph(blocks) && |visited| == |next| == |blocks|
      && NoRepeats(order)
      && (forall k :: 0 <= k < |order| ==> order[k] < |blocks|)
      && (forall b :: 0 <= b < |blocks| ==> (visited[b] <==> b in order))
      && (forall k :: 0 <= k < |order| - 1 ==> next[order[k]] == Some(order[k + 1]))
      && (forall k :: 0 <= k < |order| - 1 ==> GreedyAt(blocks, order, k))
    }

    /** The last block wants nothing, or what is placed next. */
    ghost predicate Satisfied(s: Option<nat>)
      requires Valid()
      reads this
    {
      order == [] || forall w :: Wants(blocks, order, w) ==> s == Some(w)
    }

    constructor (blocks: seq<Block>)
      requires FlowGraph(blocks)
      ensures Valid() && order == [] && this.blocks == blocks
    {
      this.blocks := blocks;
      visited := seq(|blocks|, _ => false);
      next := seq(|blocks|, _ => None);
      order := [];
    }

    /** The successor the branch prediction favours, or without one the fallthru or following block. */
    method Select(bb: nat) returns (s: Option<int>)
      requires FlowGraph(blocks) && bb < |blocks|
      ensures s == Selected(blocks, bb) && Favours(blocks[bb], bb, s)
    {
      SelectedFavours(blocks, bb);
      if blocks[bb].probability.Some? {
        var taken := blocks[bb].probability.value > REG_BR_PROB_BASE / 2;
        s := Predicted(blocks[bb].succ, taken);
      } else {
        s := OldNext(blocks[bb].succ, bb);
      }
    }

    /** The edge of the prediction. */
    method Predicted(succ: seq<Edge>, taken: bool) returns (s: Option<int>)
      ensures s == if taken && Taken(succ).Some? then Taken(succ) else Fallthru(succ)
    {
      var eTaken, eFall: Option<int> := None, None;
      var i := 0;
      while i < |succ|
        invariant i <= |succ| && eTaken == Taken(succ[..i]) && eFall == Fallthru(succ[..i])
      {
        assert succ[..i + 1][..i] == succ[..i];
        if succ[i].fallthru {
          eFall := Some(succ[i].dest);
        } else if !succ[i].eh {
          eTaken := Some(succ[i].dest);
        }
        i := i + 1;
      }
      assert succ[..i] == succ;
      s := if taken && eTaken.Some? then eTaken else eFall;
    }

    /** The edge that disturbs the present order least. */
    method OldNext(succ: seq<Edge>, bb: nat) returns (s: Option<int>)
      ensures s == Undisturbed(succ, bb + 1)
    {
      s := None;
      var i := 0;
      while i < |succ|
        invariant i <= |succ|
        invariant Undisturbed(succ, bb + 1) ==
                  if Undisturbed(succ[i..], bb + 1).Some? then Undisturbed(succ[i..], bb + 1) else s
      {
        assert succ[i..][1..] == succ[i + 1..];
        if succ[i].fallthru {
          s := Some(succ[i].dest);
          break;
        } else if succ[i].dest == bb + 1 {
          if !succ[i].abnormalCall && !succ[i].eh {
            s := Some(succ[i].dest);
          }
        }
        i := i + 1;
      }
    }

    /** The number of blocks not yet placed. */
    ghost function Left(): int
      reads this`order
    {
      |blocks| - |order|
    }

    lemma SomeLeft(bb: nat)
      requires Valid() && bb < |blocks| && !visited[bb]
      ensures |order| < |blocks|
    {
      DistinctBound(order + [bb], |blocks|);
    }

    /** Put bb behind prev and mark it. */
    method Place(bb: nat, prev: Option<nat>)
      requires Valid() && bb < |blocks| && !visited[bb] && Satisfied(Some(bb))
      requires if order == [] then prev == None && bb == 0 else prev == Some(order[|order| - 1])
      modifies this
      ensures Valid() && order == old(order) + [bb]
    {
      if prev.Some? {
        next := next[prev.value := Some(bb)];
      }
      visited := visited[bb := true];
      GreedyPlaced(blocks, order, bb);
      order := order + [bb];
    }

    /** `make_reorder_chain_1`: places bb and what can be reached from it, behind prev; returns the last
        block placed. */
    method MakeReorderChain1(bb0: nat, prev0: Option<nat>) returns (prev: nat)
      requires Valid() && bb0 < |blocks| && !visited[bb0] && Satisfied(Some(bb0))
      requires if order == [] then prev0 == None && bb0 == 0 else prev0 == Some(order[|order| - 1])
      modifies this
      ensures Valid() && old(order) + [bb0] <= order && prev == order[|order| - 1] && Satisfied(None)
      ensures ServedFrom(blocks, order, |old(order)|, |order|)
      decreases Left(), 0
    {
      SomeLeft(bb0);
      var bb := bb0;
      Place(bb, prev0);
      prev := bb;
      while true
        invariant Valid() && old(order) + [bb0] <= order && bb == prev == order[|order| - 1] && Left() >= 0
        invariant ServedFrom(blocks, order, |old(order)|, |order| - 1)
        decreases Left()
      {
        if blocks[bb].succ == [] {
          return;
        }
        var candidate;
        prev, candidate := PlaceAround(bb, |old(order)|);
        if candidate.None? {
          return;
        }
        SomeLeft(candidate.value);
        bb := candidate.value;
        Place(bb, Some(prev));
        prev := bb;
      }
    }

    /** A block that may be placed next, if there is one. */
    ghost predicate MayFollow(candidate: Option<nat>)
      requires Valid()
      reads this
    {
      Satisfied(candidate) && (candidate.Some? ==> candidate.value < |blocks| && !visited[candidate.value])
    }

    /** The selected block, unless it is the exit or has been placed. */
    method FirstChoice(bb: nat) returns (candidate: Option<nat>)
      requires Valid() && order != [] && bb == order[|order| - 1]
      ensures MayFollow(candidate)
    {
      var s := Select(bb);
      SelectedInRange(blocks, bb);
      candidate := None;
      if s.Some? && s.value != EXIT && !visited[s.value] {
        candidate := Some(s.value);
      }
    }

    /** The successors of the last block placed, all but the one that follows next. */
    method PlaceAround(bb: nat, ghost lo: nat) returns (prev: nat, candidate: Option<nat>)
      requires Valid() && order != [] && bb == order[|order| - 1] && ServedFrom(blocks, order, lo, |order| - 1)
      modifies this
      ensures Valid() && old(order) <= order && prev == order[|order| - 1] && MayFollow(candidate)
      ensures candidate.None? ==> ServedFrom(blocks, order, lo, |order|)
      ensures candidate.Some? ==> ServedFrom(blocks, order + [candidate.value], lo, |order|)
      decreases Left(), 3
    {
      candidate := FirstChoice(bb);
      DistinctBound(order, |blocks|);
      prev, candidate := PlaceSuccessors(bb, candidate, bb);
      ServedLater(blocks, old(order), order, lo, bb, candidate);
    }

    /** Place the unplaced successors, all but the last one. */
    method PlaceSuccessors(bb: nat, next0: Option<nat>, prev0: nat) returns (prev: nat, candidate: Option<nat>)
      requires Valid() && order != [] && prev0 == order[|order| - 1] && bb < |blocks| && MayFollow(next0)
      modifies this
      ensures Valid() && old(order) <= order && prev == order[|order| - 1] && MayFollow(candidate)
      ensures ServedFrom(blocks, order, |old(order)|, |order|)
      ensures ServedBut(blocks, order, bb, |blocks[bb].succ|, candidate)
      decreases Left(), 2
    {
      prev, candidate := prev0, next0;
      var i := 0;
      while i < |blocks[bb].succ|
        invariant Valid() && old(order) <= order && prev == order[|order| - 1] && MayFollow(candidate)
        invariant ServedFrom(blocks, order, |old(order)|, |order|)
        invariant i <= |blocks[bb].succ| && ServedBut(blocks, order, bb, i, candidate)
      {
        ghost var before := order;
        DistinctBound(order, |blocks|);
        prev, candidate := PlaceSuccessor(bb, i, candidate, prev);
        ServedJoined(blocks, before, order, |old(order)|);
        i := i + 1;
      }
    }

    /** One edge: its block becomes the candidate, and the previous candidate is placed. */
    method PlaceSuccessor(bb: nat, i: nat, next0: Option<nat>, prev0: nat) returns (prev: nat, candidate: Option<nat>)
      requires Valid() && order != [] && prev0 == order[|order| - 1] && bb < |blocks| && MayFollow(next0)
      requires i < |blocks[bb].succ| && ServedBut(blocks, order, bb, i, next0)
      modifies this
      ensures Valid() && old(order) <= order && prev == order[|order| - 1] && MayFollow(candidate)
      ensures ServedFrom(blocks, order, |old(order)|, |order|)
      ensures ServedBut(blocks, order, bb, i + 1, candidate)
      decreases Left(), 1
    {
      prev, candidate := prev0, next0;
      var e := blocks[bb].succ[i];
      if e.dest != EXIT && !visited[e.dest] && blocks[e.dest].succ != [] && !e.abnormalCall && !e.eh {
        if candidate.Some? {
          SomeLeft(candidate.value);
          prev := MakeReorderChain1(candidate.value, Some(prev));
          assert order[|old(order)|] == candidate.value;
          candidate := if visited[e.dest] then None else Some(e.dest);
        } else {
          candidate := Some(e.dest);
        }
      }
      ServedNext(blocks, old(order), order, bb, i, next0, candidate);
    }

    /** The first block that has not been placed. */
    method FindUnplaced() returns (found: Option<nat>)
      requires Valid()
      ensures found.None? ==> forall b :: 0 <= b < |blocks| ==> b in order
      ensures found.Some? ==> found.value < |blocks| && !visited[found.value] && (order == [] ==> found.value == 0)
      ensures found.Some? ==> forall b :: 0 <= b < found.value ==> b in order
    {
      found := None;
      var i := 0;
      while i < |blocks| && found == None
        invariant 0 <= i <= |blocks|
        invariant found.None? ==> forall b :: 0 <= b < i ==> visited[b]
        invariant found.Some? ==> found.value < |blocks| && !visited[found.value]
        invariant found.Some? ==> forall b :: 0 <= b < found.value ==> visited[b]
      {
        if !visited[i] {
          found := Some(i);
        }
        i := i + 1;
      }
      if found.Some? && found.value > 0 { assert visited[0]; }
    }

    /** `make_reorder_chain`: all blocks, each once, from block 0 to the end of the chain; and a block's
        selected successor comes next unless it is placed already. */
    method MakeReorderChain()
      requires Valid() && order == [] && blocks != []
      modifies this
      ensures Valid() && |order| == |blocks| && order[0] == 0
      ensures forall b :: 0 <= b < |blocks| ==> b in order
      ensures next[order[|order| - 1]] == None
      ensures forall k: nat, s: nat :: k < |order| && Favours(blocks[order[k]], order[k], Some(s)) ==>
                s in order[..k + 1] || (k + 1 < |order| && order[k + 1] == s)
    {
      var prev := PlaceAll();
      ChainComplete(blocks, order);
      next := next[prev := None];
    }

    /** Go on from any unplaced block until there is none. */
    method PlaceAll() returns (last: nat)
      requires Valid() && order == [] && blocks != []
      modifies this
      ensures Valid() && Satisfied(None) && (forall b :: 0 <= b < |blocks| ==> b in order)
      ensures order != [] && order[0] == 0 && last == order[|order| - 1]
    {
      var prev: Option<nat> := None;
      while true
        invariant Valid() && Satisfied(None) && Left() >= 0
        invariant if order == [] then prev == None else prev == Some(order[|order| - 1]) && order[0] == 0
        decreases Left()
      {
        var found := FindUnplaced();
        if found.None? {
          assert 0 in order;
          return prev.value;
        }
        last := MakeReorderChain1(found.value, prev);
        prev := Some(last);
        DistinctBound(order, |blocks|);
      }
    }
  }

  /** When all blocks are placed and the last one wants nothing. */
  lemma ChainComplete(blocks: seq<Block>, order: seq<nat>)
    requires FlowGraph(blocks) && NoRepeats(order) && order != []
    requires forall k :: 0 <= k < |order| ==> order[k] < |blocks|
    requires forall b :: 0 <= b < |blocks| ==> b in order
    requires forall k :: 0 <= k < |order| - 1 ==> GreedyAt(blocks, order, k)
    requires forall w :: !Wants(blocks, order, w)
    ensures |order| == |blocks|
    ensures forall k: nat, s: nat :: k < |order| && Favours(blocks[order[k]], order[k], Some(s)) ==>
              s in order[..k + 1] || (k + 1 < |order| && order[k + 1] == s)
  {
    DistinctBound(order, |blocks|);
    AllPlaced(order, |blocks|);
    LastGreedy(blocks, order);
    GreedyFavours(blocks, order);
  }

  lemma GreedyFavours(blocks: seq<Block>, order: seq<nat>)
    requires FlowGraph(blocks) && forall k :: 0 <= k < |order| ==> order[k] < |blocks| && GreedyAt(blocks, order, k)
    ensures forall k: nat, s: nat :: k < |order| && Favours(blocks[order[k]], order[k], Some(s)) ==>
              s in order[..k + 1] || (k + 1 < |order| && order[k + 1] == s)
  {
    forall k: nat, s: nat | k < |order| && Favours(blocks[order[k]], order[k], Some(s))
      ensures s in order[..k + 1] || (k + 1 < |order| && order[k + 1] == s)
    {
      SelectedFavours(blocks, order[k]);
      FavoursOne(blocks[order[k]], order[k], Some(s), Selected(blocks, order[k]));
      assert GreedyAt(blocks, order, k);
    }
  }

  /** Different numbers below n: no more than n of them. */
  lemma DistinctBound(s: seq<nat>, n: nat)
    requires NoRepeats(s) && forall k :: 0 <= k < |s| ==> s[k] < n
    ensures |s| <= n
    decreases n
  {
    if s != [] { assert s[0] < n; }
    if n > 0 {
      var t := Without(s, n - 1);
      forall k | 0 <= k < |t| ensures t[k] < n - 1 { assert t[k] in t; }
      DistinctBound(t, n - 1);
    }
  }

  /** s without x. */
  function Without(s: seq<nat>, x: nat): (t: seq<nat>)
    requires NoRepeats(s)
    ensures NoRepeats(t) && |t| == if x in s then |s| - 1 else |s|
    ensures forall y :: y in t <==> y in s && y != x
  {
    if s == [] then []
    else if s[0] == x then s[1..]
    else
      var rest := Without(s[1..], x);
      assert s[0] !in s[1..] && s[0] !in rest;
      assert s == [s[0]] + s[1..];
      [s[0]] + rest
  }

  /** All numbers below n: no fewer than n of them. */
  lemma AllPlaced(s: seq<nat>, n: nat)
    requires NoRepeats(s) && forall b :: 0 <= b < n ==> b in s
    ensures |s| >= n
    decreases n
  {
    if n > 0 { AllPlaced(Without(s, n - 1), n - 1); }
  }

  lemma GreedyPlaced(blocks: seq<Block>, order: seq<nat>, bb: nat)
    requires (forall k :: 0 <= k < |order| ==> order[k] < |blocks|) && bb < |blocks|
    requires forall k :: 0 <= k < |order| - 1 ==> GreedyAt(blocks, order, k)
    requires order == [] || forall w :: Wants(blocks, order, w) ==> w == bb
    ensures forall k :: 0 <= k < |order| ==> GreedyAt(blocks, order + [bb], k)
  {
    forall k | 0 <= k < |order| ensures GreedyAt(blocks, order + [bb], k) {
      assert (order + [bb])[..k + 1] == order[..k + 1];
      if k < |order| - 1 {
        assert GreedyAt(blocks, order, k);
      } else {
        assert order[..k + 1] == order;
        var s := Selected(blocks, order[k]);
        assert s.Some? && s.value != EXIT && s.value !in order ==> Wants(blocks, order, s.value);
      }
    }
  }

  /** The last block too has its selected successor before it, once it wants nothing. */
  lemma LastGreedy(blocks: seq<Block>, order: seq<nat>)
    requires order != [] && forall k :: 0 <= k < |order| ==> order[k] < |blocks|
    requires forall w :: !Wants(blocks, order, w)
    ensures GreedyAt(blocks, order, |order| - 1)
  {
    assert order[..|order|] == order;
    var s := Selected(blocks, order[|order| - 1]);
    assert s.Some? ==> !Wants(blocks, order, s.value);
  }

  predicate Leads(succ: seq<Edge>, d: Option<int>) {
    d.Some? ==> exists k :: 0 <= k < |succ| && succ[k].dest == d.value
  }

  lemma {:induction false} EdgesLead(succ: seq<Edge>, following: int)
    ensures Leads(succ, Fallthru(succ)) && Leads(succ, Taken(succ)) && Leads(succ, Undisturbed(succ, following))
  {
    if succ != [] {
      EdgesLead(succ[..|succ| - 1], following);
      EdgesLead(succ[1..], following);
      assert forall k :: 0 <= k < |succ| - 1 ==> succ[..|succ| - 1][k] == succ[k] && succ[1..][k] == succ[k + 1];
    }
  }

  lemma SelectedInRange(blocks: seq<Block>, b: nat)
    requires FlowGraph(blocks) && b < |blocks|
    ensures var s := Selected(blocks, b); s.Some? && s.value != EXIT ==> 0 <= s.value < |blocks|
  {
    EdgesLead(blocks[b].succ, b + 1);
  }
}
