/**
 Ring clearing (`checkLines`): one ascending pass over the rings; a full ring
 is cleared, scores `LineReward`, every ring outside it moves one step inward
 and ring 0 becomes empty. The pass is related to a direct description of
 its outcome: the non-full rings in their order, preceded by one empty ring
 per full ring.
 */
module Lines {
  import opened Wrappers
  import opened Coords
  import opened Grid

  datatype Cleared = Cleared(board: Board, score: int)

  /**
   The inner loop of `checkLines`: for `r` from the given index down to 0,
   element `r + 1` takes a copy of element `r`.
   */
  function ShiftOut<T>(s: seq<T>, r: int): (t: seq<T>)
    requires -1 <= r < |s| - 1
    ensures t == s[..1] + s[..r + 1] + s[r + 2..]
    decreases r + 1
  {
    if r < 0 then s
    else
      var s' := s[r + 1 := s[r]];
      assert s'[..1] == s[..1] && s'[..r] == s[..r] && s'[r + 1..] == [s[r]] + s[r + 2..];
      assert s[..r] + [s[r]] == s[..r + 1];
      ShiftOut(s', r - 1)
  }

  /** Clearing ring `k`: blank it, shift the rings outside it inward by one, blank ring 0. */
  function ClearRing(b: Board, k: int): (r: Board)
    requires WellFormed(b) && 0 <= k < GridRings
    ensures r == Lowered(b, k)
    ensures WellFormed(r)
  {
    var blanked := b[k := EmptyRing()];
    assert blanked[..k] == b[..k] && blanked[k + 1..] == b[k + 1..];
    ShiftOut(blanked, k - 1)[0 := EmptyRing()]
  }

  /** The `for (ring = ...; ring < GRID_RINGS; ring++)` pass of `checkLines`, from `ring` on. */
  function CheckLinesFrom(b: Board, score: int, ring: int): (r: Cleared)
    requires WellFormed(b) && 0 <= ring <= GridRings
    ensures WellFormed(r.board)
    decreases GridRings - ring
  {
    if ring == GridRings then Cleared(b, score)
    else if RingFull(b[ring]) then CheckLinesFrom(ClearRing(b, ring), score + LineReward, ring + 1)
    else CheckLinesFrom(b, score, ring + 1)
  }

  /** `checkLines`, returning the new board and score. */
  function CheckLines(b: Board, score: int): (r: Cleared)
    requires WellFormed(b)
    ensures WellFormed(r.board)
  {
    CheckLinesFrom(b, score, 0)
  }

  /** Number of full rings in a sequence of rings. */
  function CountFull(rings: seq<Ring>): (n: nat)
    ensures n <= |rings|
  {
    if rings == [] then 0
    else CountFull(rings[..|rings| - 1]) + (if RingFull(rings[|rings| - 1]) then 1 else 0)
  }

  /** `LineReward` for every full ring, summed; equal to `LineReward * CountFull(rings)`. */
  function Rewards(rings: seq<Ring>): (total: int) {
    if rings == [] then 0
    else Rewards(rings[..|rings| - 1]) + (if RingFull(rings[|rings| - 1]) then LineReward else 0)
  }

  lemma {:induction false} RewardsCount(rings: seq<Ring>)
    ensures Rewards(rings) == LineReward * CountFull(rings)
    decreases |rings|
  {
    if rings != [] {
      RewardsCount(rings[..|rings| - 1]);
    }
  }

  /** The rings that are not full, in their original order. */
  function Survivors(rings: seq<Ring>): (s: seq<Ring>)
    ensures |s| + CountFull(rings) == |rings|
  {
    if rings == [] then []
    else
      var init := rings[..|rings| - 1];
      var last := rings[|rings| - 1];
      assert rings == init + [last];
      Survivors(init) + (if RingFull(last) then [] else [last])
  }

  /** No full ring is counted exactly when no ring is full; then every ring survives. */
  lemma {:induction false} NoneFull(rings: seq<Ring>)
    ensures CountFull(rings) == 0 <==> forall i :: 0 <= i < |rings| ==> !RingFull(rings[i])
    ensures CountFull(rings) == 0 ==> Survivors(rings) == rings && Rewards(rings) == 0
    decreases |rings|
  {
    if rings != [] {
      var init := rings[..|rings| - 1];
      NoneFull(init);
      assert rings == init + [rings[|rings| - 1]];
      assert forall i :: 0 <= i < |init| ==> init[i] == rings[i];
    }
  }

  /** No survivor is full. */
  lemma {:induction false} SurvivorsNotFull(rings: seq<Ring>)
    ensures forall i :: 0 <= i < |Survivors(rings)| ==> !RingFull(Survivors(rings)[i])
    decreases |rings|
  {
    if rings != [] {
      SurvivorsNotFull(rings[..|rings| - 1]);
    }
  }

  lemma {:induction false} SurvivorsKeepWidth(rings: seq<Ring>)
    requires forall i :: 0 <= i < |rings| ==> |rings[i]| == SegmentsPerRing
    ensures forall i :: 0 <= i < |Survivors(rings)| ==> |Survivors(rings)[i]| == SegmentsPerRing
    decreases |rings|
  {
    if rings != [] {
      SurvivorsKeepWidth(rings[..|rings| - 1]);
    }
  }

  function EmptyRings(n: nat): (r: seq<Ring>)
    ensures |r| == n
    ensures forall i :: 0 <= i < n ==> r[i] == EmptyRing()
  {
    seq(n, _ => EmptyRing())
  }

  /** The board `checkLines` leaves: one empty ring per full ring, then the other rings in order. */
  function Compacted(b: Board): (r: Board)
    requires WellFormed(b)
    ensures WellFormed(r)
  {
    SurvivorsKeepWidth(b);
    EmptyRings(CountFull(b)) + Survivors(b)
  }

  /** Counting, filtering and rewarding distribute over concatenation. */
  lemma AppendRings(x: seq<Ring>, y: seq<Ring>)
    ensures CountFull(x + y) == CountFull(x) + CountFull(y)
    ensures Survivors(x + y) == Survivors(x) + Survivors(y)
    ensures Rewards(x + y) == Rewards(x) + Rewards(y)
  {
    AppendCount(x, y);
    AppendSurvivors(x, y);
    AppendRewards(x, y);
  }

  /** The last ring of `x + y`, and what comes before it, when `y` is not empty. */
  lemma AppendLast(x: seq<Ring>, y: seq<Ring>)
    requires y != []
    ensures (x + y)[..|x + y| - 1] == x + y[..|y| - 1]
    ensures (x + y)[|x + y| - 1] == y[|y| - 1]
  {
  }

  lemma {:induction false} AppendCount(x: seq<Ring>, y: seq<Ring>)
    ensures CountFull(x + y) == CountFull(x) + CountFull(y)
    decreases |y|
  {
    if y == [] {
      assert x + y == x;
    } else {
      AppendCount(x, y[..|y| - 1]);
      AppendLast(x, y);
    }
  }

  lemma {:induction false} AppendSurvivors(x: seq<Ring>, y: seq<Ring>)
    ensures Survivors(x + y) == Survivors(x) + Survivors(y)
    decreases |y|
  {
    if y == [] {
      assert x + y == x;
    } else {
      var init := y[..|y| - 1];
      AppendSurvivors(x, init);
      AppendLast(x, y);
      var last := if RingFull(y[|y| - 1]) then [] else [y[|y| - 1]];
      SeqAssoc(Survivors(x), Survivors(init), last);
    }
  }

  lemma {:induction false} AppendRewards(x: seq<Ring>, y: seq<Ring>)
    ensures Rewards(x + y) == Rewards(x) + Rewards(y)
    decreases |y|
  {
    if y == [] {
      assert x + y == x;
    } else {
      AppendRewards(x, y[..|y| - 1]);
      AppendLast(x, y);
    }
  }

  /** Counting, filtering and rewarding a single ring. */
  lemma OneRing(x: Ring)
    ensures CountFull([x]) == if RingFull(x) then 1 else 0
    ensures Survivors([x]) == if RingFull(x) then [] else [x]
    ensures Rewards([x]) == if RingFull(x) then LineReward else 0
  {
    assert [x][..0] == [];
  }

  /** A prefix without full rings survives whole and adds nothing to the count or the rewards. */
  lemma PrefixNotFull(front: seq<Ring>, rest: seq<Ring>)
    requires forall i :: 0 <= i < |front| ==> !RingFull(front[i])
    ensures Survivors(front + rest) == front + Survivors(rest)
    ensures CountFull(front + rest) == CountFull(rest)
    ensures Rewards(front + rest) == Rewards(rest)
  {
    NoneFull(front);
    AppendRings(front, rest);
  }

  /** A full ring in front is dropped, counted once and rewarded once. */
  lemma FullHead(full: Ring, rest: seq<Ring>)
    requires RingFull(full)
    ensures Survivors([full] + rest) == Survivors(rest)
    ensures CountFull([full] + rest) == CountFull(rest) + 1
    ensures Rewards([full] + rest) == Rewards(rest) + LineReward
  {
    OneRing(full);
    AppendRings([full], rest);
  }

  /** Rings without a full one, a full ring, then the rest: the full ring alone is dropped and rewarded. */
  lemma DropFull(front: seq<Ring>, full: Ring, rest: seq<Ring>)
    requires forall i :: 0 <= i < |front| ==> !RingFull(front[i])
    requires RingFull(full)
    ensures Survivors(front + ([full] + rest)) == front + Survivors(rest)
    ensures CountFull(front + ([full] + rest)) == CountFull(rest) + 1
    ensures Rewards(front + ([full] + rest)) == Rewards(rest) + LineReward
  {
    FullHead(full, rest);
    PrefixNotFull(front, [full] + rest);
  }

  /** Moving one empty ring from the front of the survivors into the block of empty rings. */
  lemma EmptyRingsAbsorb(n: nat, front: seq<Ring>, tail: seq<Ring>)
    ensures EmptyRings(n) + (([EmptyRing()] + front) + tail) == EmptyRings(n + 1) + (front + tail)
  {
    var e := EmptyRing();
    assert EmptyRings(n) + [e] == EmptyRings(n + 1);
    SeqAssoc(EmptyRings(n), [e] + front, tail);
    SeqAssoc(EmptyRings(n), [e], front);
    SeqAssoc(EmptyRings(n + 1), front, tail);
  }

  /** The board `ClearRing` yields, as a composition: an empty ring, the rings inward of `k`, the rings outward of it. */
  function Lowered(b: Board, k: int): (r: Board)
    requires WellFormed(b) && 0 <= k < GridRings
    ensures WellFormed(r)
  {
    ([EmptyRing()] + b[..k]) + b[k + 1..]
  }

  /** An empty ring in front of rings that are not full: still no full ring. */
  lemma ConsEmptyNotFull(front: seq<Ring>)
    requires forall i :: 0 <= i < |front| ==> !RingFull(front[i])
    ensures forall i :: 0 <= i < |[EmptyRing()] + front| ==> !RingFull(([EmptyRing()] + front)[i])
  {
    EmptyRingNotFull();
    var head := [EmptyRing()] + front;
    forall i | 0 <= i < |head|
      ensures !RingFull(head[i])
    {
      if i > 0 {
        assert head[i] == front[i - 1];
      }
    }
  }

  /**
   Replacing a full ring by an empty ring in front of the non-full rings
   before it changes neither the count of empty-plus-surviving rings nor the
   compacted sequence, and takes away exactly one reward.
   */
  lemma DropFullCompacts(front: seq<Ring>, full: Ring, rest: seq<Ring>)
    requires forall i :: 0 <= i < |front| ==> !RingFull(front[i])
    requires RingFull(full)
    ensures var before, after := front + ([full] + rest), ([EmptyRing()] + front) + rest;
      && EmptyRings(CountFull(after)) + Survivors(after) == EmptyRings(CountFull(before)) + Survivors(before)
      && Rewards(after) + LineReward == Rewards(before)
  {
    ConsEmptyNotFull(front);
    PrefixNotFull([EmptyRing()] + front, rest);
    DropFull(front, full, rest);
    EmptyRingsAbsorb(CountFull(rest), front, Survivors(rest));
  }

  /**
   Dropping full ring `k` when no ring before it is full, as `ClearRing`
   does: the compacted board stays the same and one reward is taken.
   */
  lemma LoweredCompacts(b: Board, k: int)
    requires WellFormed(b) && 0 <= k < GridRings && RingFull(b[k])
    requires forall i :: 0 <= i < k ==> !RingFull(b[i])
    ensures Compacted(Lowered(b, k)) == Compacted(b)
    ensures Rewards(Lowered(b, k)) + LineReward == Rewards(b)
  {
    SplitAround(b, k);
    DropFullCompacts(b[..k], b[k], b[k + 1..]);
  }

  /** After ring `k` is dropped, rings 0 to `k` are not full when no ring before `k` was. */
  lemma LoweredHeadNotFull(b: Board, k: int)
    requires WellFormed(b) && 0 <= k < GridRings
    requires forall i :: 0 <= i < k ==> !RingFull(b[i])
    ensures forall i :: 0 <= i <= k ==> !RingFull(Lowered(b, k)[i])
  {
    ConsEmptyNotFull(b[..k]);
  }

  lemma SplitAround<T>(s: seq<T>, k: int)
    requires 0 <= k < |s|
    ensures s == s[..k] + ([s[k]] + s[k + 1..])
  {
  }

  lemma SeqAssoc<T>(x: seq<T>, y: seq<T>, z: seq<T>)
    ensures x + (y + z) == (x + y) + z
  {
  }

  /**
   The invariant of the pass: once no ring before `k` is full, the rest of
   the pass yields the compacted board and adds the rewards of the full rings.
   */
  lemma {:induction false} PassFrom(b: Board, score: int, k: int)
    requires WellFormed(b) && 0 <= k <= GridRings
    requires forall i :: 0 <= i < k ==> !RingFull(b[i])
    ensures CheckLinesFrom(b, score, k) == Cleared(Compacted(b), score + Rewards(b))
    decreases GridRings - k, 1
  {
    if k == GridRings {
      NoneFull(b);
      assert EmptyRings(0) + b == b;
    } else if RingFull(b[k]) {
      PassClearing(b, score, k);
    } else {
      PassFrom(b, score, k + 1);
    }
  }

  /** The step of the pass at a full ring: clear it, take the reward, go on outward. */
  lemma {:induction false} PassClearing(b: Board, score: int, k: int)
    requires WellFormed(b) && 0 <= k < GridRings && RingFull(b[k])
    requires forall i :: 0 <= i < k ==> !RingFull(b[i])
    ensures CheckLinesFrom(b, score, k) == Cleared(Compacted(b), score + Rewards(b))
    decreases GridRings - k, 0
  {
    LoweredCompacts(b, k);
    LoweredHeadNotFull(b, k);
    PassFrom(ClearRing(b, k), score + LineReward, k + 1);
  }

  /** The exact outcome of `checkLines`: the compacted board, and `LineReward` per full ring. */
  lemma CheckLinesOutcome(b: Board, score: int)
    requires WellFormed(b)
    ensures CheckLines(b, score) == Cleared(Compacted(b), score + LineReward * CountFull(b))
  {
    PassFrom(b, score, 0);
    RewardsCount(b);
  }

  /** After the single pass no ring is full, and the dimensions are kept. */
  lemma CheckLinesLeavesNoFullRing(b: Board, score: int)
    requires WellFormed(b)
    ensures WellFormed(CheckLines(b, score).board)
    ensures forall i :: 0 <= i < GridRings ==> !RingFull(CheckLines(b, score).board[i])
  {
    CheckLinesOutcome(b, score);
    EmptyRingNotFull();
    SurvivorsNotFull(b);
    var r := Compacted(b);
    forall i | 0 <= i < GridRings
      ensures !RingFull(r[i])
    {
      if i >= CountFull(b) {
        assert r[i] == Survivors(b)[i - CountFull(b)];
      }
    }
  }

  /** Board and score stay as they are exactly when no ring is full. */
  lemma CheckLinesIdle(b: Board, score: int)
    requires WellFormed(b)
    ensures CheckLines(b, score) == Cleared(b, score) <==> forall i :: 0 <= i < GridRings ==> !RingFull(b[i])
  {
    CheckLinesOutcome(b, score);
    NoneFull(b);
    RewardsCount(b);
    if CountFull(b) == 0 {
      assert EmptyRings(0) + b == b;
    }
  }

  /** Rings inward of every full ring keep their contents. */
  lemma CheckLinesKeepsInnerRings(b: Board, score: int, j: int)
    requires WellFormed(b) && 0 <= j <= GridRings
    requires forall i :: j <= i < GridRings ==> !RingFull(b[i])
    ensures CheckLines(b, score).board[j..] == b[j..]
  {
    CheckLinesOutcome(b, score);
    var front, back := b[..j], b[j..];
    assert b == front + back;
    assert forall i :: 0 <= i < |back| ==> back[i] == b[j + i];
    NoneFull(back);
    AppendRings(front, back);
    var prefix := EmptyRings(CountFull(front)) + Survivors(front);
    assert |prefix| == j;
    SeqAssoc(EmptyRings(CountFull(front)), Survivors(front), back);
    assert Compacted(b) == prefix + back;
  }

  /** A board whose only occupied ring is one full ring is emptied, for one reward. */
  lemma SingleFullRingClears(b: Board, score: int, k: int)
    requires WellFormed(b) && 0 <= k < GridRings
    requires RingFull(b[k])
    requires forall i, j :: 0 <= i < GridRings && i != k && 0 <= j < SegmentsPerRing ==> b[i][j] == None
    ensures CheckLines(b, score) == Cleared(InitializeGrid(), score + LineReward)
  {
    CheckLinesOutcome(b, score);
    var e := EmptyRing();
    forall i | 0 <= i < GridRings && i != k
      ensures b[i] == e
    {
    }
    OneFull(b, k);
    assert EmptyRings(1) + EmptyRings(GridRings - 1) == InitializeGrid();
  }

  lemma {:induction false} OneFull(b: seq<Ring>, k: int)
    requires 0 <= k < |b| && RingFull(b[k])
    requires forall i :: 0 <= i < |b| && i != k ==> b[i] == EmptyRing()
    ensures CountFull(b) == 1
    ensures Survivors(b) == EmptyRings(|b| - 1)
    decreases |b|
  {
    EmptyRingNotFull();
    var init := b[..|b| - 1];
    if k == |b| - 1 {
      assert forall i :: 0 <= i < |init| ==> init[i] == EmptyRing();
      NoneFull(init);
      assert init == EmptyRings(|b| - 1);
    } else {
      OneFull(init, k);
    }
  }

}
