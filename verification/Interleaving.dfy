/** Interleaving of codeword blocks (section 7.6 of ISO/IEC 18004): codewords are taken from the
    blocks in turn, skipping blocks that have run out.  `Position` is the independent description of
    the same order that a decoder uses. */
module Interleaving {

  /** The i-th codewords of the first r blocks. */
  function Row<T>(blocks: seq<seq<T>>, i: nat, r: nat): (s: seq<T>)
    requires r <= |blocks|
  {
    if r == 0 then [] else Row(blocks, i, r - 1) + (if i < |blocks[r - 1]| then [blocks[r - 1][i]] else [])
  }

  /** The first n rounds. */
  function Interleave<T>(blocks: seq<seq<T>>, n: nat): (s: seq<T>)
  {
    if n == 0 then [] else Interleave(blocks, n - 1) + Row(blocks, n - 1, |blocks|)
  }

  /** How many of the first r blocks are longer than i. */
  function Longer(lens: seq<nat>, i: nat, r: nat): (c: nat)
    requires r <= |lens|
  {
    if r == 0 then 0 else Longer(lens, i, r - 1) + (if i < lens[r - 1] then 1 else 0)
  }

  /** How many codewords the first n rounds take. */
  function Taken(lens: seq<nat>, n: nat): (c: nat)
  {
    if n == 0 then 0 else Taken(lens, n - 1) + Longer(lens, n - 1, |lens|)
  }

  /** Where codeword i of block r stands in the stream. */
  function Position(lens: seq<nat>, i: nat, r: nat): (p: nat)
    requires r <= |lens|
  {
    Taken(lens, i) + Longer(lens, i, r)
  }

  function Lengths<T>(blocks: seq<seq<T>>): (lens: seq<nat>)
    ensures |lens| == |blocks|
  {
    seq(|blocks|, r requires 0 <= r < |blocks| => |blocks[r]|)
  }

  function SumOf(lens: seq<nat>): (s: nat)
  {
    if lens == [] then 0 else SumOf(lens[..|lens| - 1]) + lens[|lens| - 1]
  }

  lemma {:induction false} RowLength<T>(blocks: seq<seq<T>>, i: nat, r: nat)
    requires r <= |blocks|
    ensures |Row(blocks, i, r)| == Longer(Lengths(blocks), i, r)
  {
    if r > 0 {
      RowLength(blocks, i, r - 1);
    }
  }

  lemma TakenNext(lens: seq<nat>, n: nat)
    requires n > 0
    ensures Taken(lens, n) == Taken(lens, n - 1) + Longer(lens, n - 1, |lens|)
  {
  }

  lemma NothingInterleaved<T>(blocks: seq<seq<T>>)
    ensures Interleave(blocks, 0) == [] && Taken(Lengths(blocks), 0) == 0
  {
  }

  lemma {:induction false} InterleaveLength<T>(blocks: seq<seq<T>>, n: nat)
    ensures |Interleave(blocks, n)| == Taken(Lengths(blocks), n)
  {
    hide Interleave, Taken, Row, Longer, Lengths;
    if n == 0 {
      NothingInterleaved(blocks);
    } else {
      InterleaveLength(blocks, n - 1);
      RowLength(blocks, n - 1, |blocks|);
      InterleaveNext(blocks, n);
      TakenNext(Lengths(blocks), n);
    }
  }

  lemma {:induction false} RowAt<T>(blocks: seq<seq<T>>, i: nat, r: nat, r': nat)
    requires r < r' <= |blocks| && i < |blocks[r]|
    ensures var k := Longer(Lengths(blocks), i, r);
            k < |Row(blocks, i, r')| && Row(blocks, i, r')[k] == blocks[r][i]
  {
    RowLength(blocks, i, r);
    if r < r' - 1 {
      RowAt(blocks, i, r, r' - 1);
    }
  }

  /** Interleaving puts codeword i of block r at its position. */
  lemma AtFront<T>(a: seq<T>, b: seq<T>, p: nat)
    requires p < |a|
    ensures p < |a + b| && (a + b)[p] == a[p]
  {
  }

  lemma AtBack<T>(a: seq<T>, b: seq<T>, k: nat)
    requires k < |b|
    ensures |a| + k < |a + b| && (a + b)[|a| + k] == b[k]
  {
  }

  lemma InterleaveNext<T>(blocks: seq<seq<T>>, n: nat)
    requires n > 0
    ensures Interleave(blocks, n) == Interleave(blocks, n - 1) + Row(blocks, n - 1, |blocks|)
  {
  }

  lemma PositionIs(lens: seq<nat>, i: nat, r: nat)
    requires r <= |lens|
    ensures Position(lens, i, r) == Taken(lens, i) + Longer(lens, i, r)
  {
  }

  lemma {:induction false} InterleavedAt<T>(blocks: seq<seq<T>>, n: nat, i: nat, r: nat)
    requires r < |blocks| && i < |blocks[r]| && i < n
    ensures var p := Position(Lengths(blocks), i, r);
            p < |Interleave(blocks, n)| && Interleave(blocks, n)[p] == blocks[r][i]
  {
    hide Interleave, Row, Longer, Taken, Lengths, Position;
    var lens, before, row := Lengths(blocks), Interleave(blocks, n - 1), Row(blocks, n - 1, |blocks|);
    var k := Longer(lens, i, r);
    InterleaveNext(blocks, n);
    PositionIs(lens, i, r);
    if i == n - 1 {
      InterleaveLength(blocks, i);
      RowAt(blocks, i, r, |blocks|);
      AtBack(before, row, k);
    } else {
      InterleavedAt(blocks, n - 1, i, r);
      AtFront(before, row, Position(lens, i, r));
    }
  }

  // ---- length of the stream

  lemma {:induction false} LongerSnoc(lens: seq<nat>, l: nat, i: nat, r: nat)
    requires r <= |lens|
    ensures Longer(lens + [l], i, r) == Longer(lens, i, r)
  {
    if r > 0 {
      LongerSnoc(lens, l, i, r - 1);
    }
  }

  lemma {:induction false} TakenSnoc(lens: seq<nat>, l: nat, n: nat)
    ensures Taken(lens + [l], n) == Taken(lens, n) + (if l < n then l else n)
  {
    if n > 0 {
      TakenSnoc(lens, l, n - 1);
      LongerSnoc(lens, l, n - 1, |lens|);
    }
  }

  lemma {:induction false} TakenNothing(n: nat)
    ensures Taken([], n) == 0
  {
    if n > 0 {
      TakenNothing(n - 1);
    }
  }

  /** Once every block is exhausted the stream holds every codeword: double counting. */
  lemma {:induction false} TakenAll(lens: seq<nat>, n: nat)
    requires forall r :: 0 <= r < |lens| ==> lens[r] <= n
    ensures Taken(lens, n) == SumOf(lens)
    decreases |lens|
  {
    if lens == [] {
      TakenNothing(n);
    } else {
      var init, last := lens[..|lens| - 1], lens[|lens| - 1];
      TakenAll(init, n);
      TakenSnoc(init, last, n);
      assert lens == init + [last];
    }
  }

  // ---- the decoder's view

  /** Split a stream into blocks of the given lengths. */
  function Deinterleave<T>(stream: seq<T>, lens: seq<nat>): (blocks: seq<seq<T>>)
    requires forall i, r :: 0 <= r < |lens| && 0 <= i < lens[r] ==> Position(lens, i, r) < |stream|
  {
    seq(|lens|, r requires 0 <= r < |lens| =>
      seq(lens[r], i requires 0 <= i < lens[r] => stream[Position(lens, i, r)]))
  }

  /** Every position of a block lies inside the stream. */
  lemma PositionInside(lens: seq<nat>, n: nat)
    requires forall r :: 0 <= r < |lens| ==> lens[r] <= n
    ensures forall i, r :: 0 <= r < |lens| && 0 <= i < lens[r] ==> Position(lens, i, r) < SumOf(lens)
  {
    TakenAll(lens, n);
    forall i, r | 0 <= r < |lens| && 0 <= i < lens[r]
      ensures Position(lens, i, r) < SumOf(lens)
    {
      LongerBelow(lens, i, r, |lens|);
      TakenMonotone(lens, i + 1, n);
    }
  }

  lemma {:induction false} LongerBelow(lens: seq<nat>, i: nat, r: nat, r': nat)
    requires r < r' <= |lens| && i < lens[r]
    ensures Longer(lens, i, r) < Longer(lens, i, r')
  {
    if r < r' - 1 {
      LongerBelow(lens, i, r, r' - 1);
    }
  }

  lemma {:induction false} TakenMonotone(lens: seq<nat>, m: nat, n: nat)
    requires m <= n
    ensures Taken(lens, m) <= Taken(lens, n)
  {
    if m < n {
      TakenMonotone(lens, m, n - 1);
    }
  }

  lemma PositionGrows(lens: seq<nat>, i: nat, r: nat, i': nat, r': nat)
    requires r < |lens| && i < lens[r] && r' < |lens|
    requires i < i' || (i == i' && r < r')
    ensures Position(lens, i, r) < Position(lens, i', r')
  {
    hide Longer, Taken;
    TakenNext(lens, i + 1);
    LongerBelow(lens, i, r, |lens|);
    if i < i' {
      TakenMonotone(lens, i + 1, i');
    } else {
      LongerBelow(lens, i, r, r');
    }
  }

  /** The stream goes round by round through the blocks, so the codewords' order is that of their indices first and
      their blocks second; in particular no two of them share a position. */
  lemma PositionsOrdered(lens: seq<nat>, i: nat, r: nat, i': nat, r': nat)
    requires r < |lens| && i < lens[r] && r' < |lens| && i' < lens[r']
    ensures Position(lens, i, r) < Position(lens, i', r') <==> i < i' || (i == i' && r < r')
    ensures Position(lens, i, r) == Position(lens, i', r') <==> i == i' && r == r'
  {
    hide Position;
    if i < i' || (i == i' && r < r') {
      PositionGrows(lens, i, r, i', r');
    } else if i' < i || (i == i' && r' < r) {
      PositionGrows(lens, i', r', i, r);
    }
  }

  /** A de-interleaver recovers every block, for any list of blocks. */
  lemma DeinterleaveInverts<T>(blocks: seq<seq<T>>, n: nat, tail: seq<T>)
    requires forall r :: 0 <= r < |blocks| ==> |blocks[r]| <= n
    ensures |Interleave(blocks, n)| == SumOf(Lengths(blocks))
    ensures forall i, r :: 0 <= r < |blocks| && 0 <= i < |blocks[r]| ==>
              Position(Lengths(blocks), i, r) < SumOf(Lengths(blocks))
    ensures Deinterleave(Interleave(blocks, n) + tail, Lengths(blocks)) == blocks
  {
    var lens := Lengths(blocks);
    InterleaveLength(blocks, n);
    TakenAll(lens, n);
    PositionInside(lens, n);
    var back := Deinterleave(Interleave(blocks, n) + tail, lens);
    forall r | 0 <= r < |blocks|
      ensures back[r] == blocks[r]
    {
      forall i | 0 <= i < |blocks[r]|
        ensures back[r][i] == blocks[r][i]
      {
        InterleavedAt(blocks, n, i, r);
      }
    }
  }

  /** `now` is `before` with x written from `start` on. */
  ghost predicate Wrote<T>(before: seq<T>, now: seq<T>, start: nat, x: seq<T>)
  {
    start + |x| <= |before| && now == before[..start] + x + before[start + |x|..]
  }

  lemma WroteOneMore<T>(before: seq<T>, now: seq<T>, start: nat, x: seq<T>, v: T)
    requires Wrote(before, now, start, x) && start + |x| < |before|
    ensures start + |x| < |now| && Wrote(before, now[start + |x| := v], start, x + [v])
  {
  }

  /** One round. */
  method WriteRow<T>(data: array<T>, ghost before: seq<T>, ghost start: nat, ghost done: seq<T>,
                     blocks: seq<seq<T>>, i: nat, first: nat) returns (index: nat)
    requires first == start + |done| && first + |Row(blocks, i, |blocks|)| <= |before|
    requires Wrote(before, data[..], start, done)
    modifies data
    ensures index == first + |Row(blocks, i, |blocks|)|
    ensures Wrote(before, data[..], start, done + Row(blocks, i, |blocks|))
  {
    index := first;
    for r := 0 to |blocks|
      invariant index == first + |Row(blocks, i, r)|
      invariant Wrote(before, data[..], start, done + Row(blocks, i, r))
    {
      RowPrefix(blocks, i, r + 1, |blocks|);
      if i < |blocks[r]| {
        WroteOneMore(before, data[..], start, done + Row(blocks, i, r), blocks[r][i]);
        assert done + Row(blocks, i, r) + [blocks[r][i]] == done + Row(blocks, i, r + 1);
        data[index] := blocks[r][i];
        index := index + 1;
      } else {
        assert Row(blocks, i, r + 1) == Row(blocks, i, r);
      }
    }
  }

  /** The nested loops that write one kind of codeword, continuing at `start`. */
  method WriteRounds<T>(data: array<T>, start: nat, blocks: seq<seq<T>>, n: nat) returns (index: nat)
    requires start + |Interleave(blocks, n)| <= data.Length
    modifies data
    ensures index == start + |Interleave(blocks, n)|
    ensures Wrote(old(data[..]), data[..], start, Interleave(blocks, n))
  {
    hide Row, Wrote;
    index := start;
    WroteNothing(data[..], start);
    for i := 0 to n
      invariant index == start + |Interleave(blocks, i)|
      invariant Wrote(old(data[..]), data[..], start, Interleave(blocks, i))
    {
      InterleavePrefix(blocks, i + 1, n);
      index := WriteRow(data, old(data[..]), start, Interleave(blocks, i), blocks, i, index);
    }
  }

  lemma WroteNothing<T>(s: seq<T>, start: nat)
    requires start <= |s|
    ensures Wrote(s, s, start, [])
  {
  }

  lemma {:induction false} InterleavePrefix<T>(blocks: seq<seq<T>>, m: nat, n: nat)
    requires m <= n
    ensures |Interleave(blocks, m)| <= |Interleave(blocks, n)|
  {
    if m < n {
      InterleavePrefix(blocks, m, n - 1);
    }
  }

  lemma {:induction false} RowPrefix<T>(blocks: seq<seq<T>>, i: nat, m: nat, n: nat)
    requires m <= n <= |blocks|
    ensures |Row(blocks, i, m)| <= |Row(blocks, i, n)|
  {
    if m < n {
      RowPrefix(blocks, i, m, n - 1);
    }
  }
}
