/**
  The chunk partitioner of backend/utils.js `splitChunks`: `numChunks` empty lists, then
  item `i` of the input is pushed onto list `i % numChunks`. The lists are therefore
  round-robin classes, not contiguous slices of the input, so concatenating them does not
  give the input back; reading them back round by round (`Interleave`) does.
 */
module Chunks {

  /** How many of the indices `0 .. k - 1` are congruent to `j` modulo `n`. */
  function ChunkSize(k: nat, n: nat, j: nat): nat
    requires n > 0
  {
    k / n + (if j < k % n then 1 else 0)
  }

  lemma {:induction false} MulMono(a: nat, b: nat, n: nat)
    requires a <= b
    ensures a * n <= b * n
    decreases b - a
  {
    if a < b {
      MulMono(a, b - 1, n);
      assert (b - 1) * n + n == b * n;
    }
  }

  /** `x * n + r <= y * n + s` with `s < n` bounds `x` by `y`: a multiple plus a remainder stays below the next multiple. */
  lemma BelowNextMultiple(x: nat, r: nat, y: nat, s: nat, n: nat)
    requires s < n && x * n + r <= y * n + s
    ensures x <= y
  {
    if y < x {
      MulMono(y + 1, x, n);
      assert false;
    }
  }

  /** Quotient and remainder are determined by any decomposition `a == q * n + r` with `0 <= r < n`. */
  lemma DivModUnique(a: nat, n: nat, q: nat, r: nat)
    requires n > 0 && r < n && a == q * n + r
    ensures a / n == q && a % n == r
  {
    var q', r' := a / n, a % n;
    assert a == q' * n + r';
    BelowNextMultiple(q, r, q', r', n);
    BelowNextMultiple(q', r', q, r, n);
  }

  /** Moving from index `i` to `i + 1` either advances the remainder or wraps it and advances the quotient. */
  lemma DivModNext(i: nat, n: nat)
    requires n > 0
    ensures i % n + 1 < n ==> (i + 1) / n == i / n && (i + 1) % n == i % n + 1
    ensures i % n + 1 == n ==> (i + 1) / n == i / n + 1 && (i + 1) % n == 0
  {
    if i % n + 1 < n {
      DivModUnique(i + 1, n, i / n, i % n + 1);
    } else {
      DivModUnique(i + 1, n, i / n + 1, 0);
    }
  }

  /** Adding index `i` to the first `i` indices adds one member to class `i % n` and none to the others. */
  lemma ChunkSizeNext(i: nat, n: nat, j: nat)
    requires n > 0 && j < n
    ensures ChunkSize(i + 1, n, j) == ChunkSize(i, n, j) + (if j == i % n then 1 else 0)
  {
    DivModNext(i, n);
  }

  /**
    backend/utils.js `splitChunks` after its loop has run over the whole input; the
    recursion follows the loop, item `|p| - 1` being the last one pushed.
   */
  function SplitChunks<T>(p: seq<T>, n: nat): (chunks: seq<seq<T>>)
    requires n > 0
    ensures |chunks| == n
    decreases |p|
  {
    if |p| == 0 then seq(n, _ => [])
    else
      var i := |p| - 1;
      var prev := SplitChunks(p[..i], n);
      prev[i % n := prev[i % n] + [p[i]]]
  }

  /**
    The index at which round `k` of a round-robin split starts, `k * n`, counted round by
    round so that proofs about splits stay in linear arithmetic; `RoundStartIsProduct`
    gives the product.
   */
  function RoundStart(k: nat, n: nat): nat {
    if k == 0 then 0 else RoundStart(k - 1, n) + n
  }

  lemma {:induction false} RoundStartIsProduct(k: nat, n: nat)
    ensures RoundStart(k, n) == k * n
  {
    if k > 0 {
      RoundStartIsProduct(k - 1, n);
      assert (k - 1) * n + n == k * n;
    }
  }

  /** Index `i` is the item at offset `i % n` of round `i / n`. */
  lemma RoundOfIndex(i: nat, n: nat)
    requires n > 0
    ensures RoundStart(i / n, n) + i % n == i
  {
    RoundStartIsProduct(i / n, n);
  }

  /**
    The closed form of a round-robin split: `n` chunks, chunk `j` holding exactly the items
    whose index is `j` modulo `n`, in input order, so that its `k`-th item is
    `p[k * n + j]`.
   */
  predicate IsSplit<T(==)>(p: seq<T>, n: nat, chunks: seq<seq<T>>) {
    && n > 0
    && |chunks| == n
    && (forall j :: 0 <= j < n ==> |chunks[j]| == ChunkSize(|p|, n, j))
    && (forall j, k :: 0 <= j < n && 0 <= k < |chunks[j]| ==> RoundStart(k, n) + j < |p| && chunks[j][k] == p[RoundStart(k, n) + j])
  }

  /** `splitChunks` produces the round-robin split of its input. */
  lemma {:induction false} SplitChunksIsSplit<T>(p: seq<T>, n: nat)
    requires n > 0
    ensures IsSplit(p, n, SplitChunks(p, n))
    decreases |p|
  {
    if |p| > 0 {
      var i := |p| - 1;
      var prev := SplitChunks(p[..i], n);
      var r := SplitChunks(p, n);
      assert r == prev[i % n := prev[i % n] + [p[i]]];
      SplitChunksIsSplit(p[..i], n);
      forall j | 0 <= j < n
        ensures |r[j]| == ChunkSize(|p|, n, j)
      {
        ChunkSizeNext(i, n, j);
      }
      forall j, k | 0 <= j < n && 0 <= k < |r[j]|
        ensures RoundStart(k, n) + j < |p| && r[j][k] == p[RoundStart(k, n) + j]
      {
        if j == i % n && k == |prev[j]| {
          assert k == i / n;
          RoundOfIndex(i, n);
        } else {
          assert r[j][k] == prev[j][k] == p[..i][RoundStart(k, n) + j];
        }
      }
    }
  }

  /** Two round-robin splits of the same input into the same number of chunks are equal. */
  lemma IsSplitUnique<T>(p: seq<T>, n: nat, chunks: seq<seq<T>>, chunks': seq<seq<T>>)
    requires IsSplit(p, n, chunks) && IsSplit(p, n, chunks')
    ensures chunks == chunks'
  {
    forall j | 0 <= j < n
      ensures chunks[j] == chunks'[j]
    {
      assert forall k :: 0 <= k < |chunks[j]| ==> chunks[j][k] == p[RoundStart(k, n) + j] == chunks'[j][k];
    }
  }

  /**
    Every item lands in chunk `i % n` at position `i / n`, and the split returns exactly `n`
    chunks, all of them empty when the input is.
   */
  lemma SplitChunksPlacement<T>(p: seq<T>, n: nat)
    requires n > 0
    ensures |SplitChunks(p, n)| == n
    ensures forall i :: 0 <= i < |p| ==> i / n < |SplitChunks(p, n)[i % n]| && SplitChunks(p, n)[i % n][i / n] == p[i]
    ensures |p| == 0 ==> forall j :: 0 <= j < n ==> SplitChunks(p, n)[j] == []
  {
    var r := SplitChunks(p, n);
    SplitChunksIsSplit(p, n);
    forall i | 0 <= i < |p|
      ensures i / n < |r[i % n]| && r[i % n][i / n] == p[i]
    {
      PositionInClass(i, |p|, n);
      RoundOfIndex(i, n);
    }
  }

  /** Index `i < k` is member number `i / n` of its class `i % n` among the first `k` indices. */
  lemma PositionInClass(i: nat, k: nat, n: nat)
    requires n > 0 && i < k
    ensures i / n < ChunkSize(k, n, i % n)
  {
    var qi, ri, qk, rk := i / n, i % n, k / n, k % n;
    assert i == qi * n + ri && k == qk * n + rk;
    DivMono(i, k, n);
    if qk == qi {
      assert k - i == rk - ri;
    }
  }

  lemma DivMono(a: nat, b: nat, n: nat)
    requires n > 0 && a <= b
    ensures a / n <= b / n
  {
    assert b / n * n + b % n == b;
    assert a / n * n + a % n == a;
    BelowNextMultiple(a / n, a % n, b / n, b % n, n);
  }

  /** The chunks are balanced: sizes never grow with the chunk index and differ by at most one. */
  lemma SplitChunksBalanced<T>(p: seq<T>, n: nat)
    requires n > 0
    ensures forall j, j' :: 0 <= j <= j' < n ==>
      |SplitChunks(p, n)[j']| <= |SplitChunks(p, n)[j]| <= |SplitChunks(p, n)[j']| + 1
  {
    SplitChunksIsSplit(p, n);
  }

  /** The total number of items held by a list of chunks. */
  function TotalSize<T>(chunks: seq<seq<T>>): nat {
    if |chunks| == 0 then 0 else |chunks[0]| + TotalSize(chunks[1..])
  }

  lemma {:induction false} TotalSizeUpdate<T>(chunks: seq<seq<T>>, j: nat, c: seq<T>)
    requires j < |chunks|
    ensures TotalSize(chunks[j := c]) + |chunks[j]| == TotalSize(chunks) + |c|
    decreases |chunks|
  {
    if j > 0 {
      assert chunks[j := c][1..] == chunks[1..][j - 1 := c];
      TotalSizeUpdate(chunks[1..], j - 1, c);
    }
  }

  lemma {:induction false} TotalSizeEmpty<T>(chunks: seq<seq<T>>)
    requires forall j :: 0 <= j < |chunks| ==> chunks[j] == []
    ensures TotalSize(chunks) == 0
    decreases |chunks|
  {
    if |chunks| > 0 {
      TotalSizeEmpty(chunks[1..]);
    }
  }

  /** No item is lost or duplicated in size: the chunk sizes add up to the input length. */
  lemma {:induction false} SplitChunksTotal<T>(p: seq<T>, n: nat)
    requires n > 0
    ensures TotalSize(SplitChunks(p, n)) == |p|
    decreases |p|
  {
    if |p| == 0 {
      TotalSizeEmpty(SplitChunks(p, n));
    } else {
      var i := |p| - 1;
      var prev := SplitChunks(p[..i], n);
      SplitChunksTotal(p[..i], n);
      TotalSizeUpdate(prev, i % n, prev[i % n] + [p[i]]);
    }
  }

  /** The first item of every non-empty chunk, in chunk order: one round of the read-back. */
  function Heads<T>(chunks: seq<seq<T>>): (h: seq<T>)
    ensures |h| <= |chunks|
  {
    if |chunks| == 0 then []
    else (if |chunks[0]| == 0 then [] else [chunks[0][0]]) + Heads(chunks[1..])
  }

  /** Every chunk without its first item. */
  function Tails<T>(chunks: seq<seq<T>>): (t: seq<seq<T>>)
    ensures |t| == |chunks|
    ensures forall j :: 0 <= j < |t| ==> t[j] == if |chunks[j]| == 0 then [] else chunks[j][1..]
  {
    if |chunks| == 0 then []
    else [if |chunks[0]| == 0 then [] else chunks[0][1..]] + Tails(chunks[1..])
  }

  /** One round takes exactly as many items as `Heads` returns, and takes at least one while any remain. */
  lemma {:induction false} HeadsTailsSize<T>(chunks: seq<seq<T>>)
    ensures TotalSize(Tails(chunks)) + |Heads(chunks)| == TotalSize(chunks)
    ensures TotalSize(chunks) > 0 ==> |Heads(chunks)| > 0
    decreases |chunks|
  {
    if |chunks| > 0 {
      HeadsTailsSize(chunks[1..]);
      assert Tails(chunks)[1..] == Tails(chunks[1..]);
    }
  }

  /**
    The round-robin read-back: the first item of each chunk in chunk order, then the second
    item of each, and so on until every chunk is used up.
   */
  function Interleave<T>(chunks: seq<seq<T>>): seq<T>
    decreases TotalSize(chunks)
  {
    if TotalSize(chunks) == 0 then []
    else
      HeadsTailsSize(chunks);
      Heads(chunks) + Interleave(Tails(chunks))
  }

  /** When the first `h` chunks are non-empty and the rest empty, a round reads the first item of each of the first `h`. */
  lemma {:induction false} HeadsOfFirst<T>(chunks: seq<seq<T>>, h: nat)
    requires h <= |chunks|
    requires forall j :: 0 <= j < h ==> |chunks[j]| > 0
    requires forall j :: h <= j < |chunks| ==> chunks[j] == []
    ensures |Heads(chunks)| == h
    ensures forall j :: 0 <= j < h ==> Heads(chunks)[j] == chunks[j][0]
    decreases |chunks|
  {
    if |chunks| > 0 {
      if h == 0 {
        HeadsOfFirst(chunks[1..], 0);
      } else {
        HeadsOfFirst(chunks[1..], h - 1);
        assert Heads(chunks) == [chunks[0][0]] + Heads(chunks[1..]);
      }
    }
  }

  /** Among the first `k` indices, class `j < n` is non-empty exactly when `j < k`. */
  lemma ChunkSizePositive(k: nat, n: nat, j: nat)
    requires n > 0 && j < n
    ensures ChunkSize(k, n, j) > 0 <==> j < k
  {
    if k < n {
      DivModUnique(k, n, 0, k);
    } else {
      DivMono(n, k, n);
      DivModUnique(n, n, 1, 0);
    }
  }

  /** Removing one round of `min(n, k)` indices removes one member from every non-empty class. */
  lemma ChunkSizeAfterRound(k: nat, n: nat, j: nat)
    requires n > 0 && j < n
    ensures var h := if k < n then k else n;
      ChunkSize(k - h, n, j) == if ChunkSize(k, n, j) > 0 then ChunkSize(k, n, j) - 1 else 0
  {
    if k < n {
      DivModUnique(k, n, 0, k);
      DivModUnique(0, n, 0, 0);
    } else {
      var q, r := (k - n) / n, (k - n) % n;
      assert k - n == q * n + r;
      assert k == (q + 1) * n + r;
      DivModUnique(k, n, q + 1, r);
    }
  }

  /** A round reads the first `min(n, |p|)` items of a round-robin split. */
  lemma HeadsOfSplit<T>(p: seq<T>, n: nat, chunks: seq<seq<T>>)
    requires IsSplit(p, n, chunks)
    ensures var h := if |p| < n then |p| else n;
      Heads(chunks) == p[..h]
  {
    var h := if |p| < n then |p| else n;
    forall j | 0 <= j < n
      ensures |chunks[j]| > 0 <==> j < h
    {
      ChunkSizePositive(|p|, n, j);
    }
    forall j | h <= j < n
      ensures chunks[j] == []
    {
    }
    HeadsOfFirst(chunks, h);
    forall j | 0 <= j < h
      ensures Heads(chunks)[j] == p[j]
    {
      assert chunks[j][0] == p[RoundStart(0, n) + j];
    }
  }

  /** What a round leaves is the round-robin split of the items after the first `min(n, |p|)`. */
  lemma TailsOfSplit<T>(p: seq<T>, n: nat, chunks: seq<seq<T>>)
    requires IsSplit(p, n, chunks)
    ensures var h := if |p| < n then |p| else n;
      IsSplit(p[h..], n, Tails(chunks))
  {
    var h := if |p| < n then |p| else n;
    var t, rest := Tails(chunks), p[h..];
    forall j | 0 <= j < n
      ensures |t[j]| == ChunkSize(|rest|, n, j)
    {
      ChunkSizeAfterRound(|p|, n, j);
    }
    forall j, k | 0 <= j < n && 0 <= k < |t[j]|
      ensures RoundStart(k, n) + j < |rest| && t[j][k] == rest[RoundStart(k, n) + j]
    {
      assert t[j][k] == chunks[j][k + 1];
      assert RoundStart(k + 1, n) == RoundStart(k, n) + n;
      ChunkSizePositive(|p|, n, j);
    }
  }

  /** Splitting nothing leaves nothing to read back. */
  lemma InterleaveOfEmptySplit<T>(n: nat, chunks: seq<seq<T>>)
    requires IsSplit([], n, chunks)
    ensures Interleave(chunks) == []
  {
    forall j | 0 <= j < n
      ensures chunks[j] == []
    {
      DivModUnique(0, n, 0, 0);
    }
    TotalSizeEmpty(chunks);
  }

  /** While a round still takes something, the read-back is that round followed by the read-back of what is left. */
  lemma InterleaveRound<T>(chunks: seq<seq<T>>)
    requires |Heads(chunks)| > 0
    ensures Interleave(chunks) == Heads(chunks) + Interleave(Tails(chunks))
  {
    HeadsTailsSize(chunks);
  }

  /** A round that reads the first `h` items, followed by a read-back of the rest, reads back everything. */
  lemma ReadBackStep<T>(chunks: seq<seq<T>>, p: seq<T>, h: nat)
    requires 0 < h <= |p|
    requires Heads(chunks) == p[..h]
    requires Interleave(Tails(chunks)) == p[h..]
    ensures Interleave(chunks) == p
  {
    InterleaveRound(chunks);
    assert p == p[..h] + p[h..];
  }

  /** Reading a round-robin split back round by round reproduces the input exactly. */
  lemma {:induction false} InterleaveOfSplit<T>(p: seq<T>, n: nat, chunks: seq<seq<T>>)
    requires IsSplit(p, n, chunks)
    ensures Interleave(chunks) == p
    decreases |p|
  {
    if |p| == 0 {
      InterleaveOfEmptySplit(n, chunks);
    } else {
      var h := if |p| < n then |p| else n;
      var rest := p[h..];
      assert Heads(chunks) == p[..h] by { HeadsOfSplit(p, n, chunks); }
      assert Interleave(Tails(chunks)) == rest by {
        TailsOfSplit(p, n, chunks);
        InterleaveOfSplit(rest, n, Tails(chunks));
      }
      ReadBackStep(chunks, p, h);
    }
  }

  /** `Interleave` undoes `splitChunks`, for any positive number of chunks. */
  lemma SplitChunksRoundTrip<T>(p: seq<T>, n: nat)
    requires n > 0
    ensures Interleave(SplitChunks(p, n)) == p
    ensures TotalSize(SplitChunks(p, n)) == |p|
  {
    SplitChunksIsSplit(p, n);
    InterleaveOfSplit(p, n, SplitChunks(p, n));
    SplitChunksTotal(p, n);
  }
}
