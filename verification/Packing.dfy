/** Packing repositories into batch queries: the greedy loop, what it guarantees, and why no other
    way of cutting the list into consecutive pieces needs fewer queries. */
module Packing {
  import opened Text
  import opened BatchBody
  import opened BodySize

  const MAX_BATCH_BRANCHES := 32
  const MAX_BATCH_BODY_BYTES := 65536

  type Chunks = seq<seq<Remote>>

  function Flatten(chunks: Chunks): seq<Remote> {
    if chunks == [] then [] else chunks[0] + Flatten(chunks[1..])
  }

  predicate WithinLimits(sel: Selections, chunk: seq<Remote>) {
    BranchCount(chunk) <= 32 && Bytes(Body(sel, chunk, 0)) <= 65536
  }

  /** A chunk that may be sent: one repository of any size, or several within both limits. */
  predicate Sendable(sel: Selections, chunk: seq<Remote>) {
    |chunk| == 1 || (|chunk| > 1 && WithinLimits(sel, chunk))
  }

  ghost predicate Partition(sel: Selections, chunks: Chunks, remotes: seq<Remote>) {
    Flatten(chunks) == remotes && forall k :: 0 <= k < |chunks| ==> Sendable(sel, chunks[k])
  }

  /** `next` starts with a repository that `chunk` has no room for. */
  ghost predicate Blocked(sel: Selections, chunk: seq<Remote>, next: seq<Remote>) {
    next != [] && !Sendable(sel, chunk + [next[0]])
  }

  /** No chunk has room for the repository that starts the next one. */
  ghost predicate Full(sel: Selections, chunks: Chunks) {
    forall k :: 0 < k < |chunks| ==> Blocked(sel, chunks[k - 1], chunks[k])
  }

  lemma {:induction false} BranchCountConcat(a: seq<Remote>, b: seq<Remote>)
    ensures BranchCount(a + b) == BranchCount(a) + BranchCount(b)
  {
    if b == [] {
      assert a + b == a;
    } else {
      assert (a + b)[..|a + b| - 1] == a + b[..|b| - 1];
      BranchCountConcat(a, b[..|b| - 1]);
    }
  }

  /** Any consecutive piece of a sendable chunk is sendable. */
  lemma SendableInside(sel: Selections, before: seq<Remote>, kept: seq<Remote>, after: seq<Remote>)
    requires kept != [] && Sendable(sel, before + kept + after)
    ensures Sendable(sel, kept)
  {
    hide Body, Bytes, BranchCount;
    if |kept| > 1 {
      BodyShrinks(sel, before, kept, after);
      BranchCountConcat(before + kept, after);
      BranchCountConcat(before, kept);
    }
  }

  lemma {:induction false} FlattenAppend(chunks: Chunks, chunk: seq<Remote>)
    ensures Flatten(chunks + [chunk]) == Flatten(chunks) + chunk
  {
    if chunks == [] {
      assert [chunk][1..] == [];
    } else {
      assert (chunks + [chunk])[1..] == chunks[1..] + [chunk];
      FlattenAppend(chunks[1..], chunk);
    }
  }

  /** The greedy cut stays ahead: whatever is left of it is a suffix of what any other cut has left. */
  lemma {:induction false} GreedyStaysAhead(sel: Selections, greedy: Chunks, other: Chunks,
                                            ahead: seq<Remote>)
    requires forall k :: 0 <= k < |greedy| ==> Sendable(sel, greedy[k])
    requires forall k :: 0 <= k < |other| ==> Sendable(sel, other[k])
    requires Full(sel, greedy)
    requires Flatten(other) == ahead + Flatten(greedy)
    ensures |greedy| <= |other|
    decreases |other|
  {
    hide WithinLimits;
    if greedy == [] {
    } else {
      var g, gs := greedy[0], greedy[1..];
      assert Flatten(other) != [];
      var o, os := other[0], other[1..];
      var all := ahead + g + Flatten(gs);
      assert o + Flatten(os) == all;
      TailFull(sel, greedy);
      if |o| <= |ahead| + |g| {
        var left := (ahead + g)[|o|..];
        assert Flatten(os) == all[|o|..];
        assert all[|o|..] == left + Flatten(gs);
        GreedyStaysAhead(sel, gs, os, left);
      } else {
        // The other chunk would swallow a whole greedy chunk and the repository after it.
        assert gs != [];
        var h := gs[0];
        assert h == greedy[1];
        assert Blocked(sel, greedy[1 - 1], greedy[1]);
        assert Flatten(gs) == h + Flatten(gs[1..]);
        var inside := g + [h[0]];
        assert o == all[..|o|];
        assert all[|ahead|..|ahead| + |inside|] == inside;
        assert o == ahead + inside + o[|ahead| + |inside|..];
        SendableInside(sel, ahead, inside, o[|ahead| + |inside|..]);
        assert false;
      }
    }
  }

  lemma TailFull(sel: Selections, a: Chunks)
    requires a != [] && Full(sel, a)
    ensures Full(sel, a[1..])
  {
    hide Blocked;
    var t := a[1..];
    forall k | 0 < k < |t| ensures Blocked(sel, t[k - 1], t[k]) {
      assert t[k] == a[k + 1] && t[k - 1] == a[k];
    }
  }

  lemma FullWithNext(sel: Selections, chunks: Chunks, chunk: seq<Remote>, next: seq<Remote>)
    requires Full(sel, chunks + [chunk]) && Blocked(sel, chunk, next)
    ensures Full(sel, chunks + [chunk] + [next])
  {
    hide Blocked;
    var a, b := chunks + [chunk], chunks + [chunk] + [next];
    forall k | 0 < k < |b| ensures Blocked(sel, b[k - 1], b[k]) {
      if k < |a| {
        assert b[k] == a[k] && b[k - 1] == a[k - 1];
      }
    }
  }

  lemma FullWithMore(sel: Selections, chunks: Chunks, chunk: seq<Remote>, more: seq<Remote>)
    requires Full(sel, chunks + [chunk])
    ensures Full(sel, chunks + [chunk + more])
  {
    hide Sendable;
    var a, b := chunks + [chunk], chunks + [chunk + more];
    forall k | 0 < k < |b| ensures Blocked(sel, b[k - 1], b[k]) {
      assert Blocked(sel, a[k - 1], a[k]);
      assert b[k - 1] == a[k - 1] && b[k][0] == a[k][0];
    }
  }

  /** Greedy packing: order kept, nothing lost, every chunk sendable, and as few chunks as possible. */
  method PackRemoteQueries(sel: Selections, remotes: seq<Remote>) returns (chunks: Chunks)
    ensures Partition(sel, chunks, remotes)
    ensures Full(sel, chunks)
    ensures forall k :: 0 <= k < |chunks| && |chunks[k]| > 1 ==>
      BranchCount(chunks[k]) <= 32 && Bytes(Body(sel, chunks[k], 0)) <= 65536
    ensures forall k :: 0 < k < |chunks| ==>
      && chunks[k] != []
      && var more := chunks[k - 1] + [chunks[k][0]]; BranchCount(more) > 32 || Bytes(Body(sel, more, 0)) > 65536
    ensures forall other :: Partition(sel, other, remotes) ==> |chunks| <= |other|
  {
    hide Body, Bytes, Blocked, BranchCount, Flatten;
    chunks := [];
    var chunk: seq<Remote> := [];
    var branchCount := 0;
    EmptyCuts();
    for i := 0 to |remotes|
      invariant Flatten(chunks) + chunk == remotes[..i]
      invariant i > 0 ==> Sendable(sel, chunk)
      invariant i == 0 ==> chunk == [] && chunks == []
      invariant forall k :: 0 <= k < |chunks| ==> Sendable(sel, chunks[k])
      invariant Full(sel, chunks + [chunk])
      invariant branchCount == BranchCount(chunk)
    {
      var remote := remotes[i];
      CountOneMore(chunk, remote);
      chunk := chunk + [remote];
      var body := BuildBatchBody(sel, chunk);
      if |chunk| > 1
        && (branchCount + |remote.branches| > MAX_BATCH_BRANCHES || Bytes(body) > MAX_BATCH_BODY_BYTES)
      {
        var popped := chunk[..|chunk| - 1];
        assert Blocked(sel, popped, [remote]) by { NoRoom(sel, popped, remote); }
        assert chunk == popped + [remote];
        FlattenAppend(chunks, popped);
        FullBefore(sel, chunks, popped);
        FullWithNext(sel, chunks, popped, [remote]);
        CountOneMore([], remote);
        assert [] + [remote] == [remote];
        chunks := chunks + [popped];
        branchCount := 0;
        chunk := [remote];
      } else {
        FullWithMore(sel, chunks, chunk[..|chunk| - 1], [remote]);
      }
      branchCount := branchCount + |remote.branches|;
    }
    assert remotes[..|remotes|] == remotes;
    if |chunk| > 0 {
      FlattenAppend(chunks, chunk);
      chunks := chunks + [chunk];
    }
    forall k | 0 < k < |chunks|
      ensures chunks[k] != []
        && !WithinLimits(sel, chunks[k - 1] + [chunks[k][0]])
    {
      assert Sendable(sel, chunks[k - 1]);
      OverLimits(sel, chunks[k - 1], chunks[k]);
    }
    forall other | Partition(sel, other, remotes) ensures |chunks| <= |other| {
      assert Flatten(other) == [] + Flatten(chunks);
      GreedyStaysAhead(sel, chunks, other, []);
    }
  }

  lemma EmptyCuts()
    ensures Flatten([]) == [] && BranchCount([]) == 0
  {
  }

  lemma CountOneMore(chunk: seq<Remote>, remote: Remote)
    ensures BranchCount(chunk + [remote]) == BranchCount(chunk) + |remote.branches|
  {
    BranchCountConcat(chunk, [remote]);
    assert [remote][..0] == [];
  }

  lemma NoRoom(sel: Selections, chunk: seq<Remote>, remote: Remote)
    requires chunk != [] && !WithinLimits(sel, chunk + [remote])
    ensures Blocked(sel, chunk, [remote])
  {
  }

  lemma OverLimits(sel: Selections, chunk: seq<Remote>, next: seq<Remote>)
    requires chunk != [] && Blocked(sel, chunk, next)
    ensures next != [] && !WithinLimits(sel, chunk + [next[0]])
  {
  }

  lemma FullBefore(sel: Selections, chunks: Chunks, chunk: seq<Remote>)
    requires Full(sel, chunks + [chunk])
    ensures Full(sel, chunks)
  {
    hide Blocked;
    var a := chunks + [chunk];
    forall k | 0 < k < |chunks| ensures Blocked(sel, chunks[k - 1], chunks[k]) {
      assert Blocked(sel, a[k - 1], a[k]);
    }
  }

  /** These facts leave no choice: the cut is determined. */
  lemma {:induction false} FullPartitionIsUnique(sel: Selections, a: Chunks, b: Chunks, remotes: seq<Remote>)
    requires Partition(sel, a, remotes) && Full(sel, a)
    requires Partition(sel, b, remotes) && Full(sel, b)
    ensures a == b
    decreases |a|
  {
    hide WithinLimits;
    if b == [] {
    } else {
      assert Sendable(sel, b[0]) && |Flatten(b)| >= |b[0]| >= 1;
      assert a != [];
    }
    if a == [] {
    } else {
      assert Sendable(sel, a[0]) && |Flatten(a)| >= |a[0]| >= 1;
      assert b != [];
      FirstChunkNoLonger(sel, a, b);
      FirstChunkNoLonger(sel, b, a);
      assert a[0] == Flatten(a)[..|a[0]|] && b[0] == Flatten(b)[..|b[0]|];
      assert Flatten(a[1..]) == remotes[|a[0]|..] && Flatten(b[1..]) == remotes[|b[0]|..];
      TailFull(sel, a);
      TailFull(sel, b);
      FullPartitionIsUnique(sel, a[1..], b[1..], remotes[|a[0]|..]);
      assert a == [a[0]] + a[1..] && b == [b[0]] + b[1..];
    }
  }

  lemma FirstChunkNoLonger(sel: Selections, a: Chunks, b: Chunks)
    requires a != [] && b != [] && Flatten(a) == Flatten(b)
    requires Full(sel, a)
    requires forall k :: 0 <= k < |b| ==> Sendable(sel, b[k])
    ensures |b[0]| <= |a[0]|
  {
    hide Sendable, Flatten;
    Unflatten(a);
    Unflatten(b);
    if |b[0]| > |a[0]| {
      assert |Flatten(a[1..])| > 0;
      assert a[1..] != [] by { EmptyCuts(); }
      assert Blocked(sel, a[1 - 1], a[1]);
      Unflatten(a[1..]);
      PrefixInside(a[0], a[1] + Flatten(a[1..][1..]), b[0], Flatten(b[1..]));
      assert Sendable(sel, b[0]);
      PrefixSendable(sel, a[0] + [a[1][0]], b[0]);
    }
  }

  lemma PrefixSendable(sel: Selections, prefix: seq<Remote>, chunk: seq<Remote>)
    requires prefix != [] && prefix <= chunk && Sendable(sel, chunk)
    ensures Sendable(sel, prefix)
  {
    hide Sendable;
    assert chunk == [] + prefix + chunk[|prefix|..];
    SendableInside(sel, [], prefix, chunk[|prefix|..]);
  }

  lemma Unflatten(chunks: Chunks)
    requires chunks != []
    ensures Flatten(chunks) == chunks[0] + Flatten(chunks[1..])
  {
  }

  lemma PrefixInside(x: seq<Remote>, xs: seq<Remote>, y: seq<Remote>, ys: seq<Remote>)
    requires x + xs == y + ys && |y| > |x| && xs != []
    ensures y == x + [xs[0]] + y[|x| + 1..]
  {
    var all := x + xs;
    assert y == all[..|y|];
    assert all[..|x| + 1] == x + [xs[0]];
    assert y[..|x| + 1] == all[..|x| + 1];
  }
}
