/** The batching rule shared by the two bulk writers: pending writes are
    committed whenever their count reaches the Firestore limit of 500, and
    whatever remains is committed once at the end. `Chunks` is the sequence of
    commits that rule produces from a sequence of writes. */
module Batching {

  const MaxBatchSize: nat := 500

  /** The writes of a sequence of commits, in commit order. */
  function Flatten<W>(cs: seq<seq<W>>): seq<W> {
    if |cs| == 0 then [] else Flatten(cs[..|cs| - 1]) + cs[|cs| - 1]
  }

  function CeilDiv(n: nat, k: nat): nat
    requires k > 0
  {
    (n + k - 1) / k
  }

  /** The commits issued for `ws`: full batches of 500, then the non-empty remainder. */
  function Chunks<W>(ws: seq<W>): seq<seq<W>>
    decreases |ws|
  {
    if |ws| == 0 then []
    else if |ws| <= MaxBatchSize then [ws]
    else [ws[..MaxBatchSize]] + Chunks(ws[MaxBatchSize..])
  }

  predicate AllFull<W>(cs: seq<seq<W>>) {
    forall i :: 0 <= i < |cs| ==> |cs[i]| == MaxBatchSize
  }

  lemma {:induction false} FlattenCons<W>(c: seq<W>, cs: seq<seq<W>>)
    ensures Flatten([c] + cs) == c + Flatten(cs)
    decreases |cs|
  {
    if |cs| > 0 {
      var init := cs[..|cs| - 1];
      assert ([c] + cs)[..|cs|] == [c] + init;
      FlattenCons(c, init);
    } else {
      assert Flatten([c]) == Flatten([c][..0]) + c;
    }
  }

  /** No write is lost, duplicated or reordered by batching. */
  lemma {:induction false} ChunksFlatten<W>(ws: seq<W>)
    ensures Flatten(Chunks(ws)) == ws
    decreases |ws|
  {
    if |ws| == 0 {
    } else if |ws| <= MaxBatchSize {
      assert Flatten([ws]) == Flatten([ws][..0]) + ws;
    } else {
      ChunksFlatten(ws[MaxBatchSize..]);
      FlattenCons(ws[..MaxBatchSize], Chunks(ws[MaxBatchSize..]));
      assert ws[..MaxBatchSize] + ws[MaxBatchSize..] == ws;
    }
  }

  /** Every commit holds between 1 and 500 writes, and all but the last hold exactly 500. */
  lemma {:induction false} ChunksSizes<W>(ws: seq<W>)
    ensures forall i :: 0 <= i < |Chunks(ws)| ==> 0 < |Chunks(ws)[i]| <= MaxBatchSize
    ensures forall i :: 0 <= i < |Chunks(ws)| - 1 ==> |Chunks(ws)[i]| == MaxBatchSize
    decreases |ws|
  {
    if |ws| > MaxBatchSize {
      ChunksSizes(ws[MaxBatchSize..]);
    }
  }

  /** W writes give ceil(W / 500) commits. */
  lemma {:induction false} ChunksCount<W>(ws: seq<W>)
    ensures |Chunks(ws)| == CeilDiv(|ws|, MaxBatchSize)
    decreases |ws|
  {
    if |ws| > MaxBatchSize {
      ChunksCount(ws[MaxBatchSize..]);
      assert CeilDiv(|ws|, MaxBatchSize) == 1 + CeilDiv(|ws| - MaxBatchSize, MaxBatchSize);
    }
  }

  /** Full commits hold 500 writes each. */
  lemma {:induction false} FlattenFullLength<W>(cs: seq<seq<W>>)
    requires AllFull(cs)
    ensures |Flatten(cs)| == |cs| * MaxBatchSize
  {
    if |cs| > 0 {
      FlattenFullLength(cs[..|cs| - 1]);
    }
  }

  /** What a loop that flushes at 500 has committed is `Chunks` of its writes:
      some full commits, then a final commit of the non-empty remainder, if any. */
  lemma {:induction false} FullCommitsAreChunks<W>(cs: seq<seq<W>>, rest: seq<W>)
    requires AllFull(cs)
    requires |rest| <= MaxBatchSize
    ensures Chunks(Flatten(cs) + rest) == cs + (if |rest| == 0 then [] else [rest])
    decreases |cs|
  {
    if |cs| > 0 {
      var tail := cs[1..];
      assert cs == [cs[0]] + tail;
      FlattenCons(cs[0], tail);
      FullCommitsAreChunks(tail, rest);
      var all := Flatten(cs) + rest;
      assert all == cs[0] + (Flatten(tail) + rest);
      assert all[..MaxBatchSize] == cs[0];
      assert all[MaxBatchSize..] == Flatten(tail) + rest;
    } else {
      assert Flatten(cs) + rest == rest;
    }
  }

  /** The store after committing `ws` in order, each write applied by `apply`. */
  function ApplyAll<D, W>(apply: (D, W) -> D, db: D, ws: seq<W>): D {
    if |ws| == 0 then db else apply(ApplyAll(apply, db, ws[..|ws| - 1]), ws[|ws| - 1])
  }

  /** Committing `a` then `b` is committing `a + b`. */
  lemma {:induction false} ApplyAllAppend<D, W>(apply: (D, W) -> D, db: D, a: seq<W>, b: seq<W>)
    ensures ApplyAll(apply, db, a + b) == ApplyAll(apply, ApplyAll(apply, db, a), b)
    decreases |b|
  {
    if |b| > 0 {
      assert (a + b)[..|a + b| - 1] == a + b[..|b| - 1];
      ApplyAllAppend(apply, db, a, b[..|b| - 1]);
    } else {
      assert a + b == a;
    }
  }

  /** Committing a full batch keeps the commits full, and the store equal to
      the replay of everything committed. */
  lemma Flush<D, W>(apply: (D, W) -> D, db: D, commits: seq<seq<W>>, batch: seq<W>)
    requires AllFull(commits) && |batch| == MaxBatchSize
    ensures AllFull(commits + [batch])
    ensures Flatten(commits + [batch]) == Flatten(commits) + batch
    ensures ApplyAll(apply, db, Flatten(commits + [batch])) == ApplyAll(apply, ApplyAll(apply, db, Flatten(commits)), batch)
  {
    assert (commits + [batch])[..|commits|] == commits;
    ApplyAllAppend(apply, db, Flatten(commits), batch);
  }

  /** The commit after a loop that flushes at 500, made only when the open
      batch holds writes: the commits are then exactly the chunks of all
      writes, and the store holds all of them. */
  method FinalCommit<D, W>(apply: (D, W) -> D, db0: D, db: D, commits: seq<seq<W>>, batch: seq<W>)
    returns (db': D, commits': seq<seq<W>>)
    requires AllFull(commits) && |batch| < MaxBatchSize
    requires db == ApplyAll(apply, db0, Flatten(commits))
    ensures commits' == Chunks(Flatten(commits) + batch)
    ensures db' == ApplyAll(apply, db0, Flatten(commits) + batch)
  {
    FullCommitsAreChunks(commits, batch);
    if |batch| > 0 {
      ApplyAllAppend(apply, db0, Flatten(commits), batch);
      db' := ApplyAll(apply, db, batch);
      commits' := commits + [batch];
    } else {
      assert Flatten(commits) + batch == Flatten(commits);
      db', commits' := db, commits;
    }
  }

  /** 1200 writes are committed as 500, 500 and 200. */
  lemma TwelveHundredWrites<W>(ws: seq<W>)
    requires |ws| == 1200
    ensures |Chunks(ws)| == 3
    ensures |Chunks(ws)[0]| == 500 && |Chunks(ws)[1]| == 500 && |Chunks(ws)[2]| == 200
  {
    var r1 := ws[500..];
    var r2 := r1[500..];
    assert Chunks(r2) == [r2];
    assert Chunks(r1) == [r1[..500]] + [r2];
  }
}
