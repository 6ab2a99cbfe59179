/**
 The upload pipeline of `request`: check for a signer, split the file, then walk
 the chunks in order, skipping each one whose digest the store already holds,
 writing the others with the fee attached, and stopping at the first write that
 is not confirmed.

 The remote side is abstract. The store is a map from chunk index to the digest
 `getChunkHash` reports for that index; an index the map does not cover stands
 for a `getChunkHash` call that throws. Write results come from an oracle indexed
 by chunk. The content digest (Keccak-256 in `request`) is a parameter.
 */
module Upload {
  import opened Chunker
  import opened Fee
  import opened Remote

  /** The store contract's address, the destination directory and the file's name. */
  datatype Request = Request(contractAddress: string, dirPath: string, fileName: string)

  const StoreHost: string := "https://galileo.web3q.io/"
  const StorePort: string := ":3334/"
  const NoSignerMessage: string := "Can't find metamask"
  const FailedMessage: string := "upload request failed!"

  /** The name the file is stored under: directory path, then file name, no separator added. */
  function StoredName(req: Request): (name: string)
    ensures |name| == |req.dirPath| + |req.fileName|
    ensures name[..|req.dirPath|] == req.dirPath && name[|req.dirPath|..] == req.fileName
  {
    req.dirPath + req.fileName
  }

  /** The address handed to `onSuccess`. */
  function PublicUrl(req: Request): (url: string)
    ensures |url| == |StoreHost| + |req.contractAddress| + |StorePort| + |StoredName(req)|
    ensures url[..|StoreHost|] == StoreHost
    ensures url[|StoreHost|..|StoreHost| + |req.contractAddress|] == req.contractAddress
    ensures url[|url| - |StoredName(req)|..] == StoredName(req)
  {
    StoreHost + req.contractAddress + StorePort + StoredName(req)
  }

  /**
   How one call ends: `onSuccess({path})`, `onError(message)`, or an exception
   from `getChunkHash` that escapes the call with neither callback fired.
   */
  datatype Outcome = Success(path: string) | Error(message: string) | Unhandled

  /** One `writeChunk` submission: chunk index, bytes and the wei value sent. */
  datatype Write = Write(index: nat, data: Bytes, value: nat)

  /** Why the chunk loop ended: all chunks done, a failed write, or a failed hash read. */
  datatype Stop = Completed | Aborted(at: nat) | Escaped(at: nat)

  /** What stays fixed during the loop: the chunks, the value sent with each write, the digest and the write oracle. */
  datatype Job<D> = Job(chunks: seq<Bytes>, value: nat, digest: Bytes -> D, oracle: nat -> TxResult)

  /**
   The observable trace of the loop from some index on: the indices whose hash was
   read, the writes submitted, the progress events emitted, and the store afterwards.
   */
  datatype Pass<D> = Pass(stop: Stop, queried: seq<nat>, writes: seq<Write>, progress: seq<nat>, store: map<nat, D>)

  /** The trace of one whole call. */
  datatype Run<D> = Run(outcome: Outcome, queried: seq<nat>, writes: seq<Write>, progress: seq<nat>, store: map<nat, D>)

  /** Chunk j differs from what the store reports for it. */
  predicate Changed<D(==)>(job: Job<D>, store: map<nat, D>, j: nat)
  {
    j < |job.chunks| && j in store && job.digest(job.chunks[j]) != store[j]
  }

  /** Chunk j ends the loop: its hash cannot be read, or it changed and its write is not confirmed. */
  predicate Halts<D(==)>(job: Job<D>, store: map<nat, D>, j: nat)
    requires j < |job.chunks|
  {
    j !in store || (Changed(job, store, j) && !Confirmed(job.oracle(j)))
  }

  function Indices(writes: seq<Write>): (r: seq<nat>)
    ensures |r| == |writes|
    ensures forall k :: 0 <= k < |r| ==> r[k] == writes[k].index
  {
    if |writes| == 0 then [] else [writes[0].index] + Indices(writes[1..])
  }

  predicate Increasing(s: seq<nat>)
  {
    forall a, b :: 0 <= a < b < |s| ==> s[a] < s[b]
  }

  /**
   The `for (const index in chunks)` loop from chunk i on. A confirmed write makes
   the store hold the chunk's digest; a rejected or throwing write leaves it as it was.
   Its contract says which hashes are read: those of chunks i, i+1, ... up to the
   chunk it stops at, or to the last chunk.
   */
  function Loop<D(==)>(job: Job<D>, i: nat, store: map<nat, D>): (p: Pass<D>)
    requires i <= |job.chunks|
    ensures forall k :: 0 <= k < |p.queried| ==> p.queried[k] == i + k
    ensures p.stop.Completed? ==> |p.queried| == |job.chunks| - i
    ensures !p.stop.Completed? ==> i <= p.stop.at < |job.chunks| && |p.queried| == p.stop.at - i + 1
    decreases |job.chunks| - i
  {
    if i == |job.chunks| then
      Pass(Completed, [], [], [], store)
    else if i !in store then
      Pass(Escaped(i), [i], [], [], store)
    else if job.digest(job.chunks[i]) == store[i] then
      var rest := Loop(job, i + 1, store);
      rest.(queried := [i] + rest.queried)
    else
      var w := Write(i, job.chunks[i], job.value);
      if Confirmed(job.oracle(i)) then
        var rest := Loop(job, i + 1, store[i := job.digest(job.chunks[i])]);
        Pass(rest.stop, [i] + rest.queried, [w] + rest.writes, [i] + rest.progress, rest.store)
      else
        Pass(Aborted(i), [i], [w], [], store)
  }

  /** Only changed chunks are written, each with its own bytes and the job's one value. */
  ghost predicate WritesOnlyChanged<D>(job: Job<D>, i: nat, store: map<nat, D>, p: Pass<D>)
  {
    forall k :: 0 <= k < |p.writes| ==>
      && i <= p.writes[k].index
      && Changed(job, store, p.writes[k].index)
      && p.writes[k].data == job.chunks[p.writes[k].index]
      && p.writes[k].value == job.value
  }

  lemma {:induction false} LoopWritesOnlyChanged<D>(job: Job<D>, i: nat, store: map<nat, D>)
    requires i <= |job.chunks|
    ensures WritesOnlyChanged(job, i, store, Loop(job, i, store))
    decreases |job.chunks| - i
  {
    if i == |job.chunks| || i !in store {
    } else if job.digest(job.chunks[i]) == store[i] {
      LoopWritesOnlyChanged(job, i + 1, store);
    } else if Confirmed(job.oracle(i)) {
      var store' := store[i := job.digest(job.chunks[i])];
      LoopWritesOnlyChanged(job, i + 1, store');
      assert forall j :: i < j ==> Changed(job, store', j) == Changed(job, store, j);
    }
  }

  /** Every changed chunk whose hash was read is written: a skip happens only for an unchanged chunk. */
  ghost predicate WritesEveryChange<D>(job: Job<D>, store: map<nat, D>, p: Pass<D>)
  {
    forall j :: j in p.queried && Changed(job, store, j) ==> j in Indices(p.writes)
  }

  lemma {:induction false} LoopWritesEveryChange<D>(job: Job<D>, i: nat, store: map<nat, D>)
    requires i <= |job.chunks|
    ensures WritesEveryChange(job, store, Loop(job, i, store))
    decreases |job.chunks| - i
  {
    if i == |job.chunks| || i !in store {
    } else if job.digest(job.chunks[i]) == store[i] {
      LoopWritesEveryChange(job, i + 1, store);
      var p := Loop(job, i, store);
      forall j | j in p.queried && Changed(job, store, j)
        ensures j in Indices(p.writes)
      {
        assert j in Loop(job, i + 1, store).queried;
      }
    } else if Confirmed(job.oracle(i)) {
      var store' := store[i := job.digest(job.chunks[i])];
      LoopWritesEveryChange(job, i + 1, store');
      var p := Loop(job, i, store);
      var rest := Loop(job, i + 1, store');
      assert Indices(p.writes) == [i] + Indices(rest.writes);
      forall j | j in p.queried && Changed(job, store, j)
        ensures j in Indices(p.writes)
      {
        if j != i {
          assert j in rest.queried;
          assert Changed(job, store', j);
        }
      }
    }
  }

  /** Only a chunk whose hash was read is written, and writes go in strictly increasing index order. */
  ghost predicate WritesFollowQueries<D>(p: Pass<D>)
  {
    && (forall k :: 0 <= k < |p.writes| ==> p.writes[k].index in p.queried)
    && Increasing(Indices(p.writes))
  }

  lemma {:induction false} LoopWritesFollowQueries<D>(job: Job<D>, i: nat, store: map<nat, D>)
    requires i <= |job.chunks|
    ensures WritesFollowQueries(Loop(job, i, store))
    decreases |job.chunks| - i
  {
    if i == |job.chunks| || i !in store {
    } else if job.digest(job.chunks[i]) == store[i] {
      LoopWritesFollowQueries(job, i + 1, store);
    } else if Confirmed(job.oracle(i)) {
      var store' := store[i := job.digest(job.chunks[i])];
      LoopWritesFollowQueries(job, i + 1, store');
      var rest := Loop(job, i + 1, store');
      var p := Loop(job, i, store);
      forall k | 0 <= k < |rest.writes|
        ensures i < rest.writes[k].index
      {
        var m :| 0 <= m < |rest.queried| && rest.queried[m] == rest.writes[k].index;
      }
      assert Indices(p.writes) == [i] + Indices(rest.writes);
    }
  }

  /**
   Progress reports every write but a failing last one, with the chunk index, in
   strictly increasing order, and only for confirmed writes.
   */
  ghost predicate ProgressFollowsWrites<D>(job: Job<D>, i: nat, p: Pass<D>)
  {
    && |p.progress| == (if p.stop.Aborted? then |p.writes| - 1 else |p.writes|)
    && (p.stop.Aborted? ==>
          |p.writes| >= 1 && p.writes[|p.writes| - 1].index == p.stop.at && !Confirmed(job.oracle(p.stop.at)))
    && (forall k :: 0 <= k < |p.progress| ==>
          i <= p.progress[k] && p.progress[k] == p.writes[k].index && Confirmed(job.oracle(p.progress[k])))
    && Increasing(p.progress)
  }

  lemma {:induction false} LoopProgress<D>(job: Job<D>, i: nat, store: map<nat, D>)
    requires i <= |job.chunks|
    ensures ProgressFollowsWrites(job, i, Loop(job, i, store))
    decreases |job.chunks| - i
  {
    if i == |job.chunks| || i !in store {
    } else if job.digest(job.chunks[i]) == store[i] {
      LoopProgress(job, i + 1, store);
    } else if Confirmed(job.oracle(i)) {
      LoopProgress(job, i + 1, store[i := job.digest(job.chunks[i])]);
    }
  }

  /** The store changes exactly at the chunks whose write was confirmed, to their digests. */
  ghost predicate StoreFollowsProgress<D>(job: Job<D>, store: map<nat, D>, p: Pass<D>)
  {
    && (forall j :: j in p.store <==> j in store || j in p.progress)
    && (forall j :: j in p.progress ==> j < |job.chunks| && p.store[j] == job.digest(job.chunks[j]))
    && (forall j :: j in store && j !in p.progress ==> p.store[j] == store[j])
  }

  lemma {:induction false} LoopStore<D>(job: Job<D>, i: nat, store: map<nat, D>)
    requires i <= |job.chunks|
    ensures StoreFollowsProgress(job, store, Loop(job, i, store))
    decreases |job.chunks| - i
  {
    if i == |job.chunks| || i !in store {
    } else if job.digest(job.chunks[i]) == store[i] {
      LoopStore(job, i + 1, store);
    } else if Confirmed(job.oracle(i)) {
      LoopStore(job, i + 1, store[i := job.digest(job.chunks[i])]);
      LoopProgress(job, i + 1, store[i := job.digest(job.chunks[i])]);
    }
  }

  /**
   The loop stops at the first chunk that halts it, and runs to the end exactly
   when no chunk does. Halting is judged against the store as it was when the loop
   started: a write only changes the index being written.
   */
  ghost predicate StopsAtFirstHalt<D>(job: Job<D>, i: nat, store: map<nat, D>, p: Pass<D>)
    requires i <= |job.chunks|
    requires !p.stop.Completed? ==> i <= p.stop.at < |job.chunks|
  {
    && (p.stop.Completed? <==> forall j :: i <= j < |job.chunks| ==> !Halts(job, store, j))
    && (!p.stop.Completed? ==>
          && Halts(job, store, p.stop.at)
          && (forall j :: i <= j < p.stop.at ==> !Halts(job, store, j))
          && (p.stop.Escaped? <==> p.stop.at !in store))
  }

  lemma {:induction false} LoopStopsAtFirstHalt<D>(job: Job<D>, i: nat, store: map<nat, D>)
    requires i <= |job.chunks|
    ensures StopsAtFirstHalt(job, i, store, Loop(job, i, store))
    decreases |job.chunks| - i
  {
    if i == |job.chunks| {
    } else if i !in store {
      assert Halts(job, store, i);
    } else if job.digest(job.chunks[i]) == store[i] {
      LoopStopsAtFirstHalt(job, i + 1, store);
    } else if Confirmed(job.oracle(i)) {
      var store' := store[i := job.digest(job.chunks[i])];
      LoopStopsAtFirstHalt(job, i + 1, store');
      assert forall j :: i < j < |job.chunks| ==> Halts(job, store', j) == Halts(job, store, j);
    } else {
      assert Halts(job, store, i);
    }
  }

  /** A completed loop leaves every chunk from i on stored under its own digest. */
  lemma {:induction false} CompletedLoopStoresAll<D>(job: Job<D>, i: nat, store: map<nat, D>)
    requires i <= |job.chunks|
    requires Loop(job, i, store).stop.Completed?
    ensures forall j :: i <= j < |job.chunks| ==>
      j in Loop(job, i, store).store && Loop(job, i, store).store[j] == job.digest(job.chunks[j])
  {
    var p := Loop(job, i, store);
    LoopStopsAtFirstHalt(job, i, store);
    LoopWritesEveryChange(job, i, store);
    LoopProgress(job, i, store);
    LoopStore(job, i, store);
    forall j | i <= j < |job.chunks|
      ensures j in p.store && p.store[j] == job.digest(job.chunks[j])
    {
      assert !Halts(job, store, j);
      assert j in p.queried by {
        assert p.queried[j - i] == j;
      }
      if Changed(job, store, j) {
        assert j in Indices(p.writes);
        var k :| 0 <= k < |p.writes| && Indices(p.writes)[k] == j;
        assert p.progress[k] == j;
      }
    }
  }

  /** When the store already holds every chunk's digest, the loop writes nothing and completes. */
  lemma {:induction false} CurrentStoreMeansNoWrites<D>(job: Job<D>, i: nat, store: map<nat, D>)
    requires i <= |job.chunks|
    requires forall j :: i <= j < |job.chunks| ==> j in store && store[j] == job.digest(job.chunks[j])
    ensures Loop(job, i, store).stop.Completed?
    ensures Loop(job, i, store).writes == []
    ensures Loop(job, i, store).progress == []
    ensures Loop(job, i, store).store == store
    decreases |job.chunks| - i
  {
    if i < |job.chunks| {
      CurrentStoreMeansNoWrites(job, i + 1, store);
    }
  }

  /** The job `request` runs for one file: its chunks and the fee in wei, computed once. */
  function JobFor<D>(content: Bytes, digest: Bytes -> D, oracle: nat -> TxResult): (job: Job<D>)
    ensures Flatten(job.chunks) == content
    // the fee is priced on the mean chunk size: free exactly when size / |chunks| is within the ceiling
    ensures |job.chunks| == SplitFile(content).divisor
    ensures job.value % WeiPerEther == 0
    ensures job.value == 0 <==> |content| <= FreeCeiling * |job.chunks|
  {
    var split := SplitFile(content);
    Job(split.chunks, WeiValue(ChunkCost(|content|, split.divisor)), digest, oracle)
  }

  /**
   `request`: one upload of `content` (the file's bytes; the file's size is their
   count). `hasSigner` stands for the wallet and signer check.
   */
  function Upload<D(==)>(req: Request, hasSigner: bool, content: Bytes, digest: Bytes -> D,
                         store: map<nat, D>, oracle: nat -> TxResult): (r: Run<D>)
    // without a signer: onError, and no chunk is touched
    ensures !hasSigner ==> r == Run(Error(NoSignerMessage), [], [], [], store)
    // chunk hashes are read in order, starting from chunk 0
    ensures forall a :: 0 <= a < |r.queried| ==> r.queried[a] == a
    // a success hands over the store's public URL for the file
    ensures r.outcome.Success? ==>
      r.outcome.path == StoreHost + req.contractAddress + StorePort + req.dirPath + req.fileName
    // an error is either the missing signer or the generic upload failure
    ensures r.outcome.Error? ==> r.outcome.message == (if hasSigner then FailedMessage else NoSignerMessage)
  {
    if !hasSigner then
      Run(Error(NoSignerMessage), [], [], [], store)
    else
      var p := Loop(JobFor(content, digest, oracle), 0, store);
      var outcome := match p.stop
        case Completed => Success(PublicUrl(req))
        case Aborted(_) => Error(FailedMessage)
        case Escaped(_) => Unhandled;
      Run(outcome, p.queried, p.writes, p.progress, p.store)
  }

  /**
   Every write of an upload carries its own chunk's bytes and the same fee, computed
   once from the file size; a chunk is written exactly when its hash was read and
   differs from the stored one, and the writes go in increasing chunk order.
   */
  lemma UploadWrites<D>(req: Request, content: Bytes, digest: Bytes -> D,
                        store: map<nat, D>, oracle: nat -> TxResult)
    ensures var r := Upload(req, true, content, digest, store, oracle);
      var chunks := SplitFile(content).chunks;
      && (forall k :: 0 <= k < |r.writes| ==>
            && r.writes[k].index < |chunks|
            && r.writes[k].data == chunks[r.writes[k].index]
            && r.writes[k].value == WeiValue(ChunkCost(|content|, SplitFile(content).divisor))
            && r.writes[k].index in store
            && digest(chunks[r.writes[k].index]) != store[r.writes[k].index])
      && (forall j :: j in r.queried && j < |chunks| && j in store && digest(chunks[j]) != store[j] ==>
            j in Indices(r.writes))
      && (forall k :: 0 <= k < |r.writes| ==> r.writes[k].index in r.queried)
      && Increasing(Indices(r.writes))
  {
    var job := JobFor(content, digest, oracle);
    LoopWritesOnlyChanged(job, 0, store);
    LoopWritesEveryChange(job, 0, store);
    LoopWritesFollowQueries(job, 0, store);
  }

  ghost predicate ProgressReported<D>(oracle: nat -> TxResult, r: Run<D>)
  {
    && Increasing(r.progress)
    && |r.progress| == (if r.outcome.Error? then |r.writes| - 1 else |r.writes|)
    && (forall k :: 0 <= k < |r.progress| ==> r.progress[k] == r.writes[k].index && Confirmed(oracle(r.progress[k])))
  }

  /**
   `onProgress` fires once per confirmed write, with the chunk index, in strictly
   increasing order; a failing write is the last one and gets no progress event.
   */
  lemma UploadProgress<D>(req: Request, content: Bytes, digest: Bytes -> D,
                          store: map<nat, D>, oracle: nat -> TxResult)
    ensures ProgressReported(oracle, Upload(req, true, content, digest, store, oracle))
  {
    var job := JobFor(content, digest, oracle);
    var p := Loop(job, 0, store);
    var r := Upload(req, true, content, digest, store, oracle);
    LoopProgress(job, 0, store);
    assert r.progress == p.progress && r.writes == p.writes;
    assert r.outcome.Error? <==> p.stop.Aborted?;
    assert ProgressFollowsWrites(job, 0, p);
  }

  /**
   An upload succeeds exactly when no chunk halts the loop, and then the store
   holds every chunk's digest.
   */
  lemma UploadSucceeds<D>(req: Request, content: Bytes, digest: Bytes -> D,
                          store: map<nat, D>, oracle: nat -> TxResult)
    ensures var r := Upload(req, true, content, digest, store, oracle);
      var job := JobFor(content, digest, oracle);
      && (r.outcome.Success? <==> forall j :: 0 <= j < |job.chunks| ==> !Halts(job, store, j))
      && (r.outcome.Success? ==> forall j :: 0 <= j < |job.chunks| ==>
            j in r.store && r.store[j] == digest(job.chunks[j]))
  {
    var job := JobFor(content, digest, oracle);
    LoopStopsAtFirstHalt(job, 0, store);
    if Loop(job, 0, store).stop.Completed? {
      CompletedLoopStoresAll(job, 0, store);
    }
  }

  /**
   An upload that does not succeed ends at the first halting chunk k, the last one
   whose hash is read. If that read threw, the exception escapes and neither
   callback fires; otherwise k's write was submitted last, was not confirmed, and
   `onError` gets the generic message.
   */
  lemma UploadFails<D>(req: Request, content: Bytes, digest: Bytes -> D,
                       store: map<nat, D>, oracle: nat -> TxResult)
    requires !Upload(req, true, content, digest, store, oracle).outcome.Success?
    ensures var r := Upload(req, true, content, digest, store, oracle);
      var job := JobFor(content, digest, oracle);
      && |r.queried| >= 1
      && var k := r.queried[|r.queried| - 1];
      && k < |job.chunks|
      && Halts(job, store, k)
      && (forall j :: 0 <= j < k ==> !Halts(job, store, j))
      && (r.outcome == Unhandled <==> k !in store)
      && (r.outcome == Error(FailedMessage) <==> k in store)
      && (r.outcome == Error(FailedMessage) ==>
            |r.writes| >= 1 && r.writes[|r.writes| - 1].index == k && !Confirmed(oracle(k)))
  {
    var job := JobFor(content, digest, oracle);
    LoopStopsAtFirstHalt(job, 0, store);
    LoopProgress(job, 0, store);
  }

  /**
   Uploading the same file again after a successful upload writes nothing, emits
   no progress and succeeds with the same URL, whatever the writes would return.
   */
  lemma UploadIdempotent<D>(req: Request, content: Bytes, digest: Bytes -> D,
                                store: map<nat, D>, oracle: nat -> TxResult, oracle': nat -> TxResult)
    requires Upload(req, true, content, digest, store, oracle).outcome.Success?
    ensures var first := Upload(req, true, content, digest, store, oracle);
      var second := Upload(req, true, content, digest, first.store, oracle');
      && second.writes == []
      && second.progress == []
      && second.outcome == first.outcome
      && second.store == first.store
  {
    var first := Upload(req, true, content, digest, store, oracle);
    UploadSucceeds(req, content, digest, store, oracle);
    var job' := JobFor(content, digest, oracle');
    assert job'.chunks == JobFor(content, digest, oracle).chunks;
    CurrentStoreMeansNoWrites(job', 0, first.store);
    var p' := Loop(job', 0, first.store);
    var second := Upload(req, true, content, digest, first.store, oracle');
    assert second.writes == p'.writes && second.progress == p'.progress && second.store == p'.store;
  }

  /**
   After a failed upload the store is left partly written; once every chunk's hash
   can be read, a re-run whose writes are all confirmed completes the upload.
   */
  lemma UploadResumes<D>(req: Request, content: Bytes, digest: Bytes -> D,
                             store: map<nat, D>, oracle: nat -> TxResult)
    requires forall j :: 0 <= j < |SplitFile(content).chunks| ==> j in store
    requires forall j :: 0 <= j < |SplitFile(content).chunks| ==> Confirmed(oracle(j))
    ensures Upload(req, true, content, digest, store, oracle).outcome == Success(PublicUrl(req))
  {
    LoopStopsAtFirstHalt(JobFor(content, digest, oracle), 0, store);
  }

  /**
   Abort-on-failure: when chunk k is the first whose write fails (every earlier
   chunk unchanged or confirmed, every hash up to k readable), the call ends in
   `onError`, chunk k's write is the last one submitted, and exactly the hashes of
   chunks 0..k are read: nothing past k is queried or written.
   */
  lemma UploadAbortsAtFirstFailure<D>(req: Request, content: Bytes, digest: Bytes -> D,
                                      store: map<nat, D>, oracle: nat -> TxResult, k: nat)
    requires k < |SplitFile(content).chunks|
    requires forall j :: 0 <= j <= k ==> j in store
    requires forall j :: 0 <= j < k ==> digest(SplitFile(content).chunks[j]) == store[j] || Confirmed(oracle(j))
    requires digest(SplitFile(content).chunks[k]) != store[k] && !Confirmed(oracle(k))
    ensures Upload(req, true, content, digest, store, oracle).outcome == Error(FailedMessage)
    ensures |Upload(req, true, content, digest, store, oracle).queried| == k + 1
    ensures |Upload(req, true, content, digest, store, oracle).writes| >= 1
    ensures Upload(req, true, content, digest, store, oracle).writes[
              |Upload(req, true, content, digest, store, oracle).writes| - 1].index == k
    ensures forall w :: w in Upload(req, true, content, digest, store, oracle).writes ==> w.index <= k
  {
    var job := JobFor(content, digest, oracle);
    assert Halts(job, store, k);
    UploadSucceeds(req, content, digest, store, oracle);
    UploadFails(req, content, digest, store, oracle);
    var r := Upload(req, true, content, digest, store, oracle);
    assert r.queried[|r.queried| - 1] == k;
    LoopWritesFollowQueries(job, 0, store);
    forall w | w in r.writes
      ensures w.index <= k
    {
      var m :| 0 <= m < |r.writes| && r.writes[m] == w;
      var q :| 0 <= q < |r.queried| && r.queried[q] == w.index;
    }
  }

  /** The worked example: 1,000,000 bytes go up as 3 chunks paying 13 ether each. */
  lemma MillionByteExample(content: Bytes)
    requires |content| == 1_000_000
    ensures SplitFile(content).divisor == 3
    ensures |SplitFile(content).chunks| == 3
    ensures ChunkCost(|content|, 3) == 13
  {
    CeilDivUnique(1_000_000, SplitThreshold, 3);
  }
}
