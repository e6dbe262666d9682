/** upload_texas_reps_to_firestore.js: every zip of the source file is `set`
    into `zip_representatives` with a server timestamp, batched at 500, and a
    metadata document records the upload. The script reuses one batch object
    after committing it; the Firestore client refuses writes to a committed
    batch, so the script as written fails past 500 zips. Both the script as
    written and the intended script (a fresh batch after each commit) are
    modelled. In both, a zip key that `doc()` refuses throws, and the catch
    ends the script with exit code 1. */
module TexasUpload {
  import opened JsValues
  import opened Batching
  import opened DocPaths

  /** `batch.set(doc(zip), {...zipData, lastUpdated: serverTimestamp()})`:
      the staged write keeps the document `doc(zip)` resolves to and the
      zip's source entry; `ZipDoc` gives the document it stores. */
  datatype ZipWrite = ZipWrite(key: string, zipData: map<string, JsValue>)

  /** What a run leaves behind: the collection, the metadata document (absent
      when the run failed), the commits issued, `processedCount` and the exit code. */
  datatype UploadRun = UploadRun(
    db: map<string, Fields>,
    metadata: Option<Fields>,
    commits: seq<seq<ZipWrite>>,
    processedCount: nat,
    exitCode: nat)

  /** `{...zipData, lastUpdated: serverTimestamp()}`: a `lastUpdated` of the source is overridden. */
  function ZipDoc(zipData: map<string, JsValue>): (d: Fields)
    ensures d.Keys == zipData.Keys + {"lastUpdated"} && d["lastUpdated"] == ServerTimestamp
  {
    (map k | k in zipData :: Plain(zipData[k]))["lastUpdated" := ServerTimestamp]
  }

  /** The written document keeps every field of the source entry and adds
      `lastUpdated`, which is always the server timestamp. */
  lemma ZipDocFields(zipData: map<string, JsValue>, k: string)
    ensures k in ZipDoc(zipData) <==> k in zipData || k == "lastUpdated"
    ensures k == "lastUpdated" ==> ZipDoc(zipData)[k] == ServerTimestamp
    ensures k in zipData && k != "lastUpdated" ==> ZipDoc(zipData)[k] == Plain(zipData[k])
  {
  }

  /** `doc()` accepts every key. */
  predicate Resolvable(keys: seq<string>) {
    forall j :: 0 <= j < |keys| ==> DocKey(keys[j]).Some?
  }

  /** The documents the keys resolve to, in order. */
  function KeysOf(keys: seq<string>): (docs: seq<string>)
    requires Resolvable(keys)
    ensures |docs| == |keys|
    ensures forall j :: 0 <= j < |keys| ==> DocKey(keys[j]) == Some(docs[j])
  {
    seq(|keys|, j requires 0 <= j < |keys| => DocKey(keys[j]).value)
  }

  /** The index of the first key `doc()` refuses, or the number of keys. */
  function FirstRejected(keys: seq<string>): (k: nat)
    ensures k <= |keys|
    ensures forall j :: 0 <= j < k ==> DocKey(keys[j]).Some?
    ensures k < |keys| ==> DocKey(keys[k]).None?
  {
    if |keys| == 0 then 0
    else if DocKey(keys[0]).None? then 0
    else
      var k := 1 + FirstRejected(keys[1..]);
      assert forall j :: 1 <= j < k ==> keys[j] == keys[1..][j - 1];
      k
  }

  /** The writes for the given keys, in order: one `set` per key, on the
      document the key resolves to. */
  function WritesOf(keys: seq<string>, data: map<string, map<string, JsValue>>): (ws: seq<ZipWrite>)
    requires (forall z :: z in keys ==> z in data) && Resolvable(keys)
    ensures |ws| == |keys|
    ensures forall j :: 0 <= j < |keys| ==> ws[j] == ZipWrite(KeysOf(keys)[j], data[keys[j]])
  {
    if |keys| == 0 then []
    else
      var last := keys[|keys| - 1];
      WritesOf(keys[..|keys| - 1], data) + [ZipWrite(DocKey(last).value, data[last])]
  }

  /** Committing a staged `set`: it replaces the document it resolves to. */
  function SetDoc(db: map<string, Fields>, w: ZipWrite): map<string, Fields> {
    db[w.key := ZipDoc(w.zipData)]
  }

  /** `Object.keys(data).length`. */
  function TotalZipCodes(data: map<string, map<string, JsValue>>): nat {
    |data.Keys|
  }

  /** The `zip_representatives_metadata/upload_info` document written after a complete upload. */
  function Metadata(totalZipCodes: nat): (m: Fields)
    ensures m.Keys == {"lastUploadDate", "totalZipCodes", "uploadedBy", "sourceFile"}
    ensures m["lastUploadDate"] == ServerTimestamp && m["totalZipCodes"] == Plain(Num(totalZipCodes))
    ensures m["uploadedBy"] == Plain(Str("admin_script")) && m["sourceFile"] == Plain(Str("texas_representatives.json"))
  {
    map[
      "lastUploadDate" := ServerTimestamp,
      "totalZipCodes" := Plain(Num(totalZipCodes)),
      "uploadedBy" := Plain(Str("admin_script")),
      "sourceFile" := Plain(Str("texas_representatives.json"))]
  }

  /** One more key `doc()` accepts keeps the keys so far resolvable and read from the source. */
  lemma ExtendKeys(keys: seq<string>, data: map<string, map<string, JsValue>>, i: nat)
    requires i < |keys| && forall z :: z in keys ==> z in data
    requires Resolvable(keys[..i]) && DocKey(keys[i]).Some?
    ensures forall z :: z in keys[..i + 1] ==> z in data
    ensures Resolvable(keys[..i + 1])
  {
    var next := keys[..i + 1];
    forall j | 0 <= j < |next| ensures DocKey(next[j]).Some? {
      if j < i {
        assert next[j] == keys[..i][j];
      }
    }
    assert forall z :: z in next ==> z in keys;
  }

  /** One more resolvable key extends the writes by that key's write. */
  lemma Extend(keys: seq<string>, data: map<string, map<string, JsValue>>, i: nat)
    requires i < |keys| && forall z :: z in keys ==> z in data
    requires Resolvable(keys[..i]) && DocKey(keys[i]).Some?
    ensures forall z :: z in keys[..i + 1] ==> z in data
    ensures Resolvable(keys[..i + 1])
    ensures WritesOf(keys[..i + 1], data) == WritesOf(keys[..i], data) + [ZipWrite(DocKey(keys[i]).value, data[keys[i]])]
  {
    ExtendKeys(keys, data, i);
    var next := keys[..i + 1];
    assert next[..i] == keys[..i];
    WritesOfSnoc(next, data);
  }

  lemma WritesOfSnoc(keys: seq<string>, data: map<string, map<string, JsValue>>)
    requires |keys| > 0 && (forall z :: z in keys ==> z in data) && Resolvable(keys)
    ensures (forall z :: z in keys[..|keys| - 1] ==> z in data) && Resolvable(keys[..|keys| - 1])
    ensures WritesOf(keys, data)
         == WritesOf(keys[..|keys| - 1], data) + [ZipWrite(DocKey(keys[|keys| - 1]).value, data[keys[|keys| - 1]])]
  {
  }

  /** The first m of the writes of n keys are the writes of the first m keys. */
  lemma WritesOfPrefix(keys: seq<string>, data: map<string, map<string, JsValue>>, n: nat, m: nat)
    requires m <= n <= |keys| && (forall z :: z in keys ==> z in data) && Resolvable(keys[..n])
    ensures Resolvable(keys[..m]) && forall z :: z in keys[..m] ==> z in data
    ensures WritesOf(keys[..n], data)[..m] == WritesOf(keys[..m], data)
  {
    assert forall j :: 0 <= j < m ==> keys[..m][j] == keys[..n][j];
    assert forall z :: z in keys[..m] ==> z in keys;
  }

  /** What the loop of the script as written knows after its first `i` keys:
      the shared batch holds their writes; it has been committed once exactly
      when 500 of them were staged. */
  ghost predicate SharedProgress(db0: map<string, Fields>, keys: seq<string>, data: map<string, map<string, JsValue>>,
                                 i: nat, db: map<string, Fields>, ops: seq<ZipWrite>, committed: bool,
                                 commits: seq<seq<ZipWrite>>, batchCount: nat)
    requires i <= |keys| && (forall z :: z in keys ==> z in data) && Resolvable(keys[..i])
  {
    && i <= MaxBatchSize
    && ops == WritesOf(keys[..i], data)
    && (!committed ==> i < MaxBatchSize && batchCount == i && db == db0 && commits == [])
    && (committed ==> i == MaxBatchSize && batchCount == 0 && db == ApplyAll(SetDoc, db0, ops) && commits == [ops])
  }

  /** One iteration of the script as written on a batch not yet committed:
      stage the zip's `set`, and commit when 500 writes are staged. */
  method SetOnSharedBatch(db0: map<string, Fields>, keys: seq<string>, data: map<string, map<string, JsValue>>, i: nat,
                          db: map<string, Fields>, ops: seq<ZipWrite>, commits: seq<seq<ZipWrite>>, batchCount: nat)
    returns (db': map<string, Fields>, ops': seq<ZipWrite>, committed': bool, commits': seq<seq<ZipWrite>>, batchCount': nat)
    requires i < |keys| && (forall z :: z in keys ==> z in data) && Resolvable(keys[..i]) && DocKey(keys[i]).Some?
    requires SharedProgress(db0, keys, data, i, db, ops, false, commits, batchCount)
    ensures Resolvable(keys[..i + 1])
    ensures SharedProgress(db0, keys, data, i + 1, db', ops', committed', commits', batchCount')
  {
    var zip := keys[i];
    Extend(keys, data, i);
    ops' := ops + [ZipWrite(DocKey(zip).value, data[zip])];
    batchCount' := batchCount + 1;
    if batchCount' >= MaxBatchSize {
      db' := ApplyAll(SetDoc, db, ops');
      commits' := commits + [ops'];
      committed' := true;
      batchCount' := 0;
    } else {
      db', committed', commits' := db, false, commits;
    }
  }

  /** Keys that `doc()` accepts up to `n` put the first refused key at or
      after `n`, and a refused key right after them is the first. */
  lemma {:induction false} FirstRejectedAt(keys: seq<string>, n: nat)
    requires n <= |keys| && Resolvable(keys[..n])
    ensures n <= FirstRejected(keys)
    ensures n < |keys| && DocKey(keys[n]).None? ==> FirstRejected(keys) == n
    decreases n
  {
    if n > 0 {
      assert keys[..n][0] == keys[0];
      assert keys[1..][..n - 1] == keys[..n][1..];
      FirstRejectedAt(keys[1..], n - 1);
    }
  }

  /** A refused key makes every run of keys reaching past it unresolvable. */
  lemma RejectedKey(keys: seq<string>, i: nat)
    requires i < |keys| && DocKey(keys[i]).None?
    ensures !Resolvable(keys)
    ensures i < MaxBatchSize <= |keys| ==> !Resolvable(keys[..MaxBatchSize])
  {
    if i < MaxBatchSize <= |keys| {
      assert keys[..MaxBatchSize][i] == keys[i];
    }
  }

  /** Where the script as written stops at key `i`, because `doc()` refuses
      it or because the shared batch is already committed. */
  lemma SharedStopped(db0: map<string, Fields>, keys: seq<string>, data: map<string, map<string, JsValue>>,
                      i: nat, db: map<string, Fields>, ops: seq<ZipWrite>, committed: bool,
                      commits: seq<seq<ZipWrite>>, batchCount: nat)
    requires i < |keys| && (forall z :: z in keys ==> z in data) && Resolvable(keys[..i])
    requires SharedProgress(db0, keys, data, i, db, ops, committed, commits, batchCount)
    requires DocKey(keys[i]).None? || committed
    ensures !(Resolvable(keys) && |keys| <= MaxBatchSize)
    ensures |keys| > MaxBatchSize && Resolvable(keys[..MaxBatchSize]) ==>
      UploadRun(db, None, commits, i, 1) == UploadRun(
        ApplyAll(SetDoc, db0, WritesOf(keys[..MaxBatchSize], data)), None, [WritesOf(keys[..MaxBatchSize], data)], MaxBatchSize, 1)
    ensures var k := FirstRejected(keys);
      k < |keys| && k < MaxBatchSize ==> UploadRun(db, None, commits, i, 1) == UploadRun(db0, None, [], k, 1)
  {
    FirstRejectedAt(keys, i);
    if DocKey(keys[i]).None? {
      RejectedKey(keys, i);
    }
    if committed {
      assert keys[..i] == keys[..MaxBatchSize];
    }
  }

  /** The script as written. The batch object is `(ops, committed)`: after
      its first commit every further `set` throws, as does `doc()` on a key
      it refuses; the catch logs the error and the script exits with code 1. */
  method UploadTexasRepsData(db0: map<string, Fields>, keys: seq<string>, data: map<string, map<string, JsValue>>)
    returns (run: UploadRun)
    requires forall z :: z in keys <==> z in data
    ensures Resolvable(keys) && |keys| <= MaxBatchSize ==> run == UploadRun(
      ApplyAll(SetDoc, db0, WritesOf(keys, data)), Some(Metadata(TotalZipCodes(data))), Chunks(WritesOf(keys, data)), |keys|, 0)
    ensures |keys| > MaxBatchSize && Resolvable(keys[..MaxBatchSize]) ==> run == UploadRun(
      ApplyAll(SetDoc, db0, WritesOf(keys[..MaxBatchSize], data)), None, [WritesOf(keys[..MaxBatchSize], data)],
      MaxBatchSize, 1)
    ensures var k := FirstRejected(keys);
      k < |keys| && k < MaxBatchSize ==> run == UploadRun(db0, None, [], k, 1)
  {
    var totalZipCodes := TotalZipCodes(data);
    var db := db0;
    var ops: seq<ZipWrite> := [];
    var committed := false;
    var commits: seq<seq<ZipWrite>> := [];
    var batchCount := 0;
    var processedCount := 0;
    var i := 0;
    while i < |keys|
      invariant 0 <= i <= |keys|
      invariant processedCount == i
      invariant Resolvable(keys[..i])
      invariant SharedProgress(db0, keys, data, i, db, ops, committed, commits, batchCount)
    {
      if DocKey(keys[i]).None? || committed {
        // `doc(zipCode)` throws, or `batch.set` on a committed batch throws
        SharedStopped(db0, keys, data, i, db, ops, committed, commits, batchCount);
        return UploadRun(db, None, commits, processedCount, 1);
      }
      db, ops, committed, commits, batchCount := SetOnSharedBatch(db0, keys, data, i, db, ops, commits, batchCount);
      processedCount := processedCount + 1;
      i := i + 1;
    }
    SharedFinished(db0, keys, data, db, ops, committed, commits, batchCount);
    if batchCount > 0 {
      db := ApplyAll(SetDoc, db, ops);
      commits := commits + [ops];
    }
    run := UploadRun(db, Some(Metadata(totalZipCodes)), commits, processedCount, 0);
  }

  /** Where the script as written finishes its loop: every key was staged,
      there are at most 500 of them, and the final commit makes the commits
      the chunks of the writes. */
  lemma SharedFinished(db0: map<string, Fields>, keys: seq<string>, data: map<string, map<string, JsValue>>,
                       db: map<string, Fields>, ops: seq<ZipWrite>, committed: bool,
                       commits: seq<seq<ZipWrite>>, batchCount: nat)
    requires (forall z :: z in keys ==> z in data) && Resolvable(keys[..|keys|])
    requires SharedProgress(db0, keys, data, |keys|, db, ops, committed, commits, batchCount)
    ensures Resolvable(keys) && |keys| <= MaxBatchSize && FirstRejected(keys) == |keys|
    ensures ops == WritesOf(keys, data)
    ensures batchCount > 0 ==> ApplyAll(SetDoc, db, ops) == ApplyAll(SetDoc, db0, ops) && commits + [ops] == Chunks(ops)
    ensures batchCount == 0 ==> db == ApplyAll(SetDoc, db0, ops) && commits == Chunks(ops)
  {
    assert keys[..|keys|] == keys;
    assert ops == WritesOf(keys, data);
    FirstRejectedAt(keys, |keys|);
    ChunksOfOneBatch(ops);
    if !committed {
      assert db == db0 && commits + [ops] == [ops];
    }
  }

  /** Up to 500 writes form at most one commit. */
  lemma ChunksOfOneBatch(ws: seq<ZipWrite>)
    requires |ws| <= MaxBatchSize
    ensures Chunks(ws) == if |ws| == 0 then [] else [ws]
  {
  }

  /** What the loop of the corrected script knows after its first `i` keys. */
  ghost predicate Progress(db0: map<string, Fields>, keys: seq<string>, data: map<string, map<string, JsValue>>, i: nat,
                           db: map<string, Fields>, commits: seq<seq<ZipWrite>>, batch: seq<ZipWrite>)
  {
    && i <= |keys| && (forall z :: z in keys ==> z in data) && Resolvable(keys[..i])
    && |batch| < MaxBatchSize
    && AllFull(commits)
    && Flatten(commits) + batch == WritesOf(keys[..i], data)
    && db == ApplyAll(SetDoc, db0, Flatten(commits))
  }

  /** One iteration of the corrected loop: `set` the zip's document, and
      commit and start a new batch when it holds 500 writes. */
  method SetZip(db0: map<string, Fields>, keys: seq<string>, data: map<string, map<string, JsValue>>, i: nat,
                db: map<string, Fields>, commits: seq<seq<ZipWrite>>, batch: seq<ZipWrite>, batchCount: nat)
    returns (db': map<string, Fields>, commits': seq<seq<ZipWrite>>, batch': seq<ZipWrite>, batchCount': nat)
    requires i < |keys| && (forall z :: z in keys ==> z in data) && Resolvable(keys[..i]) && DocKey(keys[i]).Some?
    requires Progress(db0, keys, data, i, db, commits, batch) && batchCount == |batch|
    ensures Resolvable(keys[..i + 1])
    ensures Progress(db0, keys, data, i + 1, db', commits', batch') && batchCount' == |batch'|
  {
    var zip := keys[i];
    var staged := batch + [ZipWrite(DocKey(zip).value, data[zip])];
    Staged(db0, keys, data, i, db, commits, batch);
    batchCount' := batchCount + 1;
    if batchCount' >= MaxBatchSize {
      db' := ApplyAll(SetDoc, db, staged);
      commits' := commits + [staged];
      batch' := [];
      batchCount' := 0;
    } else {
      db', commits', batch' := db, commits, staged;
    }
  }

  /** Staging the next key's write keeps `Progress`, and so does committing
      the batch when that write fills it. */
  lemma Staged(db0: map<string, Fields>, keys: seq<string>, data: map<string, map<string, JsValue>>, i: nat,
               db: map<string, Fields>, commits: seq<seq<ZipWrite>>, batch: seq<ZipWrite>)
    requires i < |keys| && (forall z :: z in keys ==> z in data) && Resolvable(keys[..i]) && DocKey(keys[i]).Some?
    requires Progress(db0, keys, data, i, db, commits, batch)
    ensures Resolvable(keys[..i + 1]) && forall z :: z in keys[..i + 1] ==> z in data
    ensures var staged := batch + [ZipWrite(DocKey(keys[i]).value, data[keys[i]])];
      if |staged| < MaxBatchSize then Progress(db0, keys, data, i + 1, db, commits, staged)
      else Progress(db0, keys, data, i + 1, ApplyAll(SetDoc, db, staged), commits + [staged], [])
  {
    var staged := batch + [ZipWrite(DocKey(keys[i]).value, data[keys[i]])];
    Extend(keys, data, i);
    assert Flatten(commits) + staged == WritesOf(keys[..i + 1], data);
    if |staged| == MaxBatchSize {
      StagedFull(db0, keys[..i + 1], data, db, commits, staged);
    }
  }

  /** Committing a batch that has just filled keeps `Progress` with an empty batch. */
  lemma StagedFull(db0: map<string, Fields>, prefix: seq<string>, data: map<string, map<string, JsValue>>,
                   db: map<string, Fields>, commits: seq<seq<ZipWrite>>, staged: seq<ZipWrite>)
    requires (forall z :: z in prefix ==> z in data) && Resolvable(prefix)
    requires AllFull(commits) && |staged| == MaxBatchSize
    requires Flatten(commits) + staged == WritesOf(prefix, data)
    requires db == ApplyAll(SetDoc, db0, Flatten(commits))
    ensures AllFull(commits + [staged])
    ensures Flatten(commits + [staged]) + [] == WritesOf(prefix, data)
    ensures ApplyAll(SetDoc, db, staged) == ApplyAll(SetDoc, db0, Flatten(commits + [staged]))
  {
    Flush(SetDoc, db0, commits, staged);
    assert Flatten(commits + [staged]) + [] == Flatten(commits) + staged;
  }

  /** How many of the first `k` keys fill whole batches of 500. */
  function CommittedKeys(k: nat): (m: nat)
    ensures m <= k && m % MaxBatchSize == 0 && k - m < MaxBatchSize
  {
    k / MaxBatchSize * MaxBatchSize
  }

  /** `q` full batches and fewer than 500 keys more leave `q` batches' worth committed. */
  lemma CommittedKeysOf(k: nat, q: nat, r: nat)
    requires k == q * MaxBatchSize + r && r < MaxBatchSize
    ensures CommittedKeys(k) == q * MaxBatchSize
  {
    assert k / MaxBatchSize == q;
  }

  /** Where the corrected loop stops at a refused key: the full batches
      committed so far hold the writes of the first `CommittedKeys(i)` keys, and
      the open batch is dropped. */
  lemma Abandoned(db0: map<string, Fields>, keys: seq<string>, data: map<string, map<string, JsValue>>, i: nat,
                  db: map<string, Fields>, commits: seq<seq<ZipWrite>>, batch: seq<ZipWrite>)
    requires i <= |keys| && (forall z :: z in keys ==> z in data) && Resolvable(keys[..i])
    requires Progress(db0, keys, data, i, db, commits, batch)
    ensures Resolvable(keys[..CommittedKeys(i)])
    ensures commits == Chunks(WritesOf(keys[..CommittedKeys(i)], data))
    ensures db == ApplyAll(SetDoc, db0, WritesOf(keys[..CommittedKeys(i)], data))
  {
    FlattenFullLength(commits);
    var m := |commits| * MaxBatchSize;
    assert i == m + |batch|;
    CommittedKeysOf(i, |commits|, |batch|);
    WritesOfPrefix(keys, data, i, m);
    assert (Flatten(commits) + batch)[..m] == Flatten(commits);
    FullCommitsAreChunks(commits, []);
    assert Flatten(commits) + [] == Flatten(commits);
  }

  /** The run the corrected script returns when `doc()` refuses key `i`
      is the one its contract promises for the first refused key. */
  lemma Rejected(db0: map<string, Fields>, keys: seq<string>, data: map<string, map<string, JsValue>>, i: nat,
                 db: map<string, Fields>, commits: seq<seq<ZipWrite>>, batch: seq<ZipWrite>)
    requires i < |keys| && (forall z :: z in keys ==> z in data) && Resolvable(keys[..i]) && DocKey(keys[i]).None?
    requires Progress(db0, keys, data, i, db, commits, batch)
    ensures !Resolvable(keys)
    ensures var k := FirstRejected(keys); var m := CommittedKeys(k);
      k < |keys| && UploadRun(db, None, commits, i, 1)
        == UploadRun(ApplyAll(SetDoc, db0, WritesOf(keys[..m], data)), None, Chunks(WritesOf(keys[..m], data)), k, 1)
  {
    FirstRejectedAt(keys, i);
    Abandoned(db0, keys, data, i, db, commits, batch);
  }

  /** The script as intended: a fresh batch after each commit. A key that
      `doc()` refuses still ends it with exit code 1, leaving the batches
      committed before it and dropping the open one. */
  method UploadTexasRepsDataCorrected(db0: map<string, Fields>, keys: seq<string>, data: map<string, map<string, JsValue>>)
    returns (run: UploadRun)
    requires forall z :: z in keys <==> z in data
    ensures Resolvable(keys) ==>
      && run.db == ApplyAll(SetDoc, db0, WritesOf(keys, data)) && run.metadata == Some(Metadata(TotalZipCodes(data)))
      && run.commits == Chunks(WritesOf(keys, data)) && run.processedCount == |keys| && run.exitCode == 0
    ensures var k := FirstRejected(keys); var m := CommittedKeys(k);
      k < |keys| ==> run == UploadRun(ApplyAll(SetDoc, db0, WritesOf(keys[..m], data)), None, Chunks(WritesOf(keys[..m], data)), k, 1)
  {
    var totalZipCodes := TotalZipCodes(data);
    var db := db0;
    var batch: seq<ZipWrite> := [];
    var commits: seq<seq<ZipWrite>> := [];
    var batchCount := 0;
    var processedCount := 0;
    var i := 0;
    while i < |keys|
      invariant 0 <= i <= |keys|
      invariant processedCount == i
      invariant batchCount == |batch|
      invariant Resolvable(keys[..i])
      invariant Progress(db0, keys, data, i, db, commits, batch)
    {
      if DocKey(keys[i]).None? {
        // `doc(zipCode)` throws: the catch exits with code 1
        Rejected(db0, keys, data, i, db, commits, batch);
        return UploadRun(db, None, commits, processedCount, 1);
      }
      db, commits, batch, batchCount := SetZip(db0, keys, data, i, db, commits, batch, batchCount);
      processedCount := processedCount + 1;
      i := i + 1;
    }
    Finished(db0, keys, data, db, commits, batch);
    ghost var writes := WritesOf(keys, data);
    assert Flatten(commits) + batch == writes;
    db, commits := FinalCommit(SetDoc, db0, db, commits, batch);
    assert db == ApplyAll(SetDoc, db0, writes) && commits == Chunks(writes);
    assert FirstRejected(keys) == |keys|;
    run := UploadRun(db, Some(Metadata(totalZipCodes)), commits, processedCount, 0);
  }

  /** After the corrected loop has staged every key, the committed batches
      and the open one hold all the writes, and no key was refused. */
  lemma Finished(db0: map<string, Fields>, keys: seq<string>, data: map<string, map<string, JsValue>>,
                 db: map<string, Fields>, commits: seq<seq<ZipWrite>>, batch: seq<ZipWrite>)
    requires (forall z :: z in keys ==> z in data) && Resolvable(keys[..|keys|])
    requires Progress(db0, keys, data, |keys|, db, commits, batch)
    ensures Resolvable(keys) && FirstRejected(keys) == |keys|
    ensures AllFull(commits) && |batch| < MaxBatchSize
    ensures Flatten(commits) + batch == WritesOf(keys, data)
    ensures db == ApplyAll(SetDoc, db0, Flatten(commits))
  {
    assert keys[..|keys|] == keys;
    FirstRejectedAt(keys, |keys|);
  }

  // ---------------------------------------------------------------------------
  // Properties

  /** Committing the writes of one more key sets the document it resolves to. */
  lemma ApplyWritesSnoc(db: map<string, Fields>, keys: seq<string>, data: map<string, map<string, JsValue>>)
    requires |keys| > 0 && (forall k :: k in keys ==> k in data) && Resolvable(keys)
    ensures (forall k :: k in keys[..|keys| - 1] ==> k in data) && Resolvable(keys[..|keys| - 1])
    ensures ApplyAll(SetDoc, db, WritesOf(keys, data))
         == ApplyAll(SetDoc, db, WritesOf(keys[..|keys| - 1], data))[KeysOf(keys)[|keys| - 1] := ZipDoc(data[keys[|keys| - 1]])]
  {
    var ws := WritesOf(keys, data);
    assert ws[..|ws| - 1] == WritesOf(keys[..|keys| - 1], data);
  }

  /** After committing the writes of the keys, each document holds the source
      data, with the timestamp, of the LAST key resolving to it, and every
      document no key resolves to is unchanged. */
  lemma {:induction false} UploadedDocs(db: map<string, Fields>, keys: seq<string>, data: map<string, map<string, JsValue>>, key: string)
    requires (forall k :: k in keys ==> k in data) && Resolvable(keys)
    ensures LastWith(KeysOf(keys), key).Some? ==>
      key in ApplyAll(SetDoc, db, WritesOf(keys, data))
      && ApplyAll(SetDoc, db, WritesOf(keys, data))[key] == ZipDoc(data[keys[LastWith(KeysOf(keys), key).value]])
    ensures LastWith(KeysOf(keys), key).None? ==> (key in ApplyAll(SetDoc, db, WritesOf(keys, data)) <==> key in db)
    ensures LastWith(KeysOf(keys), key).None? && key in db ==> ApplyAll(SetDoc, db, WritesOf(keys, data))[key] == db[key]
  {
    if |keys| > 0 {
      var init := keys[..|keys| - 1];
      ApplyWritesSnoc(db, keys, data);
      assert KeysOf(keys)[..|keys| - 1] == KeysOf(init);
      if KeysOf(keys)[|keys| - 1] == key {
        assert LastWith(KeysOf(keys), key) == Some(|keys| - 1);
      } else {
        assert LastWith(KeysOf(keys), key) == LastWith(KeysOf(init), key);
        UploadedDocs(db, init, data, key);
      }
    }
  }

  /** Zip codes are plain ids: each is stored under its own id with its own
      source data and the timestamp, and every other document is unchanged. */
  lemma PlainZipsUploaded(db: map<string, Fields>, keys: seq<string>, data: map<string, map<string, JsValue>>, z: string)
    requires (forall k :: k in keys ==> k in data) && forall j :: 0 <= j < |keys| ==> PlainId(keys[j])
    ensures Resolvable(keys) && KeysOf(keys) == keys
    ensures z in keys ==> z in ApplyAll(SetDoc, db, WritesOf(keys, data)) && ApplyAll(SetDoc, db, WritesOf(keys, data))[z] == ZipDoc(data[z])
    ensures z !in keys ==> (z in ApplyAll(SetDoc, db, WritesOf(keys, data)) <==> z in db)
    ensures z !in keys && z in db ==> ApplyAll(SetDoc, db, WritesOf(keys, data))[z] == db[z]
  {
    forall j | 0 <= j < |keys| ensures DocKey(keys[j]) == Some(keys[j]) {
      PlainIdKey(keys[j]);
    }
    assert KeysOf(keys) == keys;
    UploadedDocs(db, keys, data, z);
  }

  /** The corrected script issues ceil(n / 500) commits of at most 500 writes
      each, all full but the last, and `processedCount` reaches n. */
  lemma CorrectedCommitCount(keys: seq<string>, data: map<string, map<string, JsValue>>)
    requires (forall z :: z in keys ==> z in data) && Resolvable(keys)
    ensures |Chunks(WritesOf(keys, data))| == CeilDiv(|keys|, MaxBatchSize)
    ensures forall c :: c in Chunks(WritesOf(keys, data)) ==> 0 < |c| <= MaxBatchSize
    ensures Flatten(Chunks(WritesOf(keys, data))) == WritesOf(keys, data)
  {
    ChunksCount(WritesOf(keys, data));
    ChunksSizes(WritesOf(keys, data));
    ChunksFlatten(WritesOf(keys, data));
  }

  lemma FirstBatch(keys: seq<string>, data: map<string, map<string, JsValue>>)
    requires (forall z :: z in keys ==> z in data) && Resolvable(keys) && |keys| > MaxBatchSize
    ensures (forall z :: z in keys[..MaxBatchSize] ==> z in data) && Resolvable(keys[..MaxBatchSize])
    ensures KeysOf(keys[..MaxBatchSize]) == KeysOf(keys)[..MaxBatchSize]
  {
    var first := keys[..MaxBatchSize];
    assert forall j :: 0 <= j < MaxBatchSize ==> first[j] == keys[j];
  }

  /** With 501 zips resolving to distinct new documents the script as
      written stops at the 501st `set`: the 501st document is never written,
      where the corrected script writes it in a second commit. */
  lemma FiveHundredOneZips(db0: map<string, Fields>, keys: seq<string>, data: map<string, map<string, JsValue>>)
    requires (forall z :: z in keys <==> z in data) && Resolvable(keys)
    requires |keys| == 501 && Distinct(KeysOf(keys)) && KeysOf(keys)[500] !in db0
    ensures Resolvable(keys[..MaxBatchSize])
    ensures KeysOf(keys)[500] !in ApplyAll(SetDoc, db0, WritesOf(keys[..MaxBatchSize], data))
    ensures KeysOf(keys)[500] in ApplyAll(SetDoc, db0, WritesOf(keys, data))
    ensures |Chunks(WritesOf(keys, data))| == 2
  {
    var first := keys[..MaxBatchSize];
    var last := KeysOf(keys)[500];
    FirstBatch(keys, data);
    assert last !in KeysOf(first);
    assert LastWith(KeysOf(first), last).None?;
    UploadedDocs(db0, first, data, last);
    assert LastWith(KeysOf(keys), last) == Some(500);
    UploadedDocs(db0, keys, data, last);
    ChunksCount(WritesOf(keys, data));
    assert CeilDiv(501, MaxBatchSize) == 2;
  }
}
