/** The write loop of `updateFirebaseWithMerge` in
    update_firebase_with_district_data.js: each zip of the transformed data is
    created when its document is absent, updated when merging changes its
    representatives, and skipped otherwise; creates and updates are batched
    and flushed at 500. A zip whose id `doc()` refuses throws inside the
    per-zip `try`, and the catch skips it without counting it. Reads and
    commits are modelled as never failing. */
module MergeUpload {
  import opened JsValues
  import opened RepMerge
  import opened Batching
  import opened DocPaths

  /** A document of the `texas_representatives` collection. */
  datatype RepDoc = RepDoc(representatives: Option<seq<Rep>>, fields: Fields)

  /** A pending write on the document `id`: `batch.set` of a whole document,
      or `batch.update` of the representatives of an existing one. */
  datatype Write = Create(id: string, doc: RepDoc) | Update(id: string, merged: seq<Rep>)

  /** What the loop does with one zip; `Refused` is a zip whose id `doc()` refuses. */
  datatype Outcome = Created | Updated | Skipped | Refused

  datatype MergeRun = MergeRun(
    db: map<string, RepDoc>,
    commits: seq<seq<Write>>,
    newZipCodes: nat,
    updatedZipCodes: nat,
    skippedZipCodes: nat,
    metadata: Fields)

  function Lookup(db: map<string, RepDoc>, id: string): Option<RepDoc> {
    if id in db then Some(db[id]) else None
  }

  /** `existingData.representatives || []`. */
  function RepsOf(d: RepDoc): seq<Rep> {
    d.representatives.GetOr([])
  }

  /** The document created for a new zip: `...newData`, a server timestamp and `createdBy`. */
  function NewDoc(incoming: seq<Rep>): (d: RepDoc)
    ensures d.representatives == Some(incoming)
    ensures d.fields.Keys == {"lastUpdated", "createdBy"} && d.fields["lastUpdated"] == ServerTimestamp
  {
    RepDoc(Some(incoming), map["lastUpdated" := ServerTimestamp, "createdBy" := Plain(Str("district_data_import"))])
  }

  /** An existing document after `update`: the listed fields replaced, all others kept. */
  function UpdatedDoc(d: RepDoc, merged: seq<Rep>): (u: RepDoc)
    ensures u.representatives == Some(merged)
    ensures u.fields.Keys == d.fields.Keys + {"lastUpdated", "updatedBy"} && u.fields["lastUpdated"] == ServerTimestamp
    ensures forall k :: k in d.fields && k != "lastUpdated" && k != "updatedBy" ==> u.fields[k] == d.fields[k]
  {
    d.(representatives := Some(merged),
       fields := d.fields["lastUpdated" := ServerTimestamp]["updatedBy" := Plain(Str("district_data_merge"))])
  }

  /** Committing one write. */
  function Apply(db: map<string, RepDoc>, w: Write): map<string, RepDoc> {
    match w
    case Create(id, doc) => db[id := doc]
    // updates are only issued for documents that exist
    case Update(id, merged) => if id in db then db[id := UpdatedDoc(db[id], merged)] else db
  }

  /** What the loop decides for a zip, given the document it read. */
  function OutcomeOf(doc: Option<RepDoc>, incoming: seq<Rep>): Outcome {
    match doc
    case None => Created
    case Some(d) => if HasChanges(RepsOf(d), Merge(RepsOf(d), incoming)) then Updated else Skipped
  }

  /** What the loop decides for the zip key `z`: `doc(z)` throws on an id it
      refuses; otherwise the document `z` resolves to decides. */
  function ZipOutcome(db: map<string, RepDoc>, z: string, incoming: seq<Rep>): (o: Outcome)
    ensures o == Refused <==> DocKey(z).None?
    ensures o == Created <==> DocKey(z).Some? && DocKey(z).value !in db
  {
    match DocKey(z)
    case None => Refused
    case Some(id) => OutcomeOf(Lookup(db, id), incoming)
  }

  /** The write issued for the document `id`, given the document read. */
  function WriteFor(id: string, doc: Option<RepDoc>, incoming: seq<Rep>): (ws: seq<Write>)
    ensures forall t :: 0 <= t < |ws| ==> ws[t].id == id
    ensures |ws| <= 1 && (|ws| == 0 <==> OutcomeOf(doc, incoming) == Skipped)
  {
    match OutcomeOf(doc, incoming)
    case Created => [Create(id, NewDoc(incoming))]
    case Updated => [Update(id, Merge(RepsOf(doc.value), incoming))]
    case Skipped => []
  }

  /** The writes issued for the zip key `z`: none when `doc(z)` throws. */
  function ZipWrites(db: map<string, RepDoc>, z: string, incoming: seq<Rep>): seq<Write> {
    match DocKey(z)
    case None => []
    case Some(id) => WriteFor(id, Lookup(db, id), incoming)
  }

  /** The writes the loop issues, in key order. */
  function WritesFor(db: map<string, RepDoc>, keys: seq<string>, data: map<string, seq<Rep>>): seq<Write>
    requires forall z :: z in keys ==> z in data
  {
    if |keys| == 0 then []
    else
      var z := keys[|keys| - 1];
      WritesFor(db, keys[..|keys| - 1], data) + ZipWrites(db, z, data[z])
  }

  /** The number of keys with outcome `o`. */
  function Tally(db: map<string, RepDoc>, keys: seq<string>, data: map<string, seq<Rep>>, o: Outcome): nat
    requires forall z :: z in keys ==> z in data
  {
    if |keys| == 0 then 0
    else
      var z := keys[|keys| - 1];
      Tally(db, keys[..|keys| - 1], data, o) + if ZipOutcome(db, z, data[z]) == o then 1 else 0
  }

  /** The documents the keys `doc()` accepts resolve to. */
  function Docs(keys: seq<string>): set<string> {
    set z | z in keys && DocKey(z).Some? :: DocKey(z).value
  }

  /** No two keys that `doc()` accepts resolve to the same document. */
  predicate DistinctDocs(keys: seq<string>) {
    forall a, b :: 0 <= a < b < |keys| && DocKey(keys[a]).Some? ==> DocKey(keys[a]) != DocKey(keys[b])
  }

  /** The metadata document written after the loop. */
  function Summary(newZipCodes: nat, updatedZipCodes: nat, skippedZipCodes: nat, totalProcessed: nat): (m: Fields)
    ensures m.Keys == {"lastUpdateDate", "newZipCodes", "updatedZipCodes", "skippedZipCodes",
                       "totalProcessed", "updateType", "sourceFile"}
    ensures m["totalProcessed"] == Plain(Num(totalProcessed)) && m["lastUpdateDate"] == ServerTimestamp
  {
    map[
      "lastUpdateDate" := ServerTimestamp,
      "newZipCodes" := Plain(Num(newZipCodes)),
      "updatedZipCodes" := Plain(Num(updatedZipCodes)),
      "skippedZipCodes" := Plain(Num(skippedZipCodes)),
      "totalProcessed" := Plain(Num(totalProcessed)),
      "updateType" := Plain(Str("district_data_merge")),
      "sourceFile" := Plain(Str("tx_legislative_districts_by_zip.json"))]
  }

  /** Writes to other documents leave a document alone. */
  lemma {:induction false} ApplyAllElsewhere(db: map<string, RepDoc>, ws: seq<Write>, id: string)
    requires forall i :: 0 <= i < |ws| ==> ws[i].id != id
    ensures Lookup(ApplyAll(Apply, db, ws), id) == Lookup(db, id)
  {
    if |ws| > 0 {
      ApplyAllElsewhere(db, ws[..|ws| - 1], id);
    }
  }

  /** Every write of the loop targets a document one of its keys resolves to. */
  lemma {:induction false} WritesTargetKeys(db: map<string, RepDoc>, keys: seq<string>, data: map<string, seq<Rep>>)
    requires forall z :: z in keys ==> z in data
    ensures forall w :: w in WritesFor(db, keys, data) ==> w.id in Docs(keys)
  {
    if |keys| > 0 {
      var init := keys[..|keys| - 1];
      WritesTargetKeys(db, init, data);
      assert forall z :: z in init ==> z in keys;
      assert Docs(init) <= Docs(keys);
    }
  }

  /** With distinct documents, an accepted key's document is not among those
      of the keys before it. */
  lemma NotEarlier(keys: seq<string>, i: nat)
    requires i < |keys| && DistinctDocs(keys) && DocKey(keys[i]).Some?
    ensures DocKey(keys[i]).value !in Docs(keys[..i])
  {
    forall z | z in keys[..i] && DocKey(z).Some? ensures DocKey(z) != DocKey(keys[i]) {
      var a :| 0 <= a < i && keys[..i][a] == z;
      assert keys[a] == z;
    }
  }

  /** Dropping the last key keeps the documents distinct, and the last key's
      document, if any, is not among the others'. */
  lemma DistinctDocsSplit(keys: seq<string>)
    requires DistinctDocs(keys) && |keys| > 0
    ensures DistinctDocs(keys[..|keys| - 1])
    ensures DocKey(keys[|keys| - 1]).Some? ==> DocKey(keys[|keys| - 1]).value !in Docs(keys[..|keys| - 1])
  {
    var init := keys[..|keys| - 1];
    forall a, b | 0 <= a < b < |init| && DocKey(init[a]).Some? ensures DocKey(init[a]) != DocKey(init[b]) {
      assert init[a] == keys[a] && init[b] == keys[b];
    }
    if DocKey(keys[|keys| - 1]).Some? {
      NotEarlier(keys, |keys| - 1);
    }
  }

  /** With distinct documents, the only accepted key resolving to the
      document of key j is key j itself. */
  lemma OnlyKeyFor(keys: seq<string>, j: nat, z: string)
    requires DistinctDocs(keys) && j < |keys| && z in keys
    requires DocKey(z).Some? && DocKey(keys[j]) == DocKey(z)
    ensures z == keys[j]
  {
    var a :| 0 <= a < |keys| && keys[a] == z;
  }

  /** The document the loop reads for key i is the one the run started with:
      nothing written before targets it. */
  lemma ReadSeesStart(db: map<string, RepDoc>, keys: seq<string>, data: map<string, seq<Rep>>, i: nat,
                      committed: seq<Write>, pending: seq<Write>)
    requires i < |keys| && DistinctDocs(keys) && DocKey(keys[i]).Some?
    requires forall z :: z in keys ==> z in data
    requires committed + pending == WritesFor(db, keys[..i], data)
    ensures Lookup(ApplyAll(Apply, db, committed), DocKey(keys[i]).value) == Lookup(db, DocKey(keys[i]).value)
  {
    var id := DocKey(keys[i]).value;
    assert forall z :: z in keys[..i] ==> z in keys;
    WritesTargetKeys(db, keys[..i], data);
    NotEarlier(keys, i);
    forall t | 0 <= t < |committed| ensures committed[t].id != id {
      assert committed[t] == (committed + pending)[t];
      assert committed[t] in WritesFor(db, keys[..i], data);
    }
    ApplyAllElsewhere(db, committed, id);
  }

  /** Processing key i adds its outcome to the tallies and its writes, if any, to the pending batch. */
  lemma Advance(db: map<string, RepDoc>, keys: seq<string>, data: map<string, seq<Rep>>, i: nat,
                committed: seq<Write>, pending: seq<Write>, created: nat, updated: nat, skipped: nat)
    requires i < |keys|
    requires forall z :: z in keys ==> z in data
    requires committed + pending == WritesFor(db, keys[..i], data)
    requires created == Tally(db, keys[..i], data, Created)
    requires updated == Tally(db, keys[..i], data, Updated)
    requires skipped == Tally(db, keys[..i], data, Skipped)
    ensures var o := ZipOutcome(db, keys[i], data[keys[i]]);
      && committed + (pending + ZipWrites(db, keys[i], data[keys[i]])) == WritesFor(db, keys[..i + 1], data)
      && (if o == Created then created + 1 else created) == Tally(db, keys[..i + 1], data, Created)
      && (if o == Updated then updated + 1 else updated) == Tally(db, keys[..i + 1], data, Updated)
      && (if o == Skipped then skipped + 1 else skipped) == Tally(db, keys[..i + 1], data, Skipped)
  {
    PrefixSnoc(db, keys, data, i, Created);
    PrefixSnoc(db, keys, data, i, Updated);
    PrefixSnoc(db, keys, data, i, Skipped);
  }

  /** The writes and the tally of `o` over one more key. */
  lemma PrefixSnoc(db: map<string, RepDoc>, keys: seq<string>, data: map<string, seq<Rep>>, i: nat, o: Outcome)
    requires i < |keys|
    requires forall z :: z in keys ==> z in data
    ensures forall z :: z in keys[..i] ==> z in data
    ensures forall z :: z in keys[..i + 1] ==> z in data
    ensures WritesFor(db, keys[..i + 1], data) == WritesFor(db, keys[..i], data) + ZipWrites(db, keys[i], data[keys[i]])
    ensures Tally(db, keys[..i + 1], data, o)
         == Tally(db, keys[..i], data, o) + if ZipOutcome(db, keys[i], data[keys[i]]) == o then 1 else 0
  {
    assert keys[..i + 1][..i] == keys[..i];
  }

  /** The body of the loop for a zip whose document `id` was read: the
      document decides between a create, an update with the merged list, and
      a skip. */
  method PlanZip(id: string, doc: Option<RepDoc>, newReps: seq<Rep>) returns (outcome: Outcome, writes: seq<Write>)
    ensures outcome == OutcomeOf(doc, newReps)
    ensures writes == WriteFor(id, doc, newReps)
    ensures |writes| == if outcome == Skipped then 0 else 1
  {
    if doc.Some? {
      var existing := RepsOf(doc.value);
      var merged := MergeRepresentatives(existing, newReps);
      if HasChanges(existing, merged) {
        outcome, writes := Updated, [Update(id, merged)];
      } else {
        outcome, writes := Skipped, [];
      }
    } else {
      outcome, writes := Created, [Create(id, NewDoc(newReps))];
    }
  }

  /** What the loop of `updateFirebaseWithMerge` knows after its first `i` keys:
      the committed batches are full, together with the open batch they are
      the writes planned so far, the store holds what was committed, and the
      counters tally the outcomes so far. */
  ghost predicate Progress(db0: map<string, RepDoc>, keys: seq<string>, data: map<string, seq<Rep>>, i: nat,
                           db: map<string, RepDoc>, commits: seq<seq<Write>>, batch: seq<Write>,
                           created: nat, updated: nat, skipped: nat)
    requires i <= |keys| && forall z :: z in keys ==> z in data
  {
    && |batch| < MaxBatchSize
    && AllFull(commits)
    && Flatten(commits) + batch == WritesFor(db0, keys[..i], data)
    && db == ApplyAll(Apply, db0, Flatten(commits))
    && created == Tally(db0, keys[..i], data, Created)
    && updated == Tally(db0, keys[..i], data, Updated)
    && skipped == Tally(db0, keys[..i], data, Skipped)
  }

  /** One iteration of the loop: resolve and read the zip's document, plan
      its write, count the outcome, and commit the batch when it reaches 500
      writes. A refused id skips all of that. */
  method ProcessZip(db0: map<string, RepDoc>, keys: seq<string>, data: map<string, seq<Rep>>, i: nat,
                    db: map<string, RepDoc>, commits: seq<seq<Write>>, batch: seq<Write>,
                    created: nat, updated: nat, skipped: nat)
    returns (db': map<string, RepDoc>, commits': seq<seq<Write>>, batch': seq<Write>,
             created': nat, updated': nat, skipped': nat)
    requires i < |keys| && DistinctDocs(keys) && forall z :: z in keys ==> z in data
    requires Progress(db0, keys, data, i, db, commits, batch, created, updated, skipped)
    ensures Progress(db0, keys, data, i + 1, db', commits', batch', created', updated', skipped')
  {
    var zip := keys[i];
    var newReps := data[zip];
    var outcome: Outcome, writes: seq<Write>;
    var docRef := DocKey(zip);
    if docRef.None? {
      // `collectionRef.doc(zipCode)` throws; the catch logs and moves on
      outcome, writes := Refused, [];
    } else {
      ReadSeesStart(db0, keys, data, i, Flatten(commits), batch);
      var doc := Lookup(db, docRef.value);
      outcome, writes := PlanZip(docRef.value, doc, newReps);
    }
    assert outcome == ZipOutcome(db0, zip, newReps) && writes == ZipWrites(db0, zip, newReps);
    Processed(db0, keys, data, i, db, commits, batch, created, updated, skipped);
    batch' := batch + writes;
    created', updated', skipped' := created, updated, skipped;
    match outcome {
      case Created => created' := created + 1;
      case Updated => updated' := updated + 1;
      case Skipped => skipped' := skipped + 1;
      case Refused =>
    }
    if |batch'| >= MaxBatchSize {
      db' := ApplyAll(Apply, db, batch');
      commits' := commits + [batch'];
      batch' := [];
    } else {
      db', commits' := db, commits;
    }
  }

  /** Counting the next zip's outcome and adding its writes to the batch
      keeps `Progress`, and so does committing the batch when they fill it. */
  lemma Processed(db0: map<string, RepDoc>, keys: seq<string>, data: map<string, seq<Rep>>, i: nat,
                  db: map<string, RepDoc>, commits: seq<seq<Write>>, batch: seq<Write>,
                  created: nat, updated: nat, skipped: nat)
    requires i < |keys| && forall z :: z in keys ==> z in data
    requires Progress(db0, keys, data, i, db, commits, batch, created, updated, skipped)
    ensures var o := ZipOutcome(db0, keys[i], data[keys[i]]);
      var staged := batch + ZipWrites(db0, keys[i], data[keys[i]]);
      var c := if o == Created then created + 1 else created;
      var u := if o == Updated then updated + 1 else updated;
      var s := if o == Skipped then skipped + 1 else skipped;
      if |staged| < MaxBatchSize then Progress(db0, keys, data, i + 1, db, commits, staged, c, u, s)
      else Progress(db0, keys, data, i + 1, ApplyAll(Apply, db, staged), commits + [staged], [], c, u, s)
  {
    Advance(db0, keys, data, i, Flatten(commits), batch, created, updated, skipped);
    var staged := batch + ZipWrites(db0, keys[i], data[keys[i]]);
    if |staged| >= MaxBatchSize {
      FlushStaged(db0, db, commits, staged);
    }
  }

  /** Committing a batch that has just filled leaves an empty batch, with
      every write so far committed and applied. */
  lemma FlushStaged(db0: map<string, RepDoc>, db: map<string, RepDoc>, commits: seq<seq<Write>>, staged: seq<Write>)
    requires AllFull(commits) && |staged| == MaxBatchSize
    requires db == ApplyAll(Apply, db0, Flatten(commits))
    ensures AllFull(commits + [staged])
    ensures Flatten(commits + [staged]) + [] == Flatten(commits) + staged
    ensures ApplyAll(Apply, db, staged) == ApplyAll(Apply, db0, Flatten(commits + [staged]))
  {
    Flush(Apply, db0, commits, staged);
    assert Flatten(commits + [staged]) + [] == Flatten(commits) + staged;
  }

  /** `updateFirebaseWithMerge`, with the keys in `Object.entries` order. */
  method UpdateFirebaseWithMerge(db0: map<string, RepDoc>, keys: seq<string>, zipBasedData: map<string, seq<Rep>>)
    returns (run: MergeRun)
    requires DistinctDocs(keys)
    requires Distinct(keys) && forall z :: z in keys <==> z in zipBasedData
    ensures run.commits == Chunks(WritesFor(db0, keys, zipBasedData))
    ensures run.db == ApplyAll(Apply, db0, WritesFor(db0, keys, zipBasedData))
    ensures run.newZipCodes == Tally(db0, keys, zipBasedData, Created)
    ensures run.updatedZipCodes == Tally(db0, keys, zipBasedData, Updated)
    ensures run.skippedZipCodes == Tally(db0, keys, zipBasedData, Skipped)
    ensures run.metadata == Summary(run.newZipCodes, run.updatedZipCodes, run.skippedZipCodes, |zipBasedData.Keys|)
    ensures run.newZipCodes + run.updatedZipCodes + run.skippedZipCodes + Tally(db0, keys, zipBasedData, Refused)
          == |zipBasedData.Keys|
  {
    var db := db0;
    var commits: seq<seq<Write>> := [];
    var batch: seq<Write> := [];
    var newZipCodes, updatedZipCodes, skippedZipCodes := 0, 0, 0;
    var i := 0;
    while i < |keys|
      invariant 0 <= i <= |keys|
      invariant Progress(db0, keys, zipBasedData, i, db, commits, batch, newZipCodes, updatedZipCodes, skippedZipCodes)
    {
      db, commits, batch, newZipCodes, updatedZipCodes, skippedZipCodes :=
        ProcessZip(db0, keys, zipBasedData, i, db, commits, batch, newZipCodes, updatedZipCodes, skippedZipCodes);
      i := i + 1;
    }
    assert keys[..i] == keys;
    db, commits := FinalCommit(Apply, db0, db, commits, batch);
    TallyTotals(db0, keys, zipBasedData);
    KeyCount(keys, zipBasedData);
    run := MergeRun(db, commits, newZipCodes, updatedZipCodes, skippedZipCodes,
      Summary(newZipCodes, updatedZipCodes, skippedZipCodes, |zipBasedData.Keys|));
  }

  // ---------------------------------------------------------------------------
  // Properties of a run

  /** Every zip has exactly one outcome: the three counters and the refused
      zips add up to the number of keys, and only creates and updates are
      written. */
  lemma {:induction false} TallyTotals(db: map<string, RepDoc>, keys: seq<string>, data: map<string, seq<Rep>>)
    requires forall z :: z in keys ==> z in data
    ensures Tally(db, keys, data, Created) + Tally(db, keys, data, Updated) + Tally(db, keys, data, Skipped)
          + Tally(db, keys, data, Refused) == |keys|
    ensures |WritesFor(db, keys, data)| == Tally(db, keys, data, Created) + Tally(db, keys, data, Updated)
  {
    if |keys| > 0 {
      TallyTotals(db, keys[..|keys| - 1], data);
    }
  }

  /** The number of commits of a run: ceil(W / 500) for W creates and updates. */
  lemma CommitCount(db: map<string, RepDoc>, keys: seq<string>, data: map<string, seq<Rep>>)
    requires forall z :: z in keys ==> z in data
    ensures |Chunks(WritesFor(db, keys, data))| ==
      CeilDiv(Tally(db, keys, data, Created) + Tally(db, keys, data, Updated), MaxBatchSize)
  {
    TallyTotals(db, keys, data);
    ChunksCount(WritesFor(db, keys, data));
  }

  /** A key that `doc()` refuses adds no write and no count: the run goes on
      as if it were not there. */
  lemma RefusedZipIgnored(db: map<string, RepDoc>, keys: seq<string>, data: map<string, seq<Rep>>, z: string)
    requires (forall k :: k in keys ==> k in data) && z in data && DocKey(z).None?
    ensures forall k :: k in keys + [z] ==> k in data
    ensures WritesFor(db, keys + [z], data) == WritesFor(db, keys, data)
    ensures forall o :: o != Refused ==> Tally(db, keys + [z], data, o) == Tally(db, keys, data, o)
  {
    assert (keys + [z])[..|keys|] == keys;
  }

  /** Plain ids, zip codes among them, are accepted as they are: distinct
      plain keys resolve to distinct documents, their own. */
  lemma PlainKeysResolve(keys: seq<string>)
    requires Distinct(keys) && forall j :: 0 <= j < |keys| ==> PlainId(keys[j])
    ensures forall j :: 0 <= j < |keys| ==> DocKey(keys[j]) == Some(keys[j])
    ensures DistinctDocs(keys)
  {
    forall j | 0 <= j < |keys| ensures DocKey(keys[j]) == Some(keys[j]) {
      PlainIdKey(keys[j]);
    }
  }

  /** The document a zip ends with, given the one it started with. */
  function AfterRun(doc: Option<RepDoc>, incoming: seq<Rep>): (d: RepDoc)
    ensures doc.None? ==> d == NewDoc(incoming)
    ensures doc.Some? ==> doc.value.fields.Keys <= d.fields.Keys
    ensures doc.Some? && d != doc.value ==> d.representatives == Some(Merge(RepsOf(doc.value), incoming))
  {
    match OutcomeOf(doc, incoming)
    case Created => NewDoc(incoming)
    case Updated => UpdatedDoc(doc.value, Merge(RepsOf(doc.value), incoming))
    case Skipped => doc.value
  }

  /** The write issued for a document turns it into `AfterRun` of it. */
  lemma ApplyWriteFor(db: map<string, RepDoc>, id: string, incoming: seq<Rep>)
    ensures Lookup(ApplyAll(Apply, db, WriteFor(id, Lookup(db, id), incoming)), id) == Some(AfterRun(Lookup(db, id), incoming))
  {
    var ws := WriteFor(id, Lookup(db, id), incoming);
    if |ws| == 1 {
      assert ApplyAll(Apply, db, ws) == Apply(db, ws[0]);
    }
  }

  /** A run leaves the documents no key resolves to unchanged. */
  lemma FinalDocsElsewhere(db: map<string, RepDoc>, keys: seq<string>, data: map<string, seq<Rep>>, id: string)
    requires forall k :: k in keys ==> k in data
    requires id !in Docs(keys)
    ensures Lookup(ApplyAll(Apply, db, WritesFor(db, keys, data)), id) == Lookup(db, id)
  {
    WritesTargetKeys(db, keys, data);
    var ws := WritesFor(db, keys, data);
    forall t | 0 <= t < |ws| ensures ws[t].id != id {
      assert ws[t] in ws;
    }
    ApplyAllElsewhere(db, ws, id);
  }

  /** The writes of a run are those of all keys but the last, then the last key's. */
  lemma WritesForSnoc(db: map<string, RepDoc>, keys: seq<string>, data: map<string, seq<Rep>>)
    requires |keys| > 0 && forall k :: k in keys ==> k in data
    ensures forall k :: k in keys[..|keys| - 1] ==> k in data
    ensures ApplyAll(Apply, db, WritesFor(db, keys, data))
         == ApplyAll(Apply, ApplyAll(Apply, db, WritesFor(db, keys[..|keys| - 1], data)),
                     ZipWrites(db, keys[|keys| - 1], data[keys[|keys| - 1]]))
  {
    var init := keys[..|keys| - 1];
    assert forall k :: k in init ==> k in keys;
    ApplyAllAppend(Apply, db, WritesFor(db, init, data), ZipWrites(db, keys[|keys| - 1], data[keys[|keys| - 1]]));
  }

  /** After a run, the document of every accepted zip is the created, updated
      or untouched document its outcome calls for. */
  lemma {:induction false} FinalDocs(db: map<string, RepDoc>, keys: seq<string>, data: map<string, seq<Rep>>, z: string)
    requires DistinctDocs(keys)
    requires forall k :: k in keys ==> k in data
    requires z in keys && DocKey(z).Some?
    ensures Lookup(ApplyAll(Apply, db, WritesFor(db, keys, data)), DocKey(z).value)
         == Some(AfterRun(Lookup(db, DocKey(z).value), data[z]))
  {
    var init := keys[..|keys| - 1];
    var last := keys[|keys| - 1];
    if DocKey(last) == DocKey(z) {
      FinalDocsAtLast(db, keys, data, z);
    } else {
      assert z != last && keys == init + [last];
      assert z in init;
      DistinctDocsSplit(keys);
      FinalDocs(db, init, data, z);
      FinalDocsBeforeLast(db, keys, data, z);
    }
  }

  /** The last key's write is the only one to its document. */
  lemma FinalDocsAtLast(db: map<string, RepDoc>, keys: seq<string>, data: map<string, seq<Rep>>, z: string)
    requires DistinctDocs(keys) && (forall k :: k in keys ==> k in data)
    requires z in keys && DocKey(z).Some? && DocKey(keys[|keys| - 1]) == DocKey(z)
    ensures Lookup(ApplyAll(Apply, db, WritesFor(db, keys, data)), DocKey(z).value)
         == Some(AfterRun(Lookup(db, DocKey(z).value), data[z]))
  {
    var init := keys[..|keys| - 1];
    var last := keys[|keys| - 1];
    var id := DocKey(z).value;
    DistinctDocsSplit(keys);
    WritesForSnoc(db, keys, data);
    OnlyKeyFor(keys, |keys| - 1, z);
    FinalDocsElsewhere(db, init, data, id);
    ApplyWriteFor(ApplyAll(Apply, db, WritesFor(db, init, data)), id, data[last]);
  }

  /** A last key resolving elsewhere leaves the document the earlier keys left. */
  lemma FinalDocsBeforeLast(db: map<string, RepDoc>, keys: seq<string>, data: map<string, seq<Rep>>, z: string)
    requires |keys| > 0 && (forall k :: k in keys ==> k in data)
    requires z in keys && DocKey(z).Some? && DocKey(keys[|keys| - 1]) != DocKey(z)
    requires Lookup(ApplyAll(Apply, db, WritesFor(db, keys[..|keys| - 1], data)), DocKey(z).value)
          == Some(AfterRun(Lookup(db, DocKey(z).value), data[z]))
    ensures Lookup(ApplyAll(Apply, db, WritesFor(db, keys, data)), DocKey(z).value)
         == Some(AfterRun(Lookup(db, DocKey(z).value), data[z]))
  {
    var last := keys[|keys| - 1];
    WritesForSnoc(db, keys, data);
    ApplyAllElsewhere(ApplyAll(Apply, db, WritesFor(db, keys[..|keys| - 1], data)), ZipWrites(db, last, data[last]), DocKey(z).value);
  }

  /** Merging into an empty list appends every incoming entry. */
  lemma {:induction false} MergeIntoEmpty(incoming: seq<Rep>)
    ensures Merge([], incoming) == incoming
  {
    if |incoming| > 0 {
      var init := incoming[..|incoming| - 1];
      MergeIntoEmpty(init);
      assert init + [incoming[|incoming| - 1]] == incoming;
      MergeSnoc([], init, incoming[|incoming| - 1]);
    }
  }

  /** Each zip document ends in a state the same input leaves alone. */
  lemma RunSettles(doc: Option<RepDoc>, incoming: seq<Rep>)
    requires UniqueKeys(incoming)
    requires doc.Some? ==> UniqueKeys(RepsOf(doc.value))
    ensures OutcomeOf(Some(AfterRun(doc, incoming)), incoming) == Skipped
  {
    match OutcomeOf(doc, incoming)
    case Created =>
      MergeIntoEmpty(incoming);
      MergeIdempotent([], incoming);
    case Updated =>
      MergeIdempotent(RepsOf(doc.value), incoming);
    case Skipped =>
  }

  /** Idempotence of the whole run: when every incoming and every stored list
      has unique (type, district) keys, running again with the same data on
      the resulting store issues no write at all. */
  lemma RerunWritesNothing(db: map<string, RepDoc>, keys: seq<string>, data: map<string, seq<Rep>>)
    requires DistinctDocs(keys)
    requires forall z :: z in keys ==> z in data && UniqueKeys(data[z])
    requires forall id :: id in db ==> UniqueKeys(RepsOf(db[id]))
    ensures WritesFor(ApplyAll(Apply, db, WritesFor(db, keys, data)), keys, data) == []
  {
    var db1 := ApplyAll(Apply, db, WritesFor(db, keys, data));
    forall z | z in keys ensures ZipWrites(db1, z, data[z]) == [] {
      if DocKey(z).Some? {
        var id := DocKey(z).value;
        FinalDocs(db, keys, data, z);
        RunSettles(Lookup(db, id), data[z]);
      }
    }
    NoWrites(db1, keys, data);
  }

  lemma {:induction false} NoWrites(db: map<string, RepDoc>, keys: seq<string>, data: map<string, seq<Rep>>)
    requires forall z :: z in keys ==> z in data && ZipWrites(db, z, data[z]) == []
    ensures WritesFor(db, keys, data) == []
  {
    if |keys| > 0 {
      var init := keys[..|keys| - 1];
      assert forall z :: z in init ==> z in keys;
      NoWrites(db, init, data);
    }
  }
}
