/** upload_contact_lists_to_firestore.js: each file named by the manifest is
    stored in `contact_lists` under an id derived from its file name, then a
    metadata document lists the manifest. Writes are awaited one at a time
    and a failure ends the script with exit code 1, keeping the writes
    already made. */
module ContactLists {
  import opened JsValues
  import opened DocPaths

  const JsonExtension := ".json"

  /** What a run leaves behind: the `contact_lists` collection, the metadata
      document (absent when the run failed) and the exit code. */
  datatype ContactRun = ContactRun(db: map<string, Fields>, metadata: Option<Fields>, exitCode: nat)

  /** `pat` occurs in `s` starting at position `j`. */
  predicate OccursAt(s: string, pat: string, j: nat) {
    j + |pat| <= |s| && s[j..j + |pat|] == pat
  }

  /** `s.indexOf(pat, from)`: the first position at or after `from` where `pat` occurs. */
  function IndexFrom(s: string, pat: string, from: nat): (r: Option<nat>)
    requires from <= |s|
    ensures r.Some? ==> from <= r.value && OccursAt(s, pat, r.value)
    ensures r.Some? ==> forall j :: from <= j < r.value ==> !OccursAt(s, pat, j)
    ensures r.None? ==> forall j :: from <= j ==> !OccursAt(s, pat, j)
    decreases |s| - from
  {
    if |s| < from + |pat| then None
    else if OccursAt(s, pat, from) then Some(from)
    else if from == |s| then None
    else IndexFrom(s, pat, from + 1)
  }

  /** `s.indexOf(pat)`. */
  function IndexOf(s: string, pat: string): Option<nat> {
    IndexFrom(s, pat, 0)
  }

  /** `s.replace(pat, '')` with a string pattern: the first occurrence of
      `pat`, scanning from the left, is removed. */
  function RemoveFirst(s: string, pat: string): string
    decreases |s|
  {
    if |s| < |pat| then s
    else if s[..|pat|] == pat then s[|pat|..]
    else [s[0]] + RemoveFirst(s[1..], pat)
  }

  /** `filename.replace('.json', '')`. */
  function ListId(filename: string): (id: string)
    ensures |id| == |filename| || |id| + 5 == |filename|
  {
    RemoveFirstAtIndexOf(filename, JsonExtension);
    RemoveFirst(filename, JsonExtension)
  }

  /** The document stored for one list. */
  function ListDoc(reps: seq<JsValue>): (d: Fields)
    ensures d.Keys == {"reps", "lastUpdated", "repCount"} && d["repCount"] == Plain(Num(|reps|))
  {
    map["reps" := Plain(Arr(reps)), "lastUpdated" := ServerTimestamp, "repCount" := Plain(Num(|reps|))]
  }

  /** The `contact_lists_metadata/upload_info` document written after every list is stored. */
  function Metadata(manifest: seq<string>): (m: Fields)
    ensures m.Keys == {"lastUploadDate", "totalLists", "uploadedBy", "lists"}
    ensures m["lastUploadDate"] == ServerTimestamp && m["totalLists"] == Plain(Num(|manifest|))
    ensures m["uploadedBy"] == Plain(Str("admin_script"))
  {
    map[
      "lastUploadDate" := ServerTimestamp,
      "totalLists" := Plain(Num(|manifest|)),
      "uploadedBy" := Plain(Str("admin_script")),
      "lists" := Plain(Arr(seq(|manifest|, i requires 0 <= i < |manifest| => Str(manifest[i]))))]
  }

  /** The document `doc(ListId(filename))` refers to, if `doc()` accepts the id. */
  function ListKey(filename: string): Option<string> {
    DocKey(ListId(filename))
  }

  /** The file of `f` can be read and its id names a document. */
  predicate Accepted(f: string, files: map<string, seq<JsValue>>) {
    f in files && ListKey(f).Some?
  }

  /** Every entry is accepted. */
  predicate Uploadable(filenames: seq<string>, files: map<string, seq<JsValue>>)
    decreases |filenames|
  {
    |filenames| == 0
    || (Uploadable(filenames[..|filenames| - 1], files) && Accepted(filenames[|filenames| - 1], files))
  }

  lemma {:induction false} UploadableAppend(a: seq<string>, b: seq<string>, files: map<string, seq<JsValue>>)
    ensures Uploadable(a + b, files) <==> Uploadable(a, files) && Uploadable(b, files)
    decreases |b|
  {
    if |b| == 0 {
      assert a + b == a;
    } else {
      var init := b[..|b| - 1];
      assert (a + b)[..|a + b| - 1] == a + init;
      UploadableAppend(a, init, files);
    }
  }

  lemma UploadableOne(f: string, files: map<string, seq<JsValue>>)
    ensures Uploadable([f], files) <==> Accepted(f, files)
  {
    assert [f][..0] == [];
  }

  /** Every entry of an uploadable manifest is accepted. */
  lemma {:induction false} UploadableAt(filenames: seq<string>, files: map<string, seq<JsValue>>, j: nat)
    requires Uploadable(filenames, files) && j < |filenames|
    ensures Accepted(filenames[j], files)
    decreases |filenames|
  {
    if j < |filenames| - 1 {
      UploadableAt(filenames[..|filenames| - 1], files, j);
    }
  }

  /** An accepted first entry before an uploadable run gives an uploadable prefix. */
  lemma ConsPrefix(filenames: seq<string>, files: map<string, seq<JsValue>>, k: nat)
    requires k < |filenames| && Accepted(filenames[0], files) && Uploadable(filenames[1..][..k], files)
    ensures Uploadable(filenames[..k + 1], files)
  {
    UploadableOne(filenames[0], files);
    UploadableAppend([filenames[0]], filenames[1..][..k], files);
    assert filenames[..k + 1] == [filenames[0]] + filenames[1..][..k];
  }

  /** An uploadable prefix starts with an accepted entry and continues uploadable. */
  lemma UnconsPrefix(filenames: seq<string>, files: map<string, seq<JsValue>>, i: nat)
    requires 0 < i <= |filenames| && Uploadable(filenames[..i], files)
    ensures Accepted(filenames[0], files) && Uploadable(filenames[1..][..i - 1], files)
  {
    assert filenames[..i] == [filenames[0]] + filenames[1..][..i - 1];
    UploadableAppend([filenames[0]], filenames[1..][..i - 1], files);
    UploadableOne(filenames[0], files);
  }

  /** An entry that fails after a run of uploadable ones is the first failing one. */
  lemma {:induction false} FirstFailingAt(filenames: seq<string>, files: map<string, seq<JsValue>>, i: nat)
    requires i < |filenames| && Uploadable(filenames[..i], files)
    requires !Accepted(filenames[i], files)
    ensures FirstFailing(filenames, files) == Some(i)
    decreases i
  {
    if i > 0 {
      UnconsPrefix(filenames, files, i);
      FirstFailingAt(filenames[1..], files, i - 1);
    }
  }

  /** The collection after setting the lists of the given files in order. */
  function SetAll(db: map<string, Fields>, filenames: seq<string>, files: map<string, seq<JsValue>>): (r: map<string, Fields>)
    requires Uploadable(filenames, files)
    ensures db.Keys <= r.Keys
  {
    if |filenames| == 0 then db
    else
      var f := filenames[|filenames| - 1];
      SetAll(db, filenames[..|filenames| - 1], files)[ListKey(f).value := ListDoc(files[f])]
  }

  /** The index of the first manifest entry whose file cannot be read or
      whose id `doc()` refuses. */
  function FirstFailing(filenames: seq<string>, files: map<string, seq<JsValue>>): (r: Option<nat>)
    ensures r.Some? ==> (r.value < |filenames|
                         && !Accepted(filenames[r.value], files)
                         && Uploadable(filenames[..r.value], files))
    ensures r.None? ==> Uploadable(filenames, files)
  {
    if |filenames| == 0 then None
    else if !Accepted(filenames[0], files) then Some(0)
    else match FirstFailing(filenames[1..], files) {
      case None =>
        assert filenames[1..][..|filenames| - 1] == filenames[1..];
        ConsPrefix(filenames, files, |filenames| - 1);
        assert filenames[..|filenames|] == filenames;
        None
      case Some(k) =>
        ConsPrefix(filenames, files, k);
        Some(k + 1)
    }
  }

  /** A manifest whose entries are all accepted has no failing entry. */
  lemma {:induction false} UploadableNotFailing(filenames: seq<string>, files: map<string, seq<JsValue>>)
    requires Uploadable(filenames, files)
    ensures FirstFailing(filenames, files).None?
    decreases |filenames|
  {
    if |filenames| > 0 {
      UploadableAt(filenames, files, 0);
      assert filenames == [filenames[0]] + filenames[1..];
      UploadableAppend([filenames[0]], filenames[1..], files);
      UploadableNotFailing(filenames[1..], files);
    }
  }

  /** The documents the manifest entries are written to, in order. */
  function KeysOf(filenames: seq<string>, files: map<string, seq<JsValue>>): (keys: seq<string>)
    requires Uploadable(filenames, files)
    ensures |keys| == |filenames|
  {
    if |filenames| == 0 then []
    else KeysOf(filenames[..|filenames| - 1], files) + [ListKey(filenames[|filenames| - 1]).value]
  }

  /** Entry `j` is written to the document its own id names. */
  lemma {:induction false} KeysOfAt(filenames: seq<string>, files: map<string, seq<JsValue>>, j: nat)
    requires Uploadable(filenames, files) && j < |filenames|
    ensures ListKey(filenames[j]).Some? && KeysOf(filenames, files)[j] == ListKey(filenames[j]).value
    decreases |filenames|
  {
    if j < |filenames| - 1 {
      KeysOfAt(filenames[..|filenames| - 1], files, j);
    }
  }

  /** One more accepted entry extends the uploaded prefix by its `set`. */
  lemma Uploaded(db0: map<string, Fields>, manifest: seq<string>, files: map<string, seq<JsValue>>, i: nat)
    requires i < |manifest| && Uploadable(manifest[..i], files) && Accepted(manifest[i], files)
    ensures Uploadable(manifest[..i + 1], files)
    ensures SetAll(db0, manifest[..i + 1], files)
         == SetAll(db0, manifest[..i], files)[ListKey(manifest[i]).value := ListDoc(files[manifest[i]])]
  {
    assert manifest[..i + 1][..i] == manifest[..i];
  }

  /** The upload loop: one awaited `set` per manifest entry, then the metadata. */
  method UploadContactLists(db0: map<string, Fields>, manifest: seq<string>, files: map<string, seq<JsValue>>)
    returns (run: ContactRun)
    ensures FirstFailing(manifest, files).Some? ==>
      var k := FirstFailing(manifest, files).value;
      run == ContactRun(SetAll(db0, manifest[..k], files), None, 1)
    ensures FirstFailing(manifest, files).None? ==>
      run == ContactRun(SetAll(db0, manifest, files), Some(Metadata(manifest)), 0)
  {
    var db := db0;
    var i := 0;
    while i < |manifest|
      invariant 0 <= i <= |manifest|
      invariant Uploadable(manifest[..i], files)
      invariant db == SetAll(db0, manifest[..i], files)
    {
      var filename := manifest[i];
      var listId := ListId(filename);
      var key := DocKey(listId);
      if filename !in files || key.None? {
        // the file read rejects, or `doc(listId)` throws: the catch exits with code 1
        FirstFailingAt(manifest, files, i);
        return ContactRun(db, None, 1);
      }
      var reps := files[filename];
      Uploaded(db0, manifest, files, i);
      db := db[key.value := ListDoc(reps)];
      i := i + 1;
    }
    assert manifest[..i] == manifest;
    UploadableNotFailing(manifest, files);
    run := ContactRun(db, Some(Metadata(manifest)), 0);
  }

  // ---------------------------------------------------------------------------
  // Properties

  lemma OccursShift(s: string, pat: string, j: nat)
    requires |s| > 0
    ensures OccursAt(s, pat, j + 1) <==> OccursAt(s[1..], pat, j)
  {
    if j + 1 + |pat| <= |s| {
      assert s[j + 1..j + 1 + |pat|] == s[1..][j..j + |pat|];
    }
  }

  /** Searching `s` from `from + 1` finds one position later than searching
      `s[1..]` from `from`. */
  lemma {:induction false} IndexFromShift(s: string, pat: string, from: nat)
    requires from < |s|
    ensures IndexFrom(s[1..], pat, from).None? ==> IndexFrom(s, pat, from + 1).None?
    ensures IndexFrom(s[1..], pat, from).Some? ==>
      IndexFrom(s, pat, from + 1) == Some(IndexFrom(s[1..], pat, from).value + 1)
    decreases |s| - from
  {
    OccursShift(s, pat, from);
    if |s| >= from + 1 + |pat| && !OccursAt(s, pat, from + 1) && from + 1 < |s| {
      IndexFromShift(s, pat, from + 1);
    }
  }

  lemma SpliceCons(s: string, k: nat, n: nat)
    requires k + 1 + n <= |s|
    ensures [s[0]] + (s[1..][..k] + s[1..][k + n..]) == s[..k + 1] + s[k + 1 + n..]
  {
  }

  /** When `pat` does not start `s`, `indexOf` finds it one position later
      than in the tail of `s`. */
  lemma IndexOfTail(s: string, pat: string)
    requires |s| >= |pat| && s[..|pat|] != pat
    ensures IndexOf(s[1..], pat).None? ==> IndexOf(s, pat).None?
    ensures IndexOf(s[1..], pat).Some? ==> IndexOf(s, pat) == Some(IndexOf(s[1..], pat).value + 1)
  {
    assert !OccursAt(s, pat, 0) by {
      assert s[0..|pat|] == s[..|pat|];
    }
    assert IndexOf(s, pat) == IndexFrom(s, pat, 1);
    IndexFromShift(s, pat, 0);
  }

  /** Removing the first occurrence splices `s` around the position `indexOf`
      finds, and leaves `s` unchanged when `indexOf` finds none. */
  lemma {:induction false} RemoveFirstAtIndexOf(s: string, pat: string)
    ensures IndexOf(s, pat).None? ==> RemoveFirst(s, pat) == s
    ensures IndexOf(s, pat).Some? ==>
      RemoveFirst(s, pat) == s[..IndexOf(s, pat).value] + s[IndexOf(s, pat).value + |pat|..]
    decreases |s|
  {
    if |s| >= |pat| {
      if s[..|pat|] == pat {
        assert OccursAt(s, pat, 0);
        assert s[..0] + s[|pat|..] == s[|pat|..];
      } else {
        var t := s[1..];
        assert RemoveFirst(s, pat) == [s[0]] + RemoveFirst(t, pat);
        IndexOfTail(s, pat);
        RemoveFirstAtIndexOf(t, pat);
        if IndexOf(t, pat).Some? {
          SpliceCons(s, IndexOf(t, pat).value, |pat|);
        } else {
          assert [s[0]] + t == s;
        }
      }
    }
  }

  /** A file name without ".json" is its own id. */
  lemma ListIdWithoutExtension(filename: string)
    requires forall j: nat :: !OccursAt(filename, JsonExtension, j)
    ensures ListId(filename) == filename
  {
    RemoveFirstAtIndexOf(filename, JsonExtension);
  }

  lemma NoSecondDot(d: nat)
    requires 0 < d < |JsonExtension|
    ensures JsonExtension[d] != '.'
  {
  }

  /** A name ending in ".json", with no other occurrence, loses exactly that suffix. */
  lemma ListIdStripsSuffix(base: string)
    requires forall j: nat :: !OccursAt(base, JsonExtension, j)
    ensures ListId(base + JsonExtension) == base
  {
    var f := base + JsonExtension;
    RemoveFirstAtIndexOf(f, JsonExtension);
    assert OccursAt(f, JsonExtension, |base|);
    forall j | 0 <= j < |base| ensures !OccursAt(f, JsonExtension, j) {
      if j + |JsonExtension| <= |base| {
        assert f[j..j + |JsonExtension|] == base[j..j + |JsonExtension|];
        assert !OccursAt(base, JsonExtension, j);
      } else {
        // an occurrence straddling the end of `base` would need a second
        // '.' inside ".json"
        var d := |base| - j;
        NoSecondDot(d);
        assert f[j..j + |JsonExtension|][d] == f[|base|] == '.';
      }
    }
    assert IndexOf(f, JsonExtension) == Some(|base|);
    assert f[..|base|] == base;
    assert f[|base| + |JsonExtension|..] == [];
  }

  /** Only the first ".json" is removed: "a.json.json" becomes "a.json". */
  lemma DoubleExtension()
    ensures ListId("a.json.json") == "a.json"
  {
    RemoveFirstAtIndexOf("a.json.json", JsonExtension);
    assert "a.json.json"[0..5][0] != JsonExtension[0];
    assert OccursAt("a.json.json", JsonExtension, 1);
    assert IndexOf("a.json.json", JsonExtension) == Some(1);
    assert "a.json.json"[..1] + "a.json.json"[6..] == "a.json";
  }

  /** One more entry: its id goes last, and its write lands on what the
      entries before it left. */
  lemma SetAllSnoc(db: map<string, Fields>, filenames: seq<string>, files: map<string, seq<JsValue>>)
    requires Uploadable(filenames, files) && |filenames| > 0
    ensures var init, last := filenames[..|filenames| - 1], filenames[|filenames| - 1];
      && Uploadable(init, files) && Accepted(last, files)
      && KeysOf(filenames, files) == KeysOf(init, files) + [ListKey(last).value]
      && SetAll(db, filenames, files) == SetAll(db, init, files)[ListKey(last).value := ListDoc(files[last])]
  {
  }

  /** After setting the lists, the document under `key` is the list of the
      LAST entry resolving to it; documents no entry resolves to are kept. */
  lemma {:induction false} LaterEntryWins(db: map<string, Fields>, filenames: seq<string>,
                                          files: map<string, seq<JsValue>>, key: string)
    requires Uploadable(filenames, files)
    ensures LastWith(KeysOf(filenames, files), key).Some? ==>
      (key in SetAll(db, filenames, files)
       && filenames[LastWith(KeysOf(filenames, files), key).value] in files
       && SetAll(db, filenames, files)[key] == ListDoc(files[filenames[LastWith(KeysOf(filenames, files), key).value]]))
    ensures LastWith(KeysOf(filenames, files), key).None? ==> (key in SetAll(db, filenames, files) <==> key in db)
    ensures LastWith(KeysOf(filenames, files), key).None? && key in db ==> SetAll(db, filenames, files)[key] == db[key]
  {
    if |filenames| > 0 {
      var init := filenames[..|filenames| - 1];
      var last := filenames[|filenames| - 1];
      var keys := KeysOf(filenames, files);
      SetAllSnoc(db, filenames, files);
      assert keys[..|filenames| - 1] == KeysOf(init, files);
      if ListKey(last).value == key {
        assert LastWith(keys, key) == Some(|filenames| - 1);
      } else {
        assert LastWith(keys, key) == LastWith(KeysOf(init, files), key);
        LaterEntryWins(db, init, files, key);
        if LastWith(keys, key).Some? {
          assert filenames[LastWith(keys, key).value] == init[LastWith(keys, key).value];
        }
      }
    }
  }

  /** `base.json`, with a plain base that holds no ".json", is stored under
      the document `base`. */
  lemma PlainListKey(base: string)
    requires PlainId(base)
    requires forall j: nat :: !OccursAt(base, JsonExtension, j)
    ensures ListKey(base + JsonExtension) == Some(base)
  {
    ListIdStripsSuffix(base);
    PlainIdKey(base);
  }

  /** The file name ".json" gives the empty id, which `doc()` refuses: the
      run stops there with exit code 1. */
  lemma BareExtensionRejected()
    ensures ListId(JsonExtension) == ""
    ensures ListKey(JsonExtension).None?
  {
    assert OccursAt(JsonExtension, JsonExtension, 0);
  }

  /** A file in a sub-folder, "dir/a.json", gives the id "dir/a", which names
      a collection rather than a document: the run stops there. */
  lemma FolderNameRejected(dir: string, base: string)
    requires PlainId(dir) && PlainId(base)
    requires forall j: nat :: !OccursAt(dir + "/" + base, JsonExtension, j)
    ensures ListKey(dir + "/" + base + JsonExtension).None?
  {
    ListIdStripsSuffix(dir + "/" + base);
    OneSlashRejected(dir, base);
  }

  /** Every stored list records the number of its representatives. */
  lemma RepCountMatches(reps: seq<JsValue>)
    ensures ListDoc(reps)["repCount"] == Plain(Num(|reps|))
    ensures ListDoc(reps)["reps"] == Plain(Arr(reps))
    ensures ListDoc(reps).Keys == {"reps", "lastUpdated", "repCount"}
  {
  }

  /** The metadata lists the manifest verbatim and counts its entries. */
  lemma MetadataListsManifest(manifest: seq<string>)
    ensures Metadata(manifest)["totalLists"] == Plain(Num(|manifest|))
    ensures Metadata(manifest)["lists"].v.Arr? && |Metadata(manifest)["lists"].v.items| == |manifest|
    ensures forall i :: 0 <= i < |manifest| ==> Metadata(manifest)["lists"].v.items[i] == Str(manifest[i])
  {
  }
}
