/** Reconciling the representatives stored for one zip code with incoming ones
    (`mergeRepresentatives` and `hasChanges` in update_firebase_with_district_data.js).
    Entries are identified by (type, district); the JS property `type` is
    called `office` here. */
module RepMerge {
  import opened JsValues

  /** A representative entry. The four core fields may be absent (`None`,
      JS `undefined`); any other properties are kept in `extra`. */
  datatype Rep = Rep(
    office: Option<string>,
    district: Option<string>,
    name: Option<string>,
    party: Option<string>,
    email: Option<string>,
    phone: Option<string>,
    extra: map<string, JsValue>)

  datatype Key = Key(office: Option<string>, district: Option<string>)

  function KeyOf(r: Rep): Key {
    Key(r.office, r.district)
  }

  /** `reps.findIndex(r => r.type === k.type && r.district === k.district)`. */
  function FindIndex(reps: seq<Rep>, k: Key): (i: int)
    ensures -1 <= i < |reps|
    ensures 0 <= i ==> KeyOf(reps[i]) == k && forall j :: 0 <= j < i ==> KeyOf(reps[j]) != k
    ensures i == -1 <==> forall j :: 0 <= j < |reps| ==> KeyOf(reps[j]) != k
  {
    if |reps| == 0 then -1
    else if KeyOf(reps[0]) == k then 0
    else
      var j := FindIndex(reps[1..], k);
      if j < 0 then -1 else j + 1
  }

  predicate UniqueKeys(reps: seq<Rep>) {
    forall a, b :: 0 <= a < b < |reps| ==> KeyOf(reps[a]) != KeyOf(reps[b])
  }

  /** The entry stored at a matched position: each core field keeps the
      existing value when it is truthy and otherwise takes the incoming one;
      type, district and every other existing property are kept. (The source
      spreads `existing` twice; the last spreads decide, with this result.) */
  function Fill(existing: Rep, incoming: Rep): (r: Rep)
    ensures KeyOf(r) == KeyOf(existing) && r.extra == existing.extra
    ensures TruthyText(existing.name) ==> r.name == existing.name
    ensures TruthyText(existing.party) ==> r.party == existing.party
    ensures TruthyText(existing.email) ==> r.email == existing.email
    ensures TruthyText(existing.phone) ==> r.phone == existing.phone
  {
    existing.(
      name := OrText(existing.name, incoming.name),
      party := OrText(existing.party, incoming.party),
      email := OrText(existing.email, incoming.email),
      phone := OrText(existing.phone, incoming.phone))
  }

  /** Index of the last incoming entry whose key is first found at position `i`
      of the existing list: the one whose values end up at `merged[i]`. */
  function LastMatch(existing: seq<Rep>, incoming: seq<Rep>, i: int): (r: Option<nat>)
    ensures r.Some? ==> r.value < |incoming| && FindIndex(existing, KeyOf(incoming[r.value])) == i
    ensures r.Some? ==> forall j :: r.value < j < |incoming| ==> FindIndex(existing, KeyOf(incoming[j])) != i
    ensures r.None? <==> forall j :: 0 <= j < |incoming| ==> FindIndex(existing, KeyOf(incoming[j])) != i
  {
    if |incoming| == 0 then None
    else if FindIndex(existing, KeyOf(incoming[|incoming| - 1])) == i then Some(|incoming| - 1)
    else LastMatch(existing, incoming[..|incoming| - 1], i)
  }

  /** The incoming entries whose key is not in the existing list, in incoming
      order and with repetitions: these are appended verbatim. */
  function Unmatched(existing: seq<Rep>, incoming: seq<Rep>): (u: seq<Rep>)
    ensures |u| <= |incoming|
    ensures forall r :: r in u ==> r in incoming && FindIndex(existing, KeyOf(r)) == -1
    ensures forall j :: 0 <= j < |incoming| && FindIndex(existing, KeyOf(incoming[j])) == -1 ==> incoming[j] in u
  {
    if |incoming| == 0 then []
    else
      var last := incoming[|incoming| - 1];
      Unmatched(existing, incoming[..|incoming| - 1]) + (if FindIndex(existing, KeyOf(last)) == -1 then [last] else [])
  }

  /** The entry at existing position `i` after the merge. */
  function MergedAt(existing: seq<Rep>, incoming: seq<Rep>, i: int): (r: Rep)
    requires 0 <= i < |existing|
    ensures KeyOf(r) == KeyOf(existing[i]) && r.extra == existing[i].extra
    ensures LastMatch(existing, incoming, i).None? ==> r == existing[i]
  {
    match LastMatch(existing, incoming, i)
    case None => existing[i]
    case Some(j) => Fill(existing[i], incoming[j])
  }

  /** The existing positions, each filled from the last incoming entry that matches it. */
  function Filled(existing: seq<Rep>, incoming: seq<Rep>): (r: seq<Rep>)
    ensures |r| == |existing|
  {
    seq(|existing|, i requires 0 <= i < |existing| => MergedAt(existing, incoming, i))
  }

  /** The result of merging: the existing positions, filled from the last
      incoming entry that matches each, then the unmatched incoming entries. */
  function Merge(existing: seq<Rep>, incoming: seq<Rep>): (r: seq<Rep>)
    ensures |existing| <= |r| <= |existing| + |incoming|
  {
    Filled(existing, incoming) + Unmatched(existing, incoming)
  }

  lemma LastMatchSnoc(existing: seq<Rep>, incoming: seq<Rep>, rep: Rep, i: int)
    ensures LastMatch(existing, incoming + [rep], i) ==
      if FindIndex(existing, KeyOf(rep)) == i then Some(|incoming|) else LastMatch(existing, incoming, i)
  {
    assert (incoming + [rep])[..|incoming|] == incoming;
  }

  lemma UnmatchedSnoc(existing: seq<Rep>, incoming: seq<Rep>, rep: Rep)
    ensures Unmatched(existing, incoming + [rep]) ==
      Unmatched(existing, incoming) + if FindIndex(existing, KeyOf(rep)) == -1 then [rep] else []
  {
    assert (incoming + [rep])[..|incoming|] == incoming;
  }

  /** Merging one more incoming entry: it fills its match in the original
      list, or is appended when there is none. */
  lemma MergeSnoc(existing: seq<Rep>, incoming: seq<Rep>, rep: Rep)
    ensures var idx := FindIndex(existing, KeyOf(rep));
      Merge(existing, incoming + [rep]) ==
        if idx >= 0 then Merge(existing, incoming)[idx := Fill(existing[idx], rep)]
        else Merge(existing, incoming) + [rep]
  {
    var idx := FindIndex(existing, KeyOf(rep));
    if idx >= 0 {
      MergeSnocMatched(existing, incoming, rep, idx);
    } else {
      MergeSnocAppended(existing, incoming, rep);
    }
  }

  /** One more incoming entry changes only the existing position it matches. */
  lemma FilledSnocAt(existing: seq<Rep>, incoming: seq<Rep>, rep: Rep, i: int)
    requires 0 <= i < |existing|
    ensures |Filled(existing, incoming)| == |Filled(existing, incoming + [rep])| == |existing|
    ensures Filled(existing, incoming + [rep])[i] ==
      if FindIndex(existing, KeyOf(rep)) == i then Fill(existing[i], rep) else Filled(existing, incoming)[i]
  {
    LastMatchSnoc(existing, incoming, rep, i);
  }

  lemma FilledSnocMatched(existing: seq<Rep>, incoming: seq<Rep>, rep: Rep, idx: int)
    requires 0 <= idx < |existing| && FindIndex(existing, KeyOf(rep)) == idx
    ensures Filled(existing, incoming + [rep]) == Filled(existing, incoming)[idx := Fill(existing[idx], rep)]
  {
    var f := Filled(existing, incoming);
    var f2 := Filled(existing, incoming + [rep]);
    FilledSnocAt(existing, incoming, rep, idx);
    forall i | 0 <= i < |existing| ensures f2[i] == f[idx := Fill(existing[idx], rep)][i] {
      FilledSnocAt(existing, incoming, rep, i);
    }
  }

  lemma UpdateLeft(a: seq<Rep>, b: seq<Rep>, i: int, v: Rep)
    requires 0 <= i < |a|
    ensures (a + b)[i := v] == a[i := v] + b
  {
  }

  lemma MergeSnocMatched(existing: seq<Rep>, incoming: seq<Rep>, rep: Rep, idx: int)
    requires 0 <= idx && FindIndex(existing, KeyOf(rep)) == idx
    ensures Merge(existing, incoming + [rep]) == Merge(existing, incoming)[idx := Fill(existing[idx], rep)]
  {
    var f, u := Filled(existing, incoming), Unmatched(existing, incoming);
    var v := Fill(existing[idx], rep);
    UnmatchedSnoc(existing, incoming, rep);
    assert Unmatched(existing, incoming + [rep]) == u;
    FilledSnocMatched(existing, incoming, rep, idx);
    UpdateLeft(f, u, idx, v);
    assert Merge(existing, incoming + [rep]) == f[idx := v] + u;
  }

  lemma MergeSnocAppended(existing: seq<Rep>, incoming: seq<Rep>, rep: Rep)
    requires FindIndex(existing, KeyOf(rep)) == -1
    ensures Merge(existing, incoming + [rep]) == Merge(existing, incoming) + [rep]
  {
    var after := incoming + [rep];
    UnmatchedSnoc(existing, incoming, rep);
    var f := Filled(existing, incoming);
    var f2 := Filled(existing, after);
    assert |f| == |f2| == |existing|;
    forall i | 0 <= i < |existing| ensures f2[i] == f[i] {
      FilledSnocAt(existing, incoming, rep, i);
    }
    assert f2 == f;
    assert f + (Unmatched(existing, incoming) + [rep]) == (f + Unmatched(existing, incoming)) + [rep];
  }

  /** The two parts of a merged list. */
  lemma MergeParts(existing: seq<Rep>, incoming: seq<Rep>)
    ensures |Merge(existing, incoming)| == |existing| + |Unmatched(existing, incoming)|
    ensures forall i :: 0 <= i < |existing| ==>
      Merge(existing, incoming)[i] == MergedAt(existing, incoming, i)
      && KeyOf(Merge(existing, incoming)[i]) == KeyOf(existing[i])
    ensures Merge(existing, incoming)[|existing|..] == Unmatched(existing, incoming)
  {
  }

  lemma MergeNothing(existing: seq<Rep>)
    ensures Merge(existing, []) == existing
  {
    MergeParts(existing, []);
  }

  /** One iteration of the merge loop. */
  lemma MergeStep(existing: seq<Rep>, incoming: seq<Rep>, k: int)
    requires 0 <= k < |incoming|
    ensures var idx, merged := FindIndex(existing, KeyOf(incoming[k])), Merge(existing, incoming[..k]);
      if idx >= 0 then idx < |merged| && Merge(existing, incoming[..k + 1]) == merged[idx := Fill(existing[idx], incoming[k])]
      else Merge(existing, incoming[..k + 1]) == merged + [incoming[k]]
  {
    var prefix, rep := incoming[..k], incoming[k];
    assert incoming[..k + 1] == prefix + [rep];
    var idx := FindIndex(existing, KeyOf(rep));
    if idx >= 0 {
      MergeSnocMatched(existing, prefix, rep, idx);
    } else {
      MergeSnocAppended(existing, prefix, rep);
    }
  }

  /** `mergeRepresentatives`: copy the existing list, then for each incoming
      entry overwrite its match (looked up in the original list) with the
      filled entry, or push it. */
  method MergeRepresentatives(existing: seq<Rep>, incoming: seq<Rep>) returns (merged: seq<Rep>)
    ensures merged == Merge(existing, incoming)
  {
    merged := existing;
    var k := 0;
    assert incoming[..0] == [];
    MergeNothing(existing);
    while k < |incoming|
      invariant 0 <= k <= |incoming|
      invariant merged == Merge(existing, incoming[..k])
    {
      var rep := incoming[k];
      var idx := FindIndex(existing, KeyOf(rep));
      MergeStep(existing, incoming, k);
      if idx >= 0 {
        merged := merged[idx := Fill(existing[idx], rep)];
      } else {
        merged := merged + [rep];
      }
      k := k + 1;
    }
    assert incoming[..k] == incoming;
  }

  predicate CoreDiffers(a: Rep, b: Rep) {
    a.name != b.name || a.party != b.party || a.email != b.email || a.phone != b.phone
  }

  /** What the loop of `hasChanges` tests for one original entry: the first
      merged entry with its key is missing or differs in a core field. */
  predicate EntryChanged(original: Rep, merged: seq<Rep>) {
    var j := FindIndex(merged, KeyOf(original));
    j < 0 || CoreDiffers(original, merged[j])
  }

  /** The loop of `hasChanges` from index `from` on. */
  function AnyEntryChanged(original: seq<Rep>, merged: seq<Rep>, from: nat): (r: bool)
    ensures r <==> exists i :: from <= i < |original| && EntryChanged(original[i], merged)
    decreases |original| - from
  {
    if from >= |original| then false
    else EntryChanged(original[from], merged) || AnyEntryChanged(original, merged, from + 1)
  }

  /** `hasChanges`: the lengths differ, or some original entry has no merged
      entry with its key, or the first such entry differs in name, party,
      email or phone. Other properties and the order are not compared. */
  function HasChanges(original: seq<Rep>, merged: seq<Rep>): (r: bool)
    ensures r <==> |original| != |merged| || exists i :: 0 <= i < |original| && EntryChanged(original[i], merged)
  {
    |original| != |merged| || AnyEntryChanged(original, merged, 0)
  }

  // ---------------------------------------------------------------------------
  // Properties of the merge

  /** Positions of the existing list keep their entry's key and every
      non-core property, and a truthy core field is never overwritten. */
  lemma MergeFillOnly(existing: seq<Rep>, incoming: seq<Rep>, i: int)
    requires 0 <= i < |existing|
    ensures |Merge(existing, incoming)| >= |existing|
    ensures var m := Merge(existing, incoming)[i];
      && KeyOf(m) == KeyOf(existing[i]) && m.extra == existing[i].extra
      && (TruthyText(existing[i].name) ==> m.name == existing[i].name)
      && (TruthyText(existing[i].party) ==> m.party == existing[i].party)
      && (TruthyText(existing[i].email) ==> m.email == existing[i].email)
      && (TruthyText(existing[i].phone) ==> m.phone == existing[i].phone)
  {
  }

  /** A falsy core field takes the value of the last incoming entry matching it. */
  lemma MergeTakesLastIncoming(existing: seq<Rep>, incoming: seq<Rep>, i: int, j: nat)
    requires 0 <= i < |existing| && j < |incoming|
    requires FindIndex(existing, KeyOf(incoming[j])) == i
    requires forall j' :: j < j' < |incoming| ==> FindIndex(existing, KeyOf(incoming[j'])) != i
    ensures var m := Merge(existing, incoming)[i];
      && (!TruthyText(existing[i].name) ==> m.name == incoming[j].name)
      && (!TruthyText(existing[i].party) ==> m.party == incoming[j].party)
      && (!TruthyText(existing[i].email) ==> m.email == incoming[j].email)
      && (!TruthyText(existing[i].phone) ==> m.phone == incoming[j].phone)
  {
    var r := LastMatch(existing, incoming, i);
    assert r.Some?;
    assert r.value == j;
  }

  /** Two incoming entries with the same key that is not in the existing list
      are both appended. */
  lemma UnmatchedDuplicatesKept(a: Rep, b: Rep)
    requires KeyOf(a) == KeyOf(b)
    ensures Merge([], [a, b]) == [a, b]
  {
    assert [a, b][..1] == [a];
    assert [a][..0] == [];
    assert FindIndex([], KeyOf(a)) == -1 && FindIndex([], KeyOf(b)) == -1;
    assert Unmatched([], [a]) == [a];
    assert Unmatched([], [a, b]) == [a, b];
  }

  lemma {:induction false} UnmatchedUnique(existing: seq<Rep>, incoming: seq<Rep>)
    requires UniqueKeys(incoming)
    ensures UniqueKeys(Unmatched(existing, incoming))
  {
    if |incoming| > 0 {
      var init := incoming[..|incoming| - 1];
      UnmatchedUnique(existing, init);
      var u := Unmatched(existing, init);
      var last := incoming[|incoming| - 1];
      forall r | r in u ensures KeyOf(r) != KeyOf(last) {
        var j :| 0 <= j < |init| && init[j] == r;
        assert incoming[j] == r;
      }
    }
  }

  lemma UniqueFind(reps: seq<Rep>, i: int)
    requires UniqueKeys(reps) && 0 <= i < |reps|
    ensures FindIndex(reps, KeyOf(reps[i])) == i
  {
  }

  lemma {:induction false} SameKeysSameFind(a: seq<Rep>, b: seq<Rep>, k: Key)
    requires |a| == |b|
    requires forall i :: 0 <= i < |a| ==> KeyOf(a[i]) == KeyOf(b[i])
    ensures FindIndex(a, k) == FindIndex(b, k)
  {
    if |a| > 0 {
      SameKeysSameFind(a[1..], b[1..], k);
    }
  }

  /** Every incoming key is present after a merge, so merging again appends nothing. */
  lemma MergeCoversIncoming(existing: seq<Rep>, incoming: seq<Rep>)
    ensures Unmatched(Merge(existing, incoming), incoming) == []
  {
    var m := Merge(existing, incoming);
    var u := Unmatched(existing, incoming);
    MergeParts(existing, incoming);
    forall j | 0 <= j < |incoming| ensures FindIndex(m, KeyOf(incoming[j])) != -1 {
      var k := KeyOf(incoming[j]);
      var e := FindIndex(existing, k);
      if e >= 0 {
        assert KeyOf(m[e]) == k;
      } else {
        assert incoming[j] in u;
        var p :| 0 <= p < |u| && u[p] == incoming[j];
        assert m[|existing| + p] == incoming[j];
      }
    }
    NoneUnmatched(m, incoming);
  }

  lemma {:induction false} NoneUnmatched(existing: seq<Rep>, incoming: seq<Rep>)
    requires forall j :: 0 <= j < |incoming| ==> FindIndex(existing, KeyOf(incoming[j])) != -1
    ensures Unmatched(existing, incoming) == []
  {
    if |incoming| > 0 {
      NoneUnmatched(existing, incoming[..|incoming| - 1]);
    }
  }

  /** Within the existing positions, looking a key up in the merged list or in
      the original list gives the same index. */
  lemma MergeKeepsFind(existing: seq<Rep>, incoming: seq<Rep>, k: Key, i: int)
    requires 0 <= i < |existing|
    ensures FindIndex(Merge(existing, incoming), k) == i <==> FindIndex(existing, k) == i
  {
    var m := Merge(existing, incoming);
    var pre := m[..|existing|];
    assert forall t :: 0 <= t < |existing| ==> KeyOf(pre[t]) == KeyOf(existing[t]);
    SameKeysSameFind(pre, existing, k);
    FindInPrefix(m, |existing|, k);
  }

  /** A key found within a prefix is found at the same index in the whole
      list; a key absent from the prefix is found, if at all, past it. */
  lemma FindInPrefix(reps: seq<Rep>, n: int, k: Key)
    requires 0 <= n <= |reps|
    ensures FindIndex(reps[..n], k) >= 0 ==> FindIndex(reps, k) == FindIndex(reps[..n], k)
    ensures FindIndex(reps[..n], k) < 0 ==> FindIndex(reps, k) == -1 || FindIndex(reps, k) >= n
  {
    var g := FindIndex(reps[..n], k);
    if g >= 0 {
      assert KeyOf(reps[g]) == k;
      assert forall t :: 0 <= t < g ==> KeyOf(reps[t]) == KeyOf(reps[..n][t]);
    } else {
      assert forall t :: 0 <= t < n ==> KeyOf(reps[t]) == KeyOf(reps[..n][t]);
    }
  }

  lemma MergeUnique(existing: seq<Rep>, incoming: seq<Rep>)
    requires UniqueKeys(existing) && UniqueKeys(incoming)
    ensures UniqueKeys(Merge(existing, incoming))
  {
    var m := Merge(existing, incoming);
    UnmatchedUnique(existing, incoming);
    forall a, b | 0 <= a < b < |m| ensures KeyOf(m[a]) != KeyOf(m[b]) {
      MergeUniquePair(existing, incoming, a, b);
    }
  }

  lemma MergeUniquePair(existing: seq<Rep>, incoming: seq<Rep>, a: int, b: int)
    requires UniqueKeys(existing) && UniqueKeys(Unmatched(existing, incoming))
    requires 0 <= a < b < |Merge(existing, incoming)|
    ensures KeyOf(Merge(existing, incoming)[a]) != KeyOf(Merge(existing, incoming)[b])
  {
    var m := Merge(existing, incoming);
    var u := Unmatched(existing, incoming);
    var n := |existing|;
    if b >= n {
      assert m[b] == u[b - n];
      assert m[b] in u;
      if a < n {
        assert KeyOf(m[a]) == KeyOf(existing[a]);
      } else {
        assert m[a] == u[a - n];
      }
    } else {
      assert KeyOf(m[a]) == KeyOf(existing[a]);
      assert KeyOf(m[b]) == KeyOf(existing[b]);
    }
  }

  /** Filling an entry a second time from the same incoming entry changes no core field. */
  lemma FillTwice(e: Rep, n: Rep)
    ensures !CoreDiffers(Fill(e, n), Fill(Fill(e, n), n))
  {
  }

  /** After re-merging the same incoming list, every entry keeps its key and core fields. */
  lemma RemergeKeepsEntries(existing: seq<Rep>, incoming: seq<Rep>, i: int)
    requires UniqueKeys(existing) && UniqueKeys(incoming)
    requires 0 <= i < |Merge(existing, incoming)|
    ensures var m := Merge(existing, incoming);
      && |Merge(m, incoming)| == |m|
      && KeyOf(Merge(m, incoming)[i]) == KeyOf(m[i])
      && !CoreDiffers(m[i], Merge(m, incoming)[i])
  {
    var m := Merge(existing, incoming);
    MergeCoversIncoming(existing, incoming);
    assert Merge(m, incoming)[i] == MergedAt(m, incoming, i);
    if i < |existing| {
      RemergeExisting(existing, incoming, i);
    } else {
      RemergeAppended(existing, incoming, i);
    }
  }

  /** A position of the original list is refilled from the same incoming entry, which changes nothing. */
  lemma RemergeExisting(existing: seq<Rep>, incoming: seq<Rep>, i: int)
    requires 0 <= i < |existing|
    ensures var m := Merge(existing, incoming);
      KeyOf(MergedAt(m, incoming, i)) == KeyOf(m[i]) && !CoreDiffers(m[i], MergedAt(m, incoming, i))
  {
    var m := Merge(existing, incoming);
    var r1 := LastMatch(existing, incoming, i);
    var r2 := LastMatch(m, incoming, i);
    forall j | 0 <= j < |incoming|
      ensures FindIndex(m, KeyOf(incoming[j])) == i <==> FindIndex(existing, KeyOf(incoming[j])) == i
    {
      MergeKeepsFind(existing, incoming, KeyOf(incoming[j]), i);
    }
    assert m[i] == MergedAt(existing, incoming, i);
    if r2.Some? {
      assert r1.Some? && r1.value == r2.value;
      FillTwice(existing[i], incoming[r1.value]);
    }
  }

  /** An appended entry is matched again only by itself, whose fields it already has. */
  lemma RemergeAppended(existing: seq<Rep>, incoming: seq<Rep>, i: int)
    requires UniqueKeys(existing) && UniqueKeys(incoming)
    requires |existing| <= i < |Merge(existing, incoming)|
    ensures var m := Merge(existing, incoming);
      KeyOf(MergedAt(m, incoming, i)) == KeyOf(m[i]) && !CoreDiffers(m[i], MergedAt(m, incoming, i))
  {
    var m := Merge(existing, incoming);
    MergeUnique(existing, incoming);
    var u := Unmatched(existing, incoming);
    assert m[i] == u[i - |existing|];
    assert m[i] in incoming;
    var j0 :| 0 <= j0 < |incoming| && incoming[j0] == m[i];
    UniqueFind(m, i);
    var r2 := LastMatch(m, incoming, i);
    assert FindIndex(m, KeyOf(incoming[j0])) == i;
    var j := r2.value;
    assert KeyOf(incoming[j]) == KeyOf(m[i]);
    assert j == j0;
  }

  /** Idempotence: when keys are unique in both lists, merging the same
      incoming list into the merged result detects no change, so a re-run
      with the same input writes nothing. */
  lemma MergeIdempotent(existing: seq<Rep>, incoming: seq<Rep>)
    requires UniqueKeys(existing) && UniqueKeys(incoming)
    ensures !HasChanges(Merge(existing, incoming), Merge(Merge(existing, incoming), incoming))
  {
    var m := Merge(existing, incoming);
    MergeUnique(existing, incoming);
    MergeCoversIncoming(existing, incoming);
    var m2 := Merge(m, incoming);
    forall i | 0 <= i < |m| ensures KeyOf(m2[i]) == KeyOf(m[i]) && !CoreDiffers(m[i], m2[i]) {
      RemergeKeepsEntries(existing, incoming, i);
    }
    forall i | 0 <= i < |m| ensures !EntryChanged(m[i], m2) {
      SameKeysSameFind(m2, m, KeyOf(m[i]));
      UniqueFind(m, i);
    }
  }

  /** A concrete fill: an empty name is filled, a populated party is kept. */
  lemma FillOnlyExample(extra: map<string, JsValue>)
    ensures var existing := Rep(Some("House"), Some("12"), Some(""), Some("R"), None, None, extra);
      var incoming := Rep(Some("House"), Some("12"), Some("Jane Doe"), Some("D"), None, None, map[]);
      Merge([existing], [incoming]) == [existing.(name := Some("Jane Doe"))]
  {
    var existing := Rep(Some("House"), Some("12"), Some(""), Some("R"), None, None, extra);
    var incoming := Rep(Some("House"), Some("12"), Some("Jane Doe"), Some("D"), None, None, map[]);
    assert LastMatch([existing], [incoming], 0) == Some(0);
    assert Unmatched([existing], [incoming]) == [];
  }
}
