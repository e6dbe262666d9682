/** The two zip lookup callables of functions/getRepsByZipCode.js:
    `getRepresentativesByZipCode` and `getRepresentativesForMultipleZips`.
    The `zip_representatives` collection is a read-only map; a read of a
    listed document id fails. */
module ZipLookup {
  import opened JsValues

  /** The `zip_representatives` collection as the callables see it. */
  datatype Store = Store(docs: map<string, Fields>, unreadable: set<string>)

  const FetchFailed := "Failed to fetch representatives data"
  const MaxZipCodes: nat := 10

  /** `/^\d{5}$/`: exactly five characters, each in '0'..'9'. */
  predicate FiveDigits(s: string) {
    |s| == 5 && forall i :: 0 <= i < 5 ==> IsDigit(s[i])
  }

  /** `zipCodeRegex.test(v)`, which first converts `v` with `String(v)`. */
  predicate MatchesZip(v: JsValue)
    ensures v.Str? ==> (MatchesZip(v) <==> FiveDigits(v.s))
    ensures v.Undefined? || v.Null? || v.Obj? ==> !MatchesZip(v)
  {
    FiveDigits(ToStr(v))
  }

  /** The result for a zip with no document. */
  function NotFoundResult(zip: string): (r: Fields)
    ensures FieldOf(r, "status") == Plain(Str("not_found"))
    ensures FieldOf(r, "representatives") == Plain(Arr([]))
    ensures "zipCode" !in r && "count" !in r
  {
    map[
      "status" := Plain(Str("not_found")),
      "message" := Plain(Str("No representatives found for zip code " + zip)),
      "representatives" := Plain(Arr([]))]
  }

  /** `data.lastUpdated ? data.lastUpdated.toDate().toISOString() : null`: a
      timestamp is rendered (here: kept as the opaque token), a falsy value
      gives `null`, and any other truthy value has no `toDate` and throws. */
  function LastUpdatedOf(data: Fields): (r: Option<Field>)
    ensures r.None? <==> FieldTruthy(FieldOf(data, "lastUpdated")) && !FieldOf(data, "lastUpdated").Stamp?
    ensures r.Some? ==> r.value == Plain(Null) || (r.value.Stamp? && r.value == FieldOf(data, "lastUpdated"))
  {
    var f := FieldOf(data, "lastUpdated");
    if !FieldTruthy(f) then Some(Plain(Null))
    else if f.Stamp? then Some(f)
    else None
  }

  /** `data.key || fallback` in the returned fields: a truthy stored field
      is passed on as stored, and an absent or falsy one gives `fallback`. */
  predicate KeptOrDefault(out: Fields, data: Fields, key: string, fallback: Field) {
    && key in out
    && (FieldTruthy(FieldOf(data, key)) ==> key in data && out[key] == data[key])
    && (!FieldTruthy(FieldOf(data, key)) ==> out[key] == fallback)
  }

  /** The five fields returned for a stored document: four kept-or-defaulted
      fields, and `lastUpdated` rendered from a timestamp or `null`. */
  predicate Answers(out: Fields, data: Fields) {
    && KeptOrDefault(out, data, "status", Plain(Str("success")))
    && KeptOrDefault(out, data, "representatives", Plain(Arr([])))
    && KeptOrDefault(out, data, "count", Plain(Num(0)))
    && KeptOrDefault(out, data, "timestamp", Plain(Null))
    && "lastUpdated" in out
    && (FieldOf(data, "lastUpdated").Stamp? ==> out["lastUpdated"] == data["lastUpdated"])
    && (!FieldTruthy(FieldOf(data, "lastUpdated")) ==> out["lastUpdated"] == Plain(Null))
  }

  /** The fields built from a stored document, shared by both callables. A
      truthy `lastUpdated` that is not a timestamp has no `toDate` and
      fails the read. */
  function Shaped(data: Fields): (r: Result<Fields, HttpsError>)
    ensures r.Err? <==> FieldTruthy(FieldOf(data, "lastUpdated")) && !FieldOf(data, "lastUpdated").Stamp?
    ensures r.Err? ==> r.error == Internal(FetchFailed)
    ensures r.Ok? ==> r.value.Keys == {"status", "representatives", "count", "timestamp", "lastUpdated"}
    ensures r.Ok? ==> Answers(r.value, data)
  {
    match LastUpdatedOf(data)
    case None => Err(Internal(FetchFailed))
    case Some(lastUpdated) =>
      Ok(map[
        "status" := FieldOr(FieldOf(data, "status"), Plain(Str("success"))),
        "representatives" := FieldOr(FieldOf(data, "representatives"), Plain(Arr([]))),
        "count" := FieldOr(FieldOf(data, "count"), Plain(Num(0))),
        "timestamp" := FieldOr(FieldOf(data, "timestamp"), Plain(Null)),
        "lastUpdated" := lastUpdated])
  }

  /** Reading the document of one zip and shaping its result: `doc(zip)`
      throws on a value that is not a string, and a failed read throws too. */
  function Fetch(store: Store, zip: JsValue): (r: Result<Fields, HttpsError>)
    ensures r.Err? ==> r.error == Internal(FetchFailed)
    ensures r.Ok? ==> zip.Str? && zip.s !in store.unreadable
    ensures zip.Str? && zip.s !in store.unreadable && zip.s !in store.docs ==> r == Ok(NotFoundResult(zip.s))
  {
    if !zip.Str? || zip.s in store.unreadable then Err(Internal(FetchFailed))
    else if zip.s !in store.docs then Ok(NotFoundResult(zip.s))
    else Shaped(store.docs[zip.s])
  }

  /** `getRepresentativesByZipCode`, where `data` is `request.data`:
      destructuring it throws when it is `null` or `undefined`; the presence
      check comes before the format check, and both come before any read. */
  function GetRepresentativesByZipCode(data: JsValue, store: Store): (r: Result<Fields, Failure>)
    ensures data.Undefined? || data.Null? ==> r == Err(Uncaught)
    ensures var zip := Member(data, "zipCode");
      zip.Some? && !Truthy(zip.value) ==> r == Err(Thrown(InvalidArgument("Zip code is required")))
    ensures var zip := Member(data, "zipCode");
      zip.Some? && Truthy(zip.value) && !MatchesZip(zip.value) ==>
        r == Err(Thrown(InvalidArgument("Invalid zip code format. Must be 5 digits.")))
    ensures var zip := Member(data, "zipCode");
      zip.Some? && Truthy(zip.value) && MatchesZip(zip.value) && (!zip.value.Str? || zip.value.s in store.unreadable) ==>
        r == Err(Thrown(Internal(FetchFailed)))
    ensures r.Ok? ==> var zip := Member(data, "zipCode").value;
      zip.Str? && FiveDigits(zip.s) && zip.s !in store.unreadable
    ensures r.Ok? ==> var zip := Member(data, "zipCode").value;
      zip.s !in store.docs ==> r.value == NotFoundResult(zip.s)
    ensures r.Ok? ==> var zip := Member(data, "zipCode").value;
      zip.s in store.docs ==>
        && Shaped(store.docs[zip.s]).Ok?
        && r.value == Shaped(store.docs[zip.s]).value["zipCode" := Plain(zip)]
        && Answers(r.value, store.docs[zip.s])
        && r.value["zipCode"] == Plain(zip)
    ensures var zip := Member(data, "zipCode");
      zip.Some? && zip.value.Str? && FiveDigits(zip.value.s) && zip.value.s !in store.unreadable ==>
        (r.Ok? <==> zip.value.s !in store.docs || Shaped(store.docs[zip.value.s]).Ok?)
  {
    if data.Undefined? || data.Null? then Err(Uncaught)
    else
      var zipCode := Member(data, "zipCode").value;
      if !Truthy(zipCode) then Err(Thrown(InvalidArgument("Zip code is required")))
      else if !MatchesZip(zipCode) then Err(Thrown(InvalidArgument("Invalid zip code format. Must be 5 digits.")))
      else
        match Fetch(store, zipCode)
        case Err(e) => Err(Thrown(e))
        case Ok(fields) =>
          if zipCode.s in store.docs then Ok(fields["zipCode" := Plain(zipCode)]) else Ok(fields)
  }

  /** The response of the multi-zip callable. */
  datatype MultiResult = MultiResult(results: map<string, Fields>, queriedCount: nat, timestamp: string)

  /** The results map filled entry by entry, or the first failed read. */
  function FetchAll(store: Store, zips: seq<JsValue>): (r: Result<map<string, Fields>, HttpsError>)
    ensures r.Err? ==> r.error == Internal(FetchFailed)
  {
    if |zips| == 0 then Ok(map[])
    else
      var last := zips[|zips| - 1];
      match FetchAll(store, zips[..|zips| - 1])
      case Err(e) => Err(e)
      case Ok(m) =>
        match Fetch(store, last)
        case Err(e) => Err(e)
        case Ok(f) => Ok(m[last.s := f])
  }

  /** The multi-zip lookup succeeds exactly when every read does. */
  lemma {:induction false} FetchAllOk(store: Store, zips: seq<JsValue>)
    ensures FetchAll(store, zips).Ok? <==> forall i :: 0 <= i < |zips| ==> Fetch(store, zips[i]).Ok?
  {
    if |zips| > 0 {
      var init := zips[..|zips| - 1];
      FetchAllOk(store, init);
      assert forall i :: 0 <= i < |init| ==> zips[i] == init[i];
    }
  }

  /** A successful multi-zip lookup has one key per zip queried, holding that zip's own result. */
  lemma {:induction false} FetchAllMap(store: Store, zips: seq<JsValue>)
    requires FetchAll(store, zips).Ok?
    ensures var m := FetchAll(store, zips).value;
      && (forall i :: 0 <= i < |zips| ==> zips[i].Str? && zips[i].s in m)
      && (forall k :: k in m ==> Str(k) in zips)
      && (forall k :: k in m ==> Fetch(store, Str(k)) == Ok(m[k]))
  {
    if |zips| > 0 {
      var init := zips[..|zips| - 1];
      var last := zips[|zips| - 1];
      FetchAllMap(store, init);
      assert zips == init + [last];
      var m := FetchAll(store, zips).value;
      assert m == FetchAll(store, init).value[last.s := Fetch(store, last).value];
    }
  }

  /** The index of the first entry that fails the format check. */
  predicate FirstBad(items: seq<JsValue>, i: int) {
    0 <= i < |items| && !MatchesZip(items[i]) && forall j :: 0 <= j < i ==> MatchesZip(items[j])
  }

  /** `getRepresentativesForMultipleZips`, where `data` is `request.data`,
      with the reads done one after the other and `now` standing for
      `new Date().toISOString()`. */
  method GetRepresentativesForMultipleZips(data: JsValue, store: Store, now: string)
    returns (r: Result<MultiResult, Failure>)
    ensures data.Undefined? || data.Null? ==> r == Err(Uncaught)
    ensures var zipCodes := Member(data, "zipCodes");
      zipCodes.Some? && !zipCodes.value.Arr? ==> r == Err(Thrown(InvalidArgument("zipCodes must be an array")))
    ensures var zipCodes := Member(data, "zipCodes");
      zipCodes.Some? && zipCodes.value.Arr? ==> var items := zipCodes.value.items;
      && (|items| == 0 ==> r == Err(Thrown(InvalidArgument("At least one zip code is required"))))
      && (|items| > MaxZipCodes ==> r == Err(Thrown(InvalidArgument("Maximum 10 zip codes can be queried at once"))))
      && (1 <= |items| <= MaxZipCodes ==>
           && (forall i :: FirstBad(items, i) ==> r == Err(Thrown(InvalidArgument("Invalid zip code format: " + ToStr(items[i])))))
           && ((forall i :: 0 <= i < |items| ==> MatchesZip(items[i])) ==>
                 r == match FetchAll(store, items)
                      case Err(e) => Err(Thrown(e))
                      case Ok(m) => Ok(MultiResult(m, |items|, now))))
  {
    if data.Undefined? || data.Null? {
      return Err(Uncaught);
    }
    var zipCodes := Member(data, "zipCodes").value;
    if !zipCodes.Arr? {
      return Err(Thrown(InvalidArgument("zipCodes must be an array")));
    }
    var items := zipCodes.items;
    if |items| == 0 {
      return Err(Thrown(InvalidArgument("At least one zip code is required")));
    }
    if |items| > MaxZipCodes {
      return Err(Thrown(InvalidArgument("Maximum 10 zip codes can be queried at once")));
    }
    var bad := FindInvalidZip(items);
    if bad.Some? {
      return Err(Thrown(InvalidArgument("Invalid zip code format: " + ToStr(items[bad.value]))));
    }
    var results := FetchEach(store, items);
    match results {
      case Err(e) => r := Err(Thrown(e));
      case Ok(m) => r := Ok(MultiResult(m, |items|, now));
    }
  }

  /** The validation loop: the first entry that fails the five-digit check. */
  method FindInvalidZip(items: seq<JsValue>) returns (bad: Option<nat>)
    ensures bad.Some? ==> FirstBad(items, bad.value)
    ensures bad.None? ==> forall j :: 0 <= j < |items| ==> MatchesZip(items[j])
  {
    var k := 0;
    while k < |items|
      invariant 0 <= k <= |items|
      invariant forall j :: 0 <= j < k ==> MatchesZip(items[j])
    {
      if !MatchesZip(items[k]) {
        return Some(k);
      }
      k := k + 1;
    }
    return None;
  }

  /** The reads, one after the other, filling the results map by zip code. */
  method FetchEach(store: Store, items: seq<JsValue>) returns (r: Result<map<string, Fields>, HttpsError>)
    ensures r == FetchAll(store, items)
  {
    var results: map<string, Fields> := map[];
    var k := 0;
    while k < |items|
      invariant 0 <= k <= |items|
      invariant FetchAll(store, items[..k]) == Ok(results)
    {
      assert items[..k + 1][..k] == items[..k];
      var entry := Fetch(store, items[k]);
      if entry.Err? {
        FetchAllFails(store, items, k);
        return Err(entry.error);
      }
      results := results[items[k].s := entry.value];
      k := k + 1;
    }
    assert items[..k] == items;
    r := Ok(results);
  }

  /** One failed read fails the whole call: no partial results map is returned. */
  lemma FetchAllFails(store: Store, zips: seq<JsValue>, k: int)
    requires 0 <= k < |zips| && Fetch(store, zips[k]).Err?
    ensures FetchAll(store, zips) == Err(Internal(FetchFailed))
  {
    FetchAllOk(store, zips);
  }

  // ---------------------------------------------------------------------------
  // Properties

  /** A number passes the five-digit check exactly when it lies in 10000..99999. */
  lemma NumberMatchesZip(n: int)
    ensures MatchesZip(Num(n)) <==> 10000 <= n <= 99999
  {
    if n >= 0 {
      DecimalLengthBound(n, 5);
      DecimalLengthBound(n, 4);
      assert Pow10(4) == 10000 && Pow10(5) == 100000;
      var s := NatToDecimal(n);
      if 10000 <= n <= 99999 {
        assert |s| == 5;
      }
    } else {
      assert ToStr(Num(n))[0] == '-';
    }
  }

  /** A non-string that passes the format check, such as the number 12345 or
      the array ["12345"], reaches `doc()` and fails as an internal error. */
  lemma NonStringZipIsInternal(store: Store, zip: JsValue)
    requires MatchesZip(zip) && !zip.Str?
    ensures GetRepresentativesByZipCode(Obj(map["zipCode" := zip]), store) == Err(Thrown(Internal(FetchFailed)))
  {
    match zip {
      case Num(n) =>
        NumberMatchesZip(n);
      case Bool(b) =>
        BooleanIsNoZip(b);
        assert false;
      case Undefined =>
      case Null =>
      case Arr(_) =>
      case Obj(_) =>
      case Str(_) =>
    }
  }

  lemma BooleanIsNoZip(b: bool)
    ensures !MatchesZip(Bool(b))
  {
    if b {
      assert |ToStr(Bool(b))| == 4;
    } else {
      assert ToStr(Bool(b))[0] == 'f';
    }
  }

  lemma SingletonArrayMatches()
    ensures MatchesZip(Arr([Str("12345")]))
    ensures MatchesZip(Num(12345))
    ensures !MatchesZip(Num(1234))
  {
    var items := [Str("12345")];
    var parts := seq(|items|, i requires 0 <= i < |items| =>
      if items[i].Undefined? || items[i].Null? then "" else ToStr(items[i]));
    assert parts == ["12345"];
    NumberMatchesZip(12345);
    NumberMatchesZip(1234);
  }

  /** A well-formed zip without a document gives the `not_found` result: no
      `zipCode` and no `count`, and an empty representatives list. */
  lemma LookupNotFound(store: Store, zip: string)
    requires FiveDigits(zip) && zip !in store.docs && zip !in store.unreadable
    ensures GetRepresentativesByZipCode(Obj(map["zipCode" := Str(zip)]), store) == Ok(NotFoundResult(zip))
  {
  }

  /** Every string that is not five digits is rejected as an invalid argument. */
  lemma LookupRejectsMalformed(store: Store, zip: string)
    requires !FiveDigits(zip)
    ensures GetRepresentativesByZipCode(Obj(map["zipCode" := Str(zip)]), store).Err?
    ensures GetRepresentativesByZipCode(Obj(map["zipCode" := Str(zip)]), store).error == Thrown(InvalidArgument("Invalid zip code format. Must be 5 digits.")) || GetRepresentativesByZipCode(Obj(map["zipCode" := Str(zip)]), store).error == Thrown(InvalidArgument("Zip code is required"))
  {
  }

  /** A found document gets `zipCode` and the defaults for the fields it lacks. */
  lemma LookupDefaults(store: Store, zip: string)
    requires FiveDigits(zip) && zip in store.docs && zip !in store.unreadable
    requires store.docs[zip] == map[]
    ensures GetRepresentativesByZipCode(Obj(map["zipCode" := Str(zip)]), store) == Ok(map[
      "status" := Plain(Str("success")),
      "zipCode" := Plain(Str(zip)),
      "representatives" := Plain(Arr([])),
      "count" := Plain(Num(0)),
      "timestamp" := Plain(Null),
      "lastUpdated" := Plain(Null)])
  {
    assert Truthy(Str(zip)) by {
      assert |zip| == 5;
    }
    var fields := map[
      "status" := Plain(Str("success")),
      "representatives" := Plain(Arr([])),
      "count" := Plain(Num(0)),
      "timestamp" := Plain(Null),
      "lastUpdated" := Plain(Null)];
    assert Shaped(map[]) == Ok(fields);
    assert Fetch(store, Str(zip)) == Ok(fields);
    assert GetRepresentativesByZipCode(Obj(map["zipCode" := Str(zip)]), store) == Ok(fields["zipCode" := Plain(Str(zip))]);
    var expected := map[
      "status" := Plain(Str("success")),
      "zipCode" := Plain(Str(zip)),
      "representatives" := Plain(Arr([])),
      "count" := Plain(Num(0)),
      "timestamp" := Plain(Null),
      "lastUpdated" := Plain(Null)];
    var got := fields["zipCode" := Plain(Str(zip))];
    assert got.Keys == expected.Keys;
    forall k | k in got ensures got[k] == expected[k] {
    }
    assert got == expected;
  }

  /** Present fields are returned as stored: `status`, `count` and the
      timestamps pass through when truthy. */
  lemma LookupKeepsStoredFields(store: Store, zip: string, data: Fields)
    requires FiveDigits(zip) && zip !in store.unreadable
    requires store.docs == map[zip := data]
    requires forall f :: f in data ==> FieldTruthy(data[f])
    requires FieldOf(data, "lastUpdated").Stamp? || "lastUpdated" !in data
    ensures var r := GetRepresentativesByZipCode(Obj(map["zipCode" := Str(zip)]), store);
      && r.Ok?
      && (forall f :: f in data && f in {"status", "representatives", "count", "timestamp", "lastUpdated"} ==>
            f in r.value && r.value[f] == data[f])
  {
    assert Truthy(Str(zip)) by {
      assert |zip| == 5;
    }
  }

  /** Duplicate zips collapse: the results map has one key per distinct zip,
      so it has at most `queriedCount` keys, and exactly that many when the
      zips are distinct. */
  lemma ResultsPerDistinctZip(store: Store, zips: seq<string>)
    ensures var r := FetchAll(store, seq(|zips|, i requires 0 <= i < |zips| => Str(zips[i])));
      r.Ok? ==> (r.value.Keys == Elements(zips)
        && |r.value| <= |zips|
        && (|r.value| == |zips| <==> Distinct(zips)))
  {
    var items := seq(|zips|, i requires 0 <= i < |zips| => Str(zips[i]));
    var r := FetchAll(store, items);
    if r.Ok? {
      FetchAllMap(store, items);
    }
    if r.Ok? {
      forall k | k in r.value ensures k in zips {
        assert Str(k) in items;
        var i :| 0 <= i < |items| && items[i] == Str(k);
        assert zips[i] == k;
      }
      forall k | k in zips ensures k in r.value {
        var i :| 0 <= i < |zips| && zips[i] == k;
        assert items[i] == Str(k);
      }
      assert r.value.Keys == Elements(zips);
      ElementsCount(zips);
    }
  }
}
