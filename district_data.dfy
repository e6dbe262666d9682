/** Turning the district-keyed source file into zip-keyed lists of
    representatives (`transformDistrictDataToZipBased` in
    update_firebase_with_district_data.js): every zip listed by a district
    receives one entry for that district, House districts first, then Senate. */
module DistrictData {
  import opened JsValues
  import opened RepMerge

  /** `districtInfo.representative` as the source file gives it. */
  datatype SourceRep = SourceRep(
    representativeName: Option<string>,
    party: Option<string>,
    email: Option<string>,
    phoneNumber: Option<string>)

  /** One entry of `house_districts` or `senate_districts`, in `Object.entries` order. */
  datatype District = District(key: string, representative: Option<SourceRep>, zipCodes: Option<seq<string>>)

  datatype DistrictFile = DistrictFile(houseDistricts: Option<seq<District>>, senateDistricts: Option<seq<District>>)

  datatype Transformed = Transformed(
    zipBasedData: map<string, seq<Rep>>,
    totalDistricts: nat,
    totalZipMappings: nat)

  /** Reading a property of an undefined `representative` throws; the script logs it and exits. */
  datatype TransformError = MissingRepresentative(office: string, district: string)

  const House: string := "Texas House"
  const Senate: string := "Texas Senate"

  /** `districtInfo.zip_codes || []`. */
  function ZipsOf(d: District): seq<string> {
    d.zipCodes.GetOr([])
  }

  /** `value || ''`. */
  function TextOrEmpty(o: Option<string>): string {
    if TruthyText(o) then o.value else ""
  }

  /** The entry pushed for district `d`: a missing name, party, email or phone becomes "". */
  function Entry(office: string, d: District): (r: Rep)
    requires d.representative.Some?
    ensures r.office == Some(office) && r.district == Some(d.key) && r.extra == map[]
    ensures r.name.Some? && r.party.Some? && r.email.Some? && r.phone.Some?
    ensures var src := d.representative.value;
      && (TruthyText(src.representativeName) ==> r.name == src.representativeName)
      && (!TruthyText(src.representativeName) ==> r.name == Some(""))
      && (TruthyText(src.party) ==> r.party == src.party)
      && (!TruthyText(src.party) ==> r.party == Some(""))
      && (TruthyText(src.email) ==> r.email == src.email)
      && (!TruthyText(src.email) ==> r.email == Some(""))
      && (TruthyText(src.phoneNumber) ==> r.phone == src.phoneNumber)
      && (!TruthyText(src.phoneNumber) ==> r.phone == Some(""))
  {
    var src := d.representative.value;
    Rep(Some(office), Some(d.key),
        Some(TextOrEmpty(src.representativeName)), Some(TextOrEmpty(src.party)),
        Some(TextOrEmpty(src.email)), Some(TextOrEmpty(src.phoneNumber)), map[])
  }

  /** A district whose first zip would read a property of a missing representative. */
  predicate Throws(d: District) {
    |ZipsOf(d)| > 0 && d.representative.None?
  }

  predicate NoneThrows(ds: seq<District>) {
    forall i :: 0 <= i < |ds| ==> !Throws(ds[i])
  }

  /** Occurrences of `z` in `zs`. */
  function Count(zs: seq<string>, z: string): (n: nat)
    ensures n <= |zs|
    ensures n > 0 <==> z in zs
  {
    if |zs| == 0 then 0
    else Count(zs[..|zs| - 1], z) + (if zs[|zs| - 1] == z then 1 else 0)
  }

  function Repeat(e: Rep, n: nat): (r: seq<Rep>)
    ensures |r| == n && forall i :: 0 <= i < n ==> r[i] == e
  {
    seq(n, _ => e)
  }

  /** Every zip listed by some district. */
  function ZipSet(ds: seq<District>): set<string> {
    if |ds| == 0 then {} else ZipSet(ds[..|ds| - 1]) + Elements(ZipsOf(ds[|ds| - 1]))
  }

  /** The entries `z` receives from the districts `ds`: one per occurrence of
      `z` in a district's list, in district order. */
  function EntriesFor(ds: seq<District>, office: string, z: string): seq<Rep>
    requires NoneThrows(ds)
  {
    if |ds| == 0 then []
    else
      var d := ds[|ds| - 1];
      EntriesFor(ds[..|ds| - 1], office, z)
        + if Count(ZipsOf(d), z) == 0 then [] else Repeat(Entry(office, d), Count(ZipsOf(d), z))
  }

  function TotalZips(ds: seq<District>): nat {
    if |ds| == 0 then 0 else TotalZips(ds[..|ds| - 1]) + |ZipsOf(ds[|ds| - 1])|
  }

  function Get(m: map<string, seq<Rep>>, z: string): seq<Rep> {
    if z in m then m[z] else []
  }

  /** `m` after the districts `ds` have pushed their entries. */
  function WithDistricts(m: map<string, seq<Rep>>, ds: seq<District>, office: string): map<string, seq<Rep>>
    requires NoneThrows(ds)
  {
    map z | z in m.Keys + ZipSet(ds) :: Get(m, z) + EntriesFor(ds, office, z)
  }

  /** `m` after `e` has been pushed once for every zip in `zs`. */
  function WithZips(m: map<string, seq<Rep>>, zs: seq<string>, e: Rep): map<string, seq<Rep>> {
    map z | z in m.Keys + Elements(zs) :: Get(m, z) + Repeat(e, Count(zs, z))
  }

  function Houses(file: DistrictFile): seq<District> {
    file.houseDistricts.GetOr([])
  }

  function Senates(file: DistrictFile): seq<District> {
    file.senateDistricts.GetOr([])
  }

  lemma WithZipsNone(m: map<string, seq<Rep>>, e: Rep)
    ensures WithZips(m, [], e) == m
  {
    var w := WithZips(m, [], e);
    assert w.Keys == m.Keys;
    forall y | y in w.Keys ensures w[y] == m[y] {
    }
  }

  lemma WithZipsSnoc(m: map<string, seq<Rep>>, zs: seq<string>, z: string, e: Rep)
    ensures WithZips(m, zs + [z], e) == WithZips(m, zs, e)[z := Get(WithZips(m, zs, e), z) + [e]]
  {
    var lhs := WithZips(m, zs + [z], e);
    var prev := WithZips(m, zs, e);
    var rhs := prev[z := Get(prev, z) + [e]];
    assert (zs + [z])[..|zs|] == zs;
    assert Elements(zs + [z]) == Elements(zs) + {z};
    assert lhs.Keys == rhs.Keys;
    forall y | y in lhs.Keys ensures lhs[y] == rhs[y] {
      WithZipsSnocAt(m, zs, z, e, y);
    }
  }

  lemma WithZipsSnocAt(m: map<string, seq<Rep>>, zs: seq<string>, z: string, e: Rep, y: string)
    requires y in m.Keys + Elements(zs) + {z}
    ensures Get(m, y) + Repeat(e, Count(zs + [z], y)) ==
      Get(WithZips(m, zs, e)[z := Get(WithZips(m, zs, e), z) + [e]], y)
  {
    assert (zs + [z])[..|zs|] == zs;
    if y == z {
      assert Repeat(e, Count(zs, y) + 1) == Repeat(e, Count(zs, y)) + [e];
    }
  }

  lemma WithDistrictsNone(m: map<string, seq<Rep>>, office: string)
    ensures WithDistricts(m, [], office) == m
  {
    var w := WithDistricts(m, [], office);
    assert w.Keys == m.Keys;
    forall y | y in w.Keys ensures w[y] == m[y] {
    }
  }

  /** A zip no district lists receives no entry. */
  lemma {:induction false} EntriesForUnlisted(ds: seq<District>, office: string, z: string)
    requires NoneThrows(ds)
    requires z !in ZipSet(ds)
    ensures EntriesFor(ds, office, z) == []
  {
    if |ds| > 0 {
      var init := ds[..|ds| - 1];
      assert NoneThrows(init) by {
        forall i | 0 <= i < |init| ensures !Throws(init[i]) { assert init[i] == ds[i]; }
      }
      EntriesForUnlisted(init, office, z);
    }
  }

  lemma EntriesForSnoc(ds: seq<District>, d: District, office: string, z: string)
    requires NoneThrows(ds + [d])
    ensures NoneThrows(ds)
    ensures ZipSet(ds + [d]) == ZipSet(ds) + Elements(ZipsOf(d))
    ensures EntriesFor(ds + [d], office, z) == EntriesFor(ds, office, z)
      + if Count(ZipsOf(d), z) == 0 then [] else Repeat(Entry(office, d), Count(ZipsOf(d), z))
  {
    var after := ds + [d];
    assert after[..|ds|] == ds;
    assert after[|ds|] == d;
    assert NoneThrows(ds) by {
      forall i | 0 <= i < |ds| ensures !Throws(ds[i]) { assert ds[i] == after[i]; }
    }
  }

  /** One more district: its entry is pushed once per zip it lists. */
  lemma WithDistrictsSnoc(m: map<string, seq<Rep>>, ds: seq<District>, d: District, office: string)
    requires NoneThrows(ds) && !Throws(d)
    ensures NoneThrows(ds + [d])
    ensures |ZipsOf(d)| > 0 ==>
      WithDistricts(m, ds + [d], office) == WithZips(WithDistricts(m, ds, office), ZipsOf(d), Entry(office, d))
    ensures |ZipsOf(d)| == 0 ==> WithDistricts(m, ds + [d], office) == WithDistricts(m, ds, office)
  {
    var after := ds + [d];
    assert NoneThrows(after) by {
      forall i | 0 <= i < |after| ensures !Throws(after[i]) {
        if i < |ds| { assert after[i] == ds[i]; }
      }
    }
    if |ZipsOf(d)| > 0 {
      WithListingDistrict(m, ds, d, office);
    } else {
      WithSilentDistrict(m, ds, d, office);
    }
  }

  lemma WithListingDistrict(m: map<string, seq<Rep>>, ds: seq<District>, d: District, office: string)
    requires NoneThrows(ds) && NoneThrows(ds + [d]) && d.representative.Some?
    ensures WithDistricts(m, ds + [d], office) == WithZips(WithDistricts(m, ds, office), ZipsOf(d), Entry(office, d))
  {
    EntriesForSnoc(ds, d, office, "");
    var lhs := WithDistricts(m, ds + [d], office);
    var rhs := WithZips(WithDistricts(m, ds, office), ZipsOf(d), Entry(office, d));
    assert lhs.Keys == rhs.Keys;
    forall y | y in lhs.Keys ensures lhs[y] == rhs[y] {
      WithListingDistrictAt(m, ds, d, office, y);
    }
  }

  lemma WithListingDistrictAt(m: map<string, seq<Rep>>, ds: seq<District>, d: District, office: string, y: string)
    requires NoneThrows(ds) && NoneThrows(ds + [d]) && d.representative.Some?
    requires y in m.Keys + ZipSet(ds + [d])
    ensures y in WithZips(WithDistricts(m, ds, office), ZipsOf(d), Entry(office, d))
    ensures WithDistricts(m, ds + [d], office)[y] == WithZips(WithDistricts(m, ds, office), ZipsOf(d), Entry(office, d))[y]
  {
    EntriesForSnoc(ds, d, office, y);
    var prev := WithDistricts(m, ds, office);
    var e := Entry(office, d);
    if y !in prev {
      EntriesForUnlisted(ds, office, y);
    }
    assert Get(prev, y) == Get(m, y) + EntriesFor(ds, office, y);
    assert Repeat(e, Count(ZipsOf(d), y))
        == if Count(ZipsOf(d), y) == 0 then [] else Repeat(e, Count(ZipsOf(d), y));
    assert (Get(m, y) + EntriesFor(ds, office, y)) + Repeat(e, Count(ZipsOf(d), y))
        == Get(m, y) + (EntriesFor(ds, office, y) + Repeat(e, Count(ZipsOf(d), y)));
  }

  lemma WithSilentDistrict(m: map<string, seq<Rep>>, ds: seq<District>, d: District, office: string)
    requires NoneThrows(ds) && NoneThrows(ds + [d]) && |ZipsOf(d)| == 0
    ensures WithDistricts(m, ds + [d], office) == WithDistricts(m, ds, office)
  {
    EntriesForSnoc(ds, d, office, "");
    var lhs := WithDistricts(m, ds + [d], office);
    var prev := WithDistricts(m, ds, office);
    assert lhs.Keys == prev.Keys;
    forall y | y in lhs.Keys ensures lhs[y] == prev[y] {
      EntriesForSnoc(ds, d, office, y);
    }
  }

  /** The loop over one of `house_districts` / `senate_districts`: every
      district counts, every zip it lists gets the district's entry pushed,
      and the first district with zips but no representative aborts the run. */
  method AddDistricts(zipBased: map<string, seq<Rep>>, ds: seq<District>, office: string)
    returns (r: Result<(map<string, seq<Rep>>, nat, nat), TransformError>)
    ensures r.Ok? <==> NoneThrows(ds)
    ensures r.Ok? ==> NoneThrows(ds) && r.value == (WithDistricts(zipBased, ds, office), |ds|, TotalZips(ds))
    ensures r.Err? ==> exists i :: (0 <= i < |ds| && Throws(ds[i]) && NoneThrows(ds[..i])
      && r.error == MissingRepresentative(office, ds[i].key))
  {
    var m := zipBased;
    var districts, mappings := 0, 0;
    var k := 0;
    assert ds[..0] == [];
    WithDistrictsNone(zipBased, office);
    while k < |ds|
      invariant 0 <= k <= |ds|
      invariant NoneThrows(ds[..k])
      invariant m == WithDistricts(zipBased, ds[..k], office)
      invariant districts == k && mappings == TotalZips(ds[..k])
    {
      var d := ds[k];
      assert ds[..k + 1] == ds[..k] + [d];
      districts := districts + 1;
      var zips := ZipsOf(d);
      ghost var start := m;
      var j := 0;
      WithZipsNone(start, if d.representative.Some? then Entry(office, d) else Rep(None, None, None, None, None, None, map[]));
      while j < |zips|
        invariant 0 <= j <= |zips|
        invariant j > 0 ==> d.representative.Some?
        invariant d.representative.Some? ==> m == WithZips(start, zips[..j], Entry(office, d))
        invariant j == 0 ==> m == start
        invariant mappings == TotalZips(ds[..k]) + j
      {
        if d.representative.None? {
          assert Throws(ds[k]);
          return Err(MissingRepresentative(office, d.key));
        }
        var entry := Entry(office, d);
        var z := zips[j];
        assert zips[..j + 1] == zips[..j] + [z];
        WithZipsSnoc(start, zips[..j], z, entry);
        m := m[z := Get(m, z) + [entry]];
        mappings := mappings + 1;
        j := j + 1;
      }
      assert zips[..j] == zips;
      assert !Throws(d);
      WithDistrictsSnoc(zipBased, ds[..k], d, office);
      k := k + 1;
    }
    assert ds[..k] == ds;
    r := Ok((m, districts, mappings));
  }

  /** The whole transform: House districts, then Senate districts, into one map. */
  method TransformDistrictDataToZipBased(file: DistrictFile) returns (r: Result<Transformed, TransformError>)
    ensures r.Ok? <==> NoneThrows(Houses(file)) && NoneThrows(Senates(file))
    ensures r.Ok? ==> NoneThrows(Houses(file)) && NoneThrows(Senates(file)) && r.value == Transformed(
      WithDistricts(WithDistricts(map[], Houses(file), House), Senates(file), Senate),
      |Houses(file)| + |Senates(file)|,
      TotalZips(Houses(file)) + TotalZips(Senates(file)))
  {
    var zipBased: map<string, seq<Rep>> := map[];
    var totalDistricts, totalZipMappings := 0, 0;
    if file.houseDistricts.Some? {
      var h := AddDistricts(zipBased, file.houseDistricts.value, House);
      if h.Err? {
        return Err(h.error);
      }
      zipBased, totalDistricts, totalZipMappings := h.value.0, h.value.1, h.value.2;
    } else {
      WithDistrictsNone(zipBased, House);
    }
    if file.senateDistricts.Some? {
      var s := AddDistricts(zipBased, file.senateDistricts.value, Senate);
      if s.Err? {
        return Err(s.error);
      }
      zipBased := s.value.0;
      totalDistricts, totalZipMappings := totalDistricts + s.value.1, totalZipMappings + s.value.2;
    } else {
      WithDistrictsNone(zipBased, Senate);
    }
    r := Ok(Transformed(zipBased, totalDistricts, totalZipMappings));
  }

  // ---------------------------------------------------------------------------
  // What the zip-keyed lists look like

  /** Each entry `z` receives from `ds` is the entry of a district of `ds`
      that lists `z`, carrying the office and the district key. */
  lemma {:induction false} EntriesFromListingDistricts(ds: seq<District>, office: string, z: string, e: Rep)
    requires NoneThrows(ds)
    requires e in EntriesFor(ds, office, z)
    ensures e.office == Some(office)
    ensures exists i :: 0 <= i < |ds| && z in ZipsOf(ds[i]) && e == Entry(office, ds[i]) && e.district == Some(ds[i].key)
  {
    var n := |ds|;
    var init := ds[..n - 1];
    var d := ds[n - 1];
    assert NoneThrows(init) by {
      forall i | 0 <= i < n - 1 ensures !Throws(init[i]) { assert init[i] == ds[i]; }
    }
    if e in EntriesFor(init, office, z) {
      EntriesFromListingDistricts(init, office, z, e);
      var i :| 0 <= i < |init| && z in ZipsOf(init[i]) && e == Entry(office, init[i]) && e.district == Some(init[i].key);
      assert init[i] == ds[i];
    } else {
      assert e == Entry(office, d);
    }
  }

  /** A zip gets exactly as many entries from `ds` as it has occurrences in their lists. */
  lemma {:induction false} EntriesCount(ds: seq<District>, office: string, z: string)
    requires NoneThrows(ds)
    ensures |EntriesFor(ds, office, z)| == OccurrencesIn(ds, z)
  {
    if |ds| > 0 {
      var init := ds[..|ds| - 1];
      assert NoneThrows(init) by {
        forall i | 0 <= i < |init| ensures !Throws(init[i]) { assert init[i] == ds[i]; }
      }
      EntriesCount(init, office, z);
    }
  }

  function OccurrencesIn(ds: seq<District>, z: string): nat {
    if |ds| == 0 then 0 else OccurrencesIn(ds[..|ds| - 1], z) + Count(ZipsOf(ds[|ds| - 1]), z)
  }

  /** Every zip's list holds its House entries first and its Senate entries after them. */
  lemma HouseBeforeSenate(file: DistrictFile, z: string, a: int, b: int)
    requires NoneThrows(Houses(file)) && NoneThrows(Senates(file))
    requires var m := WithDistricts(WithDistricts(map[], Houses(file), House), Senates(file), Senate);
      z in m && 0 <= a < b < |m[z]| && m[z][a].office == Some(Senate)
    ensures var m := WithDistricts(WithDistricts(map[], Houses(file), House), Senates(file), Senate);
      m[z][b].office == Some(Senate)
  {
    var hs := Houses(file);
    var ss := Senates(file);
    var m1 := WithDistricts(map[], hs, House);
    var l := WithDistricts(m1, ss, Senate)[z];
    var hl := EntriesFor(hs, House, z);
    if z !in m1 {
      EntriesForUnlisted(hs, House, z);
    }
    assert Get(m1, z) == hl;
    assert l == hl + EntriesFor(ss, Senate, z);
    if a < |hl| {
      EntriesFromListingDistricts(hs, House, z, l[a]);
      assert false;
    }
    assert l[b] in EntriesFor(ss, Senate, z);
    EntriesFromListingDistricts(ss, Senate, z, l[b]);
  }

  /** The keys of the result are exactly the zips listed by some district. */
  lemma TransformKeys(file: DistrictFile)
    requires NoneThrows(Houses(file)) && NoneThrows(Senates(file))
    ensures WithDistricts(WithDistricts(map[], Houses(file), House), Senates(file), Senate).Keys
      == ZipSet(Houses(file)) + ZipSet(Senates(file))
  {
  }
}
