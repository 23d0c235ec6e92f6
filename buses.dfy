/**
 * The request handler of api/buses.mjs: it turns the live vehicles of one
 * route into GeoJSON point features, records their numeric ids as seen, and
 * for every id of the fixed roster that was not seen live asks the position
 * store for its most recent row, appending a feature when there is one.
 *
 * The live fetch and the store query are inputs: the fetch result is a
 * sequence of live vehicles (None when the response lacks the vehicle list),
 * the store is a function from a vehicle id to its most recent row, if any.
 */
module Buses {
  import opened Wrappers
  import FixedPoint
  import opened Selection

  /** The roster of vehicle ids that get a fallback lookup (api/buses.mjs:5). */
  const Roster: seq<string> := ["0135", "0143", "0754", "0756", "0757"]

  /** One element of `bustime-response.vehicle`: the fields the handler reads. */
  datatype LiveVehicle = LiveVehicle(vid: string, lat: string, lon: string, tmstmp: string)

  /** The most recent stored position of a vehicle, coordinates in fixed-point text. */
  datatype Row = Row(latitude: string, longitude: string, timestamp: string)

  /**
   * A coordinate as it appears in a feature: copied from the live response,
   * or `Number(t)` of the text `clean_number` produced from a stored value
   * (whose value FixedPoint.ParseNumber gives where it is modelled).
   */
  datatype Coord = Live(text: string) | Parsed(cleaned: string)

  datatype Properties = Properties(vehicleId: string, latitude: Coord, longitude: Coord, timestamp: string)
  datatype Geometry = Geometry(geometryType: string, coordinates: seq<Coord>)
  datatype Feature = Feature(featureType: string, properties: Properties, geometry: Geometry)
  datatype FeatureCollection = FeatureCollection(collectionType: string, features: seq<Feature>)
  datatype Response = Response(statusCode: int, headers: map<string, string>, body: FeatureCollection)

  /**
   * `Number(id)` for a vehicle id: the integer a non-empty string of decimal
   * digits denotes (so "0135" and "135" are the same id); any other text is
   * kept as is and never equals an integer.
   */
  datatype IdNumber = Integer(value: nat) | Unparsed(text: string)

  function NumberOf(id: string): IdNumber
  {
    if |id| > 0 && FixedPoint.AllDigits(id) then Integer(FixedPoint.DigitsValue(id)) else Unparsed(id)
  }

  // ---------------------------------------------------------------------
  // Features
  // ---------------------------------------------------------------------

  function PointFeature(id: string, latitude: Coord, longitude: Coord, timestamp: string): Feature
  {
    Feature("Feature", Properties(id, latitude, longitude, timestamp), Geometry("Point", [longitude, latitude]))
  }

  /** The feature of a live vehicle: its fields copied unchanged (api/buses.mjs:58-70). */
  function LiveFeature(v: LiveVehicle): Feature
  {
    PointFeature(v.vid, Live(v.lat), Live(v.lon), v.tmstmp)
  }

  /** The feature of a stored row: coordinates through clean_number (api/buses.mjs:94-112). */
  function FallbackFeature(id: string, row: Row): Feature
  {
    PointFeature(id, Parsed(FixedPoint.CleanNumber(row.latitude)), Parsed(FixedPoint.CleanNumber(row.longitude)), row.timestamp)
  }

  /** The features the `forEach` over the live vehicles pushes. */
  function LiveFeatures(vehicles: seq<LiveVehicle>): (fs: seq<Feature>)
    ensures |fs| == |vehicles|
    ensures forall i :: 0 <= i < |vehicles| ==> fs[i] == LiveFeature(vehicles[i])
  {
    if vehicles == [] then []
    else LiveFeatures(vehicles[..|vehicles| - 1]) + [LiveFeature(vehicles[|vehicles| - 1])]
  }

  /** The numbers the `forEach` adds to `seen_vehicle_ids`. */
  function Seen(vehicles: seq<LiveVehicle>): set<IdNumber>
  {
    if vehicles == [] then {}
    else Seen(vehicles[..|vehicles| - 1]) + {NumberOf(vehicles[|vehicles| - 1].vid)}
  }

  /** The seen numbers are exactly the numbers of the live vehicle ids. */
  lemma {:induction false} SeenNumbers(vehicles: seq<LiveVehicle>)
    ensures forall i :: 0 <= i < |vehicles| ==> NumberOf(vehicles[i].vid) in Seen(vehicles)
    ensures forall n :: n in Seen(vehicles) ==> exists i :: 0 <= i < |vehicles| && NumberOf(vehicles[i].vid) == n
  {
    if vehicles != [] {
      var init := vehicles[..|vehicles| - 1];
      SeenNumbers(init);
      assert forall i :: 0 <= i < |init| ==> init[i] == vehicles[i];
    }
  }

  /** Whether a roster id is still to be looked up: its number was not seen live. */
  function NotSeen(seen: set<IdNumber>): string -> bool
  {
    id => NumberOf(id) !in seen
  }

  /** Whether the store has a row for an id. */
  function HasRow(store: string -> Option<Row>): string -> bool
  {
    id => store(id).Some?
  }

  /** The store queries the handler issues: the roster ids not seen live, in roster order. */
  function Queries(vehicles: seq<LiveVehicle>, roster: seq<string>): seq<string>
  {
    Select(roster, NotSeen(Seen(vehicles)))
  }

  /** The features appended for the queried ids, one per id the store has a row for. */
  function Fallbacks(queried: seq<string>, store: string -> Option<Row>): seq<Feature>
  {
    if queried == [] then []
    else
      var id := queried[|queried| - 1];
      Fallbacks(queried[..|queried| - 1], store) +
        match store(id)
        case None => []
        case Some(row) => [FallbackFeature(id, row)]
  }

  /** The vehicle ids of a sequence of features. */
  function Ids(features: seq<Feature>): seq<string>
  {
    seq(|features|, k requires 0 <= k < |features| => features[k].properties.vehicleId)
  }

  /** The features of the response: the live ones, then the fallbacks. */
  function Features(vehicles: seq<LiveVehicle>, roster: seq<string>, store: string -> Option<Row>): seq<Feature>
  {
    LiveFeatures(vehicles) + Fallbacks(Queries(vehicles, roster), store)
  }

  /** The response the handler returns around its features (api/buses.mjs:116-122). */
  function Respond(features: seq<Feature>): Response
  {
    Response(200, map["Content-Type" := "application/json"], FeatureCollection("FeatureCollection", features))
  }

  // ---------------------------------------------------------------------
  // The handler
  // ---------------------------------------------------------------------

  /**
   * The handler's feature building: the live pass, then the roster pass
   * appending to the same features. `queries` records the ids queried, in
   * order.
   */
  method BuildFeatures(vehicles: seq<LiveVehicle>, roster: seq<string>, store: string -> Option<Row>)
    returns (features: seq<Feature>, queries: seq<string>)
    ensures features == Features(vehicles, roster, store)
    ensures queries == Queries(vehicles, roster)
  {
    var seen;
    features, seen := AddLiveVehicles(vehicles);
    features, queries := AddFallbacks(features, roster, seen, store);
  }

  /** The `forEach` over the live vehicles: one feature per vehicle, and the numbers of their ids. */
  method AddLiveVehicles(vehicles: seq<LiveVehicle>) returns (features: seq<Feature>, seen: set<IdNumber>)
    ensures features == LiveFeatures(vehicles)
    ensures seen == Seen(vehicles)
  {
    seen := {};
    features := [];
    var i := 0;
    while i < |vehicles|
      invariant 0 <= i <= |vehicles|
      invariant features == LiveFeatures(vehicles[..i])
      invariant seen == Seen(vehicles[..i])
    {
      var vehicle := vehicles[i];
      LiveStep(vehicles, i);
      features := features + [LiveFeature(vehicle)];
      seen := seen + {NumberOf(vehicle.vid)};
      i := i + 1;
    }
    assert vehicles[..i] == vehicles;
  }

  /**
   * The loop over the roster: an id whose number was seen is skipped
   * (`continue`); any other id is queried, and a feature is appended to
   * `live` when the store returns a row.
   */
  method AddFallbacks(live: seq<Feature>, roster: seq<string>, seen: set<IdNumber>, store: string -> Option<Row>)
    returns (features: seq<Feature>, queries: seq<string>)
    ensures queries == Select(roster, NotSeen(seen))
    ensures features == live + Fallbacks(queries, store)
  {
    features := live;
    queries := [];
    ghost var keep := NotSeen(seen);
    var j := 0;
    while j < |roster|
      invariant 0 <= j <= |roster|
      invariant queries == Select(roster[..j], keep)
      invariant features == live + Fallbacks(queries, store)
    {
      var vehicleId := roster[j];
      SelectStep(roster, j, keep);
      assert keep(vehicleId) <==> NumberOf(vehicleId) !in seen;
      if NumberOf(vehicleId) in seen {
        j := j + 1;
        continue;
      }
      FallbacksStep(live, queries, vehicleId, store);
      queries := queries + [vehicleId];
      var item := store(vehicleId);
      if item.Some? {
        features := features + [FallbackFeature(vehicleId, item.value)];
      }
      j := j + 1;
    }
    assert roster[..j] == roster;
  }

  lemma LiveStep(vehicles: seq<LiveVehicle>, i: nat)
    requires i < |vehicles|
    ensures LiveFeatures(vehicles[..i + 1]) == LiveFeatures(vehicles[..i]) + [LiveFeature(vehicles[i])]
    ensures Seen(vehicles[..i + 1]) == Seen(vehicles[..i]) + {NumberOf(vehicles[i].vid)}
  {
    assert vehicles[..i + 1][..i] == vehicles[..i];
  }

  lemma SelectStep(xs: seq<string>, j: nat, keep: string -> bool)
    requires j < |xs|
    ensures Select(xs[..j + 1], keep) == Select(xs[..j], keep) + (if keep(xs[j]) then [xs[j]] else [])
  {
    assert xs[..j + 1][..j] == xs[..j];
  }

  lemma FallbacksStep(live: seq<Feature>, queried: seq<string>, id: string, store: string -> Option<Row>)
    ensures store(id).None? ==> live + Fallbacks(queried + [id], store) == live + Fallbacks(queried, store)
    ensures store(id).Some? ==>
      live + Fallbacks(queried + [id], store) == live + Fallbacks(queried, store) + [FallbackFeature(id, store(id).value)]
  {
    assert (queried + [id])[..|queried|] == queried;
  }

  /**
   * The handler: None when the live response has no vehicle list (the
   * invocation then fails before any store query), otherwise status 200, a
   * JSON content type and the merged FeatureCollection. `queries` are the
   * store queries issued.
   */
  method Handler(fetched: Option<seq<LiveVehicle>>, store: string -> Option<Row>)
    returns (result: Option<Response>, queries: seq<string>)
    ensures fetched.None? ==> result.None? && queries == []
    ensures fetched.Some? ==> result == Some(Respond(Features(fetched.value, Roster, store)))
    ensures fetched.Some? ==> queries == Queries(fetched.value, Roster)
    ensures result.Some? ==>
      result.value.statusCode == 200 &&
      result.value.headers == map["Content-Type" := "application/json"] &&
      result.value.body.collectionType == "FeatureCollection"
  {
    if fetched.None? {
      return None, [];
    }
    var features;
    features, queries := BuildFeatures(fetched.value, Roster, store);
    result := Some(Respond(features));
  }

  // ---------------------------------------------------------------------
  // Properties of the merge
  // ---------------------------------------------------------------------

  /** The fallback features carry, in order, the queried ids the store has a row for. */
  lemma {:induction false} FallbackIds(queried: seq<string>, store: string -> Option<Row>)
    ensures Ids(Fallbacks(queried, store)) == Select(queried, HasRow(store))
  {
    if queried != [] {
      var init, id := queried[..|queried| - 1], queried[|queried| - 1];
      FallbackIds(init, store);
      var before := Fallbacks(init, store);
      if store(id).Some? {
        assert Ids(before + [FallbackFeature(id, store(id).value)]) == Ids(before) + [id];
      }
    }
  }

  /** A feature that is the feature of the row the store returns for its own id. */
  predicate FromStore(f: Feature, store: string -> Option<Row>)
  {
    store(f.properties.vehicleId).Some? &&
    f == FallbackFeature(f.properties.vehicleId, store(f.properties.vehicleId).value)
  }

  /** Every fallback feature is the feature of the row the store returned for its id. */
  lemma {:induction false} FallbacksFromStore(queried: seq<string>, store: string -> Option<Row>)
    ensures forall k :: 0 <= k < |Fallbacks(queried, store)| ==> FromStore(Fallbacks(queried, store)[k], store)
  {
    if queried != [] {
      FallbacksFromStore(queried[..|queried| - 1], store);
    }
  }

  /** The live vehicles come first, one feature each, in fetch order, with their fields unchanged. */
  lemma LiveFeaturesFirst(vehicles: seq<LiveVehicle>, roster: seq<string>, store: string -> Option<Row>)
    ensures |Features(vehicles, roster, store)| >= |vehicles|
    ensures forall i :: 0 <= i < |vehicles| ==>
      Features(vehicles, roster, store)[i].properties ==
        Properties(vehicles[i].vid, Live(vehicles[i].lat), Live(vehicles[i].lon), vehicles[i].tmstmp)
  {
  }

  /** Every feature is a GeoJSON point whose coordinates are [longitude, latitude] of its own properties. */
  lemma FeaturesArePoints(vehicles: seq<LiveVehicle>, roster: seq<string>, store: string -> Option<Row>)
    ensures forall f :: f in Features(vehicles, roster, store) ==>
      f.featureType == "Feature" && f.geometry.geometryType == "Point" &&
      f.geometry.coordinates == [f.properties.longitude, f.properties.latitude]
  {
    FallbacksFromStore(Queries(vehicles, roster), store);
  }

  /** The ids that get a fallback feature: roster ids not seen live that have a stored row. */
  function IsFallbackId(seen: set<IdNumber>, store: string -> Option<Row>): string -> bool
  {
    Both(NotSeen(seen), HasRow(store))
  }

  /**
   * The fallback features follow the live ones; their ids are, in roster
   * order, exactly the roster ids whose number was not seen live and that
   * have a stored row.
   */
  lemma FallbackOrder(vehicles: seq<LiveVehicle>, roster: seq<string>, store: string -> Option<Row>)
    ensures Ids(Features(vehicles, roster, store)[|vehicles|..]) == Select(roster, IsFallbackId(Seen(vehicles), store))
  {
    var q := Queries(vehicles, roster);
    FallbackIds(q, store);
    assert Features(vehicles, roster, store)[|vehicles|..] == Fallbacks(q, store);
    SelectTwice(roster, NotSeen(Seen(vehicles)), HasRow(store));
  }

  /** Each fallback feature is the feature of the stored row of a roster id not seen live. */
  lemma FallbackOrigin(vehicles: seq<LiveVehicle>, roster: seq<string>, store: string -> Option<Row>)
    ensures forall j :: |vehicles| <= j < |Features(vehicles, roster, store)| ==>
      var f := Features(vehicles, roster, store)[j];
      var id := f.properties.vehicleId;
      id in roster && NumberOf(id) !in Seen(vehicles) && store(id).Some? &&
      f == FallbackFeature(id, store(id).value)
  {
    var fs, q := Features(vehicles, roster, store), Queries(vehicles, roster);
    var n := |vehicles|;
    FallbackOrder(vehicles, roster, store);
    TailIdsSelected(fs, n, roster, IsFallbackId(Seen(vehicles), store));
    FallbacksFromStore(q, store);
    assert fs[n..] == Fallbacks(q, store);
    TailFromStore(fs, n, Fallbacks(q, store), store);
  }

  lemma TailFromStore(fs: seq<Feature>, n: nat, tail: seq<Feature>, store: string -> Option<Row>)
    requires n <= |fs| && tail == fs[n..]
    requires forall k :: 0 <= k < |tail| ==> FromStore(tail[k], store)
    ensures forall j :: n <= j < |fs| ==> FromStore(fs[j], store)
  {
    forall j | n <= j < |fs| ensures FromStore(fs[j], store) {
      assert fs[j] == tail[j - n];
    }
  }

  lemma TailIdsSelected(fs: seq<Feature>, n: nat, roster: seq<string>, keep: string -> bool)
    requires n <= |fs| && Ids(fs[n..]) == Select(roster, keep)
    ensures forall j :: n <= j < |fs| ==> fs[j].properties.vehicleId in roster && keep(fs[j].properties.vehicleId)
  {
    forall j | n <= j < |fs|
      ensures fs[j].properties.vehicleId in roster && keep(fs[j].properties.vehicleId)
    {
      var id := fs[j].properties.vehicleId;
      assert Ids(fs[n..])[j - n] == id;
      SelectCount(roster, keep, id);
    }
  }

  /** No fallback feature carries the number of a live vehicle. */
  lemma FallbacksAvoidLiveNumbers(vehicles: seq<LiveVehicle>, roster: seq<string>, store: string -> Option<Row>)
    ensures forall j, i :: |vehicles| <= j < |Features(vehicles, roster, store)| && 0 <= i < |vehicles| ==>
      NumberOf(Features(vehicles, roster, store)[j].properties.vehicleId) != NumberOf(vehicles[i].vid)
  {
    FallbackOrigin(vehicles, roster, store);
    SeenNumbers(vehicles);
  }

  /**
   * The store is queried for the roster ids not seen live, in roster order:
   * the k-th query is the roster id at the k-th such position, and a roster
   * position is queried exactly when the number of its id was not seen.
   */
  lemma QueriesInRosterOrder(vehicles: seq<LiveVehicle>, roster: seq<string>)
    ensures var q, p := Queries(vehicles, roster), Positions(roster, NotSeen(Seen(vehicles)));
      |p| == |q| &&
      (forall k :: 0 <= k < |p| ==> p[k] < |roster| && q[k] == roster[p[k]]) &&
      (forall k, l :: 0 <= k < l < |p| ==> p[k] < p[l]) &&
      (forall i :: 0 <= i < |roster| ==> (i in p <==> NumberOf(roster[i]) !in Seen(vehicles)))
  {
    SelectIsOrdered(roster, NotSeen(Seen(vehicles)));
  }

  /** Each id is queried as often as it occurs in the roster if its number was not seen, and never otherwise. */
  lemma QueriesPerId(vehicles: seq<LiveVehicle>, roster: seq<string>)
    ensures forall id :: multiset(Queries(vehicles, roster))[id] ==
                         (if NumberOf(id) in Seen(vehicles) then 0 else multiset(roster)[id])
  {
    forall id
      ensures multiset(Queries(vehicles, roster))[id] ==
        if NumberOf(id) in Seen(vehicles) then 0 else multiset(roster)[id]
    {
      SelectCount(roster, NotSeen(Seen(vehicles)), id);
    }
  }

  /** Each queried id yields one fallback feature per query when the store has a row for it, and none otherwise. */
  lemma FallbacksPerQuery(vehicles: seq<LiveVehicle>, roster: seq<string>, store: string -> Option<Row>)
    ensures forall id :: multiset(Ids(Features(vehicles, roster, store)[|vehicles|..]))[id] ==
                         (if store(id).Some? then multiset(Queries(vehicles, roster))[id] else 0)
  {
    var q := Queries(vehicles, roster);
    FallbackIds(q, store);
    assert Features(vehicles, roster, store)[|vehicles|..] == Fallbacks(q, store);
    forall id
      ensures multiset(Ids(Fallbacks(q, store)))[id] == if store(id).Some? then multiset(q)[id] else 0
    {
      SelectCount(q, HasRow(store), id);
    }
  }

  /**
   * With a roster without repeated ids, there is one feature per live vehicle
   * and one per roster id that was not seen live and has a stored row.
   */
  lemma FeatureCount(vehicles: seq<LiveVehicle>, roster: seq<string>, store: string -> Option<Row>)
    requires Distinct(roster)
    ensures |Features(vehicles, roster, store)| ==
      |vehicles| + |set id | id in roster && NumberOf(id) !in Seen(vehicles) && store(id).Some?|
  {
    var q := Queries(vehicles, roster);
    FallbackIds(q, store);
    SelectDistinct(roster, NotSeen(Seen(vehicles)));
    SelectSize(q, HasRow(store));
    var fromQueries := set id | id in q && HasRow(store)(id);
    var fromRoster := set id | id in roster && NumberOf(id) !in Seen(vehicles) && store(id).Some?;
    forall id ensures id in fromQueries <==> id in fromRoster {
      SelectCount(roster, NotSeen(Seen(vehicles)), id);
    }
    assert fromQueries == fromRoster;
  }

  /** No two ids of the sequence have the same number. */
  predicate DistinctNumbers(ids: seq<string>)
  {
    forall i, j :: 0 <= i < j < |ids| ==> NumberOf(ids[i]) != NumberOf(ids[j])
  }

  /**
   * With a roster whose ids have distinct numbers, no two features carry the
   * same number: the fallback ids are roster ids at distinct positions, and
   * none has the number of a live vehicle.
   */
  lemma NoFallbackDuplicates(vehicles: seq<LiveVehicle>, roster: seq<string>, store: string -> Option<Row>)
    requires DistinctNumbers(roster)
    ensures var fs := Features(vehicles, roster, store);
      forall j, k :: |vehicles| <= j < k < |fs| ==>
        NumberOf(fs[j].properties.vehicleId) != NumberOf(fs[k].properties.vehicleId)
  {
    var fs := Features(vehicles, roster, store);
    FallbackOrder(vehicles, roster, store);
    SelectKeepsDistinctNumbers(roster, IsFallbackId(Seen(vehicles), store));
    DistinctTailNumbers(fs, |vehicles|);
  }

  lemma DistinctTailNumbers(fs: seq<Feature>, n: nat)
    requires n <= |fs| && DistinctNumbers(Ids(fs[n..]))
    ensures forall j, k :: n <= j < k < |fs| ==>
      NumberOf(fs[j].properties.vehicleId) != NumberOf(fs[k].properties.vehicleId)
  {
    var ids := Ids(fs[n..]);
    forall j, k | n <= j < k < |fs|
      ensures NumberOf(fs[j].properties.vehicleId) != NumberOf(fs[k].properties.vehicleId)
    {
      assert ids[j - n] == fs[j].properties.vehicleId;
      assert ids[k - n] == fs[k].properties.vehicleId;
    }
  }

  lemma SelectKeepsDistinctNumbers(xs: seq<string>, keep: string -> bool)
    requires DistinctNumbers(xs)
    ensures DistinctNumbers(Select(xs, keep))
  {
    SelectIsOrdered(xs, keep);
    var s, p := Select(xs, keep), Positions(xs, keep);
    forall a, b | 0 <= a < b < |s| ensures NumberOf(s[a]) != NumberOf(s[b]) {
      assert s[a] == xs[p[a]] && s[b] == xs[p[b]] && p[a] < p[b];
    }
  }

  // ---------------------------------------------------------------------
  // The roster and two concrete requests
  // ---------------------------------------------------------------------

  lemma FourDigitsValue(s: string)
    requires |s| == 4 && FixedPoint.AllDigits(s)
    ensures FixedPoint.DigitsValue(s) ==
      FixedPoint.DigitValue(s[0]) * 1000 + FixedPoint.DigitValue(s[1]) * 100 +
      FixedPoint.DigitValue(s[2]) * 10 + FixedPoint.DigitValue(s[3])
  {
    var s1, s2, s3 := s[..1], s[..2], s[..3];
    assert s1[..0] == [] && s2[..1] == s1 && s3[..2] == s2;
    assert FixedPoint.DigitsValue(s1) == FixedPoint.DigitValue(s[0]);
    assert FixedPoint.DigitsValue(s2) == FixedPoint.DigitValue(s[0]) * 10 + FixedPoint.DigitValue(s[1]);
    assert FixedPoint.DigitsValue(s3) == FixedPoint.DigitsValue(s2) * 10 + FixedPoint.DigitValue(s[2]);
    assert FixedPoint.DigitsValue(s) == FixedPoint.DigitsValue(s3) * 10 + FixedPoint.DigitValue(s[3]);
  }

  lemma NumberOfFourDigits(s: string, n: nat)
    requires |s| == 4 && FixedPoint.AllDigits(s)
    requires n == FixedPoint.DigitValue(s[0]) * 1000 + FixedPoint.DigitValue(s[1]) * 100 +
                 FixedPoint.DigitValue(s[2]) * 10 + FixedPoint.DigitValue(s[3])
    ensures NumberOf(s) == Integer(n)
  {
    FourDigitsValue(s);
  }

  /** The roster ids are the vehicles 135, 143, 754, 756 and 757. */
  lemma RosterNumbers()
    ensures NumberOf(Roster[0]) == Integer(135) && NumberOf(Roster[1]) == Integer(143)
    ensures NumberOf(Roster[2]) == Integer(754) && NumberOf(Roster[3]) == Integer(756)
    ensures NumberOf(Roster[4]) == Integer(757)
  {
    assert NumberOf(Roster[0]) == Integer(135) by { NumberOfFourDigits(Roster[0], 135); }
    assert NumberOf(Roster[1]) == Integer(143) by { NumberOfFourDigits(Roster[1], 143); }
    assert NumberOf(Roster[2]) == Integer(754) by { NumberOfFourDigits(Roster[2], 754); }
    assert NumberOf(Roster[3]) == Integer(756) by { NumberOfFourDigits(Roster[3], 756); }
    assert NumberOf(Roster[4]) == Integer(757) by { NumberOfFourDigits(Roster[4], 757); }
  }

  /** The roster ids are distinct as numbers, hence also as text. */
  lemma RosterDistinct()
    ensures DistinctNumbers(Roster) && Distinct(Roster)
  {
    RosterNumbers();
  }

  /**
   * For the fixed roster every roster id not seen live is queried exactly
   * once and every other id never; each queried id gets exactly one fallback
   * feature if the store has a row for it and none otherwise.
   */
  lemma RosterLookups(vehicles: seq<LiveVehicle>, store: string -> Option<Row>, id: string)
    ensures multiset(Queries(vehicles, Roster))[id] ==
      (if id in Roster && NumberOf(id) !in Seen(vehicles) then 1 else 0)
    ensures multiset(Ids(Features(vehicles, Roster, store)[|vehicles|..]))[id] ==
      (if id in Roster && NumberOf(id) !in Seen(vehicles) && store(id).Some? then 1 else 0)
  {
    RosterDistinct();
    DistinctCount(Roster, id);
    QueriesPerId(vehicles, Roster);
    FallbacksPerQuery(vehicles, Roster, store);
  }

  /** With no live vehicle every roster id is queried, and the features are those of the stored rows, in roster order. */
  lemma NoLiveVehicles(store: string -> Option<Row>)
    ensures Queries([], Roster) == Roster
    ensures Ids(Features([], Roster, store)) == Select(Roster, HasRow(store))
  {
    SelectAll(Roster, NotSeen(Seen([])));
    FallbackIds(Roster, store);
    assert Features([], Roster, store) == Fallbacks(Roster, store);
  }

  /**
   * Vehicles 0135 and 9999 report live and the store has rows for 0143 and
   * 0754 only: the live features come first, then 0143 and 0754; 0756 and
   * 0757 are queried and get nothing; 0135 is not queried.
   */
  lemma TwoLiveTwoStored(vehicles: seq<LiveVehicle>, store: string -> Option<Row>)
    requires |vehicles| == 2 && vehicles[0].vid == "0135" && vehicles[1].vid == "9999"
    requires forall id :: store(id).Some? <==> id == "0143" || id == "0754"
    ensures Queries(vehicles, Roster) == ["0143", "0754", "0756", "0757"]
    ensures Ids(Features(vehicles, Roster, store)) == ["0135", "9999", "0143", "0754"]
  {
    var q := Queries(vehicles, Roster);
    assert q == ["0143", "0754", "0756", "0757"] by { TwoLiveQueries(vehicles); }
    var live, fallbacks := LiveFeatures(vehicles), Fallbacks(q, store);
    assert Ids(live) == ["0135", "9999"] by {
      assert [vehicles[0].vid, vehicles[1].vid] == ["0135", "9999"];
      TwoLiveIds(vehicles);
    }
    assert Ids(fallbacks) == ["0143", "0754"] by { TwoStoredFallbacks(q, store); }
    assert Features(vehicles, Roster, store) == live + fallbacks;
    IdsAppend(live, fallbacks);
  }

  lemma IdsAppend(a: seq<Feature>, b: seq<Feature>)
    ensures Ids(a + b) == Ids(a) + Ids(b)
  {
  }

  lemma TwoLiveIds(vehicles: seq<LiveVehicle>)
    requires |vehicles| == 2
    ensures Ids(LiveFeatures(vehicles)) == [vehicles[0].vid, vehicles[1].vid]
  {
    var live := LiveFeatures(vehicles);
    assert live[0] == LiveFeature(vehicles[0]) && live[1] == LiveFeature(vehicles[1]);
  }

  lemma TwoLiveQueries(vehicles: seq<LiveVehicle>)
    requires |vehicles| == 2 && vehicles[0].vid == "0135" && vehicles[1].vid == "9999"
    ensures Queries(vehicles, Roster) == ["0143", "0754", "0756", "0757"]
  {
    RosterNumbers();
    NumberOfFourDigits(vehicles[1].vid, 9999);
    var seen := Seen(vehicles);
    assert seen == {Integer(135), Integer(9999)} by {
      assert vehicles[..1][..0] == [];
      assert vehicles[..1] == [vehicles[0]];
      assert Seen(vehicles[..1]) == {NumberOf(vehicles[0].vid)};
    }
    var keep := NotSeen(seen);
    var r := Roster;
    assert r[..1][..0] == [] && r[..2][..1] == r[..1] && r[..3][..2] == r[..2];
    assert r[..4][..3] == r[..3] && r[..5][..4] == r[..4];
    assert Select(r[..1], keep) == [];
    assert Select(r[..2], keep) == [r[1]];
    assert Select(r[..3], keep) == [r[1], r[2]];
    assert Select(r[..4], keep) == [r[1], r[2], r[3]];
    assert r[..5] == r;
  }

  lemma TwoStoredFallbacks(q: seq<string>, store: string -> Option<Row>)
    requires q == ["0143", "0754", "0756", "0757"]
    requires forall id :: store(id).Some? <==> id == "0143" || id == "0754"
    ensures Ids(Fallbacks(q, store)) == ["0143", "0754"]
  {
    FallbackIds(q, store);
    var keep := HasRow(store);
    assert keep(q[0]) && keep(q[1]) && !keep(q[2]) && !keep(q[3]);
    assert q[..1][..0] == [] && q[..2][..1] == q[..1] && q[..3][..2] == q[..2] && q[..4][..3] == q[..3];
    assert Select(q[..1], keep) == [q[0]];
    assert Select(q[..2], keep) == [q[0], q[1]];
    assert Select(q[..3], keep) == [q[0], q[1]];
    assert q[..4] == q;
  }
}
