/** How the application wires the pieces together when the search button
    is pressed: the station lists come from the line's stops, the name
    index and the station resolution from a stops table. */
module Tracker {
  import opened Text
  import opened Gtfs
  import opened StopIndex
  import opened LineStops
  import opened Arrivals

  /** Any station offered in the line's list is found by name in the
      whole stops table, so the "not found" path is not reached from the
      selection lists. */
  lemma SelectedStationResolves(lineLabel: String, routes: seq<Route>, trips: seq<Trip>,
                                stopTimes: seq<StopTime>, stops: seq<Stop>, x: Stop)
    requires x in StopsForLine(lineLabel, routes, trips, stopTimes, stops)
    ensures FirstStopIdNamed(stops, x.stopName).Some?
  {
    StopsForLineServed(lineLabel, routes, trips, stopTimes, stops);
    var i :| 0 <= i < |stops| && stops[i] == x;
  }

  // Two lines that both stop at a station called "Canal St": the 1 train
  // at platform 138N and the A train at platform A34N.
  const CanalRoutes: seq<Route> := [Route("1"), Route("A")]
  const CanalTrips: seq<Trip> := [Trip("1", "t1"), Trip("A", "tA")]
  const CanalStopTimes: seq<StopTime> := [StopTime("t1", "138N"), StopTime("tA", "A34N")]
  const CanalStops: seq<Stop> := [Stop("138N", "Canal St"), Stop("A34N", "Canal St")]
  const CanalArrival: StopTimeUpdate := StopTimeUpdate("A34N", Some(1700000000))
  const CanalFeed: seq<Entity> := [Entity(Some(TripUpdate(TripDescriptor("A"), [CanalArrival])))]

  lemma CanalServedByA()
    ensures Serves(LineToken("A-C-E"), CanalRoutes, CanalTrips, CanalStopTimes, CanalStops[1])
  {
  }

  lemma CanalOtherNotServedByA()
    ensures !Serves(LineToken("A-C-E"), CanalRoutes, CanalTrips, CanalStopTimes, CanalStops[0])
  {
    LineTokenExamples();
    assert Lower("1") == "1";
    assert !Contains("1", "a") by {
      assert !StartsWith("1", "a");
      assert !Contains("", "a");
    }
  }

  lemma CanalOffered()
    ensures "Canal St" in Names(StopsForLine("A-C-E", CanalRoutes, CanalTrips, CanalStopTimes, CanalStops))
  {
    CanalServedByA();
    StopsForLineComplete("A-C-E", CanalRoutes, CanalTrips, CanalStopTimes, CanalStops);
    assert CanalStops[1] in CanalStops;
  }

  lemma CanalNoRows()
    ensures FeedRows(CanalFeed, "138", "138", BuildIndex(CanalStops)) == []
  {
    assert "A34N"[..3] == "A34";
    assert "A34"[0] != "138"[0];
    assert !StartsWith("A34N", "138");
    EntityRowsSingle(CanalFeed[0], CanalArrival, "138", "138", BuildIndex(CanalStops));
  }

  lemma CanalLineBases()
    ensures forall s :: s in CanalStops && Serves(LineToken("A-C-E"), CanalRoutes, CanalTrips, CanalStopTimes, s) ==>
      BaseCode(s.stopId) != "138"
  {
    CanalOtherNotServedByA();
    assert BaseCode("A34N") == "A34";
    assert "A34"[0] != "138"[0];
    forall s | s in CanalStops && Serves(LineToken("A-C-E"), CanalRoutes, CanalTrips, CanalStopTimes, s)
      ensures BaseCode(s.stopId) != "138"
    {
      assert s == CanalStops[0] || s == CanalStops[1];
    }
  }

  /** As written, the station name is resolved in the whole stops table:
      the A-C-E list offers "Canal St" (for platform A34N), but the first
      "Canal St" row is the 1 train's 138N, so the search looks for base
      code "138", which no stop of the line has, and an A train due at
      A34N is not reported. */
  lemma FullTableResolvesOtherLine()
    ensures "Canal St" in Names(StopsForLine("A-C-E", CanalRoutes, CanalTrips, CanalStopTimes, CanalStops))
    ensures FirstStopIdNamed(CanalStops, "Canal St") == Some("138N")
    ensures forall s :: s in CanalStops && Serves(LineToken("A-C-E"), CanalRoutes, CanalTrips, CanalStopTimes, s) ==>
      BaseCode(s.stopId) != BaseCode("138N")
    ensures FeedRows(CanalFeed, BaseCode("138N"), BaseCode("138N"), BuildIndex(CanalStops)) == []
  {
    CanalOffered();
    CanalLineBases();
    assert BaseCode("138N") == "138";
    CanalNoRows();
  }

  /** The search as wired, on the two-line example: the selected
      "Canal St" is found in the whole stops table, yet no row is
      reported for the A train due at A34N. */
  method CanalSearchAsWritten() returns (rows: seq<ArrivalRow>, stopsFound: bool)
    ensures stopsFound && rows == []
  {
    FullTableResolvesOtherLine();
    rows, stopsFound := ParseFeed(FeedMessage(CanalFeed), CanalStops, BuildIndex(CanalStops), "Canal St", "Canal St");
  }

  /** A name offered in the line's list, carried by a single served row
      of the stops table, resolves within the list to that row. */
  lemma OfferedNameResolves(lineLabel: String, routes: seq<Route>, trips: seq<Trip>,
                            stopTimes: seq<StopTime>, stops: seq<Stop>, name: String, x: Stop)
    requires name in Names(StopsForLine(lineLabel, routes, trips, stopTimes, stops))
    requires forall y :: (y in stops && Serves(LineToken(lineLabel), routes, trips, stopTimes, y) &&
                          y.stopName == name) ==> y == x
    ensures FirstStopIdNamed(StopsForLine(lineLabel, routes, trips, stopTimes, stops), name) == Some(x.stopId)
  {
    var y :| y in StopsForLine(lineLabel, routes, trips, stopTimes, stops) && y.stopName == name;
    StopsForLineServed(lineLabel, routes, trips, stopTimes, stops);
    LineStopsResolveWithinLine(lineLabel, routes, trips, stopTimes, stops, y);
  }

  /** Of the two example stops, the A-C-E token serves only A34N. */
  lemma CanalOnlyA34Served()
    ensures forall y :: y in CanalStops && Serves(LineToken("A-C-E"), CanalRoutes, CanalTrips, CanalStopTimes, y) ==>
      y == CanalStops[1]
  {
    CanalOtherNotServedByA();
    forall y | y in CanalStops && Serves(LineToken("A-C-E"), CanalRoutes, CanalTrips, CanalStopTimes, y)
      ensures y == CanalStops[1]
    {
      assert y == CanalStops[0] || y == CanalStops[1];
    }
  }

  /** Within the A-C-E line, "Canal St" is platform A34N. */
  lemma CanalResolvedWithinLine()
    ensures FirstStopIdNamed(StopsForLine("A-C-E", CanalRoutes, CanalTrips, CanalStopTimes, CanalStops), "Canal St")
            == Some("A34N")
  {
    CanalOffered();
    CanalOnlyA34Served();
    OfferedNameResolves("A-C-E", CanalRoutes, CanalTrips, CanalStopTimes, CanalStops, "Canal St", CanalStops[1]);
  }

  /** An A train due at A34N is matched by base code "A34" and named
      through the index. */
  lemma CanalA34Rows()
    ensures FeedRows(CanalFeed, "A34", "A34", BuildIndex(CanalStops)) ==
            [ArrivalRow("A", "A34N", "Canal St", 1700000000)]
  {
    assert "A34N"[..3] == "A34";
    assert StartsWith("A34N", "A34");
    assert BaseCode("138N") == "138";
    assert BaseCode("A34N") == "A34";
    assert CanalStops[..1] == [CanalStops[0]];
    assert [CanalStops[0]][..0] == [];
    assert BuildIndex(CanalStops)["A34"] == "Canal St";
    EntityRowsSingle(CanalFeed[0], CanalArrival, "A34", "A34", BuildIndex(CanalStops));
  }

  /** Corrected, "Canal St" resolves within the A-C-E line to platform
      A34N, and the A train due there is reported under that station's
      name. */
  lemma CanalCorrectedRow()
    ensures FirstStopIdNamed(StopsForLine("A-C-E", CanalRoutes, CanalTrips, CanalStopTimes, CanalStops), "Canal St")
            == Some("A34N")
    ensures FeedRows(CanalFeed, BaseCode("A34N"), BaseCode("A34N"), BuildIndex(CanalStops)) ==
            [ArrivalRow("A", "A34N", "Canal St", 1700000000)]
  {
    CanalResolvedWithinLine();
    assert BaseCode("A34N") == "A34";
    CanalA34Rows();
  }

  /** Resolving the selected name in the line's own stops, which hold one
      row per name, gives exactly the row offered in the list: a stop the
      line serves. */
  lemma LineStopsResolveWithinLine(lineLabel: String, routes: seq<Route>, trips: seq<Trip>,
                                   stopTimes: seq<StopTime>, stops: seq<Stop>, x: Stop)
    requires x in StopsForLine(lineLabel, routes, trips, stopTimes, stops)
    ensures FirstStopIdNamed(StopsForLine(lineLabel, routes, trips, stopTimes, stops), x.stopName) == Some(x.stopId)
    ensures Serves(LineToken(lineLabel), routes, trips, stopTimes, x)
  {
    var lineStops := StopsForLine(lineLabel, routes, trips, stopTimes, stops);
    StopsForLineSorted(lineLabel, routes, trips, stopTimes, stops);
    StopsForLineServed(lineLabel, routes, trips, stopTimes, stops);
    var k :| 0 <= k < |lineStops| && lineStops[k] == x;
    var r := FirstStopIdNamed(lineStops, x.stopName);
    assert r.Some?;
    var i :| 0 <= i < |lineStops| && lineStops[i].stopName == x.stopName && lineStops[i].stopId == r.value
             && forall j :: 0 <= j < i ==> lineStops[j].stopName != x.stopName;
    assert i == k;
  }

  /** The search for a line and two selected station names, resolving the
      names in the line's stops and naming stations through the index of
      the whole stops table. Names from the line's list are always found,
      and the rows are those of the two offered platforms' base codes. */
  method SearchArrivals(feed: FeedMessage, lineLabel: String, routes: seq<Route>, trips: seq<Trip>,
                        stopTimes: seq<StopTime>, stops: seq<Stop>, startStop: String, endStop: String)
    returns (rows: seq<ArrivalRow>, stopsFound: bool)
    ensures stopsFound <==>
      var lineStops := StopsForLine(lineLabel, routes, trips, stopTimes, stops);
      startStop in Names(lineStops) && endStop in Names(lineStops)
    ensures !stopsFound ==> rows == []
    ensures forall s, t :: s in StopsForLine(lineLabel, routes, trips, stopTimes, stops) &&
                           t in StopsForLine(lineLabel, routes, trips, stopTimes, stops) &&
                           s.stopName == startStop && t.stopName == endStop ==>
      rows == FeedRows(feed.entities, BaseCode(s.stopId), BaseCode(t.stopId), BuildIndex(stops))
  {
    var lineStops := StopsForLine(lineLabel, routes, trips, stopTimes, stops);
    var stopIdToName := BuildIndex(stops);
    rows, stopsFound := ParseFeed(feed, lineStops, stopIdToName, startStop, endStop);
    forall x | x in lineStops
      ensures FirstStopIdNamed(lineStops, x.stopName) == Some(x.stopId)
    {
      LineStopsResolveWithinLine(lineLabel, routes, trips, stopTimes, stops, x);
    }
    if FirstStopIdNamed(lineStops, startStop).Some? {
      var i :| 0 <= i < |lineStops| && lineStops[i].stopName == startStop;
      assert lineStops[i] in lineStops;
    }
    if FirstStopIdNamed(lineStops, endStop).Some? {
      var i :| 0 <= i < |lineStops| && lineStops[i].stopName == endStop;
      assert lineStops[i] in lineStops;
    }
  }
}
