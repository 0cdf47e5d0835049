/** The line-to-stops resolver `get_stops_for_line`: the stations a
    subway line serves, one row per station name, ordered by name. */
module LineStops {
  import opened Text
  import opened Gtfs

  /** The line token: the label lower-cased, every "gtfs-" removed, cut
      at the first '-' ("A-C-E" gives "a"). */
  function LineToken(lineLabel: String): String
  {
    CutAt(RemoveAll(Lower(lineLabel), "gtfs-"), '-')
  }

  /** The token is the leading part of the normalised label up to (not
      including) its first '-', and has no upper-case letter. */
  lemma LineTokenShape(lineLabel: String)
    ensures var stripped := RemoveAll(Lower(lineLabel), "gtfs-");
      && LineToken(lineLabel) <= stripped
      && '-' !in LineToken(lineLabel)
      && (|LineToken(lineLabel)| < |stripped| ==> stripped[|LineToken(lineLabel)|] == '-')
    ensures forall i :: 0 <= i < |LineToken(lineLabel)| ==> !IsUpper(LineToken(lineLabel)[i])
  {
    var stripped := RemoveAll(Lower(lineLabel), "gtfs-");
    var token := LineToken(lineLabel);
    LowerHasNoUpper(lineLabel);
    forall i | 0 <= i < |token|
      ensures !IsUpper(token[i])
    {
      assert token[i] in stripped;
    }
  }

  /** The normalised label has no upper-case letter: removal keeps only
      characters of its (lower-cased) input. */
  lemma LowerHasNoUpper(lineLabel: String)
    ensures forall c :: c in RemoveAll(Lower(lineLabel), "gtfs-") ==> !IsUpper(c)
  {
  }

  /** Tokens of line labels of the feed table. */
  lemma LineTokenExamples()
    ensures LineToken("A-C-E") == "a"
    ensures LineToken("7") == "7"
  {
    assert Lower("A-C-E") == "a-c-e";
    FirstCharAbsent("a-c-e", "gtfs-");
    RemoveAllAbsent("a-c-e", "gtfs-");
    assert Lower("7") == "7";
    FirstCharAbsent("7", "gtfs-");
    RemoveAllAbsent("7", "gtfs-");
  }

  lemma LineTokenFourLines()
    ensures LineToken("N-Q-R-W") == "n"
  {
    assert Lower("N-Q-R-W") == "n-q-r-w";
    FirstCharAbsent("n-q-r-w", "gtfs-");
    RemoveAllAbsent("n-q-r-w", "gtfs-");
  }

  /** A feed name with its "gtfs-" prefix. */
  lemma LineTokenFeedName()
    ensures LineToken("gtfs-ace") == "ace"
  {
    assert Lower("gtfs-ace") == "gtfs-ace";
    assert "gtfs-" + "ace" == "gtfs-ace";
    RemoveAllLeading("ace", "gtfs-");
    FirstCharAbsent("ace", "gtfs-");
    RemoveAllAbsent("ace", "gtfs-");
  }

  /** `routes[route_id.lower().contains(token)].route_id.unique()` */
  function RouteIdsForToken(routes: seq<Route>, token: String): set<String>
  {
    set r | r in routes && Contains(Lower(r.routeId), token) :: r.routeId
  }

  /** `trips[route_id.isin(routeIds)].trip_id.unique()` */
  function TripIdsForRoutes(trips: seq<Trip>, routeIds: set<String>): set<String>
  {
    set t | t in trips && t.routeId in routeIds :: t.tripId
  }

  /** `stop_times[trip_id.isin(tripIds)].stop_id.unique()` */
  function StopIdsForTrips(stopTimes: seq<StopTime>, tripIds: set<String>): set<String>
  {
    set st | st in stopTimes && st.tripId in tripIds :: st.stopId
  }

  /** `stops[stop_id.isin(ids)]`: the rows kept, in table order. */
  function StopsWithIds(stops: seq<Stop>, ids: set<String>): (r: seq<Stop>)
    ensures forall x :: x in r <==> x in stops && x.stopId in ids
  {
    if |stops| == 0 then []
    else
      var n := |stops| - 1;
      StopsWithIds(stops[..n], ids) + (if stops[n].stopId in ids then [stops[n]] else [])
  }

  /** The stop is called at by a trip of a route whose lower-cased
      identifier contains the token. */
  ghost predicate Serves(token: String, routes: seq<Route>, trips: seq<Trip>,
                         stopTimes: seq<StopTime>, stop: Stop)
  {
    exists st, t, r :: st in stopTimes && t in trips && r in routes
      && st.stopId == stop.stopId && st.tripId == t.tripId && t.routeId == r.routeId
      && Contains(Lower(r.routeId), token)
  }

  /** The chain of joins keeps exactly the stops the line serves. */
  lemma ServedIds(token: String, routes: seq<Route>, trips: seq<Trip>,
                  stopTimes: seq<StopTime>, stop: Stop)
    ensures stop.stopId in StopIdsForTrips(stopTimes, TripIdsForRoutes(trips, RouteIdsForToken(routes, token)))
        <==> Serves(token, routes, trips, stopTimes, stop)
  {
  }

  function Names(stops: seq<Stop>): set<String>
  {
    set x | x in stops :: x.stopName
  }

  predicate NamesUnique(stops: seq<Stop>)
  {
    forall i, j :: 0 <= i < j < |stops| ==> stops[i].stopName != stops[j].stopName
  }

  /** `x` is the first row of `stops` with its name. */
  ghost predicate FirstWithName(stops: seq<Stop>, x: Stop)
  {
    exists i :: 0 <= i < |stops| && stops[i] == x &&
      forall j :: 0 <= j < i ==> stops[j].stopName != x.stopName
  }

  /** `drop_duplicates(subset='stop_name')`: a row is kept unless an
      earlier row has the same name; kept rows stay in table order. */
  function DedupByName(stops: seq<Stop>): seq<Stop>
  {
    if |stops| == 0 then []
    else
      var n := |stops| - 1;
      var d := DedupByName(stops[..n]);
      if stops[n].stopName in Names(d) then d else d + [stops[n]]
  }

  lemma NamesAppend(stops: seq<Stop>, x: Stop)
    ensures Names(stops + [x]) == Names(stops) + {x.stopName}
  {
  }

  lemma FirstWithNameExtends(stops: seq<Stop>, y: Stop, x: Stop)
    requires FirstWithName(stops, x)
    ensures FirstWithName(stops + [y], x)
  {
    var i :| 0 <= i < |stops| && stops[i] == x &&
      forall j :: 0 <= j < i ==> stops[j].stopName != x.stopName;
    assert (stops + [y])[i] == x;
    assert forall j :: 0 <= j < i ==> (stops + [y])[j] == stops[j];
  }

  /** Deduplication keeps every name, each exactly once, and each kept
      row is the first row of the table with its name. */
  lemma {:induction false} DedupByNameSpec(stops: seq<Stop>)
    ensures Names(DedupByName(stops)) == Names(stops)
    ensures NamesUnique(DedupByName(stops))
    ensures forall x :: x in DedupByName(stops) ==> FirstWithName(stops, x)
  {
    if |stops| > 0 {
      var n := |stops| - 1;
      var prefix := stops[..n];
      var last := stops[n];
      var d := DedupByName(prefix);
      DedupByNameSpec(prefix);
      assert stops == prefix + [last];
      NamesAppend(prefix, last);
      forall x | FirstWithName(prefix, x) ensures FirstWithName(stops, x) {
        FirstWithNameExtends(prefix, last, x);
      }
      if last.stopName !in Names(d) {
        var r := d + [last];
        assert DedupByName(stops) == r;
        NamesAppend(d, last);
        forall i, j | 0 <= i < j < |r| ensures r[i].stopName != r[j].stopName {
          if j == |d| {
            assert r[i] in d;
          } else {
            assert r[i] == d[i] && r[j] == d[j];
          }
        }
        forall j | 0 <= j < n ensures stops[j].stopName != last.stopName {
          assert prefix[j] in prefix;
        }
        assert FirstWithName(stops, last);
      }
    }
  }

  /** Strictly increasing by station name. */
  predicate SortedByName(stops: seq<Stop>)
  {
    forall i, j :: 0 <= i < j < |stops| ==> Less(stops[i].stopName, stops[j].stopName)
  }

  /** Insert a row before the first row whose name follows its own. */
  function InsertByName(x: Stop, stops: seq<Stop>): seq<Stop>
  {
    if |stops| == 0 || Less(x.stopName, stops[0].stopName) then [x] + stops
    else [stops[0]] + InsertByName(x, stops[1..])
  }

  lemma {:induction false} InsertByNamePermutes(x: Stop, stops: seq<Stop>)
    ensures multiset(InsertByName(x, stops)) == multiset(stops) + multiset{x}
  {
    if |stops| > 0 && !Less(x.stopName, stops[0].stopName) {
      InsertByNamePermutes(x, stops[1..]);
      assert stops == [stops[0]] + stops[1..];
    }
  }

  /** A row whose name precedes every name of a sorted list can lead it. */
  lemma SortedCons(h: Stop, stops: seq<Stop>)
    requires SortedByName(stops)
    requires forall y :: y in stops ==> Less(h.stopName, y.stopName)
    ensures SortedByName([h] + stops)
  {
  }

  /** Inserting a row with a new name into a sorted list keeps it sorted. */
  lemma {:induction false} InsertByNameSorted(x: Stop, stops: seq<Stop>)
    requires SortedByName(stops)
    requires x.stopName !in Names(stops)
    ensures SortedByName(InsertByName(x, stops))
  {
    if |stops| == 0 {
    } else if Less(x.stopName, stops[0].stopName) {
      forall y | y in stops ensures Less(x.stopName, y.stopName) {
        var k :| 0 <= k < |stops| && stops[k] == y;
        if k > 0 {
          LessTransitive(x.stopName, stops[0].stopName, y.stopName);
        }
      }
      SortedCons(x, stops);
    } else {
      var tail := stops[1..];
      assert stops == [stops[0]] + tail;
      NamesAppendFront(stops[0], tail);
      InsertByNameSorted(x, tail);
      InsertByNamePermutes(x, tail);
      var rest := InsertByName(x, tail);
      assert stops[0] in stops;
      LessTotal(x.stopName, stops[0].stopName);
      forall y | y in rest ensures Less(stops[0].stopName, y.stopName) {
        assert y in multiset(rest);
        if y != x {
          assert y in multiset(tail);
          var k :| 0 <= k < |tail| && tail[k] == y;
          assert stops[k + 1] == y;
        }
      }
      SortedCons(stops[0], rest);
    }
  }

  lemma NamesAppendFront(x: Stop, stops: seq<Stop>)
    ensures Names([x] + stops) == {x.stopName} + Names(stops)
  {
  }

  /** A name no row of `stops` has is not the name of any row of a
      permutation of `stops`. */
  lemma NameAbsentFromPermutation(name: String, stops: seq<Stop>, perm: seq<Stop>)
    requires multiset(perm) == multiset(stops)
    requires forall y :: y in stops ==> y.stopName != name
    ensures name !in Names(perm)
  {
    forall y | y in perm ensures y.stopName != name {
      assert y in multiset(stops);
    }
  }

  /** `sort_values(by='stop_name')`, here an insertion sort. */
  function SortByName(stops: seq<Stop>): seq<Stop>
  {
    if |stops| == 0 then [] else InsertByName(stops[0], SortByName(stops[1..]))
  }

  /** Sorting permutes its input; when the names are distinct, as after
      deduplication, the result is strictly increasing by name. */
  lemma {:induction false} SortByNameSpec(stops: seq<Stop>)
    ensures multiset(SortByName(stops)) == multiset(stops)
    ensures NamesUnique(stops) ==> SortedByName(SortByName(stops))
  {
    if |stops| > 0 {
      var tail := stops[1..];
      assert stops == [stops[0]] + tail;
      SortByNameSpec(tail);
      var sorted := SortByName(tail);
      InsertByNamePermutes(stops[0], sorted);
      if NamesUnique(stops) {
        forall y | y in tail ensures y.stopName != stops[0].stopName {
          var k :| 0 <= k < |tail| && tail[k] == y;
          assert stops[k + 1] == y;
        }
        NameAbsentFromPermutation(stops[0].stopName, tail, sorted);
        InsertByNameSorted(stops[0], sorted);
      }
    }
  }

  /** `get_stops_for_line(lineLabel, routes, trips, stop_times, stops)` */
  function StopsForLine(lineLabel: String, routes: seq<Route>, trips: seq<Trip>,
                        stopTimes: seq<StopTime>, stops: seq<Stop>): seq<Stop>
  {
    var ids := StopIdsForTrips(stopTimes, TripIdsForRoutes(trips, RouteIdsForToken(routes, LineToken(lineLabel))));
    SortByName(DedupByName(StopsWithIds(stops, ids)))
  }

  /** `x` is the first row of `stops` with its name among the rows whose
      identifier is in `ids`. */
  ghost predicate FirstWithNameAmong(stops: seq<Stop>, ids: set<String>, x: Stop)
  {
    exists i :: 0 <= i < |stops| && stops[i] == x && x.stopId in ids &&
      forall j :: 0 <= j < i && stops[j].stopId in ids ==> stops[j].stopName != x.stopName
  }

  /** The first row with a name after filtering is the first such row
      of the whole table among the rows the filter keeps. */
  lemma {:induction false} FirstThroughFilter(stops: seq<Stop>, ids: set<String>, x: Stop)
    requires FirstWithName(StopsWithIds(stops, ids), x)
    ensures FirstWithNameAmong(stops, ids, x)
  {
    var n := |stops| - 1;
    var prefix := stops[..n];
    var f' := StopsWithIds(prefix, ids);
    var f := StopsWithIds(stops, ids);
    var k :| 0 <= k < |f| && f[k] == x && forall j :: 0 <= j < k ==> f[j].stopName != x.stopName;
    assert forall j :: 0 <= j < n ==> prefix[j] == stops[j];
    if k < |f'| {
      assert forall j :: 0 <= j <= k ==> f[j] == f'[j];
      assert FirstWithName(f', x);
      FirstThroughFilter(prefix, ids, x);
      var i :| 0 <= i < n && prefix[i] == x && x.stopId in ids &&
        forall j :: 0 <= j < i && prefix[j].stopId in ids ==> prefix[j].stopName != x.stopName;
      assert stops[i] == x;
    } else {
      assert x == stops[n] && x.stopId in ids;
      forall j | 0 <= j < n && stops[j].stopId in ids
        ensures stops[j].stopName != x.stopName
      {
        assert prefix[j] in prefix;
        var m :| 0 <= m < |f'| && f'[m] == stops[j];
        assert f[m] == f'[m];
      }
    }
  }

  /** The stops of a line are strictly increasing by name (so no name
      appears twice) and are a permutation of the deduplicated rows of
      the stops the line serves. */
  lemma StopsForLineSorted(lineLabel: String, routes: seq<Route>, trips: seq<Trip>,
                           stopTimes: seq<StopTime>, stops: seq<Stop>)
    ensures var ids := StopIdsForTrips(stopTimes, TripIdsForRoutes(trips, RouteIdsForToken(routes, LineToken(lineLabel))));
      multiset(StopsForLine(lineLabel, routes, trips, stopTimes, stops)) == multiset(DedupByName(StopsWithIds(stops, ids)))
    ensures SortedByName(StopsForLine(lineLabel, routes, trips, stopTimes, stops))
    ensures NamesUnique(StopsForLine(lineLabel, routes, trips, stopTimes, stops))
  {
    var ids := StopIdsForTrips(stopTimes, TripIdsForRoutes(trips, RouteIdsForToken(routes, LineToken(lineLabel))));
    var d := DedupByName(StopsWithIds(stops, ids));
    DedupByNameSpec(StopsWithIds(stops, ids));
    SortByNameSpec(d);
    var r := SortByName(d);
    forall i, j | 0 <= i < j < |r| ensures r[i].stopName != r[j].stopName {
      LessIrreflexive(r[i].stopName);
    }
  }

  /** Every stop of a line is a row of the stops table called at by a
      trip of a route whose lower-cased identifier contains the token. */
  lemma StopsForLineServed(lineLabel: String, routes: seq<Route>, trips: seq<Trip>,
                           stopTimes: seq<StopTime>, stops: seq<Stop>)
    ensures forall x :: x in StopsForLine(lineLabel, routes, trips, stopTimes, stops) ==>
      x in stops && Serves(LineToken(lineLabel), routes, trips, stopTimes, x)
  {
    var token := LineToken(lineLabel);
    var ids := StopIdsForTrips(stopTimes, TripIdsForRoutes(trips, RouteIdsForToken(routes, token)));
    var f := StopsWithIds(stops, ids);
    DedupByNameSpec(f);
    SortByNameSpec(DedupByName(f));
    forall x | x in StopsForLine(lineLabel, routes, trips, stopTimes, stops)
      ensures x in stops && Serves(token, routes, trips, stopTimes, x)
    {
      assert x in multiset(DedupByName(f));
      DedupKeepsRows(f, x);
      ServedIds(token, routes, trips, stopTimes, x);
    }
  }

  lemma DedupKeepsRows(stops: seq<Stop>, x: Stop)
    requires x in DedupByName(stops)
    ensures x in stops
  {
  }

  /** For each name, the row kept is the first row of the stops table
      with that name among the stops the line serves. */
  lemma StopsForLineFirstRow(lineLabel: String, routes: seq<Route>, trips: seq<Trip>,
                             stopTimes: seq<StopTime>, stops: seq<Stop>)
    ensures forall x :: x in StopsForLine(lineLabel, routes, trips, stopTimes, stops) ==>
      exists i :: 0 <= i < |stops| && stops[i] == x &&
        forall j :: 0 <= j < i && Serves(LineToken(lineLabel), routes, trips, stopTimes, stops[j]) ==>
          stops[j].stopName != x.stopName
  {
    var token := LineToken(lineLabel);
    var ids := StopIdsForTrips(stopTimes, TripIdsForRoutes(trips, RouteIdsForToken(routes, token)));
    var f := StopsWithIds(stops, ids);
    DedupByNameSpec(f);
    SortByNameSpec(DedupByName(f));
    forall x | x in StopsForLine(lineLabel, routes, trips, stopTimes, stops)
      ensures exists i :: (0 <= i < |stops| && stops[i] == x &&
        forall j :: 0 <= j < i && Serves(token, routes, trips, stopTimes, stops[j]) ==>
          stops[j].stopName != x.stopName)
    {
      assert x in multiset(DedupByName(f));
      FirstThroughFilter(stops, ids, x);
      var i :| 0 <= i < |stops| && stops[i] == x && x.stopId in ids &&
        forall j :: 0 <= j < i && stops[j].stopId in ids ==> stops[j].stopName != x.stopName;
      forall j | 0 <= j < i && Serves(token, routes, trips, stopTimes, stops[j])
        ensures stops[j].stopName != x.stopName
      {
        ServedIds(token, routes, trips, stopTimes, stops[j]);
      }
    }
  }

  /** Every station the line serves appears by name among its stops. */
  lemma StopsForLineComplete(lineLabel: String, routes: seq<Route>, trips: seq<Trip>,
                             stopTimes: seq<StopTime>, stops: seq<Stop>)
    ensures forall s :: s in stops && Serves(LineToken(lineLabel), routes, trips, stopTimes, s) ==>
      s.stopName in Names(StopsForLine(lineLabel, routes, trips, stopTimes, stops))
  {
    var token := LineToken(lineLabel);
    var ids := StopIdsForTrips(stopTimes, TripIdsForRoutes(trips, RouteIdsForToken(routes, token)));
    var f := StopsWithIds(stops, ids);
    var d := DedupByName(f);
    DedupByNameSpec(f);
    SortByNameSpec(d);
    var r := SortByName(d);
    forall s | s in stops && Serves(token, routes, trips, stopTimes, s)
      ensures s.stopName in Names(r)
    {
      ServedIds(token, routes, trips, stopTimes, s);
      assert s in f;
      assert s.stopName in Names(d);
      var y :| y in d && y.stopName == s.stopName;
      assert y in multiset(r);
    }
  }
}
