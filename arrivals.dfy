/** The arrival matcher `parse_feed`: the stop-time updates of a decoded
    realtime feed that fall at the two selected stations. */
module Arrivals {
  import opened Text
  import opened Gtfs
  import opened StopIndex

  /** One row of the arrivals table: the train (route), the stop, the
      station name looked up by base code, and the predicted arrival in
      epoch seconds. */
  datatype ArrivalRow = ArrivalRow(train: String, stopId: String, stopName: String, arrival: int)

  /** `stop_data[stop_data['stop_name'] == name]['stop_id'].values[0]`:
      the identifier of the first row with that name, if there is one. */
  function FirstStopIdNamed(stopData: seq<Stop>, name: String): (r: Option<String>)
    ensures r.None? <==> forall i :: 0 <= i < |stopData| ==> stopData[i].stopName != name
    ensures r.Some? ==> exists i :: 0 <= i < |stopData| && stopData[i].stopName == name
                                 && stopData[i].stopId == r.value
                                 && forall j :: 0 <= j < i ==> stopData[j].stopName != name
  {
    if |stopData| == 0 then None
    else if stopData[0].stopName == name then Some(stopData[0].stopId)
    else
      var r := FirstStopIdNamed(stopData[1..], name);
      assert forall i :: 1 <= i < |stopData| ==> stopData[1..][i - 1] == stopData[i];
      if r.Some? then
        var k :| 0 <= k < |stopData| - 1 && stopData[1..][k].stopName == name
                 && stopData[1..][k].stopId == r.value
                 && forall j :: 0 <= j < k ==> stopData[1..][j].stopName != name;
        assert stopData[k + 1].stopName == name;
        r
      else
        r
  }

  /** An update is reported when its stop lies at either station and it
      carries an arrival. */
  predicate Wanted(u: StopTimeUpdate, startBase: String, endBase: String)
  {
    (StartsWith(u.stopId, startBase) || StartsWith(u.stopId, endBase)) && u.arrival.Some?
  }

  function RowFor(routeId: String, u: StopTimeUpdate, index: map<String, String>): ArrivalRow
    requires u.arrival.Some?
  {
    ArrivalRow(routeId, u.stopId, Lookup(index, BaseCode(u.stopId)), u.arrival.value)
  }

  /** The rows one trip update contributes, in update order. */
  function UpdateRows(routeId: String, updates: seq<StopTimeUpdate>, startBase: String,
                      endBase: String, index: map<String, String>): seq<ArrivalRow>
  {
    if |updates| == 0 then []
    else
      var n := |updates| - 1;
      UpdateRows(routeId, updates[..n], startBase, endBase, index) +
        (if Wanted(updates[n], startBase, endBase) then [RowFor(routeId, updates[n], index)] else [])
  }

  /** The rows one entity contributes: none without a trip update. */
  function EntityRows(e: Entity, startBase: String, endBase: String, index: map<String, String>): seq<ArrivalRow>
  {
    match e.tripUpdate
    case None => []
    case Some(tu) => UpdateRows(tu.trip.routeId, tu.stopTimeUpdates, startBase, endBase, index)
  }

  /** The rows of a sequence of entities, in entity order. */
  function FeedRows(entities: seq<Entity>, startBase: String, endBase: String,
                    index: map<String, String>): seq<ArrivalRow>
  {
    if |entities| == 0 then []
    else
      var n := |entities| - 1;
      FeedRows(entities[..n], startBase, endBase, index) + EntityRows(entities[n], startBase, endBase, index)
  }

  /** `parse_feed(feed, stop_data, stop_id_to_name, start_stop, end_stop)`.
      `stopsFound` is false on the path that reports "Selected stops not
      found" and returns an empty table. */
  method ParseFeed(feed: FeedMessage, stopData: seq<Stop>, stopIdToName: map<String, String>,
                   startStop: String, endStop: String)
    returns (rows: seq<ArrivalRow>, stopsFound: bool)
    ensures stopsFound <==> FirstStopIdNamed(stopData, startStop).Some? && FirstStopIdNamed(stopData, endStop).Some?
    ensures !stopsFound ==> rows == []
    ensures stopsFound ==> rows == FeedRows(feed.entities,
                                            BaseCode(FirstStopIdNamed(stopData, startStop).value),
                                            BaseCode(FirstStopIdNamed(stopData, endStop).value),
                                            stopIdToName)
  {
    rows := [];
    var startId := FirstStopIdNamed(stopData, startStop);
    var endId := FirstStopIdNamed(stopData, endStop);
    if startId.None? || endId.None? {
      stopsFound := false;
      return;
    }
    stopsFound := true;
    var startBase := BaseCode(startId.value);
    var endBase := BaseCode(endId.value);

    var i := 0;
    while i < |feed.entities|
      invariant 0 <= i <= |feed.entities|
      invariant rows == FeedRows(feed.entities[..i], startBase, endBase, stopIdToName)
    {
      var entity := feed.entities[i];
      ghost var before := rows;
      assert FeedRows(feed.entities[..i + 1], startBase, endBase, stopIdToName) ==
             before + EntityRows(entity, startBase, endBase, stopIdToName) by {
        assert feed.entities[..i + 1][..i] == feed.entities[..i];
      }
      if entity.tripUpdate.Some? {
        var trip := entity.tripUpdate.value;
        var routeId := trip.trip.routeId;
        var j := 0;
        while j < |trip.stopTimeUpdates|
          invariant 0 <= j <= |trip.stopTimeUpdates|
          invariant rows == before + UpdateRows(routeId, trip.stopTimeUpdates[..j], startBase, endBase, stopIdToName)
        {
          var stopTime := trip.stopTimeUpdates[j];
          var stopId := stopTime.stopId;
          assert UpdateRows(routeId, trip.stopTimeUpdates[..j + 1], startBase, endBase, stopIdToName) ==
                 UpdateRows(routeId, trip.stopTimeUpdates[..j], startBase, endBase, stopIdToName) +
                 (if Wanted(stopTime, startBase, endBase) then [RowFor(routeId, stopTime, stopIdToName)] else []) by {
            assert trip.stopTimeUpdates[..j + 1][..j] == trip.stopTimeUpdates[..j];
          }
          if StartsWith(stopId, startBase) || StartsWith(stopId, endBase) {
            var stopName := Lookup(stopIdToName, BaseCode(stopId));
            if stopTime.arrival.Some? {
              rows := rows + [ArrivalRow(routeId, stopId, stopName, stopTime.arrival.value)];
            }
          }
          j := j + 1;
        }
        assert trip.stopTimeUpdates[..j] == trip.stopTimeUpdates;
      }
      i := i + 1;
    }
    assert feed.entities[..i] == feed.entities;
  }

  /** Rows of consecutive updates are concatenated in update order. */
  lemma {:induction false} UpdateRowsAppend(routeId: String, a: seq<StopTimeUpdate>, b: seq<StopTimeUpdate>,
                                            startBase: String, endBase: String, index: map<String, String>)
    ensures UpdateRows(routeId, a + b, startBase, endBase, index) ==
            UpdateRows(routeId, a, startBase, endBase, index) + UpdateRows(routeId, b, startBase, endBase, index)
    decreases |b|
  {
    if |b| > 0 {
      var n := |b| - 1;
      assert (a + b)[..|a| + n] == a + b[..n];
      UpdateRowsAppend(routeId, a, b[..n], startBase, endBase, index);
    } else {
      assert a + b == a;
    }
  }

  /** Rows of consecutive entities are concatenated in entity order: no
      sorting, no deduplication across entities. */
  lemma {:induction false} FeedRowsAppend(a: seq<Entity>, b: seq<Entity>,
                                          startBase: String, endBase: String, index: map<String, String>)
    ensures FeedRows(a + b, startBase, endBase, index) ==
            FeedRows(a, startBase, endBase, index) + FeedRows(b, startBase, endBase, index)
    decreases |b|
  {
    if |b| > 0 {
      var n := |b| - 1;
      assert (a + b)[..|a| + n] == a + b[..n];
      FeedRowsAppend(a, b[..n], startBase, endBase, index);
    } else {
      assert a + b == a;
    }
  }

  /** An entity without a trip update contributes nothing; one with a
      trip update contributes, per update, its row exactly when wanted. */
  lemma EntityRowsSingle(e: Entity, u: StopTimeUpdate, startBase: String, endBase: String,
                         index: map<String, String>)
    ensures e.tripUpdate.None? ==> FeedRows([e], startBase, endBase, index) == []
    ensures e.tripUpdate.Some? && e.tripUpdate.value.stopTimeUpdates == [u] ==>
      FeedRows([e], startBase, endBase, index) ==
        if Wanted(u, startBase, endBase) then [RowFor(e.tripUpdate.value.trip.routeId, u, index)] else []
  {
    assert [e][..0] == [];
    assert FeedRows([e], startBase, endBase, index) == EntityRows(e, startBase, endBase, index);
    if e.tripUpdate.Some? && e.tripUpdate.value.stopTimeUpdates == [u] {
      assert [u][..0] == [];
      var tu := e.tripUpdate.value;
      assert UpdateRows(tu.trip.routeId, [u], startBase, endBase, index) ==
        if Wanted(u, startBase, endBase) then [RowFor(tu.trip.routeId, u, index)] else [];
    }
  }

  /** Every row of a trip update comes from one of its wanted updates. */
  lemma {:induction false} UpdateRowsSound(routeId: String, updates: seq<StopTimeUpdate>, startBase: String,
                                           endBase: String, index: map<String, String>)
    ensures forall r :: r in UpdateRows(routeId, updates, startBase, endBase, index) ==>
      exists u :: u in updates && Wanted(u, startBase, endBase) && r == RowFor(routeId, u, index)
  {
    if |updates| > 0 {
      var n := |updates| - 1;
      UpdateRowsSound(routeId, updates[..n], startBase, endBase, index);
      forall u | u in updates[..n] ensures u in updates {
        var k :| 0 <= k < n && updates[..n][k] == u;
        assert updates[k] == u;
      }
    }
  }

  /** Every wanted update of a trip update gives a row. */
  lemma {:induction false} UpdateRowsComplete(routeId: String, updates: seq<StopTimeUpdate>, startBase: String,
                                              endBase: String, index: map<String, String>)
    ensures forall u :: u in updates && Wanted(u, startBase, endBase) ==>
      RowFor(routeId, u, index) in UpdateRows(routeId, updates, startBase, endBase, index)
  {
    if |updates| > 0 {
      var n := |updates| - 1;
      UpdateRowsComplete(routeId, updates[..n], startBase, endBase, index);
      assert updates == updates[..n] + [updates[n]];
    }
  }

  /** Every emitted row is the row of a wanted update of a trip update of
      the feed: its stop lies at one of the two stations, the update had an
      arrival, the train is the trip's route and the name is the lookup of
      the stop's base code. */
  lemma {:induction false} FeedRowsSound(entities: seq<Entity>, startBase: String, endBase: String,
                                         index: map<String, String>)
    ensures forall r :: r in FeedRows(entities, startBase, endBase, index) ==>
      (StartsWith(r.stopId, startBase) || StartsWith(r.stopId, endBase)) &&
      r.stopName == Lookup(index, BaseCode(r.stopId))
    ensures forall r :: r in FeedRows(entities, startBase, endBase, index) ==>
      exists e, u :: e in entities && e.tripUpdate.Some? && u in e.tripUpdate.value.stopTimeUpdates &&
        u.stopId == r.stopId && u.arrival == Some(r.arrival) && e.tripUpdate.value.trip.routeId == r.train
  {
    if |entities| > 0 {
      var n := |entities| - 1;
      var e := entities[n];
      FeedRowsSound(entities[..n], startBase, endBase, index);
      forall x | x in entities[..n] ensures x in entities {
        var k :| 0 <= k < n && entities[..n][k] == x;
        assert entities[k] == x;
      }
      if e.tripUpdate.Some? {
        UpdateRowsSound(e.tripUpdate.value.trip.routeId, e.tripUpdate.value.stopTimeUpdates, startBase, endBase, index);
      }
    }
  }

  /** Every wanted update of every trip update of the feed is reported. */
  lemma {:induction false} FeedRowsComplete(entities: seq<Entity>, startBase: String, endBase: String,
                                            index: map<String, String>)
    ensures forall e, u :: (e in entities && e.tripUpdate.Some? && u in e.tripUpdate.value.stopTimeUpdates &&
                            Wanted(u, startBase, endBase)) ==>
        RowFor(e.tripUpdate.value.trip.routeId, u, index) in FeedRows(entities, startBase, endBase, index)
  {
    if |entities| > 0 {
      var n := |entities| - 1;
      var last := entities[n];
      FeedRowsComplete(entities[..n], startBase, endBase, index);
      assert entities == entities[..n] + [last];
      if last.tripUpdate.Some? {
        UpdateRowsComplete(last.tripUpdate.value.trip.routeId, last.tripUpdate.value.stopTimeUpdates,
                           startBase, endBase, index);
      }
    }
  }
}
