/** The data the tracker works on: rows of the four static schedule
    tables (routes.txt, trips.txt, stop_times.txt, stops.txt of the
    GTFS Schedule format) and an already-decoded GTFS Realtime feed
    message. Only the columns the application reads are kept. */
module Gtfs {
  import opened Text

  datatype Option<T> = None | Some(value: T)

  /** A row of routes.txt. */
  datatype Route = Route(routeId: String)

  /** A row of trips.txt: the trip and the route it runs on. */
  datatype Trip = Trip(routeId: String, tripId: String)

  /** A row of stop_times.txt: a trip calls at a stop. */
  datatype StopTime = StopTime(tripId: String, stopId: String)

  /** A row of stops.txt. A stop identifier is a three-character base
      code (the station) followed by a direction or platform suffix. */
  datatype Stop = Stop(stopId: String, stopName: String)

  /** A stop-time update of a realtime trip update; `arrival` is the
      predicted arrival in epoch seconds, when the feed gives one. */
  datatype StopTimeUpdate = StopTimeUpdate(stopId: String, arrival: Option<int>)

  /** The trip descriptor of a trip update; only its route is read. */
  datatype TripDescriptor = TripDescriptor(routeId: String)

  datatype TripUpdate = TripUpdate(trip: TripDescriptor, stopTimeUpdates: seq<StopTimeUpdate>)

  /** A feed entity, which may or may not carry a trip update. */
  datatype Entity = Entity(tripUpdate: Option<TripUpdate>)

  datatype FeedMessage = FeedMessage(entities: seq<Entity>)

  /** The station part of a stop identifier: `stop_id[:3]`. */
  function BaseCode(stopId: String): String
  {
    Take(stopId, 3)
  }
}
