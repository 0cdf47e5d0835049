# NYC subway real-time tracker: verified model of the data pipeline

The tracker is a Streamlit page. It downloads the MTA's static GTFS
schedule (routes, trips, stop times, stops) and a GTFS Realtime feed for
one line group. It lists the stations of the chosen line and reports the
predicted arrivals at two chosen stations. This project models the data
pipeline between the downloads and the page in Dafny, in three parts:

- **Line-to-stops resolver** (`get_stops_for_line`, module `LineStops`).
  The line label is normalised to a token: lower-cased, every `gtfs-`
  removed, cut at the first `-`. The resolver keeps the routes whose
  lower-cased `route_id` contains the token. It joins them to trips,
  then to stop times, then to stops. It keeps the first row for each
  `stop_name` and sorts the result by name. This is pure code, so it is
  modelled as functions with lemmas.
- **Base-code index** (`stop_id_to_name` and its `.get(…, "Unknown Stop")`,
  module `StopIndex`). This is a left-to-right fold over the stops table.
  It maps each `stop_id[:3]` to the stop's name, and a later row
  overwrites an earlier one with the same code.
- **Arrival matcher** (`parse_feed`, module `Arrivals`). It resolves the
  two station names to base codes, using the first stops row with each
  name. It then scans the decoded feed entity by entity and update by
  update. It emits one row for each update whose `stop_id` starts with
  either base code and that carries an arrival. This is a method with the
  source's nested loops, and its result is proved equal to the
  specification function `FeedRows`. Lemmas about `FeedRows` state
  soundness, completeness and order.

Module `Text` holds the Python string operations the pipeline uses:
`lower`, `startswith`, `str.contains`, `replace(…, '')`, `split('-')[0]`,
`[:3]`, and string `<`. Module `Gtfs` holds the table rows and the decoded
feed. Module `Tracker` relates the parts the way the page wires them
together, and holds the finding below.

What the matcher does not do, and the model therefore does not do either:

- It applies no "arrival in the future" filter and no "start before
  end" filter. `now` is computed and never used.
- It reports every matching update, not only the first per trip.
- It computes no minutes-until-arrival and no status.
- A station name that is not in the table gives an empty table (with an
  error message), not a distinct error result.

## Model

| member | source | states |
|---|---|---|
| `Text.Lower` | streamlit_app.py:45-46 | Lower-casing keeps the length, maps each character through the ASCII lower-case map, and leaves no upper-case letter |
| `Text.ContainsIffOccurs` | streamlit_app.py:46 | `Contains`, which models `str.contains`, is a left-to-right scan. It succeeds exactly when the token occurs at some offset of the route identifier |
| `Text.RemoveAll` | streamlit_app.py:45 | `replace('gtfs-', '')` never lengthens the label, and every character of its result comes from the label |
| `Text.RemoveAllAbsent` | streamlit_app.py:45 | A label with no `gtfs-` in it is left unchanged by the replace |
| `Text.RemoveAllLeading` | streamlit_app.py:45 | A leading `gtfs-` is dropped and the rest is processed as if it were absent |
| `Text.FirstCharAbsent` | streamlit_app.py:45 | A label in which the first character of `gtfs-` does not occur contains no `gtfs-`; with `RemoveAllAbsent`, the replace then leaves it unchanged |
| `Text.CutAt` | streamlit_app.py:45 | `split('-')[0]` is a prefix of its input, contains no `-`, and is followed by `-` whenever it is shorter than the input |
| `Text.Take` | streamlit_app.py:68-69 | `Take` models `s[:3]`, which `BaseCode` applies to stop ids: it is a prefix of `s` of length 3, or all of `s` when `s` is shorter |
| `Text.LessIrreflexive` | streamlit_app.py:51 | `Less` models the string `<` that `sort_values` orders names by. No station name sorts before itself |
| `Text.LessTransitive` | streamlit_app.py:51 | The name order used by `sort_values` is transitive |
| `Text.LessTotal` | streamlit_app.py:51 | Of two different names, one sorts before the other |
| `LineStops.LineTokenShape` | streamlit_app.py:45 | `LineToken`, the label normalisation: the token is the lower-cased, `gtfs-`-stripped label up to its first `-`: it is a prefix of that text, holds no `-`, and has no upper-case letter |
| `LineStops.LowerHasNoUpper` | streamlit_app.py:45 | Since `RemoveAll` only keeps characters of its input, the lower-cased, `gtfs-`-stripped label has no upper-case letter |
| `LineStops.LineTokenExamples` | streamlit_app.py:45 | `"A-C-E"` gives `"a"` and `"7"` gives `"7"` |
| `LineStops.LineTokenFourLines` | streamlit_app.py:45 | `"N-Q-R-W"` gives `"n"` |
| `LineStops.LineTokenFeedName` | streamlit_app.py:45 | `"gtfs-ace"` gives `"ace"` |
| `LineStops.ServedIds` | streamlit_app.py:46-49 | `RouteIdsForToken`, `TripIdsForRoutes` and `StopIdsForTrips` model the three joins. A stop id survives them exactly when some stop time of some trip of a route whose lower-cased id contains the token calls at it |
| `LineStops.StopsWithIds` | streamlit_app.py:50 | `stops[stop_id.isin(ids)]` holds exactly the rows of the stops table whose id is in the set |
| `LineStops.DedupByNameSpec` | streamlit_app.py:50 | `DedupByName`, which models `drop_duplicates(subset='stop_name')`, keeps every name, each once, and each kept row is the first row with its name |
| `LineStops.FirstThroughFilter` | streamlit_app.py:50 | The first row with a name after filtering is the first such row of the whole stops table among the rows the filter keeps |
| `LineStops.InsertByNamePermutes` | streamlit_app.py:51 | Inserting a row adds exactly that row |
| `LineStops.InsertByNameSorted` | streamlit_app.py:51 | Inserting a row with a new name into a list sorted by name keeps it sorted |
| `LineStops.NameAbsentFromPermutation` | streamlit_app.py:51 | Sorting cannot bring in a name: a name no row of the input has is on no row of a permutation of it |
| `LineStops.SortByNameSpec` | streamlit_app.py:51 | `SortByName`, which models `sort_values(by='stop_name')`, permutes its input, and on distinct names gives a strictly increasing order |
| `LineStops.StopsForLineSorted` | streamlit_app.py:50-51 | `StopsForLine` models `get_stops_for_line`. The line's stops are strictly increasing by name, so no name appears twice. They are a permutation of the deduplicated rows of the stops the line serves |
| `LineStops.StopsForLineServed` | streamlit_app.py:46-50 | Every returned stop is a row of the stops table, called at by a trip of a route whose lower-cased id contains the token |
| `LineStops.StopsForLineFirstRow` | streamlit_app.py:50 | For each name, the returned row is the first row of the stops table with that name among the stops the line serves |
| `LineStops.StopsForLineComplete` | streamlit_app.py:46-50 | Every station the line serves appears by name in the result |
| `StopIndex.BuildIndexSpec` | streamlit_app.py:107 | `BuildIndex` models `stop_id_to_name`. The index's keys are exactly the 3-character prefixes of the stop ids. Each key maps to the name of the last row with that prefix |
| `StopIndex.StopNameLookup` | streamlit_app.py:83 | `Lookup`, over the index `BuildIndex` builds, is total: a missing prefix gives `"Unknown Stop"`, and a present one gives the name of the last row with that prefix |
| `StopIndex.PresentCodeResolves` | streamlit_app.py:83 | A prefix that some stop has resolves to the name of a stop with that prefix |
| `Arrivals.FirstStopIdNamed` | streamlit_app.py:68-69 | No id exactly when no row has the name. Otherwise the id of the first row with that name |
| `Arrivals.ParseFeed` | streamlit_app.py:63-94 | If either name is missing: the not-found flag is set and the table is empty. Otherwise the rows are exactly `FeedRows`, the specification of the nested loops, for the base codes of the first rows with those names |
| `Arrivals.FeedRowsSound` | streamlit_app.py:74-92 | Every row of `FeedRows` (what `parse_feed` returns) has a stop that starts with one of the two base codes, tested by `StartsWith` (`startswith`). Its name is the lookup of its `stop_id[:3]`. It comes from an update of a trip update in the feed that had that stop and that arrival, and its train is that trip's `route_id` |
| `Arrivals.FeedRowsComplete` | streamlit_app.py:74-92 | `FeedRows` includes every update of every trip update that lies at either station and has an arrival |
| `Arrivals.FeedRowsAppend` | streamlit_app.py:74-92 | Rows follow entity order: the rows of two runs of entities are the concatenation of their rows, with no sorting and no deduplication |
| `Arrivals.UpdateRowsAppend` | streamlit_app.py:79-92 | Within an entity, rows follow stop-time-update order |
| `Arrivals.EntityRowsSingle` | streamlit_app.py:75-92 | An entity without a trip update contributes nothing. One with a single update contributes that update's row exactly when it is at a station and has an arrival |
| `Arrivals.UpdateRowsSound` | streamlit_app.py:79-92 | Every row of a trip update is the row of one of its wanted updates |
| `Arrivals.UpdateRowsComplete` | streamlit_app.py:79-92 | Every wanted update of a trip update gives its row |
| `Tracker.SelectedStationResolves` | streamlit_app.py:106-115 | A station offered in the line's list is always found by name in the stops table passed to `parse_feed` |
| `Tracker.CanalServedByA` | streamlit_app.py:46-49 | In the two-line example, platform A34N is served by the A-C-E token |
| `Tracker.CanalOtherNotServedByA` | streamlit_app.py:46-49 | In the two-line example, platform 138N is not served by the A-C-E token |
| `Tracker.CanalOffered` | streamlit_app.py:109-110 | In the two-line example, the A-C-E list offers "Canal St" |
| `Tracker.CanalLineBases` | streamlit_app.py:46-50 | In the two-line example, no stop the A-C-E line serves has base code "138" |
| `Tracker.CanalNoRows` | streamlit_app.py:82 | An A train due at A34N is not matched when the searched base code is "138" |
| `Tracker.FullTableResolvesOtherLine` | streamlit_app.py:115 | As written, a name the A-C-E list offers resolves to another line's platform. The matcher then reports nothing for an A train due at the offered station |
| `Tracker.CanalSearchAsWritten` | streamlit_app.py:115 | As wired, the search for "Canal St" on the A-C-E line, given the whole stops table, finds both names and reports no row for the A train due at A34N |
| `Tracker.LineStopsResolveWithinLine` | streamlit_app.py:50-51 | Resolving a name in the line's own stops gives exactly the offered row, a stop the line serves |
| `Tracker.SearchArrivals` | streamlit_app.py:112-115 | The corrected search finds both names exactly when the line's list offers them, and returns no rows otherwise. When found, the rows are `FeedRows` for the base codes of the two offered platforms |
| `Tracker.OfferedNameResolves` | streamlit_app.py:50-51 | A name offered in the line's list that only one served row of the stops table carries resolves within the list to that row's id |
| `Tracker.CanalOnlyA34Served` | streamlit_app.py:46-49 | In the two-line example, A34N is the only stop the A-C-E token serves |
| `Tracker.CanalResolvedWithinLine` | streamlit_app.py:68-69 | In the two-line example, resolving "Canal St" in the A-C-E line's stops gives platform A34N |
| `Tracker.CanalA34Rows` | streamlit_app.py:74-92 | An A train due at A34N is reported, as one row named "Canal St", when the searched base code is "A34" |
| `Tracker.CanalCorrectedRow` | streamlit_app.py:115 | In the two-line example, resolving "Canal St" within the A-C-E line gives platform A34N, and with its base code the A train due at A34N is reported as one row named "Canal St" |

## Findings

| source | as written | input that shows it | evidently intended | confidence | as-written member | corrected member |
|---|---|---|---|---|---|---|
| streamlit_app.py:115 | `parse_feed` is given the whole stops table, so a station name resolves to the first row with that name on any line | line `A-C-E`; routes `1`, `A`; stops `138N "Canal St"` (1 train), `A34N "Canal St"` (A train); a feed with an A train due at `A34N` | resolve the name in the selected line's stops (`line_stops`), which hold one row per name, all served by the line | not executed; high for names shared by several lines (Canal St, 23 St, 14 St, …) | `Tracker.FullTableResolvesOtherLine`, and `Tracker.CanalSearchAsWritten` for the wiring | `Tracker.SearchArrivals`, with `Tracker.CanalCorrectedRow` on the same input |

## Left out

- The page itself is not modelled: title, select boxes, button, success, warning and error messages, dataframe display, and `st.stop`. It is presentation only. The "Selected stops not found" error is represented by the `stopsFound` flag of `ParseFeed`.
- `load_gtfs_static_data` (HTTP download, unzip, CSV parsing, caching) is not modelled: it is I/O. The tables are parameters.
- `fetch_subway_feed` (network fetch and protobuf decoding in a foreign library) is not modelled. The feed is given already decoded.
- The `FEED_URLS` table is configuration. Its labels, and one feed name taken from its URLs (`gtfs-ace`), appear only as example inputs: in the token examples and in the Canal St example.
- Clock-time formatting of arrivals in the New York time zone is not modelled. The arrival is kept as epoch seconds. `now` is computed but never used by the source.
- Text.Lower: lower-cases ASCII letters only, not all of Unicode.
- Text.Contains: `str.contains` is a regular-expression search. It is modelled as a plain substring test, because the line tokens contain no metacharacters.
- pandas details are not modelled: missing values (NaN), column dtypes (stop ids are taken to be strings), and the algorithm inside `sort_values`. Sorting is modelled as an insertion sort. Only its result is specified, and that result is unique because names are distinct after deduplication.
- The source has no headsign lookup, no trip-path extraction for a map, no "Delayed"/"On Time" status and no minutes-until-arrival, so none is modelled.
