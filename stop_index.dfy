/** The base-code to station-name index, `dict(zip(stop_id[:3],
    stop_name))` over the stops table, and its lookup with the
    "Unknown Stop" default. */
module StopIndex {
  import opened Text
  import opened Gtfs

  const UnknownStop: String := "Unknown Stop"

  /** Building a dictionary from pairs inserts them left to right, so a
      later row with the same base code overwrites an earlier one. */
  function BuildIndex(stops: seq<Stop>): map<String, String>
  {
    if |stops| == 0 then map[]
    else
      var n := |stops| - 1;
      BuildIndex(stops[..n])[BaseCode(stops[n].stopId) := stops[n].stopName]
  }

  /** The index holds exactly the base codes of the stops, each mapped to
      the name of the last stop with that code. */
  lemma {:induction false} BuildIndexSpec(stops: seq<Stop>)
    ensures forall code :: code in BuildIndex(stops) <==>
      exists i :: 0 <= i < |stops| && BaseCode(stops[i].stopId) == code
    ensures forall code :: code in BuildIndex(stops) ==>
      exists i :: LastWithCode(stops, code, i) && BuildIndex(stops)[code] == stops[i].stopName
  {
    if |stops| > 0 {
      var n := |stops| - 1;
      var prefix := stops[..n];
      var lastCode := BaseCode(stops[n].stopId);
      var prev := BuildIndex(prefix);
      var m := BuildIndex(stops);
      BuildIndexSpec(prefix);
      assert forall i :: 0 <= i < n ==> prefix[i] == stops[i];
      forall code | code in m
        ensures exists i :: LastWithCode(stops, code, i) && m[code] == stops[i].stopName
      {
        if code == lastCode {
          assert LastWithCode(stops, code, n);
        } else {
          var i :| LastWithCode(prefix, code, i) && prev[code] == prefix[i].stopName;
          assert LastWithCode(stops, code, i);
        }
      }
      forall code | code in m
        ensures exists i :: 0 <= i < |stops| && BaseCode(stops[i].stopId) == code
      {
        if code != lastCode {
          var i :| 0 <= i < n && BaseCode(prefix[i].stopId) == code;
          assert BaseCode(stops[i].stopId) == code;
        }
      }
    }
  }

  /** Row `i` is the last row of `stops` whose base code is `code`. */
  ghost predicate LastWithCode(stops: seq<Stop>, code: String, i: int)
  {
    0 <= i < |stops| && BaseCode(stops[i].stopId) == code &&
    forall j :: i < j < |stops| ==> BaseCode(stops[j].stopId) != code
  }

  /** `stop_id_to_name.get(code, "Unknown Stop")` */
  function Lookup(index: map<String, String>, code: String): String
  {
    if code in index then index[code] else UnknownStop
  }

  /** The lookup is total: a code no stop has gives "Unknown Stop", and a
      code some stop has gives the name of the last stop with that code. */
  lemma StopNameLookup(stops: seq<Stop>, code: String)
    ensures (forall i :: 0 <= i < |stops| ==> BaseCode(stops[i].stopId) != code) ==>
      Lookup(BuildIndex(stops), code) == UnknownStop
    ensures forall i :: LastWithCode(stops, code, i) ==>
      Lookup(BuildIndex(stops), code) == stops[i].stopName
  {
    var m := BuildIndex(stops);
    BuildIndexSpec(stops);
    forall i | LastWithCode(stops, code, i)
      ensures Lookup(m, code) == stops[i].stopName
    {
      assert code in m;
      var k :| LastWithCode(stops, code, k) && m[code] == stops[k].stopName;
      assert k == i;
    }
  }

  /** A base code present in the stops table resolves to the name of one
      of its stops, never to the default unless a stop is so named. */
  lemma PresentCodeResolves(stops: seq<Stop>, i: int)
    requires 0 <= i < |stops|
    ensures exists k :: 0 <= k < |stops| && BaseCode(stops[k].stopId) == BaseCode(stops[i].stopId)
                     && Lookup(BuildIndex(stops), BaseCode(stops[i].stopId)) == stops[k].stopName
  {
    var code := BaseCode(stops[i].stopId);
    BuildIndexSpec(stops);
    assert code in BuildIndex(stops);
    var k :| LastWithCode(stops, code, k) && BuildIndex(stops)[code] == stops[k].stopName;
  }
}
