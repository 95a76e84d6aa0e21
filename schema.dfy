/**
 * Finding a table by name in the database catalog (`sqlite_master`): the
 * category routers probe a fixed list of candidate names, one query each,
 * and take the first that exists. A probe whose query throws counts as not
 * finding its table.
 */
module Schema {
  import opened Wrappers

  /**
   * The probe `SELECT name FROM sqlite_master WHERE type = "table" AND
   * name = ?` returns a row for `name`: the table is in the catalog and its
   * probe did not throw (`failing` holds the names whose probe throws).
   */
  predicate TableFound(name: string, catalog: seq<string>, failing: set<string>)
  {
    name in catalog && name !in failing
  }

  /** The first candidate whose probe finds it, or nothing. */
  function FirstFound(cands: seq<string>, catalog: seq<string>, failing: set<string>): (r: Option<string>)
    ensures r.Some? ==> r.value in cands && TableFound(r.value, catalog, failing)
    ensures r.Some? ==> exists i :: 0 <= i < |cands| && cands[i] == r.value &&
                         forall j :: 0 <= j < i ==> !TableFound(cands[j], catalog, failing)
    ensures r.None? <==> forall c :: c in cands ==> !TableFound(c, catalog, failing)
  {
    if cands == [] then None
    else if TableFound(cands[0], catalog, failing) then Some(cands[0])
    else
      var r := FirstFound(cands[1..], catalog, failing);
      assert forall c :: c in cands ==> c == cands[0] || c in cands[1..];
      if r.Some? then
        var i :| 0 <= i < |cands[1..]| && cands[1..][i] == r.value &&
                 forall j :: 0 <= j < i ==> !TableFound(cands[1..][j], catalog, failing);
        assert cands[i + 1] == r.value;
        assert forall j :: 0 <= j < i + 1 ==> !TableFound(cands[j], catalog, failing);
        r
      else r
  }

  /** The probe loop: try each candidate in turn and stop at the first one found. */
  method ProbeCandidates(cands: seq<string>, catalog: seq<string>, failing: set<string>) returns (r: Option<string>)
    ensures r == FirstFound(cands, catalog, failing)
  {
    var i := 0;
    while i < |cands|
      invariant 0 <= i <= |cands|
      invariant FirstFound(cands[i..], catalog, failing) == FirstFound(cands, catalog, failing)
    {
      if TableFound(cands[i], catalog, failing) {
        return Some(cands[i]);
      }
      assert cands[i..][1..] == cands[i + 1..];
      i := i + 1;
    }
    return None;
  }
}
