/**
 * The `tbinfografiskategori` router: a category table whose name, id column
 * and name column are discovered from the schema, a single-column INSERT and
 * UPDATE fed by a `??` chain over the body, and reads that always alias the
 * discovered columns as `id` and `nama_kategori`.
 */
module Tbinfografiskategori {
  import opened Wrappers
  import opened Text
  import opened Js
  import opened Crud
  import opened Schema

  const Candidates := ["tbinfografiskategori", "kategori_infografis"]
  const DefaultTable := "tbinfografiskategori"
  const NameRequired := "nama_kategori is required"

  /**
   * The catalog scan's filter: `lower(name) LIKE '%kategori%' AND
   * (lower(name) LIKE '%info%' OR lower(name) LIKE '%graf%')`.
   */
  predicate InfoCategoryName(name: string)
  {
    var l := Lower(name);
    Contains(l, "kategori") && (Contains(l, "info") || Contains(l, "graf"))
  }

  /**
   * The `LIKE '%…%'` patterns match anywhere: a name that passes the filter
   * still passes with anything before or after it.
   */
  lemma InfoCategoryNameWithin(p: string, name: string, q: string)
    requires InfoCategoryName(name)
    ensures InfoCategoryName(p + name + q)
  {
    var l := Lower(name);
    LowerAppend(p, name);
    LowerAppend(p + name, q);
    assert Lower(p + name + q) == Lower(p) + l + Lower(q);
    forall sub | Contains(l, sub)
      ensures Contains(Lower(p) + l + Lower(q), sub)
    {
      ContainsAfterPrefix(Lower(p), l, sub);
      ContainsBeforeSuffix(Lower(p) + l, Lower(q), sub);
    }
  }

  /** The scan's first row: the first catalog table passing the filter, in catalog order. */
  function FirstInfoCategory(catalog: seq<string>): (r: Option<string>)
    ensures r.Some? ==> r.value in catalog && InfoCategoryName(r.value)
    ensures r.Some? ==> exists i :: 0 <= i < |catalog| && catalog[i] == r.value &&
                         forall j :: 0 <= j < i ==> !InfoCategoryName(catalog[j])
    ensures r.None? <==> forall t :: t in catalog ==> !InfoCategoryName(t)
  {
    if catalog == [] then None
    else if InfoCategoryName(catalog[0]) then Some(catalog[0])
    else
      var r := FirstInfoCategory(catalog[1..]);
      assert forall t :: t in catalog ==> t == catalog[0] || t in catalog[1..];
      if r.Some? then
        var i :| 0 <= i < |catalog[1..]| && catalog[1..][i] == r.value &&
                 forall j :: 0 <= j < i ==> !InfoCategoryName(catalog[1..][j]);
        assert catalog[i + 1] == r.value;
        assert forall j :: 0 <= j < i + 1 ==> !InfoCategoryName(catalog[j]);
        r
      else r
  }

  /**
   * `resolveTable`: the first of `tbinfografiskategori`, `kategori_infografis`
   * that a probe finds; else the first table of the catalog scan with a
   * non-empty name, unless the scan throws (`scanFails`); else
   * `tbinfografiskategori`.
   */
  method ResolveTable(catalog: seq<string>, failing: set<string>, scanFails: bool) returns (table: string)
    ensures TableFound("tbinfografiskategori", catalog, failing) ==> table == "tbinfografiskategori"
    ensures !TableFound("tbinfografiskategori", catalog, failing) && TableFound("kategori_infografis", catalog, failing) ==>
      table == "kategori_infografis"
    ensures !TableFound("tbinfografiskategori", catalog, failing) && !TableFound("kategori_infografis", catalog, failing) ==>
      if !scanFails && FirstInfoCategory(catalog).Some? && FirstInfoCategory(catalog).value != ""
      then table == FirstInfoCategory(catalog).value
      else table == DefaultTable
    ensures table == DefaultTable || table == "kategori_infografis" || (table in catalog && InfoCategoryName(table))
  {
    var probed := ProbeCandidates(Candidates, catalog, failing);
    if probed.Some? {
      return probed.value;
    }
    if !scanFails {
      var first := FirstInfoCategory(catalog);
      if first.Some? && first.value != "" {
        return first.value;
      }
    }
    return Candidates[0];
  }

  /** `resolveIdCol`: `id` when the table has it, `rowid` in every other case. */
  function ResolveIdCol(cols: seq<string>): (c: string)
    ensures c == "id" <==> "id" in cols
    ensures c == "id" || c == "rowid"
  {
    if "id" in cols then "id"
    else if "rowid" in cols then "rowid"
    else "rowid"
  }

  /** `cols.find(c => c !== 'id' && c !== 'rowid')`. */
  function FirstOther(cols: seq<string>): (r: Option<string>)
    ensures r.Some? ==> r.value in cols && r.value != "id" && r.value != "rowid"
    ensures r.Some? ==> exists i :: 0 <= i < |cols| && cols[i] == r.value &&
                         forall j :: 0 <= j < i ==> cols[j] == "id" || cols[j] == "rowid"
    ensures r.None? <==> forall c :: c in cols ==> c == "id" || c == "rowid"
  {
    if cols == [] then None
    else if cols[0] != "id" && cols[0] != "rowid" then Some(cols[0])
    else
      var r := FirstOther(cols[1..]);
      assert forall c :: c in cols ==> c == cols[0] || c in cols[1..];
      if r.Some? then
        var i :| 0 <= i < |cols[1..]| && cols[1..][i] == r.value &&
                 forall j :: 0 <= j < i ==> cols[1..][j] == "id" || cols[1..][j] == "rowid";
        assert cols[i + 1] == r.value;
        r
      else r
  }

  /**
   * `resolveNameCol`: the first of `nama_kategori`, `nama`, `kategori`,
   * `name` the table has; else its first column other than `id` and
   * `rowid`, when that name is non-empty; else `nama_kategori`.
   */
  function ResolveNameCol(cols: seq<string>): (c: string)
    ensures c != "id" && c != "rowid"
    ensures c in cols || c == "nama_kategori"
    ensures "nama_kategori" in cols ==> c == "nama_kategori"
    ensures "nama_kategori" !in cols && "nama" in cols ==> c == "nama"
    ensures "nama_kategori" !in cols && "nama" !in cols && "kategori" in cols ==> c == "kategori"
    ensures "nama_kategori" !in cols && "nama" !in cols && "kategori" !in cols && "name" in cols ==> c == "name"
    ensures "nama_kategori" !in cols && "nama" !in cols && "kategori" !in cols && "name" !in cols ==>
      c == (if FirstOther(cols).Some? && FirstOther(cols).value != "" then FirstOther(cols).value else "nama_kategori")
  {
    if "nama_kategori" in cols then "nama_kategori"
    else if "nama" in cols then "nama"
    else if "kategori" in cols then "kategori"
    else if "name" in cols then "name"
    else
      var other := FirstOther(cols);
      if other.Some? && other.value != "" then other.value else "nama_kategori"
  }

  /**
   * `body.nama_kategori ?? body[nameCol] ?? body.nama ?? body.kategori ?? body.name`:
   * the first of the first four that is neither `undefined` nor `null`, else
   * `body.name` whatever it is; `undefined` only when all five are nullish
   * and `name` is absent.
   */
  function ChosenValue(body: Obj, nameCol: string): (v: Value)
    ensures !Nullish(Get(body, "nama_kategori")) ==> v == Get(body, "nama_kategori")
    ensures Nullish(Get(body, "nama_kategori")) && !Nullish(Get(body, nameCol)) ==> v == Get(body, nameCol)
    ensures Nullish(Get(body, "nama_kategori")) && Nullish(Get(body, nameCol)) && !Nullish(Get(body, "nama")) ==>
      v == Get(body, "nama")
    ensures (Nullish(Get(body, "nama_kategori")) && Nullish(Get(body, nameCol)) && Nullish(Get(body, "nama")) &&
             !Nullish(Get(body, "kategori"))) ==> v == Get(body, "kategori")
    ensures (Nullish(Get(body, "nama_kategori")) && Nullish(Get(body, nameCol)) && Nullish(Get(body, "nama")) &&
             Nullish(Get(body, "kategori"))) ==> v == Get(body, "name")
    ensures v == Undefined <==>
      Nullish(Get(body, "nama_kategori")) && Nullish(Get(body, nameCol)) && Nullish(Get(body, "nama")) &&
      Nullish(Get(body, "kategori")) && Get(body, "name") == Undefined
  {
    Coalesce(Coalesce(Coalesce(Coalesce(Get(body, "nama_kategori"), Get(body, nameCol)), Get(body, "nama")),
                      Get(body, "kategori")), Get(body, "name"))
  }

  /** `SELECT idCol AS id, nameCol AS nama_kategori`: the reply's keys are fixed whatever the schema. */
  function Projection(cols: seq<string>): (p: seq<(string, string)>)
    ensures |p| == 2 && p[0].1 == "id" && p[1].1 == "nama_kategori"
    ensures p[0].0 == ResolveIdCol(cols) && p[1].0 == ResolveNameCol(cols)
    ensures p[0].0 != p[1].0
  {
    [(ResolveIdCol(cols), "id"), (ResolveNameCol(cols), "nama_kategori")]
  }

  /** GET `/`: every row, projected onto the aliased id and name. */
  function List(table: string, cols: seq<string>): (s: Statement)
    ensures s.Select? && s.table == table && s.whereCol.None? && s.params == []
    ensures s.projection == Projection(cols)
  {
    Select(table, Projection(cols), None, [])
  }

  /** GET `/:id` and the read-back after a write: one row by the id column, projected the same way. */
  function ById(table: string, cols: seq<string>, id: Value): (s: Statement)
    ensures s.Select? && s.table == table && s.projection == Projection(cols)
    ensures s.whereCol == Some(ResolveIdCol(cols)) && s.params == [id]
  {
    Select(table, Projection(cols), Some(ResolveIdCol(cols)), [id])
  }

  /**
   * POST: 400 "nama_kategori is required" exactly when the chosen value is
   * `undefined` (a `null` is inserted); otherwise INSERT into the name column
   * alone with the chosen value, answered 201 with the row read back.
   */
  function Post(table: string, cols: seq<string>, body: Obj): (h: Handled)
    ensures h.removeFile.None?
    ensures ChosenValue(body, ResolveNameCol(cols)) == Undefined <==> h.reply == BadRequest(NameRequired)
    ensures ChosenValue(body, ResolveNameCol(cols)) == Undefined <==> h.stmt.None?
    ensures h.stmt.Some? ==>
      h.reply == ReadBack(201) &&
      h.stmt.value == Insert(table, [ResolveNameCol(cols)], 1, [ChosenValue(body, ResolveNameCol(cols))])
  {
    var nameCol := ResolveNameCol(cols);
    var value := ChosenValue(body, nameCol);
    if value == Undefined then Handled(None, BadRequest(NameRequired), None)
    else Handled(Some(Insert(table, [nameCol], 1, [value])), ReadBack(201), None)
  }

  /**
   * PUT: 400 "No valid fields to update" exactly when the chosen value is
   * `undefined`; otherwise set the name column alone, matching on the id
   * column, with parameters `[value, id]`.
   */
  function Put(table: string, cols: seq<string>, body: Obj, id: string): (h: Handled)
    ensures h.removeFile.None?
    ensures ChosenValue(body, ResolveNameCol(cols)) == Undefined <==> h.reply == BadRequest(NoValidFields)
    ensures ChosenValue(body, ResolveNameCol(cols)) == Undefined <==> h.stmt.None?
    ensures h.stmt.Some? ==>
      h.reply == ReadBack(200) &&
      h.stmt.value == Update(table, [ResolveNameCol(cols)], ResolveIdCol(cols),
                             [ChosenValue(body, ResolveNameCol(cols)), Str(id)])
  {
    var nameCol := ResolveNameCol(cols);
    var value := ChosenValue(body, nameCol);
    if value == Undefined then Handled(None, BadRequest(NoValidFields), None)
    else Handled(Some(Update(table, [nameCol], ResolveIdCol(cols), [value, Str(id)])), ReadBack(200), None)
  }

  /** DELETE: by the resolved id column, always answered `{deleted: true}`. */
  function Delete(table: string, cols: seq<string>, id: string): (h: Handled)
    ensures h.reply == Deleted && h.removeFile.None?
    ensures h.stmt == Some(Statement.Delete(table, ResolveIdCol(cols), [Str(id)]))
  {
    DeleteById(table, ResolveIdCol(cols), id, None)
  }
}
