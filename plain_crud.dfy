/**
 * The builders of the two routers that do no column filtering
 * (`kategori_tbstatistik` and `tbuser`): every body key becomes a column, in
 * `Object.keys` order, whether or not the table has it.
 */
module PlainCrud {
  import opened Wrappers
  import opened Js
  import opened Crud

  /**
   * POST: `INSERT INTO table (keys) VALUES (?, …)` with the body's values in
   * key order. There is no emptiness check: an empty body gives an INSERT
   * with no columns.
   */
  function InsertAll(table: string, body: Obj): (s: Statement)
    ensures s.Insert? && s.table == table
    ensures s.cols == Keys(body)
    ensures s.placeholders == |body| && |s.params| == |body|
    ensures forall i :: 0 <= i < |body| ==> s.params[i] == body[i].1
  {
    Insert(table, Keys(body), |Keys(body)|, ValuesOf(body, Keys(body)))
  }

  /**
   * PUT: 400 "No valid fields to update" exactly when the body has no keys;
   * otherwise one `k=?` per body key in order, matching on `id`, with the
   * body's values followed by the id.
   */
  method UpdateAll(table: string, body: Obj, id: string) returns (h: Handled)
    ensures h.removeFile.None?
    ensures body == [] <==> h.reply == BadRequest(NoValidFields)
    ensures body == [] <==> h.stmt.None?
    ensures body != [] ==>
      && h.reply == ReadBack(200)
      && h.stmt.Some? && h.stmt.value.Update?
      && h.stmt.value.table == table && h.stmt.value.idCol == "id"
      && h.stmt.value.cols == Keys(body)
      && |h.stmt.value.params| == |body| + 1
      && (forall i :: 0 <= i < |body| ==> h.stmt.value.params[i] == body[i].1)
      && h.stmt.value.params[|body|] == Str(id)
  {
    var keys := Keys(body);
    if |keys| == 0 {
      return Handled(None, BadRequest(NoValidFields), None);
    }
    var values := ValuesOf(body, keys);
    values := values + [Str(id)];
    h := Handled(Some(Update(table, keys, "id", values)), ReadBack(200), None);
  }
}
