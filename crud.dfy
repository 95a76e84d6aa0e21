/**
 * What every router hands to the database and to the client: the
 * parameterised statement it runs, the JSON reply it sends, and the stored
 * file it asks to be removed. Also the steps the routers share: filtering
 * body keys against the table's columns, reading values in column order, and
 * recovering a stored file's name from the URL kept in a row.
 */
module Crud {
  import opened Wrappers
  import opened Text
  import opened Js

  /**
   * A parameterised SQL statement. `Insert` keeps the number of `?`
   * placeholders it lists; `Update` sets `cols[i]=?` for each column and ends
   * with `WHERE idCol = ?`; `Select` lists `column AS alias` pairs.
   */
  datatype Statement =
    | Insert(table: string, cols: seq<string>, placeholders: nat, params: seq<Value>)
    | Update(table: string, cols: seq<string>, idCol: string, params: seq<Value>)
    | Delete(table: string, idCol: string, params: seq<Value>)
    | Select(table: string, projection: seq<(string, string)>, whereCol: Option<string>, params: seq<Value>)

  /** The JSON reply of a handler that did not fail in the database. */
  datatype Reply =
    | ReadBack(status: nat)       // the row read back by id after the write (201 after INSERT, 200 after UPDATE)
    | Deleted                     // 200 `{deleted: true}`
    | Found(row: Obj)             // 200 with the row
    | NullBody                    // 200 `null`
    | BadRequest(error: string)   // 400 `{error}`

  /** A handler's effect: the statement it runs, its reply, and the stored file it asks to remove. */
  datatype Handled = Handled(stmt: Option<Statement>, reply: Reply, removeFile: Option<string>)

  const NoValidFields := "No valid fields to update"

  /** `a` is `b` with some elements left out, order kept. */
  predicate Subsequence(a: seq<string>, b: seq<string>)
    decreases |b|
  {
    a == [] || (b != [] && ((a[0] == b[0] && Subsequence(a[1..], b[1..])) || Subsequence(a, b[1..])))
  }

  predicate Distinct(s: seq<string>)
  {
    forall i, j :: 0 <= i < j < |s| ==> s[i] != s[j]
  }

  /**
   * `Object.keys(body).filter((k) => cols.includes(k))`: the body's keys that
   * name a column, each once, in body order.
   */
  function KnownKeys(body: Obj, cols: seq<string>): (r: seq<string>)
    ensures forall k :: k in r <==> k in Keys(body) && k in cols
    ensures Subsequence(r, Keys(body))
    ensures Distinct(r)
  {
    if body == [] then []
    else
      var tail: Obj := body[1..];
      assert Keys(tail) == Keys(body)[1..];
      var rest := KnownKeys(tail, cols);
      if body[0].0 in cols then
        assert body[0].0 !in Keys(tail);
        [body[0].0] + rest
      else rest
  }

  /**
   * The upload handlers append the file column to the body's known keys. Every
   * entry still names a column, and when the body itself carries the file
   * column that column is listed twice: once in body order and once at the end.
   */
  lemma FileColAppended(body: Obj, cols: seq<string>, fileCol: string)
    requires fileCol in cols
    ensures var r := KnownKeys(body, cols) + [fileCol];
      && (forall c :: c in r ==> c in cols)
      && (fileCol in Keys(body) ==> Last(r) == fileCol && fileCol in r[..|r| - 1])
  {
    var known := KnownKeys(body, cols);
    var r := known + [fileCol];
    assert r[..|r| - 1] == known;
  }

  /** `cols.map((k) => body[k])`. */
  function ValuesOf(body: Obj, cols: seq<string>): (vs: seq<Value>)
    ensures |vs| == |cols|
    ensures forall i :: 0 <= i < |cols| ==> vs[i] == Get(body, cols[i])
    ensures forall i :: 0 <= i < |cols| && cols[i] !in Keys(body) ==> vs[i] == Undefined
    ensures forall i, j :: 0 <= i < |cols| && 0 <= j < |body| && body[j].0 == cols[i] ==> vs[i] == body[j].1
  {
    seq(|cols|, i requires 0 <= i < |cols| => Get(body, cols[i]))
  }

  /**
   * The file a URL column points at, as the routers compute it before
   * removing it: `url ? String(url).split('?')[0].split('/').pop() : null`,
   * and nothing to remove when that name is empty.
   */
  function StoredFileName(url: Value): (name: Option<string>)
    ensures !Truthy(url) ==> name.None?
    ensures name.Some? ==> name.value != "" && '/' !in name.value && '?' !in name.value
    ensures Truthy(url) ==>
      var n := Last(Split(Split(ToText(url), '?')[0], '/'));
      name == if n == "" then None else Some(n)
  {
    if !Truthy(url) then None
    else
      var path := BeforeFirst(ToText(url), {'?'});
      var n := AfterLast(path, {'/'});
      SplitFirst(ToText(url), '?');
      SplitLast(path, '/');
      assert forall i :: 0 <= i < |n| ==> n[i] == path[|path| - |n| + i];
      if n == "" then None else Some(n)
  }

  /**
   * A file stored under directory URL `dir` is found again from its URL, as
   * long as its name holds no `/` and no `?`.
   */
  lemma StoredFileNameRoundTrip(dir: string, file: string)
    requires dir != [] && Last(dir) == '/' && '?' !in dir
    requires file != "" && '/' !in file && '?' !in file
    ensures StoredFileName(Str(dir + file)) == Some(file)
  {
    var url := dir + file;
    assert BeforeFirst(url, {'?'}) == url by {
      assert '?' !in url;
      BeforeFirstAbsent(url, {'?'});
    }
    assert AfterLast(url, {'/'}) == file by {
      LastSegment(dir, file);
    }
    assert Truthy(Str(url)) && ToText(Str(url)) == url;
  }

  /** `DELETE FROM table WHERE idCol = ?`, answered `{deleted: true}` whether or not a row matched. */
  function DeleteById(table: string, idCol: string, id: string, removeFile: Option<string>): (h: Handled)
    ensures h.reply == Deleted && h.removeFile == removeFile
    ensures h.stmt == Some(Delete(table, idCol, [Str(id)]))
  {
    Handled(Some(Delete(table, idCol, [Str(id)])), Deleted, removeFile)
  }

  /** `res.json(row || null)`: the row read by id, or `null` when there is none. */
  function GetReply(row: Option<Obj>): (r: Reply)
    ensures r == NullBody <==> row.None?
    ensures row.Some? ==> r == Found(row.value)
  {
    match row
    case Some(o) => Found(o)
    case None => NullBody
  }
}
