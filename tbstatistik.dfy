/**
 * The `tbstatistik` router: spreadsheet uploads stored under
 * `/sqlite/TBSexcel/`. Unlike `infografis`, an upload writes its URL into the
 * request body's `file_url` field, and every column value is then read from
 * that rewritten body.
 */
module Tbstatistik {
  import opened Wrappers
  import opened Text
  import opened Js
  import opened Crud
  import opened Upload

  const Table := "tbstatistik"
  const UrlDir := "/sqlite/TBSexcel/"
  const FileCol := "file_url"

  /** The public URL of an uploaded spreadsheet: `/sqlite/TBSexcel/${req.file.filename}`. */
  function FileUrl(f: UploadedFile): (u: string)
    ensures |u| == |UrlDir| + |StoredName(f)| && u[..|UrlDir|] == UrlDir
    ensures AfterLast(u, {'/'}) == StoredName(f)
    ensures '?' in u ==> '?' in ExtName(f.originalname)
  {
    var name := StoredName(f);
    UrlDirShape();
    LastSegment(UrlDir, name);
    UrlDir + name
  }

  /** The upload directory ends in `/` and holds no `?`. */
  lemma UrlDirShape()
    ensures UrlDir != [] && Last(UrlDir) == '/' && '?' !in UrlDir
  {
  }

  /** A stored spreadsheet's URL gives back the name it was stored under, unless its extension holds a `?`. */
  lemma FileUrlRoundTrip(f: UploadedFile)
    requires '?' !in ExtName(f.originalname)
    ensures StoredFileName(Str(FileUrl(f))) == Some(StoredName(f))
  {
    var name := StoredName(f);
    assert name != "" && '/' !in name && '?' !in name;
    UrlDirShape();
    StoredFileNameRoundTrip(UrlDir, name);
  }

  /** The body the values are read from: with an upload, `body.file_url` is set to the upload's URL. */
  function Rewritten(body: Obj, file: Option<UploadedFile>): (b: Obj)
    ensures file.Some? ==> Get(b, FileCol) == Str(FileUrl(file.value))
    ensures forall k :: k != FileCol || file.None? ==> Get(b, k) == Get(body, k)
  {
    match file
    case Some(f) => Js.Put(body, FileCol, Str(FileUrl(f)))
    case None => body
  }

  /** Reading columns from the rewritten body: `file_url` gives the upload's URL, everything else the body's value. */
  lemma RewrittenValues(body: Obj, file: Option<UploadedFile>, cs: seq<string>)
    ensures forall i :: 0 <= i < |cs| ==>
      ValuesOf(Rewritten(body, file), cs)[i] ==
        if cs[i] == FileCol && file.Some? then Str(FileUrl(file.value)) else Get(body, cs[i])
  {
    var b := Rewritten(body, file);
    forall i | 0 <= i < |cs|
      ensures ValuesOf(b, cs)[i] == if cs[i] == FileCol && file.Some? then Str(FileUrl(file.value)) else Get(body, cs[i])
    {
      assert ValuesOf(b, cs)[i] == Get(b, cs[i]);
    }
  }

  /** The UPDATE parameters: the rewritten body's values for the set columns, then the id. */
  lemma UpdateParams(body: Obj, file: Option<UploadedFile>, cs: seq<string>, id: string)
    ensures var ps := ValuesOf(Rewritten(body, file), cs) + [Str(id)];
      && |ps| == |cs| + 1 && ps[|cs|] == Str(id)
      && forall i :: 0 <= i < |cs| ==>
           ps[i] == if cs[i] == FileCol && file.Some? then Str(FileUrl(file.value)) else Get(body, cs[i])
  {
    RewrittenValues(body, file, cs);
    var vs := ValuesOf(Rewritten(body, file), cs);
    var ps := vs + [Str(id)];
    assert forall i :: 0 <= i < |cs| ==> ps[i] == vs[i];
  }

  /** The file named by a row's `file_url`, for removal; nothing when there is no row. */
  function PreviousFile(row: Option<Obj>): (name: Option<string>)
    ensures row.None? ==> name.None?
    ensures row.Some? ==> name == StoredFileName(Get(row.value, FileCol))
  {
    match row
    case Some(r) => StoredFileName(Get(r, FileCol))
    case None => None
  }

  /**
   * POST: INSERT the body keys that name a column, in body order, then
   * `file_url` when a file was uploaded and the table has that column. With
   * an upload every `file_url` position is bound to the upload's URL; without
   * one, `file_url` takes the body's own value like every other column. The
   * reply is the row read back, with status 201.
   */
  method Post(cols: seq<string>, body: Obj, file: Option<UploadedFile>) returns (stmt: Statement)
    ensures stmt.Insert? && stmt.table == Table
    ensures stmt.cols == KnownKeys(body, cols) + (if file.Some? && FileCol in cols then [FileCol] else [])
    ensures forall c :: c in stmt.cols ==> c in cols
    ensures |stmt.cols| == stmt.placeholders == |stmt.params|
    ensures forall i :: 0 <= i < |stmt.cols| ==>
      stmt.params[i] == if stmt.cols[i] == FileCol && file.Some? then Str(FileUrl(file.value)) else Get(body, stmt.cols[i])
    ensures file.Some? && FileCol in cols && FileCol in Keys(body) ==>
      Last(stmt.cols) == FileCol && FileCol in stmt.cols[..|stmt.cols| - 1]
  {
    var insertCols := KnownKeys(body, cols);
    var b := body;
    if file.Some? {
      if FileCol in cols {
        FileColAppended(body, cols, FileCol);
        insertCols := insertCols + [FileCol];
      }
      b := Js.Put(b, FileCol, Str(FileUrl(file.value)));
    }
    assert b == Rewritten(body, file);
    RewrittenValues(body, file, insertCols);
    var values := ValuesOf(b, insertCols);
    stmt := Insert(Table, insertCols, |insertCols|, values);
  }

  /**
   * PUT: with an upload, first asks to remove the file the row's `file_url`
   * names; then answers 400 "No valid fields to update" exactly when no body
   * key names a column and no `file_url` column was added; otherwise UPDATEs
   * the set columns with values read from the rewritten body, followed by
   * the id, and replies with the row read back.
   */
  method Put(cols: seq<string>, body: Obj, id: string, oldRow: Option<Obj>, file: Option<UploadedFile>)
    returns (h: Handled)
    ensures h.removeFile.Some? ==> file.Some?
    ensures file.Some? ==> h.removeFile == PreviousFile(oldRow)
    ensures var setCols := KnownKeys(body, cols) + (if file.Some? && FileCol in cols then [FileCol] else []);
      if setCols == [] then
        h.stmt.None? && h.reply == BadRequest(NoValidFields)
      else
        && h.reply == ReadBack(200)
        && h.stmt.Some? && h.stmt.value.Update?
        && h.stmt.value.table == Table && h.stmt.value.idCol == "id"
        && h.stmt.value.cols == setCols
        && |h.stmt.value.params| == |setCols| + 1
        && h.stmt.value.params[|setCols|] == Str(id)
        && forall i :: 0 <= i < |setCols| ==>
             h.stmt.value.params[i] ==
               if setCols[i] == FileCol && file.Some? then Str(FileUrl(file.value)) else Get(body, setCols[i])
  {
    var setCols := KnownKeys(body, cols);
    var b := body;
    var removeFile := None;
    if file.Some? {
      if FileCol in cols {
        setCols := setCols + [FileCol];
      }
      b := Js.Put(b, FileCol, Str(FileUrl(file.value)));
      removeFile := PreviousFile(oldRow);
    }
    if setCols == [] {
      return Handled(None, BadRequest(NoValidFields), removeFile);
    }
    assert b == Rewritten(body, file);
    UpdateParams(body, file, setCols, id);
    var params := ValuesOf(b, setCols) + [Str(id)];
    h := Handled(Some(Update(Table, setCols, "id", params)), ReadBack(200), removeFile);
  }

  /**
   * DELETE: removes the row by id, asks to remove the file its `file_url`
   * named (read before the delete), and always answers `{deleted: true}`.
   */
  function Delete(id: string, row: Option<Obj>): (h: Handled)
    ensures h.reply == Deleted
    ensures h.stmt == Some(Statement.Delete(Table, "id", [Str(id)]))
    ensures h.removeFile == PreviousFile(row)
  {
    DeleteById(Table, "id", id, PreviousFile(row))
  }
}
