/**
 * The `infografis` router: image uploads stored under `/sqlite/infografis/`,
 * INSERT and UPDATE built from the body keys that name a column plus the
 * image column, and the removal of the previously stored image.
 */
module Infografis {
  import opened Wrappers
  import opened Text
  import opened Js
  import opened Crud
  import opened Upload

  const Table := "infografis"
  const UrlDir := "/sqlite/infografis/"

  /** `getFileCol`: `file_url` if the table has it, else `image_url` if it has that, else `file_url`. */
  function FileCol(cols: seq<string>): (c: string)
    ensures c == "file_url" || c == "image_url"
    ensures c == "image_url" <==> "file_url" !in cols && "image_url" in cols
    ensures c in cols <==> "file_url" in cols || "image_url" in cols
  {
    if "file_url" in cols then "file_url"
    else if "image_url" in cols then "image_url"
    else "file_url"
  }

  /** The public URL of an uploaded image: `/sqlite/infografis/${req.file.filename}`. */
  function FileUrl(f: UploadedFile): (u: string)
    ensures |u| == |UrlDir| + |StoredName(f)| && u[..|UrlDir|] == UrlDir
    ensures AfterLast(u, {'/'}) == StoredName(f)
    ensures '?' in u ==> '?' in ExtName(f.originalname)
  {
    var name := StoredName(f);
    UrlDirShape();
    LastSegment(UrlDir, name);
    UrlDir + name
  }

  /** The upload directory ends in `/` and holds no `?`. */
  lemma UrlDirShape()
    ensures UrlDir != [] && Last(UrlDir) == '/' && '?' !in UrlDir
  {
  }

  /**
   * The name the handlers later extract from a stored image URL is the name
   * the upload was stored under, unless the original extension holds a `?`.
   */
  lemma FileUrlRoundTrip(f: UploadedFile)
    requires '?' !in ExtName(f.originalname)
    ensures StoredFileName(Str(FileUrl(f))) == Some(StoredName(f))
  {
    var name := StoredName(f);
    assert name != "" && '/' !in name && '?' !in name;
    UrlDirShape();
    StoredFileNameRoundTrip(UrlDir, name);
  }

  /** `fileUrl`: the upload's URL, or `null` when no file came with the request. */
  function FileValue(file: Option<UploadedFile>): (v: Value)
    ensures v == Null <==> file.None?
    ensures file.Some? ==> v.Str? && |v.s| == |UrlDir| + |StoredName(file.value)| && v.s[..|UrlDir|] == UrlDir
    ensures file.Some? ==> AfterLast(v.s, {'/'}) == StoredName(file.value)
  {
    match file
    case Some(f) => Str(FileUrl(f))
    case None => Null
  }

  /**
   * The stored image of a row, for removal: the first truthy of
   * `row[fileCol]`, `row.image_url`, `row.file_url`; nothing when the row is
   * absent or all three are falsy.
   */
  function PreviousFile(row: Option<Obj>, fileCol: string): (name: Option<string>)
    ensures row.None? ==> name.None?
    ensures row.Some? && Truthy(Get(row.value, fileCol)) ==>
      name == StoredFileName(Get(row.value, fileCol))
    ensures row.Some? && !Truthy(Get(row.value, fileCol)) && Truthy(Get(row.value, "image_url")) ==>
      name == StoredFileName(Get(row.value, "image_url"))
    ensures row.Some? && !Truthy(Get(row.value, fileCol)) && !Truthy(Get(row.value, "image_url")) ==>
      name == StoredFileName(Get(row.value, "file_url"))
    ensures (row.Some? && !Truthy(Get(row.value, fileCol)) && !Truthy(Get(row.value, "image_url")) &&
             !Truthy(Get(row.value, "file_url"))) ==> name.None?
  {
    match row
    case None => None
    case Some(r) =>
      StoredFileName(Or(Or(Get(r, fileCol), Get(r, "image_url")), Get(r, "file_url")))
  }

  /**
   * POST: INSERT the body keys that name a column, in body order, then the
   * image column when a file was uploaded and the table has that column. The
   * image column is bound to the upload's URL, or to `null` without an
   * upload, whatever the body holds for it; every other column takes the
   * body's value. The reply is the row read back, with status 201.
   */
  method Post(cols: seq<string>, body: Obj, file: Option<UploadedFile>) returns (stmt: Statement)
    ensures stmt.Insert? && stmt.table == Table
    ensures stmt.cols == KnownKeys(body, cols) + (if file.Some? && FileCol(cols) in cols then [FileCol(cols)] else [])
    ensures forall c :: c in stmt.cols ==> c in cols
    ensures |stmt.cols| == stmt.placeholders == |stmt.params|
    ensures forall i :: 0 <= i < |stmt.cols| ==>
      stmt.params[i] == if stmt.cols[i] == FileCol(cols) then FileValue(file) else Get(body, stmt.cols[i])
    ensures file.Some? && FileCol(cols) in cols && FileCol(cols) in Keys(body) ==>
      Last(stmt.cols) == FileCol(cols) && FileCol(cols) in stmt.cols[..|stmt.cols| - 1]
  {
    var fileCol := FileCol(cols);
    var insertCols := KnownKeys(body, cols);
    if file.Some? && fileCol in cols {
      FileColAppended(body, cols, fileCol);
      insertCols := insertCols + [fileCol];
    }
    var fileUrl := FileValue(file);
    var values := seq(|insertCols|, i requires 0 <= i < |insertCols| =>
      if insertCols[i] == fileCol then fileUrl else Get(body, insertCols[i]));
    stmt := Insert(Table, insertCols, |insertCols|, values);
  }

  /**
   * PUT: with an upload, first asks to remove the row's previous image; then
   * answers 400 "No valid fields to update" exactly when no body key names a
   * column and no image column was added; otherwise UPDATEs one `c=?` per
   * set column with the values in order followed by the id, and replies with
   * the row read back.
   */
  method Put(cols: seq<string>, body: Obj, id: string, oldRow: Option<Obj>, file: Option<UploadedFile>)
    returns (h: Handled)
    ensures h.removeFile.Some? ==> file.Some?
    ensures file.Some? ==> h.removeFile == PreviousFile(oldRow, FileCol(cols))
    ensures var setCols := KnownKeys(body, cols) + (if file.Some? && FileCol(cols) in cols then [FileCol(cols)] else []);
      if setCols == [] then
        h.stmt.None? && h.reply == BadRequest(NoValidFields)
      else
        && h.reply == ReadBack(200)
        && h.stmt.Some? && h.stmt.value.Update?
        && h.stmt.value.table == Table && h.stmt.value.idCol == "id"
        && h.stmt.value.cols == setCols
        && |h.stmt.value.params| == |setCols| + 1
        && h.stmt.value.params[|setCols|] == Str(id)
        && forall i :: 0 <= i < |setCols| ==>
             h.stmt.value.params[i] == if setCols[i] == FileCol(cols) then FileValue(file) else Get(body, setCols[i])
  {
    var fileCol := FileCol(cols);
    var setCols := KnownKeys(body, cols);
    var removeFile := None;
    if file.Some? {
      removeFile := PreviousFile(oldRow, fileCol);
      if fileCol in cols {
        setCols := setCols + [fileCol];
      }
    }
    if setCols == [] {
      return Handled(None, BadRequest(NoValidFields), removeFile);
    }
    var fileUrl := FileValue(file);
    var values := seq(|setCols|, i requires 0 <= i < |setCols| =>
      if setCols[i] == fileCol then fileUrl else Get(body, setCols[i]));
    var params := values + [Str(id)];
    assert forall i :: 0 <= i < |setCols| ==> params[i] == values[i];
    h := Handled(Some(Update(Table, setCols, "id", params)), ReadBack(200), removeFile);
  }

  /**
   * DELETE: removes the row by id, asks to remove the image the row named
   * (read before the delete), and always answers `{deleted: true}`.
   */
  function Delete(cols: seq<string>, id: string, row: Option<Obj>): (h: Handled)
    ensures h.reply == Deleted
    ensures h.stmt == Some(Statement.Delete(Table, "id", [Str(id)]))
    ensures h.removeFile == PreviousFile(row, FileCol(cols))
    ensures row.None? ==> h.removeFile.None?
  {
    DeleteById(Table, "id", id, PreviousFile(row, FileCol(cols)))
  }
}
