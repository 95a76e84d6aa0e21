/**
 * The admin page's path mappers, which point a stored image or spreadsheet
 * URL at the copy bundled with the app. Each takes the URL's path from the
 * WHATWG `URL` parser (`parsed`, `None` when the parser throws, in which case
 * the text of the URL itself is split) and keeps its last `/` segment.
 */
module SqliteClient {
  import opened Wrappers
  import opened Text
  import opened Js

  const InfografisDir := "/sqlite/infografis/"
  const ExcelDir := "/assets/excel/"

  /** The text whose last `/` segment is taken: the parsed path, or the URL itself when parsing threw. */
  function PathText(url: Value, parsed: Option<string>): string
  {
    match parsed
    case Some(p) => p
    case None => ToText(url)
  }

  /**
   * `toLocalInfografisPath`: a falsy URL is returned as is; otherwise the
   * last `/` segment of its path, put under `/sqlite/infografis/`, or the URL
   * as is when that segment is empty.
   */
  function ToLocalInfografisPath(url: Value, parsed: Option<string>): (r: Value)
    ensures !Truthy(url) ==> r == url
    ensures Truthy(url) ==>
      var name := Last(Split(PathText(url, parsed), '/'));
      r == if name == "" then url else Str(InfografisDir + name)
    ensures r != url ==> r.Str? && |InfografisDir| < |r.s| && r.s[..|InfografisDir|] == InfografisDir &&
                         '/' !in r.s[|InfografisDir|..]
  {
    if !Truthy(url) then url
    else
      var name := AfterLast(PathText(url, parsed), {'/'});
      SplitLast(PathText(url, parsed), '/');
      if name == "" then url
      else
        var r := InfografisDir + name;
        assert r[..|InfografisDir|] == InfografisDir && r[|InfografisDir|..] == name;
        Str(r)
  }

  /**
   * Mapping an already mapped path again changes nothing, when the parser
   * gives back that path unchanged or throws.
   */
  lemma InfografisPathIdempotent(url: Value, parsed: Option<string>, parsed2: Option<string>)
    requires ToLocalInfografisPath(url, parsed) != url
    requires parsed2.None? || parsed2 == Some(ToLocalInfografisPath(url, parsed).s)
    ensures ToLocalInfografisPath(ToLocalInfografisPath(url, parsed), parsed2) == ToLocalInfografisPath(url, parsed)
  {
    var r := ToLocalInfografisPath(url, parsed);
    var name := r.s[|InfografisDir|..];
    assert r.s == InfografisDir + name;
    LastSegment(InfografisDir, name);
    assert PathText(r, parsed2) == r.s;
  }

  /** The lower-cased text after the last `.` is `xlsx` or `xls`. */
  predicate ExcelName(name: string)
  {
    var ext := Lower(AfterLast(name, {'.'}));
    ext == "xlsx" || ext == "xls"
  }

  /**
   * `name` ends in `.` and `ext`, in any case, or is `ext` itself in any
   * case (a name without a `.` is its own last piece).
   */
  predicate EndsWithExt(name: string, ext: string)
  {
    Lower(name) == ext ||
    (|ext| < |name| && name[|name| - |ext| - 1] == '.' && Lower(name[|name| - |ext|..]) == ext)
  }

  /** A spreadsheet name is one that ends in `.xlsx` or `.xls` in any case, or is that extension alone. */
  lemma ExcelNameEnds(name: string)
    ensures ExcelName(name) <==> EndsWithExt(name, "xlsx") || EndsWithExt(name, "xls")
  {
    var ext := Lower(AfterLast(name, {'.'}));
    assert ExcelName(name) <==> ext == "xlsx" || ext == "xls";
    assert ext == "xlsx" <==> EndsWithExt(name, "xlsx") by {
      LastPieceIs(name, "xlsx");
    }
    assert ext == "xls" <==> EndsWithExt(name, "xls") by {
      LastPieceIs(name, "xls");
    }
  }

  /** The lower-cased text after the last `.` is a dot-free `ext` exactly when the name ends that way. */
  lemma LastPieceIs(name: string, ext: string)
    requires forall i :: 0 <= i < |ext| ==> ext[i] != '.'
    ensures Lower(AfterLast(name, {'.'})) == ext <==> EndsWithExt(name, ext)
  {
    var tail := AfterLast(name, {'.'});
    if Lower(tail) == ext {
      if |tail| == |name| {
        assert tail == name;
      } else {
        assert name[|name| - |ext|..] == tail;
      }
    }
    if Lower(name) == ext {
      DotFree(name, ext);
      AfterLastAbsent(name, {'.'});
    } else if EndsWithExt(name, ext) {
      var t := name[|name| - |ext|..];
      DotFree(t, ext);
      AfterLastUnique(name, {'.'}, t);
    }
  }

  /** A text that lower-cases to a dot-free text holds no `.`. */
  lemma DotFree(s: string, ext: string)
    requires Lower(s) == ext
    requires forall i :: 0 <= i < |ext| ==> ext[i] != '.'
    ensures forall i :: 0 <= i < |s| ==> s[i] != '.'
  {
    forall i | 0 <= i < |s|
      ensures s[i] != '.'
    {
      assert Lower(s)[i] == LowerChar(s[i]);
    }
  }

  /**
   * `toLocalExcelPath`: a falsy URL is returned as is; otherwise the last `/`
   * segment of its path, in its original case, put under `/assets/excel/`
   * when it is non-empty and its extension is `xlsx` or `xls` in any case;
   * otherwise the URL as is.
   */
  function ToLocalExcelPath(url: Value, parsed: Option<string>): (r: Value)
    ensures !Truthy(url) ==> r == url
    ensures Truthy(url) ==>
      var name := Last(Split(PathText(url, parsed), '/'));
      var ext := Lower(Last(Split(name, '.')));
      r == if name != "" && (ext == "xlsx" || ext == "xls") then Str(ExcelDir + name) else url
    ensures r == url || (r.Str? && |ExcelDir| < |r.s| && r.s[..|ExcelDir|] == ExcelDir &&
                         '/' !in r.s[|ExcelDir|..] && ExcelName(r.s[|ExcelDir|..]))
  {
    if !Truthy(url) then url
    else
      var name := AfterLast(PathText(url, parsed), {'/'});
      SplitLast(PathText(url, parsed), '/');
      SplitLast(name, '.');
      if name != "" && ExcelName(name) then
        var r := ExcelDir + name;
        assert r[..|ExcelDir|] == ExcelDir && r[|ExcelDir|..] == name;
        Str(r)
      else url
  }

  /**
   * Mapping an already mapped spreadsheet path again changes nothing, when
   * the parser gives back that path unchanged or throws.
   */
  lemma ExcelPathIdempotent(url: Value, parsed: Option<string>, parsed2: Option<string>)
    requires ToLocalExcelPath(url, parsed) != url
    requires parsed2.None? || parsed2 == Some(ToLocalExcelPath(url, parsed).s)
    ensures ToLocalExcelPath(ToLocalExcelPath(url, parsed), parsed2) == ToLocalExcelPath(url, parsed)
  {
    var r := ToLocalExcelPath(url, parsed);
    var name := r.s[|ExcelDir|..];
    assert r.s == ExcelDir + name;
    LastSegment(ExcelDir, name);
    assert PathText(r, parsed2) == r.s;
  }
}
