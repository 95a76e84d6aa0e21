/**
 * The multer `filename` callback shared by the image and spreadsheet
 * uploads: `${Date.now()}_${base}${ext}`, where `ext` is Node's
 * `path.extname(originalname)` and `base` is `path.basename(originalname, ext)`
 * with every character outside `[A-Za-z0-9-_]` replaced by `_`. Paths follow
 * Node's POSIX rules (`/` is the only separator).
 */
module Upload {
  import opened Text

  /** An uploaded file as the callback sees it, with the clock reading `Date.now()` in milliseconds. */
  datatype UploadedFile = UploadedFile(originalname: string, now: nat)

  /** `p` with its trailing `/` characters removed. */
  function TrimTrailingSlashes(p: string): (r: string)
    ensures r <= p
    ensures r == [] || Last(r) != '/'
    ensures forall i :: |r| <= i < |p| ==> p[i] == '/'
  {
    if p != [] && Last(p) == '/' then TrimTrailingSlashes(p[..|p| - 1]) else p
  }

  /** The last path component, which both `path.basename` and `path.extname` work on. */
  function Component(p: string): (c: string)
    ensures '/' !in c
  {
    AfterLast(TrimTrailingSlashes(p), {'/'})
  }

  /** No `.` follows the first character, or the component is `..`. */
  predicate NoExtension(c: string)
  {
    (forall j :: 1 <= j < |c| ==> c[j] != '.') || c == ".."
  }

  /**
   * The extension of one path component: from its last `.` to its end;
   * empty when it has no `.`, when its only leading `.` is its last one (a
   * dot-file such as `.env`), or when the component is `..`.
   */
  function DotExt(c: string): (e: string)
    ensures |e| <= |c| && e == c[|c| - |e|..]
    ensures e == "" || (e[0] == '.' && '.' !in e[1..])
    ensures e != "" ==> |e| < |c|
  {
    var tail := AfterLast(c, {'.'});
    if |tail| >= |c| - 1 || c == ".." then ""
    else
      var d := |c| - |tail| - 1;
      assert c[d] == '.';
      assert c[d + 1..] == tail;
      var e := "." + tail;
      assert e == c[d..];
      assert e[1..] == tail;
      e
  }

  /**
   * The extension is empty exactly when no `.` follows the first character
   * or the component is `..`; otherwise it is the last `.` and what follows.
   */
  lemma DotExtShape(c: string)
    ensures DotExt(c) == "" <==> NoExtension(c)
    ensures DotExt(c) != "" ==> DotExt(c) == "." + AfterLast(c, {'.'})
  {
    var tail := AfterLast(c, {'.'});
    DotTail(c, tail);
  }

  /** The text after the last `.` reaches back to the front exactly when no `.` follows the first character. */
  lemma DotTail(c: string, tail: string)
    requires |tail| <= |c| && tail == c[|c| - |tail|..]
    requires forall i :: 0 <= i < |tail| ==> tail[i] != '.'
    requires |tail| < |c| ==> c[|c| - |tail| - 1] == '.'
    ensures |tail| >= |c| - 1 <==> forall j :: 1 <= j < |c| ==> c[j] != '.'
  {
    if |tail| >= |c| - 1 {
      forall j | 1 <= j < |c|
        ensures c[j] != '.'
      {
        assert c[j] == tail[j - (|c| - |tail|)];
      }
    }
  }

  /** `path.extname(p)`: the extension of the last component. */
  function ExtName(p: string): (e: string)
    ensures |e| <= |Component(p)| && e == Component(p)[|Component(p)| - |e|..]
    ensures e != "" ==> |e| < |Component(p)|
  {
    DotExt(Component(p))
  }

  /**
   * `path.extname` is empty exactly when the last component has no `.` after
   * its first character or is `..`; otherwise it runs from the component's
   * last `.` to its end.
   */
  lemma ExtNameShape(p: string)
    ensures ExtName(p) == "" <==> NoExtension(Component(p))
    ensures ExtName(p) != "" ==> ExtName(p) == "." + AfterLast(Component(p), {'.'})
  {
    var c := Component(p);
    assert ExtName(p) == DotExt(c);
    DotExtShape(c);
  }

  /** `path.basename(p, path.extname(p))`: the last component without its extension. */
  function BaseName(p: string): (b: string)
    ensures b + ExtName(p) == Component(p)
    ensures ExtName(p) != "" ==> b != ""
  {
    var c := Component(p);
    var e := ExtName(p);
    CutSuffix(c, e);
    c[..|c| - |e|]
  }

  /** Cutting a suffix off and putting it back gives the text again. */
  lemma CutSuffix(c: string, e: string)
    requires |e| <= |c| && e == c[|c| - |e|..]
    ensures c[..|c| - |e|] + e == c
    ensures |e| < |c| ==> c[..|c| - |e|] != ""
  {
  }

  /** The characters `[a-zA-Z0-9-_]` that the callback keeps. */
  predicate SafeBaseChar(ch: char)
  {
    ('a' <= ch <= 'z') || ('A' <= ch <= 'Z') || ('0' <= ch <= '9') || ch == '-' || ch == '_'
  }

  /** `base.replace(/[^a-zA-Z0-9-_]/g, '_')`. */
  function SanitizeBase(base: string): (r: string)
    ensures |r| == |base|
    ensures forall i :: 0 <= i < |r| ==> SafeBaseChar(r[i])
    ensures forall i :: 0 <= i < |r| ==> (r[i] == base[i] <==> SafeBaseChar(base[i]) || base[i] == '_')
  {
    seq(|base|, i requires 0 <= i < |base| => if SafeBaseChar(base[i]) then base[i] else '_')
  }

  /** Sanitising a sanitised base changes nothing. */
  lemma SanitizeBaseIdempotent(base: string)
    ensures SanitizeBase(SanitizeBase(base)) == SanitizeBase(base)
  {
  }

  /** A `/`-free component has a `/`-free extension. */
  lemma ExtNoSlash(c: string)
    requires '/' !in c
    ensures '/' !in DotExt(c)
  {
    var e := DotExt(c);
    assert forall i :: 0 <= i < |e| ==> e[i] == c[|c| - |e| + i];
  }

  /**
   * Digits, `_`, safe characters and a `/`-free extension: the stamp and the
   * `_` can be read back from the front, no `/` occurs, and a `?` only in the
   * extension.
   */
  lemma NameShape(t: string, b: string, e: string, n: string)
    requires forall i :: 0 <= i < |t| ==> IsDigit(t[i])
    requires forall i :: 0 <= i < |b| ==> SafeBaseChar(b[i])
    requires '/' !in e
    requires n == t + "_" + b + e
    ensures |t| < |n|
    ensures n[..|t|] == t && n[|t|] == '_'
    ensures '/' !in n
    ensures '?' in n ==> '?' in e
    ensures n[|t| + 1..] == b + e
  {
    var head := t + "_" + b;
    assert forall i :: 0 <= i < |head| ==> SafeBaseChar(head[i]) by {
      forall i | 0 <= i < |head|
        ensures SafeBaseChar(head[i])
      {
        if i < |t| {
          assert head[i] == t[i];
        } else if i > |t| {
          assert head[i] == b[i - |t| - 1];
        }
      }
    }
    assert n == head + e;
    forall i | 0 <= i < |n| && (n[i] == '/' || n[i] == '?')
      ensures n[i] in e
    {
      assert n[i] == e[i - |head|];
    }
    assert n[..|t|] == t;
    assert n[|t| + 1..] == b + e;
  }

  /**
   * The name multer stores the upload under: `${Date.now()}_${base}${ext}`.
   * It starts with the clock reading in decimal and an `_`, followed by the
   * sanitised base and the extension; it holds no `/`, and holds a `?` only
   * when the original name's extension does.
   */
  function StoredName(f: UploadedFile): (name: string)
    ensures |NatText(f.now)| < |name|
    ensures name[..|NatText(f.now)|] == NatText(f.now) && name[|NatText(f.now)|] == '_'
    ensures '/' !in name
    ensures '?' in name ==> '?' in ExtName(f.originalname)
    ensures name[|NatText(f.now)| + 1..] == SanitizeBase(BaseName(f.originalname)) + ExtName(f.originalname)
  {
    var t := NatText(f.now);
    var b := SanitizeBase(BaseName(f.originalname));
    var e := ExtName(f.originalname);
    ExtNoSlash(Component(f.originalname));
    var n := t + "_" + b + e;
    NameShape(t, b, e, n);
    n
  }
}
