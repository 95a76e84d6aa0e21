/**
 * The development server's `_safe_filename`: the last path segment of an
 * uploaded name (either separator), with every character that is not
 * alphanumeric, `-`, `_` or `.` dropped, `file.bin` when nothing is left, and
 * at most 120 characters. `str.isalnum()` is read as ASCII letters and digits.
 */
module DevServer {
  import opened Text

  const MaxLength := 120
  const Fallback := "file.bin"

  predicate AsciiAlnum(c: char)
  {
    ('a' <= c <= 'z') || ('A' <= c <= 'Z') || ('0' <= c <= '9')
  }

  /** The characters the sanitiser keeps. */
  predicate Allowed(c: char)
  {
    AsciiAlnum(c) || c == '-' || c == '_' || c == '.'
  }

  /**
   * `_safe_filename(name)`: the allowed characters of the text after the last
   * `/` or `\`, cut to 120, or `file.bin` when none are left.
   */
  function SafeFilename(name: string): (r: string)
    ensures r != ""
    ensures |r| <= MaxLength
    ensures forall i :: 0 <= i < |r| ==> Allowed(r[i])
    ensures '/' !in r && '\\' !in r
    ensures var safe := Filter(AfterLast(name, {'/', '\\'}), Allowed);
      (safe != "" ==> r == Take(safe, MaxLength)) && (safe == "" ==> r == Fallback)
  {
    AfterLastReplaced(name);
    var last := AfterLast(ReplaceChar(name, '\\', '/'), {'/'});
    var safe := Filter(last, Allowed);
    FallbackAllowed();
    var safe' := if safe == "" then Fallback else safe;
    Shortened(safe');
    Take(safe', MaxLength)
  }

  lemma FallbackAllowed()
    ensures Fallback != "" && forall i :: 0 <= i < |Fallback| ==> Allowed(Fallback[i])
  {
  }

  /** Cutting a non-empty text of allowed characters to 120 keeps it non-empty, allowed and separator-free. */
  lemma Shortened(s: string)
    requires s != "" && forall i :: 0 <= i < |s| ==> Allowed(s[i])
    ensures var r := Take(s, MaxLength);
      && r != ""
      && (forall i :: 0 <= i < |r| ==> Allowed(r[i]))
      && '/' !in r && '\\' !in r
  {
    var r := Take(s, MaxLength);
    assert forall i :: 0 <= i < |r| ==> r[i] == s[i];
    assert forall c :: c in r ==> Allowed(c);
  }

  /** The segment kept is the text after the last `/` or `\`, so either separator splits the name. */
  lemma SafeFilenameSegment(name: string)
    ensures SafeFilename(name) == SafeFilename(AfterLast(name, {'/', '\\'}))
  {
    SegmentOfSegment(name);
  }

  /** The segment the sanitiser keeps is the same for a name and for that name's own last segment. */
  lemma SegmentOfSegment(name: string)
    ensures var seg := AfterLast(name, {'/', '\\'});
      AfterLast(ReplaceChar(seg, '\\', '/'), {'/'}) == AfterLast(ReplaceChar(name, '\\', '/'), {'/'})
  {
    AfterLastReplaced(name);
    var seg := AfterLast(name, {'/', '\\'});
    ReplaceAbsent(seg, '\\', '/');
    AfterLastAbsent(seg, {'/'});
  }

  /** Characters the sanitiser drops, other than separators, change nothing when they end the name. */
  lemma SafeFilenameIgnoresDropped(name: string, junk: string)
    requires forall i :: 0 <= i < |junk| ==> !Allowed(junk[i]) && junk[i] != '/' && junk[i] != '\\'
    ensures SafeFilename(name + junk) == SafeFilename(name)
  {
    var seps := {'/', '\\'};
    assert Filter(AfterLast(name + junk, seps), Allowed) == Filter(AfterLast(name, seps), Allowed) by {
      AfterLastAppend(name, junk, seps);
      FilterDropsTail(AfterLast(name, seps), junk, Allowed);
    }
  }

  /** A name already made of allowed characters, at most 120 of them and at least one, is kept as it is. */
  lemma SafeFilenameKeeps(name: string)
    requires name != "" && |name| <= MaxLength
    requires forall i :: 0 <= i < |name| ==> Allowed(name[i])
    ensures SafeFilename(name) == name
  {
    assert '/' !in name && '\\' !in name;
    ReplaceAbsent(name, '\\', '/');
    AfterLastAbsent(name, {'/'});
    assert Filter(name, Allowed) == name;
  }

  /** A sanitised name is its own sanitisation: applying `_safe_filename` twice is applying it once. */
  lemma SafeFilenameIdempotent(name: string)
    ensures SafeFilename(SafeFilename(name)) == SafeFilename(name)
  {
    SafeFilenameKeeps(SafeFilename(name));
  }

  /** The segments `.` and `..` pass through unchanged: the sanitiser does not reject them. */
  lemma DotSegmentsAccepted(name: string)
    requires name == "." || name == ".."
    ensures SafeFilename(name) == name
  {
    assert forall i :: 0 <= i < |name| ==> name[i] == '.';
    SafeFilenameKeeps(name);
  }
}
