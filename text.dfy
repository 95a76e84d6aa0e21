/**
 * String operations shared by the routers, the browser client and the Python
 * scripts: the `split(c)[0]` / `split(c).pop()` idioms, character
 * replacement, ASCII lower-casing, substring search and decimal rendering of
 * numbers.
 */
module Text {

  /** The last element of a non-empty sequence (JavaScript `pop()`, Python `[-1]`). */
  function Last<T>(xs: seq<T>): T
    requires xs != []
  {
    xs[|xs| - 1]
  }

  /** JavaScript `s.split(sep)` / Python `s.split(sep)` with a one-character separator. */
  function Split(s: string, sep: char): (parts: seq<string>)
    ensures |parts| >= 1
    ensures forall i :: 0 <= i < |parts| ==> sep !in parts[i]
    decreases |s|
  {
    if s == [] then [""]
    else
      var rest := Split(s[1..], sep);
      if s[0] == sep then [""] + rest else [[s[0]] + rest[0]] + rest[1..]
  }

  /** `parts.join(sep)`. */
  function Join(parts: seq<string>, sep: char): string
    requires |parts| >= 1
  {
    if |parts| == 1 then parts[0] else parts[0] + [sep] + Join(parts[1..], sep)
  }

  /**
   * The longest prefix of `s` free of every character in `seps`: for a single
   * separator this is `s.split(sep)[0]` (see SplitFirst).
   */
  function BeforeFirst(s: string, seps: set<char>): (r: string)
    ensures r <= s
    ensures forall i :: 0 <= i < |r| ==> r[i] !in seps
    ensures |r| < |s| ==> s[|r|] in seps
    decreases |s|
  {
    if s == [] || s[0] in seps then ""
    else [s[0]] + BeforeFirst(s[1..], seps)
  }

  /**
   * The longest suffix of `s` free of every character in `seps`: for a single
   * separator this is `s.split(sep).pop()` (see SplitLast).
   */
  function AfterLast(s: string, seps: set<char>): (r: string)
    ensures |r| <= |s| && r == s[|s| - |r|..]
    ensures forall i :: 0 <= i < |r| ==> r[i] !in seps
    ensures |r| < |s| ==> s[|s| - |r| - 1] in seps
    decreases |s|
  {
    if s == [] || s[|s| - 1] in seps then ""
    else AfterLast(s[..|s| - 1], seps) + [s[|s| - 1]]
  }

  /** Every occurrence of `from` replaced by `to` (Python `str.replace` of one character). */
  function ReplaceChar(s: string, from: char, to: char): (r: string)
  {
    seq(|s|, i requires 0 <= i < |s| => if s[i] == from then to else s[i])
  }

  /** ASCII lower-casing of one character. */
  function LowerChar(c: char): char
  {
    if 'A' <= c <= 'Z' then (c as int + 32) as char else c
  }

  /** `toLowerCase()`, restricted to ASCII letters. */
  function Lower(s: string): string
  {
    seq(|s|, i requires 0 <= i < |s| => LowerChar(s[i]))
  }

  /** `sub` occurs somewhere in `s` (SQL `LIKE '%sub%'` without wildcards in `sub`). */
  predicate Contains(s: string, sub: string)
    decreases |s|
  {
    sub <= s || (s != [] && Contains(s[1..], sub))
  }

  /** Lower-casing works character by character, so it distributes over concatenation. */
  lemma LowerAppend(a: string, b: string)
    ensures Lower(a + b) == Lower(a) + Lower(b)
  {
  }

  /** Text found in `s` is still found once something is put in front of `s`. */
  lemma {:induction false} ContainsAfterPrefix(p: string, s: string, sub: string)
    requires Contains(s, sub)
    ensures Contains(p + s, sub)
    decreases |p|
  {
    if p != [] {
      assert (p + s)[1..] == p[1..] + s;
      ContainsAfterPrefix(p[1..], s, sub);
    } else {
      assert p + s == s;
    }
  }

  /** Text found in `s` is still found once something is put after `s`. */
  lemma {:induction false} ContainsBeforeSuffix(s: string, q: string, sub: string)
    requires Contains(s, sub)
    ensures Contains(s + q, sub)
    decreases |s|
  {
    if sub <= s {
      assert sub <= s + q by {
        assert (s + q)[..|sub|] == s[..|sub|];
      }
    } else {
      assert (s + q)[1..] == s[1..] + q;
      ContainsBeforeSuffix(s[1..], q, sub);
    }
  }

  predicate IsDigit(c: char)
  {
    '0' <= c <= '9'
  }

  function DigitChar(d: nat): (c: char)
    requires d < 10
    ensures IsDigit(c)
  {
    (d + '0' as int) as char
  }

  /** Decimal rendering of a natural number (template literal `${n}` / `String(n)`). */
  function NatText(n: nat): (r: string)
    ensures r != []
    ensures forall i :: 0 <= i < |r| ==> IsDigit(r[i])
    ensures n > 0 ==> r[0] != '0'
  {
    if n < 10 then [DigitChar(n)] else NatText(n / 10) + [DigitChar(n % 10)]
  }

  /** Decimal rendering of an integer, with a leading `-` when negative. */
  function IntText(n: int): (r: string)
    ensures r != []
    ensures forall i :: 0 <= i < |r| ==> IsDigit(r[i]) || r[i] == '-'
  {
    if n < 0 then "-" + NatText(-n) else NatText(n)
  }

  /** The number a string of decimal digits denotes: the reference reading of NatText. */
  function DecimalValue(s: string): nat
    requires forall i :: 0 <= i < |s| ==> IsDigit(s[i])
  {
    if s == [] then 0
    else DecimalValue(s[..|s| - 1]) * 10 + DigitValue(s[|s| - 1])
  }

  function DigitValue(c: char): (d: nat)
    requires IsDigit(c)
    ensures d < 10
  {
    c as int - '0' as int
  }

  /** Reading back the decimal text of `n` gives `n`. */
  lemma {:induction false} NatTextRoundTrip(n: nat)
    ensures DecimalValue(NatText(n)) == n
  {
    if n >= 10 {
      NatTextRoundTrip(n / 10);
      var s := NatText(n);
      assert s[..|s| - 1] == NatText(n / 10);
    }
  }

  /** The pieces of a split, joined again with the same separator, give the original text. */
  lemma {:induction false} JoinSplit(s: string, sep: char)
    ensures Join(Split(s, sep), sep) == s
  {
    if s != [] {
      JoinSplit(s[1..], sep);
      var rest := Split(s[1..], sep);
      if s[0] == sep {
        assert Split(s, sep)[1..] == rest;
      } else if |rest| > 1 {
        var parts := Split(s, sep);
        assert parts[1..] == rest[1..];
        calc {
          Join(parts, sep);
          ([s[0]] + rest[0]) + [sep] + Join(rest[1..], sep);
          [s[0]] + (rest[0] + [sep] + Join(rest[1..], sep));
          [s[0]] + Join(rest, sep);
          [s[0]] + s[1..];
        }
      }
    }
  }

  /** `s.split(sep)[0]` is the text before the first separator. */
  lemma {:induction false} SplitFirst(s: string, sep: char)
    ensures Split(s, sep)[0] == BeforeFirst(s, {sep})
  {
    if s != [] && s[0] != sep {
      SplitFirst(s[1..], sep);
    }
  }

  /** A suffix that has the three defining properties of AfterLast is AfterLast. */
  lemma AfterLastUnique(s: string, seps: set<char>, r: string)
    requires |r| <= |s| && r == s[|s| - |r|..]
    requires forall i :: 0 <= i < |r| ==> r[i] !in seps
    requires |r| < |s| ==> s[|s| - |r| - 1] in seps
    ensures r == AfterLast(s, seps)
  {
  }

  /** The last `/` segment of a directory ending in `/` followed by a `/`-free name is that name. */
  lemma LastSegment(dir: string, name: string)
    requires dir != [] && Last(dir) == '/'
    requires '/' !in name
    ensures AfterLast(dir + name, {'/'}) == name
  {
    var s := dir + name;
    assert s[|s| - |name| - 1] == '/';
    assert s[|s| - |name|..] == name;
    AfterLastUnique(s, {'/'}, name);
  }

  /** Separator-free text appended at the end joins the last segment. */
  lemma AfterLastAppend(s: string, t: string, seps: set<char>)
    requires forall i :: 0 <= i < |t| ==> t[i] !in seps
    ensures AfterLast(s + t, seps) == AfterLast(s, seps) + t
  {
    var l := AfterLast(s, seps);
    var st := s + t;
    var r := l + t;
    assert st[|st| - |r|..] == r;
    forall i | 0 <= i < |r|
      ensures r[i] !in seps
    {
      if i < |l| {
        assert r[i] == l[i];
      } else {
        assert r[i] == t[i - |l|];
      }
    }
    if |r| < |st| {
      assert st[|st| - |r| - 1] == s[|s| - |l| - 1];
    }
    AfterLastUnique(st, seps, r);
  }

  /** A text holding none of the separators is its own AfterLast. */
  lemma AfterLastAbsent(s: string, seps: set<char>)
    requires forall i :: 0 <= i < |s| ==> s[i] !in seps
    ensures AfterLast(s, seps) == s
  {
    AfterLastUnique(s, seps, s);
  }

  /** Replacing a character the text does not hold changes nothing. */
  lemma ReplaceAbsent(s: string, from: char, to: char)
    requires from !in s
    ensures ReplaceChar(s, from, to) == s
  {
  }

  /** A text holding none of the separators is its own BeforeFirst. */
  lemma BeforeFirstAbsent(s: string, seps: set<char>)
    requires forall c :: c in seps ==> c !in s
    ensures BeforeFirst(s, seps) == s
  {
  }

  /** A split with a single piece leaves the text whole. */
  lemma SplitSingle(s: string, sep: char)
    requires |Split(s, sep)| == 1
    ensures Split(s, sep)[0] == s
  {
    JoinSplit(s, sep);
  }

  /** The last piece of a split is a suffix, preceded by a separator unless it is everything. */
  lemma {:induction false} SplitLastShape(s: string, sep: char, l: string)
    requires l == Last(Split(s, sep))
    ensures |l| <= |s| && l == s[|s| - |l|..]
    ensures |l| < |s| ==> s[|s| - |l| - 1] == sep
  {
    if s != [] {
      var rest := Split(s[1..], sep);
      if s[0] != sep && |rest| == 1 {
        SplitSingle(s[1..], sep);
        assert l == s;
      } else {
        assert l == Last(rest);
        SplitLastShape(s[1..], sep, l);
        if s[0] != sep {
          JoinSplit(s[1..], sep);
          assert s[1..][|rest[0]|] == sep;
          assert sep !in l;
        }
        assert s[1..][|s| - 1 - |l|..] == s[|s| - |l|..];
      }
    }
  }

  /** `s.split(sep).pop()` is the text after the last separator. */
  lemma SplitLast(s: string, sep: char)
    ensures Last(Split(s, sep)) == AfterLast(s, {sep})
  {
    var parts := Split(s, sep);
    var l := parts[|parts| - 1];
    SplitLastShape(s, sep, l);
    assert sep !in l;
    assert forall i :: 0 <= i < |l| ==> l[i] !in {sep};
    AfterLastUnique(s, {sep}, l);
  }

  /** The characters of `s` that `keep` accepts, in order (Python `''.join(c for c in s if keep(c))`). */
  function Filter(s: string, keep: char -> bool): (r: string)
    ensures |r| <= |s|
    ensures forall i :: 0 <= i < |r| ==> keep(r[i])
    ensures forall c :: c in r ==> c in s
    ensures (forall i :: 0 <= i < |s| ==> keep(s[i])) ==> r == s
    ensures forall c :: keep(c) ==> multiset(r)[c] == multiset(s)[c]
    decreases |s|
  {
    if s == [] then ""
    else
      var rest := Filter(s[..|s| - 1], keep);
      assert s == s[..|s| - 1] + [s[|s| - 1]];
      if keep(s[|s| - 1]) then rest + [s[|s| - 1]] else rest
  }

  /** Filtering distributes over concatenation, so the kept characters stay in their order. */
  lemma {:induction false} FilterAppend(a: string, b: string, keep: char -> bool)
    ensures Filter(a + b, keep) == Filter(a, keep) + Filter(b, keep)
    decreases |b|
  {
    if b == [] {
      assert a + b == a;
    } else {
      var init := b[..|b| - 1];
      assert (a + b)[..|a + b| - 1] == a + init;
      FilterAppend(a, init, keep);
    }
  }

  /** A text none of whose characters is kept filters to nothing. */
  lemma FilterNone(s: string, keep: char -> bool)
    requires forall i :: 0 <= i < |s| ==> !keep(s[i])
    ensures Filter(s, keep) == ""
  {
  }

  /** Characters that are not kept, at the end, filter to nothing. */
  lemma FilterDropsTail(a: string, junk: string, keep: char -> bool)
    requires forall i :: 0 <= i < |junk| ==> !keep(junk[i])
    ensures Filter(a + junk, keep) == Filter(a, keep)
  {
    FilterAppend(a, junk, keep);
    FilterNone(junk, keep);
  }

  /** Characters that are not kept may be cut out before filtering. */
  lemma FilterSkips(a: string, junk: string, b: string, keep: char -> bool)
    requires forall i :: 0 <= i < |junk| ==> !keep(junk[i])
    ensures Filter(a + junk + b, keep) == Filter(a + b, keep)
  {
    FilterAppend(a + junk, b, keep);
    FilterDropsTail(a, junk, keep);
    FilterAppend(a, b, keep);
  }

  /** Python `s[:n]`. */
  function Take(s: string, n: nat): (r: string)
    ensures r <= s && |r| <= n
    ensures |s| <= n ==> r == s
    ensures n < |s| ==> |r| == n
  {
    if |s| <= n then s else s[..n]
  }

  /** `s` holds at least one of the characters `seps`. */
  predicate HasAny(s: string, seps: set<char>)
  {
    exists i :: 0 <= i < |s| && s[i] in seps
  }

  lemma HasAnyCons(c: char, t: string, seps: set<char>)
    ensures HasAny([c] + t, seps) <==> c in seps || HasAny(t, seps)
  {
    var s := [c] + t;
    if c in seps {
      assert s[0] == c;
    }
    if HasAny(t, seps) {
      var i :| 0 <= i < |t| && t[i] in seps;
      assert s[i + 1] == t[i];
    }
    if HasAny(s, seps) && c !in seps {
      var i :| 0 <= i < |s| && s[i] in seps;
      assert i != 0 && t[i - 1] == s[i];
      assert 0 <= i - 1 < |t| && t[i - 1] in seps;
    }
  }

  /** A non-empty text is its first character followed by the rest. */
  lemma HeadTail(s: string)
    requires s != []
    ensures s == [s[0]] + s[1..]
  {
  }

  /** AfterLast seen from the front: the separators in `t` decide, then `c`. */
  lemma AfterLastCons(c: char, t: string, seps: set<char>)
    ensures AfterLast([c] + t, seps) ==
      if HasAny(t, seps) then AfterLast(t, seps)
      else if c in seps then t
      else [c] + t
  {
    var s := [c] + t;
    if HasAny(t, seps) {
      var r := AfterLast(t, seps);
      assert s[|s| - |r|..] == r;
      assert s[|s| - |r| - 1] == t[|t| - |r| - 1];
      AfterLastUnique(s, seps, r);
    } else if c in seps {
      assert s[|s| - |t|..] == t;
      AfterLastUnique(s, seps, t);
    } else {
      AfterLastUnique(s, seps, s);
    }
  }

  /** Turning each `\` into `/` before taking the last `/` segment is taking the last segment after either separator. */
  lemma AfterLastReplaced(s: string)
    ensures AfterLast(ReplaceChar(s, '\\', '/'), {'/'}) == AfterLast(s, {'/', '\\'})
  {
    var t := ReplaceChar(s, '\\', '/');
    var r := AfterLast(s, {'/', '\\'});
    assert t[|t| - |r|..] == r by {
      forall i | 0 <= i < |r|
        ensures t[|t| - |r| + i] == r[i]
      {
        assert r[i] == s[|s| - |r| + i];
      }
    }
    AfterLastUnique(t, {'/'}, r);
  }
}
