/**
 * The two string operations the pipeline relies on, for a single-character
 * separator: Python's `str.split(sep)` and `str.strip(chars)`.
 */
module Text {

  /** Python's `s.split(sep)`: never empty, and `"".split(sep) == [""]`. */
  function Split(s: string, sep: char): (parts: seq<string>)
    ensures |parts| >= 1
    ensures forall k :: 0 <= k < |parts| ==> sep !in parts[k]
  {
    if s == [] then [""]
    else
      var rest := Split(s[1..], sep);
      if s[0] == sep then [""] + rest
      else [[s[0]] + rest[0]] + rest[1..]
  }

  /** Python's `sep.join(parts)`. */
  function Join(parts: seq<string>, sep: char): string
    requires |parts| >= 1
  {
    if |parts| == 1 then parts[0] else parts[0] + [sep] + Join(parts[1..], sep)
  }

  /** Number of occurrences of `c` in `s`. */
  function Occurrences(s: string, c: char): nat
  {
    if s == [] then 0 else (if s[0] == c then 1 else 0) + Occurrences(s[1..], c)
  }

  lemma JoinConsHead(c: char, p: string, q: seq<string>, sep: char)
    ensures Join([[c] + p] + q, sep) == [c] + Join([p] + q, sep)
  {
  }

  /** Joining the parts of a split gives back the string. */
  lemma {:induction false} JoinSplit(s: string, sep: char)
    ensures Join(Split(s, sep), sep) == s
  {
    if s != [] {
      var rest := Split(s[1..], sep);
      JoinSplit(s[1..], sep);
      if s[0] == sep {
        assert ([""] + rest)[1..] == rest;
      } else {
        assert rest == [rest[0]] + rest[1..];
        JoinConsHead(s[0], rest[0], rest[1..], sep);
      }
    }
  }

  /** A leading non-separator character extends the first part. */
  lemma SplitCons(c: char, s: string, sep: char)
    requires c != sep
    ensures Split([c] + s, sep) == [[c] + Split(s, sep)[0]] + Split(s, sep)[1..]
  {
    assert ([c] + s)[1..] == s;
  }

  lemma {:induction false} SplitPrefixWithoutSep(p: string, t: string, sep: char)
    requires sep !in p
    ensures Split(p + t, sep) == [p + Split(t, sep)[0]] + Split(t, sep)[1..]
  {
    var st := Split(t, sep);
    if p == [] {
      assert p + t == t && p + st[0] == st[0];
      assert st == [st[0]] + st[1..];
    } else {
      assert p + t == [p[0]] + (p[1..] + t);
      SplitPrefixWithoutSep(p[1..], t, sep);
      SplitCons(p[0], p[1..] + t, sep);
      assert [p[0]] + (p[1..] + st[0]) == p + st[0];
    }
  }

  /** Splitting a join of separator-free parts gives back the parts. */
  lemma {:induction false} SplitJoin(parts: seq<string>, sep: char)
    requires |parts| >= 1
    requires forall k :: 0 <= k < |parts| ==> sep !in parts[k]
    ensures Split(Join(parts, sep), sep) == parts
  {
    if |parts| == 1 {
      SplitPrefixWithoutSep(parts[0], "", sep);
      assert parts[0] + "" == parts[0];
    } else {
      var tail := Join(parts[1..], sep);
      SplitJoin(parts[1..], sep);
      SplitPrefixWithoutSep(parts[0], [sep] + tail, sep);
      assert ([sep] + tail)[1..] == tail;
      assert Split([sep] + tail, sep) == [""] + parts[1..];
      assert parts[0] + [sep] + tail == parts[0] + ([sep] + tail);
      assert parts[0] + "" == parts[0];
      assert parts == [parts[0]] + parts[1..];
    }
  }

  /** A split has one more part than there are separators. */
  lemma {:induction false} SplitCount(s: string, sep: char)
    ensures |Split(s, sep)| == Occurrences(s, sep) + 1
  {
    if s != [] {
      SplitCount(s[1..], sep);
    }
  }

  /** Python's `s.lstrip(c)`. */
  function StripLeading(s: string, c: char): (r: string)
    ensures |r| <= |s| && r == s[|s| - |r|..]
    ensures forall k :: 0 <= k < |s| - |r| ==> s[k] == c
    ensures r == [] || r[0] != c
  {
    if s != [] && s[0] == c then StripLeading(s[1..], c) else s
  }

  /** Python's `s.rstrip(c)`. */
  function StripTrailing(s: string, c: char): (r: string)
    ensures |r| <= |s| && r == s[..|r|]
    ensures forall k :: |r| <= k < |s| ==> s[k] == c
    ensures r == [] || r[|r| - 1] != c
  {
    if s != [] && s[|s| - 1] == c then StripTrailing(s[..|s| - 1], c) else s
  }

  /**
   * Stripping a prefix of `c`s and then a suffix of `c`s leaves an infix
   * with only `c`s around it, which is empty only when `s` is all `c`s.
   */
  lemma StrippedInfix(s: string, lead: string, r: string, c: char)
    requires |lead| <= |s| && lead == s[|s| - |lead|..]
    requires forall k :: 0 <= k < |s| - |lead| ==> s[k] == c
    requires lead == [] || lead[0] != c
    requires |r| <= |lead| && r == lead[..|r|]
    requires forall k :: |r| <= k < |lead| ==> lead[k] == c
    ensures r == [] || r[0] != c
    ensures var i := |s| - |lead|;
              && i + |r| <= |s| && r <= s[i..]
              && (forall k :: 0 <= k < i ==> s[k] == c)
              && (forall k :: i + |r| <= k < |s| ==> s[k] == c)
    ensures r == [] <==> forall k :: 0 <= k < |s| ==> s[k] == c
  {
    var i := |s| - |lead|;
    forall k | i <= k < |s| ensures s[k] == lead[k - i] {
    }
  }

  /**
   * Python's `s.strip(c)`: the infix that starts at the first non-`c`
   * character (index `i`, so that `r` is a prefix of `s[i..]`) and has only
   * `c`s after it; it neither starts nor ends with `c`.
   */
  function Strip(s: string, c: char): (r: string)
    ensures r == [] || (r[0] != c && r[|r| - 1] != c)
    ensures var i := |s| - |StripLeading(s, c)|;
              && i + |r| <= |s| && r <= s[i..]
              && (forall k :: 0 <= k < i ==> s[k] == c)
              && (forall k :: i + |r| <= k < |s| ==> s[k] == c)
    ensures r == [] <==> forall k :: 0 <= k < |s| ==> s[k] == c
  {
    var lead := StripLeading(s, c);
    var r := StripTrailing(lead, c);
    StrippedInfix(s, lead, r, c);
    r
  }
}
