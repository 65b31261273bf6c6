/**
 * The generation resolver: the `/<id>/<regex>/<id>/<regex>/...` argument
 * becomes a map from each generation id to the samples its regex finds,
 * and the comma-separated list of generation pairs is split.
 */
module Generations {
  import opened Wrappers
  import opened Text

  /**
   * `matches(pattern, sample)` stands for `re.compile(pattern).search(sample)`
   * succeeding; the regex engine itself is not modelled.
   */
  type Matcher = (string, string) -> bool

  /** The two `ValueError`s raised for a malformed generation argument. */
  datatype SpecError =
    | NotDelimited   // does not both start and end with '/'
    | OddPartCount   // the id/regex parts do not pair up

  /** The samples a pattern matches, in their original order. */
  function Matching(samples: seq<string>, pattern: string, matches: Matcher): (r: seq<string>)
    ensures |r| <= |samples|
    ensures forall x :: x in r <==> x in samples && matches(pattern, x)
  {
    if samples == [] then []
    else (if matches(pattern, samples[0]) then [samples[0]] else []) + Matching(samples[1..], pattern, matches)
  }

  /** Matching keeps relative order: it distributes over concatenation. */
  lemma {:induction false} MatchingAppend(a: seq<string>, b: seq<string>, pattern: string, matches: Matcher)
    ensures Matching(a + b, pattern, matches) == Matching(a, pattern, matches) + Matching(b, pattern, matches)
  {
    if a != [] {
      assert (a + b)[1..] == a[1..] + b;
      MatchingAppend(a[1..], b, pattern, matches);
    } else {
      assert a + b == b;
    }
  }

  /**
   * `spec.startswith("/") and spec.endswith("/")`; one '/' can be both
   * ends, so a bare "/" is delimited.
   */
  predicate Delimited(spec: string)
  {
    |spec| > 0 && spec[0] == '/' && spec[|spec| - 1] == '/'
  }

  /** `spec.strip("/").split("/")`. */
  function GenerationParts(spec: string): (parts: seq<string>)
    ensures |parts| == Occurrences(Strip(spec, '/'), '/') + 1
  {
    SplitCount(Strip(spec, '/'), '/');
    Split(Strip(spec, '/'), '/')
  }

  /**
   * The map built from the id/regex pairs taken left to right; a later
   * pair with the same id replaces the earlier entry.
   */
  function GenerationMap(parts: seq<string>, samples: seq<string>, matches: Matcher): (m: map<string, seq<string>>)
    requires |parts| % 2 == 0
    ensures forall id :: id in m ==> id in parts
  {
    if parts == [] then map[]
    else
      var n := |parts|;
      GenerationMap(parts[..n - 2], samples, matches)[parts[n - 2] := Matching(samples, parts[n - 1], matches)]
  }

  /** The ids of the map are exactly the parts at even positions. */
  lemma {:induction false} GenerationMapKeys(parts: seq<string>, samples: seq<string>, matches: Matcher)
    requires |parts| % 2 == 0
    ensures GenerationMap(parts, samples, matches).Keys == set k | 0 <= k < |parts| && k % 2 == 0 :: parts[k]
  {
    if parts != [] {
      var n := |parts|;
      var prefix := parts[..n - 2];
      GenerationMapKeys(prefix, samples, matches);
      var ids := set k | 0 <= k < |parts| && k % 2 == 0 :: parts[k];
      var prefixIds := set k | 0 <= k < |prefix| && k % 2 == 0 :: prefix[k];
      assert ids == prefixIds + {parts[n - 2]} by {
        forall x | x in ids ensures x in prefixIds + {parts[n - 2]} {
          var k :| 0 <= k < |parts| && k % 2 == 0 && parts[k] == x;
          if k < n - 2 { assert prefix[k] == x; }
        }
        forall x | x in prefixIds ensures x in ids {
          var k :| 0 <= k < |prefix| && k % 2 == 0 && prefix[k] == x;
          assert parts[k] == x;
        }
      }
    }
  }

  /** An id maps to the samples matched by the pattern of its last occurrence. */
  lemma {:induction false} LastOccurrenceWins(parts: seq<string>, samples: seq<string>, matches: Matcher, j: nat)
    requires |parts| % 2 == 0
    requires j < |parts| && j % 2 == 0
    requires forall k :: j < k < |parts| && k % 2 == 0 ==> parts[k] != parts[j]
    ensures parts[j] in GenerationMap(parts, samples, matches)
    ensures GenerationMap(parts, samples, matches)[parts[j]] == Matching(samples, parts[j + 1], matches)
  {
    var n := |parts|;
    if j < n - 2 {
      var prefix := parts[..n - 2];
      assert prefix[j] == parts[j] && prefix[j + 1] == parts[j + 1];
      LastOccurrenceWins(prefix, samples, matches, j);
    }
  }

  /**
   * `parse_generations(samples, spec)`: the two format errors, otherwise
   * the map from generation id to matching samples.
   */
  method ParseGenerations(samples: seq<string>, spec: string, matches: Matcher)
    returns (r: Result<map<string, seq<string>>, SpecError>)
    ensures !Delimited(spec) ==> r == Failure(NotDelimited)
    ensures Delimited(spec) && |GenerationParts(spec)| % 2 != 0 ==> r == Failure(OddPartCount)
    ensures Delimited(spec) && |GenerationParts(spec)| % 2 == 0 ==>
              r == Success(GenerationMap(GenerationParts(spec), samples, matches))
  {
    if !Delimited(spec) {
      return Failure(NotDelimited);
    }
    var parts := Split(Strip(spec, '/'), '/');
    if |parts| % 2 != 0 {
      return Failure(OddPartCount);
    }
    var genSampleMap := map[];
    var i := 0;
    while i < |parts|
      invariant 0 <= i <= |parts| && i % 2 == 0
      invariant genSampleMap == GenerationMap(parts[..i], samples, matches)
    {
      var genId := parts[i];
      var matchingSamples := Matching(samples, parts[i + 1], matches);
      genSampleMap := genSampleMap[genId := matchingSamples];
      assert parts[..i + 2][..i] == parts[..i];
      i := i + 2;
    }
    assert parts[..i] == parts;
    return Success(genSampleMap);
  }

  /** A bare "/" (or "//") passes the delimiter test but splits into one empty part. */
  lemma BareSlashIsOdd()
    ensures Delimited("/") && |GenerationParts("/")| % 2 != 0
    ensures Delimited("//") && |GenerationParts("//")| % 2 != 0
  {
    var one, two := "/", "//";
    assert forall k :: 0 <= k < |one| ==> one[k] == '/';
    assert forall k :: 0 <= k < |two| ==> two[k] == '/';
    assert Strip(one, '/') == [] && Strip(two, '/') == [];
  }

  /** `comma_separated`: the command line's generation-pair list split on ','. */
  function CommaSeparated(value: string): (items: seq<string>)
    ensures |items| >= 1
    ensures Join(items, ',') == value
    ensures forall k :: 0 <= k < |items| ==> ',' !in items[k]
  {
    JoinSplit(value, ',');
    Split(value, ',')
  }
}
