/** Which built daemon binary to run: chosen by the version it reports. */
module BinaryResolver {
  import opened Common

  /** A binary on disk: `version` is what `--version` answers, None when it does not say. */
  datatype Binary = Binary(path: string, mtime: int, version: Option<string>)

  /** What resolution looks at. `override` is a named binary that exists; `bundled` are the
      bundle's copies in the order of its layouts; `release` and `debug` are the dev tree's. */
  datatype Disk = Disk(named: Option<Binary>, bundled: seq<Binary>, release: Option<Binary>, debug: Option<Binary>)

  /** Every built copy, newest first; of equal age, release first (Python's sort is stable). */
  function BuiltCandidates(d: Disk): (bs: seq<Binary>)
    ensures forall i, j :: 0 <= i < j < |bs| ==> bs[i].mtime >= bs[j].mtime
    ensures forall b :: b in bs <==> d.release == Some(b) || d.debug == Some(b)
    ensures |bs| == (if d.release.Some? then 1 else 0) + (if d.debug.Some? then 1 else 0)
    ensures |bs| == 2 && bs[0].mtime == bs[1].mtime ==> d.release == Some(bs[0])
  {
    match (d.release, d.debug)
    case (None, None) => []
    case (Some(r), None) => [r]
    case (None, Some(g)) => [g]
    case (Some(r), Some(g)) => if g.mtime > r.mtime then [g, r] else [r, g]
  }

  ghost predicate Matches(b: Binary, expected: Option<string>)
  {
    expected.None? || b.version == expected
  }

  /** The first binary of a list that matches, if any. */
  ghost predicate IsFirstMatch(bs: seq<Binary>, expected: Option<string>, r: Option<Binary>)
  {
    match r
    case Some(b) => exists i :: 0 <= i < |bs| && bs[i] == b && Matches(b, expected) &&
                                forall j :: 0 <= j < i ==> !Matches(bs[j], expected)
    case None => forall b :: b in bs ==> !Matches(b, expected)
  }

  predicate IsDevTree(d: Disk)
  {
    d.named.None? && d.bundled == []
  }

  /** A named binary wins. A bundle answers with its first match, or with its first copy when none
      matches. The dev tree answers with its newest match, or not at all. */
  ghost predicate IsResolved(d: Disk, expected: Option<string>, r: Option<Binary>)
  {
    if d.named.Some? then r == d.named
    else if d.bundled != [] then
      r.Some? && (IsFirstMatch(d.bundled, expected, r)
                  || (IsFirstMatch(d.bundled, expected, None) && r == Some(d.bundled[0])))
    else IsFirstMatch(BuiltCandidates(d), expected, r)
  }

  method Resolve(d: Disk, expected: Option<string>) returns (r: Option<Binary>)
    ensures IsResolved(d, expected, r)
  {
    if d.named.Some? {
      return d.named;
    }
    if d.bundled != [] {
      for i := 0 to |d.bundled|
        invariant forall j :: 0 <= j < i ==> !Matches(d.bundled[j], expected)
      {
        if expected.None? || d.bundled[i].version == expected {
          return Some(d.bundled[i]);
        }
      }
      return Some(d.bundled[0]);
    }
    var built := BuiltCandidates(d);
    if built == [] {
      return None;
    }
    if expected.None? {
      return Some(built[0]);
    }
    for i := 0 to |built|
      invariant forall j :: 0 <= j < i ==> !Matches(built[j], expected)
    {
      if built[i].version == expected {
        return Some(built[i]);
      }
    }
    return None;
  }

  /** The built copies whose version is not the expected one, newest first. */
  method StaleReport(d: Disk, expected: Option<string>) returns (stale: seq<Binary>)
    ensures expected.None? ==> stale == []
    ensures expected.Some? ==> stale == Stale(BuiltCandidates(d), expected)
  {
    if expected.None? {
      return [];
    }
    stale := [];
    var built := BuiltCandidates(d);
    hide Stale, BuiltCandidates;
    assert built[0..] == built && [] + Stale(built, expected) == Stale(built, expected);
    for i := 0 to |built|
      invariant stale + Stale(built[i..], expected) == Stale(built, expected)
    {
      StaleNext(stale, built, i, expected);
      if built[i].version != expected {
        stale := stale + [built[i]];
      }
    }
    NoneStale(stale, expected);
    assert built[|built|..] == [];
  }

  lemma StaleNext(stale: seq<Binary>, bs: seq<Binary>, i: nat, expected: Option<string>)
    requires i < |bs|
    ensures stale + Stale(bs[i..], expected)
         == (if bs[i].version != expected then stale + [bs[i]] else stale) + Stale(bs[i + 1..], expected)
  {
    assert bs[i..][0] == bs[i] && bs[i..][1..] == bs[i + 1..];
    assert stale + ([bs[i]] + Stale(bs[i + 1..], expected)) == (stale + [bs[i]]) + Stale(bs[i + 1..], expected);
  }

  lemma NoneStale(stale: seq<Binary>, expected: Option<string>)
    ensures stale + Stale([], expected) == stale
  {
  }

  function Stale(bs: seq<Binary>, expected: Option<string>): seq<Binary>
  {
    if bs == [] then []
    else (if bs[0].version != expected then [bs[0]] else []) + Stale(bs[1..], expected)
  }

  lemma {:induction false} StaleMembers(bs: seq<Binary>, expected: Option<string>, b: Binary)
    ensures b in Stale(bs, expected) <==> b in bs && b.version != expected
  {
    if bs != [] {
      StaleMembers(bs[1..], expected, b);
    }
  }

  /** The report keeps the candidates' order: newest first. */
  lemma {:induction false} StaleNewestFirst(bs: seq<Binary>, expected: Option<string>)
    requires forall i, j :: 0 <= i < j < |bs| ==> bs[i].mtime >= bs[j].mtime
    ensures var r := Stale(bs, expected); forall i, j :: 0 <= i < j < |r| ==> r[i].mtime >= r[j].mtime
  {
    if bs != [] {
      var first, rest, later := bs[0], bs[1..], Stale(bs[1..], expected);
      StaleNewestFirst(rest, expected);
      forall j | 0 <= j < |later|
        ensures first.mtime >= later[j].mtime
      {
        StaleMembers(rest, expected, later[j]);
        var k :| 0 <= k < |rest| && rest[k] == later[j];
        assert bs[k + 1] == rest[k];
      }
    }
  }

  /** In a dev tree with a known expectation the stale binary is never run: the choice carries
      the expected version, is the newest that does, and is missing only when every built copy
      is in the stale report. */
  lemma DevTreeChoice(d: Disk, version: string, r: Option<Binary>)
    requires IsDevTree(d) && IsResolved(d, Some(version), r)
    ensures r.Some? ==>
              && r.value in BuiltCandidates(d) && r.value.version == Some(version)
              && forall b :: b in BuiltCandidates(d) && b.version == Some(version) ==> b.mtime <= r.value.mtime
    ensures r.None? <==> forall b :: b in BuiltCandidates(d) ==> b in Stale(BuiltCandidates(d), Some(version))
  {
    var bs := BuiltCandidates(d);
    forall b: Binary
      ensures b in Stale(bs, Some(version)) <==> b in bs && b.version != Some(version)
    {
      StaleMembers(bs, Some(version), b);
    }
  }

  /** Resolution has one answer. */
  lemma ResolvedUnique(d: Disk, expected: Option<string>, a: Option<Binary>, b: Option<Binary>)
    requires IsResolved(d, expected, a) && IsResolved(d, expected, b)
    ensures a == b
  {
    hide Matches, BuiltCandidates;
    FirstMatchUnique(if d.bundled != [] then d.bundled else BuiltCandidates(d), expected);
  }

  lemma FirstMatchUnique(bs: seq<Binary>, expected: Option<string>)
    ensures forall a, b :: IsFirstMatch(bs, expected, a) && IsFirstMatch(bs, expected, b) ==> a == b
  {
    hide Matches;
  }

  /** A packaged app always has a daemon to run, and always one of its own. */
  lemma BundleAlwaysAnswers(d: Disk, expected: Option<string>, r: Option<Binary>)
    requires d.named.None? && d.bundled != [] && IsResolved(d, expected, r)
    ensures r.Some? && r.value in d.bundled
    ensures (exists b :: b in d.bundled && b.version == expected) && expected.Some? ==> r.value.version == expected
  {
    if exists b :: b in d.bundled && b.version == expected {
      var b :| b in d.bundled && b.version == expected;
      assert Matches(b, expected);
    }
  }
}
