/** The gate that keeps every client-socket write inside one function of the daemon's source. */
module BoundedWrites {
  import opened Common
  import opened RustSource

  const SEAM := "async fn write_line"
  const WRITE := ".write_all"

  // ----- Searching ------------------------------------------------------------------------

  predicate OccursAt(s: string, pattern: string, i: nat)
  {
    i + |pattern| <= |s| && s[i..i + |pattern|] == pattern
  }

  /** `s.find(pattern, from)`. */
  function Find(s: string, pattern: string, from: nat): (r: Option<nat>)
    requires from <= |s|
    ensures r.Some? ==> from <= r.value && OccursAt(s, pattern, r.value)
    ensures r.Some? ==> forall k :: from <= k < r.value ==> !OccursAt(s, pattern, k)
    ensures r.None? ==> forall k :: from <= k ==> !OccursAt(s, pattern, k)
    decreases |s| - from
  {
    if OccursAt(s, pattern, from) then Some(from)
    else if from == |s| then None
    else Find(s, pattern, from + 1)
  }

  /** Opening minus closing braces in `s[a..b]`. */
  function Depth(s: string, a: nat, b: nat): int
    requires a <= b <= |s|
  {
    if a == b then 0
    else Depth(s, a, b - 1) + (if s[b - 1] == '{' then 1 else if s[b - 1] == '}' then -1 else 0)
  }

  /** The first brace behind the first occurrence of the seam's name. */
  ghost predicate IsSeamOpen(s: string, at: nat, open: nat)
  {
    && OccursAt(s, SEAM, at) && (forall k: nat :: k < at ==> !OccursAt(s, SEAM, k))
    && at <= open < |s| && s[open] == '{' && (forall k :: at <= k < open ==> s[k] != '{')
  }

  /** `[open, close]` is the body of the seam function: from that brace up to the first place where
      the braces balance. */
  ghost predicate IsSeamSpan(s: string, open: nat, close: nat)
  {
    && open <= close < |s|
    && (exists at: nat :: IsSeamOpen(s, at, open))
    && Depth(s, open, close + 1) == 0
    && (forall k :: open < k <= close ==> Depth(s, open, k) > 0)
  }

  method SeamSpan(src: string) returns (span: Option<(nat, nat)>)
    ensures span.Some? ==> IsSeamSpan(src, span.value.0, span.value.1)
    ensures span.None? ==> forall a: nat, b: nat :: !IsSeamSpan(src, a, b)
  {
    hide Find, OccursAt;
    var at := Find(src, SEAM, 0);
    if at.None? {
      return None;
    }
    SeamWithin(src, at.value);
    var open := Find(src, "{", at.value);
    BraceFound(src, at.value);
    if open.None? {
      return None;
    }
    assert IsSeamOpen(src, at.value, open.value);
    var depth := 0;
    for i := open.value to |src|
      invariant depth == Depth(src, open.value, i)
      invariant forall k :: open.value < k <= i ==> Depth(src, open.value, k) > 0
    {
      if src[i] == '{' {
        depth := depth + 1;
      } else if src[i] == '}' {
        depth := depth - 1;
        if depth == 0 {
          return Some((open.value, i));
        }
      }
    }
    NeverBalanced(src, at.value, open.value);
    return None;
  }

  lemma SeamWithin(s: string, at: nat)
    requires OccursAt(s, SEAM, at)
    ensures at <= |s|
  {
  }

  lemma BraceFound(s: string, at: nat)
    requires at <= |s|
    ensures var r := Find(s, "{", at);
            && (r.Some? ==> at <= r.value < |s| && s[r.value] == '{' && forall k :: at <= k < r.value ==> s[k] != '{')
            && (r.None? ==> forall k :: at <= k < |s| ==> s[k] != '{')
  {
    hide Find;
    assert forall k: nat :: k < |s| ==> (OccursAt(s, "{", k) <==> s[k] == '{');
  }

  lemma OpenUnique(s: string, p: nat, a: nat, q: nat, c: nat)
    requires IsSeamOpen(s, p, a) && IsSeamOpen(s, q, c)
    ensures a == c
  {
    hide OccursAt;
    assert p == q;
  }

  /** Braces that never balance behind the seam leave no span at all. */
  lemma NeverBalanced(s: string, at: nat, open: nat)
    requires IsSeamOpen(s, at, open) && forall k :: open < k <= |s| ==> Depth(s, open, k) > 0
    ensures forall a: nat, b: nat :: !IsSeamSpan(s, a, b)
  {
    hide IsSeamOpen, Depth;
    forall a: nat, b: nat | IsSeamSpan(s, a, b)
      ensures false
    {
      var q: nat :| IsSeamOpen(s, q, a);
      OpenUnique(s, at, open, q, a);
    }
  }

  /** There is at most one such span. */
  lemma SpanUnique(s: string, a: nat, b: nat, c: nat, d: nat)
    requires IsSeamSpan(s, a, b) && IsSeamSpan(s, c, d)
    ensures a == c && b == d
  {
    hide IsSeamOpen, Depth;
    var p: nat :| IsSeamOpen(s, p, a);
    var q: nat :| IsSeamOpen(s, q, c);
    OpenUnique(s, p, a, q, c);
    assert Depth(s, a, b + 1) == 0 && Depth(s, a, d + 1) == 0;
  }

  // ----- Write sites -------------------------------------------------------------------------

  /** What `\s` matches in a Python string. */
  predicate IsSpace(c: char)
  {
    var u := c as int;
    || 9 <= u <= 13 || 28 <= u <= 32 || u == 0x85 || u == 0xA0 || u == 0x1680 || 0x2000 <= u <= 0x200A
    || u == 0x2028 || u == 0x2029 || u == 0x202F || u == 0x205F || u == 0x3000
  }

  function SkipSpace(s: string, i: nat): (j: nat)
    requires i <= |s|
    ensures i <= j <= |s| && (j < |s| ==> !IsSpace(s[j]))
    ensures forall k :: i <= k < j ==> IsSpace(s[k])
    decreases |s| - i
  {
    if i == |s| || !IsSpace(s[i]) then i else SkipSpace(s, i + 1)
  }

  /** The pattern `\.write_all\s*\(` matches at `i`. */
  predicate IsWriteAt(s: string, i: nat)
  {
    OccursAt(s, WRITE, i) &&
    var j := SkipSpace(s, i + |WRITE|); j < |s| && s[j] == '('
  }

  function WriteEnd(s: string, i: nat): (e: nat)
    requires IsWriteAt(s, i)
    ensures i < e <= |s|
  {
    SkipSpace(s, i + |WRITE|) + 1
  }

  /** `WRITE.finditer`: matches from left to right, each starting where the last one ended. */
  function Writes(s: string, from: nat): (sites: seq<nat>)
    requires from <= |s|
    decreases |s| - from
  {
    if from == |s| then []
    else if IsWriteAt(s, from) then [from] + Writes(s, WriteEnd(s, from))
    else Writes(s, from + 1)
  }

  /** Line number of an offset: newlines before it, plus one. */
  function LineOf(s: string, i: nat): nat
    requires i <= |s|
  {
    if i == 0 then 1 else LineOf(s, i - 1) + (if s[i - 1] == '\n' then 1 else 0)
  }

  predicate Within(s: string, sites: seq<nat>)
  {
    forall k :: 0 <= k < |sites| ==> sites[k] <= |s|
  }

  function LinesOf(s: string, sites: seq<nat>): (lines: seq<nat>)
    requires Within(s, sites)
    ensures |lines| == |sites|
    ensures forall k :: 0 <= k < |sites| ==> lines[k] == LineOf(s, sites[k])
  {
    if sites == [] then [] else [LineOf(s, sites[0])] + LinesOf(s, sites[1..])
  }

  /** The sites not inside `[lo, hi]`. */
  function Outside(sites: seq<nat>, lo: nat, hi: nat): seq<nat>
  {
    if sites == [] then []
    else (if lo <= sites[0] <= hi then [] else [sites[0]]) + Outside(sites[1..], lo, hi)
  }

  lemma {:induction false} OutsideMembers(sites: seq<nat>, lo: nat, hi: nat)
    ensures forall i :: i in Outside(sites, lo, hi) <==> i in sites && !(lo <= i <= hi)
  {
    if sites != [] {
      OutsideMembers(sites[1..], lo, hi);
      assert sites == [sites[0]] + sites[1..];
    }
  }

  /** What the gate has to report for the span `[lo, hi]`. */
  ghost predicate IsAudit(src: string, lo: nat, hi: nat, bad: seq<nat>, total: nat)
  {
    var sites := Writes(src, 0);
    && total == |sites|
    && Within(src, Outside(sites, lo, hi))
    && bad == LinesOf(src, Outside(sites, lo, hi))
  }

  /** Offending line numbers and the number of write sites; a missing seam is reported as line 0. */
  method Audit(text: string) returns (bad: seq<nat>, total: nat)
    ensures (forall a: nat, b: nat :: !IsSeamSpan(StripRustComments(text), a, b)) ==> bad == [0] && total == 0
    ensures forall lo: nat, hi: nat :: IsSeamSpan(StripRustComments(text), lo, hi) ==>
              IsAudit(StripRustComments(text), lo, hi, bad, total)
  {
    hide Writes, StripRustComments, IsSeamSpan, LineOf, IsWriteAt;
    var src := StripRustComments(text);
    var span := SeamSpan(src);
    if span.None? {
      return [0], 0;
    }
    var (lo, hi) := span.value;
    forall a: nat, b: nat | IsSeamSpan(src, a, b)
      ensures a == lo && b == hi
    {
      SpanUnique(src, a, b, lo, hi);
    }
    var sites := Writes(src, 0);
    WritesExactly(src, 0);
    bad, total := [], 0;
    assert sites[..0] == [] && Outside([], lo, hi) == [];
    for i := 0 to |sites|
      invariant total == i
      invariant Within(src, Outside(sites[..i], lo, hi))
      invariant bad == LinesOf(src, Outside(sites[..i], lo, hi))
    {
      assert sites[i] in sites;
      OutsideSnoc(sites, i, lo, hi);
      total := total + 1;
      if !(lo <= sites[i] <= hi) {
        bad := bad + [LineOf(src, sites[i])];
      }
    }
    assert sites[..|sites|] == sites;
  }

  lemma OutsideSnoc(sites: seq<nat>, i: nat, lo: nat, hi: nat)
    requires i < |sites|
    ensures Outside(sites[..i + 1], lo, hi)
         == Outside(sites[..i], lo, hi) + (if lo <= sites[i] <= hi then [] else [sites[i]])
  {
    assert sites[..i + 1] == sites[..i] + [sites[i]];
    OutsideAppend(sites[..i], sites[i], lo, hi);
  }

  lemma OutsideCons(site: nat, sites: seq<nat>, lo: nat, hi: nat)
    ensures Outside([site] + sites, lo, hi) == (if lo <= site <= hi then [] else [site]) + Outside(sites, lo, hi)
  {
    assert ([site] + sites)[1..] == sites;
  }

  lemma {:induction false} OutsideAppend(sites: seq<nat>, site: nat, lo: nat, hi: nat)
    ensures Outside(sites + [site], lo, hi) == Outside(sites, lo, hi) + (if lo <= site <= hi then [] else [site])
  {
    hide Outside;
    var last := if lo <= site <= hi then [] else [site];
    if sites == [] {
      OutsideCons(site, [], lo, hi);
      NoneOutside(last, lo, hi);
      assert [site] + [] == [] + [site];
    } else {
      var first, rest := sites[0], sites[1..];
      OutsideAppend(rest, site, lo, hi);
      OutsideCons(first, rest, lo, hi);
      OutsideCons(first, rest + [site], lo, hi);
      assert sites == [first] + rest;
      Associative([first], rest, [site]);
      Associative(if lo <= first <= hi then [] else [first], Outside(rest, lo, hi), last);
    }
  }

  lemma NoneOutside(last: seq<nat>, lo: nat, hi: nat)
    ensures last + Outside([], lo, hi) == last == Outside([], lo, hi) + last
  {
  }

  /** A submodule holds no seam, so every write in it is reported. */
  method AuditSubmodule(text: string) returns (bad: seq<nat>)
    ensures Within(StripRustComments(text), Writes(StripRustComments(text), 0))
    ensures bad == LinesOf(StripRustComments(text), Writes(StripRustComments(text), 0))
  {
    hide Writes, StripRustComments, LineOf;
    var src := StripRustComments(text);
    var sites := Writes(src, 0);
    WritesExactly(src, 0);
    bad := [];
    for i := 0 to |sites|
      invariant |bad| == i
      invariant Within(src, sites)
      invariant forall k :: 0 <= k < i ==> bad[k] == LineOf(src, sites[k])
    {
      bad := bad + [LineOf(src, sites[i])];
    }
  }

  // ----- Counting -----------------------------------------------------------------------------

  /** The places in `s[a..b]` where a character stands. */
  function Places(s: string, c: char, a: nat, b: nat): set<nat>
    requires b <= |s|
  {
    set k: nat | a <= k < b && s[k] == c
  }

  lemma PlacesStep(s: string, c: char, a: nat, b: nat)
    requires a < b <= |s|
    ensures |Places(s, c, a, b)| == |Places(s, c, a, b - 1)| + if s[b - 1] == c then 1 else 0
  {
    var less := Places(s, c, a, b - 1);
    assert Places(s, c, a, b) == if s[b - 1] == c then less + {b - 1} else less;
  }

  /** The line number of an offset is one more than the newlines before it. */
  lemma {:induction false} LineOfExactly(s: string, i: nat)
    requires i <= |s|
    ensures LineOf(s, i) == 1 + |Places(s, '\n', 0, i)|
  {
    hide Places;
    if i == 0 {
      NoPlaces(s, '\n', 0);
    } else {
      LineOfExactly(s, i - 1);
      PlacesStep(s, '\n', 0, i);
    }
  }

  lemma NoPlaces(s: string, c: char, a: nat)
    requires a <= |s|
    ensures Places(s, c, a, a) == {}
  {
  }

  /** The depth of a stretch is its opening braces less its closing ones. */
  lemma {:induction false} DepthExactly(s: string, a: nat, b: nat)
    requires a <= b <= |s|
    ensures Depth(s, a, b) == |Places(s, '{', a, b)| - |Places(s, '}', a, b)|
    decreases b
  {
    hide Places;
    if a == b {
      NoPlaces(s, '{', a);
      NoPlaces(s, '}', a);
    } else {
      DepthExactly(s, a, b - 1);
      PlacesStep(s, '{', a, b);
      PlacesStep(s, '}', a, b);
    }
  }

  ghost predicate Increasing(sites: seq<nat>)
  {
    forall i, j :: 0 <= i < j < |sites| ==> sites[i] < sites[j]
  }

  /** The sites outside the block keep their order. */
  lemma {:induction false} OutsideIncreasing(sites: seq<nat>, lo: nat, hi: nat)
    requires Increasing(sites)
    ensures Increasing(Outside(sites, lo, hi))
  {
    if sites != [] {
      var first, rest, later := sites[0], sites[1..], Outside(sites[1..], lo, hi);
      OutsideIncreasing(rest, lo, hi);
      OutsideMembers(rest, lo, hi);
      forall j | 0 <= j < |later|
        ensures first < later[j]
      {
        assert later[j] in later;
        var k :| 0 <= k < |rest| && rest[k] == later[j];
        assert sites[k + 1] == rest[k];
      }
    }
  }

  // ----- What is reported ------------------------------------------------------------------

  lemma OccursPointwise(s: string, pattern: string, i: nat)
    ensures OccursAt(s, pattern, i)
       <==> i + |pattern| <= |s| && forall m :: i <= m < i + |pattern| ==> s[m] == pattern[m - i]
  {
    if i + |pattern| <= |s| {
      var part := s[i..i + |pattern|];
      assert forall m :: i <= m < i + |pattern| ==> s[m] == part[m - i];
      if forall m :: i <= m < i + |pattern| ==> s[m] == pattern[m - i] {
        assert forall k :: 0 <= k < |pattern| ==> part[k] == pattern[k];
      }
    }
  }

  /** A match holds no further dot, so the next one cannot start inside it. */
  lemma NoOverlap(s: string, i: nat, k: nat)
    requires IsWriteAt(s, i) && i < k < WriteEnd(s, i)
    ensures !IsWriteAt(s, k)
  {
    hide OccursAt;
    OccursPointwise(s, WRITE, i);
    OccursPointwise(s, WRITE, k);
    assert s[k] != '.';
  }

  /** The sites found are all the places where the pattern matches, in order. */
  lemma {:induction false} WritesExactly(s: string, from: nat)
    requires from <= |s|
    ensures forall i: nat :: i in Writes(s, from) <==> from <= i && IsWriteAt(s, i)
    ensures Within(s, Writes(s, from))
    ensures forall a, b :: 0 <= a < b < |Writes(s, from)| ==> Writes(s, from)[a] < Writes(s, from)[b]
    decreases |s| - from
  {
    hide IsWriteAt, WriteEnd;
    if from < |s| {
      if IsWriteAt(s, from) {
        var e := WriteEnd(s, from);
        WritesExactly(s, e);
        forall k: nat | from < k < e
          ensures !IsWriteAt(s, k)
        {
          NoOverlap(s, from, k);
        }
        var rest := Writes(s, e);
        assert forall a :: 0 <= a < |rest| ==> rest[a] in rest;
      } else {
        WritesExactly(s, from + 1);
      }
    } else {
      NoWriteAtEnd(s);
    }
  }

  lemma NoWriteAtEnd(s: string)
    ensures forall i: nat :: i >= |s| ==> !IsWriteAt(s, i)
  {
  }

  /** Line numbers in the stripped text are line numbers in the original. */
  lemma {:induction false} LineOfOriginal(text: string, i: nat)
    requires i <= |text|
    ensures LineOf(StripRustComments(text), i) == LineOf(text, i)
  {
    hide StripRustComments;
    if i > 0 {
      NewlinesKept(text, i - 1);
      LineOfOriginal(text, i - 1);
    }
  }

  ghost predicate UncommentedName(text: string, i: nat)
  {
    OccursAt(text, WRITE, i) && forall k :: i <= k < i + |WRITE| ==> !Commented(text, 0, k)
  }

  /** The code points that are white space to Python, Unicode's included. */
  const WHITE: set<int> := {
    0x09, 0x0A, 0x0B, 0x0C, 0x0D, 0x1C, 0x1D, 0x1E, 0x1F, 0x20, 0x85, 0xA0, 0x1680, 0x2000, 0x2001, 0x2002, 0x2003,
    0x2004, 0x2005, 0x2006, 0x2007, 0x2008, 0x2009, 0x200A, 0x2028, 0x2029, 0x202F, 0x205F, 0x3000
  }

  lemma SpaceExactly(c: char)
    ensures IsSpace(c) <==> c as int in WHITE
  {
  }

  /** A write in the source proper: the call's name outside comments, and behind it only white
      space and comments before the parenthesis. */
  ghost predicate UncommentedWrite(text: string, i: nat)
  {
    && UncommentedName(text, i)
    && exists j: nat :: OpensAt(text, i, j)
  }

  ghost predicate OpensAt(text: string, i: nat, j: nat)
  {
    && i + |WRITE| <= j < |text| && text[j] == '(' && !Commented(text, 0, j)
    && forall k :: i + |WRITE| <= k < j ==> Commented(text, 0, k) || text[k] as int in WHITE
  }

  lemma {:induction false} SkipsTo(s: string, i: nat, j: nat)
    requires i <= j < |s| && !IsSpace(s[j]) && forall k :: i <= k < j ==> IsSpace(s[k])
    ensures SkipSpace(s, i) == j
    decreases j - i
  {
    if i < j {
      SkipsTo(s, i + 1, j);
    }
  }

  /** The sites the gate looks at are exactly the uncommented writes of the original text. */
  lemma SitesAreUncommentedWrites(text: string, i: nat)
    ensures IsWriteAt(StripRustComments(text), i) <==> UncommentedWrite(text, i)
  {
    hide StripRustComments, Commented;
    var src := StripRustComments(text);
    forall k: nat | k < |text|
      ensures src[k] == if Commented(text, 0, k) then BlankChar(text[k]) else text[k]
    {
      StrippedChar(text, 0, k);
      assert src[k] == StripFrom(text, 0)[k - 0] by { StripIs(text); }
    }
    forall k: nat | k < |text|
      ensures IsSpace(text[k]) <==> text[k] as int in WHITE
    {
      SpaceExactly(text[k]);
    }
    NameSurvives(text, src, i);
    if IsWriteAt(src, i) {
      var j := SkipSpace(src, i + |WRITE|);
      assert OpensAt(text, i, j);
    }
    if UncommentedWrite(text, i) {
      var j: nat :| OpensAt(text, i, j);
      SkipsTo(src, i + |WRITE|, j);
    }
  }

  lemma StripIs(text: string)
    ensures StripRustComments(text) == StripFrom(text, 0)
  {
  }

  lemma NameSurvives(text: string, src: string, i: nat)
    requires |src| == |text|
    requires forall k :: 0 <= k < |text| ==> src[k] == if Commented(text, 0, k) then BlankChar(text[k]) else text[k]
    ensures OccursAt(src, WRITE, i) <==> UncommentedName(text, i)
  {
    hide Commented, OccursAt;
    OccursPointwise(src, WRITE, i);
    OccursPointwise(text, WRITE, i);
    if OccursAt(src, WRITE, i) {
      forall k | i <= k < i + |WRITE|
        ensures !Commented(text, 0, k)
      {
        assert src[k] == WRITE[k - i];
        assert WRITE[k - i] !in {' ', '\n'};
      }
    }
  }

  lemma SitesOutside(text: string, lo: nat, hi: nat, i: nat)
    ensures i in Outside(Writes(StripRustComments(text), 0), lo, hi)
       <==> UncommentedWrite(text, i) && !(lo <= i <= hi)
  {
    hide StripRustComments, Writes, UncommentedWrite, IsWriteAt, Outside;
    OutsideMembers(Writes(StripRustComments(text), 0), lo, hi);
    WritesExactly(StripRustComments(text), 0);
    SitesAreUncommentedWrites(text, i);
  }

  /** The gate reports line `n` of the original text exactly when some uncommented write outside the
      seam function starts on it. */
  lemma ReportedLines(text: string, lo: nat, hi: nat, bad: seq<nat>, total: nat, n: nat)
    requires IsAudit(StripRustComments(text), lo, hi, bad, total)
    ensures n in bad
       <==> exists i: nat :: i <= |text| && UncommentedWrite(text, i) && !(lo <= i <= hi) && LineOf(text, i) == n
  {
    hide StripRustComments, Writes, Outside, UncommentedWrite, LineOf;
    var src := StripRustComments(text);
    var sites := Outside(Writes(src, 0), lo, hi);
    if n in bad {
      var k :| 0 <= k < |bad| && bad[k] == n;
      assert sites[k] in sites;
      SitesOutside(text, lo, hi, sites[k]);
      LineOfOriginal(text, sites[k]);
    }
    if i: nat :| i <= |text| && UncommentedWrite(text, i) && !(lo <= i <= hi) && LineOf(text, i) == n {
      SitesOutside(text, lo, hi, i);
      LineOfOriginal(text, i);
      var k :| 0 <= k < |sites| && sites[k] == i;
      assert bad[k] == n;
    }
  }
}
