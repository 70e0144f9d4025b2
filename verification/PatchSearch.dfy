/** `apply_patch`: finding the one place in a text where a bound fragment fits. */
module PatchSearch {
  import opened Wrappers
  import opened Lists
  import opened Text
  import opened Model

  datatype PatchFragment = PatchFragment(
    atoms: set<AtomId>,
    path: string,
    before: string,
    after: string,
    beforeContext: string,
    afterContext: string)

  predicate OccursAt(content: string, pattern: string, p: nat) {
    p + |pattern| <= |content| && content[p..p + |pattern|] == pattern
  }

  /** The first occurrence in content[from..]. */
  function FindFrom(content: string, pattern: string, from: nat): (r: Option<nat>)
    requires from <= |content|
    ensures r.Some? ==> from <= r.value && OccursAt(content, pattern, r.value)
    ensures forall q :: from <= q < (if r.Some? then r.value else |content| + 1) ==> !OccursAt(content, pattern, q)
  {
    var found := Find(content[from..], pattern);
    FindFromFacts(content, pattern, from);
    if found.None? then None else Some(from + found.value)
  }

  lemma FindFromFacts(content: string, pattern: string, from: nat)
    requires from <= |content|
    ensures
      var found := Find(content[from..], pattern);
      && (found.Some? ==> OccursAt(content, pattern, from + found.value))
      && forall q :: from <= q < (if found.Some? then from + found.value else |content| + 1) ==>
          !OccursAt(content, pattern, q)
  {
    var rest := content[from..];
    var found := Find(rest, pattern);
    if found.Some? {
      OccursIff(content, pattern, from, from + found.value);
    }
    hide Find, OccursAt, StartsWith;
    forall q | from <= q < (if found.Some? then from + found.value else |content| + 1)
      ensures !OccursAt(content, pattern, q)
    {
      FindIsFirst(rest, pattern, q - from);
      OccursIff(content, pattern, from, q);
    }
  }

  lemma OccursIff(content: string, pattern: string, from: nat, q: nat)
    requires from <= q <= |content|
    ensures OccursAt(content, pattern, q) <==> StartsWith(content[from..][q - from..], pattern)
  {
    assert content[from..][q - from..] == content[q..];
    assert q + |pattern| <= |content| ==> content[q..][..|pattern|] == content[q..q + |pattern|];
  }

  /** The recorded neighbours stand around content[start..end]. */
  predicate ContextsFit(content: string, start: nat, end: nat, patch: PatchFragment)
    requires start <= end <= |content|
  {
    EndsWith(content[..start], patch.beforeContext) && StartsWith(content[end..], patch.afterContext)
  }

  /** A place where the fragment's region and both neighbours are present. */
  predicate Matches(content: string, patch: PatchFragment, p: nat) {
    OccursAt(content, patch.before, p) && ContextsFit(content, p, p + |patch.before|, patch)
  }

  /** The occurrences that the left-to-right scan visits: after each one it goes on
      behind its end, so an occurrence that overlaps a visited one is skipped. */
  function Visited(content: string, pattern: string, offset: nat): seq<nat>
    requires pattern != "" && offset <= |content|
    decreases |content| - offset
  {
    var found := FindFrom(content, pattern, offset);
    if found.None? then [] else [found.value] + Visited(content, pattern, found.value + |pattern|)
  }

  function Select(content: string, patch: PatchFragment, places: seq<nat>): seq<nat> {
    if places == [] then []
    else if Matches(content, patch, places[0]) then [places[0]] + Select(content, patch, places[1..])
    else Select(content, patch, places[1..])
  }

  function Upto(n: nat): (s: seq<nat>)
    ensures |s| == n && forall k :: 0 <= k < n ==> s[k] == k
  {
    if n == 0 then [] else Upto(n - 1) + [n - 1]
  }

  /** The places among which there must be exactly one. */
  function Candidates(content: string, patch: PatchFragment): seq<nat> {
    if patch.before != "" then Select(content, patch, Visited(content, patch.before, 0))
    else if patch.beforeContext == "" && patch.afterContext == "" then [0]
    else Select(content, patch, Upto(|content| + 1))
  }

  function Splice(content: string, patch: PatchFragment, p: nat): string
    requires p + |patch.before| <= |content|
  {
    content[..p] + patch.after + content[p + |patch.before|..]
  }

  function Patched(content: string, patch: PatchFragment): Result<string> {
    var c := Candidates(content, patch);
    CandidatesMatch(content, patch);
    if |c| == 1 then Ok(Splice(content, patch, c[0])) else Err(Conflict)
  }

  /** Fragments of one file, one after the other. */
  function ApplyAll(content: string, patches: seq<PatchFragment>): Result<string>
    decreases |patches|
  {
    if patches == [] then Ok(content)
    else
      var next := Patched(content, patches[0]);
      if next.Err? then next else ApplyAll(next.value, patches[1..])
  }

  lemma {:induction false} SelectAll(content: string, patch: PatchFragment, places: seq<nat>)
    ensures forall p :: p in Select(content, patch, places) <==> p in places && Matches(content, patch, p)
    ensures Ascending(places) ==> Ascending(Select(content, patch, places))
  {
    if places != [] {
      var rest := places[1..];
      SelectAll(content, patch, rest);
      assert places == [places[0]] + rest;
      if Ascending(places) {
        assert forall k :: 0 <= k < |rest| ==> rest[k] == places[k + 1];
        assert Ascending(rest) && forall y :: y in rest ==> places[0] < y;
        AscendingCons(places[0], Select(content, patch, rest));
      }
    }
  }

  lemma VisitedStep(content: string, pattern: string, offset: nat)
    requires pattern != "" && offset <= |content|
    ensures
      var found := FindFrom(content, pattern, offset);
      Visited(content, pattern, offset)
      == if found.None? then [] else [found.value] + Visited(content, pattern, found.value + |pattern|)
  {
  }

  lemma {:induction false} VisitedOccur(content: string, pattern: string, offset: nat)
    requires pattern != "" && offset <= |content|
    ensures forall p :: p in Visited(content, pattern, offset) ==> offset <= p && OccursAt(content, pattern, p)
    ensures Ascending(Visited(content, pattern, offset))
    decreases |content| - offset
  {
    hide Visited, OccursAt, FindFrom;
    var found := FindFrom(content, pattern, offset);
    VisitedStep(content, pattern, offset);
    if found.Some? {
      FitsAt(content, pattern, found.value);
      VisitedOccur(content, pattern, found.value + |pattern|);
      AscendingCons(found.value, Visited(content, pattern, found.value + |pattern|));
    }
  }

  lemma FitsAt(content: string, pattern: string, p: nat)
    requires OccursAt(content, pattern, p)
    ensures p + |pattern| <= |content|
  {
  }

  /** p begins inside one of the places. */
  ghost predicate Shadowed(places: seq<nat>, length: nat, p: nat) {
    exists q :: q in places && q < p < q + length
  }

  /** Which occurrences the scan visits: exactly those that do not begin inside a
      visited one. */
  lemma {:induction false} VisitedIff(content: string, pattern: string, offset: nat, p: nat)
    requires pattern != "" && offset <= p && OccursAt(content, pattern, p)
    ensures p in Visited(content, pattern, offset) <==> !Shadowed(Visited(content, pattern, offset), |pattern|, p)
    decreases |content| - offset
  {
    var start := FindFrom(content, pattern, offset).value;
    var next := start + |pattern|;
    var all, rest := Visited(content, pattern, offset), Visited(content, pattern, next);
    VisitedOccur(content, pattern, next);
    assert all == [start] + rest;
    assert forall q :: q in all <==> q == start || q in rest;
    if next <= p {
      VisitedIff(content, pattern, next, p);
      if Shadowed(all, |pattern|, p) {
        var q :| q in all && q < p < q + |pattern|;
        assert q in rest;
      }
    }
  }

  lemma CandidatesMatch(content: string, patch: PatchFragment)
    ensures forall k :: 0 <= k < |Candidates(content, patch)| ==>
        Candidates(content, patch)[k] + |patch.before| <= |content|
    ensures Ascending(Candidates(content, patch))
  {
    if patch.before != "" {
      VisitedOccur(content, patch.before, 0);
      SelectAll(content, patch, Visited(content, patch.before, 0));
    } else {
      SelectAll(content, patch, Upto(|content| + 1));
    }
    var c := Candidates(content, patch);
    assert forall k :: 0 <= k < |c| ==> c[k] in c;
  }

  // ----- the method -----

  method ApplyPatch(content: string, patch: PatchFragment) returns (result: Result<string>)
    ensures result == Patched(content, patch)
  {
    var candidates: seq<nat>;
    if patch.before == "" {
      candidates := InsertionPositions(content, patch);
    } else {
      candidates := RegionPositions(content, patch);
    }
    CandidatesMatch(content, patch);
    if |candidates| != 1 {
      return Err(Conflict);
    }
    var start := candidates[0];
    return Ok(content[..start] + patch.after + content[start + |patch.before|..]);
  }

  method RegionPositions(content: string, patch: PatchFragment) returns (candidates: seq<nat>)
    requires patch.before != ""
    ensures candidates == Candidates(content, patch)
  {
    hide Scanned, FindFrom, EndsWith, StartsWith;
    candidates := [];
    var offset: nat := 0;
    var found := FindFrom(content, patch.before, offset);
    ScanStarts(content, patch);
    while found.Some?
      invariant offset <= |content| && found == FindFrom(content, patch.before, offset)
      invariant Scanned(content, patch, candidates, offset)
      decreases |content| - offset
    {
      var start := found.value;
      var end := start + |patch.before|;
      ScanStep(content, patch, candidates, offset);
      if EndsWith(content[..start], patch.beforeContext) && StartsWith(content[end..], patch.afterContext) {
        candidates := candidates + [start];
      }
      offset := end;
      found := FindFrom(content, patch.before, offset);
    }
    ScanEnds(content, patch, candidates, offset);
  }

  /** The loop invariant of the scan. */
  ghost predicate Scanned(content: string, patch: PatchFragment, candidates: seq<nat>, offset: nat)
    requires patch.before != "" && offset <= |content|
  {
    candidates + Select(content, patch, Visited(content, patch.before, offset)) == Candidates(content, patch)
  }

  lemma ScanStarts(content: string, patch: PatchFragment)
    requires patch.before != ""
    ensures Scanned(content, patch, [], 0)
  {
    assert [] + Candidates(content, patch) == Candidates(content, patch);
  }

  lemma ScanEnds(content: string, patch: PatchFragment, candidates: seq<nat>, offset: nat)
    requires patch.before != "" && offset <= |content| && FindFrom(content, patch.before, offset).None?
    requires Scanned(content, patch, candidates, offset)
    ensures candidates == Candidates(content, patch)
  {
    assert Visited(content, patch.before, offset) == [];
    assert candidates + [] == candidates;
  }

  lemma ScanStep(content: string, patch: PatchFragment, candidates: seq<nat>, offset: nat)
    requires patch.before != "" && offset <= |content| && FindFrom(content, patch.before, offset).Some?
    requires Scanned(content, patch, candidates, offset)
    ensures
      var start := FindFrom(content, patch.before, offset).value;
      var end := start + |patch.before|;
      Scanned(content, patch, if ContextsFit(content, start, end, patch) then candidates + [start] else candidates, end)
  {
    hide Select, Visited, FindFrom, EndsWith, StartsWith, ContextsFit, Candidates, Find;
    SelectVisited(content, patch, offset);
    var start := FindFrom(content, patch.before, offset).value;
    OneMoreCandidate(candidates, start, Select(content, patch, Visited(content, patch.before, start + |patch.before|)));
  }

  lemma OneMoreCandidate(candidates: seq<nat>, start: nat, rest: seq<nat>)
    ensures candidates + ([start] + rest) == candidates + [start] + rest
  {
  }

  lemma SelectVisited(content: string, patch: PatchFragment, offset: nat)
    requires patch.before != "" && offset <= |content| && FindFrom(content, patch.before, offset).Some?
    ensures
      var start := FindFrom(content, patch.before, offset).value;
      var rest := Select(content, patch, Visited(content, patch.before, start + |patch.before|));
      Select(content, patch, Visited(content, patch.before, offset))
      == if ContextsFit(content, start, start + |patch.before|, patch) then [start] + rest else rest
  {
    hide FindFrom, EndsWith, StartsWith;
    var start := FindFrom(content, patch.before, offset).value;
    var places := Visited(content, patch.before, offset);
    assert places[0] == start && places[1..] == Visited(content, patch.before, start + |patch.before|);
  }

  method InsertionPositions(content: string, patch: PatchFragment) returns (positions: seq<nat>)
    requires patch.before == ""
    ensures positions == Candidates(content, patch)
  {
    if patch.beforeContext == "" && patch.afterContext == "" {
      return [0];
    }
    hide Select, Upto, EndsWith, StartsWith;
    positions := [];
    for boundary := 0 to |content| + 1
      invariant positions == Select(content, patch, Upto(boundary))
    {
      SelectUpto(content, patch, boundary);
      if EndsWith(content[..boundary], patch.beforeContext) && StartsWith(content[boundary..], patch.afterContext) {
        positions := positions + [boundary];
      }
    }
  }

  lemma SelectUpto(content: string, patch: PatchFragment, p: nat)
    requires patch.before == "" && p <= |content|
    ensures Select(content, patch, Upto(p + 1))
         == if ContextsFit(content, p, p, patch) then Select(content, patch, Upto(p)) + [p]
            else Select(content, patch, Upto(p))
  {
    assert Upto(p + 1) == Upto(p) + [p];
    SelectSnoc(content, patch, Upto(p), p);
    hide Select, Upto, EndsWith, StartsWith;
    assert content[p..p] == "";
    assert Matches(content, patch, p) <==> ContextsFit(content, p, p, patch);
  }

  lemma {:induction false} SelectSnoc(content: string, patch: PatchFragment, places: seq<nat>, p: nat)
    ensures Select(content, patch, places + [p])
         == if Matches(content, patch, p) then Select(content, patch, places) + [p] else Select(content, patch, places)
  {
    if places == [] {
      assert places + [p] == [p];
    } else {
      assert (places + [p])[1..] == places[1..] + [p];
      SelectSnoc(content, patch, places[1..], p);
    }
  }

  // ----- what the result means -----

  /** No two occurrences of the pattern share a character. */
  ghost predicate NonOverlapping(content: string, pattern: string) {
    forall p: nat, q: nat :: p < q && OccursAt(content, pattern, p) && OccursAt(content, pattern, q) ==>
        p + |pattern| <= q
  }

  /** No proper prefix of the pattern is also a suffix of it. */
  ghost predicate Unbordered(pattern: string) {
    forall k :: 0 < k < |pattern| ==> pattern[..k] != pattern[|pattern| - k..]
  }

  lemma OverlapIsBorder(content: string, pattern: string, p: nat, q: nat)
    requires p < q < p + |pattern| && OccursAt(content, pattern, p) && OccursAt(content, pattern, q)
    ensures var k := p + |pattern| - q; pattern[..k] == pattern[|pattern| - k..]
  {
    var k := p + |pattern| - q;
    assert content[p..p + |pattern|][q - p..] == content[q..p + |pattern|] == content[q..q + |pattern|][..k];
  }

  /** A property of the fragment alone decides whether its region can ever overlap
      itself, whatever text it is searched in. */
  lemma UnborderedIff(pattern: string)
    ensures Unbordered(pattern) <==> forall content :: NonOverlapping(content, pattern)
  {
    if Unbordered(pattern) {
      forall content, p: nat, q: nat | p < q && OccursAt(content, pattern, p) && OccursAt(content, pattern, q)
        ensures p + |pattern| <= q
      {
        if q < p + |pattern| {
          OverlapIsBorder(content, pattern, p, q);
        }
      }
    } else {
      var k :| 0 < k < |pattern| && pattern[..k] == pattern[|pattern| - k..];
      BorderOverlaps(pattern, k);
    }
  }

  lemma BorderOverlaps(pattern: string, k: nat)
    requires 0 < k < |pattern| && pattern[..k] == pattern[|pattern| - k..]
    ensures !NonOverlapping(pattern + pattern[k..], pattern)
  {
    var content := pattern + pattern[k..];
    var q := |pattern| - k;
    assert content[0..|pattern|] == pattern;
    assert content[q..q + |pattern|] == pattern[q..] + pattern[k..];
    assert pattern[..k] + pattern[k..] == pattern;
    assert OccursAt(content, pattern, 0) && OccursAt(content, pattern, q);
  }

  /** Whether the search considers place p at all. */
  ghost predicate Considered(content: string, patch: PatchFragment, p: nat) {
    if patch.before != "" then p in Visited(content, patch.before, 0)
    else p <= |content| && (patch.beforeContext == "" && patch.afterContext == "" ==> p == 0)
  }

  /** The search decides for place p, and the result is the splice there. */
  ghost predicate AppliedAt(content: string, patch: PatchFragment, p: nat) {
    Candidates(content, patch) == [p]
  }

  ghost predicate OnlyConsidered(content: string, patch: PatchFragment, p: nat) {
    && Considered(content, patch, p) && Matches(content, patch, p)
    && forall q :: Considered(content, patch, q) && Matches(content, patch, q) ==> q == p
  }

  /** The fragment is applied at p exactly when p is the only considered match. */
  lemma AppliesAtIff(content: string, patch: PatchFragment, p: nat)
    ensures AppliedAt(content, patch, p) <==> OnlyConsidered(content, patch, p)
    ensures AppliedAt(content, patch, p) ==>
        Matches(content, patch, p) && Patched(content, patch) == Ok(Splice(content, patch, p))
    ensures Patched(content, patch).Ok? ==> AppliedAt(content, patch, Candidates(content, patch)[0])
  {
    var c := Candidates(content, patch);
    CandidatesMatch(content, patch);
    CandidatesAre(content, patch);
    assert |c| > 1 ==> c[0] < c[1] && c[0] in c && c[1] in c;
    assert |c| == 1 ==> c == [c[0]] && forall q :: q in c ==> q == c[0];
  }

  /** The search steps over p: it lies inside a visited occurrence, or the fragment
      inserts without any neighbour and p is not the beginning. */
  ghost predicate Overlooked(content: string, patch: PatchFragment, p: nat) {
    if patch.before != "" then Shadowed(Visited(content, patch.before, 0), |patch.before|, p)
    else patch.beforeContext == "" && patch.afterContext == "" && 0 < p
  }

  lemma OverlookedIff(content: string, patch: PatchFragment, p: nat)
    requires Matches(content, patch, p)
    ensures Considered(content, patch, p) <==> !Overlooked(content, patch, p)
  {
    if patch.before != "" {
      VisitedIff(content, patch.before, 0, p);
    }
  }

  /** Where a fragment belongs at p, it is applied at another place exactly when the
      search steps over p and exactly one place that it considers fits. */
  lemma MisplacedIff(content: string, patch: PatchFragment, p: nat)
    requires Matches(content, patch, p)
    ensures (exists q :: q != p && AppliedAt(content, patch, q))
       <==> Overlooked(content, patch, p) && exists q :: OnlyConsidered(content, patch, q)
  {
    OverlookedIff(content, patch, p);
    forall q: nat
      ensures AppliedAt(content, patch, q) <==> OnlyConsidered(content, patch, q)
    {
      AppliesAtIff(content, patch, q);
    }
    hide AppliedAt, Matches, Overlooked;
    if q: nat :| OnlyConsidered(content, patch, q) && Overlooked(content, patch, p) {
      assert q != p && AppliedAt(content, patch, q);
    }
  }

  lemma CandidatesAre(content: string, patch: PatchFragment)
    ensures forall p :: p in Candidates(content, patch) <==> Considered(content, patch, p) && Matches(content, patch, p)
  {
    if patch.before != "" {
      SelectAll(content, patch, Visited(content, patch.before, 0));
    } else {
      UptoMembers(|content| + 1);
      SelectAll(content, patch, Upto(|content| + 1));
      assert patch.beforeContext == "" && patch.afterContext == "" ==> Matches(content, patch, 0);
    }
  }

  lemma UptoMembers(n: nat)
    ensures forall p: nat :: p in Upto(n) <==> p < n
  {
    forall p: nat | p < n
      ensures p in Upto(n)
    {
      assert Upto(n)[p] == p;
    }
  }

  ghost predicate OnlyMatch(content: string, patch: PatchFragment, p: nat) {
    Matches(content, patch, p) && forall q :: Matches(content, patch, q) ==> q == p
  }

  /** When occurrences cannot overlap, a patch applies if and only if its region with
      both neighbours stands in exactly one place, and it is applied there. */
  lemma AppliesIffUnique(content: string, patch: PatchFragment)
    requires patch.before != "" && NonOverlapping(content, patch.before)
    ensures Patched(content, patch).Ok? <==> exists p :: OnlyMatch(content, patch, p)
    ensures forall p :: OnlyMatch(content, patch, p) ==> Patched(content, patch) == Ok(Splice(content, patch, p))
  {
    forall p: nat | OccursAt(content, patch.before, p)
      ensures Considered(content, patch, p)
    {
      NonOverlappingIsConsidered(content, patch, p);
    }
    forall p: nat
      ensures OnlyMatch(content, patch, p) <==> AppliedAt(content, patch, p)
    {
      AppliesAtIff(content, patch, p);
    }
    hide OnlyMatch, Candidates;
    var c := Candidates(content, patch);
    assert |c| == 1 ==> c == [c[0]] && OnlyMatch(content, patch, c[0]);
  }

  lemma NonOverlappingIsConsidered(content: string, patch: PatchFragment, p: nat)
    requires patch.before != "" && NonOverlapping(content, patch.before) && OccursAt(content, patch.before, p)
    ensures Considered(content, patch, p)
  {
    VisitedOccur(content, patch.before, 0);
    VisitedIff(content, patch.before, 0, p);
  }

  /** Searched in a text where the fragment belongs at p, the patch is refused or
      applied at p, provided the scan considers p; if it does not, the patch is
      never applied at p. */
  lemma AppliesWhereBound(content: string, patch: PatchFragment, p: nat)
    requires Matches(content, patch, p)
    ensures Considered(content, patch, p) ==>
        Patched(content, patch) == Err(Conflict) || Patched(content, patch) == Ok(Splice(content, patch, p))
    ensures !Considered(content, patch, p) ==> p !in Candidates(content, patch)
  {
    CandidatesAre(content, patch);
    var c := Candidates(content, patch);
    assert |c| == 1 && p in c ==> c[0] == p;
  }

  lemma UnborderedIsConsidered(content: string, patch: PatchFragment, p: nat)
    requires patch.before != "" && Unbordered(patch.before) && OccursAt(content, patch.before, p)
    ensures Considered(content, patch, p)
  {
    UnborderedIff(patch.before);
    NonOverlappingIsConsidered(content, patch, p);
  }
}
