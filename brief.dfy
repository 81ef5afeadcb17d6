/**
  Compaction of the scan results before they are handed to a language model:
  packages without vulnerabilities are skipped, at most `maxVulns`
  vulnerabilities are kept in all, and each keeps only its id, summary and
  aliases. Models `_safe_trim_results` of backend/app/llm.py.
 */
module Brief {
  import opened JsonValue
  import opened OsvClient
  import opened Sums

  /** The default cap on the vulnerabilities passed to the model. */
  const DefaultMaxVulns: int := 25

  datatype BriefVulnerability = BriefVulnerability(id: Json, summary: Json, aliases: Json)

  datatype BriefEntry = BriefEntry(package: string, ecosystem: string, vulnCount: int,
                                   vulnerabilities: seq<BriefVulnerability>)

  function Project(v: Vulnerability): BriefVulnerability {
    BriefVulnerability(v.id, v.summary, v.aliases)
  }

  function ProjectAll(vs: seq<Vulnerability>): (r: seq<BriefVulnerability>)
    ensures |r| == |vs| && forall i :: 0 <= i < |vs| ==> r[i] == Project(vs[i])
  {
    seq(|vs|, i requires 0 <= i < |vs| => Project(vs[i]))
  }

  /** How many more vulnerabilities may be kept: `max(0, max_vulns - kept)`. */
  function Budget(maxVulns: int, kept: int): nat {
    if maxVulns - kept > 0 then maxVulns - kept else 0
  }

  /** `vulns[:n]`. */
  function Take(vs: seq<Vulnerability>, n: nat): (r: seq<Vulnerability>)
    ensures r <= vs && |r| == (if n < |vs| then n else |vs|)
  {
    if n < |vs| then vs[..n] else vs
  }

  /** The entries the loop emits from `results` once `kept` vulnerabilities have been kept. */
  function Compact(results: seq<PackageResult>, maxVulns: int, kept: int): seq<BriefEntry>
    decreases |results|
  {
    if results == [] then []
    else
      var r := results[0];
      if r.vulnerabilities == [] then Compact(results[1..], maxVulns, kept)
      else
        var take := Take(r.vulnerabilities, Budget(maxVulns, kept));
        var entry := BriefEntry(r.package, r.ecosystem, r.vulnCount, ProjectAll(take));
        if kept + |take| >= maxVulns then [entry]
        else [entry] + Compact(results[1..], maxVulns, kept + |take|)
  }

  /** `_safe_trim_results(results, max_vulns)`. */
  method SafeTrimResults(results: seq<PackageResult>, maxVulns: int := DefaultMaxVulns)
    returns (trimmed: seq<BriefEntry>)
    ensures trimmed == Compact(results, maxVulns, 0)
  {
    trimmed := [];
    var kept := 0;
    var i := 0;
    while i < |results|
      invariant 0 <= i <= |results|
      invariant trimmed + Compact(results[i..], maxVulns, kept) == Compact(results, maxVulns, 0)
    {
      assert results[i..][0] == results[i] && results[i..][1..] == results[i + 1..];
      var r := results[i];
      var vulns := r.vulnerabilities;
      if vulns == [] {
        assert Compact(results[i..], maxVulns, kept) == Compact(results[i + 1..], maxVulns, kept);
        i := i + 1;
        continue;
      }
      var take := Take(vulns, Budget(maxVulns, kept));
      var entry := BriefEntry(r.package, r.ecosystem, r.vulnCount, ProjectAll(take));
      ghost var rest := Compact(results[i + 1..], maxVulns, kept + |take|);
      assert Compact(results[i..], maxVulns, kept) == if kept + |take| >= maxVulns then [entry] else [entry] + rest;
      kept := kept + |take|;
      assert trimmed + [entry] + rest == trimmed + ([entry] + rest);
      trimmed := trimmed + [entry];
      if kept >= maxVulns {
        break;
      }
      i := i + 1;
    }
  }

  // ---------------------------------------------------------------------------
  // What the compaction guarantees

  function Kept(e: BriefEntry): int {
    |e.vulnerabilities|
  }

  function Listed(r: PackageResult): int {
    |r.vulnerabilities|
  }

  /** The number of vulnerabilities in the compacted entries. */
  function TotalKept(entries: seq<BriefEntry>): int {
    SumBy(entries, Kept)
  }

  /** The number of vulnerabilities listed in the results. */
  function TotalListed(results: seq<PackageResult>): int {
    SumBy(results, Listed)
  }

  lemma {:induction false} CompactKeepsAtMostBudget(results: seq<PackageResult>, maxVulns: int, kept: int)
    requires 0 <= kept <= maxVulns
    ensures TotalKept(Compact(results, maxVulns, kept)) == Min(maxVulns - kept, TotalListed(results))
    decreases |results|
  {
    if results != [] {
      var r := results[0];
      var tail := results[1..];
      assert results == [r] + tail;
      SumByCons(r, tail, Listed);
      SumByNonNegative(tail, Listed);
      assert TotalListed(results) == |r.vulnerabilities| + TotalListed(tail);
      if r.vulnerabilities != [] {
        var take := Take(r.vulnerabilities, Budget(maxVulns, kept));
        var entry := BriefEntry(r.package, r.ecosystem, r.vulnCount, ProjectAll(take));
        SumByCons(entry, [], Kept);
        assert SumBy([entry], Kept) == |take|;
        if kept + |take| < maxVulns {
          var entries := Compact(tail, maxVulns, kept + |take|);
          assert Compact(results, maxVulns, kept) == [entry] + entries;
          assert |take| == |r.vulnerabilities|;
          CompactKeepsAtMostBudget(tail, maxVulns, kept + |take|);
          SumByCons(entry, entries, Kept);
        } else {
          assert Compact(results, maxVulns, kept) == [entry];
        }
      } else {
        assert Compact(results, maxVulns, kept) == Compact(tail, maxVulns, kept);
        CompactKeepsAtMostBudget(tail, maxVulns, kept);
      }
    }
  }

  /** With a cap that is not negative, the compacted view keeps min(cap, all listed)
      vulnerabilities, so never more than the cap. */
  lemma TrimmedTotal(results: seq<PackageResult>, maxVulns: int)
    requires maxVulns >= 0
    ensures TotalKept(Compact(results, maxVulns, 0)) == Min(maxVulns, TotalListed(results))
    ensures TotalKept(Compact(results, maxVulns, 0)) <= maxVulns
  {
    CompactKeepsAtMostBudget(results, maxVulns, 0);
  }

  /** Entry `e` condenses result `r`: same package, ecosystem and count, and a projection
      of a prefix of r's (non-empty) vulnerability list. */
  predicate Condenses(e: BriefEntry, r: PackageResult) {
    && r.vulnerabilities != []
    && e.package == r.package && e.ecosystem == r.ecosystem && e.vulnCount == r.vulnCount
    && |e.vulnerabilities| <= |r.vulnerabilities|
    && e.vulnerabilities == ProjectAll(r.vulnerabilities[..|e.vulnerabilities|])
  }

  /** Entry k condenses the result at position idx[k]. */
  predicate Selects(entries: seq<BriefEntry>, results: seq<PackageResult>, idx: seq<int>) {
    && |idx| == |entries|
    && forall k :: 0 <= k < |idx| ==> 0 <= idx[k] < |results| && Condenses(entries[k], results[idx[k]])
  }

  predicate Increasing(idx: seq<int>) {
    forall k, l :: 0 <= k < l < |idx| ==> idx[k] < idx[l]
  }

  /** A result with vulnerabilities that is not selected comes after the last selected one. */
  predicate DropsOnlyAfterLast(results: seq<PackageResult>, idx: seq<int>) {
    forall j :: 0 <= j < |results| && results[j].vulnerabilities != [] && j !in idx ==>
      |idx| > 0 && idx[|idx| - 1] < j
  }

  /** Every entry but the last keeps the whole list of its result: only the entry at which
      the loop stops can be cut short. */
  predicate WholeBeforeLast(entries: seq<BriefEntry>, results: seq<PackageResult>, idx: seq<int>)
    requires Selects(entries, results, idx)
  {
    forall k :: 0 <= k < |idx| - 1 ==> |entries[k].vulnerabilities| == |results[idx[k]].vulnerabilities|
  }

  /** The entries condense the results at the strictly increasing positions `idx`, only the
      last entry may be cut short, and a result with vulnerabilities is left out only after
      the last of those positions. */
  predicate Embeds(entries: seq<BriefEntry>, results: seq<PackageResult>, idx: seq<int>) {
    && Selects(entries, results, idx) && WholeBeforeLast(entries, results, idx)
    && Increasing(idx) && DropsOnlyAfterLast(results, idx)
  }

  function Shift(idx: seq<int>): (r: seq<int>)
    ensures |r| == |idx| && forall k :: 0 <= k < |idx| ==> r[k] == idx[k] + 1
  {
    seq(|idx|, k requires 0 <= k < |idx| => idx[k] + 1)
  }

  lemma SelectsPastEmpty(entries: seq<BriefEntry>, results: seq<PackageResult>, rest: seq<int>)
    requires results != []
    requires Selects(entries, results[1..], rest)
    ensures Selects(entries, results, Shift(rest))
  {
    var idx := Shift(rest);
    var tail := results[1..];
    forall k | 0 <= k < |idx| ensures 0 <= idx[k] < |results| && Condenses(entries[k], results[idx[k]]) {
      assert results[idx[k]] == tail[rest[k]];
    }
  }

  lemma WholePastEmpty(entries: seq<BriefEntry>, results: seq<PackageResult>, rest: seq<int>)
    requires results != []
    requires Selects(entries, results[1..], rest) && WholeBeforeLast(entries, results[1..], rest)
    ensures Selects(entries, results, Shift(rest)) && WholeBeforeLast(entries, results, Shift(rest))
  {
    SelectsPastEmpty(entries, results, rest);
    var idx := Shift(rest);
    var tail := results[1..];
    forall k | 0 <= k < |idx| - 1
      ensures |entries[k].vulnerabilities| == |results[idx[k]].vulnerabilities|
    {
      assert results[idx[k]] == tail[rest[k]];
    }
  }

  lemma DropsPastEmpty(results: seq<PackageResult>, rest: seq<int>)
    requires results != [] && results[0].vulnerabilities == []
    requires DropsOnlyAfterLast(results[1..], rest)
    ensures DropsOnlyAfterLast(results, Shift(rest))
  {
    var idx := Shift(rest);
    var tail := results[1..];
    forall j | 0 <= j < |results| && results[j].vulnerabilities != [] && j !in idx
      ensures |idx| > 0 && idx[|idx| - 1] < j
    {
      assert results[j] == tail[j - 1];
      assert j - 1 !in rest;
    }
  }

  /** Skipping a first result without vulnerabilities shifts an embedding by one. */
  lemma EmbedsPastEmpty(entries: seq<BriefEntry>, results: seq<PackageResult>, rest: seq<int>)
    requires results != [] && results[0].vulnerabilities == []
    requires Embeds(entries, results[1..], rest)
    ensures Embeds(entries, results, Shift(rest))
  {
    SelectsPastEmpty(entries, results, rest);
    WholePastEmpty(entries, results, rest);
    DropsPastEmpty(results, rest);
    assert Increasing(Shift(rest));
  }

  lemma SelectsCons(entry: BriefEntry, entries: seq<BriefEntry>, results: seq<PackageResult>, rest: seq<int>)
    requires results != [] && Condenses(entry, results[0])
    requires Selects(entries, results[1..], rest)
    ensures Selects([entry] + entries, results, [0] + Shift(rest))
  {
    var idx := [0] + Shift(rest);
    var out := [entry] + entries;
    var tail := results[1..];
    forall k | 0 <= k < |idx| ensures 0 <= idx[k] < |results| && Condenses(out[k], results[idx[k]]) {
      if k > 0 {
        assert idx[k] == rest[k - 1] + 1;
        assert results[idx[k]] == tail[rest[k - 1]];
        assert out[k] == entries[k - 1];
      }
    }
  }

  lemma IncreasingCons(rest: seq<int>)
    requires Increasing(rest) && forall k :: 0 <= k < |rest| ==> rest[k] >= 0
    ensures Increasing([0] + Shift(rest))
  {
    var idx := [0] + Shift(rest);
    forall k, l | 0 <= k < l < |idx| ensures idx[k] < idx[l] {
      assert idx[l] == rest[l - 1] + 1;
      if k > 0 {
        assert idx[k] == rest[k - 1] + 1;
      }
    }
  }

  lemma DropsCons(results: seq<PackageResult>, rest: seq<int>)
    requires results != []
    requires DropsOnlyAfterLast(results[1..], rest)
    ensures DropsOnlyAfterLast(results, [0] + Shift(rest))
  {
    var idx := [0] + Shift(rest);
    var tail := results[1..];
    forall j | 0 <= j < |results| && results[j].vulnerabilities != [] && j !in idx
      ensures |idx| > 0 && idx[|idx| - 1] < j
    {
      assert j != 0;
      assert results[j] == tail[j - 1];
    }
  }

  lemma WholeCons(entry: BriefEntry, entries: seq<BriefEntry>, results: seq<PackageResult>, rest: seq<int>)
    requires results != [] && Condenses(entry, results[0])
    requires |entry.vulnerabilities| == |results[0].vulnerabilities|
    requires Selects(entries, results[1..], rest) && WholeBeforeLast(entries, results[1..], rest)
    ensures Selects([entry] + entries, results, [0] + Shift(rest))
    ensures WholeBeforeLast([entry] + entries, results, [0] + Shift(rest))
  {
    SelectsCons(entry, entries, results, rest);
    var idx := [0] + Shift(rest);
    var out := [entry] + entries;
    var tail := results[1..];
    forall k | 0 <= k < |idx| - 1
      ensures |out[k].vulnerabilities| == |results[idx[k]].vulnerabilities|
    {
      if k > 0 {
        assert idx[k] == rest[k - 1] + 1;
        assert results[idx[k]] == tail[rest[k - 1]];
        assert out[k] == entries[k - 1];
      }
    }
  }

  /** Emitting a whole condensed first result in front of an embedding of the rest. */
  lemma EmbedsCons(entry: BriefEntry, entries: seq<BriefEntry>, results: seq<PackageResult>, rest: seq<int>)
    requires results != [] && Condenses(entry, results[0])
    requires |entry.vulnerabilities| == |results[0].vulnerabilities|
    requires Embeds(entries, results[1..], rest)
    ensures Embeds([entry] + entries, results, [0] + Shift(rest))
  {
    WholeCons(entry, entries, results, rest);
    IncreasingCons(rest);
    DropsCons(results, rest);
  }

  /** Emitting a condensed first result and stopping. */
  lemma EmbedsStop(entry: BriefEntry, results: seq<PackageResult>)
    requires results != [] && Condenses(entry, results[0])
    ensures Embeds([entry], results, [0])
  {
    assert Selects([entry], results, [0]);
  }

  lemma {:induction false} CompactEmbedsFrom(results: seq<PackageResult>, maxVulns: int, kept: int)
    returns (idx: seq<int>)
    ensures Embeds(Compact(results, maxVulns, kept), results, idx)
    decreases |results|
  {
    if results == [] {
      idx := [];
    } else {
      var r := results[0];
      if r.vulnerabilities == [] {
        var entries := Compact(results[1..], maxVulns, kept);
        assert Compact(results, maxVulns, kept) == entries;
        var rest := CompactEmbedsFrom(results[1..], maxVulns, kept);
        EmbedsPastEmpty(entries, results, rest);
        idx := Shift(rest);
      } else {
        var take := Take(r.vulnerabilities, Budget(maxVulns, kept));
        var entry := BriefEntry(r.package, r.ecosystem, r.vulnCount, ProjectAll(take));
        assert Condenses(entry, r);
        if kept + |take| >= maxVulns {
          assert Compact(results, maxVulns, kept) == [entry];
          EmbedsStop(entry, results);
          idx := [0];
        } else {
          var entries := Compact(results[1..], maxVulns, kept + |take|);
          assert Compact(results, maxVulns, kept) == [entry] + entries;
          var rest := CompactEmbedsFrom(results[1..], maxVulns, kept + |take|);
          EmbedsCons(entry, entries, results, rest);
          idx := [0] + Shift(rest);
        }
      }
    }
  }

  /** The compacted entries are, in order, condensed views of some of the results, each
      keeping a prefix of that result's vulnerabilities; results without vulnerabilities
      never appear, and one with vulnerabilities is dropped only once the loop has stopped. */
  lemma TrimmedIsOrderedSelection(results: seq<PackageResult>, maxVulns: int) returns (idx: seq<int>)
    ensures Embeds(Compact(results, maxVulns, 0), results, idx)
  {
    idx := CompactEmbedsFrom(results, maxVulns, 0);
  }

  lemma {:induction false} CompactEntriesNonEmptyFrom(results: seq<PackageResult>, maxVulns: int, kept: int)
    requires kept < maxVulns
    ensures forall k :: 0 <= k < |Compact(results, maxVulns, kept)| ==>
              Compact(results, maxVulns, kept)[k].vulnerabilities != []
    decreases |results|
  {
    if results != [] {
      var r := results[0];
      if r.vulnerabilities == [] {
        CompactEntriesNonEmptyFrom(results[1..], maxVulns, kept);
      } else {
        var take := Take(r.vulnerabilities, Budget(maxVulns, kept));
        if kept + |take| < maxVulns {
          CompactEntriesNonEmptyFrom(results[1..], maxVulns, kept + |take|);
        }
      }
    }
  }

  /** With a positive cap, every compacted entry keeps at least one vulnerability. */
  lemma TrimmedEntriesNonEmpty(results: seq<PackageResult>, maxVulns: int)
    requires maxVulns > 0
    ensures forall k :: 0 <= k < |Compact(results, maxVulns, 0)| ==>
              Compact(results, maxVulns, 0)[k].vulnerabilities != []
  {
    CompactEntriesNonEmptyFrom(results, maxVulns, 0);
  }

  /** With a cap of zero or less, the loop stops at the first package with vulnerabilities,
      emitting it with an empty list. */
  lemma TrimmedWithoutBudget(results: seq<PackageResult>, maxVulns: int)
    requires maxVulns <= 0
    ensures |Compact(results, maxVulns, 0)| <= 1
    ensures forall k :: 0 <= k < |Compact(results, maxVulns, 0)| ==>
              Compact(results, maxVulns, 0)[k].vulnerabilities == []
  {
  }
}
