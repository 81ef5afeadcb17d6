# Dependency-scan risk pipeline, modelled in Dafny

This project models the deterministic core of a dependency-scan service. The
service takes an uploaded dependency manifest and turns it into a risk report:

1. **Manifest parsing** (`parsers.dfy`, module `Parsers`). The manifest dialect is chosen
   from the lower-cased filename suffix, in a fixed order: `requirements.txt`, then
   `package-lock.json`, then `pyproject.toml`. The parser extracts a sorted,
   duplicate-free list of package names and tags it with an ecosystem (`PyPI` or `npm`).
   An unsupported filename and an empty result are structured failures.
2. **Bulk vulnerability mapping** (`osv_client.dfy`, module `OsvClient`). One result per
   package, in input order. Each package's query outcome is mapped on its own, so a
   failed query becomes an error record with no vulnerabilities and affects no other
   entry.
3. **Risk scoring** (`scoring.dfy`, module `Scoring`). The score is 8 points per counted
   vulnerability plus 3 per vulnerability with severity data, capped at 100.
4. **Result compaction** for the language-model brief (`brief.dfy`, module `Brief`).
   Packages without vulnerabilities are skipped. At most `max_vulns` vulnerabilities are
   kept in all, and each is reduced to its id, summary and aliases.

Supporting modules:

- `text.dfy` (`Text`) models the Python string operations the parsers rely on:
  - `str.strip`, with Python's full whitespace set;
  - `str.splitlines`;
  - `str.lower`;
  - `str.endswith`;
  - the "prefix before the first operator character" that `re.split(..., maxsplit=1)[0]`
    computes;
  - code-point ordering;
  - `sorted(set(...))`, as the function `SortedSet`.
- `json.dfy` (`JsonValue`) models decoded JSON values, Python truthiness, and `dict.get`
  with a default.
- `sums.dfy` (`Sums`) is a left fold of a per-element quantity, with lemmas for append,
  permutation and update.
- `wrappers.dfy` (`Wrappers`) holds `Option` and `Result`.

Operations written as loops in the source are Dafny methods with loop invariants. Each
method is proved equal to a specification function, and the properties are lemmas about
that function:

- `ParseRequirements` and `ParsePyproject` are specified by `Collect` over the per-line
  rules.
- `QueryBulk` is specified by `Entry`.
- `ComputeRiskScore` is specified by `RiskScore`.
- `SafeTrimResults` is specified by `Compact`.

`ParsePackageLock` and `DetectAndExtract` are branching code in the source, so they are
modelled as a function and as a method without loops.

Inputs the core gets from outside are parameters:

- The uploaded text is already decoded.
- The outcome of `json.loads` is an `Option<Json>`, with `None` meaning the text is not
  valid JSON.
- Each package's vulnerability query gives a `QueryOutcome`: a decoded response body, or
  a failure message.

An exception that escapes `detect_and_extract_packages` is the `Raised` case of
`Extraction`. An exception caught inside `query_osv_bulk` becomes an error record.

## Model

| member | source | states |
|---|---|---|
| Text.SplitJoinLines | backend/app/parsers.py:7 | splitting lines back out of non-empty, break-free names joined one per line gives exactly those names |
| Text.SortedSet | backend/app/parsers.py:14 | `sorted(set(...))`: the result is strictly increasing in code-point order and holds exactly the elements of the set |
| Text.SortedDetermined | backend/app/parsers.py:14 | two strictly sorted lists with the same elements are equal, so the sorted, duplicate-free output is determined by the set of names |
| Text.StrippedCut | backend/app/parsers.py:11 | stripping the text before the first operator character gives the string that sits in the text before that character with only whitespace before and after it: the reading of `re.split(...)[0].strip()` by position |
| Text.StrippedCutUnique | backend/app/parsers.py:11 | at most one string is such a stripped cut of a given text, so the characterisation pins the name |
| Text.NestedCut | backend/app/parsers.py:29-31 | cutting the stripped cut again at its first `[` gives the stripped cut of the original text at its first `[` or operator character |
| Parsers.Detect | backend/app/parsers.py:38-52 | the chosen dialect's suffix ends the lower-cased filename; no dialect earlier in the order requirements, package-lock, pyproject matches; no dialect is chosen exactly when no suffix matches |
| Parsers.RequirementName | backend/app/parsers.py:8-13 | a requirements line yields a name exactly when its stripped form is non-empty, does not start with `#` and does not start with an operator character; the name is non-empty, stripped, a prefix of the stripped line, and free of `< > = ! ~` |
| Parsers.ParseRequirements | backend/app/parsers.py:5-14 | the result is strictly sorted and its elements are exactly the names the lines yield |
| Parsers.RequirementNameIsCut | backend/app/parsers.py:8-13 | the name a requirements line yields is exactly the stripped text before the first of `< > = ! ~` in the stripped line, and no other string is |
| Parsers.ConstrainedNameIsOwnRequirement | backend/app/parsers.py:8-13 | a plain name followed by a version constraint (`flask==2.0`) yields exactly that name (`flask`) |
| Parsers.NameIsOwnRequirement | backend/app/parsers.py:8-13 | a non-empty stripped name that does not start with `#` and holds none of `< > = ! ~` is a requirements line that yields exactly that name |
| Parsers.RequirementsIdempotent | backend/app/parsers.py:5-14 | parsing the output joined one name per line yields the same set of names, and hence the same sorted list |
| Parsers.PyprojectName | backend/app/parsers.py:24-33 | a name it yields is non-empty, stripped, at most 80 characters, free of spaces, `[` and operator characters, and occurs as a run of characters in the stripped line, which holds one of `< > = ~` (which lines are accepted is stated by `Parsers.PyprojectNameIff`) |
| Parsers.DeclaredName | backend/app/parsers.py:28-33 | on a line already stripped of whitespace and quotes, a name it yields comes from a line holding one of `< > = ~`, is non-empty, stripped, at most 80 characters, free of spaces, `[` and operator characters, and occurs in the line (which lines are accepted is stated by `Parsers.DeclaredNameIff`) |
| Parsers.DeclaredNameIsCut | backend/app/parsers.py:29-31 | the declared name is exactly the stripped text before the first `[` or operator character, so the version and the `[extras]` part are cut off |
| Parsers.PyprojectNameIsCut | backend/app/parsers.py:24-33 | the name a pyproject line yields is exactly the stripped text before the first `[` or operator character of the line stripped of whitespace and then of quotes, and no other string is |
| Parsers.ExtrasDeclaredName | backend/app/parsers.py:29-31 | a plain name followed by `[extras]` and a comparison declares exactly the name |
| Parsers.ExtrasNameIsOwnDependency | backend/app/parsers.py:24-33 | the dependency-array entry `"name[extras]>=2.0",` yields exactly `name` |
| Parsers.AcceptedCutIsName | backend/app/parsers.py:29-30 | the acceptance tests are made on the stripped text before the first operator character, before the `[extras]` cut: every such cut is non-empty, starts with no `[`, holds no space and is at most 80 characters exactly when the parser's own cut is |
| Parsers.BracketCutNonEmpty | backend/app/parsers.py:31-32 | cutting a stripped, non-empty name at its first `[` leaves a non-empty name exactly when the name does not start with `[` |
| Parsers.DeclaredNameIff | backend/app/parsers.py:28-33 | a line stripped of whitespace and quotes yields a name if and only if it holds one of `< > = ~` and its stripped text before the first operator is non-empty, starts with no `[`, holds no space and is at most 80 characters |
| Parsers.PyprojectNameIff | backend/app/parsers.py:24-33 | a pyproject line yields a name if and only if its stripped form is non-empty, starts with neither `#` nor `[`, and, once unquoted, holds one of `< > = ~` and has a stripped text before the first operator that is non-empty, starts with no `[`, holds no space and is at most 80 characters |
| Parsers.SpacedExtrasRejected | backend/app/parsers.py:29-30 | `name[a b]>=1` declares nothing: the space in the extras fails the test made before the extras are cut off |
| Parsers.SpacedExtrasNotADependency | backend/app/parsers.py:24-33 | the dependency-array entry `"name[a b]>=1",` yields no name |
| Parsers.PinnedDeclaredName | backend/app/parsers.py:28-33 | a plain name (non-empty, stripped, at most 80 characters, no space, `[` or operator character) followed by `==1` declares exactly that name |
| Parsers.PinnedNameIsOwnDependency | backend/app/parsers.py:24-33 | a plain name that also holds no quote and does not start with `#`, written as the line `name==1`, yields exactly that name |
| Parsers.ParsePyproject | backend/app/parsers.py:21-34 | the result is strictly sorted and its elements are exactly the names the lines yield |
| Parsers.ParsePackageLock | backend/app/parsers.py:16-19 | the result is an error exactly when the text is not valid JSON, the top level is not an object, or `dependencies` is truthy and not an object; an absent, null or otherwise falsy `dependencies` gives the empty list; an object `dependencies` gives exactly its keys, strictly sorted; a non-empty result comes only from an object `dependencies` |
| Parsers.DetectAndExtract | backend/app/parsers.py:36-63 | an unmatched filename gives the unsupported-file failure with the three supported names whatever the content; otherwise a raising parser gives its error, no names gives "No packages detected in {kind}.", and any names give the dialect, its ecosystem (`PyPI` or `npm`) and the strictly sorted names; a success always lists at least one package |
| OsvClient.MapDetails | backend/app/osv_client.py:26 | a missing or falsy `details` becomes `""`; a text is cut to its first 800 characters (a prefix of it); a list is cut to its first 800 items; slicing any other value is an error |
| OsvClient.MapVulnerability | backend/app/osv_client.py:22-31 | an object entry maps without error exactly when its details can be sliced; `id` and `summary` are copied (null when absent); `aliases`, `severity` and `references` are copied (`[]` when absent); `details` is the cut `MapDetails` makes of the entry's details, so `""` when missing or null |
| OsvClient.MapVulnerabilities | backend/app/osv_client.py:22-32 | the comprehension succeeds exactly when every entry maps; it then has one mapped vulnerability per entry, in order |
| OsvClient.MapResponse | backend/app/osv_client.py:16-17 | the result is an error exactly when the body is not an object, or `vulns` is truthy and either not a list or a list with an entry that cannot be mapped; a missing or falsy `vulns` gives no vulnerabilities; a list `vulns` is mapped entry by entry; a non-empty result comes only from a list of the same length |
| OsvClient.Entry | backend/app/osv_client.py:15-41 | the entry carries the package and ecosystem; it has no error exactly when the query succeeded and its body mapped; then `vuln_count` is the number of mapped vulnerabilities; otherwise the count is 0, the list is empty and the error is the failure's message |
| OsvClient.QueryBulk | backend/app/osv_client.py:12-42 | one result per package in input order, and result i depends only on package i, the ecosystem and query outcome i |
| OsvClient.EntryDetailsCapped | backend/app/osv_client.py:26 | every vulnerability an entry records has `details` of at most 800 characters (or list items) |
| Scoring.ComputeRiskScore | backend/app/scoring.py:3-11 | the loops compute min(100, 8 * the sum of `vuln_count` + 3 * the number of vulnerabilities with truthy severity); the score is at most 100, and 0 for no results |
| Scoring.RiskScoreBounds | backend/app/scoring.py:11 | the score never exceeds 100, and is not negative when no `vuln_count` is |
| Scoring.RiskScoreOrderIndependent | backend/app/scoring.py:5-10 | permuting the results leaves the score unchanged |
| Scoring.RiskScoreVulnerabilityOrderIndependent | backend/app/scoring.py:8-10 | permuting the vulnerabilities of one result leaves the score unchanged |
| Scoring.RiskScoreMonotoneInResults | backend/app/scoring.py:5-11 | appending a result whose count is not negative never lowers the score |
| Scoring.RiskScoreMonotoneInVulnerabilities | backend/app/scoring.py:8-11 | appending a vulnerability to a result never lowers the score |
| Brief.ProjectAll | backend/app/llm.py:20-26 | each kept vulnerability is reduced to exactly its id, summary and aliases, one per input, in order |
| Brief.SafeTrimResults | backend/app/llm.py:6-31 | the loop, with its skip, running count and early stop, yields exactly the recursive compaction `Compact(results, max_vulns, 0)`; the cap defaults to 25 |
| Brief.TrimmedTotal | backend/app/llm.py:14-15 | for a cap that is not negative, the output holds min(cap, all listed vulnerabilities) vulnerabilities, so never more than the cap |
| Brief.TrimmedIsOrderedSelection | backend/app/llm.py:10-30 | there are strictly increasing positions such that output entry k condenses the input result at the k-th of those positions: same package, ecosystem and copied `vuln_count`, and the projection of a prefix of its non-empty vulnerability list; every entry but the last keeps its whole list; results without vulnerabilities never appear, and one with vulnerabilities is left out only after the last emitted entry |
| Brief.TrimmedEntriesNonEmpty | backend/app/llm.py:14 | with a positive cap, every emitted entry keeps at least one vulnerability |
| Brief.TrimmedWithoutBudget | backend/app/llm.py:14-30 | with a cap of zero or less, at most one entry is emitted, and it has an empty list |

## Left out

- `backend/app/main.py` is not part of this model. It holds HTTP routing, CORS and
  asynchronous upload reads, which only call the core.
- `_query_single` (backend/app/osv_client.py:6-10) is an HTTP request with a timeout. Each
  package's outcome is a parameter of `QueryBulk` instead.
- `generate_executive_brief`, `_ollama_brief` and `_openai_brief` (backend/app/llm.py:33-112)
  are left out. They read the environment, format a prompt, call a language model over
  HTTP and serialise JSON, all of which is foreign I/O.
- UTF-8 decoding with replacement (backend/app/parsers.py:37) and `json.loads`
  (backend/app/parsers.py:17) are library behaviour. The decoded text and the decoded
  JSON value (or its absence) are parameters.
- Concurrency and timeouts are left out: the source is a plain sequential loop.
- Exception messages are placeholders. The model keeps when an exception is raised or
  caught, but not Python's exact message text.
- JSON numbers are integers. Floating-point numbers are left out, since the core only uses
  their truthiness.
- `Text.Lower` lower-cases ASCII letters and the Kelvin sign only. No other character can
  change whether a filename ends with one of the three suffixes, but `Lower` is not the
  full Unicode lower-casing.
- Scoring.ComputeRiskScore: results are typed records, so there is no counterpart to a
  missing or null `vuln_count` or `vulnerabilities`, which the source reads as 0 and an
  empty list. There is also no counterpart to `int()` applied to a non-integer count.
- Brief.SafeTrimResults: for the same reason, there is no counterpart to a missing or null
  `vulnerabilities`, which the source skips, or to a missing `aliases`, which it defaults
  to `[]`. The typed vulnerabilities always hold `aliases`.
- Both sides of `pyproject.toml` lines are stripped of any number of `"` characters and
  then of `'` characters, which is what the code does. This is not a removal of one
  matching pair of quotes. Only a space (not other whitespace) rejects a name.
- The 800 limit on `details` counts characters (elements of a string or list), not bytes.
