/**
  Bulk vulnerability lookup with per-package failure isolation.
  Models `query_osv_bulk` of backend/app/osv_client.py. The HTTP query of one
  package is not modelled: its outcome, a decoded JSON body or a failure
  message, is supplied for each package.
 */
module OsvClient {
  import opened Wrappers
  import opened JsonValue

  /** The longest `details` text (in characters) kept from a vulnerability. */
  const DetailsLimit: nat := 800

  /** What querying the vulnerability service for one package gave. */
  datatype QueryOutcome = Response(body: Json) | Failure(message: string)

  /** One vulnerability as the client maps it. */
  datatype Vulnerability = Vulnerability(id: Json, summary: Json, details: Json, aliases: Json,
                                         severity: Json, references: Json)

  /** The result for one package; `error` is set exactly when its query failed. */
  datatype PackageResult = PackageResult(package: string, ecosystem: string, vulnCount: int,
                                         vulnerabilities: seq<Vulnerability>, error: Option<string>)

  /** `(v.get("details") or "")[:800]`: a text or a list is cut to its first 800 elements;
      slicing any other truthy value raises. */
  function MapDetails(d: Json): (r: Result<Json>)
    ensures !Truthy(d) ==> r == Ok(JString(""))
    ensures d.JString? ==> r.Ok? && r.value.JString? && r.value.s <= d.s
                           && |r.value.s| == (if |d.s| <= DetailsLimit then |d.s| else DetailsLimit)
    ensures d.JArray? && d.items != [] ==> r.Ok? && r.value.JArray? && r.value.items <= d.items
                                           && |r.value.items| == (if |d.items| <= DetailsLimit then |d.items| else DetailsLimit)
    ensures r.Ok? ==> (r.value.JString? && |r.value.s| <= DetailsLimit) || (r.value.JArray? && |r.value.items| <= DetailsLimit)
    ensures r.Err? <==> Truthy(d) && !d.JString? && !d.JArray?
  {
    if !Truthy(d) then Ok(JString(""))
    else match d
      case JString(s) => Ok(JString(if |s| <= DetailsLimit then s else s[..DetailsLimit]))
      case JArray(items) => Ok(JArray(if |items| <= DetailsLimit then items else items[..DetailsLimit]))
      case _ => Err("details value is not subscriptable")
  }

  /** Maps one entry of the `vulns` list; raises unless it is an object with sliceable details. */
  function MapVulnerability(v: Json): (r: Result<Vulnerability>)
    ensures r.Ok? <==> v.JObject? && MapDetails(Get(v.fields, "details")).Ok?
    ensures r.Ok? ==>
              var f := v.fields;
              && (if "id" in f then r.value.id == f["id"] else r.value.id == JNull)
              && (if "summary" in f then r.value.summary == f["summary"] else r.value.summary == JNull)
              && (if "aliases" in f then r.value.aliases == f["aliases"] else r.value.aliases == JArray([]))
              && (if "severity" in f then r.value.severity == f["severity"] else r.value.severity == JArray([]))
              && (if "references" in f then r.value.references == f["references"] else r.value.references == JArray([]))
              && r.value.details == MapDetails(Get(f, "details")).value
              && ("details" !in f || f["details"] == JNull ==> r.value.details == JString(""))
  {
    if !v.JObject? then Err("vulnerability entry has no attribute 'get'")
    else
      var f := v.fields;
      match MapDetails(Get(f, "details"))
      case Err(e) => Err(e)
      case Ok(details) =>
        Ok(Vulnerability(Get(f, "id"), Get(f, "summary"), details, GetOr(f, "aliases", JArray([])),
                         GetOr(f, "severity", JArray([])), GetOr(f, "references", JArray([]))))
  }

  /** The list comprehension over `vulns`: every entry mapped, or the first failure. */
  function MapVulnerabilities(items: seq<Json>): (r: Result<seq<Vulnerability>>)
    ensures r.Ok? <==> forall i :: 0 <= i < |items| ==> MapVulnerability(items[i]).Ok?
    ensures r.Ok? ==> |r.value| == |items|
                      && forall i :: 0 <= i < |items| ==> MapVulnerability(items[i]) == Ok(r.value[i])
  {
    if items == [] then Ok([])
    else
      match MapVulnerability(items[0])
      case Err(e) => Err(e)
      case Ok(v) =>
        match MapVulnerabilities(items[1..])
        case Err(e) => Err(e)
        case Ok(vs) =>
          assert forall i :: 1 <= i < |items| ==> items[i] == items[1..][i - 1];
          Ok([v] + vs)
  }

  /** The vulnerabilities of a successful response body: `raw.get("vulns", []) or []`,
      iterated and mapped. A body that is not an object, or a truthy `vulns` that is not a
      list, raises. */
  function MapResponse(body: Json): (r: Result<seq<Vulnerability>>)
    ensures !body.JObject? ==> r.Err?
    ensures body.JObject? && ("vulns" !in body.fields || !Truthy(body.fields["vulns"])) ==> r == Ok([])
    ensures body.JObject? && "vulns" in body.fields && body.fields["vulns"].JArray? ==>
              r == MapVulnerabilities(body.fields["vulns"].items)
    ensures r.Ok? && r.value != [] ==>
              body.JObject? && "vulns" in body.fields && body.fields["vulns"].JArray?
              && |r.value| == |body.fields["vulns"].items|
    ensures r.Err? <==> !body.JObject?
                        || (var vulns := GetOr(body.fields, "vulns", JArray([]));
                            Truthy(vulns) && (!vulns.JArray? || MapVulnerabilities(vulns.items).Err?))
  {
    if !body.JObject? then Err("response has no attribute 'get'")
    else
      var vulns := GetOr(body.fields, "vulns", JArray([]));
      if !Truthy(vulns) then Ok([])
      else if vulns.JArray? then MapVulnerabilities(vulns.items)
      else Err("vulns value is not a list of objects")
  }

  /** The entry `query_osv_bulk` records for one package, given its query outcome. */
  function Entry(pkg: string, ecosystem: string, outcome: QueryOutcome): (r: PackageResult)
    ensures r.package == pkg && r.ecosystem == ecosystem
    ensures r.error.None? <==> outcome.Response? && MapResponse(outcome.body).Ok?
    ensures r.error.None? ==> r.vulnerabilities == MapResponse(outcome.body).value
                              && r.vulnCount == |r.vulnerabilities|
    ensures r.error.Some? ==> r.vulnCount == 0 && r.vulnerabilities == []
    ensures outcome.Failure? ==> r.error == Some(outcome.message)
    ensures outcome.Response? && MapResponse(outcome.body).Err? ==> r.error == Some(MapResponse(outcome.body).error)
  {
    match outcome
    case Failure(message) => PackageResult(pkg, ecosystem, 0, [], Some(message))
    case Response(body) =>
      match MapResponse(body)
      case Ok(vs) => PackageResult(pkg, ecosystem, |vs|, vs, None)
      case Err(e) => PackageResult(pkg, ecosystem, 0, [], Some(e))
  }

  /** Every vulnerability recorded in an entry has its `details` cut to at most 800
      characters (or list items). */
  lemma EntryDetailsCapped(pkg: string, ecosystem: string, outcome: QueryOutcome)
    ensures var r := Entry(pkg, ecosystem, outcome);
            forall i :: 0 <= i < |r.vulnerabilities| ==>
              var d := r.vulnerabilities[i].details;
              (d.JString? && |d.s| <= DetailsLimit) || (d.JArray? && |d.items| <= DetailsLimit)
  {
    var r := Entry(pkg, ecosystem, outcome);
    if r.vulnerabilities != [] {
      var body := outcome.body;
      var items := body.fields["vulns"].items;
      forall i | 0 <= i < |r.vulnerabilities|
        ensures var d := r.vulnerabilities[i].details;
                (d.JString? && |d.s| <= DetailsLimit) || (d.JArray? && |d.items| <= DetailsLimit)
      {
        assert MapVulnerability(items[i]) == Ok(r.vulnerabilities[i]);
        assert r.vulnerabilities[i].details == MapDetails(Get(items[i].fields, "details")).value;
      }
    }
  }

  /** `query_osv_bulk`: one result per package, in input order; `outcomes[i]` is what the
      query for `packages[i]` gave, and entry i depends on nothing else. */
  method QueryBulk(packages: seq<string>, ecosystem: string, outcomes: seq<QueryOutcome>)
    returns (results: seq<PackageResult>)
    requires |outcomes| == |packages|
    ensures |results| == |packages|
    ensures forall i :: 0 <= i < |packages| ==> results[i] == Entry(packages[i], ecosystem, outcomes[i])
  {
    results := [];
    for i := 0 to |packages|
      invariant |results| == i
      invariant forall j :: 0 <= j < i ==> results[j] == Entry(packages[j], ecosystem, outcomes[j])
    {
      var pkg := packages[i];
      var entry: PackageResult;
      match outcomes[i] {
        case Failure(message) =>
          entry := PackageResult(pkg, ecosystem, 0, [], Some(message));
        case Response(raw) =>
          var mapped := MapResponse(raw);
          if mapped.Ok? {
            entry := PackageResult(pkg, ecosystem, |mapped.value|, mapped.value, None);
          } else {
            entry := PackageResult(pkg, ecosystem, 0, [], Some(mapped.error));
          }
      }
      results := results + [entry];
    }
  }
}
