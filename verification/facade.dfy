/** The two public queries, `allUseCasesCompliant` and `isUseCaseCompliant`, over a
    catalog of applications and their use cases. The manifest fetch and the catalog
    load are given as their results: `None` stands for a fetch or load that failed. */
module Facade {
  import opened Model
  import opened Evaluator

  /** A use case: its name and its ordered `servicesRequired` list. */
  type UseCase = (string, seq<ServiceRequired>)

  /** Application name to its use cases, both in catalog order. */
  type Catalog = seq<(string, seq<UseCase>)>

  /** Result of a query; the Java methods return `Pass?`. */
  datatype CheckResult =
    | Pass
    | CatalogUnavailable
    | ApplicationNotFound(app: string)
    | UseCaseNotFound(app: string, useCase: string)
    | ManifestUnavailable
    | NonCompliant(useCase: string, reason: Verdict)

  /** The value stored under `key` in an ordered object; a parsed object has unique
      keys, so the first entry is the only one. */
  function Lookup<V(==)>(entries: seq<(string, V)>, key: string): (r: Option<V>)
    ensures r.None? <==> forall i :: 0 <= i < |entries| ==> entries[i].0 != key
    ensures r.Some? ==> exists i :: 0 <= i < |entries| && entries[i] == (key, r.value)
  {
    if entries == [] then None
    else if entries[0].0 == key then Some(entries[0].1)
    else
      var r := Lookup(entries[1..], key);
      if r.Some? then
        var i :| 0 <= i < |entries[1..]| && entries[1..][i] == (key, r.value);
        assert entries[i + 1] == (key, r.value);
        r
      else r
  }

  /** Every use case before position `k` is compliant. */
  predicate AllPassBefore(useCases: seq<UseCase>, calls: seq<Call>, k: int)
    requires k <= |useCases|
  {
    forall j :: 0 <= j < k ==> IsUseCaseValid(useCases[j].1, calls).Compliant?
  }

  lemma AllPassShift(useCases: seq<UseCase>, calls: seq<Call>, k: nat)
    requires 0 < |useCases| && k < |useCases|
    requires IsUseCaseValid(useCases[0].1, calls).Compliant? && AllPassBefore(useCases[1..], calls, k)
    ensures AllPassBefore(useCases, calls, k + 1)
  {
    forall j | 0 < j < k + 1
      ensures IsUseCaseValid(useCases[j].1, calls).Compliant?
    {
      assert useCases[j] == useCases[1..][j - 1];
    }
  }

  /** The `while` loop over an application's use cases, all against the same
      manifest, returning at the first non-compliant one. */
  function EvaluateEach(useCases: seq<UseCase>, calls: seq<Call>): (r: CheckResult)
    ensures r.Pass? || r.NonCompliant?
    ensures r.Pass? <==> AllPassBefore(useCases, calls, |useCases|)
    ensures r.NonCompliant? ==>
              exists k :: 0 <= k < |useCases| && AllPassBefore(useCases, calls, k)
                          && !IsUseCaseValid(useCases[k].1, calls).Compliant?
                          && r == NonCompliant(useCases[k].0, IsUseCaseValid(useCases[k].1, calls))
  {
    if useCases == [] then Pass
    else
      var v := IsUseCaseValid(useCases[0].1, calls);
      if !v.Compliant? then
        assert AllPassBefore(useCases, calls, 0);
        NonCompliant(useCases[0].0, v)
      else
        var r := EvaluateEach(useCases[1..], calls);
        if r.NonCompliant? then
          var k :| 0 <= k < |useCases[1..]| && AllPassBefore(useCases[1..], calls, k)
                   && !IsUseCaseValid(useCases[1..][k].1, calls).Compliant?
                   && r == NonCompliant(useCases[1..][k].0, IsUseCaseValid(useCases[1..][k].1, calls));
          AllPassShift(useCases, calls, k);
          assert useCases[1..][k] == useCases[k + 1];
          r
        else
          AllPassShift(useCases, calls, |useCases| - 1);
          r
  }

  /** Use cases after the first non-compliant one are never evaluated: replacing
      everything after it by anything leaves the result unchanged, and the result
      names that use case with its own verdict. */
  lemma {:induction false} LaterUseCasesNotEvaluated(useCases: seq<UseCase>, calls: seq<Call>, k: nat, rest: seq<UseCase>)
    requires k < |useCases| && AllPassBefore(useCases, calls, k)
    requires !IsUseCaseValid(useCases[k].1, calls).Compliant?
    ensures EvaluateEach(useCases[..k + 1] + rest, calls) == EvaluateEach(useCases, calls)
    ensures EvaluateEach(useCases, calls) == NonCompliant(useCases[k].0, IsUseCaseValid(useCases[k].1, calls))
  {
    var front := useCases[..k + 1] + rest;
    assert front[0] == useCases[0];
    if k > 0 {
      assert IsUseCaseValid(useCases[0].1, calls).Compliant?;
      assert front[1..] == useCases[1..][..k] + rest;
      assert AllPassBefore(useCases[1..], calls, k - 1);
      LaterUseCasesNotEvaluated(useCases[1..], calls, k - 1, rest);
    }
  }

  /** `allUseCasesCompliant`. */
  function AllUseCasesCompliant(catalog: Option<Catalog>, appName: string, manifest: Option<seq<Call>>): (r: CheckResult)
    ensures catalog.None? ==> r == CatalogUnavailable
    ensures catalog.Some? && (forall i :: 0 <= i < |catalog.value| ==> catalog.value[i].0 != appName) ==>
              r == ApplicationNotFound(appName)
    ensures catalog.Some? && Lookup(catalog.value, appName) == Some([]) ==> r == ApplicationNotFound(appName)
    ensures r == ManifestUnavailable ==> manifest.None?
    ensures r.Pass? <==>
              && catalog.Some? && manifest.Some?
              && Lookup(catalog.value, appName).Some? && Lookup(catalog.value, appName).value != []
              && forall i :: 0 <= i < |Lookup(catalog.value, appName).value| ==>
                   IsUseCaseValid(Lookup(catalog.value, appName).value[i].1, manifest.value).Compliant?
    ensures catalog.Some? && Lookup(catalog.value, appName).Some? && Lookup(catalog.value, appName).value != [] ==>
              && (manifest.None? ==> r == ManifestUnavailable)
              && (manifest.Some? ==> r == EvaluateEach(Lookup(catalog.value, appName).value, manifest.value))
  {
    match catalog
    case None => CatalogUnavailable
    case Some(cat) =>
      match Lookup(cat, appName)
      case None => ApplicationNotFound(appName)
      case Some(useCases) =>
        if useCases == [] then ApplicationNotFound(appName)
        else
          match manifest
          case None => ManifestUnavailable
          case Some(calls) => EvaluateEach(useCases, calls)
  }

  /** `isUseCaseCompliant`, with the use-case lookup checked on the looked-up use
      case (see `UseCaseGuardAsWritten` for the check as the Java code states it). */
  function IsUseCaseCompliant(catalog: Option<Catalog>, appName: string, useCaseName: string,
                              manifest: Option<seq<Call>>): (r: CheckResult)
    ensures catalog.None? ==> r == CatalogUnavailable
    ensures catalog.Some? && (forall i :: 0 <= i < |catalog.value| ==> catalog.value[i].0 != appName) ==>
              r == ApplicationNotFound(appName)
    ensures catalog.Some? && Lookup(catalog.value, appName) == Some([]) ==> r == ApplicationNotFound(appName)
    ensures catalog.Some? && Lookup(catalog.value, appName).Some? && Lookup(catalog.value, appName).value != []
            && (forall i :: 0 <= i < |Lookup(catalog.value, appName).value| ==>
                  Lookup(catalog.value, appName).value[i].0 != useCaseName) ==>
              r == UseCaseNotFound(appName, useCaseName)
    ensures r == ManifestUnavailable ==> manifest.None?
    ensures r.Pass? || r.NonCompliant? ==>
              && catalog.Some? && manifest.Some? && Lookup(catalog.value, appName).Some?
              && Lookup(Lookup(catalog.value, appName).value, useCaseName).Some?
              && var v := IsUseCaseValid(Lookup(Lookup(catalog.value, appName).value, useCaseName).value, manifest.value);
                 (r.Pass? <==> v.Compliant?) && (r.NonCompliant? ==> r == NonCompliant(useCaseName, v))
    ensures catalog.Some? && Lookup(catalog.value, appName).Some? && Lookup(catalog.value, appName).value != []
            && Lookup(Lookup(catalog.value, appName).value, useCaseName).Some? ==>
              && (manifest.None? ==> r == ManifestUnavailable)
              && (manifest.Some? ==>
                    var v := IsUseCaseValid(Lookup(Lookup(catalog.value, appName).value, useCaseName).value, manifest.value);
                    r == if v.Compliant? then Pass else NonCompliant(useCaseName, v))
  {
    match catalog
    case None => CatalogUnavailable
    case Some(cat) =>
      match Lookup(cat, appName)
      case None => ApplicationNotFound(appName)
      case Some(useCases) =>
        if useCases == [] then ApplicationNotFound(appName)
        else
          match Lookup(useCases, useCaseName)
          case None => UseCaseNotFound(appName, useCaseName)
          case Some(reqs) =>
            match manifest
            case None => ManifestUnavailable
            case Some(calls) =>
              var v := IsUseCaseValid(reqs, calls);
              if v.Compliant? then Pass else NonCompliant(useCaseName, v)
  }

  /** The use-case check of `isUseCaseCompliant` as the Java code writes it:
      `appUseCase == null || appUseCases.isEmpty()`. `path` never yields null, so the
      first disjunct is false, and the second tests the application's use cases, not
      the one looked up; the use-case name plays no part. */
  predicate UseCaseGuardAsWritten(appUseCases: seq<UseCase>, useCaseName: string)
  {
    |appUseCases| == 0
  }

  /** Once the application has use cases, the guard as written lets every unknown
      use-case name through, while the lookup finds nothing for it. */
  lemma UseCaseGuardAsWrittenMissesUnknownName(appUseCases: seq<UseCase>, useCaseName: string)
    requires appUseCases != []
    requires forall i :: 0 <= i < |appUseCases| ==> appUseCases[i].0 != useCaseName
    ensures !UseCaseGuardAsWritten(appUseCases, useCaseName)
    ensures Lookup(appUseCases, useCaseName).None?
  {
  }
}
