/** The compliance evaluator `isUseCaseValid`: checks an ordered list of required
    services against the advertised calls and reports the first failure. */
module Evaluator {
  import opened Model
  import opened Grouping

  /** The required methods the advertised list lacks, in the order they are required. */
  function MissingMethods(advertised: seq<string>, required: seq<string>): (missing: seq<string>)
    ensures forall m :: m in missing <==> m in required && m !in advertised
    ensures missing == [] <==> ContainsAll(advertised, required)
  {
    if required == [] then []
    else (if required[0] in advertised then [] else [required[0]]) + MissingMethods(advertised, required[1..])
  }

  /** One pass of the loop body against the grouped manifest: look up the group,
      take its first entry, check the version, then the methods. `Compliant` means
      the loop goes on to the next requirement. */
  function CheckOne(req: ServiceRequired, groups: map<string, seq<Call>>): Verdict
  {
    if req.serviceName !in groups || groups[req.serviceName] == [] then
      ServiceNotFound(req.serviceName)
    else
      var call := groups[req.serviceName][0];
      if req.versionRequired !in call.versions then
        VersionMismatch(req.serviceName, req.versionRequired)
      else if !ContainsAll(call.methods, req.methodsRequired) then
        MethodMismatch(req.serviceName, MissingMethods(call.methods, req.methodsRequired))
      else
        Compliant
  }

  /** The `for` loop over the requirements, returning at the first failure. */
  function EvaluateGrouped(reqs: seq<ServiceRequired>, groups: map<string, seq<Call>>): Verdict
  {
    if reqs == [] then Compliant
    else
      var v := CheckOne(reqs[0], groups);
      if !v.Compliant? then v else EvaluateGrouped(reqs[1..], groups)
  }

  /** An advertised call satisfies a requirement when it lists the required version
      and every required method. */
  predicate Satisfies(call: Call, req: ServiceRequired)
  {
    req.versionRequired in call.versions && ContainsAll(call.methods, req.methodsRequired)
  }

  /** A requirement is met by a manifest when the FIRST call advertised under its
      service name satisfies it; later calls of the same name are not consulted. */
  predicate Met(req: ServiceRequired, calls: seq<Call>)
  {
    FirstMatch(calls, req.serviceName).Some? && Satisfies(FirstMatch(calls, req.serviceName).value, req)
  }

  /** The verdict for a single requirement, stated directly on the manifest
      through its first match rather than through the grouping. */
  function Diagnose(req: ServiceRequired, calls: seq<Call>): (v: Verdict)
    ensures v.Compliant? <==> Met(req, calls)
    ensures v.ServiceNotFound? <==> !Advertises(calls, req.serviceName)
    ensures v.ServiceNotFound? ==> v == ServiceNotFound(req.serviceName)
    ensures v.VersionMismatch? ==> v == VersionMismatch(req.serviceName, req.versionRequired)
    ensures v.MethodMismatch? ==> v.service == req.serviceName && v.missing != []
  {
    match FirstMatch(calls, req.serviceName)
    case None => ServiceNotFound(req.serviceName)
    case Some(call) =>
      if req.versionRequired !in call.versions then
        VersionMismatch(req.serviceName, req.versionRequired)
      else if !ContainsAll(call.methods, req.methodsRequired) then
        MethodMismatch(req.serviceName, MissingMethods(call.methods, req.methodsRequired))
      else
        Compliant
  }

  /** Checking one requirement against the grouped manifest agrees with checking
      it against the first match in the raw manifest. */
  lemma CheckOneAgrees(req: ServiceRequired, calls: seq<Call>)
    ensures CheckOne(req, GroupByService(calls)) == Diagnose(req, calls)
  {
    GroupHeadIsFirstMatch(calls, req.serviceName);
  }

  /** No requirement before position `k` fails. */
  predicate AllMetBefore(reqs: seq<ServiceRequired>, calls: seq<Call>, k: int)
    requires k <= |reqs|
  {
    forall j :: 0 <= j < k ==> Met(reqs[j], calls)
  }

  lemma AllMetBeforeTail(reqs: seq<ServiceRequired>, calls: seq<Call>, k: nat)
    requires 0 < k <= |reqs| && AllMetBefore(reqs, calls, k)
    ensures AllMetBefore(reqs[1..], calls, k - 1)
  {
    forall j | 0 <= j < k - 1 ensures Met(reqs[1..][j], calls) {
      assert reqs[1..][j] == reqs[j + 1];
    }
  }

  /** The loop over the grouped manifest succeeds exactly when every requirement
      is met by its first match. */
  lemma {:induction false} EvaluateGroupedCompliantIff(reqs: seq<ServiceRequired>, calls: seq<Call>)
    ensures EvaluateGrouped(reqs, GroupByService(calls)).Compliant? <==> AllMetBefore(reqs, calls, |reqs|)
  {
    if reqs != [] {
      CheckOneAgrees(reqs[0], calls);
      EvaluateGroupedCompliantIff(reqs[1..], calls);
      if AllMetBefore(reqs, calls, |reqs|) {
        AllMetBeforeTail(reqs, calls, |reqs|);
      } else if Met(reqs[0], calls) {
        var j :| 0 <= j < |reqs| && !Met(reqs[j], calls);
        assert reqs[1..][j - 1] == reqs[j];
      }
    }
  }

  /** The loop over the grouped manifest stops at the first unmet requirement and
      reports its diagnosis. */
  lemma {:induction false} EvaluateGroupedFirstUnmet(reqs: seq<ServiceRequired>, calls: seq<Call>, k: nat)
    requires k < |reqs| && AllMetBefore(reqs, calls, k) && !Met(reqs[k], calls)
    ensures EvaluateGrouped(reqs, GroupByService(calls)) == Diagnose(reqs[k], calls)
  {
    CheckOneAgrees(reqs[0], calls);
    if k > 0 {
      AllMetBeforeTail(reqs, calls, k);
      assert reqs[1..][k - 1] == reqs[k];
      EvaluateGroupedFirstUnmet(reqs[1..], calls, k - 1);
    }
  }

  /** `isUseCaseValid`. An empty requirement list is compliant; the result is
      compliant exactly when every requirement is met by the first call advertised
      under its name. */
  function IsUseCaseValid(reqs: seq<ServiceRequired>, calls: seq<Call>): (v: Verdict)
    ensures reqs == [] ==> v == Compliant
    ensures v.Compliant? <==> forall i :: 0 <= i < |reqs| ==> Met(reqs[i], calls)
  {
    EvaluateGroupedCompliantIff(reqs, calls);
    EvaluateGrouped(reqs, GroupByService(calls))
  }

  /** On failure the verdict belongs to the first unmet requirement in list order:
      if requirement k is the first unmet one, the verdict is its diagnosis,
      whatever the later requirements are. */
  lemma FirstUnmetDecides(reqs: seq<ServiceRequired>, calls: seq<Call>, k: nat)
    requires k < |reqs| && AllMetBefore(reqs, calls, k) && !Met(reqs[k], calls)
    ensures IsUseCaseValid(reqs, calls) == Diagnose(reqs[k], calls)
  {
    EvaluateGroupedFirstUnmet(reqs, calls, k);
  }

  /** When the first unmet requirement names a service no call advertises, the
      verdict is `ServiceNotFound` for exactly that name. */
  lemma AbsentServiceReported(reqs: seq<ServiceRequired>, calls: seq<Call>, k: nat)
    requires k < |reqs| && AllMetBefore(reqs, calls, k)
    requires forall c :: c in calls ==> c.service != reqs[k].serviceName
    ensures IsUseCaseValid(reqs, calls) == ServiceNotFound(reqs[k].serviceName)
  {
    AdvertisesIff(calls, reqs[k].serviceName);
    FirstUnmetDecides(reqs, calls, k);
  }

  /** When the first call advertised under the service lacks the required version,
      the verdict is `VersionMismatch`, whatever later calls of that name offer. */
  lemma FirstEntryMasksLaterEntries(reqs: seq<ServiceRequired>, calls: seq<Call>, k: nat, i: nat)
    requires k < |reqs| && AllMetBefore(reqs, calls, k)
    requires i < |calls| && calls[i].service == reqs[k].serviceName && NoneBefore(calls, reqs[k].serviceName, i)
    requires reqs[k].versionRequired !in calls[i].versions
    ensures IsUseCaseValid(reqs, calls) == VersionMismatch(reqs[k].serviceName, reqs[k].versionRequired)
  {
    FirstMatchIsFirstIndex(calls, reqs[k].serviceName, i);
    FirstUnmetDecides(reqs, calls, k);
  }

  /** When the first call advertised under the service has the version but not all
      the methods, the verdict is `MethodMismatch`, listing exactly the required
      methods that call does not advertise. */
  lemma MissingMethodsReported(reqs: seq<ServiceRequired>, calls: seq<Call>, k: nat, i: nat)
    requires k < |reqs| && AllMetBefore(reqs, calls, k)
    requires i < |calls| && calls[i].service == reqs[k].serviceName && NoneBefore(calls, reqs[k].serviceName, i)
    requires reqs[k].versionRequired in calls[i].versions
    requires !ContainsAll(calls[i].methods, reqs[k].methodsRequired)
    ensures var v := IsUseCaseValid(reqs, calls);
            && v.MethodMismatch? && v.service == reqs[k].serviceName
            && forall m :: m in v.missing <==> m in reqs[k].methodsRequired && m !in calls[i].methods
  {
    FirstMatchIsFirstIndex(calls, reqs[k].serviceName, i);
    FirstUnmetDecides(reqs, calls, k);
  }

  /** Appending calls whose service names the manifest already advertises never
      changes the verdict: only the first call of each name is consulted. */
  lemma {:induction false} AppendKnownServicesKeepsVerdict(reqs: seq<ServiceRequired>, calls: seq<Call>, extra: seq<Call>)
    requires forall c :: c in extra ==> Advertises(calls, c.service)
    ensures IsUseCaseValid(reqs, calls + extra) == IsUseCaseValid(reqs, calls)
  {
    if reqs != [] {
      var name := reqs[0].serviceName;
      if Advertises(calls, name) {
        FirstMatchAppend(calls, extra, name);
      } else {
        AdvertisesAppend(calls, extra, name);
        AdvertisesIff(extra, name);
        forall i | 0 <= i < |extra| ensures extra[i].service != name {
          assert extra[i] in extra;
        }
      }
      assert Diagnose(reqs[0], calls + extra) == Diagnose(reqs[0], calls);
      CheckOneAgrees(reqs[0], calls + extra);
      CheckOneAgrees(reqs[0], calls);
      AppendKnownServicesKeepsVerdict(reqs[1..], calls, extra);
    }
  }
}
