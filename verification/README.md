# use-caseinator compliance evaluator in Dafny

This project models the decision logic of the BrAPI use-case checker. A BrAPI server
advertises its services in the `result.calls` list of its `/v2/serverinfo` manifest.
Each call has a service name, the API versions it supports and the HTTP methods it
supports. A client application ("BrApp") declares use cases. Each use case is an ordered
list of required services, and each required service names one version and a list of
methods. The checker says whether a use case, or every use case of an application, is
satisfied by the manifest.

Files:

- `model.dfy` (module `Model`): `Call`, `ServiceRequired`, the `Verdict` of an
  evaluation, and Java's `containsAll` on lists.
- `grouping.dfy` (module `Grouping`): `groupingBy(Call::getService)` as a left fold that
  keeps manifest order inside each group. Also an independent left-to-right first-match
  scan, proved to agree with the head of the group.
- `evaluator.dfy` (module `Evaluator`): `isUseCaseValid`. The Java loop body becomes
  `CheckOne` and the loop becomes `EvaluateGrouped`. Both are related to a
  grouping-free reference, `Met`/`Diagnose`, which is stated on the first match.
- `facade.dfy` (module `Facade`): `allUseCasesCompliant` and `isUseCaseCompliant` over
  an ordered catalog. A catalog that could not be read and a fetch that yielded no calls are `None`
  inputs.
- `scenarios.dfy` (module `Scenarios`): concrete manifests and catalogs evaluated by the
  model in proved lemmas.

The Java methods return a boolean and print a message. Here they return a `CheckResult`
or a `Verdict`, and the Java boolean is `Pass?` or `Compliant?`. The three printed
reasons of `isUseCaseValid` become `ServiceNotFound(name)`, `VersionMismatch(name, version)`
and `MethodMismatch(name, missing)`. `missing` lists the required methods that the
consulted call does not advertise.

Where the Java code crashes, the model returns a named outcome instead:

- A manifest fetch that yields no call list makes `getServerInfoCalls` return `null`:
  the transport error caught at :50, or a response without `result.calls` at :55. That `null` is first
  dereferenced when `isUseCaseValid` streams it. The model therefore reports
  `ManifestUnavailable` at exactly that point. This is after the application and
  use-case checks, and only when some use case is about to be evaluated. A failed fetch
  is never treated as an empty manifest.
- An `IOException` while reading `useCases.json` (:65-69) leaves `loadUseCases` returning
  `null`, and the Java code then fails at `useCases.path(...)`. The model reports
  `CatalogUnavailable`.

## Model

| member | source | states |
|---|---|---|
| `Grouping.AdvertisesIff` | src/main/java/org/brapi/useCaseChecker/UseCaseChecker.java:137-139 | a service name is advertised exactly when some position of the manifest holds a call with that name |
| `Grouping.CallsFor` | src/main/java/org/brapi/useCaseChecker/UseCaseChecker.java:133-134 | the group for a name is empty exactly when no advertised call has that name |
| `Grouping.CallsForContents` | src/main/java/org/brapi/useCaseChecker/UseCaseChecker.java:133-134 | every call in a name's group is advertised under that name, and the group takes each call at most as often as the manifest lists it |
| `Grouping.GroupByService` | src/main/java/org/brapi/useCaseChecker/UseCaseChecker.java:133-134 | grouping has a key exactly for each advertised service name, and each group is exactly that name's calls in manifest order |
| `Grouping.FirstMatch` | src/main/java/org/brapi/useCaseChecker/UseCaseChecker.java:147 | the first-match lookup is absent exactly when the name is not advertised, and otherwise returns a call of that name |
| `Grouping.FirstMatchIsFirstIndex` | src/main/java/org/brapi/useCaseChecker/UseCaseChecker.java:147 | the first match is the call at the first position of the manifest that has the name |
| `Grouping.GroupHeadIsFirstMatch` | src/main/java/org/brapi/useCaseChecker/UseCaseChecker.java:133-147 | the group exists exactly when a first match exists; the group is then non-empty and its `getFirst` entry is the first call of that name in the manifest |
| `Grouping.FirstMatchAppend` | src/main/java/org/brapi/useCaseChecker/UseCaseChecker.java:133-147 | appending calls to the manifest does not change the first match of a name the manifest already advertises |
| `Evaluator.MissingMethods` | src/main/java/org/brapi/useCaseChecker/UseCaseChecker.java:157-163 | the missing list contains exactly the required methods the call does not advertise, and it is empty exactly when `containsAll` holds |
| `Evaluator.Diagnose` | src/main/java/org/brapi/useCaseChecker/UseCaseChecker.java:137-163 | one requirement is compliant exactly when it is met by the first match; `ServiceNotFound` for its own name occurs exactly when no call has that name; a version mismatch carries the required name and version; a method mismatch names the service and a non-empty missing list |
| `Model.ContainsAll` | src/main/java/org/brapi/useCaseChecker/UseCaseChecker.java:157 | `containsAll` on the Java lists as sequence membership; it has no contract of its own and is characterized by `Evaluator.MissingMethods`, whose list is empty exactly when it holds |
| `Evaluator.CheckOne` | src/main/java/org/brapi/useCaseChecker/UseCaseChecker.java:137-163 | the loop body on the grouped map (lookup, `getFirst`, version test, then method test); it has no contract of its own and is characterized by `Evaluator.CheckOneAgrees` |
| `Evaluator.EvaluateGrouped` | src/main/java/org/brapi/useCaseChecker/UseCaseChecker.java:136-166 | the `for` loop returning at the first failure; it has no contract of its own and is characterized by `Evaluator.EvaluateGroupedCompliantIff` and `Evaluator.EvaluateGroupedFirstUnmet` |
| `Evaluator.CheckOneAgrees` | src/main/java/org/brapi/useCaseChecker/UseCaseChecker.java:137-163 | the loop body over the grouped manifest gives the same verdict as the grouping-free diagnosis on the first match |
| `Evaluator.EvaluateGroupedCompliantIff` | src/main/java/org/brapi/useCaseChecker/UseCaseChecker.java:136-166 | the loop over the requirements runs to `return true` exactly when every requirement is met by its first match |
| `Evaluator.EvaluateGroupedFirstUnmet` | src/main/java/org/brapi/useCaseChecker/UseCaseChecker.java:136-166 | the loop stops at the first unmet requirement and reports its diagnosis |
| `Evaluator.IsUseCaseValid` | src/main/java/org/brapi/useCaseChecker/UseCaseChecker.java:132-167 | an empty requirement list is compliant; the result is compliant exactly when every requirement's first match has the version and all the methods |
| `Evaluator.FirstUnmetDecides` | src/main/java/org/brapi/useCaseChecker/UseCaseChecker.java:136-166 | if requirement k is the first unmet one in list order, the verdict is its diagnosis, whatever the later requirements are |
| `Evaluator.AbsentServiceReported` | src/main/java/org/brapi/useCaseChecker/UseCaseChecker.java:137-145 | if the first unmet requirement names a service no call advertises, the verdict is `ServiceNotFound` for exactly that name |
| `Evaluator.FirstEntryMasksLaterEntries` | src/main/java/org/brapi/useCaseChecker/UseCaseChecker.java:147-155 | if the first call of the service lacks the required version, the verdict is `VersionMismatch`, whatever later calls of that name advertise |
| `Evaluator.MissingMethodsReported` | src/main/java/org/brapi/useCaseChecker/UseCaseChecker.java:157-163 | if the first call of the service has the version but not all the methods, the verdict is `MethodMismatch` for that service, listing exactly the required methods that call lacks |
| `Evaluator.AppendKnownServicesKeepsVerdict` | src/main/java/org/brapi/useCaseChecker/UseCaseChecker.java:133-147 | appending calls whose service names are already advertised never changes the verdict |
| `Facade.Lookup` | src/main/java/org/brapi/useCaseChecker/UseCaseChecker.java:110 | looking up a name in the catalog finds nothing exactly when no entry has that name; otherwise the value returned is one stored under that name |
| `Facade.EvaluateEach` | src/main/java/org/brapi/useCaseChecker/UseCaseChecker.java:87-101 | the loop over use cases passes exactly when every use case is compliant against the one manifest; otherwise it names a non-compliant use case, with that use case's verdict, all of whose predecessors are compliant |
| `Facade.LaterUseCasesNotEvaluated` | src/main/java/org/brapi/useCaseChecker/UseCaseChecker.java:87-101 | after the first non-compliant use case, replacing the remaining use cases by anything leaves the result unchanged, and the result reports that use case |
| `Facade.AllUseCasesCompliant` | src/main/java/org/brapi/useCaseChecker/UseCaseChecker.java:74-102 | an unknown application, or one with no use cases, is `ApplicationNotFound`; for an application with use cases, a missing manifest is `ManifestUnavailable` and otherwise the result is the use-case loop over that one manifest; the result passes exactly when catalog and manifest are available, the application has use cases, and each is compliant |
| `Facade.IsUseCaseCompliant` | src/main/java/org/brapi/useCaseChecker/UseCaseChecker.java:104-130 | an unknown or empty application is `ApplicationNotFound`; an unknown use case is `UseCaseNotFound`; for a known use case, a missing manifest is `ManifestUnavailable`, and with a manifest the result is `Pass` when the evaluator finds the use case compliant and otherwise `NonCompliant` carrying the evaluator's verdict |
| `Facade.UseCaseGuardAsWritten` | src/main/java/org/brapi/useCaseChecker/UseCaseChecker.java:120 | the use-case guard as the Java code writes it, which ignores the use-case name; it has no contract of its own and is characterized by `Facade.UseCaseGuardAsWrittenMissesUnknownName` |
| `Facade.UseCaseGuardAsWrittenMissesUnknownName` | src/main/java/org/brapi/useCaseChecker/UseCaseChecker.java:118-123 | the use-case guard as written does not fire for an unknown use-case name once the application has use cases, although the lookup finds nothing |
| `Scenarios.RequirementMetByManifest` | src/main/java/org/brapi/useCaseChecker/UseCaseChecker.java:132-167 | Germplasm 2.1 with GET against a manifest advertising Germplasm 2.1 with GET and POST is compliant |
| `Scenarios.WrongVersionReported` | src/main/java/org/brapi/useCaseChecker/UseCaseChecker.java:149-155 | requiring Germplasm 2.0 from that manifest gives `VersionMismatch("Germplasm", "2.0")` |
| `Scenarios.MissingDeleteReported` | src/main/java/org/brapi/useCaseChecker/UseCaseChecker.java:157-163 | requiring GET and DELETE from that manifest gives `MethodMismatch("Germplasm", ["DELETE"])` |
| `Scenarios.AbsentPedigreeReported` | src/main/java/org/brapi/useCaseChecker/UseCaseChecker.java:137-145 | requiring Pedigree from that manifest gives `ServiceNotFound("Pedigree")` |
| `Scenarios.EarlierEntryMasksCompatibleOne` | src/main/java/org/brapi/useCaseChecker/UseCaseChecker.java:147-155 | a Germplasm 2.0 entry listed before a Germplasm 2.1 entry makes a 2.1 requirement fail with `VersionMismatch` |
| `Scenarios.UnknownApplicationReported` | src/main/java/org/brapi/useCaseChecker/UseCaseChecker.java:79-85 | an application name absent from the catalog gives `ApplicationNotFound` |
| `Scenarios.SecondOfThreeUseCasesReported` | src/main/java/org/brapi/useCaseChecker/UseCaseChecker.java:87-101 | with three use cases where the second and third fail, the second is reported |

## Left out

- Manifest fetching (`getServerInfoCalls`, UseCaseChecker.java:35-58) and `JsonNodeBodyHandler.java` are left out. They are HTTP I/O and Jackson parsing. The manifest is an input `Option<seq<Call>>`. `None` stands for a fetch that yields no call list: the `null` returned at :50, or a missing `result.calls` converted at :55.
- A `result.calls` of the wrong shape is left out. The `convertValue` at UseCaseChecker.java:55 lies outside the `try` of :39-51, so such a manifest makes `getServerInfoCalls` throw rather than return `null`. The model has no outcome for that exception.
- Catalog loading (`loadUseCases`, :60-72) and Jackson tree navigation (`path`, `convertValue`) are left out. The catalog is an ordered list of (application, ordered list of (use case, requirements)). A parsed JSON object has unique keys, so a lookup takes the first entry. The catalog type itself does not forbid duplicate keys, and the façade lemmas also range over such catalogs. No Java state corresponds to them. On them, `AllUseCasesCompliant` iterates every entry, while `IsUseCaseCompliant` consults only the first entry of a name. A missing `servicesRequired` field, JSON values of the wrong shape and Jackson's missing-node conversions are not modelled.
- `null` fields inside the records are not modelled. In the Java code each behaves differently:
  - a `null` `Call.service` throws in `groupingBy` (UseCaseChecker.java:134);
  - a `null` `versions` or `methods` list of a `Call` throws at :149 or :157;
  - a `null` `methodsRequired` throws in `containsAll` (:157);
  - a `null` required `serviceName` or `versionRequired` makes the check return false through :139 or :149.
- Catalog load failures that throw out of `loadUseCases` are left out. For example, a missing `useCases.json` gives a null stream at :61, and `readTree` rejects it with an unchecked exception that the `catch` at :67 does not handle. The model has no outcome for these; its `None` catalog stands only for the `IOException` case.
- Console output from `printf`/`println` is replaced by the structured `Verdict` and `CheckResult` values. The server URL in the messages is not carried.
- The `ServiceRequired` getters and setters are left out. Only the three fields are modelled.
- `Call.java` is not part of this model. Its fields `service`, `versions` and `methods` are inferred from their uses at UseCaseChecker.java:134, :149 and :157.
- Facade.IsUseCaseCompliant: for an unknown use-case name it returns `UseCaseNotFound`. The Java guard at :120 cannot detect that case (see Findings). What the Java code then does depends on Jackson converting a missing node, which is not modelled.
- Facade.AllUseCasesCompliant: returns `CatalogUnavailable` and `ManifestUnavailable` where the Java code throws a `NullPointerException`. The Java method then returns no boolean at all.

## Findings

| source | as written | input that shows it | evidently intended | confidence | as-written member | corrected member |
|---|---|---|---|---|---|---|
| src/main/java/org/brapi/useCaseChecker/UseCaseChecker.java:118-123 | the guard tests `appUseCase == null \|\| appUseCases.isEmpty()`. `path` never returns null, and `appUseCases` was already found non-empty at :112, so the guard never fires | an application with one use case "Browse", queried for use case "Edit" | report that the use case does not exist when the application has no use case of that name | high (not executed) | `Facade.UseCaseGuardAsWrittenMissesUnknownName` | `Facade.IsUseCaseCompliant` |
