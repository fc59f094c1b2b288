/** Concrete cases of the evaluator and the façade on a small manifest and catalog. */
module Scenarios {
  import opened Model
  import opened Grouping
  import opened Evaluator
  import opened Facade

  function GermplasmManifest(): seq<Call>
  {
    [Call("Germplasm", ["2.1"], ["GET", "POST"])]
  }

  lemma RequirementMetByManifest()
    ensures IsUseCaseValid([ServiceRequired("Germplasm", ["GET"], "2.1")], GermplasmManifest()) == Compliant
  {
    assert Met(ServiceRequired("Germplasm", ["GET"], "2.1"), GermplasmManifest());
  }

  lemma WrongVersionReported()
    ensures IsUseCaseValid([ServiceRequired("Germplasm", ["GET"], "2.0")], GermplasmManifest())
            == VersionMismatch("Germplasm", "2.0")
  {
    FirstEntryMasksLaterEntries([ServiceRequired("Germplasm", ["GET"], "2.0")], GermplasmManifest(), 0, 0);
  }

  lemma MissingDeleteReported()
    ensures IsUseCaseValid([ServiceRequired("Germplasm", ["GET", "DELETE"], "2.1")], GermplasmManifest())
            == MethodMismatch("Germplasm", ["DELETE"])
  {
    var req := ServiceRequired("Germplasm", ["GET", "DELETE"], "2.1");
    assert "DELETE" !in GermplasmManifest()[0].methods;
    FirstUnmetDecides([req], GermplasmManifest(), 0);
    assert MissingMethods(["GET", "POST"], ["GET", "DELETE"]) == ["DELETE"];
  }

  lemma AbsentPedigreeReported()
    ensures IsUseCaseValid([ServiceRequired("Pedigree", ["GET"], "2.1")], GermplasmManifest())
            == ServiceNotFound("Pedigree")
  {
    AbsentServiceReported([ServiceRequired("Pedigree", ["GET"], "2.1")], GermplasmManifest(), 0);
  }

  /** The first Germplasm entry lacks 2.1, the second has it: the first one decides. */
  lemma EarlierEntryMasksCompatibleOne()
    ensures IsUseCaseValid([ServiceRequired("Germplasm", ["GET"], "2.1")],
                           [Call("Germplasm", ["2.0"], ["GET"]), Call("Germplasm", ["2.1"], ["GET"])])
            == VersionMismatch("Germplasm", "2.1")
  {
    FirstEntryMasksLaterEntries([ServiceRequired("Germplasm", ["GET"], "2.1")],
                                [Call("Germplasm", ["2.0"], ["GET"]), Call("Germplasm", ["2.1"], ["GET"])], 0, 0);
  }

  lemma UnknownApplicationReported()
    ensures AllUseCasesCompliant(Some([("BreedingApp", [("Search", [])])]), "OtherApp", Some(GermplasmManifest()))
            == ApplicationNotFound("OtherApp")
  {
  }

  /** Three use cases, the second and third failing: the second is reported. */
  lemma SecondOfThreeUseCasesReported()
    ensures AllUseCasesCompliant(
              Some([("BreedingApp", [("Browse", [ServiceRequired("Germplasm", ["GET"], "2.1")]),
                                     ("Pedigree", [ServiceRequired("Pedigree", ["GET"], "2.1")]),
                                     ("Edit", [ServiceRequired("Germplasm", ["PUT"], "2.1")])])]),
              "BreedingApp", Some(GermplasmManifest()))
            == NonCompliant("Pedigree", ServiceNotFound("Pedigree"))
  {
    var ucs: seq<UseCase> := [("Browse", [ServiceRequired("Germplasm", ["GET"], "2.1")]),
                              ("Pedigree", [ServiceRequired("Pedigree", ["GET"], "2.1")]),
                              ("Edit", [ServiceRequired("Germplasm", ["PUT"], "2.1")])];
    RequirementMetByManifest();
    AbsentPedigreeReported();
    assert AllPassBefore(ucs, GermplasmManifest(), 1);
    LaterUseCasesNotEvaluated(ucs, GermplasmManifest(), 1, []);
  }
}
