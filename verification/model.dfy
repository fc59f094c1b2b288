/** The data the compliance check works on: the calls a server advertises in its
    `serverinfo` manifest, the services a use case requires, and the verdict of
    checking one against the other. */
module Model {

  datatype Option<+T> = None | Some(value: T)

  /** One entry of the manifest's `calls` list: a service name together with the
      API versions and HTTP methods advertised for it. The same service name may
      appear in several entries. */
  datatype Call = Call(service: string, versions: seq<string>, methods: seq<string>)

  /** One element of a use case's `servicesRequired` list. */
  datatype ServiceRequired =
    ServiceRequired(serviceName: string, methodsRequired: seq<string>, versionRequired: string)

  /** Outcome of checking requirements against a manifest: success, or the reason the
      first failing requirement failed. */
  datatype Verdict =
    | Compliant
    | ServiceNotFound(service: string)
    | VersionMismatch(service: string, version: string)
    | MethodMismatch(service: string, missing: seq<string>)

  /** `have.containsAll(want)` on Java lists. */
  predicate ContainsAll(have: seq<string>, want: seq<string>)
  {
    forall m :: m in want ==> m in have
  }
}
