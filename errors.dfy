/** Everything the engine can throw, one constructor per distinct failure. */
module Errors {

  datatype Error =
    | NotFound(name: string)          // no migration has this version
    | MissingSchema(name: string)     // the migration declares no schema
    | MissingVersion(name: string)    // the migration has no version property
    | InvalidVersion(version: string) // `semver.compare` was handed something that is not a version
    | DuplicateEntry(version: string) // a conditional ledger create found the key taken
    | BodyFailed(message: string)     // an `up` or `down` body threw; the message is its own
    | ReferenceError(identifier: string) // evaluating an identifier that is not declared
}
