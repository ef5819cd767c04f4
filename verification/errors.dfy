/** The fatal errors of a localization run, one per `?`/`context` site of the modelled code. */
module Errors {
  import opened Paths

  datatype Error =
    | RegistryNotFound                          // no candidate registry directory exists
    | NoResolveData                             // the metadata carries no resolve graph
    | PackageNotInMetadata(id: string)          // a resolve node's id is missing from the package list
    | RegistryReadFailed                        // reading the registry listing or walking a registry failed
    | CrateNotFound(name: string, version: string) // no `name-version` directory in the registry
    | CopyFailed(source: Path)                  // the recursive copy of a located source failed
    | RelativePathFailed                        // no relative path from a manifest to a vendored crate
}
