/** Optional values, results and the errors the core reports. */
module Results {

  datatype Option<+T> = None | Some(value: T)

  /** A Go `(value, error)` pair: exactly one of the two is meaningful. */
  datatype Result<+T> = Ok(value: T) | Err(error: Error)

  /** The errors the modelled code returns. Wrapped errors (`%w`) keep their cause. */
  datatype Error =
    // manifest persistence
    | PathUnset
    // adding an entry
    | ProjectNotFound(slug: string, cause: Error)
    | CannotInferDest(projectType: string)
    | NoCompatibleVersionsFor(slug: string, gameVersion: string, loader: string)
    | UnknownProjectType(projectType: string, slug: string)
    // enable / disable / remove
    | NotInManifest(slug: string)
    | CannotResolveFile(slug: string, cause: Error)
    | FileNotFound(slug: string, path: string)
    | ToggleFailed(slug: string, cause: Error)
    | UnknownSection(section: string)
    | SlugNotInSection(slug: string, section: string)
    | SlugNotInAnySection(slug: string)
    | RemoveFailed(path: string)
    | MkdirFailed(path: string)
    // directory access
    | ReadDirFailed(dir: string)
    | ReadFailed(path: string)
    | RenameFailed(from: string, to: string)
    | NoChecksumMatch(hash: string, dir: string)
    // consistency check
    | SaveAfterHealFailed(cause: Error)
    | Mismatches(count: nat)
    // installer
    | UnknownDest(dest: string, slug: string)
    | NoCompatibleVersions(slug: string)
    | Sha1Mismatch(url: string, want: string, got: string)
    | NoFiles(versionId: string)
    // registry and network, outside the model
    | Network(message: string)
    // command-line validation
    | MultipleLoaders
    | LoaderRequired
    | MinecraftVersionRequired
    | NoSearchQuery
    | NoResults(query: string)
}
