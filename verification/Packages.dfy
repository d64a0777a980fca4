/** Manifests, dependencies and the world they are resolved in (`package.rs`). */
module Packages {
  import opened Wrappers

  datatype GitDependency = GitDependency(
    url: string, rev: Option<string>, tag: Option<string>, branch: Option<string>, reference: Option<string>)
  {
    /** The source text a manifest declares. */
    function LockSource(): string {
      "git:" + url +
      if rev.Some? then "#rev:" + rev.value
      else if tag.Some? then "#tag:" + tag.value
      else if branch.Some? then "#branch:" + branch.value
      else if reference.Some? then "#ref:" + reference.value
      else ""
    }

    /** The source text a lock entry records once the checkout has a revision. */
    function LockSourceWithRev(head: string): string {
      "git:" + url + "#rev:" + head
    }
  }

  datatype DependencySource = Registry | Path(path: string) | Git(git: GitDependency) {
    function LockSource(): string {
      match this
      case Registry => "registry"
      case Path(path) => "path:" + path
      case Git(git) => git.LockSource()
    }
  }

  datatype Dependency = Dependency(name: string, version: string, source: DependencySource)

  datatype Manifest = Manifest(
    root: string, name: string, version: string,
    language: string, compatibility: string, manifestSchema: nat,
    registryPath: Option<string>, dependencies: seq<Dependency>)

  /** Everything the tool asks of the file system, of git and of the environment.  The
      manifests found on disk arrive parsed; `None` stands for every way a load can fail. */
  datatype World = World(
    validate: Manifest -> bool,
    join: (string, string) -> string,
    canonical: string -> string,
    loadPath: string -> Option<Manifest>,
    envRegistry: Option<string>,
    resolveRegistry: (string, string, string) -> Option<(Manifest, string)>,
    loadGit: (string, Dependency) -> Option<(Manifest, string)>,
    sourceFiles: Manifest -> Option<seq<string>>)

  datatype LoadError = InvalidManifest | LoadFailed | IdentityMismatch | NoRegistry | NoSources

  /** `LocalRegistry::discover_for`. */
  function DiscoverRegistry(w: World, m: Manifest): Option<string> {
    if m.registryPath.Some? then Some(w.join(m.root, m.registryPath.value)) else w.envRegistry
  }

  /** `validate_dependency_manifest_identity`. */
  predicate IdentityMatches(d: Dependency, m: Manifest) {
    m.name == d.name && m.version == d.version
  }
}
