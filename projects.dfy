/** The view of a discovered project that version bumping, ordering and publishing use. */
module Projects {
  import opened Wrappers
  import opened Languages

  /**
   * A package or workspace as the project enumeration hands it out: its name
   * and version from the manifest, the manifest's absolute path and its path
   * relative to the repository root, its ecosystem, whether it has
   * uncommitted changes, and the dependency strings it records (relative
   * paths or names of other projects).
   */
  datatype Project = Project(
    name: Option<string>,
    version: Option<string>,
    path: string,
    relativePath: string,
    language: Language,
    changed: bool,
    dependencies: set<string>)
}
