/**
 * `CSharpWorkspace` of the C# crate: a project that sits next to a
 * solution file. Its fields and operations are those of `CSharpPackage`,
 * and its version update follows the same specification.
 */
module CSharpWorkspaces {
  import opened Wrappers
  import opened UpdateTypes
  import opened Xml
  import opened XmlUtils
  import opened CSharpPackages
  import NextVersion
  import Paths

  class CSharpWorkspace {
    var name: Option<string>
    var version: Option<string>
    var path: Paths.Path
    var relativePath: Paths.Path
    var isChanged: bool
    var dependencies: set<string>

    /** `CSharpWorkspace::new`: the given fields, not changed, no dependencies. */
    constructor (name: Option<string>, version: Option<string>, path: Paths.Path, relativePath: Paths.Path)
      ensures this.name == name && this.version == version
      ensures this.path == path && this.relativePath == relativePath
      ensures !isChanged && dependencies == {}
    {
      this.name := name;
      this.version := version;
      this.path := path;
      this.relativePath := relativePath;
      isChanged := false;
      dependencies := {};
    }

    /**
     * `update_version`; `read` and `write` are the outcomes of reading and
     * writing the manifest file. The version is stored only once the
     * write has succeeded.
     */
    method UpdateVersion(t: UpdateType, read: Result<Manifest>, write: Result<()>) returns (r: Result<seq<Event>>)
      modifies this
      ensures r == UpdateOutcome(old(version), t, read, write)
      ensures version == if r.Ok? then Some(NextVersion.NewVersion(old(version), t).value) else old(version)
      ensures name == old(name) && path == old(path) && relativePath == old(relativePath)
      ensures isChanged == old(isChanged) && dependencies == old(dependencies)
    {
      var next := NextVersion.NewVersion(version, t);
      if next.Err? {
        return Err(next.error);
      }
      if read.Err? {
        return Err(read.error);
      }
      var hasVersion := version.Some?;
      var updated := UpdateVersionInXml(read.value.text, read.value.events, next.value, hasVersion);
      if updated.Err? {
        return Err(updated.error);
      }
      if write.Err? {
        return Err(write.error);
      }
      version := Some(next.value);
      r := Ok(updated.value);
    }

    method SetChanged(changed: bool)
      modifies this
      ensures isChanged == changed
      ensures name == old(name) && version == old(version) && path == old(path)
      ensures relativePath == old(relativePath) && dependencies == old(dependencies)
    {
      isChanged := changed;
    }

    /** `add_dependency`: set insertion, so adding a present name changes nothing. */
    method AddDependency(dependency: string)
      modifies this
      ensures dependencies == old(dependencies) + {dependency}
      ensures name == old(name) && version == old(version) && path == old(path)
      ensures relativePath == old(relativePath) && isChanged == old(isChanged)
    {
      dependencies := dependencies + {dependency};
    }
  }
}
