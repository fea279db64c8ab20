/** The older `Package` record of the core crate and its own copy of the bump rule. */
module CorePackage {
  import opened Text
  import opened UpdateTypes
  import Bump = NextVersion

  class Package {
    var name: string
    var version: string
    var path: string

    /** `Package::new`: the three fields as given. */
    constructor (name: string, version: string, path: string)
      ensures this.name == name && this.version == version && this.path == path
    {
      this.name := name;
      this.version := version;
      this.path := path;
    }

    /**
     * `Package::next_version`: the bumped form of the stored version; the
     * receiver is borrowed mutably but no field is written.
     */
    method NextVersion(t: UpdateType) returns (r: string)
      requires Bump.Bumpable(version, t)
      ensures r == Bump.Next(version, t)
      ensures |Split(r, '.')| == |Split(version, '.')|
    {
      var parts := Split(version, '.');
      var i := ComponentIndex(t);
      var n := ParseUsize(parts[i]).value;
      parts := parts[i := DecimalString(n + 1)];
      r := Join(parts, ".");
      Bump.NextBumpsComponent(version, t);
    }
  }
}
