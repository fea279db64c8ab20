/**
 * `PythonWorkspace` of the Python crate: a uv workspace whose version is
 * `project.version` in `pyproject.toml`. The toml_edit document is kept
 * abstract: a tree of tables and values, with parsing and printing given
 * as a `TomlCodec`. The update sets `project.version`, creating the
 * `[project]` table when there is none, and then fixes up the end of the
 * printed file.
 */
module PythonWorkspaces {
  import opened Wrappers
  import opened Text
  import opened UpdateTypes
  import NextVersion
  import Paths

  const PublishCommand: string := "uv publish"

  /** A toml_edit item: a table (standard or inline, both index like one) or any other value. */
  datatype Item = Table(entries: map<string, Item>) | Value(text: string)

  /** A parsed document: its root table. */
  datatype Document = Document(root: map<string, Item>)

  /** `parse::<DocumentMut>` and `DocumentMut::to_string` (`render`), which the model does not open up. */
  datatype TomlCodec = TomlCodec(parse: string -> Result<Document>, render: Document -> string)

  /**
   * `doc["project"]["version"] = next`, after a missing `project` has been
   * set to an empty table. Indexing into a `project` that is not table-like
   * (neither a table nor an inline table) panics in toml_edit; the model
   * reports that as an error. `parse` is expected to give an inline table
   * as a `Table`.
   */
  function SetProjectVersion(doc: Document, next: string): (r: Result<Document>)
    ensures r.Err? <==> "project" in doc.root && !doc.root["project"].Table?
    ensures r.Ok? ==> "project" in r.value.root && r.value.root["project"].Table?
    ensures r.Ok? ==> "version" in r.value.root["project"].entries && r.value.root["project"].entries["version"] == Value(next)
    ensures r.Ok? ==> forall k :: k in r.value.root && k != "project" ==> k in doc.root && r.value.root[k] == doc.root[k]
    ensures r.Ok? ==> forall k :: k in doc.root ==> k in r.value.root
  {
    var project := if "project" in doc.root then doc.root["project"] else Table(map[]);
    if project.Table? then
      Ok(Document(doc.root["project" := Table(project.entries["version" := Value(next)])]))
    else
      Err("project is not a table")
  }

  /** Besides `version`, the `project` table keeps its entries, and a created one holds only the version. */
  lemma SetKeepsProjectEntries(doc: Document, next: string)
    requires SetProjectVersion(doc, next).Ok?
    ensures var project := SetProjectVersion(doc, next).value.root["project"].entries;
      "project" in doc.root ==>
        project.Keys == doc.root["project"].entries.Keys + {"version"}
        && forall k :: k in doc.root["project"].entries && k != "version" ==> project[k] == doc.root["project"].entries[k]
    ensures "project" !in doc.root ==> SetProjectVersion(doc, next).value.root["project"] == Table(map["version" := Value(next)])
  {
  }

  /**
   * The text written back: the printed document without trailing white
   * space, and one "\n" again when the file read ended with one.
   */
  function FinishText(printed: string, raw: string): (out: string)
    ensures EndsWith(out, "\n") <==> EndsWith(raw, "\n")
    ensures EndsWith(raw, "\n") ==> (|out| == 1 || !IsWhitespace(out[|out| - 2]))
    ensures !EndsWith(raw, "\n") ==> out == [] || !IsWhitespace(out[|out| - 1])
  {
    TrimEnd(printed) + if EndsWith(raw, "\n") then "\n" else ""
  }

  /** The trailing white space dropped is all the printed text loses. */
  lemma FinishKeepsBody(printed: string, raw: string)
    ensures var body := TrimEnd(printed);
      FinishText(printed, raw) == body + (if EndsWith(raw, "\n") then "\n" else "")
      && printed == body + printed[|body|..]
      && forall i :: |body| <= i < |printed| ==> IsWhitespace(printed[i])
  {
  }

  /**
   * The specification of `update_version`: the text written to
   * `pyproject.toml`, or the first error among the bump, the read, the
   * parse, the edit and the write.
   */
  function UpdateOutcome(version: Option<string>, t: UpdateType, codec: TomlCodec,
                         read: Result<string>, write: Result<()>): Result<string> {
    var next :- NextVersion.NewVersion(version, t);
    var raw :- read;
    var doc :- codec.parse(raw);
    var edited :- SetProjectVersion(doc, next);
    if write.Err? then Err(write.error) else Ok(FinishText(codec.render(edited), raw))
  }

  /** The update succeeds exactly when every step does; what is written is the edited document, finished. */
  lemma UpdateSucceeds(version: Option<string>, t: UpdateType, codec: TomlCodec, read: Result<string>, write: Result<()>)
    ensures UpdateOutcome(version, t, codec, read, write).Ok?
      <==> NextVersion.NewVersion(version, t).Ok? && read.Ok? && codec.parse(read.value).Ok?
           && SetProjectVersion(codec.parse(read.value).value, NextVersion.NewVersion(version, t).value).Ok?
           && write.Ok?
    ensures UpdateOutcome(version, t, codec, read, write).Ok? ==>
      var edited := SetProjectVersion(codec.parse(read.value).value, NextVersion.NewVersion(version, t).value).value;
      UpdateOutcome(version, t, codec, read, write).value == FinishText(codec.render(edited), read.value)
      && "version" in edited.root["project"].entries
      && edited.root["project"].entries["version"] == Value(NextVersion.NewVersion(version, t).value)
    ensures NextVersion.NewVersion(version, t).Err? ==>
      UpdateOutcome(version, t, codec, read, write) == Err(NextVersion.NewVersion(version, t).error)
  {
  }

  /** A workspace without a version writes the bump of "0.0.0". */
  lemma MissingVersionIsZero(t: UpdateType, codec: TomlCodec, read: Result<string>, write: Result<()>)
    ensures UpdateOutcome(None, t, codec, read, write) == UpdateOutcome(Some("0.0.0"), t, codec, read, write)
  {
    NextVersion.MissingIsDefault(t);
  }

  class PythonWorkspace {
    var path: Paths.Path
    var relativePath: Paths.Path
    var version: Option<string>
    var name: Option<string>
    var isChanged: bool
    var dependencies: set<string>

    /** `PythonWorkspace::new`: the given fields, not changed, no dependencies. */
    constructor (name: Option<string>, version: Option<string>, path: Paths.Path, relativePath: Paths.Path)
      ensures this.name == name && this.version == version
      ensures this.path == path && this.relativePath == relativePath
      ensures !isChanged && dependencies == {}
    {
      this.path := path;
      this.relativePath := relativePath;
      this.name := name;
      this.version := version;
      isChanged := false;
      dependencies := {};
    }

    /**
     * `update_version`; `read` and `write` are the outcomes of reading and
     * writing `pyproject.toml`, and the result holds the text written. The
     * version is stored only once the write has succeeded.
     */
    method UpdateVersion(t: UpdateType, codec: TomlCodec, read: Result<string>, write: Result<()>) returns (r: Result<string>)
      modifies this
      ensures r == UpdateOutcome(old(version), t, codec, read, write)
      ensures version == if r.Ok? then Some(NextVersion.NewVersion(old(version), t).value) else old(version)
      ensures name == old(name) && path == old(path) && relativePath == old(relativePath)
      ensures isChanged == old(isChanged) && dependencies == old(dependencies)
    {
      var next := NextVersion.NewVersion(version, t);
      if next.Err? {
        return Err(next.error);
      }
      if read.Err? {
        return Err(read.error);
      }
      var doc := codec.parse(read.value);
      if doc.Err? {
        return Err(doc.error);
      }
      var root := doc.value.root;
      if "project" !in root {
        root := root["project" := Table(map[])];
      }
      if !root["project"].Table? {
        return Err("project is not a table");
      }
      root := root["project" := Table(root["project"].entries["version" := Value(next.value)])];
      assert Document(root) == SetProjectVersion(doc.value, next.value).value;
      var text := FinishText(codec.render(Document(root)), read.value);
      if write.Err? {
        return Err(write.error);
      }
      version := Some(next.value);
      r := Ok(text);
    }

    method SetChanged(changed: bool)
      modifies this
      ensures isChanged == changed
      ensures name == old(name) && version == old(version) && path == old(path)
      ensures relativePath == old(relativePath) && dependencies == old(dependencies)
    {
      isChanged := changed;
    }

    /** `set_name`: the name becomes `Some(name)`. */
    method SetName(name: string)
      modifies this
      ensures this.name == Some(name)
      ensures version == old(version) && path == old(path) && relativePath == old(relativePath)
      ensures isChanged == old(isChanged) && dependencies == old(dependencies)
    {
      this.name := Some(name);
    }

    /** `add_dependency`: set insertion, so adding a present name changes nothing. */
    method AddDependency(dependency: string)
      modifies this
      ensures dependencies == old(dependencies) + {dependency}
      ensures name == old(name) && version == old(version) && path == old(path)
      ensures relativePath == old(relativePath) && isChanged == old(isChanged)
    {
      dependencies := dependencies + {dependency};
    }
  }
}
