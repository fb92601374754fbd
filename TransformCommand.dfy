/**
 * The command class `ApplyConfigTransformInPlaceCmd`: the menu gate that decides
 * whether "apply config transform in place" is shown for the selected item, the
 * destination lookup that fills the two fields `TransformFile` and
 * `DestinationFile`, and the call that hands the pair to the merge engine.
 *
 * The IDE, the file system and the XML reader are inputs: a `Selection` says what
 * the IDE reports, a `FileSystem` says which paths exist and which of them the XML
 * reader accepts. Calls to the merge engine are recorded in a ghost log. The
 * classifier of module TransformLogic is not used here, as in the source.
 */
module TransformCommand {
  import opened Wrappers
  import opened Strings

  /**
   * The exceptions this code can raise and does not catch: `ArgumentException` from
   * `new FileInfo("")`, `ArgumentNullException` and `FileNotFoundException` from
   * `IsXmlFile`, `NullReferenceException` from the `app.` lookup.
   */
  datatype Fault = Argument | ArgumentNull | FileNotFound | NullReference

  /** A boolean result, or the exception that replaced it. */
  datatype Outcome = Ok(value: bool) | Threw(fault: Fault)

  /**
   * `existing`: the paths `File.Exists` accepts; `wellFormedXml`: the paths whose
   * first node `XmlTextReader.Read` reads without an `XmlException` (DTDs ignored).
   */
  datatype FileSystem = FileSystem(existing: set<string>, wellFormedXml: set<string>)

  /**
   * What the IDE reports: whether exactly one item inside a project of the solution
   * is selected, and the results of `GetMkDocument` for the project root and for
   * the item (None when the call failed).
   */
  datatype Selection = Selection(singleProjectItem: bool, projectDocument: Option<string>, itemDocument: Option<string>)

  /** The values of the fields `TransformFile` and `DestinationFile` (None for null). */
  datatype Fields = Fields(transformFile: Option<string>, destinationFile: Option<string>)

  /** One call `Transform(source, transform, destination)` of the merge engine. */
  datatype EngineCall = EngineCall(source: string, transform: string, destination: string)

  /** The result of one BeforeQueryStatus: what Visible and Enabled end as, the escaping exception, the fields. */
  datatype Gate = Gate(shown: bool, fault: Option<Fault>, fields: Fields)

  const SupportedProjectExtensions: seq<string> := [".csproj", ".vbproj", ".fsproj"]
  const WebPrefix: string := "web."
  const AppPrefix: string := "app."
  const WebConfig: string := "Web.config"
  const AppConfig: string := "App.config"
  const ConfigExtension: string := ".config"

  // ---------------------------------------------------------------------------
  // The pure parts of the command, as functions.

  /** The extension is one of the supported ones, ignoring case. */
  predicate IsSupportedExtension(ext: string)
  {
    exists n :: 0 <= n < |SupportedProjectExtensions| && EqualsIgnoreCase(ext, SupportedProjectExtensions[n])
  }

  /** The project path's extension is one of the supported ones, ignoring case. */
  predicate IsSupportedProjectPath(path: string)
  {
    IsSupportedExtension(Extension(path))
  }

  /** What `ProjectSupportsTransforms` returns for a `GetMkDocument` result. */
  predicate ProjectSupported(projectDocument: Option<string>)
  {
    projectDocument.Some? && IsSupportedProjectPath(projectDocument.value)
  }

  /**
   * `IsXmlFile`: a blank path is an argument error, a missing file a not-found
   * error; otherwise the result is whether the reader accepts the file, a parse
   * failure being `false` and not an error.
   */
  function IsXmlFile(filepath: string, fs: FileSystem): (r: Outcome)
    ensures r == Threw(ArgumentNull) <==> IsNullOrWhiteSpace(filepath)
    ensures r == Threw(FileNotFound) <==> !IsNullOrWhiteSpace(filepath) && filepath !in fs.existing
    ensures r.Ok? <==> !IsNullOrWhiteSpace(filepath) && filepath in fs.existing
    ensures r.Ok? ==> (r.value <==> filepath in fs.wellFormedXml)
  {
    if IsNullOrWhiteSpace(filepath) then Threw(ArgumentNull)
    else if filepath !in fs.existing then Threw(FileNotFound)
    else Ok(filepath in fs.wellFormedXml)
  }

  /**
   * `DestinationExists(sourceFile)` run on fields `st`: its result and the fields after it.
   * A `web.` name looks for the path with its file name replaced by `Web.config`
   * and records it only when it exists; an `app.` name always records the stored
   * transform path with the name replaced by `App.config`, and faults when nothing
   * is stored yet.
   */
  function DestinationExistsStep(st: Fields, sourceFile: string, fs: FileSystem): (Outcome, Fields)
  {
    if sourceFile == [] then (Threw(Argument), st) else
    var name := FileName(sourceFile);
    var tempDestination := if StartsWithIgnoreCase(name, WebPrefix) then Replace(sourceFile, name, WebConfig) else "";
    if StartsWithIgnoreCase(name, WebPrefix) && tempDestination in fs.existing then
      (Ok(true), st.(destinationFile := Some(tempDestination)))
    else if StartsWithIgnoreCase(name, AppPrefix) then
      match st.transformFile
      case None => (Threw(NullReference), st)
      case Some(transform) =>
        var destination := Replace(transform, name, AppConfig);
        (Ok(destination in fs.existing), st.(destinationFile := Some(destination)))
    else
      (Ok(false), st)
  }

  /**
   * `ItemSupportsTransforms` on fields `st`: the item's name must end with `.config`
   * and the file must read as XML; on the way the destination lookup runs, and the
   * item becomes the transform file when it succeeds.
   */
  function ItemSupportsStep(st: Fields, itemDocument: Option<string>, fs: FileSystem): (Outcome, Fields)
  {
    match itemDocument
    case None => (Ok(false), st)
    case Some(path) =>
      if path == [] then (Threw(Argument), st) else
      var isConfig := EndsWithIgnoreCase(FileName(path), ConfigExtension);
      var (found, st1) := DestinationExistsStep(st, path, fs);
      match found
      case Threw(f) => (Threw(f), st1)
      case Ok(exists_) =>
        var st2 := if exists_ then st1.(transformFile := Some(path)) else st1;
        if isConfig then (IsXmlFile(path, fs), st2) else (Ok(false), st2)
  }

  /** `menuCommand_BeforeQueryStatus` on fields `st`, for a menu command that is present. */
  function GateStep(st: Fields, sel: Selection, fs: FileSystem): Gate
  {
    if !sel.singleProjectItem || !ProjectSupported(sel.projectDocument) then Gate(false, None, st)
    else
      var (r, st1) := ItemSupportsStep(st, sel.itemDocument, fs);
      match r
      case Threw(f) => Gate(false, Some(f), st1)
      case Ok(b) => Gate(b, None, st1)
  }

  /** The fields after a series of BeforeQueryStatus events. */
  function GateRun(st: Fields, sels: seq<Selection>, fs: FileSystem): Fields
    decreases |sels|
  {
    if sels == [] then st else GateRun(GateStep(st, sels[0], fs).fields, sels[1..], fs)
  }

  /** The merge-engine call `ApplyTransform` makes from the fields, if it makes one. */
  function EngineCallFor(st: Fields): Option<EngineCall>
  {
    if st.transformFile.None? || st.destinationFile.None? then None
    else Some(EngineCall(st.destinationFile.value, st.transformFile.value, st.destinationFile.value))
  }

  // ---------------------------------------------------------------------------
  // The command object.

  /** The menu item whose Visible and Enabled flags the gate sets. */
  class MenuCommand {
    var visible: bool
    var enabled: bool

    constructor ()
      ensures visible && enabled
    {
      visible, enabled := true, true;
    }
  }

  class ApplyConfigTransformInPlaceCmd {
    var transformFile: Option<string>
    var destinationFile: Option<string>
    /** Every call made to the merge engine, oldest first. */
    ghost var engineCalls: seq<EngineCall>

    /** The engine is only ever asked to transform a file onto itself. */
    ghost predicate Valid()
      reads this
    {
      forall n :: 0 <= n < |engineCalls| ==> engineCalls[n].source == engineCalls[n].destination
    }

    function State(): Fields
      reads this
    {
      Fields(transformFile, destinationFile)
    }

    constructor ()
      ensures Valid() && State() == Fields(None, None) && engineCalls == []
    {
      transformFile, destinationFile := None, None;
      engineCalls := [];
    }

    /** `ProjectSupportsTransforms`: the loop over the supported extensions. */
    method ProjectSupportsTransforms(projectDocument: Option<string>) returns (supported: bool)
      ensures supported == ProjectSupported(projectDocument)
    {
      if projectDocument.None? {
        return false;
      }
      var projectFullPath := projectDocument.value;
      var projectExtension := Extension(projectFullPath);
      var n := 0;
      while n < |SupportedProjectExtensions|
        invariant 0 <= n <= |SupportedProjectExtensions|
        invariant forall m :: 0 <= m < n ==> !EqualsIgnoreCase(projectExtension, SupportedProjectExtensions[m])
      {
        if EqualsIgnoreCase(projectExtension, SupportedProjectExtensions[n]) {
          assert IsSupportedExtension(projectExtension);
          return true;
        }
        n := n + 1;
      }
      return false;
    }

    method DestinationExists(sourceFile: string, fs: FileSystem) returns (r: Outcome)
      modifies this`destinationFile
      ensures (r, State()) == DestinationExistsStep(old(State()), sourceFile, fs)
    {
      if sourceFile == [] {
        return Threw(Argument);
      }
      var name := FileName(sourceFile);
      if StartsWithIgnoreCase(name, WebPrefix) {
        var tempDestination := Replace(sourceFile, name, WebConfig);
        if tempDestination in fs.existing {
          destinationFile := Some(tempDestination);
          return Ok(true);
        }
      }
      if StartsWithIgnoreCase(name, AppPrefix) {
        if transformFile.None? {
          return Threw(NullReference);
        }
        destinationFile := Some(Replace(transformFile.value, name, AppConfig));
        if destinationFile.value in fs.existing {
          return Ok(true);
        }
      }
      return Ok(false);
    }

    method ItemSupportsTransforms(itemDocument: Option<string>, fs: FileSystem) returns (r: Outcome)
      modifies this`transformFile, this`destinationFile
      ensures (r, State()) == ItemSupportsStep(old(State()), itemDocument, fs)
    {
      if itemDocument.None? {
        return Ok(false);
      }
      var itemFullPath := itemDocument.value;
      if itemFullPath == [] {
        return Threw(Argument);
      }
      var isConfig := EndsWithIgnoreCase(FileName(itemFullPath), ConfigExtension);
      var found := DestinationExists(itemFullPath, fs);
      if found.Threw? {
        return found;
      }
      if found.value {
        transformFile := Some(itemFullPath);
      }
      if !isConfig {
        return Ok(false);
      }
      r := IsXmlFile(itemFullPath, fs);
    }

    /**
     * `menuCommand_BeforeQueryStatus`: hide and disable the menu item, then show and
     * enable it only if the selection, the project and the item all pass.
     */
    method BeforeQueryStatus(menu: MenuCommand?, sel: Selection, fs: FileSystem) returns (fault: Option<Fault>)
      modifies this`transformFile, this`destinationFile, menu
      ensures menu == null ==> fault.None? && State() == old(State())
      ensures menu != null ==>
        var g := GateStep(old(State()), sel, fs);
        menu.visible == g.shown && menu.enabled == g.shown && fault == g.fault && State() == g.fields
    {
      fault := None;
      if menu != null {
        menu.visible := false;
        menu.enabled := false;
        if !sel.singleProjectItem {
          return;
        }
        var projectOk := ProjectSupportsTransforms(sel.projectDocument);
        if !projectOk {
          return;
        }
        var itemOk := ItemSupportsTransforms(sel.itemDocument, fs);
        if itemOk.Threw? {
          return Some(itemOk.fault);
        }
        if !itemOk.value {
          return;
        }
        menu.visible := true;
        menu.enabled := true;
      }
    }

    /**
     * `ApplyTransform`: nothing when either field is null; otherwise one call of the
     * engine with the destination as original and output, the transform in between.
     */
    method ApplyTransform()
      requires Valid()
      modifies this`engineCalls
      ensures Valid()
      ensures old(EngineCallFor(State())).None? ==> engineCalls == old(engineCalls)
      ensures old(EngineCallFor(State())).Some? ==>
        engineCalls == old(engineCalls) + [EngineCall(destinationFile.value, transformFile.value, destinationFile.value)]
    {
      if transformFile.None? || destinationFile.None? {
        return;
      }
      engineCalls := engineCalls + [EngineCall(destinationFile.value, transformFile.value, destinationFile.value)];
    }
  }
}
