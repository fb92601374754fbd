/**
 * What the command's gate, destination lookup and merge call do, stated over the
 * step functions of module TransformCommand, including the quirks of the code:
 * the `app.` lookup reads the stored transform path, the gate never asks whether
 * a destination exists, and the stored pair is never cleared.
 */
module CommandProperties {
  import opened Wrappers
  import opened Strings
  import opened TransformCommand

  // ---------------------------------------------------------------------------
  // Project gate.

  /** An extension passes iff it is `.csproj`, `.vbproj` or `.fsproj` in any casing. */
  lemma SupportedExtensionRule(ext: string)
    ensures IsSupportedExtension(ext) <==>
      EqualsIgnoreCase(ext, ".csproj") || EqualsIgnoreCase(ext, ".vbproj") || EqualsIgnoreCase(ext, ".fsproj")
  {
    if EqualsIgnoreCase(ext, ".csproj") { assert EqualsIgnoreCase(ext, SupportedProjectExtensions[0]); }
    if EqualsIgnoreCase(ext, ".vbproj") { assert EqualsIgnoreCase(ext, SupportedProjectExtensions[1]); }
    if EqualsIgnoreCase(ext, ".fsproj") { assert EqualsIgnoreCase(ext, SupportedProjectExtensions[2]); }
  }

  /**
   * The project passes iff its path lookup succeeded and the path has extension
   * `.csproj`, `.vbproj` or `.fsproj` in any casing.
   */
  lemma ProjectExtensionRule(projectDocument: Option<string>)
    ensures ProjectSupported(projectDocument) <==>
      projectDocument.Some? &&
      (EqualsIgnoreCase(Extension(projectDocument.value), ".csproj") ||
       EqualsIgnoreCase(Extension(projectDocument.value), ".vbproj") ||
       EqualsIgnoreCase(Extension(projectDocument.value), ".fsproj"))
  {
    if projectDocument.Some? {
      SupportedExtensionRule(Extension(projectDocument.value));
    }
  }

  /** `.txtproj` is not a supported extension. */
  lemma TxtprojUnsupported()
    ensures !IsSupportedExtension(".txtproj")
  {
    SupportedExtensionRule(".txtproj");
    assert Lower(".txtproj"[1]) != Lower(".csproj"[1]);
    assert Lower(".txtproj"[1]) != Lower(".vbproj"[1]);
    assert Lower(".txtproj"[1]) != Lower(".fsproj"[1]);
  }

  /** A project file named `….txtproj` never enables the command, whatever item is selected. */
  lemma UnsupportedProjectDisables(st: Fields, p: string, sel: Selection, fs: FileSystem)
    requires sel.projectDocument == Some(p + ".txtproj")
    ensures GateStep(st, sel, fs) == Gate(false, None, st)
  {
    ExtensionOfSuffix(p, ".txtproj");
    TxtprojUnsupported();
  }

  /** `.CSPROJ` matches `.csproj` ignoring case. */
  lemma UpperCaseExtensionSupported()
    ensures IsSupportedExtension(".CSPROJ")
  {
    var e := ".CSPROJ";
    forall i | 0 <= i < |e| ensures Lower(e[i]) == Lower(SupportedProjectExtensions[0][i]) {
    }
    assert EqualsIgnoreCase(e, SupportedProjectExtensions[0]);
  }

  /** A project file whose extension is a supported one, in upper case, passes. */
  lemma UpperCaseProjectExtensionAccepted(p: string)
    ensures ProjectSupported(Some(p + ".CSPROJ"))
  {
    ExtensionOfSuffix(p, ".CSPROJ");
    UpperCaseExtensionSupported();
  }

  // ---------------------------------------------------------------------------
  // The destination lookup, branch by branch.

  /** No file name starts with both `web.` and `app.`. */
  lemma PrefixesExclusive(name: string)
    ensures !(StartsWithIgnoreCase(name, WebPrefix) && StartsWithIgnoreCase(name, AppPrefix))
  {
    if StartsWithIgnoreCase(name, WebPrefix) {
      assert Lower(name[0]) == 'w';
    }
  }

  /**
   * A `web.` name: the candidate is the path with every occurrence of the file name
   * replaced by `Web.config`; it is recorded, and the lookup succeeds, only when it
   * exists. Otherwise nothing changes.
   */
  lemma WebLookup(st: Fields, sourceFile: string, fs: FileSystem)
    requires sourceFile != [] && StartsWithIgnoreCase(FileName(sourceFile), WebPrefix)
    ensures var candidate := Replace(sourceFile, FileName(sourceFile), WebConfig);
      DestinationExistsStep(st, sourceFile, fs) ==
        if candidate in fs.existing then (Ok(true), st.(destinationFile := Some(candidate)))
        else (Ok(false), st)
  {
    PrefixesExclusive(FileName(sourceFile));
  }

  /**
   * An `app.` name: the stored transform path, not the argument, is searched for the
   * file name; the result is recorded as the destination before its existence is
   * checked, and the lookup faults when no transform path is stored.
   */
  lemma AppLookup(st: Fields, sourceFile: string, fs: FileSystem)
    requires sourceFile != [] && StartsWithIgnoreCase(FileName(sourceFile), AppPrefix)
    ensures st.transformFile.None? ==> DestinationExistsStep(st, sourceFile, fs) == (Threw(NullReference), st)
    ensures st.transformFile.Some? ==>
      var candidate := Replace(st.transformFile.value, FileName(sourceFile), AppConfig);
      DestinationExistsStep(st, sourceFile, fs) ==
        (Ok(candidate in fs.existing), st.(destinationFile := Some(candidate)))
  {
    PrefixesExclusive(FileName(sourceFile));
  }

  /** A name with neither prefix finds nothing and changes nothing. */
  lemma OtherNameLookup(st: Fields, sourceFile: string, fs: FileSystem)
    requires sourceFile != []
    requires !StartsWithIgnoreCase(FileName(sourceFile), WebPrefix) && !StartsWithIgnoreCase(FileName(sourceFile), AppPrefix)
    ensures DestinationExistsStep(st, sourceFile, fs) == (Ok(false), st)
  {
  }

  /** The lookup never touches the stored transform path. */
  lemma LookupKeepsTransformFile(st: Fields, sourceFile: string, fs: FileSystem)
    ensures DestinationExistsStep(st, sourceFile, fs).1.transformFile == st.transformFile
  {
  }

  /**
   * For a transform `dir + name` whose directory does not itself contain `name`, the
   * `web.` candidate is the sibling `dir + "Web.config"`.
   */
  lemma WebSibling(st: Fields, dir: string, name: string, fs: FileSystem)
    requires dir == [] || IsDirectorySeparator(dir[|dir| - 1])
    requires HasNoSeparator(name) && !Contains(dir, name)
    requires StartsWithIgnoreCase(name, WebPrefix)
    ensures DestinationExistsStep(st, dir + name, fs) ==
      if dir + WebConfig in fs.existing then (Ok(true), st.(destinationFile := Some(dir + WebConfig)))
      else (Ok(false), st)
  {
    FileNameOfJoin(dir, name);
    ReplaceFileName(dir, name, WebConfig);
    WebLookup(st, dir + name, fs);
  }

  /**
   * When the stored transform path is `dir + name` itself, the `app.` candidate is
   * the sibling `dir + "App.config"`.
   */
  lemma AppSibling(st: Fields, dir: string, name: string, fs: FileSystem)
    requires dir == [] || IsDirectorySeparator(dir[|dir| - 1])
    requires HasNoSeparator(name) && !Contains(dir, name)
    requires StartsWithIgnoreCase(name, AppPrefix)
    requires st.transformFile == Some(dir + name)
    ensures DestinationExistsStep(st, dir + name, fs) ==
      (Ok(dir + AppConfig in fs.existing), st.(destinationFile := Some(dir + AppConfig)))
  {
    FileNameOfJoin(dir, name);
    ReplaceFileName(dir, name, AppConfig);
    AppLookup(st, dir + name, fs);
  }

  /**
   * When the stored transform path does not contain the `app.` name at all, the
   * replacement changes nothing: the stored transform itself becomes the
   * "destination", and the lookup succeeds whenever that file still exists.
   */
  lemma AppLookupWithUnrelatedTransform(st: Fields, sourceFile: string, fs: FileSystem)
    requires sourceFile != [] && StartsWithIgnoreCase(FileName(sourceFile), AppPrefix)
    requires st.transformFile.Some? && !Contains(st.transformFile.value, FileName(sourceFile))
    ensures DestinationExistsStep(st, sourceFile, fs) ==
      (Ok(st.transformFile.value in fs.existing), st.(destinationFile := st.transformFile))
  {
    AppLookup(st, sourceFile, fs);
    ReplaceWithoutOccurrence(st.transformFile.value, FileName(sourceFile), AppConfig);
  }

  // ---------------------------------------------------------------------------
  // The item check.

  /**
   * The item check's answer is "ends with `.config`" and "reads as XML", whatever the
   * lookup found, once the lookup did not fault.
   */
  lemma ItemAnswerIgnoresLookup(st: Fields, path: string, fs: FileSystem)
    requires DestinationExistsStep(st, path, fs).0.Ok?
    ensures ItemSupportsStep(st, Some(path), fs).0 ==
      if EndsWithIgnoreCase(FileName(path), ConfigExtension) then IsXmlFile(path, fs) else Ok(false)
  {
  }

  /**
   * The item becomes the stored transform path exactly when the lookup succeeded;
   * otherwise the stored path stays what it was.
   */
  lemma TransformFileSetOnlyWhenFound(st: Fields, path: string, fs: FileSystem)
    ensures var found := DestinationExistsStep(st, path, fs);
      ItemSupportsStep(st, Some(path), fs).1 ==
        if found.0 == Ok(true) then found.1.(transformFile := Some(path)) else found.1
  {
  }

  /** An empty item path is rejected by `new FileInfo` before anything else happens. */
  lemma EmptyItemPathFaults(st: Fields, fs: FileSystem)
    ensures ItemSupportsStep(st, Some([]), fs) == (Threw(Argument), st)
  {
  }

  // ---------------------------------------------------------------------------
  // The gate.

  /**
   * The command is shown iff the selection is a single project item, the project
   * passes and the item check answers true; the checks run in that order, so a
   * failed selection or project check leaves the fields alone, and only the item
   * check can fault.
   */
  lemma GateDecision(st: Fields, sel: Selection, fs: FileSystem)
    ensures GateStep(st, sel, fs).shown <==>
      sel.singleProjectItem && ProjectSupported(sel.projectDocument) && ItemSupportsStep(st, sel.itemDocument, fs).0 == Ok(true)
    ensures !sel.singleProjectItem || !ProjectSupported(sel.projectDocument) ==> GateStep(st, sel, fs) == Gate(false, None, st)
    ensures GateStep(st, sel, fs).fault.Some? ==>
      !GateStep(st, sel, fs).shown && ItemSupportsStep(st, sel.itemDocument, fs).0 == Threw(GateStep(st, sel, fs).fault.value)
  {
  }

  /**
   * The gate does not require a destination: a well-formed `.config` file whose
   * name has neither prefix enables the command, and the stored pair, which has
   * nothing to do with it, is what the merge call would use.
   */
  lemma GateIgnoresDestination(st: Fields, sel: Selection, fs: FileSystem, path: string)
    requires sel.singleProjectItem && ProjectSupported(sel.projectDocument) && sel.itemDocument == Some(path)
    requires path != [] && path in fs.existing && path in fs.wellFormedXml && !IsNullOrWhiteSpace(path)
    requires EndsWithIgnoreCase(FileName(path), ConfigExtension)
    requires !StartsWithIgnoreCase(FileName(path), WebPrefix) && !StartsWithIgnoreCase(FileName(path), AppPrefix)
    ensures GateStep(st, sel, fs) == Gate(true, None, st)
    ensures EngineCallFor(GateStep(st, sel, fs).fields) == EngineCallFor(st)
  {
    OtherNameLookup(st, path, fs);
  }

  /**
   * With no transform path stored yet, as after construction, selecting an `app.`
   * transform faults in the lookup and the command stays hidden.
   */
  lemma AppItemFaultsBeforeAnyTransform(st: Fields, sel: Selection, fs: FileSystem, path: string)
    requires sel.singleProjectItem && ProjectSupported(sel.projectDocument) && sel.itemDocument == Some(path)
    requires path != [] && StartsWithIgnoreCase(FileName(path), AppPrefix)
    requires st.transformFile.None?
    ensures GateStep(st, sel, fs) == Gate(false, Some(NullReference), st)
  {
    AppLookup(st, path, fs);
  }

  /**
   * A `web.` transform `dir + name` that reads as XML, next to an existing
   * `Web.config`, enables the command whatever was stored, and the merge call then
   * writes the transform onto that `Web.config` in place.
   */
  lemma WebTransformEnabled(st: Fields, sel: Selection, fs: FileSystem, dir: string, name: string)
    requires dir == [] || IsDirectorySeparator(dir[|dir| - 1])
    requires HasNoSeparator(name) && !Contains(dir, name)
    requires StartsWithIgnoreCase(name, WebPrefix) && EndsWithIgnoreCase(name, ConfigExtension)
    requires sel.singleProjectItem && ProjectSupported(sel.projectDocument) && sel.itemDocument == Some(dir + name)
    requires dir + name in fs.existing && dir + name in fs.wellFormedXml && dir + WebConfig in fs.existing
    ensures GateStep(st, sel, fs) == Gate(true, None, Fields(Some(dir + name), Some(dir + WebConfig)))
    ensures EngineCallFor(GateStep(st, sel, fs).fields) == Some(EngineCall(dir + WebConfig, dir + name, dir + WebConfig))
  {
    FileNameOfJoin(dir, name);
    WebSibling(st, dir, name, fs);
    assert (dir + name)[|dir|] == name[0];
    assert !IsNullOrWhiteSpace(dir + name);
  }

  /**
   * An `app.` transform `dir + name` that was stored by an earlier evaluation,
   * reads as XML and sits next to an existing `App.config` enables the command, and
   * the merge call writes it onto that `App.config` in place.
   */
  lemma AppTransformEnabled(st: Fields, sel: Selection, fs: FileSystem, dir: string, name: string)
    requires dir == [] || IsDirectorySeparator(dir[|dir| - 1])
    requires HasNoSeparator(name) && !Contains(dir, name)
    requires StartsWithIgnoreCase(name, AppPrefix) && EndsWithIgnoreCase(name, ConfigExtension)
    requires st.transformFile == Some(dir + name)
    requires sel.singleProjectItem && ProjectSupported(sel.projectDocument) && sel.itemDocument == Some(dir + name)
    requires dir + name in fs.existing && dir + name in fs.wellFormedXml && dir + AppConfig in fs.existing
    ensures GateStep(st, sel, fs) == Gate(true, None, Fields(Some(dir + name), Some(dir + AppConfig)))
    ensures EngineCallFor(GateStep(st, sel, fs).fields) == Some(EngineCall(dir + AppConfig, dir + name, dir + AppConfig))
  {
    FileNameOfJoin(dir, name);
    AppSibling(st, dir, name, fs);
    assert (dir + name)[|dir|] == name[0];
    assert !IsNullOrWhiteSpace(dir + name);
  }

  /**
   * With an unrelated transform path stored, selecting an `app.` transform that
   * reads as XML enables the command, and the merge call would write the new
   * transform onto the previously stored transform file.
   */
  lemma AppItemMergesIntoStoredTransform(st: Fields, sel: Selection, fs: FileSystem, path: string)
    requires sel.singleProjectItem && ProjectSupported(sel.projectDocument) && sel.itemDocument == Some(path)
    requires path != [] && path in fs.existing && path in fs.wellFormedXml && !IsNullOrWhiteSpace(path)
    requires StartsWithIgnoreCase(FileName(path), AppPrefix) && EndsWithIgnoreCase(FileName(path), ConfigExtension)
    requires st.transformFile.Some? && st.transformFile.value in fs.existing
    requires !Contains(st.transformFile.value, FileName(path))
    ensures GateStep(st, sel, fs).shown
    ensures EngineCallFor(GateStep(st, sel, fs).fields) ==
      Some(EngineCall(st.transformFile.value, path, st.transformFile.value))
  {
    AppLookupWithUnrelatedTransform(st, path, fs);
  }

  /**
   * With a stored transform path that no longer exists, the lookup fails but still
   * records that path as the destination, so the merge call uses the stored
   * transform file in all three places.
   */
  lemma AppItemMergesMissingTransformIntoItself(st: Fields, sel: Selection, fs: FileSystem, path: string)
    requires sel.singleProjectItem && ProjectSupported(sel.projectDocument) && sel.itemDocument == Some(path)
    requires path != [] && path in fs.existing && path in fs.wellFormedXml && !IsNullOrWhiteSpace(path)
    requires StartsWithIgnoreCase(FileName(path), AppPrefix) && EndsWithIgnoreCase(FileName(path), ConfigExtension)
    requires st.transformFile.Some? && st.transformFile.value !in fs.existing
    requires !Contains(st.transformFile.value, FileName(path))
    ensures GateStep(st, sel, fs).shown
    ensures EngineCallFor(GateStep(st, sel, fs).fields) ==
      Some(EngineCall(st.transformFile.value, st.transformFile.value, st.transformFile.value))
  {
    AppLookupWithUnrelatedTransform(st, path, fs);
  }

  /**
   * `Replace` rewrites every occurrence of the file name, so for a transform in a
   * directory named like the transform itself, `name\name`, the `web.` candidate is
   * `Web.config\Web.config` rather than the sibling `name\Web.config`.
   */
  lemma WebLookupRewritesDirectory(st: Fields, name: string, fs: FileSystem)
    requires HasNoSeparator(name) && StartsWithIgnoreCase(name, WebPrefix)
    ensures var candidate := WebConfig + "\\" + WebConfig;
      DestinationExistsStep(st, name + "\\" + name, fs) ==
        if candidate in fs.existing then (Ok(true), st.(destinationFile := Some(candidate)))
        else (Ok(false), st)
  {
    var path := name + "\\" + name;
    FileNameOfJoin(name + "\\", name);
    assert (name + "\\") + name == path;
    ReplaceInSameNamedDirectory(name, WebConfig);
    WebLookup(st, path, fs);
  }

  /** Replacing `name` in `name\name` rewrites the directory as well as the file name. */
  lemma ReplaceInSameNamedDirectory(name: string, repl: string)
    requires |name| > 0 && HasNoSeparator(name)
    ensures Replace(name + "\\" + name, name, repl) == repl + "\\" + repl
  {
    var s := name + "\\" + name;
    assert s[..|name|] == name && s[|name|..] == "\\" + name;
    assert !IsDirectorySeparator(name[0]);
    ReplaceFileName("\\", name, repl);
  }

  // ---------------------------------------------------------------------------
  // Over many evaluations, and the merge call.

  /** The lookup never sets a stored field back to null. */
  lemma LookupKeepsFieldsSet(st: Fields, sourceFile: string, fs: FileSystem)
    ensures st.transformFile.Some? ==> DestinationExistsStep(st, sourceFile, fs).1.transformFile.Some?
    ensures st.destinationFile.Some? ==> DestinationExistsStep(st, sourceFile, fs).1.destinationFile.Some?
  {
  }

  /** The item check never sets a stored field back to null. */
  lemma ItemCheckKeepsFieldsSet(st: Fields, item: Option<string>, fs: FileSystem)
    ensures st.transformFile.Some? ==> ItemSupportsStep(st, item, fs).1.transformFile.Some?
    ensures st.destinationFile.Some? ==> ItemSupportsStep(st, item, fs).1.destinationFile.Some?
  {
    if item.Some? {
      LookupKeepsFieldsSet(st, item.value, fs);
    }
  }

  /** One evaluation never sets a stored field back to null. */
  lemma GateStepKeepsFieldsSet(st: Fields, sel: Selection, fs: FileSystem)
    ensures st.transformFile.Some? ==> GateStep(st, sel, fs).fields.transformFile.Some?
    ensures st.destinationFile.Some? ==> GateStep(st, sel, fs).fields.destinationFile.Some?
  {
    ItemCheckKeepsFieldsSet(st, sel.itemDocument, fs);
  }

  /** Nothing ever clears the fields: once set, a field stays set across any run of evaluations. */
  lemma {:induction false} FieldsNeverCleared(st: Fields, sels: seq<Selection>, fs: FileSystem)
    ensures st.transformFile.Some? ==> GateRun(st, sels, fs).transformFile.Some?
    ensures st.destinationFile.Some? ==> GateRun(st, sels, fs).destinationFile.Some?
    decreases |sels|
  {
    if sels != [] {
      GateStepKeepsFieldsSet(st, sels[0], fs);
      FieldsNeverCleared(GateStep(st, sels[0], fs).fields, sels[1..], fs);
    }
  }

  /**
   * Evaluations whose selection or project check fails leave the stored pair as it
   * was, so a merge call after them uses the pair from before.
   */
  lemma {:induction false} RejectedRunKeepsPair(st: Fields, sels: seq<Selection>, fs: FileSystem)
    requires forall n :: 0 <= n < |sels| ==> !sels[n].singleProjectItem || !ProjectSupported(sels[n].projectDocument)
    ensures GateRun(st, sels, fs) == st
    decreases |sels|
  {
    if sels != [] {
      GateDecision(st, sels[0], fs);
      RejectedRunKeepsPair(st, sels[1..], fs);
    }
  }

  /**
   * The merge call happens iff both fields are set, and then always transforms the
   * destination onto itself with the stored transform in between.
   */
  lemma EngineCallInPlace(st: Fields)
    ensures EngineCallFor(st).Some? <==> st.transformFile.Some? && st.destinationFile.Some?
    ensures EngineCallFor(st).Some? ==>
      EngineCallFor(st).value.source == EngineCallFor(st).value.destination == st.destinationFile.value &&
      EngineCallFor(st).value.transform == st.transformFile.value
  {
  }

  // ---------------------------------------------------------------------------
  // A concrete end-to-end run.

  const Dir: string := "C:\\src\\Site\\"
  const ProjectStem: string := "C:\\src\\Site\\Site"
  const AppDev: string := "App.Dev.config"

  /** The concrete project path has a supported extension. */
  lemma ScenarioProjectSupported()
    ensures ProjectSupported(Some(ProjectStem + ".csproj"))
  {
    ExtensionOfSuffix(ProjectStem, ".csproj");
    SupportedExtensionRule(".csproj");
  }

  /** `App.Dev.config` is a separator-free `app.` name ending in `.config`, not found inside the directory. */
  lemma ScenarioNames()
    ensures IsDirectorySeparator(Dir[|Dir| - 1]) && HasNoSeparator(AppDev) && !Contains(Dir, AppDev)
    ensures StartsWithIgnoreCase(AppDev, AppPrefix) && EndsWithIgnoreCase(AppDev, ConfigExtension)
  {
    assert AppDev[..|AppPrefix|] == "App.";
    assert AppDev[|AppDev| - |ConfigExtension|..] == ConfigExtension;
  }

  /**
   * In a `.csproj` project, `App.Dev.config` next to `App.config`: the first
   * evaluation faults because no transform is stored; once `App.Dev.config` is the
   * stored transform the command is enabled and the merge call is
   * (App.config, App.Dev.config, App.config).
   */
  lemma AppDevScenario(fs: FileSystem)
    requires Dir + AppDev in fs.existing && Dir + AppDev in fs.wellFormedXml
    requires Dir + AppConfig in fs.existing
    ensures var sel := Selection(true, Some(ProjectStem + ".csproj"), Some(Dir + AppDev));
      GateStep(Fields(None, None), sel, fs) == Gate(false, Some(NullReference), Fields(None, None)) &&
      GateStep(Fields(Some(Dir + AppDev), None), sel, fs).shown &&
      EngineCallFor(GateStep(Fields(Some(Dir + AppDev), None), sel, fs).fields) ==
        Some(EngineCall(Dir + AppConfig, Dir + AppDev, Dir + AppConfig))
  {
    var sel := Selection(true, Some(ProjectStem + ".csproj"), Some(Dir + AppDev));
    ScenarioProjectSupported();
    ScenarioNames();
    FileNameOfJoin(Dir, AppDev);
    AppItemFaultsBeforeAnyTransform(Fields(None, None), sel, fs, Dir + AppDev);
    AppTransformEnabled(Fields(Some(Dir + AppDev), None), sel, fs, Dir, AppDev);
  }
}
