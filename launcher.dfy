/** The launcher's state and its install sequence (Main.run, checkForUpdates, setURLS,
    downloadFile, unzipJRE, deleteZip, delteVersionInfo). Each step is first written as a
    function from the old state to the new one; the class Launcher then carries Main's
    fields and its methods are proved to perform exactly those steps. */
module Launcher {
  import opened Files
  import opened Urls
  import opened Versions
  import opened Unzip

  const ExeName: string := "memate.exe"
  const ZipName: string := "jre.zip"
  const VersionName: string := "version.properties"
  const InstalledName: string := "installedVersions.properties"

  /** `mainPath`: the installation directory followed by the separator. */
  function MainPath(root: string): string
  {
    root + [Separator]
  }

  /** The files `new File(mainPath + name)` stands for, for the launcher's own files. */
  function ExePath(root: string): string { Normalize(MainPath(root) + ExeName) }
  function ZipPath(root: string): string { Normalize(MainPath(root) + ZipName) }
  function VersionPath(root: string): string { Normalize(MainPath(root) + VersionName) }
  function InstalledPath(root: string): string { Normalize(MainPath(root) + InstalledName) }

  /** `new File(mainPath + jreFolderName)`, where a null folder name is rendered as "null". */
  function JreFolderPath(root: string, folder: Option<string>): string
  {
    Normalize(MainPath(root) + AsText(folder))
  }

  /** `new File(mainPath).getAbsolutePath()`, the directory unzipJRE extracts into. */
  function UnzipTarget(root: string): string
  {
    Normalize(MainPath(root))
  }

  /** One call of downloadFile that reached `url.openConnection()`: the URL, and the file
      it writes to. */
  datatype Request = Request(url: string, path: string)

  /** How run ends: normally, or by an uncaught exception. */
  datatype Outcome = Completed | Threw(fault: Fault)

  /** Main's fields that the install sequence reads and writes, together with the file
      system, the values given to the progress bar by run itself, and the downloads
      started so far. */
  datatype State = State(
    fs: FileMap,
    clientNeedsUpdate: bool,
    jreNeedsUpdate: bool,
    version: Option<string>,
    exeURL: Option<string>,
    versionURL: Option<string>,
    jreURL: Option<string>,
    jreFolderName: Option<string>,
    progress: seq<int>,
    requests: seq<Request>)

  /** A new Main: both flags set (lines 60-61), every URL and name still null. */
  function Initial(fs: FileMap): State
  {
    State(fs, true, true, None, None, None, None, None, [], [])
  }

  /** Main.setURLS (lines 163-175): the executable and descriptor URLs of the release. */
  function SetURLsStep(s: State): State
  {
    s.(exeURL := Some(ExeURL(s.version)), versionURL := Some(VersionURL(s.version)))
  }

  /** Main.downloadFile (lines 350-403) without its progress timer, writing to the file
      `path`: a null URL throws at `url.openConnection()` (line 358, not caught by the
      IOException handler); otherwise the request is made and the content, when the URL
      serves any and no directory is in the way, lands at `path`. */
  function DownloadStep(s: State, url: Option<string>, path: string, remote: Remote): (State, Outcome)
  {
    match url
    case None => (s, Threw(NullPointer(358)))
    case Some(u) =>
      (s.(fs := Fetched(s.fs, u, path, remote), requests := s.requests + [Request(u, path)]), Completed)
  }

  /** Lines 207-217: the newest JRE URL and folder name are taken over only when
      `new URL(newestJreURL)` succeeds, i.e. when the key is present. */
  function AdoptNewest(s: State, newest: Descriptor): State
  {
    if newest.jreURL.Some? then s.(jreURL := newest.jreURL, jreFolderName := newest.jreFolderName)
    else s
  }

  /** Main.checkForUpdates (lines 193-277): download the newest descriptor, compare it with
      the installed one, clear the flags of the components found current, and rename
      version.properties onto installedVersions.properties on a first run or when a flag
      remains set. `overwrites` is whether the platform's File.renameTo replaces an
      existing target. */
  function CheckStep(s: State, root: string, overwrites: bool, remote: Remote): (State, Outcome)
  {
    var (s1, o1) := DownloadStep(s, s.versionURL, VersionPath(root), remote);
    if o1.Threw? then (s1, o1) else CheckDownloaded(s1, root, overwrites)
  }

  /** Lines 200-274: checkForUpdates once version.properties has been requested. */
  function CheckDownloaded(s: State, root: string, overwrites: bool): (State, Outcome)
  {
    var newest := ReadDescriptor(s.fs, VersionPath(root));
    var s1 := AdoptNewest(s, newest);
    if InstalledPath(root) !in s1.fs then
      (s1.(fs := RenameTo(s1.fs, VersionPath(root), InstalledPath(root), overwrites)), Completed)
    else CompareStep(s1, root, overwrites, ReadDescriptor(s1.fs, InstalledPath(root)), newest)
  }

  /** Lines 259-274: the comparison with an installed descriptor. */
  function CompareStep(s: State, root: string, overwrites: bool, installed: Descriptor, newest: Descriptor): (State, Outcome)
  {
    match Decide(installed, newest)
    case Crashed(f) =>
      var client := s.clientNeedsUpdate && (f.line == 259 || !ClientCurrent(installed, newest));
      (s.(clientNeedsUpdate := client), Threw(f))
    case Decided(plan) =>
      var s1 := s.(clientNeedsUpdate := s.clientNeedsUpdate && plan.clientNeedsUpdate,
                   jreNeedsUpdate := s.jreNeedsUpdate && plan.jreNeedsUpdate);
      if s1.clientNeedsUpdate || s1.jreNeedsUpdate then
        (s1.(fs := RenameTo(s1.fs, VersionPath(root), InstalledPath(root), overwrites)), Completed)
      else (s1, Completed)
  }

  /** The entries ZipInputStream yields for jre.zip: none when the file is missing or is
      not an archive (the FileInputStream throws, or getNextEntry returns null at once). */
  function ZipEntriesAt(fs: FileMap, path: string): seq<ZipEntry>
  {
    if path in fs && fs[path].File? && fs[path].content.Archive? then fs[path].content.entries
    else []
  }

  /** Main.unzipJRE (lines 279-318): extract jre.zip into the installation directory. */
  function UnzipStep(s: State, root: string): State
  {
    s.(fs := Extract(s.fs, UnzipTarget(root), ZipEntriesAt(s.fs, ZipPath(root))))
  }

  /** Line 101: the executable is fetched when the client is stale or missing. */
  predicate FetchExe(s: State, root: string)
  {
    s.clientNeedsUpdate || ExePath(root) !in s.fs
  }

  /** Lines 106 and 111: the runtime is fetched, and unzipped, when it is stale or its
      folder is missing. */
  predicate FetchJre(s: State, root: string)
  {
    s.jreNeedsUpdate || JreFolderPath(root, s.jreFolderName) !in s.fs
  }

  /** Lines 101-105: fetch the executable when needed, then milestone 30. */
  function ClientStep(s: State, root: string, remote: Remote): (State, Outcome)
  {
    var (s1, o1) := if FetchExe(s, root) then DownloadStep(s, s.exeURL, ExePath(root), remote) else (s, Completed);
    if o1.Threw? then (s1, o1) else (s1.(progress := s1.progress + [30]), Completed)
  }

  /** Lines 106-110: fetch the runtime archive when needed, then milestone 90. */
  function RuntimeStep(s: State, root: string, remote: Remote): (State, Outcome)
  {
    var (s1, o1) := if FetchJre(s, root) then DownloadStep(s, s.jreURL, ZipPath(root), remote) else (s, Completed);
    if o1.Threw? then (s1, o1) else (s1.(progress := s1.progress + [90]), Completed)
  }

  /** Lines 111-120: unzip when needed (the condition of line 106 evaluated again, after
      the archive download), milestone 95, removal of jre.zip and version.properties,
      milestone 100. */
  function FinishStep(s: State, root: string): State
  {
    var s1 := if FetchJre(s, root) then UnzipStep(s, root) else s;
    var s2 := s1.(progress := s1.progress + [95]);
    var s3 := s2.(fs := Deleted(Deleted(s2.fs, ZipPath(root)), VersionPath(root)));
    s3.(progress := s3.progress + [100])
  }

  /** Lines 101-120: the install sequence that follows the update check. */
  function InstallStep(s: State, root: string, remote: Remote): (State, Outcome)
  {
    var (s1, o1) := ClientStep(s, root, remote);
    if o1.Threw? then (s1, o1)
    else
      var (s2, o2) := RuntimeStep(s1, root, remote);
      if o2.Threw? then (s2, o2) else (FinishStep(s2, root), Completed)
  }

  /** Main.run (lines 74-131) once getLatestRelease has produced `tag` (None when the
      request failed and `version` stayed null). */
  function RunStep(s: State, root: string, overwrites: bool, tag: Option<string>, remote: Remote): (State, Outcome)
  {
    var s1 := SetURLsStep(s.(version := tag));
    var (s2, o2) := CheckStep(s1, root, overwrites, remote);
    if o2.Threw? then (s2, o2) else InstallStep(s2, root, remote)
  }

  /** The launcher class: Main's fields, updated in place. */
  class Launcher {
    /** The installation directory; `mainPath` is `root` followed by the separator. */
    const root: string
    /** Whether File.renameTo replaces an existing target on this platform. */
    const overwrites: bool

    var fs: FileMap
    var clientNeedsUpdate: bool
    var jreNeedsUpdate: bool
    var version: Option<string>
    var exeURL: Option<string>
    var versionURL: Option<string>
    var jreURL: Option<string>
    var jreFolderName: Option<string>
    var progress: seq<int>
    var requests: seq<Request>

    function Snapshot(): State
      reads this
    {
      State(fs, clientNeedsUpdate, jreNeedsUpdate, version, exeURL, versionURL,
            jreURL, jreFolderName, progress, requests)
    }

    constructor (root: string, overwrites: bool, fs: FileMap)
      ensures this.root == root && this.overwrites == overwrites
      ensures Snapshot() == Initial(fs)
    {
      this.root := root;
      this.overwrites := overwrites;
      this.fs := fs;
      clientNeedsUpdate, jreNeedsUpdate := true, true;
      version, exeURL, versionURL, jreURL, jreFolderName := None, None, None, None, None;
      progress, requests := [], [];
    }

    method SetURLs()
      modifies this
      ensures Snapshot() == SetURLsStep(old(Snapshot()))
    {
      exeURL := Some(ReleaseDownloadBase + AsText(version) + ExeAsset);
      versionURL := Some(ReleaseDownloadBase + AsText(version) + VersionAsset);
    }

    method DownloadFile(url: Option<string>, outputPath: string, remote: Remote) returns (outcome: Outcome)
      modifies this
      ensures (Snapshot(), outcome) == DownloadStep(old(Snapshot()), url, Normalize(outputPath), remote)
    {
      if url.None? {
        return Threw(NullPointer(358));
      }
      var u := url.value;
      var path := Normalize(outputPath);
      requests := requests + [Request(u, path)];
      if u in remote && (path !in fs || fs[path].File?) {
        fs := fs[path := File(remote[u])];
      }
      outcome := Completed;
    }

    method CheckForUpdates(remote: Remote) returns (outcome: Outcome)
      modifies this
      ensures (Snapshot(), outcome) == CheckStep(old(Snapshot()), root, overwrites, remote)
    {
      var propertiesOutputPath := MainPath(root) + VersionName;
      var versionFile := Normalize(propertiesOutputPath);
      var installedFile := Normalize(MainPath(root) + InstalledName);
      outcome := DownloadFile(versionURL, propertiesOutputPath, remote);
      if outcome.Threw? {
        return;
      }
      ghost var downloaded := Snapshot();
      assert CheckStep(old(Snapshot()), root, overwrites, remote) == CheckDownloaded(downloaded, root, overwrites);
      var newest := ReadDescriptor(fs, versionFile);
      if newest.jreURL.Some? {
        jreURL := newest.jreURL;
        jreFolderName := newest.jreFolderName;
      }
      ghost var adopted := Snapshot();
      assert adopted == AdoptNewest(downloaded, newest);
      if installedFile !in fs {
        fs := RenameTo(fs, versionFile, installedFile, overwrites);
        return;
      }
      var installed := ReadDescriptor(fs, installedFile);
      outcome := CompareVersions(installed, newest);
    }

    /** Lines 259-274 of checkForUpdates: compare the installed descriptor with the newest,
        clear the flags of what is current, and rename the new descriptor into place when
        a flag remains set. */
    method CompareVersions(installed: Descriptor, newest: Descriptor) returns (outcome: Outcome)
      modifies this
      ensures (Snapshot(), outcome) == CompareStep(old(Snapshot()), root, overwrites, installed, newest)
    {
      var versionFile := Normalize(MainPath(root) + VersionName);
      var installedFile := Normalize(MainPath(root) + InstalledName);
      outcome := Completed;
      if installed.buildVersion.None? {
        return Threw(NullPointer(259));
      }
      if installed.buildVersion == newest.buildVersion {
        clientNeedsUpdate := false;
      }
      if installed.jreURL.None? {
        return Threw(NullPointer(264));
      }
      if installed.jreURL == newest.jreURL {
        if installed.jreSignature.None? {
          return Threw(NullPointer(264));
        }
        if installed.jreSignature == newest.jreSignature {
          if installed.jreFolderName.None? {
            return Threw(NullPointer(264));
          }
          if installed.jreFolderName == newest.jreFolderName {
            jreNeedsUpdate := false;
          }
        }
      }
      if clientNeedsUpdate || jreNeedsUpdate {
        fs := RenameTo(fs, versionFile, installedFile, overwrites);
      }
    }

    method UnzipJre()
      modifies this
      ensures Snapshot() == UnzipStep(old(Snapshot()), root)
    {
      var entries := ZipEntriesAt(fs, Normalize(MainPath(root) + ZipName));
      var target := Normalize(MainPath(root));
      var files := fs;
      var i := 0;
      var entry := NextEntry(entries, i);
      while entry.Some?
        invariant 0 <= i <= |entries|
        invariant entry == NextEntry(entries, i)
        invariant unchanged(this)
        invariant Extract(files, target, entries[i..]) == Extract(fs, target, entries)
        decreases |entries| - i
      {
        var e := entry.value;
        assert entries[i..][0] == e && entries[i..][1..] == entries[i + 1..];
        ghost var before := files;
        var path := Normalize(target + [Separator] + e.name);
        if IsDirectoryEntry(e) {
          if path !in files {
            files := files[path := Directory];
          }
        } else {
          if path in files && files[path].Directory? {
            assert Stops(files, target, e);
            break;
          }
          var written := CopyEntry(e.data);
          files := files[path := File(Bytes(written))];
        }
        assert !Stops(before, target, e) && files == Apply(before, target, e);
        i := i + 1;
        entry := NextEntry(entries, i);
      }
      fs := files;
    }

    method DeleteZip()
      modifies this
      ensures Snapshot() == old(Snapshot()).(fs := Deleted(old(fs), ZipPath(root)))
    {
      fs := fs - {Normalize(MainPath(root) + ZipName)};
    }

    method DeleteVersionInfo()
      modifies this
      ensures Snapshot() == old(Snapshot()).(fs := Deleted(old(fs), VersionPath(root)))
    {
      fs := fs - {Normalize(MainPath(root) + VersionName)};
    }

    method Run(tag: Option<string>, remote: Remote) returns (outcome: Outcome)
      modifies this
      ensures (Snapshot(), outcome) == RunStep(old(Snapshot()), root, overwrites, tag, remote)
    {
      version := tag;
      SetURLs();
      outcome := CheckForUpdates(remote);
      if outcome.Threw? {
        return;
      }
      outcome := FetchClient(remote);
      if outcome.Threw? {
        return;
      }
      outcome := FetchRuntime(remote);
      if outcome.Threw? {
        return;
      }
      Finish();
    }

    /** Lines 101-105 of run. */
    method FetchClient(remote: Remote) returns (outcome: Outcome)
      modifies this
      ensures (Snapshot(), outcome) == ClientStep(old(Snapshot()), root, remote)
    {
      var exeOutputPath := MainPath(root) + ExeName;
      outcome := Completed;
      if clientNeedsUpdate || Normalize(exeOutputPath) !in fs {
        outcome := DownloadFile(exeURL, exeOutputPath, remote);
        if outcome.Threw? {
          return;
        }
      }
      progress := progress + [30];
    }

    /** Lines 106-110 of run. */
    method FetchRuntime(remote: Remote) returns (outcome: Outcome)
      modifies this
      ensures (Snapshot(), outcome) == RuntimeStep(old(Snapshot()), root, remote)
    {
      outcome := Completed;
      if jreNeedsUpdate || Normalize(MainPath(root) + AsText(jreFolderName)) !in fs {
        outcome := DownloadFile(jreURL, MainPath(root) + ZipName, remote);
        if outcome.Threw? {
          return;
        }
      }
      progress := progress + [90];
    }

    /** Lines 111-120 of run. */
    method Finish()
      modifies this
      ensures Snapshot() == FinishStep(old(Snapshot()), root)
    {
      if jreNeedsUpdate || Normalize(MainPath(root) + AsText(jreFolderName)) !in fs {
        UnzipJre();
      }
      progress := progress + [95];
      DeleteZip();
      DeleteVersionInfo();
      progress := progress + [100];
    }
  }
}
