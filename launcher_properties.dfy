/** What the launcher's update check and install sequence guarantee, stated over the step
    functions that the methods of class Launcher are proved to perform. */
module LauncherProperties {
  import opened Files
  import opened Urls
  import opened Versions
  import opened Unzip
  import opened Launcher

  predicate NonDecreasing(xs: seq<int>)
  {
    forall i, j :: 0 <= i < j < |xs| ==> xs[i] <= xs[j]
  }

  /** A single name `n` joined onto the installation directory. */
  lemma UnderRoot(root: string, n: string)
    requires PlainName(n)
    ensures Normalize(MainPath(root) + n) == Normalize(root) + [Separator] + n
  {
    NormalizeJoin(root, n);
  }

  lemma JoinInjective(p: string, a: string, b: string)
    requires p + a == p + b
    ensures a == b
  {
    assert (p + a)[|p|..] == a;
    assert (p + b)[|p|..] == b;
  }

  lemma NamesArePlain()
    ensures PlainName(ExeName) && PlainName(ZipName) && PlainName(VersionName) && PlainName(InstalledName)
  {
  }

  /** The launcher's own files lie at four different paths. */
  lemma FixedPathsDistinct(root: string)
    ensures ExePath(root) != ZipPath(root) && ExePath(root) != VersionPath(root)
    ensures ExePath(root) != InstalledPath(root) && ZipPath(root) != VersionPath(root)
    ensures ZipPath(root) != InstalledPath(root) && VersionPath(root) != InstalledPath(root)
  {
    var n := |Normalize(root)| + 1;
    NamesArePlain();
    UnderRoot(root, ExeName);
    UnderRoot(root, ZipName);
    UnderRoot(root, VersionName);
    UnderRoot(root, InstalledName);
    assert |ExePath(root)| == n + 10 && |ZipPath(root)| == n + 7;
    assert |VersionPath(root)| == n + 18 && |InstalledPath(root)| == n + 28;
  }

  /** The runtime folder lies apart from memate.exe, jre.zip and version.properties. */
  predicate SeparateFolder(root: string, folder: Option<string>)
  {
    var p := JreFolderPath(root, folder);
    p != ExePath(root) && p != ZipPath(root) && p != VersionPath(root)
  }

  /** It does when the folder name is a single name other than those three. */
  lemma PlainFolderSeparate(root: string, folder: Option<string>)
    requires PlainName(AsText(folder))
    requires AsText(folder) != ExeName && AsText(folder) != ZipName && AsText(folder) != VersionName
    ensures SeparateFolder(root, folder)
  {
    var n := AsText(folder);
    var q := Normalize(root) + [Separator];
    NamesArePlain();
    UnderRoot(root, n);
    UnderRoot(root, ExeName);
    UnderRoot(root, ZipName);
    UnderRoot(root, VersionName);
    if JreFolderPath(root, folder) == ExePath(root) {
      JoinInjective(q, n, ExeName);
    }
    if JreFolderPath(root, folder) == ZipPath(root) {
      JoinInjective(q, n, ZipName);
    }
    if JreFolderPath(root, folder) == VersionPath(root) {
      JoinInjective(q, n, VersionName);
    }
  }

  /** The directory unzipJRE makes for an archive entry `name + "/"` (or a file entry
      `name`) is the folder lines 106 and 111 look for when jreFolderName is `name`. */
  lemma UnpackedFolderPath(root: string, name: string)
    ensures EntryPath(UnzipTarget(root), name + "/") == JreFolderPath(root, Some(name))
    ensures EntryPath(UnzipTarget(root), name) == JreFolderPath(root, Some(name))
  {
    var n := Normalize(root);
    NormalizeTrailing(root, Separator);
    assert UnzipTarget(root) == n;
    CollapsedSeparator(n);
    NormalizeIdempotent(root);
    CollapsedSeparator(root);
    CollapsedCongruent(n + [Separator], root + [Separator], name);
    EntryPathOfName(UnzipTarget(root), name);
  }

  /** The state right after checkForUpdates has requested version.properties. */
  function Downloaded(s: State, root: string, remote: Remote): State
    requires s.versionURL.Some?
  {
    s.(fs := Fetched(s.fs, s.versionURL.value, VersionPath(root), remote),
       requests := s.requests + [Request(s.versionURL.value, VersionPath(root))])
  }

  /** The comparison step: it throws exactly when the decision does, leaving the files
      alone; otherwise the flags are cleared as the decision says and the new descriptor
      is renamed into place exactly when a flag remains set. */
  lemma CompareMeaning(s: State, root: string, overwrites: bool, installed: Descriptor, newest: Descriptor)
    ensures var r := CompareStep(s, root, overwrites, installed, newest);
      && (r.1.Threw? <==> Decide(installed, newest).Crashed?)
      && (r.1.Threw? ==> r.0.fs == s.fs)
      && (r.1.Completed? ==>
            && r.0.clientNeedsUpdate == (s.clientNeedsUpdate && installed.buildVersion != newest.buildVersion)
            && r.0.jreNeedsUpdate == (s.jreNeedsUpdate &&
                 (|| installed.jreURL != newest.jreURL
                  || installed.jreSignature != newest.jreSignature
                  || installed.jreFolderName != newest.jreFolderName))
            && r.0.fs == (if r.0.clientNeedsUpdate || r.0.jreNeedsUpdate
                          then RenameTo(s.fs, VersionPath(root), InstalledPath(root), overwrites)
                          else s.fs))
  {
    DecideMeaning(installed, newest);
  }

  /** With an installed descriptor the check is the comparison of that descriptor with the
      downloaded one, on the state in which the newest JRE values have been adopted. */
  lemma CheckWithInstalled(s: State, root: string, overwrites: bool, remote: Remote)
    requires s.versionURL.Some? && InstalledPath(root) in s.fs
    ensures
      var d := Downloaded(s, root, remote);
      var newest := ReadDescriptor(d.fs, VersionPath(root));
      && InstalledPath(root) in d.fs
      && d.fs[InstalledPath(root)] == s.fs[InstalledPath(root)]
      && CheckStep(s, root, overwrites, remote) ==
           CompareStep(AdoptNewest(d, newest), root, overwrites, ReadDescriptor(s.fs, InstalledPath(root)), newest)
  {
    FixedPathsDistinct(root);
    var d := Downloaded(s, root, remote);
    assert CheckStep(s, root, overwrites, remote) == CheckDownloaded(d, root, overwrites);
    assert ReadDescriptor(d.fs, InstalledPath(root)) == ReadDescriptor(s.fs, InstalledPath(root));
  }

  /** The update check requests version.properties and nothing else, sets no progress
      value of run's own, keeps the executable URL, and takes over the newest JRE URL and
      folder name exactly when the downloaded descriptor has a JRE URL (lines 207-217). */
  lemma CheckFrame(s: State, root: string, overwrites: bool, remote: Remote)
    requires s.versionURL.Some?
    ensures
      var r := CheckStep(s, root, overwrites, remote);
      var newest := ReadDescriptor(Fetched(s.fs, s.versionURL.value, VersionPath(root), remote), VersionPath(root));
      && r.0.requests == s.requests + [Request(s.versionURL.value, VersionPath(root))]
      && r.0.progress == s.progress
      && r.0.exeURL == s.exeURL
      && r.0.jreURL == (if newest.jreURL.Some? then newest.jreURL else s.jreURL)
      && r.0.jreFolderName == (if newest.jreURL.Some? then newest.jreFolderName else s.jreFolderName)
  {
    var d := Downloaded(s, root, remote);
    assert CheckStep(s, root, overwrites, remote) == CheckDownloaded(d, root, overwrites);
    var newest := ReadDescriptor(d.fs, VersionPath(root));
    var a := AdoptNewest(d, newest);
    if InstalledPath(root) in a.fs {
      CompareFrame(a, root, overwrites, ReadDescriptor(a.fs, InstalledPath(root)), newest);
    }
  }

  /** The comparison changes the file system and the two flags, and nothing else. */
  lemma CompareFrame(s: State, root: string, overwrites: bool, installed: Descriptor, newest: Descriptor)
    ensures var r := CompareStep(s, root, overwrites, installed, newest).0;
      r == s.(fs := r.fs, clientNeedsUpdate := r.clientNeedsUpdate, jreNeedsUpdate := r.jreNeedsUpdate)
  {
  }

  /** First run: with no installedVersions.properties, the flags stay as they are (both set
      on a new launcher) and the downloaded version.properties becomes
      installedVersions.properties. When the descriptor could not be downloaded, a
      version.properties left behind earlier is renamed instead, if there is one. */
  lemma FirstRun(s: State, root: string, overwrites: bool, remote: Remote)
    requires s.versionURL.Some? && InstalledPath(root) !in s.fs
    ensures var r := CheckStep(s, root, overwrites, remote);
      var written := s.versionURL.value in remote && Writable(s.fs, VersionPath(root));
      && r.1 == Completed
      && r.0.clientNeedsUpdate == s.clientNeedsUpdate
      && r.0.jreNeedsUpdate == s.jreNeedsUpdate
      && VersionPath(root) !in r.0.fs
      && (InstalledPath(root) in r.0.fs <==> s.versionURL.value in remote || VersionPath(root) in s.fs)
      && (written ==> r.0.fs[InstalledPath(root)] == File(remote[s.versionURL.value]))
      && (!written && VersionPath(root) in s.fs ==> r.0.fs[InstalledPath(root)] == s.fs[VersionPath(root)])
  {
    FixedPathsDistinct(root);
    var d := Downloaded(s, root, remote);
    assert CheckStep(s, root, overwrites, remote) == CheckDownloaded(d, root, overwrites);
  }

  /** With an installed descriptor: the check raises a NullPointerException exactly when
      the decision does; otherwise the client flag is cleared exactly when the installed
      build equals the newest, and the JRE flag exactly when URL, signature and folder
      name all match. */
  lemma CheckFlags(s: State, root: string, overwrites: bool, remote: Remote)
    requires s.versionURL.Some? && InstalledPath(root) in s.fs
    ensures
      var installed := ReadDescriptor(s.fs, InstalledPath(root));
      var newest := ReadDescriptor(Fetched(s.fs, s.versionURL.value, VersionPath(root), remote), VersionPath(root));
      var r := CheckStep(s, root, overwrites, remote);
      && (r.1.Threw? <==> Decide(installed, newest).Crashed?)
      && (r.1.Completed? ==>
            && r.0.clientNeedsUpdate == (s.clientNeedsUpdate && installed.buildVersion != newest.buildVersion)
            && r.0.jreNeedsUpdate == (s.jreNeedsUpdate &&
                 (|| installed.jreURL != newest.jreURL
                  || installed.jreSignature != newest.jreSignature
                  || installed.jreFolderName != newest.jreFolderName)))
  {
    CheckWithInstalled(s, root, overwrites, remote);
    var d := Downloaded(s, root, remote);
    var newest := ReadDescriptor(d.fs, VersionPath(root));
    CompareMeaning(AdoptNewest(d, newest), root, overwrites, ReadDescriptor(s.fs, InstalledPath(root)), newest);
  }

  /** With an installed descriptor and no exception: installedVersions.properties is
      replaced by the downloaded descriptor exactly when a flag remains set, the download
      left a version.properties and the platform's rename replaces an existing file;
      otherwise it is left as it was. */
  lemma InstalledReplacement(s: State, root: string, overwrites: bool, remote: Remote)
    requires s.versionURL.Some? && InstalledPath(root) in s.fs
    ensures
      var fetched := Fetched(s.fs, s.versionURL.value, VersionPath(root), remote);
      var r := CheckStep(s, root, overwrites, remote);
      var replaced := (r.0.clientNeedsUpdate || r.0.jreNeedsUpdate) && VersionPath(root) in fetched && overwrites;
      r.1.Completed? ==>
        && InstalledPath(root) in r.0.fs
        && r.0.fs[InstalledPath(root)] == (if replaced then fetched[VersionPath(root)] else s.fs[InstalledPath(root)])
        && (VersionPath(root) in r.0.fs <==> VersionPath(root) in fetched && !replaced)
  {
    FixedPathsDistinct(root);
    CheckWithInstalled(s, root, overwrites, remote);
    var d := Downloaded(s, root, remote);
    var newest := ReadDescriptor(d.fs, VersionPath(root));
    CompareMeaning(AdoptNewest(d, newest), root, overwrites, ReadDescriptor(s.fs, InstalledPath(root)), newest);
  }

  /** Where File.renameTo refuses to replace an existing file (Windows), the check never
      changes an installedVersions.properties that is already there, whatever the flags. */
  lemma InstalledNeverReplacedWithoutOverwrite(s: State, root: string, remote: Remote)
    requires s.versionURL.Some? && InstalledPath(root) in s.fs
    ensures var r := CheckStep(s, root, false, remote);
      InstalledPath(root) in r.0.fs && r.0.fs[InstalledPath(root)] == s.fs[InstalledPath(root)]
  {
    CheckWithInstalled(s, root, false, remote);
    var d := Downloaded(s, root, remote);
    var newest := ReadDescriptor(d.fs, VersionPath(root));
    CompareMeaning(AdoptNewest(d, newest), root, false, ReadDescriptor(s.fs, InstalledPath(root)), newest);
  }

  /** The install sequence after a completed check. The executable is requested exactly
      when the client is stale or missing, from the URL setURLS built; the runtime archive
      exactly when the runtime is stale or its folder is missing, and only then is it
      unzipped; jre.zip and version.properties are gone at the end. A null JRE URL makes
      the archive download throw. (The folder name must not be memate.exe or jre.zip, or
      the downloads would change the answer of the folder check in between.) */
  lemma InstallEffects(c: State, root: string, remote: Remote)
    requires c.exeURL.Some?
    requires JreFolderPath(root, c.jreFolderName) != ExePath(root)
    requires JreFolderPath(root, c.jreFolderName) != ZipPath(root)
    ensures
      var fs1 := if FetchExe(c, root) then Fetched(c.fs, c.exeURL.value, ExePath(root), remote) else c.fs;
      var r := InstallStep(c, root, remote); var f, o := r.0, r.1;
      && (o.Threw? <==> FetchJre(c, root) && c.jreURL.None?)
      && (o.Completed? ==>
            var fs2 := if FetchJre(c, root) then Fetched(fs1, c.jreURL.value, ZipPath(root), remote) else fs1;
            && f.requests == c.requests
                 + (if FetchExe(c, root) then [Request(c.exeURL.value, ExePath(root))] else [])
                 + (if FetchJre(c, root) then [Request(c.jreURL.value, ZipPath(root))] else [])
            && f.fs == Deleted(Deleted(
                 if FetchJre(c, root) then Extract(fs2, UnzipTarget(root), ZipEntriesAt(fs2, ZipPath(root))) else fs2,
                 ZipPath(root)), VersionPath(root)))
  {
    ClientEffects(c, root, remote);
    var c1 := ClientStep(c, root, remote).0;
    var jreDir := JreFolderPath(root, c.jreFolderName);
    assert (jreDir in c1.fs) == (jreDir in c.fs);
    assert FetchJre(c1, root) == FetchJre(c, root);
    RuntimeEffects(c1, root, remote);
    var r2 := RuntimeStep(c1, root, remote);
    if r2.1.Completed? {
      var c2 := r2.0;
      assert (jreDir in c2.fs) == (jreDir in c1.fs);
      assert FetchJre(c2, root) == FetchJre(c, root);
      FinishEffects(c2, root);
      assert InstallStep(c, root, remote) == (FinishStep(c2, root), Completed);
    }
  }

  /** Lines 111-120 request nothing; the file system ends as the unzip, when the runtime is
      needed, leaves it, less jre.zip and version.properties. */
  lemma FinishEffects(c: State, root: string)
    ensures var f := FinishStep(c, root);
      && f.requests == c.requests
      && f.fs == Deleted(Deleted(
           if FetchJre(c, root) then Extract(c.fs, UnzipTarget(root), ZipEntriesAt(c.fs, ZipPath(root))) else c.fs,
           ZipPath(root)), VersionPath(root))
  {
  }

  /** Lines 101-105 complete, with the executable requested exactly when the client is
      stale or missing; only the file system, the requests and the progress change. */
  lemma ClientEffects(c: State, root: string, remote: Remote)
    requires c.exeURL.Some?
    ensures var r := ClientStep(c, root, remote);
      && r.1 == Completed
      && r.0 == c.(fs := if FetchExe(c, root) then Fetched(c.fs, c.exeURL.value, ExePath(root), remote) else c.fs,
                   requests := c.requests + (if FetchExe(c, root) then [Request(c.exeURL.value, ExePath(root))] else []),
                   progress := c.progress + [30])
  {
  }

  /** Lines 106-110 throw exactly when the archive is needed and its URL is null;
      otherwise the archive is requested exactly when needed, and only the file system,
      the requests and the progress change. */
  lemma RuntimeEffects(c: State, root: string, remote: Remote)
    ensures var r := RuntimeStep(c, root, remote);
      && (r.1.Threw? <==> FetchJre(c, root) && c.jreURL.None?)
      && (r.1.Completed? ==>
            r.0 == c.(fs := if FetchJre(c, root) then Fetched(c.fs, c.jreURL.value, ZipPath(root), remote) else c.fs,
                      requests := c.requests + (if FetchJre(c, root) then [Request(c.jreURL.value, ZipPath(root))] else []),
                      progress := c.progress + [90]))
  {
  }

  lemma ClientMilestone(c: State, root: string, remote: Remote)
    ensures var r := ClientStep(c, root, remote); var f, o := r.0, r.1;
      f.progress == c.progress + (if o.Completed? then [30] else [])
  {
  }

  lemma RuntimeMilestone(c: State, root: string, remote: Remote)
    ensures var r := RuntimeStep(c, root, remote); var f, o := r.0, r.1;
      f.progress == c.progress + (if o.Completed? then [90] else [])
  {
  }

  lemma FinishMilestones(c: State, root: string)
    ensures FinishStep(c, root).progress == c.progress + [95, 100]
  {
  }

  /** The progress values run sets itself, in the order it sets them (lines 105, 110,
      113 and 120). */
  const Milestones: seq<int> := [30, 90, 95, 100]

  lemma MilestonePrefixNonDecreasing(n: nat)
    requires n <= |Milestones|
    ensures NonDecreasing(Milestones[..n])
  {
  }

  /** Whatever happens, the progress values the install sequence sets are a prefix of
      30, 90, 95, 100 and hence never decrease; a completed install sets all four. */
  lemma InstallMilestones(c: State, root: string, remote: Remote)
    ensures var r := InstallStep(c, root, remote);
      && |c.progress| <= |r.0.progress| <= |c.progress| + |Milestones|
      && r.0.progress == c.progress + Milestones[..|r.0.progress| - |c.progress|]
      && NonDecreasing(r.0.progress[|c.progress|..])
      && (r.1.Completed? ==> r.0.progress == c.progress + Milestones)
  {
    ClientMilestone(c, root, remote);
    var (c1, o1) := ClientStep(c, root, remote);
    var r := InstallStep(c, root, remote);
    var n: nat;
    if o1.Threw? {
      n := 0;
      assert r.0 == c1;
    } else {
      RuntimeMilestone(c1, root, remote);
      var (c2, o2) := RuntimeStep(c1, root, remote);
      if o2.Threw? {
        n := 1;
        assert r.0 == c2;
      } else {
        n := 4;
        FinishMilestones(c2, root);
        assert r.0 == FinishStep(c2, root);
      }
    }
    assert r.0.progress == c.progress + Milestones[..n];
    assert r.0.progress[|c.progress|..] == Milestones[..n];
    MilestonePrefixNonDecreasing(n);
  }

  /** Which downloads a completed run makes, in order: version.properties from the
      release of `tag`; memate.exe from the same release exactly when the client is stale
      or memate.exe is missing after the check; jre.zip from the JRE URL exactly when the
      runtime is stale or the folder the (newest) descriptor names is missing. */
  lemma RunDownloads(s: State, root: string, overwrites: bool, tag: Option<string>, remote: Remote)
    ensures
      var c := CheckStep(SetURLsStep(s.(version := tag)), root, overwrites, remote);
      var r := RunStep(s, root, overwrites, tag, remote);
      r.1.Completed? && SeparateFolder(root, c.0.jreFolderName) ==>
        && (FetchJre(c.0, root) ==> c.0.jreURL.Some?)
        && r.0.requests == s.requests + [Request(VersionURL(tag), VersionPath(root))]
             + (if FetchExe(c.0, root) then [Request(ExeURL(tag), ExePath(root))] else [])
             + (if FetchJre(c.0, root) then [Request(c.0.jreURL.value, ZipPath(root))] else [])
  {
    var s1 := SetURLsStep(s.(version := tag));
    var c := CheckStep(s1, root, overwrites, remote);
    CheckFrame(s1, root, overwrites, remote);
    if c.1.Completed? && SeparateFolder(root, c.0.jreFolderName) {
      assert RunStep(s, root, overwrites, tag, remote) == InstallStep(c.0, root, remote);
      InstallEffects(c.0, root, remote);
    }
  }

  /** After a completed run neither jre.zip nor version.properties exists. */
  lemma RunCleansUp(s: State, root: string, overwrites: bool, tag: Option<string>, remote: Remote)
    ensures var r := RunStep(s, root, overwrites, tag, remote); var f, o := r.0, r.1;
      o.Completed? ==> ZipPath(root) !in f.fs && VersionPath(root) !in f.fs
  {
  }

  /** The install sequence when nothing is stale and both memate.exe and the runtime
      folder exist: no download, no unzip, only the transient files are removed. */
  lemma InstallNothing(c: State, root: string, remote: Remote)
    requires !c.clientNeedsUpdate && !c.jreNeedsUpdate
    requires ExePath(root) in c.fs && JreFolderPath(root, c.jreFolderName) in c.fs
    ensures var r := InstallStep(c, root, remote);
      && r.1 == Completed
      && r.0.requests == c.requests
      && r.0.fs == Deleted(Deleted(c.fs, ZipPath(root)), VersionPath(root))
  {
  }

  /** The install sequence when only the client is stale and the runtime folder exists:
      memate.exe alone is downloaded, the flags stay as they are, and a file other than
      the three launcher files keeps its content. */
  lemma InstallClientOnly(c: State, root: string, remote: Remote, q: string)
    requires c.clientNeedsUpdate && !c.jreNeedsUpdate && c.exeURL.Some?
    requires JreFolderPath(root, c.jreFolderName) in c.fs && SeparateFolder(root, c.jreFolderName)
    requires q in c.fs && q != ExePath(root) && q != ZipPath(root) && q != VersionPath(root)
    ensures var r := InstallStep(c, root, remote);
      && r.1 == Completed
      && r.0.clientNeedsUpdate && !r.0.jreNeedsUpdate
      && r.0.requests == c.requests + [Request(c.exeURL.value, ExePath(root))]
      && q in r.0.fs && r.0.fs[q] == c.fs[q]
      && (c.exeURL.value in remote ==> ExePath(root) in r.0.fs)
  {
    FixedPathsDistinct(root);
    InstallEffects(c, root, remote);
    var fs1 := Fetched(c.fs, c.exeURL.value, ExePath(root), remote);
    assert q in fs1 && fs1[q] == c.fs[q];
    var r := InstallStep(c, root, remote);
    assert r.0 == FinishStep(RuntimeStep(ClientStep(c, root, remote).0, root, remote).0, root);
  }

  /** The install sequence when both components are stale: memate.exe and then the
      archive are downloaded, and the archive is unzipped. A file no archive entry names
      and that is none of the three launcher files keeps its content; memate.exe exists
      when its URL serves it; an archive opening with the directory entry of the runtime
      folder leaves that folder in place. */
  lemma InstallBoth(c: State, root: string, remote: Remote, entries: seq<ZipEntry>, q: string)
    requires c.clientNeedsUpdate && c.jreNeedsUpdate && c.exeURL.Some? && c.jreURL.Some?
    requires c.jreURL.value in remote && remote[c.jreURL.value] == Archive(entries)
    requires SeparateFolder(root, c.jreFolderName) && Writable(c.fs, ZipPath(root))
    requires q in c.fs && q != ExePath(root) && q != ZipPath(root) && q != VersionPath(root)
    requires forall i :: 0 <= i < |entries| ==> EntryPath(UnzipTarget(root), entries[i].name) != q
    ensures var r := InstallStep(c, root, remote);
      && r.1 == Completed
      && r.0.requests == c.requests + [Request(c.exeURL.value, ExePath(root)), Request(c.jreURL.value, ZipPath(root))]
      && q in r.0.fs && r.0.fs[q] == c.fs[q]
      && (c.exeURL.value in remote ==> ExePath(root) in r.0.fs)
      && (|entries| > 0 && entries[0].name == AsText(c.jreFolderName) + "/" ==>
            JreFolderPath(root, c.jreFolderName) in r.0.fs)
  {
    FixedPathsDistinct(root);
    InstallEffects(c, root, remote);
    var target := UnzipTarget(root);
    var fs1 := Fetched(c.fs, c.exeURL.value, ExePath(root), remote);
    var fs2 := Fetched(fs1, c.jreURL.value, ZipPath(root), remote);
    assert ZipEntriesAt(fs2, ZipPath(root)) == entries;
    assert q in fs2 && fs2[q] == c.fs[q];
    ExtractFrame(fs2, target, entries, q);
    if c.exeURL.value in remote {
      assert ExePath(root) in fs2;
      ExtractKeepsPaths(fs2, target, entries, ExePath(root));
    }
    if |entries| > 0 && entries[0].name == AsText(c.jreFolderName) + "/" {
      UnpackedFolderMade(fs2, root, c.jreFolderName, entries);
    }
  }

  /** An archive whose first entry is the runtime folder's directory entry creates that
      folder under the launcher's directory, whatever the rest of the archive does. */
  lemma UnpackedFolderMade(fs: FileMap, root: string, folder: Option<string>, entries: seq<ZipEntry>)
    requires |entries| > 0 && entries[0].name == AsText(folder) + "/"
    ensures JreFolderPath(root, folder) in Extract(fs, UnzipTarget(root), entries)
  {
    var name := AsText(folder);
    assert IsDirectoryEntry(entries[0]) by {
      assert entries[0].name[|entries[0].name| - 1] == (name + "/")[|name|];
    }
    assert entries[..0] == [];
    ExtractMakesDirectory(fs, UnzipTarget(root), entries, 0);
    UnpackedFolderPath(root, name);
  }

  /** The launcher state a new Main has once run has stored `tag` and called setURLS. */
  function Started(fs: FileMap, tag: Option<string>): State
  {
    SetURLsStep(Initial(fs).(version := tag))
  }

  /** A new launcher's run is the check on the started state, followed by the install
      sequence when the check completes. */
  lemma RunOfNew(fs: FileMap, root: string, overwrites: bool, tag: Option<string>, remote: Remote)
    ensures var c := CheckStep(Started(fs, tag), root, overwrites, remote);
      RunStep(Initial(fs), root, overwrites, tag, remote) ==
        if c.1.Threw? then c else InstallStep(c.0, root, remote)
  {
  }

  /** The check of the up-to-date scenario below. */
  lemma UpToDateCheck(fs: FileMap, root: string, overwrites: bool, tag: Option<string>, props: map<string, string>, remote: Remote)
    requires InstalledPath(root) in fs && Populated(ReadDescriptor(fs, InstalledPath(root)))
    requires VersionURL(tag) in remote && remote[VersionURL(tag)] == Properties(props)
    requires Writable(fs, VersionPath(root))
    requires DescriptorOf(props) == ReadDescriptor(fs, InstalledPath(root))
    ensures var r := CheckStep(Started(fs, tag), root, overwrites, remote);
      && r.1 == Completed
      && !r.0.clientNeedsUpdate && !r.0.jreNeedsUpdate
      && r.0.jreFolderName == DescriptorOf(props).jreFolderName
      && r.0.requests == [Request(VersionURL(tag), VersionPath(root))]
      && r.0.fs == fs[VersionPath(root) := File(Properties(props))]
  {
    var s1 := Started(fs, tag);
    var fetched := fs[VersionPath(root) := File(Properties(props))];
    assert Fetched(s1.fs, s1.versionURL.value, VersionPath(root), remote) == fetched;
    assert ReadDescriptor(fetched, VersionPath(root)) == DescriptorOf(props);
    CheckFlags(s1, root, overwrites, remote);
    CheckFrame(s1, root, overwrites, remote);
    CheckWithInstalled(s1, root, overwrites, remote);
    var d := Downloaded(s1, root, remote);
    var newest := DescriptorOf(props);
    CompareMeaning(AdoptNewest(d, newest), root, overwrites, ReadDescriptor(fs, InstalledPath(root)), newest);
  }

  /** Up to date: a new launcher finds an installed descriptor with every key that equals
      the newest one, with memate.exe and the runtime folder in place. The run then
      downloads only version.properties, clears both flags, leaves
      installedVersions.properties alone and ends with the file system it started with,
      less the two transient files. */
  lemma UpToDateRun(fs: FileMap, root: string, overwrites: bool, tag: Option<string>, props: map<string, string>, remote: Remote)
    requires InstalledPath(root) in fs && Populated(ReadDescriptor(fs, InstalledPath(root)))
    requires VersionURL(tag) in remote && remote[VersionURL(tag)] == Properties(props)
    requires Writable(fs, VersionPath(root))
    requires DescriptorOf(props) == ReadDescriptor(fs, InstalledPath(root))
    requires SeparateFolder(root, DescriptorOf(props).jreFolderName)
    requires ExePath(root) in fs && JreFolderPath(root, DescriptorOf(props).jreFolderName) in fs
    ensures var r := RunStep(Initial(fs), root, overwrites, tag, remote);
      && r.1 == Completed
      && !r.0.clientNeedsUpdate && !r.0.jreNeedsUpdate
      && r.0.requests == [Request(VersionURL(tag), VersionPath(root))]
      && r.0.fs == Deleted(Deleted(fs, ZipPath(root)), VersionPath(root))
  {
    FixedPathsDistinct(root);
    UpToDateCheck(fs, root, overwrites, tag, props, remote);
    var c := CheckStep(Started(fs, tag), root, overwrites, remote).0;
    RunOfNew(fs, root, overwrites, tag, remote);
    InstallNothing(c, root, remote);
    var fetched := fs[VersionPath(root) := File(Properties(props))];
    assert Deleted(Deleted(fetched, ZipPath(root)), VersionPath(root)) == Deleted(Deleted(fs, ZipPath(root)), VersionPath(root));
  }

  /** The check of the new-client scenario below. */
  lemma NewClientCheck(fs: FileMap, root: string, overwrites: bool, tag: Option<string>, props: map<string, string>, remote: Remote)
    requires InstalledPath(root) in fs && Populated(ReadDescriptor(fs, InstalledPath(root)))
    requires VersionURL(tag) in remote && remote[VersionURL(tag)] == Properties(props)
    requires Writable(fs, VersionPath(root))
    requires DescriptorOf(props).buildVersion != ReadDescriptor(fs, InstalledPath(root)).buildVersion
    requires DescriptorOf(props).(buildVersion := None) == ReadDescriptor(fs, InstalledPath(root)).(buildVersion := None)
    ensures var r := CheckStep(Started(fs, tag), root, overwrites, remote);
      && r.1 == Completed
      && r.0.clientNeedsUpdate && !r.0.jreNeedsUpdate
      && r.0.exeURL == Some(ExeURL(tag))
      && r.0.jreFolderName == DescriptorOf(props).jreFolderName
      && r.0.requests == [Request(VersionURL(tag), VersionPath(root))]
      && InstalledPath(root) in r.0.fs
      && r.0.fs[InstalledPath(root)] == (if overwrites then File(Properties(props)) else fs[InstalledPath(root)])
      && (forall q :: q in fs && q != VersionPath(root) ==> q in r.0.fs)
  {
    var s1 := Started(fs, tag);
    var fetched := fs[VersionPath(root) := File(Properties(props))];
    assert Fetched(s1.fs, s1.versionURL.value, VersionPath(root), remote) == fetched;
    assert ReadDescriptor(fetched, VersionPath(root)) == DescriptorOf(props);
    CheckFlags(s1, root, overwrites, remote);
    CheckFrame(s1, root, overwrites, remote);
    InstalledReplacement(s1, root, overwrites, remote);
    CheckWithInstalled(s1, root, overwrites, remote);
    var d := Downloaded(s1, root, remote);
    var newest := DescriptorOf(props);
    CompareMeaning(AdoptNewest(d, newest), root, overwrites, ReadDescriptor(fs, InstalledPath(root)), newest);
  }

  /** A new build with the same runtime: a new launcher finds an installed descriptor with
      every key, the newest one differs from it only in build_version, and the runtime
      folder is in place. The run then fetches version.properties and memate.exe only,
      does not unzip, and, where renaming replaces, leaves the new descriptor as
      installedVersions.properties. */
  lemma NewClientOnlyRun(fs: FileMap, root: string, overwrites: bool, tag: Option<string>, props: map<string, string>, remote: Remote)
    requires InstalledPath(root) in fs && Populated(ReadDescriptor(fs, InstalledPath(root)))
    requires VersionURL(tag) in remote && remote[VersionURL(tag)] == Properties(props)
    requires Writable(fs, VersionPath(root))
    requires DescriptorOf(props).buildVersion != ReadDescriptor(fs, InstalledPath(root)).buildVersion
    requires DescriptorOf(props).(buildVersion := None) == ReadDescriptor(fs, InstalledPath(root)).(buildVersion := None)
    requires SeparateFolder(root, DescriptorOf(props).jreFolderName)
    requires JreFolderPath(root, DescriptorOf(props).jreFolderName) in fs
    ensures var r := RunStep(Initial(fs), root, overwrites, tag, remote);
      && r.1 == Completed
      && r.0.clientNeedsUpdate && !r.0.jreNeedsUpdate
      && r.0.requests == [Request(VersionURL(tag), VersionPath(root)), Request(ExeURL(tag), ExePath(root))]
      && InstalledPath(root) in r.0.fs
      && r.0.fs[InstalledPath(root)] == (if overwrites then File(Properties(props)) else fs[InstalledPath(root)])
      && JreFolderPath(root, DescriptorOf(props).jreFolderName) in r.0.fs
      && (ExeURL(tag) in remote ==> ExePath(root) in r.0.fs)
  {
    FixedPathsDistinct(root);
    var folder := JreFolderPath(root, DescriptorOf(props).jreFolderName);
    NewClientCheck(fs, root, overwrites, tag, props, remote);
    var c := CheckStep(Started(fs, tag), root, overwrites, remote).0;
    RunOfNew(fs, root, overwrites, tag, remote);
    assert folder in c.fs;
    InstallClientOnly(c, root, remote, InstalledPath(root));
    InstallClientOnly(c, root, remote, folder);
  }

  /** A new build where File.renameTo cannot replace an existing file (Windows): the first
      run leaves the old installedVersions.properties in place, so the next launch finds
      the client stale again and downloads memate.exe once more, and so on for every
      launch. */
  lemma UpdateRepeatsWithoutOverwrite(fs: FileMap, root: string, tag: Option<string>, props: map<string, string>, remote: Remote)
    requires InstalledPath(root) in fs && Populated(ReadDescriptor(fs, InstalledPath(root)))
    requires VersionURL(tag) in remote && remote[VersionURL(tag)] == Properties(props)
    requires Writable(fs, VersionPath(root))
    requires DescriptorOf(props).buildVersion != ReadDescriptor(fs, InstalledPath(root)).buildVersion
    requires DescriptorOf(props).(buildVersion := None) == ReadDescriptor(fs, InstalledPath(root)).(buildVersion := None)
    requires SeparateFolder(root, DescriptorOf(props).jreFolderName)
    requires JreFolderPath(root, DescriptorOf(props).jreFolderName) in fs
    ensures var first := RunStep(Initial(fs), root, false, tag, remote);
      var second := RunStep(Initial(first.0.fs), root, false, tag, remote);
      && second.1 == Completed
      && second.0.clientNeedsUpdate
      && second.0.requests == [Request(VersionURL(tag), VersionPath(root)), Request(ExeURL(tag), ExePath(root))]
  {
    NewClientOnlyRun(fs, root, false, tag, props, remote);
    var fs1 := RunStep(Initial(fs), root, false, tag, remote).0.fs;
    assert ReadDescriptor(fs1, InstalledPath(root)) == ReadDescriptor(fs, InstalledPath(root));
    NewClientOnlyRun(fs1, root, false, tag, props, remote);
  }

  /** The same new build where the rename replaces the installed descriptor, as lines
      270-274 intend: once the first run has downloaded memate.exe, the next launch is up
      to date and downloads only version.properties. */
  lemma UpdateSettlesWhenRenameReplaces(fs: FileMap, root: string, tag: Option<string>, props: map<string, string>, remote: Remote)
    requires InstalledPath(root) in fs && Populated(ReadDescriptor(fs, InstalledPath(root)))
    requires VersionURL(tag) in remote && remote[VersionURL(tag)] == Properties(props)
    requires Writable(fs, VersionPath(root))
    requires ExeURL(tag) in remote
    requires DescriptorOf(props).buildVersion.Some?
    requires DescriptorOf(props).buildVersion != ReadDescriptor(fs, InstalledPath(root)).buildVersion
    requires DescriptorOf(props).(buildVersion := None) == ReadDescriptor(fs, InstalledPath(root)).(buildVersion := None)
    requires SeparateFolder(root, DescriptorOf(props).jreFolderName)
    requires JreFolderPath(root, DescriptorOf(props).jreFolderName) in fs
    ensures var first := RunStep(Initial(fs), root, true, tag, remote);
      var second := RunStep(Initial(first.0.fs), root, true, tag, remote);
      && second.1 == Completed
      && !second.0.clientNeedsUpdate && !second.0.jreNeedsUpdate
      && second.0.requests == [Request(VersionURL(tag), VersionPath(root))]
  {
    NewClientOnlyRun(fs, root, true, tag, props, remote);
    var fs1 := RunStep(Initial(fs), root, true, tag, remote).0.fs;
    assert PropertiesAt(fs1, InstalledPath(root)) == props;
    assert ReadDescriptor(fs1, InstalledPath(root)) == DescriptorOf(props);
    UpToDateRun(fs1, root, true, tag, props, remote);
  }

  /** The check of the first-run scenario below. */
  lemma FirstRunCheck(fs: FileMap, root: string, overwrites: bool, tag: Option<string>, props: map<string, string>, remote: Remote)
    requires InstalledPath(root) !in fs
    requires VersionURL(tag) in remote && remote[VersionURL(tag)] == Properties(props)
    requires Writable(fs, VersionPath(root))
    requires JreURLKey in props
    ensures var r := CheckStep(Started(fs, tag), root, overwrites, remote);
      && r.1 == Completed
      && r.0.clientNeedsUpdate && r.0.jreNeedsUpdate
      && r.0.exeURL == Some(ExeURL(tag))
      && r.0.jreURL == Some(props[JreURLKey])
      && r.0.jreFolderName == DescriptorOf(props).jreFolderName
      && r.0.requests == [Request(VersionURL(tag), VersionPath(root))]
      && r.0.fs == (fs - {VersionPath(root)})[InstalledPath(root) := File(Properties(props))]
  {
    FixedPathsDistinct(root);
    var s1 := Started(fs, tag);
    var fetched := fs[VersionPath(root) := File(Properties(props))];
    assert Fetched(s1.fs, s1.versionURL.value, VersionPath(root), remote) == fetched;
    assert ReadDescriptor(fetched, VersionPath(root)) == DescriptorOf(props);
    var d := Downloaded(s1, root, remote);
    assert CheckStep(s1, root, overwrites, remote) == CheckDownloaded(d, root, overwrites);
    assert RenameTo(fetched, VersionPath(root), InstalledPath(root), overwrites)
        == (fs - {VersionPath(root)})[InstalledPath(root) := File(Properties(props))];
    CheckFrame(s1, root, overwrites, remote);
  }

  /** First run end to end: a new launcher with no installed descriptor, a descriptor
      whose JRE URL serves an archive none of whose entries lands on
      installedVersions.properties. The run fetches the descriptor, memate.exe and
      jre.zip, in that order, and ends with the downloaded descriptor as
      installedVersions.properties. */
  lemma FirstRunEndToEnd(fs: FileMap, root: string, overwrites: bool, tag: Option<string>,
                         props: map<string, string>, entries: seq<ZipEntry>, remote: Remote)
    requires InstalledPath(root) !in fs
    requires VersionURL(tag) in remote && remote[VersionURL(tag)] == Properties(props)
    requires Writable(fs, VersionPath(root))
    requires JreURLKey in props && props[JreURLKey] in remote && remote[props[JreURLKey]] == Archive(entries)
    requires forall i :: 0 <= i < |entries| ==> EntryPath(UnzipTarget(root), entries[i].name) != InstalledPath(root)
    requires SeparateFolder(root, DescriptorOf(props).jreFolderName) && Writable(fs, ZipPath(root))
    ensures var r := RunStep(Initial(fs), root, overwrites, tag, remote);
      && r.1 == Completed
      && r.0.requests == [Request(VersionURL(tag), VersionPath(root)),
                          Request(ExeURL(tag), ExePath(root)),
                          Request(props[JreURLKey], ZipPath(root))]
      && InstalledPath(root) in r.0.fs
      && r.0.fs[InstalledPath(root)] == File(Properties(props))
  {
    FixedPathsDistinct(root);
    FirstRunCheck(fs, root, overwrites, tag, props, remote);
    var c := CheckStep(Started(fs, tag), root, overwrites, remote).0;
    assert Writable(c.fs, ZipPath(root));
    RunOfNew(fs, root, overwrites, tag, remote);
    InstallBoth(c, root, remote, entries, InstalledPath(root));
  }

  /** What the same first run leaves installed: memate.exe when the release serves it,
      and the runtime folder when the archive opens with its directory entry. */
  lemma FirstRunLeavesInstall(fs: FileMap, root: string, overwrites: bool, tag: Option<string>,
                              props: map<string, string>, entries: seq<ZipEntry>, remote: Remote)
    requires InstalledPath(root) !in fs
    requires VersionURL(tag) in remote && remote[VersionURL(tag)] == Properties(props)
    requires Writable(fs, VersionPath(root))
    requires JreURLKey in props && props[JreURLKey] in remote && remote[props[JreURLKey]] == Archive(entries)
    requires forall i :: 0 <= i < |entries| ==> EntryPath(UnzipTarget(root), entries[i].name) != InstalledPath(root)
    requires SeparateFolder(root, DescriptorOf(props).jreFolderName) && Writable(fs, ZipPath(root))
    ensures var r := RunStep(Initial(fs), root, overwrites, tag, remote);
      && (ExeURL(tag) in remote ==> ExePath(root) in r.0.fs)
      && (|entries| > 0 && entries[0].name == AsText(DescriptorOf(props).jreFolderName) + "/" ==>
            JreFolderPath(root, DescriptorOf(props).jreFolderName) in r.0.fs)
  {
    FixedPathsDistinct(root);
    FirstRunCheck(fs, root, overwrites, tag, props, remote);
    var c := CheckStep(Started(fs, tag), root, overwrites, remote).0;
    assert Writable(c.fs, ZipPath(root));
    RunOfNew(fs, root, overwrites, tag, remote);
    InstallBoth(c, root, remote, entries, InstalledPath(root));
  }

  /** First run, then the next launch: when the newest descriptor has every key, the
      release serves memate.exe and the archive opens with the directory entry of the
      runtime folder, the first run leaves everything in place, so the second launch is up
      to date: it requests version.properties alone and clears both flags. */
  lemma FirstRunThenUpToDate(fs: FileMap, root: string, overwrites: bool, tag: Option<string>,
                             props: map<string, string>, entries: seq<ZipEntry>, remote: Remote)
    requires InstalledPath(root) !in fs
    requires VersionURL(tag) in remote && remote[VersionURL(tag)] == Properties(props)
    requires Writable(fs, VersionPath(root)) && Writable(fs, ZipPath(root))
    requires Populated(DescriptorOf(props)) && ExeURL(tag) in remote
    requires props[JreURLKey] in remote && remote[props[JreURLKey]] == Archive(entries)
    requires |entries| > 0 && entries[0].name == props[JreFolderNameKey] + "/"
    requires forall i :: 0 <= i < |entries| ==> EntryPath(UnzipTarget(root), entries[i].name) != InstalledPath(root)
    requires SeparateFolder(root, DescriptorOf(props).jreFolderName)
    ensures var first := RunStep(Initial(fs), root, overwrites, tag, remote);
      var second := RunStep(Initial(first.0.fs), root, overwrites, tag, remote);
      && second.1 == Completed
      && !second.0.clientNeedsUpdate && !second.0.jreNeedsUpdate
      && second.0.requests == [Request(VersionURL(tag), VersionPath(root))]
  {
    FirstRunEndToEnd(fs, root, overwrites, tag, props, entries, remote);
    FirstRunLeavesInstall(fs, root, overwrites, tag, props, entries, remote);
    RunCleansUp(Initial(fs), root, overwrites, tag, remote);
    var fs1 := RunStep(Initial(fs), root, overwrites, tag, remote).0.fs;
    assert PropertiesAt(fs1, InstalledPath(root)) == props;
    UpToDateRun(fs1, root, overwrites, tag, props, remote);
  }
}
