# MeMate launcher: update decision and install sequence

The MeMate launcher (`src/com/isp/mematelauncher/Main.java`) keeps a Windows
installation of the MeMate client and its bundled Java runtime up to date. On every
start it builds the download URLs of the latest release from the release tag. It then
downloads `version.properties` and compares it with the `installedVersions.properties`
left by the previous run. Next it fetches `memate.exe` when the client is stale or
missing. It fetches and unzips `jre.zip` when the runtime is stale or its folder is
missing. Finally it deletes the transient files and sets the progress bar to 30, 90, 95
and 100 along the way.

This project models that core in Dafny:

- `files.dfy`, module `Files`:
  - the installation directory as a flat map from path to node; properties files are key/value maps and archives are sequences of entries;
  - the path `java.io.File` makes of a string on Windows (`Normalize`): `/` is read as `\`, runs of separators merge into one, and a trailing separator is dropped. Every path the launcher builds is in this form, and the starting map is assumed to hold only such paths (a key such as `C:/memate.exe` would be a different file from `C:\memate.exe`). Lemmas show how it behaves under joining onto a name;
  - `File.renameTo` and `File.delete`;
  - a download as "copy what the URL serves to the path", unless a directory stands there;
  - null Java strings as `Option`, rendered as `"null"` by concatenation.
- `urls.dfy`, module `Urls`: the URLs that `setURLS` concatenates from the tag, with their inverse.
- `versions.dfy`, module `Versions`:
  - the four-key version descriptor;
  - the decision of `checkForUpdates`, including the NullPointerExceptions thrown at lines 259 and 264 when an installed key is missing.
- `unzip.dfy`, module `Unzip`:
  - the entry loop of `unzipJRE` as a function over the entry stream, with its lemmas;
  - the 1024-byte buffer loop as methods over an array.
- `progress.dfy`, module `Progress`: the integer progress arithmetic of `downloadFile`. It spells out Java's truncating division and its `(int)` wrap-around.
- `launcher.dfy`, module `Launcher`:
  - every step as a function from the launcher state before the step to the state after it;
  - class `Launcher`, which holds `Main`'s fields. Each of its methods (`Run`, `CheckForUpdates`, `UnzipJre`, …) is proved to perform exactly the corresponding step function.
- `launcher_properties.dfy`, module `LauncherProperties`: what those steps guarantee. Among other things it covers:
  - the flags;
  - the replacement of the installed descriptor;
  - which downloads happen, in what order, and the unzip;
  - cleanup and milestones;
  - whole runs from a new launcher: first run, up to date, and new client only.

Decisions the model makes:

- **Outcome of a run.** A run ends with `Completed` or `Threw(NullPointer(line))`. Among the modelled steps, only three uncaught exceptions can end it early: lines 259 and 264 for a missing installed key, and line 358 when `jreURL` is still null. Every exception the code catches leaves the state as the catch leaves it.
- **Release tag.** The tag returned by `getLatestRelease` is an input: `None` stands for the case where that request failed and `version` stayed null.
- **The remote side.** What each URL serves is the map `remote`; a URL outside it cannot be opened, and its download changes no file.
- **Renaming.** Whether `File.renameTo` may replace an existing file is the parameter `overwrites`. The Windows runtime refuses; other platforms replace.
- **Paths.** A path is the one `new File(...)` names, so `root\jre`, `root/jre/` and `root\\jre` are one file. A zip entry `jre/` therefore creates exactly the folder that lines 106 and 111 test. NTFS's case-insensitivity is not modelled (see below).
- **Occupied download target.** A download onto a path where a directory stands changes nothing: `FileOutputStream` fails at line 363 and the catch at line 399 leaves the directory. The request is still logged, because `openConnection` ran first.

Behaviour of the code worth noting:

- **Commit timing.** The installed descriptor is renamed into place during the check (line 273), before any download. Nothing is staged and nothing is rolled back.
- **Failed downloads and extraction.** A failed download leaves whatever was written. A failed extraction is caught, and the run carries on to cleanup.
- **Archive entry paths.** These are not checked for traversal: an entry may name any path, including `installedVersions.properties`.
- **Incomplete descriptors.** They are not rejected. Missing keys read as null, which throws at 259 or 264 or simply compares unequal.
- **The unzip condition.** It is evaluated again after the download (line 111). `jre.zip` and `version.properties` are deleted on every completed run.

## Model

| member | source | states |
|---|---|---|
| Progress.ToInt32 | src/com/isp/mematelauncher/Main.java:376-378 | the (int) cast yields a 32-bit value and is the identity on values already in range |
| Progress.PercentOf | src/com/isp/mematelauncher/Main.java:361-372 | the percentage is undefined (division by zero) exactly when the declared size lies strictly between -100 and 100 |
| Progress.ExeStage | src/com/isp/mematelauncher/Main.java:376 | for a percentage in [0, 100] the memate.exe bar value lies in [10, 30] |
| Progress.VersionStage | src/com/isp/mematelauncher/Main.java:378 | for a percentage in [0, 100] the version.properties bar value lies in [0, 10] |
| Progress.PercentWithinHundred | src/com/isp/mematelauncher/Main.java:361-372 | from 10000 bytes of declared size on, a partial download's percentage is defined and lies in [0, 100] |
| Progress.PercentMonotone | src/com/isp/mematelauncher/Main.java:372 | more bytes written never gives a smaller percentage |
| Progress.StagesMonotone | src/com/isp/mematelauncher/Main.java:376-378 | both stage values are non-decreasing in the percentage over [0, 100] |
| Progress.SmallFileOvershoot | src/com/isp/mematelauncher/Main.java:361-378 | a 150-byte descriptor reaches 150 percent and bar value 15; a 199-byte file reaches 199 percent and exe bar value 49 |
| Progress.ScaledPercentOf | src/com/isp/mematelauncher/Main.java:372 | intended percentage: undefined exactly when the declared size is not positive |
| Progress.ScaledPercentWithinHundred | src/com/isp/mematelauncher/Main.java:372-378 | for every positive size the intended percentage lies in [0, 100] and both stage values stay in their bands |
| Urls.AssetURLRoundTrip | src/com/isp/mematelauncher/Main.java:167-168 | the tag (or "null") is recovered from every URL setURLS builds |
| Urls.AssetURLInjective | src/com/isp/mematelauncher/Main.java:167-168 | different tags give different download URLs |
| Urls.ExeAndVersionURLsDiffer | src/com/isp/mematelauncher/Main.java:167-168 | the memate.exe URL never equals a version.properties URL |
| Versions.DecideMeaning | src/com/isp/mematelauncher/Main.java:259-269 | when nothing throws: client stale iff the build versions differ; runtime current iff URL, signature and folder name all match. A fully populated installed descriptor never throws; line 259 throws iff the installed build version is missing; every throw is at 259 or 264 |
| Versions.JreNullPointer | src/com/isp/mematelauncher/Main.java:264-265 | line 264 throws exactly when it reaches a null installed value: the URL, or the signature after equal URLs, or the folder name after equal URLs and signatures |
| Files.CollapsedAppend | src/com/isp/mematelauncher/Main.java:291 | appending a name without separators to a path appends it unchanged to the collapsed form |
| Files.CollapsedSeparator | src/com/isp/mematelauncher/Main.java:291 | a separator after a path collapses to the path's normal form plus a single separator |
| Files.NormalizeJoin | src/com/isp/mematelauncher/Main.java:291 | joining a plain name onto a path with a separator yields the path's normal form, a separator and the name |
| Files.CollapsedCongruent | src/com/isp/mematelauncher/Main.java:291 | two strings with the same collapsed form keep the same collapsed form after any common suffix |
| Files.NormalizeTrailing | src/com/isp/mematelauncher/Main.java:291-294 | a trailing `/` or `\` does not change the file a path names |
| Files.CollapsedClean | src/com/isp/mematelauncher/Main.java:291 | the collapsed form has no `/` and no two separators in a row |
| Files.CollapsedOfClean | src/com/isp/mematelauncher/Main.java:291 | a path already clean collapses to itself |
| Files.NormalizeIsNormal | src/com/isp/mematelauncher/Main.java:291 | the normal form is clean and has no trailing separator |
| Files.NormalizeIdempotent | src/com/isp/mematelauncher/Main.java:284-291 | making a File of a File's path names the same file |
| Unzip.EntryPathOfName | src/com/isp/mematelauncher/Main.java:291-294 | the entry `name/` names the same file as `name`, and a plain name lands directly below the target's normal form |
| Unzip.ExtractKeepsPaths | src/com/isp/mematelauncher/Main.java:289-310 | extraction never removes a path |
| Unzip.ExtractFrame | src/com/isp/mematelauncher/Main.java:289-310 | a path that no entry's normalised path equals keeps its presence and content |
| Unzip.ExtractWritesFile | src/com/isp/mematelauncher/Main.java:296-307 | when the loop completes, a file entry whose path no later entry names holds exactly its bytes at that path |
| Unzip.ExtractMakesDirectory | src/com/isp/mematelauncher/Main.java:292-295 | a directory entry reached without an exception leaves its path present, whatever follows |
| Unzip.ExtractAppend | src/com/isp/mematelauncher/Main.java:288-310 | entries are applied in stream order: a stream is its first part, then, only if that part completed, its second part |
| Unzip.ReadChunk | src/com/isp/mematelauncher/Main.java:303 | one read delivers between 1 and buffer-length bytes of the entry from the current position, or -1 at its end |
| Unzip.CopyEntry | src/com/isp/mematelauncher/Main.java:300-307 | whatever the chunk sizes, the bytes written are exactly the entry's bytes, in order |
| Launcher.Launcher.constructor | src/com/isp/mematelauncher/Main.java:55-67 | a new launcher has both flags set and every URL and name null |
| Launcher.Launcher.SetURLs | src/com/isp/mematelauncher/Main.java:163-175 | sets the memate.exe and version.properties URLs of the release `version` and nothing else |
| Launcher.Launcher.DownloadFile | src/com/isp/mematelauncher/Main.java:350-403 | a null URL throws at 358 with nothing changed; otherwise the request is logged and the served content lands at the normalised path unless a directory stands there |
| Launcher.Launcher.CheckForUpdates | src/com/isp/mematelauncher/Main.java:193-258 | performs exactly the check step: download, adopt the newest JRE values, first-run rename or comparison |
| Launcher.Launcher.CompareVersions | src/com/isp/mematelauncher/Main.java:259-274 | performs exactly the comparison step, with its NullPointerExceptions |
| Launcher.Launcher.UnzipJre | src/com/isp/mematelauncher/Main.java:279-318 | the file system becomes the extraction of jre.zip's entries into the installation directory, at the paths java.io.File makes of them, stopping at a file entry that meets a directory |
| Launcher.Launcher.DeleteZip | src/com/isp/mematelauncher/Main.java:320-334 | jre.zip is removed and nothing else changes |
| Launcher.Launcher.DeleteVersionInfo | src/com/isp/mematelauncher/Main.java:336-343 | version.properties is removed and nothing else changes |
| Launcher.Launcher.FetchClient | src/com/isp/mematelauncher/Main.java:101-105 | performs exactly lines 101-105: the conditional memate.exe download, then milestone 30 |
| Launcher.Launcher.FetchRuntime | src/com/isp/mematelauncher/Main.java:106-110 | performs exactly lines 106-110: the conditional jre.zip download, then milestone 90 |
| Launcher.Launcher.Finish | src/com/isp/mematelauncher/Main.java:111-120 | performs exactly lines 111-120: conditional unzip, 95, both deletions, 100 |
| Launcher.Launcher.Run | src/com/isp/mematelauncher/Main.java:74-131 | performs exactly the run step once the tag is known |
| LauncherProperties.UnderRoot | src/com/isp/mematelauncher/Main.java:92-106 | `mainPath + name` for a plain name is the root's normal form, a separator and the name |
| LauncherProperties.FixedPathsDistinct | src/com/isp/mematelauncher/Main.java:92-93 | memate.exe, jre.zip, version.properties and installedVersions.properties are four different files |
| LauncherProperties.PlainFolderSeparate | src/com/isp/mematelauncher/Main.java:106 | a plain runtime folder name other than the three transient or client file names names a different file from each of them |
| LauncherProperties.UnpackedFolderPath | src/com/isp/mematelauncher/Main.java:284-294 | the entry `name/` and the entry `name`, unzipped into the installation directory, are the folder line 106 tests |
| LauncherProperties.UnpackedFolderMade | src/com/isp/mematelauncher/Main.java:289-295 | an archive opening with the folder's directory entry creates the folder line 106 tests |
| LauncherProperties.CompareFrame | src/com/isp/mematelauncher/Main.java:259-274 | the comparison changes only the file system and the two flags |
| LauncherProperties.CompareMeaning | src/com/isp/mematelauncher/Main.java:259-274 | the comparison throws exactly when the decision does, leaving files alone; otherwise flags are cleared as decided and the descriptor is renamed exactly when a flag remains set |
| LauncherProperties.CheckWithInstalled | src/com/isp/mematelauncher/Main.java:206-240 | with an installed descriptor, the check is the comparison of it with the downloaded one, and the download leaves it untouched |
| LauncherProperties.CheckFrame | src/com/isp/mematelauncher/Main.java:205-217 | the check requests only version.properties, keeps the exe URL and progress, and adopts the newest JRE URL and folder name exactly when the descriptor has a JRE URL |
| LauncherProperties.FirstRun | src/com/isp/mematelauncher/Main.java:224-230 | first run: completes, flags unchanged, no version.properties left; the installed file exists iff something was served or left over. It holds what the URL served when that was written, else the leftover version.properties |
| LauncherProperties.CheckFlags | src/com/isp/mematelauncher/Main.java:259-269 | throws exactly when the decision does; otherwise client flag = old flag and build versions differ, JRE flag = old flag and one of the three JRE values differs |
| LauncherProperties.InstalledReplacement | src/com/isp/mematelauncher/Main.java:270-274 | the installed descriptor becomes the downloaded one exactly when a flag remains set, the download left a version.properties and the rename may replace; otherwise it is unchanged |
| LauncherProperties.InstalledNeverReplacedWithoutOverwrite | src/com/isp/mematelauncher/Main.java:270-274 | where the rename cannot replace, an existing installedVersions.properties is never changed by the check |
| LauncherProperties.InstallEffects | src/com/isp/mematelauncher/Main.java:101-117 | the install requests memate.exe iff client stale or missing, then jre.zip iff runtime stale or folder missing. It throws iff jre.zip is needed and the JRE URL is null. Its final file system is given exactly: unzip only when jre.zip was needed, then both deletions |
| LauncherProperties.ClientEffects | src/com/isp/mematelauncher/Main.java:101-105 | lines 101-105 complete, download memate.exe exactly when it is stale or missing, and add 30 |
| LauncherProperties.RuntimeEffects | src/com/isp/mematelauncher/Main.java:106-110 | lines 106-110 throw iff jre.zip is needed and the JRE URL is null; otherwise they download it exactly when needed and add 90 |
| LauncherProperties.FinishEffects | src/com/isp/mematelauncher/Main.java:111-117 | lines 111-117 request nothing; the file system is the extraction (only when jre.zip was needed) less jre.zip and version.properties |
| LauncherProperties.ClientMilestone | src/com/isp/mematelauncher/Main.java:101-105 | lines 101-105 add 30 to the progress values exactly when they complete |
| LauncherProperties.RuntimeMilestone | src/com/isp/mematelauncher/Main.java:106-110 | lines 106-110 add 90 to the progress values exactly when they complete |
| LauncherProperties.FinishMilestones | src/com/isp/mematelauncher/Main.java:111-120 | lines 111-120 add 95 and then 100 |
| LauncherProperties.InstallMilestones | src/com/isp/mematelauncher/Main.java:105-120 | the values set are always a prefix of 30, 90, 95, 100 and never decrease; a completed install sets all four |
| LauncherProperties.RunDownloads | src/com/isp/mematelauncher/Main.java:98-110 | a completed run requests version.properties of the tag, then memate.exe of the tag iff client stale or exe missing, then jre.zip from the JRE URL iff runtime stale or folder missing |
| LauncherProperties.RunCleansUp | src/com/isp/mematelauncher/Main.java:116-117 | after a completed run neither jre.zip nor version.properties exists |
| LauncherProperties.RunOfNew | src/com/isp/mematelauncher/Main.java:94-100 | a new launcher's run is the check on the started state followed, if it completes, by the install |
| LauncherProperties.InstallNothing | src/com/isp/mematelauncher/Main.java:101-117 | nothing stale and both present: no request, only the transient files removed |
| LauncherProperties.InstallClientOnly | src/com/isp/mematelauncher/Main.java:101-117 | only the client stale: memate.exe alone requested; other files keep their content |
| LauncherProperties.InstallBoth | src/com/isp/mematelauncher/Main.java:101-117 | both stale: memate.exe then jre.zip requested; a file no entry names keeps its content; memate.exe exists when served; an archive opening with the folder's entry leaves the runtime folder present |
| LauncherProperties.UpToDateCheck | src/com/isp/mematelauncher/Main.java:206-274 | equal populated descriptors: both flags cleared, nothing renamed |
| LauncherProperties.UpToDateRun | src/com/isp/mematelauncher/Main.java:74-120 | up to date: only version.properties requested, and the file system ends as it began less the transient files |
| LauncherProperties.NewClientCheck | src/com/isp/mematelauncher/Main.java:206-274 | only build_version differs: client flag kept, JRE flag cleared, installed replaced iff the rename may replace |
| LauncherProperties.NewClientOnlyRun | src/com/isp/mematelauncher/Main.java:74-120 | new client only: version.properties and memate.exe requested, no unzip, installed replaced iff the rename may replace |
| LauncherProperties.FirstRunCheck | src/com/isp/mematelauncher/Main.java:206-230 | first run: both flags kept, newest JRE values adopted, downloaded descriptor installed |
| LauncherProperties.FirstRunEndToEnd | src/com/isp/mematelauncher/Main.java:74-120 | first run: descriptor, memate.exe and jre.zip requested in that order; the downloaded descriptor ends installed |
| LauncherProperties.FirstRunLeavesInstall | src/com/isp/mematelauncher/Main.java:101-117 | after that first run memate.exe exists when served, and the runtime folder exists when the archive opens with its directory entry |
| LauncherProperties.FirstRunThenUpToDate | src/com/isp/mematelauncher/Main.java:74-120 | the next launch after a first run whose archive creates the folder is up to date: both flags cleared, only version.properties requested |
| LauncherProperties.UpdateRepeatsWithoutOverwrite | src/com/isp/mematelauncher/Main.java:270-274 | where the rename cannot replace, a new build's memate.exe is downloaded again by the next launch too |
| LauncherProperties.UpdateSettlesWhenRenameReplaces | src/com/isp/mematelauncher/Main.java:259-274 | where the rename replaces, the launch after an update is up to date and downloads only version.properties |

## Left out

- The Swing GUI: `loadGUISettings`, the look and feel, the background image and the label texts. Their uncaught exceptions are not modelled either. When background.png is missing from the jar, `ImageIO.read(null)` at line 79 throws IllegalArgumentException. When the image cannot be decoded, `background.getWidth()` at line 422 throws NullPointerException. The line-79 exception ends the run before `getLatestRelease`. The line-422 one comes from `loadGUISettings`, which line 97 calls, so it ends the run after `getLatestRelease` (line 94) and `createDirectories` (line 96) but before `setURLS` (line 98) and the update check.
- `getLatestRelease`: the GitHub API request and JSON parsing are network I/O through a foreign library. The tag is an input. A `JSONException` from a malformed body (lines 151-152) is not caught and ends the run; that is not modelled.
- `createDirectories` and the `APPDATA` prefix. The installation directory is an opaque `root`.
- The `ProcessBuilder` launch of memate.exe (line 124) and its IOException. It is process plumbing.
- `java.util.Properties` parsing. Each properties file is a key/value map, and a file that cannot be read yields no keys, as the caught exception does.
- Streams: byte-level transfer, connections and `FileChannel`. A download either lands whole or changes nothing, so a download interrupted mid-stream, which leaves a partial file, is not modelled. `ZipException` from a corrupt archive is not modelled either.
- The `Timer`/`TimerTask` polling (lines 365-394). It is concurrency; only its integer formulas are kept, and an ArithmeticException in the timer thread does not stop the download.
- The jre.zip progress formula `percent / 1.6665 + 30` (line 377). It is floating point.
- `printStackTrace` and console output. Side channel only.
- `new URL(...)` accepts every non-null string in the model. A `MalformedURLException` for a malformed JRE URL is not modelled; only the null case, which line 215 rejects, is.
- Path normal form: NTFS's case-insensitivity, drive-letter and UNC prefixes, and `.`/`..` segments are not modelled. Paths differing only in case are different files in the model.
- The file map is flat, with no parent directories. `mkdirs` creating ancestors is not modelled. Neither is `createNewFile` failing on a missing parent at line 299, whose IOException the catch at line 312 turns into the end of extraction.
- `createDirectories` guarantees the installation directory itself, but the flat map does not hold it. With an empty runtime folder name (`jre_FolderName_Win64=`, so `Some("")`), line 106 tests the installation directory, which exists, so the source does not fetch jre.zip. The model tests `Normalize(root)`, which is absent unless the starting map holds it, so jre.zip is fetched and unzipped on every launch.
- `File.delete` of a non-empty directory at jre.zip or version.properties is modelled as removing the path.
- Java `long` overflow in the byte counts is not modelled: sizes are unbounded integers.
- LauncherProperties.RunDownloads: stated only when the runtime folder's path differs from the paths of memate.exe, jre.zip and version.properties (`SeparateFolder`), because otherwise the downloads themselves change the answer of the folder check.
- LauncherProperties.InstallEffects: stated only when the runtime folder's path differs from those of memate.exe and jre.zip, for the same reason.
- The whole-run scenarios of `LauncherProperties` (UpToDateCheck, UpToDateRun, NewClientCheck, NewClientOnlyRun, the two Update lemmas and the four FirstRun lemmas) are stated only when no directory stands at version.properties, and for those that install, at jre.zip. With a directory there the download writes nothing, which FirstRun and DownloadFile cover.
- Unzip.ReadChunk: leaves open how many bytes one read delivers, rather than modelling ZipInputStream's inflater.

## Findings

| source | as written | input that shows it | evidently intended | confidence | as-written member | corrected member |
|---|---|---|---|---|---|---|
| src/com/isp/mematelauncher/Main.java:270-274 | `File.renameTo` onto an existing installedVersions.properties, which fails on Windows, the launcher's only platform | installed build_version "1", newest "2", runtime unchanged; launch twice on Windows | the new descriptor replaces the installed one, so the next launch is up to date | medium, not executed | LauncherProperties.UpdateRepeatsWithoutOverwrite | LauncherProperties.UpdateSettlesWhenRenameReplaces |
| src/com/isp/mematelauncher/Main.java:361-378 | `percent = written / (fileSize / 100)` with the divisor rounded down | a 150-byte version.properties, fully written: 150 percent, bar value 15 | a percentage within [0, 100], so each stage stays in its band | high, not executed | Progress.SmallFileOvershoot | Progress.ScaledPercentWithinHundred |
