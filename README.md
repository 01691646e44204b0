# Archive installer: a Dafny model

`Mouf\Installer\ArchiveInstaller` is a Composer installer for packages whose
type is `archive-package`. On install (and, as intended, on update; see
"## Findings") it reads the package's `extra.url` and `extra.target-dir`, downloads the archive at that URL into the
working directory, extracts it (ZIP or tar family) into the target directory,
deletes the downloaded file and writes the URL into a marker file
`<package dir>/download-status.txt`. When the marker already holds the URL,
the run does nothing.

The model has two modules.

- `Paths` (`paths.dfy`): the PHP string functions the installer uses:
  `trim($s, '/')`, the basename and extension that `pathinfo` takes from a
  path, and ASCII `strtolower`. Each is a function with a contract, and
  lemmas characterise them. For example, trimming picks out exactly the middle
  of a string between runs of `/`, and the extension of any path ending in `.e`
  is `e`.
- `ArchiveInstaller` (`installer.dfy`): `supports`, `getPackageDir`, the
  marker path, the target directory, the dispatch table, and the pure
  decision `Decide` covering what the operation does before it touches the
  network (lines 67-91). The class `Installer` holds the mutable environment:
  - `fs`, one filesystem map from path to contents. The downloaded archive
    is stored under its bare file name (the working directory). Marker files
    are stored under `MarkerPath(baseDir, name)`.
  - `trace`, the downloads and extractions performed so far.

  `LastDownloadedFileUrl` reads a marker and `SetLastDownloadedFileUrl`
  writes one. `DownloadAndExtractFile` performs the operation step by step
  and is proved against the two-state predicate `Synced`, which gives the
  outcome, the new filesystem and the new trace for every path through the
  code. `Install`, `Update` and `Uninstall` are the entry points.

The outside world is a parameter of each run, the datatype `Environment`. It
says whether openssl is loaded, what the remote copy does (it saves some
contents, saves nothing, or throws) and whether the archive library succeeds.
The path component of the URL (`parse_url($url, PHP_URL_PATH)`) is passed in
as `urlPath`. The base directory (`__DIR__."/../../../../../"`) is an opaque
constant of the installer (`baseDir`).

Marker comparison at line 81 is PHP's loose `==`. The model keeps the case in
which this matters for a missing marker: a missing marker reads as `null`,
and `null == ""` holds. So with no marker file, a package whose `extra.url`
is the empty string is treated as already downloaded (`LooselyEqual`).

## Model

| member | source | states |
|---|---|---|
| `ArchiveInstaller.Supports` | src/Mouf/Installer/ArchiveInstaller.php:129-132 | true exactly when the type is the literal `"archive-package"` (strict comparison, no case folding) |
| `ArchiveInstaller.GetPackageDir` | src/Mouf/Installer/ArchiveInstaller.php:166-168 | the package directory is the base directory, then the package name, then one trailing `/` |
| `ArchiveInstaller.MarkerPath` | src/Mouf/Installer/ArchiveInstaller.php:142-157 | the marker file is `download-status.txt` directly inside the package directory |
| `ArchiveInstaller.MarkerPathInjective` | src/Mouf/Installer/ArchiveInstaller.php:142-167 | two packages share a marker file exactly when they have the same name, so writing one package's marker never touches another's |
| `ArchiveInstaller.TempFileIsNotMarker` | src/Mouf/Installer/ArchiveInstaller.php:110-114 | a file name without `/` (every basename) is never a marker path, so deleting the downloaded archive never deletes a marker |
| `ArchiveInstaller.TargetDir` | src/Mouf/Installer/ArchiveInstaller.php:71-76 | the target directory starts with `./` and the rest neither starts nor ends with `/` |
| `ArchiveInstaller.TargetDirDefault` | src/Mouf/Installer/ArchiveInstaller.php:73-76 | without `target-dir` the target directory is `./.` |
| `ArchiveInstaller.TargetDirStrips` | src/Mouf/Installer/ArchiveInstaller.php:71-76 | for `target-dir` = slashes + `d` + slashes, with `d` neither starting nor ending in `/`, the target directory is `./` + `d` |
| `Paths.TrimRight` | src/Mouf/Installer/ArchiveInstaller.php:76 | the result is a prefix of the input, what was dropped is all `/`, and the result does not end in `/` |
| `Paths.TrimLeft` | src/Mouf/Installer/ArchiveInstaller.php:76 | the result is a suffix of the input, what was dropped is all `/`, and the result does not start with `/` |
| `Paths.Trim` | src/Mouf/Installer/ArchiveInstaller.php:76 | the trimmed string neither starts nor ends with the trimmed character |
| `Paths.TrimIsMiddle` | src/Mouf/Installer/ArchiveInstaller.php:76 | the trimmed string is a contiguous middle part of the input with only the trimmed character on either side |
| `Paths.TrimOf` | src/Mouf/Installer/ArchiveInstaller.php:76 | conversely, trimming any runs of the character around a middle part that is not bounded by it gives back that middle part |
| `Paths.AfterLast` | src/Mouf/Installer/ArchiveInstaller.php:86-87 | the result is the longest suffix not containing the separator; the character before it is the separator |
| `Paths.Basename` | src/Mouf/Installer/ArchiveInstaller.php:86 | the file name derived from the URL path contains no `/` |
| `Paths.BasenameTrailing` | src/Mouf/Installer/ArchiveInstaller.php:86 | trailing slashes do not change the file name: the basename of `"a/b/"` is that of `"a/b"` |
| `Paths.BasenameOfSegment` | src/Mouf/Installer/ArchiveInstaller.php:86 | the file name of a path `p/seg` is its last segment `seg` |
| `Paths.Extension` | src/Mouf/Installer/ArchiveInstaller.php:87 | the extension contains neither `.` nor `/` |
| `Paths.ExtensionOfSuffix` | src/Mouf/Installer/ArchiveInstaller.php:87 | the extension of any path ending in `.e` (with `e` free of `.` and `/`) is `e`: only the final extension counts |
| `Paths.ExtensionNoDot` | src/Mouf/Installer/ArchiveInstaller.php:87 | a file name without `.` has the empty extension, so nothing is extracted for it |
| `Paths.ToLower` | src/Mouf/Installer/ArchiveInstaller.php:87 | lower-casing keeps the length and maps each character through ASCII lower-casing |
| `ArchiveInstaller.FormatFor` | src/Mouf/Installer/ArchiveInstaller.php:104-108 | `zip` selects ZIP extraction, exactly `tar`, `gz` and `bz2` select tar extraction, every other extension selects none |
| `ArchiveInstaller.LooselyEqual` | src/Mouf/Installer/ArchiveInstaller.php:81 | a marker matches the URL exactly when it is that URL, or when it is missing and the URL is empty (`null == ""`) |
| `ArchiveInstaller.DispatchByFinalExtension` | src/Mouf/Installer/ArchiveInstaller.php:104-108 | the extractor chosen for a path ending in `.e` depends only on the lower-cased `e` |
| `ArchiveInstaller.TarGzIsTar` | src/Mouf/Installer/ArchiveInstaller.php:106-107 | any `….tar.gz` archive goes to the tar extractor, by its `gz` extension |
| `ArchiveInstaller.UpperZipIsZip` | src/Mouf/Installer/ArchiveInstaller.php:87-105 | any `….ZIP` archive goes to the ZIP extractor, because the extension is lower-cased first |
| `ArchiveInstaller.Decide` | src/Mouf/Installer/ArchiveInstaller.php:67-91 | nothing to do exactly when `url` is absent; skip exactly when the marker loosely equals `url`; the openssl failure exactly for an `https:` URL without openssl on a non-skipped run; otherwise fetch the URL path's basename, dispatch by its lower-cased extension and extract into `TargetDir` |
| `ArchiveInstaller.SecondRunSkips` | src/Mouf/Installer/ArchiveInstaller.php:81-114 | once the marker holds `url`, a later run with the same `url` is skipped |
| `ArchiveInstaller.Installer.LastDownloadedFileUrl` | src/Mouf/Installer/ArchiveInstaller.php:140-147 | the marker is present exactly when the marker file exists, and is then its contents |
| `ArchiveInstaller.Installer.SetLastDownloadedFileUrl` | src/Mouf/Installer/ArchiveInstaller.php:155-158 | the marker file is overwritten with `url`; reading it back gives `url`; every other package's marker is unchanged |
| `ArchiveInstaller.Installer.FetchAndExtract` | src/Mouf/Installer/ArchiveInstaller.php:94-114 | a failed copy changes no file. A missing file after the copy fails with `NotSaved`, and an empty file name always counts as missing. A failed extraction leaves the downloaded file in place. Success deletes the file and then writes the marker. A failure never changes a marker. With a non-empty name, a saving copy and a working extractor, the run succeeds |
| `ArchiveInstaller.Installer.DownloadAndExtractFile` | src/Mouf/Installer/ArchiveInstaller.php:66-116 | the whole operation (`Synced`). Without `url`, or with a matching marker, nothing changes. The openssl failure comes before any copy or file change. A failure leaves every marker unchanged. Other packages' markers never change. After a success the marker matches `url`, so the next run skips; after a fetched success the marker is exactly `url` and the downloaded file is gone. On a run that is not skipped, a URL whose path has an empty basename always fails. A download that saves the file, followed by a working extractor, always succeeds |
| `ArchiveInstaller.Installer.Install` | src/Mouf/Installer/ArchiveInstaller.php:52-57 | install runs the operation for its package, with the same guarantees: a failure leaves every marker unchanged, other packages' markers never change, a non-skipped run with an empty basename fails, and a fetched success leaves the marker exactly `url` and the downloaded file gone |
| `ArchiveInstaller.Installer.Update` | src/Mouf/Installer/ArchiveInstaller.php:42-47 | update (as evidently intended) runs the operation for the target package, with the same guarantees: a failure leaves every marker unchanged, other packages' markers never change, a non-skipped run with an empty basename fails, and a fetched success leaves the marker exactly `url` and the downloaded file gone |
| `ArchiveInstaller.Installer.UpdateAsWritten` | src/Mouf/Installer/ArchiveInstaller.php:42-47 | update as written fails before any download and leaves files and trace unchanged |
| `ArchiveInstaller.UpdateDefectWitness` | src/Mouf/Installer/ArchiveInstaller.php:46 | for a never-downloaded package, the as-written update leaves the marker absent while the intended update stores the URL |
| `ArchiveInstaller.Installer.Uninstall` | src/Mouf/Installer/ArchiveInstaller.php:121-124 | this class adds nothing to uninstall, so nothing it models changes |

## Left out

- The base `LibraryInstaller` behaviour of `install`, `update` and
  `uninstall` (lines 44, 54, 123) is outside this file and is not modelled.
  Each entry point models only what this class adds.
- The base uninstallation (line 123) normally removes the package's
  installation directory. The marker file lives in that directory
  (line 167), so the base removal may delete the marker. That removal is
  not modelled.
- The constructor and the `RemoteFilesystem` it creates (lines 32-36) are not
  modelled. The installer's constructor only fixes the base directory and the
  initial files.
- The remote copy (line 96) is an oracle in `Environment.copy`. HTTP, TLS,
  redirects and the host passed to it are not modelled.
- URL parsing by `parse_url` (RFC 3986, section 3) is not modelled. The path
  component is an input (`urlPath`). For a URL with no path,
  `parse_url($url, PHP_URL_PATH)` returns `null`, and for a malformed URL it
  returns `false`; `pathinfo` coerces both to `""`, so both are `urlPath = ""`
  in this model.
- ZIP and tar extraction (lines 178-221) are abstract. Whether they succeed is
  `Environment.extractionSucceeds`. There is one error kind,
  `ExtractionFailed`, covering: no ZIP extension and `unzip` failing, failing
  to open the archive, `extractTo` failing, and `PharData` throwing. The files
  an extraction writes into the target directory are not modelled; the
  trace records the call instead.
- `extractZip` as written cannot succeed. The unqualified `new ZipArchive()`
  at line 197 resolves to `Mouf\Installer\ZipArchive`, which does not exist.
  The `unzip` fallback uses `$this->process` (line 186), which this file
  never defines. The model's successful `Zip` path is therefore the intended
  behaviour, not the written one.
- Console output (line 94) is not modelled.
- LooselyEqual: models PHP's loose `==` only for the missing-marker case
  (`null == ""`). Two numeric strings that loose `==` compares as numbers
  (`"1e1" == "10"`) are unequal in the model.
- `extra` is a map from strings to strings. Non-string values, and `isset`'s
  treatment of `null` values beyond "absent", are not modelled.
- Paths are plain strings. There is no resolution of `..`, `./` or
  `__DIR__`, so two different strings never name the same file. `file_exists`
  is membership in `fs` of a non-empty name (`file_exists("")` is false), and a
  copy that saves under the empty name stores nothing.
- DownloadAndExtractFile: the directory entries `.` and `..` are real files
  only if `fs` holds them. For a URL path whose basename is `.` or `..`, PHP's
  `file_exists` is true whatever the copy did. The model instead follows the
  copy and `fs`, and it does not model the failing `unlink` of a directory
  that the source would then attempt.
- ToLower: fixes the C locale, so only `A` to `Z` are lowered (the
  behaviour of `strtolower` from PHP 8.2 on). Locale-dependent lower-casing
  under `LC_CTYPE` in earlier PHP versions is not modelled: under a Turkish
  locale, for example, `I` does not lower to `i`, so `x.ZIP` would not reach
  the ZIP extractor (UpperZipIsZip assumes the C locale).
- Basename: models the `/`-separated basename of `pathinfo`. The
  locale-dependent multibyte handling of PHP's `basename` is not modelled.
- Failures of `unlink` and `file_put_contents` (lines 111, 157) are not
  modelled. The model assumes both succeed.
- Concurrency is not modelled: the operation is single-threaded, with one
  writer per package.

## Findings

| source | as written | input that shows it | evidently intended | confidence | as-written member | corrected member |
|---|---|---|---|---|---|---|
| src/Mouf/Installer/ArchiveInstaller.php:46 | `update` passes `$package`, a variable never assigned in that method, to `downloadAndExtractFile`; the call fails (undefined variable, then a type error for the `PackageInterface` parameter) before any download | an update of a package with `extra.url = "http://example.org/lib.zip"` and no marker file: the marker stays absent | sync the target package `$target`, as `install` does with its package | not executed; high | `ArchiveInstaller.Installer.UpdateAsWritten` with witness `ArchiveInstaller.UpdateDefectWitness` | `ArchiveInstaller.Installer.Update` |
