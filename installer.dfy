/**
  The archive installer: a package-manager installer for packages of type
  "archive-package" that, on install and update, downloads the archive named
  by the package's `extra.url`, extracts it into `extra.target-dir`, deletes
  the downloaded file and records the URL in a per-package marker file so that
  the same URL is not fetched twice.

  The environment is abstract: a filesystem map from path to contents (the
  downloaded archive sits in the working directory under its bare file name,
  the marker files under their package directories), a trace of the network
  and extraction effects, and an `Environment` value that says how the network
  copy and the archive library behave on this run.
 */
module ArchiveInstaller {
  import opened Paths

  datatype Option<T> = None | Some(value: T)

  /** A package's `extra` attributes that are set (non-null), with string values. */
  type Extra = map<string, string>

  /** The installer handles the packages whose type is exactly "archive-package". */
  function Supports(packageType: string): (r: bool)
    ensures r <==> packageType == "archive-package"
  {
    "archive-package" == packageType
  }

  /**
    The package directory, with a trailing `/`: the installation's base
    directory followed by the package name.
   */
  function GetPackageDir(base: string, name: string): (r: string)
    ensures |r| == |base| + |name| + 1
    ensures r[..|base|] == base && r[|base|..|r| - 1] == name && r[|r| - 1] == '/'
  {
    base + name + "/"
  }

  /** Where the marker (the last downloaded URL) of a package is kept. */
  function MarkerPath(base: string, name: string): (r: string)
    ensures |r| == |GetPackageDir(base, name)| + 19
    ensures r[..|r| - 19] == GetPackageDir(base, name) && r[|r| - 19..] == "download-status.txt"
  {
    GetPackageDir(base, name) + "download-status.txt"
  }

  /**
    The extraction directory: "./" followed by `target-dir` with its leading
    and trailing slashes removed; "." when no `target-dir` is set.
   */
  function TargetDir(extra: Extra): (r: string)
    ensures |r| >= 2 && r[..2] == "./"
    ensures NotBoundedBy(r[2..], '/')
  {
    var dir := if "target-dir" in extra then extra["target-dir"] else ".";
    "./" + Trim(dir, '/')
  }

  /**
    PHP's loose `==` between the stored marker (null when the marker file is
    missing) and the requested URL: null equals only the empty string.
   */
  predicate LooselyEqual(last: Option<string>, url: string)
    ensures LooselyEqual(last, url) <==> last == Some(url) || (last.None? && url == "")
  {
    match last
    case None => url == ""
    case Some(s) => s == url
  }

  /** The extractors. */
  datatype Format = Zip | Tar

  /** Extraction is chosen by the bare lower-cased extension; other extensions extract nothing. */
  function FormatFor(extension: string): (r: Option<Format>)
    ensures r == Some(Zip) <==> extension == "zip"
    ensures r == Some(Tar) <==> extension in ["tar", "gz", "bz2"]
    ensures r == None <==> extension !in ["zip", "tar", "gz", "bz2"]
  {
    if extension == "zip" then Some(Zip)
    else if extension == "tar" || extension == "gz" || extension == "bz2" then Some(Tar)
    else None
  }

  /** What the operation decides before it touches the network. */
  datatype Decision =
    | NoUrl
    | UpToDate(url: string)
    | NeedsOpenssl(url: string)
    | Fetch(url: string, fileName: string, format: Option<Format>, targetDir: string)

  /**
    The decision part of the download-and-extract operation, given the
    package's `extra`, its stored marker, the path component of the URL and
    whether openssl is loaded.
   */
  function Decide(extra: Extra, last: Option<string>, urlPath: string, openssl: bool): (d: Decision)
    ensures d.NoUrl? <==> "url" !in extra
    ensures !d.NoUrl? ==> d.url == extra["url"]
    ensures d.UpToDate? <==> "url" in extra && LooselyEqual(last, extra["url"])
    ensures d.NeedsOpenssl? <==> "url" in extra && !LooselyEqual(last, extra["url"])
                                 && !openssl && "https:" <= extra["url"]
    ensures d.Fetch? ==> '/' !in d.fileName && d.fileName == Basename(urlPath)
                         && d.format == FormatFor(ToLower(Extension(urlPath)))
                         && d.targetDir == TargetDir(extra)
  {
    if "url" !in extra then NoUrl
    else
      var url := extra["url"];
      if LooselyEqual(last, url) then UpToDate(url)
      else if !openssl && "https:" <= url then NeedsOpenssl(url)
      else Fetch(url, Basename(urlPath), FormatFor(ToLower(Extension(urlPath))), TargetDir(extra))
  }

  /** How the remote copy behaves on a run: it writes the file, writes nothing, or throws. */
  datatype CopyResult = Saved(data: string) | NothingSaved | TransportError

  /** The capabilities and the behaviour of the outside world on one run. */
  datatype Environment = Environment(openssl: bool, copy: CopyResult, extractionSucceeds: bool)

  datatype Error =
    | OpensslMissing(url: string)                   // RuntimeException before any copy
    | TransportFailed(url: string)                  // thrown by the remote copy
    | NotSaved(url: string, fileName: string)       // UnexpectedValueException after the copy
    | ExtractionFailed(format: Format, fileName: string)
    | UndefinedPackage                              // the variable `update` passes is never set

  datatype Outcome = Success | Failure(error: Error)

  /** Effects on the outside world that leave no trace in the filesystem map. */
  datatype Effect =
    | Download(url: string, fileName: string)
    | Extract(format: Format, fileName: string, targetDir: string)

  class Installer {
    /** The directory the package directories are resolved against. */
    const baseDir: string
    /** The files: bare names in the working directory, marker files by MarkerPath. */
    var fs: map<string, string>
    /** Every download and extraction performed so far. */
    var trace: seq<Effect>

    constructor (baseDir: string, fs: map<string, string>)
      ensures this.baseDir == baseDir && this.fs == fs && trace == []
    {
      this.baseDir := baseDir;
      this.fs := fs;
      trace := [];
    }

    /** The URL stored in the package's marker file, None when the file does not exist. */
    function LastDownloadedFileUrl(name: string): (r: Option<string>)
      reads this
      ensures r.Some? <==> MarkerPath(baseDir, name) in fs
      ensures r.Some? ==> r.value == fs[MarkerPath(baseDir, name)]
    {
      var path := MarkerPath(baseDir, name);
      if path in fs then Some(fs[path]) else None
    }

    /** Overwrite the package's marker file with `url`; no other marker changes. */
    method SetLastDownloadedFileUrl(name: string, url: string)
      modifies this
      ensures fs == old(fs)[MarkerPath(baseDir, name) := url] && trace == old(trace)
      ensures LastDownloadedFileUrl(name) == Some(url)
      ensures forall n :: n != name ==> LastDownloadedFileUrl(n) == old(LastDownloadedFileUrl(n))
    {
      fs := fs[MarkerPath(baseDir, name) := url];
      forall n | n != name
        ensures LastDownloadedFileUrl(n) == old(LastDownloadedFileUrl(n))
      {
        MarkerPathInjective(baseDir, n, name);
      }
    }

    /**
      The complete effect of one download-and-extract run for package `name`:
      the outcome, the new filesystem and the new trace, case by case.
     */
    twostate predicate Synced(name: string, extra: Extra, urlPath: string, env: Environment, outcome: Outcome)
      reads this
    {
      match Decide(extra, old(LastDownloadedFileUrl(name)), urlPath, env.openssl)
      case NoUrl =>
        outcome == Success && fs == old(fs) && trace == old(trace)
      case UpToDate(_) =>
        outcome == Success && fs == old(fs) && trace == old(trace)
      case NeedsOpenssl(url) =>
        outcome == Failure(OpensslMissing(url)) && fs == old(fs) && trace == old(trace)
      case Fetch(url, file, format, dir) =>
        Fetched(name, url, file, format, dir, env, outcome)
    }

    /**
      The effect of the steps after the decision: the copy, the existence
      check, the extraction, the deletion of the archive and the marker write.
     */
    twostate predicate Fetched(name: string, url: string, file: string, format: Option<Format>,
                               dir: string, env: Environment, outcome: Outcome)
      reads this
    {
      var copied := if env.copy.Saved? && file != [] then old(fs)[file := env.copy.data] else old(fs);
      var done := (copied - {file})[MarkerPath(baseDir, name) := url];
      var downloaded := old(trace) + [Download(url, file)];
      if env.copy.TransportError? then
        outcome == Failure(TransportFailed(url)) && fs == old(fs) && trace == downloaded
      else if file == [] || file !in copied then
        outcome == Failure(NotSaved(url, file)) && fs == copied && trace == downloaded
      else if format.None? then
        outcome == Success && fs == done && trace == downloaded
      else if env.extractionSucceeds then
        outcome == Success && fs == done
        && trace == downloaded + [Extract(format.value, file, dir)]
      else
        outcome == Failure(ExtractionFailed(format.value, file)) && fs == copied
        && trace == downloaded + [Extract(format.value, file, dir)]
    }

    /** The copy, the check, the extraction, the deletion and the marker write. */
    method FetchAndExtract(name: string, url: string, fileName: string, format: Option<Format>,
                           targetDir: string, env: Environment)
      returns (outcome: Outcome)
      requires '/' !in fileName
      modifies this
      ensures Fetched(name, url, fileName, format, targetDir, env, outcome)
      ensures outcome.Failure? ==> forall n :: LastDownloadedFileUrl(n) == old(LastDownloadedFileUrl(n))
      ensures forall n :: n != name ==> LastDownloadedFileUrl(n) == old(LastDownloadedFileUrl(n))
      ensures outcome.Success? ==> LastDownloadedFileUrl(name) == Some(url) && fileName !in fs
      ensures fileName == [] ==> outcome.Failure?
      ensures fileName != [] && env.copy.Saved? && env.extractionSucceeds ==> outcome == Success
    {
      TempFileIsNotMarker(baseDir, name, fileName);
      trace := trace + [Download(url, fileName)];
      match env.copy {
        case TransportError =>
          return Failure(TransportFailed(url));
        case Saved(data) =>
          // nothing can be stored under the empty name
          if fileName != [] {
            fs := fs[fileName := data];
          }
        case NothingSaved =>
      }
      // `file_exists("")` is false whatever the copy did
      if fileName == [] || fileName !in fs {
        return Failure(NotSaved(url, fileName));
      }
      if format.Some? {
        trace := trace + [Extract(format.value, fileName, targetDir)];
        if !env.extractionSucceeds {
          return Failure(ExtractionFailed(format.value, fileName));
        }
      }
      fs := fs - {fileName};
      SetLastDownloadedFileUrl(name, url);
      outcome := Success;
    }

    /**
      Download and extract the package's archive unless its marker already
      holds the URL.
     */
    method DownloadAndExtractFile(name: string, extra: Extra, urlPath: string, env: Environment)
      returns (outcome: Outcome)
      modifies this
      ensures Synced(name, extra, urlPath, env, outcome)
      ensures outcome.Failure? ==> forall n :: LastDownloadedFileUrl(n) == old(LastDownloadedFileUrl(n))
      ensures forall n :: n != name ==> LastDownloadedFileUrl(n) == old(LastDownloadedFileUrl(n))
      ensures outcome.Success? && "url" in extra ==> LooselyEqual(LastDownloadedFileUrl(name), extra["url"])
      ensures ("url" in extra && !LooselyEqual(old(LastDownloadedFileUrl(name)), extra["url"])
               && Basename(urlPath) == []) ==> outcome.Failure?
      ensures var d := Decide(extra, old(LastDownloadedFileUrl(name)), urlPath, env.openssl);
              d.Fetch? && d.fileName != [] && env.copy.Saved? && env.extractionSucceeds ==> outcome == Success
      ensures outcome.Success? && Decide(extra, old(LastDownloadedFileUrl(name)), urlPath, env.openssl).Fetch? ==>
              LastDownloadedFileUrl(name) == Some(extra["url"]) && Basename(urlPath) !in fs
    {
      if "url" !in extra {
        return Success;
      }
      var url := extra["url"];
      var targetDir := TargetDir(extra);
      if LooselyEqual(LastDownloadedFileUrl(name), url) {
        return Success;
      }
      var fileName := Basename(urlPath);
      var extension := ToLower(Extension(urlPath));
      if !env.openssl && "https:" <= url {
        return Failure(OpensslMissing(url));
      }
      outcome := FetchAndExtract(name, url, fileName, FormatFor(extension), targetDir, env);
    }

    /** `install`: the base installation (not modelled) followed by the sync of the package. */
    method Install(name: string, extra: Extra, urlPath: string, env: Environment)
      returns (outcome: Outcome)
      modifies this
      ensures Synced(name, extra, urlPath, env, outcome)
      ensures outcome.Failure? ==> forall n :: LastDownloadedFileUrl(n) == old(LastDownloadedFileUrl(n))
      ensures forall n :: n != name ==> LastDownloadedFileUrl(n) == old(LastDownloadedFileUrl(n))
      ensures outcome.Success? && "url" in extra ==> LooselyEqual(LastDownloadedFileUrl(name), extra["url"])
      ensures ("url" in extra && !LooselyEqual(old(LastDownloadedFileUrl(name)), extra["url"])
               && Basename(urlPath) == []) ==> outcome.Failure?
      ensures var d := Decide(extra, old(LastDownloadedFileUrl(name)), urlPath, env.openssl);
              d.Fetch? && d.fileName != [] && env.copy.Saved? && env.extractionSucceeds ==> outcome == Success
      ensures outcome.Success? && Decide(extra, old(LastDownloadedFileUrl(name)), urlPath, env.openssl).Fetch? ==>
              LastDownloadedFileUrl(name) == Some(extra["url"]) && Basename(urlPath) !in fs
    {
      outcome := DownloadAndExtractFile(name, extra, urlPath, env);
    }

    /** `update` as intended: the base update (not modelled) followed by the sync of the target package. */
    method Update(initialName: string, targetName: string, targetExtra: Extra, urlPath: string, env: Environment)
      returns (outcome: Outcome)
      modifies this
      ensures Synced(targetName, targetExtra, urlPath, env, outcome)
      ensures outcome.Failure? ==> forall n :: LastDownloadedFileUrl(n) == old(LastDownloadedFileUrl(n))
      ensures forall n :: n != targetName ==> LastDownloadedFileUrl(n) == old(LastDownloadedFileUrl(n))
      ensures outcome.Success? && "url" in targetExtra ==> LooselyEqual(LastDownloadedFileUrl(targetName), targetExtra["url"])
      ensures ("url" in targetExtra && !LooselyEqual(old(LastDownloadedFileUrl(targetName)), targetExtra["url"])
               && Basename(urlPath) == []) ==> outcome.Failure?
      ensures var d := Decide(targetExtra, old(LastDownloadedFileUrl(targetName)), urlPath, env.openssl);
              d.Fetch? && d.fileName != [] && env.copy.Saved? && env.extractionSucceeds ==> outcome == Success
      ensures outcome.Success? && Decide(targetExtra, old(LastDownloadedFileUrl(targetName)), urlPath, env.openssl).Fetch? ==>
              LastDownloadedFileUrl(targetName) == Some(targetExtra["url"]) && Basename(urlPath) !in fs
    {
      outcome := DownloadAndExtractFile(targetName, targetExtra, urlPath, env);
    }

    /**
      `update` as written: it hands an unset variable to the sync, so the call
      fails before any download and the target's marker is never refreshed.
     */
    method UpdateAsWritten(initialName: string, targetName: string, targetExtra: Extra, urlPath: string, env: Environment)
      returns (outcome: Outcome)
      ensures outcome == Failure(UndefinedPackage)
      ensures fs == old(fs) && trace == old(trace)
    {
      outcome := Failure(UndefinedPackage);
    }

    /**
      `uninstall`: this class adds nothing to the base uninstallation (not
      modelled), so nothing it models changes.
     */
    method Uninstall(name: string)
      ensures fs == old(fs) && trace == old(trace)
      ensures LastDownloadedFileUrl(name) == old(LastDownloadedFileUrl(name))
    {
    }
  }

  /**
    A concrete run of both versions of `update` on a package that was never
    downloaded: as written, the marker stays absent; as intended, it holds the URL.
   */
  method UpdateDefectWitness() returns (asWritten: Option<string>, intended: Option<string>)
    ensures asWritten == None
    ensures intended == Some("http://example.org/lib.zip")
  {
    var extra := map["url" := "http://example.org/lib.zip"];
    var env := Environment(true, Saved("archive bytes"), true);
    var written := new Installer("/base/", map[]);
    var _ := written.UpdateAsWritten("vendor/lib", "vendor/lib", extra, "/lib.zip", env);
    asWritten := written.LastDownloadedFileUrl("vendor/lib");
    var fixed := new Installer("/base/", map[]);
    assert fixed.LastDownloadedFileUrl("vendor/lib") == None;
    assert "/lib.zip" == "" + "/" + "lib.zip";
    BasenameOfSegment("", "lib.zip");
    var d := Decide(extra, None, "/lib.zip", true);
    assert d.Fetch? && d.fileName == "lib.zip";
    var outcome := fixed.Update("vendor/lib", "vendor/lib", extra, "/lib.zip", env);
    intended := fixed.LastDownloadedFileUrl("vendor/lib");
  }

  // -----------------------------------------------------------------------
  // Properties
  // -----------------------------------------------------------------------

  /** Distinct packages have distinct marker files. */
  lemma MarkerPathInjective(base: string, a: string, b: string)
    ensures MarkerPath(base, a) == MarkerPath(base, b) <==> a == b
  {
    if MarkerPath(base, a) == MarkerPath(base, b) {
      var pa, pb := GetPackageDir(base, a), GetPackageDir(base, b);
      assert |pa| == |pb|;
      assert pa == MarkerPath(base, a)[..|pa|];
      assert pb == MarkerPath(base, b)[..|pb|];
    }
  }

  /** A marker file lives below a package directory, so its path holds a `/`. */
  lemma TempFileIsNotMarker(base: string, name: string, fileName: string)
    requires '/' !in fileName
    ensures fileName != MarkerPath(base, name)
  {
  }

  /** Without `target-dir` the archive is extracted into "./.". */
  lemma TargetDirDefault(extra: Extra)
    requires "target-dir" !in extra
    ensures TargetDir(extra) == "./."
  {
  }

  /** Every leading and trailing `/` of `target-dir` is dropped, and nothing else. */
  lemma TargetDirStrips(extra: Extra, lead: string, dir: string, trail: string)
    requires "target-dir" in extra && extra["target-dir"] == lead + dir + trail
    requires AllChar(lead, '/') && AllChar(trail, '/') && NotBoundedBy(dir, '/')
    ensures TargetDir(extra) == "./" + dir
  {
    TrimOf(lead, dir, trail, '/');
  }

  /** The dispatch looks at the final extension only, lower-cased. */
  lemma DispatchByFinalExtension(stem: string, ext: string)
    requires '.' !in ext && '/' !in ext
    ensures FormatFor(ToLower(Extension(stem + "." + ext))) == FormatFor(ToLower(ext))
  {
    ExtensionOfSuffix(stem, ext);
  }

  /** A ".tar.gz" archive goes to the tar extractor through its "gz" extension. */
  lemma TarGzIsTar(stem: string)
    ensures FormatFor(ToLower(Extension(stem + ".tar.gz"))) == Some(Tar)
  {
    assert stem + ".tar.gz" == (stem + ".tar") + "." + "gz";
    DispatchByFinalExtension(stem + ".tar", "gz");
  }

  /** An upper-case ".ZIP" archive goes to the ZIP extractor. */
  lemma UpperZipIsZip(stem: string)
    ensures FormatFor(ToLower(Extension(stem + ".ZIP"))) == Some(Zip)
  {
    assert stem + ".ZIP" == stem + "." + "ZIP";
    DispatchByFinalExtension(stem, "ZIP");
    var z := ToLower("ZIP");
    assert z[0] == 'z' && z[1] == 'i' && z[2] == 'p';
    assert z == "zip";
  }

  /**
    A stored marker equal to `url` makes the run skip. Combined with the last
    `ensures` of DownloadAndExtractFile (after a success the marker matches
    `url`) this gives idempotence across two runs.
   */
  lemma SecondRunSkips(extra: Extra, urlPath: string, openssl: bool)
    requires "url" in extra
    ensures Decide(extra, Some(extra["url"]), urlPath, openssl) == UpToDate(extra["url"])
  {
  }
}
