/** PythonVersionChecker (deps_report/version_checkers/python.py): the
    earlier checker, which stops at the first stable version of the
    reversed listing, knows only wheels, eggs and source archives, and has
    no fallback to prereleases. */
module VersionChecker {
  import opened Wrappers
  import opened Models
  import opened Packaging
  import opened SimpleIndex
  import DependenciesVersionChecker

  /** The version string a filename carries. Names that are neither a
      wheel, an egg nor a source archive raise NotImplementedError. */
  function FilenameVersion(filename: string): (r: Result<string>)
    ensures r == Fail(NotImplementedError) <==> !IsWheel(filename) && !IsSourceArchive(filename)
    ensures r.Fail? ==> r.error == NotImplementedError || r.error == IndexError
    ensures IsWheel(filename) || IsSourceArchive(filename) ==>
      r == DependenciesVersionChecker.CandidateVersion(filename)
  {
    if IsWheel(filename) then WheelVersion(filename)
    else if IsSourceArchive(filename) then Ok(SourceVersion(filename))
    else Fail(NotImplementedError)
  }

  /** The scan goes on past this filename: its version is extracted and
      either does not parse or is a prerelease. */
  predicate PassesOver<V>(lib: Library<V>, filename: string) {
    var version := FilenameVersion(filename);
    version.Ok? && (lib.parse(version.value).None? || lib.isPrerelease(lib.parse(version.value).value))
  }

  /** The scan stops at this filename with its version. */
  predicate StopsAt<V>(lib: Library<V>, filename: string) {
    var version := FilenameVersion(filename);
    version.Ok? && lib.parse(version.value).Some? && !lib.isPrerelease(lib.parse(version.value).value)
  }

  /** The loop of `_get_latest_version_from_repository` over the reversed
      filenames: the version string, as written in the filename, of the
      first one that parses to a stable version. */
  function Scan<V>(lib: Library<V>, filenames: seq<string>): (r: Result<string>)
    ensures r.Ok? ==> exists i :: 0 <= i < |filenames| && StopsAt(lib, filenames[i]) && FilenameVersion(filenames[i]) == r
    ensures r.Fail? ==> r.error == ValueError || r.error == NotImplementedError || r.error == IndexError
  {
    if |filenames| == 0 then Fail(ValueError)
    else
      var version :- FilenameVersion(filenames[0]);
      match lib.parse(version)
      case Some(p) =>
        if !lib.isPrerelease(p) then Ok(version)
        else
          var rest := Scan(lib, filenames[1..]);
          assert rest.Ok? ==> exists i :: 1 <= i < |filenames| && StopsAt(lib, filenames[i]) && FilenameVersion(filenames[i]) == rest by {
            if rest.Ok? {
              var i :| 0 <= i < |filenames[1..]| && StopsAt(lib, filenames[1..][i]) && FilenameVersion(filenames[1..][i]) == rest;
              assert filenames[1..][i] == filenames[i + 1];
            }
          }
          rest
      case None =>
        var rest := Scan(lib, filenames[1..]);
        assert rest.Ok? ==> exists i :: 1 <= i < |filenames| && StopsAt(lib, filenames[i]) && FilenameVersion(filenames[i]) == rest by {
          if rest.Ok? {
            var i :| 0 <= i < |filenames[1..]| && StopsAt(lib, filenames[1..][i]) && FilenameVersion(filenames[1..][i]) == rest;
            assert filenames[1..][i] == filenames[i + 1];
          }
        }
        rest
  }

  /** The latest version a simple index page listing `anchors` announces. */
  function PageLatest<V>(lib: Library<V>, anchors: seq<string>): Result<string> {
    Scan(lib, Reversed(anchors))
  }

  /** `_get_latest_version_from_repository` on one response. */
  function RepositoryLatest<V>(lib: Library<V>, response: Response): Result<string> {
    match response
    case NotFound404 => Fail(ValueError)
    case TransportError => Fail(ClientError)
    case Found(anchors) => PageLatest(lib, anchors)
  }

  function Outcomes<V>(lib: Library<V>, fetch: string -> Response, dependency: Dependency): seq<Result<string>> {
    var repositories := dependency.repositories;
    seq(|repositories|, i requires 0 <= i < |repositories| =>
      RepositoryLatest(lib, fetch(RepositoryUrl(repositories[i], dependency.name))))
  }

  /** `get_latest_version_of_dependency` */
  function DependencyLatest<V>(lib: Library<V>, fetch: string -> Response, dependency: Dependency): Result<string> {
    FirstAnswer(Outcomes(lib, fetch, dependency))
  }

  method LatestVersionFromRepository<V>(lib: Library<V>, response: Response) returns (r: Result<string>)
    ensures r == RepositoryLatest(lib, response)
  {
    if response.NotFound404? {
      return Fail(ValueError);
    }
    if response.TransportError? {
      return Fail(ClientError);
    }
    var filenames := Reversed(response.anchors);
    var i := 0;
    while i < |filenames|
      invariant 0 <= i <= |filenames|
      invariant Scan(lib, filenames[i..]) == Scan(lib, filenames)
    {
      var filename := filenames[i];
      var version;
      if IsWheel(filename) {
        version := WheelVersion(filename);
      } else if IsSourceArchive(filename) {
        version := Ok(SourceVersion(filename));
      } else {
        version := Fail(NotImplementedError);
      }
      if version.Fail? {
        return Fail(version.error);
      }
      var parsed := lib.parse(version.value);
      if parsed.Some? && !lib.isPrerelease(parsed.value) {
        return version;
      }
      assert filenames[i..][1..] == filenames[i + 1..];
      i := i + 1;
    }
    return Fail(ValueError);
  }

  /** The repository loop, a copy of the newer checker's in the source and
      so a copy of `DependenciesVersionChecker.GetLatestVersionOfDependency`
      here, over this checker's outcomes. */
  method GetLatestVersionOfDependency<V>(lib: Library<V>, fetch: string -> Response, dependency: Dependency)
    returns (r: Result<string>)
    ensures r == DependencyLatest(lib, fetch, dependency)
  {
    ghost var outcomes := Outcomes(lib, fetch, dependency);
    var i := 0;
    while i < |dependency.repositories|
      invariant 0 <= i <= |dependency.repositories|
      invariant forall j :: 0 <= j < i ==> Skippable(outcomes[j])
    {
      var url := RepositoryUrl(dependency.repositories[i], dependency.name);
      var outcome := LatestVersionFromRepository(lib, fetch(url));
      assert outcome == outcomes[i];
      match outcome {
        case Ok(_) => return outcome;
        case Fail(ValueError) =>
        case Fail(ClientError) =>
        case Fail(_) => return outcome;
      }
      i := i + 1;
    }
    return Fail(VerificationError);
  }

  /** The scan returns the version of the first filename it stops at. */
  lemma {:induction false} ScanStops<V>(lib: Library<V>, filenames: seq<string>, i: nat)
    requires i < |filenames| && StopsAt(lib, filenames[i])
    requires forall j :: 0 <= j < i ==> PassesOver(lib, filenames[j])
    ensures Scan(lib, filenames) == FilenameVersion(filenames[i])
  {
    if i > 0 {
      ScanStops(lib, filenames[1..], i - 1);
      assert filenames[1..][i - 1] == filenames[i];
    }
  }

  /** Past every filename, the scan raises ValueError. */
  lemma {:induction false} ScanExhausted<V>(lib: Library<V>, filenames: seq<string>)
    requires forall j :: 0 <= j < |filenames| ==> PassesOver(lib, filenames[j])
    ensures Scan(lib, filenames) == Fail(ValueError)
  {
    if |filenames| > 0 {
      assert forall j :: 0 <= j < |filenames| - 1 ==> filenames[1..][j] == filenames[j + 1];
      ScanExhausted(lib, filenames[1..]);
    }
  }

  /** A filename the scan reaches and cannot read a version from ends the
      scan with its error. */
  lemma {:induction false} ScanUnreadable<V>(lib: Library<V>, filenames: seq<string>, i: nat)
    requires i < |filenames| && FilenameVersion(filenames[i]).Fail?
    requires forall j :: 0 <= j < i ==> PassesOver(lib, filenames[j])
    ensures Scan(lib, filenames) == FilenameVersion(filenames[i])
  {
    if i > 0 {
      ScanUnreadable(lib, filenames[1..], i - 1);
      assert filenames[1..][i - 1] == filenames[i];
    }
  }

  /** The latest version is the last stable one listed. */
  lemma LastStableWins<V>(lib: Library<V>, anchors: seq<string>, i: nat)
    requires i < |anchors| && StopsAt(lib, anchors[i])
    requires forall k :: i < k < |anchors| ==> PassesOver(lib, anchors[k])
    ensures PageLatest(lib, anchors) == FilenameVersion(anchors[i])
  {
    var filenames := Reversed(anchors);
    var n := |anchors|;
    assert filenames[n - 1 - i] == anchors[i];
    LaterPassedOver(lib, anchors, i);
    ScanStops(lib, filenames, n - 1 - i);
  }

  /** In reversed order, the filenames listed after index `i` come first. */
  lemma LaterPassedOver<V>(lib: Library<V>, anchors: seq<string>, i: nat)
    requires i < |anchors|
    requires forall k :: i < k < |anchors| ==> PassesOver(lib, anchors[k])
    ensures forall j :: 0 <= j < |anchors| - 1 - i ==> PassesOver(lib, Reversed(anchors)[j])
  {
    forall j | 0 <= j < |anchors| - 1 - i ensures PassesOver(lib, Reversed(anchors)[j]) {
      assert Reversed(anchors)[j] == anchors[|anchors| - 1 - j];
    }
  }

  /** Every listed filename is a source archive whose version does not
      parse or is a prerelease. */
  predicate PrereleaseArchives<V>(lib: Library<V>, anchors: seq<string>) {
    forall k :: 0 <= k < |anchors| ==>
      && IsSourceArchive(anchors[k])
      && (lib.parse(SourceVersion(anchors[k])).None? || lib.isPrerelease(lib.parse(SourceVersion(anchors[k])).value))
  }

  lemma PrereleaseArchivesGiveUp<V>(lib: Library<V>, anchors: seq<string>)
    requires PrereleaseArchives(lib, anchors)
    ensures PageLatest(lib, anchors) == Fail(ValueError)
  {
    var filenames := Reversed(anchors);
    var n := |anchors|;
    forall j | 0 <= j < n ensures PassesOver(lib, filenames[j]) {
      assert filenames[j] == anchors[n - 1 - j];
      ArchiveIsNotWheel(anchors[n - 1 - j]);
    }
    ScanExhausted(lib, filenames);
  }

  lemma PrereleaseArchivesFallBack<V>(lib: Library<V>, anchors: seq<string>, i: nat)
    requires PrereleaseArchives(lib, anchors) && i < |anchors|
    requires lib.parse(SourceVersion(anchors[i])).Some?
    requires forall k :: i < k < |anchors| ==> lib.parse(SourceVersion(anchors[k])).None?
    ensures DependenciesVersionChecker.PageLatest(lib, anchors) == Ok(lib.render(lib.parse(SourceVersion(anchors[i])).value))
  {
    forall k | 0 <= k < |anchors| ensures DependenciesVersionChecker.CandidateVersion(anchors[k]) == Ok(SourceVersion(anchors[k])) {
      ArchiveIsNotWheel(anchors[k]);
    }
    DependenciesVersionChecker.PrereleaseOnlyFallback(lib, anchors, i, lib.parse(SourceVersion(anchors[i])).value);
  }

  /** A listing of source archives whose versions are all prereleases (the
      one at `i` being the last that parses) yields no version here, where
      the dependencies checker falls back on that last prerelease. */
  lemma NoPrereleaseFallback<V>(lib: Library<V>, anchors: seq<string>, i: nat)
    requires PrereleaseArchives(lib, anchors) && i < |anchors|
    requires lib.parse(SourceVersion(anchors[i])).Some?
    requires forall k :: i < k < |anchors| ==> lib.parse(SourceVersion(anchors[k])).None?
    ensures PageLatest(lib, anchors) == Fail(ValueError)
    ensures DependenciesVersionChecker.PageLatest(lib, anchors) == Ok(lib.render(lib.parse(SourceVersion(anchors[i])).value))
  {
    PrereleaseArchivesGiveUp(lib, anchors);
    PrereleaseArchivesFallBack(lib, anchors, i);
  }
}
