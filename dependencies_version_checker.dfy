/** PythonDependenciesVersionChecker
    (deps_report/dependencies_version_checkers/python.py): the latest
    version of a dependency according to the simple index pages of its
    repositories. */
module DependenciesVersionChecker {
  import opened Wrappers
  import opened Models
  import opened Packaging
  import opened SimpleIndex
  import opened Strings

  /** The version string a filename carries: wheels and eggs by their
      second field, everything else as a source archive. */
  function CandidateVersion(filename: string): Result<string> {
    if IsWheel(filename) then WheelVersion(filename) else Ok(SourceVersion(filename))
  }

  predicate Extractable(filenames: seq<string>) {
    forall i :: 0 <= i < |filenames| ==> CandidateVersion(filenames[i]).Ok?
  }

  /** What the version of a filename parses to. */
  function Parsed<V>(lib: Library<V>, filename: string): Option<V>
    requires CandidateVersion(filename).Ok?
  {
    lib.parse(CandidateVersion(filename).value)
  }

  /** The `versions` list: the parsed versions of the filenames, in order,
      the unparseable ones left out. */
  function Candidates<V>(lib: Library<V>, filenames: seq<string>): seq<V>
    requires Extractable(filenames)
  {
    if |filenames| == 0 then []
    else
      var init := Candidates(lib, filenames[..|filenames| - 1]);
      match Parsed(lib, filenames[|filenames| - 1])
      case None => init
      case Some(v) => init + [v]
  }

  predicate AllPrerelease<V>(lib: Library<V>, versions: seq<V>) {
    forall i :: 0 <= i < |versions| ==> lib.isPrerelease(versions[i])
  }

  /** The index of the first stable version, if there is one. */
  function FirstStable<V>(lib: Library<V>, versions: seq<V>): (k: Option<nat>)
    ensures k.None? <==> AllPrerelease(lib, versions)
    ensures k.Some? ==> k.value < |versions| && !lib.isPrerelease(versions[k.value])
    ensures k.Some? ==> forall j :: 0 <= j < k.value ==> lib.isPrerelease(versions[j])
  {
    if |versions| == 0 then None
    else if !lib.isPrerelease(versions[0]) then Some(0)
    else match FirstStable(lib, versions[1..])
      case None => None
      case Some(k) => Some(k + 1)
  }

  /** The selection rule over the parsed versions: the first one when all
      are prereleases, otherwise the first stable one. */
  function SelectLatest<V>(lib: Library<V>, versions: seq<V>): Result<string> {
    if AllPrerelease(lib, versions) && |versions| != 0 then Ok(lib.render(versions[0]))
    else match FirstStable(lib, versions)
      case Some(k) => Ok(lib.render(versions[k]))
      case None => Fail(ValueError)
  }

  /** The latest version a simple index page listing `anchors` announces. */
  function PageLatest<V>(lib: Library<V>, anchors: seq<string>): Result<string> {
    var filenames := Reversed(anchors);
    if !Extractable(filenames) then Fail(IndexError)
    else SelectLatest(lib, Candidates(lib, filenames))
  }

  /** `_get_latest_version_from_repository` on one response. */
  function RepositoryLatest<V>(lib: Library<V>, response: Response): Result<string> {
    match response
    case NotFound404 => Fail(ValueError)
    case TransportError => Fail(ClientError)
    case Found(anchors) => PageLatest(lib, anchors)
  }

  /** What each repository of the dependency, in preference order, yields. */
  function Outcomes<V>(lib: Library<V>, fetch: string -> Response, dependency: Dependency): seq<Result<string>> {
    var repositories := dependency.repositories;
    seq(|repositories|, i requires 0 <= i < |repositories| =>
      RepositoryLatest(lib, fetch(RepositoryUrl(repositories[i], dependency.name))))
  }

  /** `get_latest_version_of_dependency` */
  function DependencyLatest<V>(lib: Library<V>, fetch: string -> Response, dependency: Dependency): Result<string> {
    FirstAnswer(Outcomes(lib, fetch, dependency))
  }

  /** The loop over the reversed filenames: `versions` and the
      `all_are_prerelease` flag, or the IndexError of a wheel name without
      a `-` field. */
  method CollectVersions<V>(lib: Library<V>, filenames: seq<string>)
    returns (r: Result<seq<V>>, allArePrerelease: bool)
    ensures r.Fail? <==> !Extractable(filenames)
    ensures r.Fail? ==> r.error == IndexError
    ensures r.Ok? ==> r.value == Candidates(lib, filenames)
    ensures r.Ok? ==> allArePrerelease == AllPrerelease(lib, r.value)
  {
    var versions: seq<V> := [];
    allArePrerelease := true;
    var i := 0;
    while i < |filenames|
      invariant 0 <= i <= |filenames|
      invariant Extractable(filenames[..i])
      invariant versions == Candidates(lib, filenames[..i])
      invariant allArePrerelease == AllPrerelease(lib, versions)
    {
      var filename := filenames[i];
      var version;
      if IsWheel(filename) {
        version := WheelVersion(filename);
      } else {
        version := Ok(SourceVersion(filename));
      }
      assert version == CandidateVersion(filename);
      if version.Fail? {
        return Fail(version.error), allArePrerelease;
      }
      CandidatesStep(lib, filenames, i);
      var parsed := lib.parse(version.value);
      if parsed.Some? {
        AllPrereleaseAppend(lib, versions, parsed.value);
        if !lib.isPrerelease(parsed.value) {
          allArePrerelease := false;
        }
        versions := versions + [parsed.value];
      }
      i := i + 1;
    }
    assert filenames[..i] == filenames;
    r := Ok(versions);
  }

  /** One more filename extends the parsed versions by its own, if any. */
  lemma CandidatesStep<V>(lib: Library<V>, filenames: seq<string>, i: nat)
    requires i < |filenames| && Extractable(filenames[..i]) && CandidateVersion(filenames[i]).Ok?
    ensures Extractable(filenames[..i + 1])
    ensures Candidates(lib, filenames[..i + 1]) ==
      Candidates(lib, filenames[..i]) + if Parsed(lib, filenames[i]).Some? then [Parsed(lib, filenames[i]).value] else []
  {
    assert filenames[..i + 1][..i] == filenames[..i];
  }

  lemma AllPrereleaseAppend<V>(lib: Library<V>, versions: seq<V>, v: V)
    ensures AllPrerelease(lib, versions + [v]) <==> AllPrerelease(lib, versions) && lib.isPrerelease(v)
  {
    assert (versions + [v])[|versions|] == v;
    assert forall k :: 0 <= k < |versions| ==> (versions + [v])[k] == versions[k];
  }

  /** The two scans after the loop: the prerelease fallback, then the first
      stable version. */
  method ChooseVersion<V>(lib: Library<V>, versions: seq<V>, allArePrerelease: bool) returns (r: Result<string>)
    requires allArePrerelease == AllPrerelease(lib, versions)
    ensures r == SelectLatest(lib, versions)
  {
    if allArePrerelease && |versions| != 0 {
      return Ok(lib.render(versions[0]));
    }
    var j := 0;
    while j < |versions|
      invariant 0 <= j <= |versions|
      invariant forall k :: 0 <= k < j ==> lib.isPrerelease(versions[k])
    {
      if !lib.isPrerelease(versions[j]) {
        return Ok(lib.render(versions[j]));
      }
      j := j + 1;
    }
    return Fail(ValueError);
  }

  method LatestVersionFromRepository<V>(lib: Library<V>, response: Response) returns (r: Result<string>)
    ensures r == RepositoryLatest(lib, response)
  {
    if response.NotFound404? {
      return Fail(ValueError);
    }
    if response.TransportError? {
      return Fail(ClientError);
    }
    var filenames := Reversed(response.anchors);
    var versions, allArePrerelease := CollectVersions(lib, filenames);
    if versions.Fail? {
      return Fail(versions.error);
    }
    r := ChooseVersion(lib, versions.value, allArePrerelease);
  }

  method GetLatestVersionOfDependency<V>(lib: Library<V>, fetch: string -> Response, dependency: Dependency)
    returns (r: Result<string>)
    ensures r == DependencyLatest(lib, fetch, dependency)
  {
    ghost var outcomes := Outcomes(lib, fetch, dependency);
    var i := 0;
    while i < |dependency.repositories|
      invariant 0 <= i <= |dependency.repositories|
      invariant forall j :: 0 <= j < i ==> Skippable(outcomes[j])
    {
      var url := RepositoryUrl(dependency.repositories[i], dependency.name);
      var outcome := LatestVersionFromRepository(lib, fetch(url));
      assert outcome == outcomes[i];
      match outcome {
        case Ok(_) => return outcome;
        case Fail(ValueError) =>
        case Fail(ClientError) =>
        case Fail(_) => return outcome;
      }
      i := i + 1;
    }
    return Fail(VerificationError);
  }

  lemma {:induction false} ExtractableConcat(a: seq<string>, b: seq<string>)
    ensures Extractable(a + b) <==> Extractable(a) && Extractable(b)
  {
    if Extractable(a + b) {
      forall i | 0 <= i < |a| ensures CandidateVersion(a[i]).Ok? {
        assert (a + b)[i] == a[i];
      }
      forall i | 0 <= i < |b| ensures CandidateVersion(b[i]).Ok? {
        assert (a + b)[|a| + i] == b[i];
      }
    }
    if Extractable(a) && Extractable(b) {
      forall i | 0 <= i < |a + b| ensures CandidateVersion((a + b)[i]).Ok? {
        if i < |a| {
          assert (a + b)[i] == a[i];
        } else {
          assert (a + b)[i] == b[i - |a|];
        }
      }
    }
  }

  lemma {:induction false} CandidatesConcat<V>(lib: Library<V>, a: seq<string>, b: seq<string>)
    requires Extractable(a) && Extractable(b)
    ensures Extractable(a + b)
    ensures Candidates(lib, a + b) == Candidates(lib, a) + Candidates(lib, b)
    decreases |b|
  {
    ExtractableConcat(a, b);
    if |b| == 0 {
      assert a + b == a;
    } else {
      var init := b[..|b| - 1];
      assert (a + b)[..|a + b| - 1] == a + init;
      assert (a + b)[|a + b| - 1] == b[|b| - 1];
      CandidatesConcat(lib, a, init);
    }
  }

  /** Each parsed version comes from some filename. */
  lemma {:induction false} CandidateOrigin<V>(lib: Library<V>, filenames: seq<string>, k: nat)
    requires Extractable(filenames) && k < |Candidates(lib, filenames)|
    ensures exists i :: 0 <= i < |filenames| && Parsed(lib, filenames[i]) == Some(Candidates(lib, filenames)[k])
    decreases |filenames|
  {
    var n := |filenames|;
    var init := filenames[..n - 1];
    if k < |Candidates(lib, init)| {
      CandidateOrigin(lib, init, k);
      var i :| 0 <= i < |init| && Parsed(lib, init[i]) == Some(Candidates(lib, init)[k]);
      assert filenames[i] == init[i];
    } else {
      assert Parsed(lib, filenames[n - 1]) == Some(Candidates(lib, filenames)[k]);
    }
  }

  /** Filenames that never parse to a stable version yield only
      prereleases. */
  lemma NoStableCandidate<V>(lib: Library<V>, filenames: seq<string>)
    requires Extractable(filenames)
    requires forall i :: 0 <= i < |filenames| ==>
      Parsed(lib, filenames[i]).None? || lib.isPrerelease(Parsed(lib, filenames[i]).value)
    ensures AllPrerelease(lib, Candidates(lib, filenames))
  {
    forall k | 0 <= k < |Candidates(lib, filenames)| ensures lib.isPrerelease(Candidates(lib, filenames)[k]) {
      CandidateOrigin(lib, filenames, k);
    }
  }

  lemma NoCandidate<V>(lib: Library<V>, filenames: seq<string>)
    requires Extractable(filenames)
    requires forall i :: 0 <= i < |filenames| ==> Parsed(lib, filenames[i]).None?
    ensures Candidates(lib, filenames) == []
  {
    if |Candidates(lib, filenames)| > 0 {
      CandidateOrigin(lib, filenames, 0);
    }
  }

  lemma ExtractableReversed(filenames: seq<string>)
    ensures Extractable(Reversed(filenames)) <==> Extractable(filenames)
  {
    var r := Reversed(filenames);
    if Extractable(filenames) {
      forall k | 0 <= k < |r| ensures CandidateVersion(r[k]).Ok? {
        assert r[k] == filenames[|filenames| - 1 - k];
      }
    }
    if Extractable(r) {
      forall k | 0 <= k < |filenames| ensures CandidateVersion(filenames[k]).Ok? {
        assert r[|filenames| - 1 - k] == filenames[k];
      }
    }
  }

  /** The page listing seen in reversed order, cut around the listed
      filename at index `i`. */
  lemma ReversedAround(anchors: seq<string>, i: nat)
    requires i < |anchors|
    ensures Reversed(anchors) == Reversed(anchors[i + 1..]) + [anchors[i]] + Reversed(anchors[..i])
  {
    var before, after := anchors[..i], anchors[i + 1..];
    assert anchors == before + [anchors[i]] + after;
    assert Reversed([anchors[i]]) == [anchors[i]];
    ReversedConcat(before + [anchors[i]], after);
    ReversedConcat(before, [anchors[i]]);
  }

  lemma CandidatesAround<V>(lib: Library<V>, anchors: seq<string>, i: nat)
    requires Extractable(anchors) && i < |anchors|
    ensures Extractable(Reversed(anchors[i + 1..])) && Extractable(Reversed(anchors))
    ensures Candidates(lib, Reversed(anchors)) ==
      Candidates(lib, Reversed(anchors[i + 1..])) + Candidates(lib, [anchors[i]]) + Candidates(lib, Reversed(anchors[..i]))
  {
    var before, after := anchors[..i], anchors[i + 1..];
    ReversedAround(anchors, i);
    ExtractableReversed(anchors);
    ExtractableConcat(Reversed(after) + [anchors[i]], Reversed(before));
    ExtractableConcat(Reversed(after), [anchors[i]]);
    CandidatesConcat(lib, Reversed(after), [anchors[i]]);
    CandidatesConcat(lib, Reversed(after) + [anchors[i]], Reversed(before));
  }

  lemma CandidatesOfOne<V>(lib: Library<V>, filename: string)
    requires CandidateVersion(filename).Ok?
    ensures Candidates(lib, [filename]) == if Parsed(lib, filename).Some? then [Parsed(lib, filename).value] else []
  {
    assert [filename][..0] == [];
  }

  /** The latest stable release is the last stable one listed (the first in
      reversed order), even when prereleases are listed after it. */
  lemma LastStableWins<V>(lib: Library<V>, anchors: seq<string>, i: nat, p: V)
    requires Extractable(anchors) && i < |anchors|
    requires Parsed(lib, anchors[i]) == Some(p) && !lib.isPrerelease(p)
    requires forall k :: i < k < |anchors| ==>
      Parsed(lib, anchors[k]).None? || lib.isPrerelease(Parsed(lib, anchors[k]).value)
    ensures PageLatest(lib, anchors) == Ok(lib.render(p))
  {
    CandidatesAround(lib, anchors, i);
    CandidatesOfOne(lib, anchors[i]);
    LaterPrereleases(lib, anchors, i);
    SelectStable(lib, Candidates(lib, Reversed(anchors[i + 1..])), p, Candidates(lib, Reversed(anchors[..i])));
  }

  /** The filenames listed after index `i`, read in reversed order, yield
      only prereleases when none of them parses to a stable version. */
  lemma LaterPrereleases<V>(lib: Library<V>, anchors: seq<string>, i: nat)
    requires Extractable(anchors) && i < |anchors|
    requires forall k :: i < k < |anchors| ==>
      Parsed(lib, anchors[k]).None? || lib.isPrerelease(Parsed(lib, anchors[k]).value)
    ensures Extractable(Reversed(anchors[i + 1..]))
    ensures AllPrerelease(lib, Candidates(lib, Reversed(anchors[i + 1..])))
  {
    var later := Reversed(anchors[i + 1..]);
    ExtractableReversed(anchors[i + 1..]);
    forall k | 0 <= k < |later| ensures Parsed(lib, later[k]).None? || lib.isPrerelease(Parsed(lib, later[k]).value) {
      assert later[k] == anchors[|anchors| - 1 - k];
    }
    NoStableCandidate(lib, later);
  }

  /** The selection rule takes a stable version preceded only by
      prereleases. */
  lemma SelectStable<V>(lib: Library<V>, before: seq<V>, p: V, after: seq<V>)
    requires AllPrerelease(lib, before) && !lib.isPrerelease(p)
    ensures SelectLatest(lib, before + [p] + after) == Ok(lib.render(p))
  {
    var versions := before + [p] + after;
    var m := |before|;
    assert versions[m] == p;
    assert forall j :: 0 <= j < m ==> versions[j] == before[j];
    var k := FirstStable(lib, versions);
    assert k.Some? && k.value == m;
  }

  /** When every version that parses is a prerelease, the last one listed
      is taken rather than failing. */
  lemma PrereleaseOnlyFallback<V>(lib: Library<V>, anchors: seq<string>, i: nat, p: V)
    requires Extractable(anchors) && i < |anchors|
    requires Parsed(lib, anchors[i]) == Some(p)
    requires forall k :: i < k < |anchors| ==> Parsed(lib, anchors[k]).None?
    requires forall k :: 0 <= k < |anchors| ==>
      Parsed(lib, anchors[k]).None? || lib.isPrerelease(Parsed(lib, anchors[k]).value)
    ensures PageLatest(lib, anchors) == Ok(lib.render(p))
  {
    CandidatesAround(lib, anchors, i);
    CandidatesOfOne(lib, anchors[i]);
    LaterUnparsed(lib, anchors, i);
    AllPrereleaseReversed(lib, anchors);
    assert Candidates(lib, Reversed(anchors))[0] == p;
  }

  /** No filename listed after index `i` contributes a version. */
  lemma LaterUnparsed<V>(lib: Library<V>, anchors: seq<string>, i: nat)
    requires Extractable(anchors) && i < |anchors|
    requires forall k :: i < k < |anchors| ==> Parsed(lib, anchors[k]).None?
    ensures Extractable(Reversed(anchors[i + 1..]))
    ensures Candidates(lib, Reversed(anchors[i + 1..])) == []
  {
    var later := Reversed(anchors[i + 1..]);
    ExtractableReversed(anchors[i + 1..]);
    forall k | 0 <= k < |later| ensures Parsed(lib, later[k]).None? {
      assert later[k] == anchors[|anchors| - 1 - k];
    }
    NoCandidate(lib, later);
  }

  /** A page without a stable version yields only prereleases. */
  lemma AllPrereleaseReversed<V>(lib: Library<V>, anchors: seq<string>)
    requires Extractable(anchors)
    requires forall k :: 0 <= k < |anchors| ==>
      Parsed(lib, anchors[k]).None? || lib.isPrerelease(Parsed(lib, anchors[k]).value)
    ensures Extractable(Reversed(anchors))
    ensures AllPrerelease(lib, Candidates(lib, Reversed(anchors)))
  {
    var all := Reversed(anchors);
    ExtractableReversed(anchors);
    forall k | 0 <= k < |all| ensures Parsed(lib, all[k]).None? || lib.isPrerelease(Parsed(lib, all[k]).value) {
      assert all[k] == anchors[|anchors| - 1 - k];
    }
    NoStableCandidate(lib, all);
  }

  /** As soon as one listed version is stable, the answer is stable. */
  lemma StableNeverPrerelease<V>(lib: Library<V>, anchors: seq<string>, i: nat)
    requires Extractable(anchors) && i < |anchors|
    requires Parsed(lib, anchors[i]).Some? && !lib.isPrerelease(Parsed(lib, anchors[i]).value)
    ensures exists p :: !lib.isPrerelease(p) && PageLatest(lib, anchors) == Ok(lib.render(p))
  {
    CandidatesAround(lib, anchors, i);
    CandidatesOfOne(lib, anchors[i]);
    var versions := Candidates(lib, Reversed(anchors));
    var m := |Candidates(lib, Reversed(anchors[i + 1..]))|;
    assert versions[m] == Parsed(lib, anchors[i]).value;
    var k := FirstStable(lib, versions);
    assert !lib.isPrerelease(versions[k.value]);
  }

  /** A page on which no version parses cannot be checked. */
  lemma NothingParses<V>(lib: Library<V>, anchors: seq<string>)
    requires Extractable(anchors)
    requires forall k :: 0 <= k < |anchors| ==> Parsed(lib, anchors[k]).None?
    ensures PageLatest(lib, anchors) == Fail(ValueError)
  {
    var all := Reversed(anchors);
    forall k | 0 <= k < |all| ensures CandidateVersion(all[k]).Ok? && Parsed(lib, all[k]).None? {
      assert all[k] == anchors[|anchors| - 1 - k];
    }
    NoCandidate(lib, all);
  }

  /** A filename whose version does not parse changes nothing, wherever it
      is listed. */
  lemma UnparseableIgnored<V>(lib: Library<V>, before: seq<string>, filename: string, after: seq<string>)
    requires CandidateVersion(filename).Ok? && Parsed(lib, filename).None?
    ensures PageLatest(lib, before + [filename] + after) == PageLatest(lib, before + after)
  {
    ReversedConcat(before + [filename], after);
    ReversedConcat(before, [filename]);
    ReversedConcat(before, after);
    var ra, rb := Reversed(after), Reversed(before);
    assert Reversed([filename]) == [filename];
    assert Reversed(before + [filename] + after) == ra + [filename] + rb;
    assert Reversed(before + after) == ra + rb;
    ExtractableConcat(ra + [filename], rb);
    ExtractableConcat(ra, [filename]);
    ExtractableConcat(ra, rb);
    if Extractable(ra) && Extractable(rb) {
      CandidatesOfOne(lib, filename);
      CandidatesConcat(lib, ra, [filename]);
      CandidatesConcat(lib, ra + [filename], rb);
      CandidatesConcat(lib, ra, rb);
    }
  }

  /** A wheel or egg name without a `-` field makes the whole page fail with
      IndexError. */
  lemma WheelWithoutFields<V>(lib: Library<V>, anchors: seq<string>, i: nat)
    requires i < |anchors| && IsWheel(anchors[i]) && '-' !in anchors[i]
    ensures PageLatest(lib, anchors) == Fail(IndexError)
  {
    assert Reversed(anchors)[|anchors| - 1 - i] == anchors[i];
  }

  /** A source archive `prefix-version.tar.gz` or `prefix-version.zip` is a
      candidate for exactly `version`. */
  lemma SourceArchiveCandidate(prefix: string, version: string, ext: string)
    requires '-' !in version && !Occurs(version, ".zip") && !Occurs(version, ".tar.gz")
    requires ext == ".tar.gz" || ext == ".zip"
    ensures CandidateVersion(prefix + "-" + version + ext) == Ok(version)
  {
    var f := prefix + "-" + version + ext;
    assert f[|f| - |ext|..] == ext;
    ArchiveIsNotWheel(f);
    SourceFilenameVersion(prefix, version, ext);
  }

  /** A wheel or egg `project-version-tags.whl` is a candidate for exactly
      `version`. */
  lemma WheelCandidate(project: string, version: string, tags: string, ext: string)
    requires '-' !in project && '-' !in version
    requires ext == ".whl" || ext == ".egg"
    ensures CandidateVersion(project + "-" + version + "-" + tags + ext) == Ok(version)
  {
    var f := project + "-" + version + "-" + tags + ext;
    assert f[|f| - |ext|..] == ext;
    assert f == project + "-" + version + "-" + (tags + ext);
    WheelFilenameVersion(project, version, tags + ext);
  }

  /** A 404 from a repository sends the search on to the next one. */
  lemma NotFoundTriesNext<V>(lib: Library<V>, fetch: string -> Response, dependency: Dependency)
    requires |dependency.repositories| > 0
    requires fetch(RepositoryUrl(dependency.repositories[0], dependency.name)) == NotFound404
    ensures DependencyLatest(lib, fetch, dependency) ==
      DependencyLatest(lib, fetch, dependency.(repositories := dependency.repositories[1..]))
  {
    var rest := dependency.(repositories := dependency.repositories[1..]);
    var outcomes := Outcomes(lib, fetch, dependency);
    assert outcomes[1..] == Outcomes(lib, fetch, rest);
    assert Skippable(outcomes[0]);
  }
}
