/** `process_dependency` (deps_report/processing.py): the version check,
    then the vulnerability check, of one dependency. */
module Processing {
  import opened Wrappers
  import opened Models
  import opened Packaging
  import DependenciesVersionChecker
  import opened VulnerabilityChecker
  import opened SimpleIndex

  /** The triple `process_dependency` returns. */
  datatype Processed = Processed(
    version: Option<VersionResult>,
    vulnerability: Option<VulnerabilityResult>,
    errors: seq<ErrorResult>)

  const LatestVersionError := "Could not fetch latest version"
  const VulnerabilityStatusError := "Could not check for vulnerability status"

  /** The outcome of processing `dependency`, given what the version check
      (`latest`) and the vulnerability check (`vulnerable`) yield. Only
      VerificationError is caught; any other exception escapes, as does the
      ValueError of a version that does not parse. */
  function Process<V>(lib: Library<V>, dependency: Dependency, latest: Result<string>, vulnerable: Result<Option<Vulnerability>>): (r: Result<Processed>)
    ensures r.Ok? ==> |r.value.errors| <= 1
    ensures r.Ok? ==> forall i :: 0 <= i < |r.value.errors| ==> r.value.errors[i].dependency == dependency
    // a failed version check: one error, no result, the vulnerability check ignored
    ensures latest == Fail(VerificationError) ==> r == Ok(Processed(None, None, [ErrorResult(dependency, LatestVersionError)]))
    // what escapes
    ensures r.Fail? <==>
      || (latest.Fail? && latest.error != VerificationError)
      || (latest.Ok? && (lib.parse(latest.value).None? || lib.parse(dependency.version).None?))
      || (latest.Ok? && vulnerable.Fail? && vulnerable.error != VerificationError)
    // which exception escapes: the version check's own, the ValueError of an
    // unparseable version, or the vulnerability check's own
    ensures r.Fail? && latest.Fail? ==> r.error == latest.error
    ensures r.Fail? && latest.Ok? && (lib.parse(latest.value).None? || lib.parse(dependency.version).None?) ==>
      r.error == ValueError
    ensures r.Fail? && latest.Ok? && lib.parse(latest.value).Some? && lib.parse(dependency.version).Some? ==>
      r.error == vulnerable.error
    // an update is reported iff the installed version is older, with both normalised
    ensures r.Ok? && latest.Ok? ==>
      (r.value.version.Some? <==> lib.less(lib.parse(dependency.version).value, lib.parse(latest.value).value))
    ensures r.Ok? && r.value.version.Some? ==>
      && latest.Ok?
      && r.value.version.value ==
           VersionResult(dependency, lib.render(lib.parse(dependency.version).value), lib.render(lib.parse(latest.value).value))
    // a failed vulnerability check adds its error and keeps the version result
    ensures r.Ok? && latest.Ok? ==>
      (r.value.errors == [ErrorResult(dependency, VulnerabilityStatusError)] <==> vulnerable == Fail(VerificationError))
    ensures r.Ok? && latest.Ok? ==> r.value.errors == [] || r.value.errors == [ErrorResult(dependency, VulnerabilityStatusError)]
    // a found vulnerability is copied
    ensures r.Ok? && r.value.vulnerability.Some? <==> r.Ok? && latest.Ok? && vulnerable.Ok? && vulnerable.value.Some?
    ensures r.Ok? && r.value.vulnerability.Some? ==>
      r.value.vulnerability.value == VulnerabilityResult(dependency, vulnerable.value.value.advisory, vulnerable.value.value.versionsImpacted)
  {
    if latest == Fail(VerificationError) then
      Ok(Processed(None, None, [ErrorResult(dependency, LatestVersionError)]))
    else
      var latestString :- latest;
      var latestVersion :- Parse(lib, latestString);
      var currentVersion :- Parse(lib, dependency.version);
      var version :=
        if lib.less(currentVersion, latestVersion)
        then Some(VersionResult(dependency, lib.render(currentVersion), lib.render(latestVersion)))
        else None;
      if vulnerable == Fail(VerificationError) then
        Ok(Processed(version, None, [ErrorResult(dependency, VulnerabilityStatusError)]))
      else
        var vulnerability :- vulnerable;
        match vulnerability
        case None => Ok(Processed(version, None, []))
        case Some(v) =>
          Ok(Processed(version, Some(VulnerabilityResult(dependency, v.advisory, v.versionsImpacted)), []))
  }

  /** `version_parser.parse`, which raises InvalidVersion, a ValueError. */
  function Parse<V>(lib: Library<V>, s: string): (r: Result<V>)
    ensures r.Ok? <==> lib.parse(s).Some?
    ensures r.Ok? ==> r.value == lib.parse(s).value
    ensures r.Fail? ==> r.error == ValueError
  {
    match lib.parse(s)
    case None => Fail(ValueError)
    case Some(v) => Ok(v)
  }

  /** `process_dependency` against the dependencies version checker and a
      vulnerability checker. */
  method ProcessDependency<V>(lib: Library<V>, fetch: string -> Response, checker: PythonVulnerabilityChecker, dependency: Dependency)
    returns (r: Result<Processed>)
    ensures r == Process(lib, dependency,
      DependenciesVersionChecker.DependencyLatest(lib, fetch, dependency),
      Vulnerable(lib, checker.data, dependency))
  {
    var errors: seq<ErrorResult> := [];
    var versionResult: Option<VersionResult> := None;
    var vulnerabilityResult: Option<VulnerabilityResult> := None;

    var latest := DependenciesVersionChecker.GetLatestVersionOfDependency(lib, fetch, dependency);
    if latest == Fail(VerificationError) {
      errors := errors + [ErrorResult(dependency, LatestVersionError)];
      assert errors == [ErrorResult(dependency, LatestVersionError)];
      return Ok(Processed(versionResult, vulnerabilityResult, errors));
    }
    if latest.Fail? {
      return Fail(latest.error);
    }
    var latestVersion := lib.parse(latest.value);
    if latestVersion.None? {
      return Fail(ValueError);
    }
    var currentVersion := lib.parse(dependency.version);
    if currentVersion.None? {
      return Fail(ValueError);
    }
    if lib.less(currentVersion.value, latestVersion.value) {
      versionResult := Some(VersionResult(dependency, lib.render(currentVersion.value), lib.render(latestVersion.value)));
    }

    var vulnerability := checker.CheckIfPackageIsVulnerable(lib, dependency);
    if vulnerability == Fail(VerificationError) {
      errors := errors + [ErrorResult(dependency, VulnerabilityStatusError)];
      assert errors == [ErrorResult(dependency, VulnerabilityStatusError)];
    } else if vulnerability.value.Some? {
      var v := vulnerability.value.value;
      vulnerabilityResult := Some(VulnerabilityResult(dependency, v.advisory, v.versionsImpacted));
    }
    return Ok(Processed(versionResult, vulnerabilityResult, errors));
  }
}
