/** PythonRuntimeVersionChecker
    (deps_report/runtime_version_checkers/python.py): the support status of
    the project's Python version according to the endoflife.date release
    cycles, newest first. */
module RuntimeVersionChecker {
  import opened Wrappers
  import opened Models

  /** One release cycle of the endoflife.date data; `eol` is a day number. */
  datatype Release = Release(cycle: string, latest: string, eol: int)

  const EndOfLifeApi := "https://endoflife.date/api/python.json"

  /** A cycle is "ending soon" from this many days on. */
  const EolSoonDays := 30 * 3

  /** The current version names this cycle or its latest release, exactly
      as written. */
  predicate Matches(current: string, release: Release) {
    current == release.cycle || current == release.latest
  }

  /** The index of the first release the current version matches. */
  function FindRelease(releases: seq<Release>, current: string): (k: Option<nat>)
    ensures k.None? <==> forall i :: 0 <= i < |releases| ==> !Matches(current, releases[i])
    ensures k.Some? ==> k.value < |releases| && Matches(current, releases[k.value])
    ensures k.Some? ==> forall j :: 0 <= j < k.value ==> !Matches(current, releases[j])
  {
    if |releases| == 0 then None
    else if Matches(current, releases[0]) then Some(0)
    else match FindRelease(releases[1..], current)
      case None => None
      case Some(k) => Some(k + 1)
  }

  /** `get_runtime_informations`, the download and today's date given. A
      failed download and an unknown version raise VerificationError; an
      empty list fails on its head before the search can report anything. */
  function GetRuntimeInformations(download: Download<seq<Release>>, current: string, today: int): (r: Result<RuntimeInformations>)
    ensures r.Fail? <==>
      || download.DownloadFailed?
      || forall i :: 0 <= i < |download.content| ==> !Matches(current, download.content[i])
    ensures r.Fail? ==> r.error == (if download.Downloaded? && download.content == [] then IndexError else VerificationError)
    ensures r.Ok? ==> r.value.name == "Python" && r.value.latestVersion == download.content[0].cycle
  {
    match download
    case DownloadFailed => Fail(VerificationError)
    case Downloaded(releases) =>
      var found := FindRelease(releases, current);
      if |releases| == 0 then Fail(IndexError)
      else if found.None? then Fail(VerificationError)
      else
        var matched := releases[found.value];
        var head := releases[0];
        Ok(RuntimeInformations(
          "Python",
          matched.cycle,
          head.cycle,
          head.cycle != matched.cycle,
          matched.eol,
          matched.eol <= today - EolSoonDays))
  }

  /** The record describes the first cycle the version matches, against
      the newest cycle. */
  lemma MatchedRelease(releases: seq<Release>, current: string, today: int, k: nat)
    requires k < |releases| && Matches(current, releases[k])
    requires forall j :: 0 <= j < k ==> !Matches(current, releases[j])
    ensures GetRuntimeInformations(Downloaded(releases), current, today) == Ok(RuntimeInformations(
      "Python",
      releases[k].cycle,
      releases[0].cycle,
      releases[0].cycle != releases[k].cycle,
      releases[k].eol,
      releases[k].eol <= today - EolSoonDays))
  {
    var found := FindRelease(releases, current);
    assert found.value == k;
  }

  /** A version of the newest cycle is never outdated. */
  lemma NewestNeverOutdated(releases: seq<Release>, current: string, today: int)
    requires |releases| > 0 && Matches(current, releases[0])
    ensures GetRuntimeInformations(Downloaded(releases), current, today).Ok?
    ensures !GetRuntimeInformations(Downloaded(releases), current, today).value.currentVersionIsOutdated
  {
    MatchedRelease(releases, current, today, 0);
  }

  /** Once a cycle is flagged as ending soon, it stays flagged on every
      later day. */
  lemma EolSoonPersists(releases: seq<Release>, current: string, today: int, later: int)
    requires today <= later
    requires GetRuntimeInformations(Downloaded(releases), current, today).Ok?
    requires GetRuntimeInformations(Downloaded(releases), current, today).value.currentVersionIsEolSoon
    ensures GetRuntimeInformations(Downloaded(releases), current, later).Ok?
    ensures GetRuntimeInformations(Downloaded(releases), current, later).value.currentVersionIsEolSoon
  {
    var k := FindRelease(releases, current).value;
    MatchedRelease(releases, current, today, k);
    MatchedRelease(releases, current, later, k);
  }

  /** Versions are compared as strings: a patch release other than the
      cycle's latest is unknown. */
  lemma PatchReleaseUnknown(today: int)
    ensures GetRuntimeInformations(Downloaded([Release("3.11", "3.11.4", 0)]), "3.11.2", today) == Fail(VerificationError)
  {
    var releases := [Release("3.11", "3.11.4", 0)];
    assert !Matches("3.11.2", releases[0]) by {
      assert "3.11.2" != "3.11" by { assert |"3.11.2"| != |"3.11"|; }
      assert "3.11.2"[5] != "3.11.4"[5];
    }
  }
}
