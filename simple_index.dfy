/** What the two version checkers share: the repository response, the
    version hidden in a release filename, the reversal of the listing and
    the policy for trying repositories one after the other
    (deps_report/dependencies_version_checkers/python.py and
    deps_report/version_checkers/python.py hold identical copies). */
module SimpleIndex {
  import opened Wrappers
  import opened Strings
  import opened Models

  /** The outcome of `GET {repository.url}/{name}`: the anchor texts of the
      simple index page, a 404, or another error status or a failed
      connection (a client error). */
  datatype Response = Found(anchors: seq<string>) | NotFound404 | TransportError

  function RepositoryUrl(repository: Repository, name: string): string {
    repository.url + "/" + name
  }

  /** The listing in reverse order (`filenames.reverse()`). */
  function Reversed<T>(s: seq<T>): (r: seq<T>)
    ensures |r| == |s|
    ensures forall i :: 0 <= i < |s| ==> r[i] == s[|s| - 1 - i]
  {
    seq(|s|, i requires 0 <= i < |s| => s[|s| - 1 - i])
  }

  lemma ReversedConcat<T>(a: seq<T>, b: seq<T>)
    ensures Reversed(a + b) == Reversed(b) + Reversed(a)
  {
    assert |Reversed(a + b)| == |Reversed(b) + Reversed(a)|;
    forall i | 0 <= i < |a + b| ensures Reversed(a + b)[i] == (Reversed(b) + Reversed(a))[i] {
      if i < |b| {
        assert Reversed(a + b)[i] == b[|b| - 1 - i];
      } else {
        assert Reversed(a + b)[i] == a[|a| + |b| - 1 - i];
      }
    }
  }

  predicate IsWheel(filename: string) {
    EndsWith(filename, ".egg") || EndsWith(filename, ".whl")
  }

  predicate IsSourceArchive(filename: string) {
    EndsWith(filename, ".tar.gz") || EndsWith(filename, ".zip")
  }

  lemma LastOfSuffix(s: string, suffix: string)
    requires |suffix| > 0
    ensures EndsWith(s, suffix) ==> s[|s| - 1] == suffix[|suffix| - 1]
  {
    if EndsWith(s, suffix) {
      assert s[|s| - |suffix|..][|suffix| - 1] == s[|s| - 1];
    }
  }

  lemma ArchiveIsNotWheel(filename: string)
    requires IsSourceArchive(filename)
    ensures !IsWheel(filename)
  {
    LastOfSuffix(filename, ".egg");
    LastOfSuffix(filename, ".whl");
    LastOfSuffix(filename, ".zip");
    LastOfSuffix(filename, ".tar.gz");
  }

  /** `_get_version_from_wheel_filename`: the second `-`-separated field;
      a name without `-` has none and raises IndexError. */
  function WheelVersion(filename: string): (r: Result<string>)
    ensures r.Fail? <==> '-' !in filename
    ensures r.Fail? ==> r.error == IndexError
    ensures r.Ok? ==> '-' !in r.value
  {
    var fields := Split(filename, '-');
    if |fields| < 2 then Fail(IndexError) else Ok(fields[1])
  }

  /** `_get_version_from_source_filename`: the last `-`-separated field with
      every ".zip", then every ".tar.gz", deleted. */
  function SourceVersion(filename: string): string {
    var fields := Split(filename, '-');
    Replace(Replace(fields[|fields| - 1], ".zip", ""), ".tar.gz", "")
  }

  /** A wheel or egg named `project-version-tags` yields `version`. */
  lemma WheelFilenameVersion(project: string, version: string, tags: string)
    requires '-' !in project && '-' !in version
    ensures WheelVersion(project + "-" + version + "-" + tags) == Ok(version)
  {
    var f := project + "-" + version + "-" + tags;
    assert f == project + ['-'] + (version + ['-'] + tags);
    SplitAtSeparator(project, version + ['-'] + tags, '-');
    SplitAtSeparator(version, tags, '-');
    SplitWithoutSeparator(project, '-');
    SplitWithoutSeparator(version, '-');
  }

  lemma ArchiveSuffixFacts()
    ensures Unbordered(".zip") && Unbordered(".tar.gz")
    ensures !Occurs(".tar.gz", ".zip")
  {
    var t := ".tar.gz";
    forall k | 0 < k < |t| ensures t[k..] != t[..|t| - k] {
      if k == 4 {
        assert t[k..][1] != t[..|t| - k][1];
      } else {
        assert t[k..][0] != t[..|t| - k][0];
      }
    }
    var z := ".zip";
    forall k | 0 < k < |z| ensures z[k..] != z[..|z| - k] {
      assert z[k..][0] != z[..|z| - k][0];
    }
    forall i | 0 <= i && i + |z| <= |t| ensures !OccursAt(t, z, i) {
      assert t[i..i + |z|][1] != z[1];
    }
  }

  /** A source archive named `prefix-version.tar.gz` or
      `prefix-version.zip` yields `version`, provided the version itself
      holds no `-` and no archive suffix. */
  lemma SourceFilenameVersion(prefix: string, version: string, ext: string)
    requires '-' !in version && !Occurs(version, ".zip") && !Occurs(version, ".tar.gz")
    requires ext == ".tar.gz" || ext == ".zip"
    ensures SourceVersion(prefix + "-" + version + ext) == version
  {
    ArchiveSuffixFacts();
    var last := version + ext;
    assert '-' !in last;
    assert prefix + "-" + version + ext == prefix + ['-'] + last;
    SplitAtSeparator(prefix, last, '-');
    SplitWithoutSeparator(last, '-');
    if ext == ".zip" {
      RemoveTrailing(version, ".zip");
      ReplaceAbsent(version, ".tar.gz", "");
    } else {
      AbsentFromConcat(version, ".tar.gz", ".zip");
      ReplaceAbsent(last, ".zip", "");
      RemoveTrailing(version, ".tar.gz");
    }
  }

  /** Failures after which the next repository is tried: ValueError (a 404,
      or no usable version) and client errors. Anything else escapes. */
  predicate Skippable(outcome: Result<string>) {
    outcome.Fail? && (outcome.error == ValueError || outcome.error == ClientError)
  }

  /** The repository loop of `get_latest_version_of_dependency`, given what
      each repository, in preference order, would produce: the first outcome
      that is not skippable decides; if every one is skippable the result is
      a VerificationError. */
  function FirstAnswer(outcomes: seq<Result<string>>): (r: Result<string>)
    ensures (forall i :: 0 <= i < |outcomes| ==> Skippable(outcomes[i])) ==> r == Fail(VerificationError)
    ensures forall k ::
      0 <= k < |outcomes| && !Skippable(outcomes[k]) && (forall j :: 0 <= j < k ==> Skippable(outcomes[j]))
      ==> r == outcomes[k]
  {
    if |outcomes| == 0 then Fail(VerificationError)
    else if Skippable(outcomes[0]) then FirstAnswer(outcomes[1..])
    else outcomes[0]
  }
}
