/** The records the core passes around (deps_report/models). */
module Models {
  import opened Wrappers

  /** A package index: its name and base URL. */
  datatype Repository = Repository(name: string, url: string)

  /** The repository every Python project can fall back on. */
  const DefaultRepository := Repository("pypi", "https://pypi.org/simple")

  /** A dependency as the parsers produce it: its repositories are in
      preference order. */
  datatype Dependency = Dependency(
    name: string,
    version: string,
    repositories: seq<Repository>,
    forDev: bool,
    transitive: bool)

  datatype Vulnerability = Vulnerability(advisory: string, cve: Option<string>, versionsImpacted: string)

  datatype VersionResult = VersionResult(dependency: Dependency, installedVersion: string, latestVersion: string)

  datatype VulnerabilityResult = VulnerabilityResult(dependency: Dependency, advisory: string, impactedVersions: string)

  datatype ErrorResult = ErrorResult(dependency: Dependency, error: string)

  /** Dates are day numbers. */
  datatype RuntimeInformations = RuntimeInformations(
    name: string,
    currentVersion: string,
    latestVersion: string,
    currentVersionIsOutdated: bool,
    currentVersionEolDate: int,
    currentVersionIsEolSoon: bool)

  /** The body of an HTTP download, or a client error (a failed connection
      or an error status). */
  datatype Download<T> = Downloaded(content: T) | DownloadFailed
}
