/** The parts of the `packaging` library the core relies on (PEP 440
    versions and the specifiers of its "Version specifiers" section). Their
    internals are not modelled: a `Library` bundles them as functions and
    every operation that needs them takes one as a parameter, with `V` the
    library's version type. */
module Packaging {
  import opened Wrappers

  datatype Library<!V> = Library(
    /** `version.parse(s)`; `None` where it raises InvalidVersion */
    parse: string -> Option<V>,
    /** `v.is_prerelease` */
    isPrerelease: V -> bool,
    /** `a < b` */
    less: (V, V) -> bool,
    /** `str(v)`, the normalised rendering */
    render: V -> string,
    /** `SpecifierSet(constraint).contains(version)` */
    contains: (string, string) -> bool)

}
