/** The result partition of `_process_project` and `_process_project_json`
    (deps_report/main.py): every dependency is processed, in order, and the
    per-dependency triples are split into the three report lists. */
module Project {
  import opened Wrappers
  import opened Models
  import opened Packaging
  import opened SimpleIndex
  import opened VulnerabilityChecker
  import opened Processing
  import DependenciesVersionChecker

  /** The three lists handed to the renderers. */
  datatype Report = Report(
    versions: seq<VersionResult>,
    vulnerabilities: seq<VulnerabilityResult>,
    errors: seq<ErrorResult>)

  /** `filter(None, xs)`: the present values, in order. */
  function Somes<T(!new)>(xs: seq<Option<T>>): (r: seq<T>)
    ensures |r| <= |xs|
    ensures forall x :: x in r <==> Some(x) in xs
  {
    if |xs| == 0 then []
    else
      var init := xs[..|xs| - 1];
      var rest := Somes(init);
      assert forall x :: Some(x) in xs <==> Some(x) in init || xs[|xs| - 1] == Some(x) by {
        assert xs == init + [xs[|xs| - 1]];
      }
      match xs[|xs| - 1]
      case None => rest
      case Some(x) => rest + [x]
  }

  /** The lengths of the lists, added up. */
  function TotalLength<T>(xss: seq<seq<T>>): nat {
    if |xss| == 0 then 0 else TotalLength(xss[..|xss| - 1]) + |xss[|xss| - 1]|
  }

  /** `itertools.chain(*xss)`: the lists one after the other. */
  function Flatten<T(!new)>(xss: seq<seq<T>>): (r: seq<T>)
    ensures forall x :: x in r <==> exists i :: 0 <= i < |xss| && x in xss[i]
    ensures |r| == TotalLength(xss)
  {
    if |xss| == 0 then []
    else
      var init := xss[..|xss| - 1];
      var rest := Flatten(init);
      assert forall x :: x in rest <==> exists i :: 0 <= i < |init| && x in xss[i] by {
        forall x ensures x in rest <==> exists i :: 0 <= i < |init| && x in xss[i] {
          if x in rest {
            var i :| 0 <= i < |init| && x in init[i];
            assert x in xss[i];
          }
          if exists i :: 0 <= i < |init| && x in xss[i] {
            var i :| 0 <= i < |init| && x in xss[i];
            assert x in init[i];
          }
        }
      }
      rest + xss[|xss| - 1]
  }

  /** What processing one dependency yields against the dependencies
      version checker and the vulnerability database `data`. */
  function Outcome<V>(lib: Library<V>, fetch: string -> Response, data: Option<Database>, dependency: Dependency): Result<Processed> {
    Process(lib, dependency,
      DependenciesVersionChecker.DependencyLatest(lib, fetch, dependency),
      Vulnerable(lib, data, dependency))
  }

  /** The gathered results: one triple per dependency, in input order, or
      the first exception raised. */
  function ProcessAll<V>(lib: Library<V>, fetch: string -> Response, data: Option<Database>, dependencies: seq<Dependency>): (r: Result<seq<Processed>>)
    ensures r.Ok? ==> |r.value| == |dependencies|
    ensures r.Ok? ==> forall i :: 0 <= i < |dependencies| ==> Outcome(lib, fetch, data, dependencies[i]) == Ok(r.value[i])
    ensures r.Fail? ==> exists i ::
      && 0 <= i < |dependencies|
      && Outcome(lib, fetch, data, dependencies[i]) == Fail(r.error)
      && forall j :: 0 <= j < i ==> Outcome(lib, fetch, data, dependencies[j]).Ok?
  {
    if |dependencies| == 0 then Ok([])
    else
      var n := |dependencies|;
      var init := dependencies[..n - 1];
      var first := ProcessAll(lib, fetch, data, init);
      assert forall i :: 0 <= i < n - 1 ==> init[i] == dependencies[i];
      var results :- first;
      var last :- Outcome(lib, fetch, data, dependencies[n - 1]);
      Ok(results + [last])
  }

  /** The three columns of the unzipped results. */
  function VersionColumn(results: seq<Processed>): (c: seq<Option<VersionResult>>)
    ensures |c| == |results| && forall i :: 0 <= i < |results| ==> c[i] == results[i].version
  {
    seq(|results|, i requires 0 <= i < |results| => results[i].version)
  }

  function VulnerabilityColumn(results: seq<Processed>): (c: seq<Option<VulnerabilityResult>>)
    ensures |c| == |results| && forall i :: 0 <= i < |results| ==> c[i] == results[i].vulnerability
  {
    seq(|results|, i requires 0 <= i < |results| => results[i].vulnerability)
  }

  function ErrorColumn(results: seq<Processed>): (c: seq<seq<ErrorResult>>)
    ensures |c| == |results| && forall i :: 0 <= i < |results| ==> c[i] == results[i].errors
  {
    seq(|results|, i requires 0 <= i < |results| => results[i].errors)
  }

  /** Lines 51-56: unzip, flatten the errors, drop the absent results. With
      no dependency at all the three-way unpack raises ValueError. */
  function Partition(results: seq<Processed>): (r: Result<Report>)
    ensures r.Fail? <==> results == []
    ensures r.Fail? ==> r.error == ValueError
  {
    if |results| == 0 then Fail(ValueError)
    else Ok(Report(Somes(VersionColumn(results)), Somes(VulnerabilityColumn(results)), Flatten(ErrorColumn(results))))
  }

  /** The report of a whole project. */
  function ProjectReport<V>(lib: Library<V>, fetch: string -> Response, data: Option<Database>, dependencies: seq<Dependency>): Result<Report> {
    var results :- ProcessAll(lib, fetch, data, dependencies);
    Partition(results)
  }

  lemma {:induction false} SomesConcat<T(!new)>(a: seq<Option<T>>, b: seq<Option<T>>)
    ensures Somes(a + b) == Somes(a) + Somes(b)
    decreases |b|
  {
    if |b| == 0 {
      assert a + b == a;
    } else {
      var init := b[..|b| - 1];
      assert (a + b)[..|a + b| - 1] == a + init;
      assert (a + b)[|a + b| - 1] == b[|b| - 1];
      SomesConcat(a, init);
    }
  }

  lemma {:induction false} FlattenConcat<T(!new)>(a: seq<seq<T>>, b: seq<seq<T>>)
    ensures Flatten(a + b) == Flatten(a) + Flatten(b)
    decreases |b|
  {
    if |b| == 0 {
      assert a + b == a;
    } else {
      var init := b[..|b| - 1];
      assert (a + b)[..|a + b| - 1] == a + init;
      assert (a + b)[|a + b| - 1] == b[|b| - 1];
      FlattenConcat(a, init);
    }
  }

  /** The report of two groups of dependencies is the report of the first
      followed by that of the second: order is kept and nothing is merged
      or deduplicated. */
  lemma PartitionConcat(a: seq<Processed>, b: seq<Processed>)
    requires a != [] && b != []
    ensures Partition(a + b).value.versions == Partition(a).value.versions + Partition(b).value.versions
    ensures Partition(a + b).value.vulnerabilities == Partition(a).value.vulnerabilities + Partition(b).value.vulnerabilities
    ensures Partition(a + b).value.errors == Partition(a).value.errors + Partition(b).value.errors
  {
    assert VersionColumn(a + b) == VersionColumn(a) + VersionColumn(b);
    SomesConcat(VersionColumn(a), VersionColumn(b));
    assert VulnerabilityColumn(a + b) == VulnerabilityColumn(a) + VulnerabilityColumn(b);
    SomesConcat(VulnerabilityColumn(a), VulnerabilityColumn(b));
    assert ErrorColumn(a + b) == ErrorColumn(a) + ErrorColumn(b);
    FlattenConcat(ErrorColumn(a), ErrorColumn(b));
  }

  /** A VersionResult is in the report exactly when some dependency's
      processing produced it. */
  lemma ReportedVersion<V>(lib: Library<V>, fetch: string -> Response, data: Option<Database>, dependencies: seq<Dependency>, v: VersionResult)
    requires ProjectReport(lib, fetch, data, dependencies).Ok?
    ensures v in ProjectReport(lib, fetch, data, dependencies).value.versions <==>
      exists i :: 0 <= i < |dependencies| && Outcome(lib, fetch, data, dependencies[i]) == Ok(Processed(Some(v), Outcome(lib, fetch, data, dependencies[i]).value.vulnerability, Outcome(lib, fetch, data, dependencies[i]).value.errors))
  {
    var results := ProcessAll(lib, fetch, data, dependencies).value;
    var versions := VersionColumn(results);
    if Some(v) in versions {
      var i :| 0 <= i < |versions| && versions[i] == Some(v);
      assert Outcome(lib, fetch, data, dependencies[i]) == Ok(results[i]);
    }
    if exists i :: 0 <= i < |dependencies| && Outcome(lib, fetch, data, dependencies[i]) == Ok(Processed(Some(v), Outcome(lib, fetch, data, dependencies[i]).value.vulnerability, Outcome(lib, fetch, data, dependencies[i]).value.errors)) {
      var i :| 0 <= i < |dependencies| && Outcome(lib, fetch, data, dependencies[i]) == Ok(Processed(Some(v), Outcome(lib, fetch, data, dependencies[i]).value.vulnerability, Outcome(lib, fetch, data, dependencies[i]).value.errors));
      assert versions[i] == Some(v);
    }
  }

  /** Each dependency contributes at most one error to the report. */
  lemma {:induction false} ErrorsBounded(results: seq<Processed>)
    requires forall i :: 0 <= i < |results| ==> |results[i].errors| <= 1
    ensures |Flatten(ErrorColumn(results))| <= |results|
    decreases |results|
  {
    if |results| > 0 {
      var init := results[..|results| - 1];
      assert ErrorColumn(results)[..|results| - 1] == ErrorColumn(init);
      ErrorsBounded(init);
    }
  }

  lemma ProjectErrorsBounded<V>(lib: Library<V>, fetch: string -> Response, data: Option<Database>, dependencies: seq<Dependency>)
    requires ProjectReport(lib, fetch, data, dependencies).Ok?
    ensures |ProjectReport(lib, fetch, data, dependencies).value.errors| <= |dependencies|
  {
    var results := ProcessAll(lib, fetch, data, dependencies).value;
    forall i | 0 <= i < |results| ensures |results[i].errors| <= 1 {
      assert Outcome(lib, fetch, data, dependencies[i]) == Ok(results[i]);
    }
    ErrorsBounded(results);
  }
}
