/** `get_display_output_for_dependency`
    (deps_report/utils/output/common.py): how a dependency is named in the
    reports. */
module Output {
  import opened Strings
  import opened Models

  /** The tags of a dependency: `dev`, then `transitive`, each when its
      flag is set. */
  function Tags(dependency: Dependency): (tags: seq<string>)
    ensures "dev" in tags <==> dependency.forDev
    ensures "transitive" in tags <==> dependency.transitive
    ensures forall i :: 0 <= i < |tags| ==> tags[i] == "dev" || tags[i] == "transitive"
    ensures |tags| == 2 ==> tags == ["dev", "transitive"]
  {
    (if dependency.forDev then ["dev"] else []) + (if dependency.transitive then ["transitive"] else [])
  }

  /** The name alone, or the name followed by its comma-separated tags in
      parentheses. */
  function DisplayLabel(dependency: Dependency): (shown: string)
    ensures StartsWith(shown, dependency.name)
    ensures shown == dependency.name <==> !dependency.forDev && !dependency.transitive
    ensures dependency.forDev && dependency.transitive ==> shown == dependency.name + " (dev,transitive)"
    ensures dependency.forDev && !dependency.transitive ==> shown == dependency.name + " (dev)"
    ensures !dependency.forDev && dependency.transitive ==> shown == dependency.name + " (transitive)"
  {
    var tags := Tags(dependency);
    if |tags| == 0 then dependency.name
    else
      TagsText(dependency);
      dependency.name + " (" + Join(tags, ",") + ")"
  }

  /** The tags joined by commas. */
  lemma TagsText(dependency: Dependency)
    ensures dependency.forDev && dependency.transitive ==> Join(Tags(dependency), ",") == "dev,transitive"
    ensures dependency.forDev && !dependency.transitive ==> Join(Tags(dependency), ",") == "dev"
    ensures !dependency.forDev && dependency.transitive ==> Join(Tags(dependency), ",") == "transitive"
  {
    var tags := Tags(dependency);
    if |tags| == 2 {
      assert Join(tags, ",") == "dev" + "," + "transitive";
    }
  }

  method GetDisplayOutputForDependency(dependency: Dependency) returns (output: string)
    ensures output == DisplayLabel(dependency)
  {
    var properties: seq<string> := [];
    if dependency.forDev {
      properties := properties + ["dev"];
    }
    if dependency.transitive {
      properties := properties + ["transitive"];
    }
    assert properties == Tags(dependency);
    if |properties| == 0 {
      return dependency.name;
    }
    output := dependency.name + " (" + Join(properties, ",") + ")";
  }

  /** Two dependencies of the same name are displayed alike only when they
      carry the same flags. */
  lemma LabelDeterminesFlags(a: Dependency, b: Dependency)
    requires a.name == b.name && DisplayLabel(a) == DisplayLabel(b)
    ensures a.forDev == b.forDev && a.transitive == b.transitive
  {
  }
}
