/** `get_parser_for_file_path` (deps_report/parsers/__init__.py): the first
    rule of the table whose regular expression `re.match`es the path picks
    the parser class, which is then constructed from the path. */
module Parsers {
  import opened Wrappers
  import opened Paths
  import opened Strings
  import PipenvParsing = Pipenv
  import PoetryParsing = Poetry

  /** A parser as its constructor leaves it: the pipenv parser holds the
      lock file path it reads, the poetry parser the paths of both files. */
  datatype Parser = PipenvParser(lockPath: string) | PoetryParser(paths: PoetryParsing.FilePaths)

  /** The parser class a rule names. */
  datatype ParserClass = PipenvClass | PoetryClass

  /** One position of a pattern: a literal character, or `.`, which matches
      any character but a newline. */
  datatype Atom = Char(c: char) | AnyChar

  predicate AtomMatches(a: Atom, c: char) {
    match a
    case Char(d) => c == d
    case AnyChar => c != '\n'
  }

  /** The pattern matches the end of `s`. */
  predicate EndMatches(s: string, pattern: seq<Atom>) {
    |pattern| <= |s| && forall k :: 0 <= k < |pattern| ==> AtomMatches(pattern[k], s[|s| - |pattern| + k])
  }

  /** What a `$` match may stop at: the whole string, or all of it but a
      final newline. */
  function Subject(path: string): string {
    if |path| > 0 && path[|path| - 1] == '\n' then path[..|path| - 1] else path
  }

  /** `re.match(".*" + X + "$", path)`, X being given as the fixed-length
      alternatives it expands to. `.*` matches from the start of the path
      and never crosses a newline, so nothing but a final newline may
      follow or precede the matched text. */
  predicate RuleMatches(alternatives: seq<seq<Atom>>, path: string) {
    var subject := Subject(path);
    && '\n' !in subject
    && exists i :: 0 <= i < |alternatives| && EndMatches(subject, alternatives[i])
  }

  function Literal(s: string): (pattern: seq<Atom>)
    ensures |pattern| == |s| && forall k :: 0 <= k < |s| ==> pattern[k] == Char(s[k])
  {
    seq(|s|, k requires 0 <= k < |s| => Char(s[k]))
  }

  /** `Pipfile(.lock)?`: the dot is not escaped. */
  const PipfileRule: seq<seq<Atom>> := [Literal("Pipfile"), Literal("Pipfile") + [AnyChar] + Literal("lock")]

  /** `poetry.lock?`: only the final `k` is optional. */
  const PoetryLockRule: seq<seq<Atom>> := [Literal("poetry") + [AnyChar] + Literal("loc"), Literal("poetry") + [AnyChar] + Literal("lock")]

  /** `pyproject.toml?`: only the final `l` is optional. */
  const PyprojectRule: seq<seq<Atom>> := [Literal("pyproject") + [AnyChar] + Literal("tom"), Literal("pyproject") + [AnyChar] + Literal("toml")]

  datatype Rule = Rule(alternatives: seq<seq<Atom>>, parserClass: ParserClass)

  /** `PARSERS_RULES`, in table order. */
  const Rules: seq<Rule> := [Rule(PipfileRule, PipenvClass), Rule(PoetryLockRule, PoetryClass), Rule(PyprojectRule, PoetryClass)]

  /** `parser_class(file_path)`: the pipenv constructor rewrites the path
      to the lock file it reads and cannot fail; the poetry constructor
      raises ValueError unless the file name is `poetry.lock` or
      `pyproject.toml`. */
  function Construct(parserClass: ParserClass, filePath: string): (r: Result<Parser>)
    ensures r.Fail? <==> parserClass == PoetryClass && PathSplit(filePath).name != "poetry.lock" && PathSplit(filePath).name != "pyproject.toml"
    ensures r.Fail? ==> r.error == ValueError
    ensures r.Ok? ==> (r.value.PipenvParser? <==> parserClass == PipenvClass)
    ensures r.Ok? && r.value.PipenvParser? ==> r.value.lockPath == PipenvParsing.LockPath(filePath)
    ensures r.Ok? && r.value.PoetryParser? ==> PoetryParsing.GetFilePaths(filePath) == Ok(r.value.paths)
  {
    match parserClass
    case PipenvClass => Ok(PipenvParser(PipenvParsing.LockPath(filePath)))
    case PoetryClass =>
      var paths :- PoetryParsing.GetFilePaths(filePath);
      Ok(PoetryParser(paths))
  }

  /** The pipenv class cannot fail: a `Pipfile.lock` is read where it is,
      and any other file name `stem.ext` is read as `ok_stem.txt` in the
      same directory. */
  lemma PipenvClassReadsLock(dir: string, name: string)
    requires NormalDir(dir) && '/' !in name
    ensures name == "Pipfile.lock" ==> Construct(PipenvClass, PathJoin(dir, name)) == Ok(PipenvParser(PathJoin(dir, name)))
    ensures Construct(PipenvClass, PathJoin(dir, name)).Ok?
    ensures name != "Pipfile.lock" ==>
      PathSplit(Construct(PipenvClass, PathJoin(dir, name)).value.lockPath) == PathParts(dir, "ok_" + SplitExt(name).root + ".txt")
  {
    SplitOfJoin(dir, name);
    if name != "Pipfile.lock" {
      PipenvParsing.LockPathSameDirectory(PathJoin(dir, name));
    }
  }

  /** No rule of `rules` matches the path. */
  predicate NoneMatches(rules: seq<Rule>, filePath: string) {
    forall k :: 0 <= k < |rules| ==> !RuleMatches(rules[k].alternatives, filePath)
  }

  /** The rule at index k is the first of `rules` matching the path. */
  predicate FirstMatching(rules: seq<Rule>, filePath: string, k: int) {
    && 0 <= k < |rules|
    && RuleMatches(rules[k].alternatives, filePath)
    && forall j :: 0 <= j < k ==> !RuleMatches(rules[j].alternatives, filePath)
  }

  /** The class of the first rule of `rules` matching the path, constructed
      from the path; ValueError when no rule matches. */
  function FirstRule(rules: seq<Rule>, filePath: string): (r: Result<Parser>)
    ensures NoneMatches(rules, filePath) ==> r == Fail(ValueError)
    ensures forall k :: FirstMatching(rules, filePath, k) ==> r == Construct(rules[k].parserClass, filePath)
    ensures r.Ok? ==> exists k :: FirstMatching(rules, filePath, k)
    ensures r.Fail? ==> r.error == ValueError
  {
    if |rules| == 0 then Fail(ValueError)
    else if RuleMatches(rules[0].alternatives, filePath) then
      assert FirstMatching(rules, filePath, 0);
      Construct(rules[0].parserClass, filePath)
    else
      var r := FirstRule(rules[1..], filePath);
      FirstRuleShift(rules, filePath);
      r
  }

  /** Past a first rule that does not match, the rules after it decide. */
  lemma FirstRuleShift(rules: seq<Rule>, filePath: string)
    requires |rules| > 0 && !RuleMatches(rules[0].alternatives, filePath)
    ensures NoneMatches(rules[1..], filePath) ==> NoneMatches(rules, filePath)
    ensures forall k :: FirstMatching(rules, filePath, k) ==> FirstMatching(rules[1..], filePath, k - 1)
    ensures forall k :: FirstMatching(rules[1..], filePath, k) ==> FirstMatching(rules, filePath, k + 1)
  {
    assert forall k :: 1 <= k < |rules| ==> rules[1..][k - 1] == rules[k];
  }

  /** `get_parser_for_file_path`: the parser is constructed from the path
      as given; only ValueError escapes. */
  function GetParserForFilePath(filePath: string): (r: Result<Parser>)
    ensures r.Fail? ==> r.error == ValueError
    ensures r.Ok? && r.value.PipenvParser? ==> r.value.lockPath == PipenvParsing.LockPath(filePath)
    ensures r.Ok? && r.value.PoetryParser? ==> PoetryParsing.GetFilePaths(filePath) == Ok(r.value.paths)
  {
    FirstRule(Rules, filePath)
  }

  /** The pattern matches all of `s`. */
  predicate Matches(s: string, pattern: seq<Atom>) {
    |pattern| == |s| && forall k :: 0 <= k < |s| ==> AtomMatches(pattern[k], s[k])
  }

  lemma MatchesAtEnd(prefix: string, name: string, pattern: seq<Atom>)
    requires Matches(name, pattern)
    ensures EndMatches(prefix + name, pattern)
  {
    var path := prefix + name;
    assert |path| - |pattern| == |prefix|;
    forall k | 0 <= k < |pattern| ensures AtomMatches(pattern[k], path[|prefix| + k]) {
      assert path[|prefix| + k] == name[k];
    }
  }

  /** A path made of a newline-free prefix and a file name the rule
      accepts. */
  lemma RuleAcceptsName(prefix: string, name: string, alternatives: seq<seq<Atom>>, i: nat)
    requires '\n' !in prefix && '\n' !in name
    requires i < |alternatives| && Matches(name, alternatives[i])
    ensures RuleMatches(alternatives, prefix + name)
  {
    var path := prefix + name;
    assert '\n' !in path by {
      forall k | 0 <= k < |path| ensures path[k] != '\n' {
        if k < |prefix| {
          assert path[k] == prefix[k];
        } else {
          assert path[k] == name[k - |prefix|];
        }
      }
    }
    assert Subject(path) == path;
    MatchesAtEnd(prefix, name, alternatives[i]);
  }

  /** A rule rejects a path if no alternative matches its end at some
      position. */
  lemma RuleRejects(path: string, alternatives: seq<seq<Atom>>)
    requires '\n' !in path
    requires forall i :: 0 <= i < |alternatives| ==> !EndMatches(path, alternatives[i])
    ensures !RuleMatches(alternatives, path)
  {
    assert Subject(path) == path;
  }

  /** One atom that fails at its place rules the alternative out. */
  lemma AtomRejects(path: string, pattern: seq<Atom>, k: nat)
    requires k < |pattern| <= |path| && !AtomMatches(pattern[k], path[|path| - |pattern| + k])
    ensures !EndMatches(path, pattern)
  {
  }

  /** The rule at index k is the first that matches: its class is
      constructed from the path. */
  lemma SelectedBy(path: string, k: nat)
    requires k < |Rules| && RuleMatches(Rules[k].alternatives, path)
    requires forall j :: 0 <= j < k ==> !RuleMatches(Rules[j].alternatives, path)
    ensures GetParserForFilePath(path) == Construct(Rules[k].parserClass, path)
  {
    assert FirstMatching(Rules, path, k);
  }

  /** Any newline-free path ending in `Pipfile.lock` or `Pipfile` is read
      by the pipenv parser, which reads the lock path derived from it. */
  lemma PipfileSelectsPipenv(prefix: string, name: string)
    requires '\n' !in prefix && (name == "Pipfile.lock" || name == "Pipfile")
    ensures GetParserForFilePath(prefix + name) == Ok(PipenvParser(PipenvParsing.LockPath(prefix + name)))
  {
    if name == "Pipfile" {
      RuleAcceptsName(prefix, name, PipfileRule, 0);
    } else {
      RuleAcceptsName(prefix, name, PipfileRule, 1);
    }
    SelectedBy(prefix + name, 0);
  }

  /** The directory part of `os.path.join(dir, name)`, when `name` does not
      start with a slash. */
  function JoinPrefix(dir: string): (prefix: string)
    ensures '\n' !in dir ==> '\n' !in prefix
    ensures forall name :: |name| > 0 && name[0] != '/' ==> PathJoin(dir, name) == prefix + name
  {
    if dir == "" || dir[|dir| - 1] == '/' then dir else dir + "/"
  }

  /** A `poetry.lock` in any newline-free directory is caught by the second
      rule, the first one never matching it, and the poetry parser reads
      it with the `pyproject.toml` beside it. */
  lemma PoetryLockSelectsPoetry(dir: string)
    requires '\n' !in dir && NormalDir(dir)
    ensures GetParserForFilePath(PathJoin(dir, "poetry.lock")) ==
      Ok(PoetryParser(PoetryParsing.FilePaths(PathJoin(dir, "pyproject.toml"), PathJoin(dir, "poetry.lock"))))
  {
    PoetryLockRuleFirst(JoinPrefix(dir), "poetry.lock");
    PoetryParsing.PairedInSameDirectory(dir, "poetry.lock");
  }

  /** Any newline-free path ending in `poetry.lock` is given to the poetry
      class. */
  lemma PoetryLockRuleFirst(prefix: string, name: string)
    requires '\n' !in prefix && name == "poetry.lock"
    ensures GetParserForFilePath(prefix + name) == Construct(PoetryClass, prefix + name)
  {
    var path := prefix + name;
    RuleAcceptsName(prefix, name, PoetryLockRule, 1);
    assert path[|path| - 1] == name[10] && path[|path| - 6] == name[5];
    PipfileRejects(path);
    SelectedBy(path, 1);
  }

  /** A path whose sixth character from the end is not `e` does not end in
      `Pipfile` followed by any character and `lock`; one whose last
      character is not `e` does not end in `Pipfile`. */
  lemma PipfileRejects(path: string)
    requires '\n' !in path && |path| >= 6 && path[|path| - 1] != 'e' && path[|path| - 6] != 'e'
    ensures !RuleMatches(PipfileRule, path)
  {
    if |PipfileRule[0]| <= |path| {
      AtomRejects(path, PipfileRule[0], |PipfileRule[0]| - 1);
    }
    if |PipfileRule[1]| <= |path| {
      assert PipfileRule[1][6] == Char('e');
      AtomRejects(path, PipfileRule[1], 6);
    }
    RuleRejects(path, PipfileRule);
  }

  /** A path ending in `m` or `l` passes the first two rules. */
  lemma FirstRulesReject(path: string)
    requires '\n' !in path && |path| > 0 && (path[|path| - 1] == 'm' || path[|path| - 1] == 'l')
    ensures !RuleMatches(Rules[0].alternatives, path) && !RuleMatches(Rules[1].alternatives, path)
  {
    LastAtomsReject(path, PipfileRule);
    LastAtomsReject(path, PoetryLockRule);
  }

  /** A rule whose alternatives all end in a letter other than the path's
      last character rejects the path. */
  lemma LastAtomsReject(path: string, alternatives: seq<seq<Atom>>)
    requires '\n' !in path && |path| > 0
    requires forall i :: 0 <= i < |alternatives| ==>
      |alternatives[i]| > 0 && !AtomMatches(alternatives[i][|alternatives[i]| - 1], path[|path| - 1])
    ensures !RuleMatches(alternatives, path)
  {
    forall i | 0 <= i < |alternatives| ensures !EndMatches(path, alternatives[i]) {
      if |alternatives[i]| <= |path| {
        AtomRejects(path, alternatives[i], |alternatives[i]| - 1);
      }
    }
    RuleRejects(path, alternatives);
  }

  /** A `pyproject.toml` in any newline-free directory is caught by the
      third rule, and the poetry parser reads it with the `poetry.lock`
      beside it. */
  lemma PyprojectSelectsPoetry(dir: string)
    requires '\n' !in dir && NormalDir(dir)
    ensures GetParserForFilePath(PathJoin(dir, "pyproject.toml")) ==
      Ok(PoetryParser(PoetryParsing.FilePaths(PathJoin(dir, "pyproject.toml"), PathJoin(dir, "poetry.lock"))))
  {
    PyprojectRuleFirst(JoinPrefix(dir), "pyproject.toml");
    PoetryParsing.PairedInSameDirectory(dir, "pyproject.toml");
  }

  /** Any newline-free path ending in `pyproject.toml` or `pyproject.tom`
      is given to the poetry class. */
  lemma PyprojectRuleFirst(prefix: string, name: string)
    requires '\n' !in prefix && (name == "pyproject.toml" || name == "pyproject.tom")
    ensures GetParserForFilePath(prefix + name) == Construct(PoetryClass, prefix + name)
  {
    var path := prefix + name;
    if name == "pyproject.toml" {
      RuleAcceptsName(prefix, name, PyprojectRule, 1);
      assert path[|path| - 1] == 'l';
    } else {
      RuleAcceptsName(prefix, name, PyprojectRule, 0);
      assert path[|path| - 1] == 'm';
    }
    FirstRulesReject(path);
    SelectedBy(path, 2);
  }

  /** A path without a slash is its own file name. */
  lemma PlainName(path: string)
    requires '/' !in path
    ensures PathSplit(path).name == path
  {
    assert LastIndexOf(path, '/') == -1;
  }

  /** The poetry class refuses a file name other than its two. */
  lemma PoetryClassRefuses(path: string)
    requires '/' !in path && path != "poetry.lock" && path != "pyproject.toml"
    ensures Construct(PoetryClass, path) == Fail(ValueError)
  {
    PlainName(path);
  }

  /** The poetry rules also match names the poetry constructor refuses,
      which then raise ValueError: `pyproject.tom`, the last letter being
      optional, and, nothing tying a rule to a directory separator,
      `poetry.lock` or `pyproject.toml` glued to a file name prefix such as
      `x` in `xpoetry.lock`. */
  lemma MisnamedPoetryFileRejected(prefix: string, name: string)
    requires '\n' !in prefix && '/' !in prefix && '/' !in name
    requires name == "pyproject.tom" || (prefix != "" && (name == "poetry.lock" || name == "pyproject.toml"))
    ensures GetParserForFilePath(prefix + name) == Fail(ValueError)
  {
    var path := prefix + name;
    if name == "poetry.lock" {
      PoetryLockRuleFirst(prefix, name);
    } else {
      PyprojectRuleFirst(prefix, name);
    }
    assert '/' !in path by {
      forall k | 0 <= k < |path| ensures path[k] != '/' {
        if k < |prefix| { assert path[k] == prefix[k]; } else { assert path[k] == name[k - |prefix|]; }
      }
    }
    assert path != "poetry.lock" && path != "pyproject.toml" by {
      if name == "pyproject.tom" {
        assert path[|path| - 1] == 'm';
      } else {
        assert |path| > |name|;
      }
    }
    PoetryClassRefuses(path);
  }

  /** `pyproject.tom` has no parser. */
  lemma TruncatedPyprojectRejected()
    ensures GetParserForFilePath("pyproject.tom") == Fail(ValueError)
  {
    MisnamedPoetryFileRejected("", "pyproject.tom");
    assert "" + "pyproject.tom" == "pyproject.tom";
  }

  /** `xpoetry.lock` has no parser. */
  lemma PrefixedPoetryLockRejected()
    ensures GetParserForFilePath("xpoetry.lock") == Fail(ValueError)
  {
    MisnamedPoetryFileRejected("x", "poetry.lock");
    assert "x" + "poetry.lock" == "xpoetry.lock";
  }

  /** The unescaped dot lets any character stand between `Pipfile` and
      `lock`. */
  lemma LoosePipfileName(c: char)
    requires c != '\n'
    ensures GetParserForFilePath("Pipfile" + [c] + "lock") == Ok(PipenvParser(PipenvParsing.LockPath("Pipfile" + [c] + "lock")))
  {
    var path := "Pipfile" + [c] + "lock";
    RuleAcceptsName("", path, PipfileRule, 1);
    assert "" + path == path;
    SelectedBy(path, 0);
  }

  /** Other files have no parser. */
  lemma UnknownFileRejected()
    ensures GetParserForFilePath("requirements.txt") == Fail(ValueError)
  {
    var path := "requirements.txt";
    assert path[|path| - 1] == 't';
    LastAtomsReject(path, PipfileRule);
    LastAtomsReject(path, PoetryLockRule);
    LastAtomsReject(path, PyprojectRule);
  }
}
