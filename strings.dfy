/** The few Python `str` operations the core uses, on `seq<char>`. */
module Strings {

  predicate StartsWith(s: string, prefix: string) {
    |prefix| <= |s| && s[..|prefix|] == prefix
  }

  /** `s.endswith(suffix)` */
  predicate EndsWith(s: string, suffix: string) {
    |suffix| <= |s| && s[|s| - |suffix|..] == suffix
  }

  /** `pat` starts at index `i` of `s`. */
  ghost predicate OccursAt(s: string, pat: string, i: int) {
    0 <= i && i + |pat| <= |s| && s[i..i + |pat|] == pat
  }

  /** `pat in s` */
  ghost predicate Occurs(s: string, pat: string) {
    exists i :: OccursAt(s, pat, i)
  }

  /** No proper suffix of `pat` is also a prefix of it, so two occurrences of
      `pat` can never overlap. */
  ghost predicate Unbordered(pat: string) {
    forall k :: 0 < k < |pat| ==> pat[k..] != pat[..|pat| - k]
  }

  /** Python's `s.split(sep)` for a one-character separator: the fields
      between the separators, in order, never fewer than one. */
  function Split(s: string, sep: char): (fields: seq<string>)
    ensures |fields| >= 1
    ensures |fields| == 1 <==> sep !in s
    ensures forall i :: 0 <= i < |fields| ==> sep !in fields[i]
  {
    if |s| == 0 then [""]
    else
      var rest := Split(s[1..], sep);
      if s[0] == sep then [""] + rest
      else [[s[0]] + rest[0]] + rest[1..]
  }

  /** `sep.join(parts)` */
  function Join(parts: seq<string>, sep: string): string {
    if |parts| == 0 then ""
    else if |parts| == 1 then parts[0]
    else parts[0] + sep + Join(parts[1..], sep)
  }

  /** Python's `s.replace(pat, rep)`: every occurrence of `pat`, found left
      to right without overlap, is replaced by `rep`. */
  function Replace(s: string, pat: string, rep: string): string
    requires pat != []
    decreases |s|
  {
    if |s| < |pat| then s
    else if s[..|pat|] == pat then rep + Replace(s[|pat|..], pat, rep)
    else [s[0]] + Replace(s[1..], pat, rep)
  }

  /** `s.rfind(c)`: the last index holding `c`, or -1. */
  function LastIndexOf(s: string, c: char): (i: int)
    ensures -1 <= i < |s|
    ensures i >= 0 ==> s[i] == c
    ensures forall k :: i < k < |s| ==> s[k] != c
  {
    if |s| == 0 then -1
    else if s[|s| - 1] == c then |s| - 1
    else LastIndexOf(s[..|s| - 1], c)
  }

  /** A string without the separator is one field. */
  lemma {:induction false} SplitWithoutSeparator(s: string, sep: char)
    requires sep !in s
    ensures Split(s, sep) == [s]
  {
    if |s| > 0 {
      SplitWithoutSeparator(s[1..], sep);
      assert [s[0]] + s[1..] == s;
    }
  }

  /** Splitting at one separator splits the fields list in two. */
  lemma {:induction false} SplitAtSeparator(a: string, b: string, sep: char)
    ensures Split(a + [sep] + b, sep) == Split(a, sep) + Split(b, sep)
  {
    if |a| == 0 {
      assert a + [sep] + b == [sep] + b;
      assert ([sep] + b)[1..] == b;
    } else {
      assert (a + [sep] + b)[1..] == a[1..] + [sep] + b;
      SplitAtSeparator(a[1..], b, sep);
    }
  }

  /** Joining the fields with the separator gives back the string. */
  lemma {:induction false} JoinSplit(s: string, sep: char)
    ensures Join(Split(s, sep), [sep]) == s
  {
    if |s| > 0 {
      JoinSplit(s[1..], sep);
      var rest := Split(s[1..], sep);
      if s[0] == sep {
        assert Split(s, sep)[1..] == rest;
      } else {
        var fields := Split(s, sep);
        if |rest| == 1 {
          assert fields == [[s[0]] + rest[0]];
        } else {
          assert fields[1..] == rest[1..];
          assert Join(rest, [sep]) == rest[0] + [sep] + Join(rest[1..], [sep]);
        }
        assert s == [s[0]] + s[1..];
      }
    }
  }

  lemma OccursInTail(s: string, pat: string)
    requires |s| > 0 && !Occurs(s, pat)
    ensures !Occurs(s[1..], pat)
  {
    forall i ensures !OccursAt(s[1..], pat, i) {
      if 0 <= i && i + |pat| <= |s| - 1 {
      assert s[1..][i..i + |pat|] == s[i + 1..i + 1 + |pat|];
      assert !OccursAt(s, pat, i + 1);
      }
    }
  }

  /** Replacing a pattern that does not occur changes nothing. */
  lemma {:induction false} ReplaceAbsent(s: string, pat: string, rep: string)
    requires pat != [] && !Occurs(s, pat)
    ensures Replace(s, pat, rep) == s
    decreases |s|
  {
    if |s| >= |pat| {
      assert !OccursAt(s, pat, 0);
      OccursInTail(s, pat);
      ReplaceAbsent(s[1..], pat, rep);
      assert [s[0]] + s[1..] == s;
    }
  }

  /** Deleting an unbordered pattern removes exactly one trailing copy of it
      from a string that did not contain it. */
  lemma {:induction false} RemoveTrailing(s: string, pat: string)
    requires pat != [] && Unbordered(pat) && !Occurs(s, pat)
    ensures Replace(s + pat, pat, "") == s
    decreases |s|
  {
    var t := s + pat;
    if |s| == 0 {
      assert t == pat;
      assert t[|pat|..] == [];
    } else {
      if |s| >= |pat| {
        assert t[..|pat|] == s[..|pat|];
        assert !OccursAt(s, pat, 0);
      } else {
        var k := |s|;
        assert t[..|pat|][k..] == pat[..|pat| - k];
        assert pat[k..] != pat[..|pat| - k];
      }
      assert t[1..] == s[1..] + pat;
      OccursInTail(s, pat);
      RemoveTrailing(s[1..], pat);
      assert [s[0]] + s[1..] == s;
    }
  }

  /** A pattern whose later characters all differ from the first character
      of `b` cannot straddle the boundary of `a + b`. */
  lemma AbsentFromConcat(a: string, b: string, pat: string)
    requires !Occurs(a, pat) && !Occurs(b, pat) && |b| > 0
    requires forall k :: 0 < k < |pat| ==> pat[k] != b[0]
    ensures !Occurs(a + b, pat)
  {
    forall i | 0 <= i && i + |pat| <= |a + b| ensures !OccursAt(a + b, pat, i) {
      if i + |pat| <= |a| {
        assert (a + b)[i..i + |pat|] == a[i..i + |pat|];
        assert !OccursAt(a, pat, i);
      } else if i >= |a| {
        assert (a + b)[i..i + |pat|] == b[i - |a|..i - |a| + |pat|];
        assert !OccursAt(b, pat, i - |a|);
      } else {
        var k := |a| - i;
        assert (a + b)[i..i + |pat|][k] == b[0] != pat[k];
      }
    }
  }

  /** The first character of `s` survives a replacement that cannot start
      there. */
  lemma ReplaceKeepsHead(s: string, pat: string, rep: string)
    requires pat != [] && |s| > 0 && s[0] != pat[0]
    ensures |Replace(s, pat, rep)| > 0 && Replace(s, pat, rep)[0] == s[0]
  {
    if |s| >= |pat| {
      assert s[..|pat|][0] != pat[0];
    }
  }

  /** Deleting every "==" leaves no "==" behind: a kept '=' is never
      followed by another '='. */
  lemma {:induction false} DeleteDoubleEquals(s: string)
    ensures !Occurs(Replace(s, "==", ""), "==")
    decreases |s|
  {
    var r := Replace(s, "==", "");
    if |s| < 2 {
    } else if s[..2] == "==" {
      DeleteDoubleEquals(s[2..]);
      assert r == Replace(s[2..], "==", "");
    } else {
      var rest := Replace(s[1..], "==", "");
      DeleteDoubleEquals(s[1..]);
      assert r == [s[0]] + rest;
      if s[0] == '=' {
        assert s[1] != '=' by { assert s[..2] == [s[0], s[1]]; }
        ReplaceKeepsHead(s[1..], "==", "");
      }
      forall i | 0 <= i && i + 2 <= |r| ensures !OccursAt(r, "==", i) {
        if i == 0 {
          assert r[0..2] == [s[0], rest[0]];
        } else {
          assert r[i..i + 2] == rest[i - 1..i + 1];
          assert !OccursAt(rest, "==", i - 1);
        }
      }
    }
  }
}
