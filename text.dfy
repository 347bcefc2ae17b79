/** The Ruby string operations lib/mime-helpers.rb, v.rb and
    lib/argument-parser.rb rely on: `split`, `join`, prefix tests and `gsub`
    with a literal pattern. */
module Text {
  import opened Wrappers

  /** `s` begins with `p`. */
  predicate StartsWith(s: string, p: string) {
    |p| <= |s| && s[..|p|] == p
  }

  /** `p` occurs in `s` at position `i`. */
  predicate OccursAt(s: string, p: string, i: int) {
    0 <= i <= |s| - |p| && s[i..i + |p|] == p
  }

  /** `p` occurs somewhere in `s`. */
  predicate Occurs(s: string, p: string) {
    exists i | 0 <= i <= |s| - |p| :: OccursAt(s, p, i)
  }

  /** Every field of `s` between occurrences of `c`, empty fields included
      (the fields of Ruby's `split(c, -1)`). */
  function SplitAll(s: string, c: char): (r: seq<string>)
    ensures |r| >= 1
    ensures forall i :: 0 <= i < |r| ==> c !in r[i]
  {
    if s == [] then [""]
    else if s[0] == c then [""] + SplitAll(s[1..], c)
    else
      var rest := SplitAll(s[1..], c);
      [[s[0]] + rest[0]] + rest[1..]
  }

  /** The fields joined with `c` between them: Ruby's `join(c)`. */
  function Join(parts: seq<string>, c: char): string {
    if parts == [] then ""
    else if |parts| == 1 then parts[0]
    else parts[0] + [c] + Join(parts[1..], c)
  }

  /** Ruby's `split(c)`: all fields, with the trailing empty ones removed
      (so `"".split(c)` and `";;".split(";")` are both empty). */
  function RubySplit(s: string, c: char): (r: seq<string>)
    ensures forall i :: 0 <= i < |r| ==> c !in r[i]
    ensures r != [] ==> r[|r| - 1] != ""
  {
    DropTrailingEmpty(SplitAll(s, c))
  }

  function DropTrailingEmpty(parts: seq<string>): (r: seq<string>)
    ensures |r| <= |parts| && r == parts[..|r|]
    ensures r != [] ==> r[|r| - 1] != ""
  {
    if parts == [] then []
    else if parts[|parts| - 1] == "" then DropTrailingEmpty(parts[..|parts| - 1])
    else parts
  }

  /** `s` without its trailing run of `c`. */
  function StripTrailing(s: string, c: char): (r: string)
    ensures |r| <= |s| && r == s[..|r|]
    ensures r != [] ==> r[|r| - 1] != c
  {
    if s == [] then []
    else if s[|s| - 1] == c then StripTrailing(s[..|s| - 1], c)
    else s
  }

  /** The part of `s` before the first `c` (all of `s` when there is none). */
  function Before(s: string, c: char): (r: string)
    ensures |r| <= |s| && r == s[..|r|] && c !in r
    ensures |r| < |s| ==> s[|r|] == c
  {
    if s == [] || s[0] == c then [] else [s[0]] + Before(s[1..], c)
  }

  /** The lines of `s` as Ruby's `^` and `$` anchors see them. */
  function Lines(s: string): seq<string> {
    SplitAll(s, '\n')
  }

  /** Ruby's `gsub(pattern, replacement)` for a literal, non-empty pattern:
      every non-overlapping occurrence, scanned left to right, is replaced. */
  function ReplaceAll(s: string, p: string, rep: string): string
    requires |p| > 0
    decreases |s|
  {
    if |s| < |p| then s
    else if s[..|p|] == p then rep + ReplaceAll(s[|p|..], p, rep)
    else [s[0]] + ReplaceAll(s[1..], p, rep)
  }

  /** How many occurrences of `p` the left-to-right scan of `ReplaceAll` replaces. */
  function Count(s: string, p: string): nat
    requires |p| > 0
    decreases |s|
  {
    if |s| < |p| then 0
    else if s[..|p|] == p then 1 + Count(s[|p|..], p)
    else Count(s[1..], p)
  }

  // ---- split and join ----

  /** Joining the fields with `c` gives back the string: `split(c, -1)` and
      `join(c)` are inverse. */
  lemma {:induction false} JoinSplitAll(s: string, c: char)
    ensures Join(SplitAll(s, c), c) == s
  {
    if s != [] {
      JoinSplitAll(s[1..], c);
      var rest := SplitAll(s[1..], c);
      if s[0] != c && |rest| > 1 {
        assert ([[s[0]] + rest[0]] + rest[1..])[1..] == rest[1..];
      }
    }
  }

  /** The first field is the text before the first separator. */
  lemma {:induction false} SplitAllFirst(s: string, c: char)
    ensures SplitAll(s, c)[0] == Before(s, c)
  {
    if s != [] && s[0] != c {
      SplitAllFirst(s[1..], c);
    }
  }

  /** There are at least two fields exactly when the separator occurs; the
      remaining fields are those of the text after the first separator. */
  lemma {:induction false} SplitAllRest(s: string, c: char)
    ensures |SplitAll(s, c)| >= 2 <==> c in s
    ensures c in s ==> SplitAll(s, c)[1..] == SplitAll(s[|Before(s, c)| + 1..], c)
  {
    if s != [] && s[0] != c {
      SplitAllRest(s[1..], c);
      var q := SplitAll(s[1..], c);
      assert SplitAll(s, c) == [[s[0]] + q[0]] + q[1..];
      assert |SplitAll(s, c)| == |q|;
      assert c in s <==> c in s[1..] by {
        assert s == [s[0]] + s[1..];
      }
      if c in s {
        assert |Before(s, c)| == |Before(s[1..], c)| + 1;
        assert s[1..][|Before(s[1..], c)| + 1..] == s[|Before(s, c)| + 1..];
      }
    }
  }

  /** All fields are empty exactly when the string is made only of separators. */
  lemma {:induction false} SplitAllAllEmpty(s: string, c: char)
    ensures (forall i :: 0 <= i < |SplitAll(s, c)| ==> SplitAll(s, c)[i] == "")
        <==> (forall j :: 0 <= j < |s| ==> s[j] == c)
  {
    if s != [] {
      SplitAllAllEmpty(s[1..], c);
      var rest := SplitAll(s[1..], c);
      var all := SplitAll(s, c);
      if s[0] == c {
        assert all == [""] + rest;
        if forall i :: 0 <= i < |all| ==> all[i] == "" {
          assert forall i :: 0 <= i < |rest| ==> rest[i] == all[i + 1];
          assert forall j :: 0 <= j < |s| ==> s[j] == c by {
            forall j | 0 <= j < |s| ensures s[j] == c {
              if j > 0 { assert s[j] == s[1..][j - 1]; }
            }
          }
        }
        if forall j :: 0 <= j < |s| ==> s[j] == c {
          assert forall j :: 0 <= j < |s[1..]| ==> s[1..][j] == s[j + 1];
          assert forall i :: 0 <= i < |all| ==> all[i] == "" by {
            forall i | 0 <= i < |all| ensures all[i] == "" {
              if i > 0 { assert all[i] == rest[i - 1]; }
            }
          }
        }
      } else {
        assert SplitAll(s, c)[0] != "";
      }
    }
  }

  lemma {:induction false} DropTrailingEmptyNil(parts: seq<string>)
    ensures DropTrailingEmpty(parts) == [] <==> forall i :: 0 <= i < |parts| ==> parts[i] == ""
  {
    if parts != [] && parts[|parts| - 1] == "" {
      var init := parts[..|parts| - 1];
      DropTrailingEmptyNil(init);
      assert forall i :: 0 <= i < |init| ==> init[i] == parts[i];
    }
  }

  /** Appending a separator adds one empty field at the end. */
  lemma {:induction false} SplitAllSnocSep(s: string, c: char)
    ensures SplitAll(s + [c], c) == SplitAll(s, c) + [""]
  {
    if s == [] {
      assert [c][1..] == [];
    } else {
      assert (s + [c])[1..] == s[1..] + [c];
      SplitAllSnocSep(s[1..], c);
    }
  }

  /** Appending any other character extends the last field. */
  lemma {:induction false} SplitAllSnocOther(s: string, c: char, d: char)
    requires d != c
    ensures var p := SplitAll(s, c);
            SplitAll(s + [d], c) == p[..|p| - 1] + [p[|p| - 1] + [d]]
  {
    if s == [] {
      assert s + [d] == [d];
      assert [d][1..] == [];
      assert SplitAll([d][1..], c) == [""];
      assert [d] + "" == [d] && [""][1..] == [];
      assert SplitAll([d], c) == [[d]];
    } else {
      SplitAllSnocOther(s[1..], c, d);
      SplitAllSnocStep(s, c, d);
    }
  }

  /** The inductive step of SplitAllSnocOther, for a non-empty `s`. */
  lemma SplitAllSnocStep(s: string, c: char, d: char)
    requires d != c && s != []
    requires var q := SplitAll(s[1..], c);
             SplitAll(s[1..] + [d], c) == q[..|q| - 1] + [q[|q| - 1] + [d]]
    ensures var p := SplitAll(s, c);
            SplitAll(s + [d], c) == p[..|p| - 1] + [p[|p| - 1] + [d]]
  {
    assert (s + [d])[1..] == s[1..] + [d];
    assert (s + [d])[0] == s[0];
    var q := SplitAll(s[1..], c);
    var rq := SplitAll(s[1..] + [d], c);
    if s[0] == c {
      SnocAfterSep(q, rq, d);
    } else {
      SnocInField(s[0], q, rq, d);
    }
  }

  /** Splitting after a leading separator: an empty field is prepended. */
  lemma SnocAfterSep(q: seq<string>, rq: seq<string>, d: char)
    requires |q| >= 1 && rq == q[..|q| - 1] + [q[|q| - 1] + [d]]
    ensures var p := [""] + q;
            [""] + rq == p[..|p| - 1] + [p[|p| - 1] + [d]]
  {
    var p := [""] + q;
    assert p[..|p| - 1] == [""] + q[..|q| - 1];
  }

  /** Splitting after a leading non-separator: it joins the first field. */
  lemma SnocInField(h: char, q: seq<string>, rq: seq<string>, d: char)
    requires |q| >= 1 && rq == q[..|q| - 1] + [q[|q| - 1] + [d]]
    ensures var p := [[h] + q[0]] + q[1..];
            [[h] + rq[0]] + rq[1..] == p[..|p| - 1] + [p[|p| - 1] + [d]]
  {
    var p := [[h] + q[0]] + q[1..];
    if |q| == 1 {
      assert rq == [q[0] + [d]];
      assert [h] + (q[0] + [d]) == ([h] + q[0]) + [d];
    } else {
      assert rq[0] == q[0];
      assert rq[1..] == q[1..|q| - 1] + [q[|q| - 1] + [d]];
      assert p[..|p| - 1] == [[h] + q[0]] + q[1..|q| - 1];
    }
  }

  /** Ruby's `split(c)` of `s` is the full split of `s` without its trailing
      separators, and nothing at all when only separators remain. */
  lemma {:induction false} RubySplitStripped(s: string, c: char)
    ensures var t := StripTrailing(s, c);
            RubySplit(s, c) == if t == [] then [] else SplitAll(t, c)
    decreases |s|
  {
    if s == [] {
    } else if s[|s| - 1] == c {
      var init := s[..|s| - 1];
      assert s == init + [c];
      SplitAllSnocSep(init, c);
      assert (SplitAll(init, c) + [""])[..|SplitAll(init, c)|] == SplitAll(init, c);
      RubySplitStripped(init, c);
    } else {
      var init := s[..|s| - 1];
      assert s == init + [s[|s| - 1]];
      SplitAllSnocOther(init, c, s[|s| - 1]);
    }
  }

  /** Ruby's `split(c)` and `[0]`: nil exactly when `s` consists only of `c`
      (the empty string included), otherwise the text before the first `c`. */
  lemma {:induction false} RubySplitFirst(s: string, c: char)
    ensures RubySplit(s, c) == [] <==> forall j :: 0 <= j < |s| ==> s[j] == c
    ensures RubySplit(s, c) != [] ==> RubySplit(s, c)[0] == Before(s, c)
  {
    SplitAllAllEmpty(s, c);
    DropTrailingEmptyNil(SplitAll(s, c));
    SplitAllFirst(s, c);
  }

  /** Ruby's `split(c)` has at least two fields exactly when `c` occurs in the
      string once its trailing `c`s are removed. */
  lemma {:induction false} RubySplitTwoFields(s: string, c: char)
    ensures var t := StripTrailing(s, c);
            |RubySplit(s, c)| >= 2 <==> c in t
  {
    RubySplitStripped(s, c);
    var t := StripTrailing(s, c);
    if t != [] {
      SplitAllRest(t, c);
    }
  }

  // ---- gsub ----

  /** A longer replacement makes the result at least one character longer
      per replaced occurrence, a shorter one at least one shorter. */
  lemma {:induction false} ReplaceAllLength(s: string, p: string, rep: string)
    requires |p| > 0
    ensures |rep| > |p| ==> |ReplaceAll(s, p, rep)| >= |s| + Count(s, p)
    ensures |rep| < |p| ==> |ReplaceAll(s, p, rep)| + Count(s, p) <= |s|
    ensures |rep| == |p| ==> |ReplaceAll(s, p, rep)| == |s|
    decreases |s|
  {
    if |s| < |p| {
    } else if s[..|p|] == p {
      var t := s[|p|..];
      ReplaceAllLength(t, p, rep);
      assert ReplaceAll(s, p, rep) == rep + ReplaceAll(t, p, rep);
    } else {
      ReplaceAllLength(s[1..], p, rep);
      assert ReplaceAll(s, p, rep) == [s[0]] + ReplaceAll(s[1..], p, rep);
    }
  }

  /** The exact length: each replaced occurrence changes it by `|rep| - |p|`. */
  lemma {:induction false} ReplaceAllLengthExact(s: string, p: string, rep: string)
    requires |p| > 0
    ensures |ReplaceAll(s, p, rep)| == |s| + Count(s, p) * (|rep| - |p|)
    decreases |s|
  {
    if |s| < |p| {
    } else if s[..|p|] == p {
      var t := s[|p|..];
      ReplaceAllLengthExact(t, p, rep);
      assert ReplaceAll(s, p, rep) == rep + ReplaceAll(t, p, rep);
      MulSucc(Count(t, p), |rep| - |p|);
    } else {
      ReplaceAllLengthExact(s[1..], p, rep);
      assert ReplaceAll(s, p, rep) == [s[0]] + ReplaceAll(s[1..], p, rep);
    }
  }

  lemma MulSucc(n: nat, d: int)
    ensures (n + 1) * d == n * d + d
  {
  }

  /** The scan replaces something exactly when the pattern occurs. */
  lemma {:induction false} CountPositive(s: string, p: string)
    requires |p| > 0
    ensures Count(s, p) > 0 <==> Occurs(s, p)
    decreases |s|
  {
    if |s| < |p| {
    } else if s[..|p|] == p {
      assert OccursAt(s, p, 0);
    } else {
      CountPositive(s[1..], p);
      if Occurs(s, p) {
        var i :| 0 <= i <= |s| - |p| && OccursAt(s, p, i);
        assert 0 <= i <= |s| - |p| && s[i..i + |p|] == p;
        assert i != 0;
        assert s[1..][i - 1..i - 1 + |p|] == s[i..i + |p|];
        assert OccursAt(s[1..], p, i - 1);
      }
      if Occurs(s[1..], p) {
        var i :| 0 <= i <= |s[1..]| - |p| && OccursAt(s[1..], p, i);
        assert 0 <= i <= |s[1..]| - |p| && s[1..][i..i + |p|] == p;
        assert s[i + 1..i + 1 + |p|] == s[1..][i..i + |p|];
        assert OccursAt(s, p, i + 1);
      }
    }
  }

  /** Where the pattern does not occur, the scan changes nothing. */
  lemma {:induction false} ReplaceAllAbsent(s: string, p: string, rep: string)
    requires |p| > 0 && !Occurs(s, p)
    ensures ReplaceAll(s, p, rep) == s
  {
    CountPositive(s, p);
    ReplaceAllNoCount(s, p, rep);
  }

  lemma {:induction false} ReplaceAllNoCount(s: string, p: string, rep: string)
    requires |p| > 0 && Count(s, p) == 0
    ensures ReplaceAll(s, p, rep) == s
    decreases |s|
  {
    if |s| >= |p| {
      ReplaceAllNoCount(s[1..], p, rep);
    }
  }

  /** A replacement of a different length leaves the string unchanged exactly
      when the pattern does not occur in it. */
  lemma ReplaceAllUnchanged(s: string, p: string, rep: string)
    requires |p| > 0 && |rep| != |p|
    ensures ReplaceAll(s, p, rep) == s <==> !Occurs(s, p)
  {
    ReplaceAllLength(s, p, rep);
    CountPositive(s, p);
    if Occurs(s, p) {
      assert |ReplaceAll(s, p, rep)| != |s|;
    } else {
      ReplaceAllAbsent(s, p, rep);
    }
  }

  // ---- String#[]= with a string index ----

  /** The position of the leftmost occurrence of `p` in `s`. */
  function FirstAt(s: string, p: string): (r: Option<nat>)
    ensures r.Some? <==> Occurs(s, p)
    ensures r.Some? ==> OccursAt(s, p, r.value)
    ensures r.Some? ==> forall j :: 0 <= j < r.value ==> !OccursAt(s, p, j)
    decreases |s|
  {
    if |s| < |p| then None
    else if s[..|p|] == p then
      assert OccursAt(s, p, 0);
      Some(0)
    else
      var rest := FirstAt(s[1..], p);
      assert forall j :: 1 <= j <= |s| - |p| ==> (OccursAt(s, p, j) <==> OccursAt(s[1..], p, j - 1)) by {
        forall j | 1 <= j <= |s| - |p| ensures OccursAt(s, p, j) <==> OccursAt(s[1..], p, j - 1) {
          assert s[1..][j - 1..j - 1 + |p|] == s[j..j + |p|];
        }
      }
      assert Occurs(s, p) <==> Occurs(s[1..], p) by {
        if Occurs(s, p) {
          var j :| 0 <= j <= |s| - |p| && OccursAt(s, p, j);
          assert OccursAt(s[1..], p, j - 1);
        }
        if Occurs(s[1..], p) {
          var j :| 0 <= j <= |s[1..]| - |p| && OccursAt(s[1..], p, j);
          assert OccursAt(s, p, j + 1);
        }
      }
      match rest
      case None => None
      case Some(i) => Some(i + 1)
  }

  /** Ruby's `s[p] = rep`: the leftmost occurrence of `p` becomes `rep`. */
  function ReplaceFirst(s: string, p: string, rep: string): (r: string)
    requires Occurs(s, p)
    ensures |r| == |s| - |p| + |rep|
    ensures var i := FirstAt(s, p).value;
            r[..i] == s[..i] && r[i..i + |rep|] == rep && r[i + |rep|..] == s[i + |p|..]
  {
    var i := FirstAt(s, p).value;
    s[..i] + rep + s[i + |p|..]
  }

  /** A pattern whose first character is absent does not occur. */
  lemma NotOccursFirst(s: string, p: string)
    requires |p| > 0 && p[0] !in s
    ensures !Occurs(s, p)
  {
  }

  /** A two-character pattern does not occur when no two adjacent characters spell it. */
  lemma NotOccursPair(s: string, p: string)
    requires |p| == 2
    requires forall i :: 0 <= i < |s| - 1 ==> !(s[i] == p[0] && s[i + 1] == p[1])
    ensures !Occurs(s, p)
  {
    forall i | 0 <= i <= |s| - |p| ensures !OccursAt(s, p, i) {
      assert s[i..i + 2][0] == s[i] && s[i..i + 2][1] == s[i + 1];
    }
  }

  /** Text that cannot start an occurrence is copied through unchanged. */
  lemma {:induction false} ReplaceAllSkip(x: string, y: string, p: string, rep: string)
    requires |p| > 0 && p[0] !in x
    ensures ReplaceAll(x + y, p, rep) == x + ReplaceAll(y, p, rep)
  {
    if x == [] {
      assert x + y == y;
    } else {
      var s := x + y;
      assert s[0] == x[0];
      assert s[1..] == x[1..] + y;
      if |s| >= |p| {
        assert s[..|p|][0] == x[0];
      }
      ReplaceAllSkip(x[1..], y, p, rep);
    }
  }

  /** An occurrence at the front is replaced and the scan resumes after it. */
  lemma ReplaceAllFront(y: string, p: string, rep: string)
    requires |p| > 0
    ensures ReplaceAll(p + y, p, rep) == rep + ReplaceAll(y, p, rep)
  {
    assert (p + y)[..|p|] == p;
    assert (p + y)[|p|..] == y;
  }

  /** Text without the pattern's first character is copied through unchanged. */
  lemma ReplaceAllWithout(s: string, p: string, rep: string)
    requires |p| > 0 && p[0] !in s
    ensures ReplaceAll(s, p, rep) == s
  {
    ReplaceAllSkip(s, [], p, rep);
    assert s + [] == s;
  }

  /** A string without line breaks is one line. */
  lemma {:induction false} OneLine(s: string)
    requires '\n' !in s
    ensures Lines(s) == [s]
  {
    SplitAllRest(s, '\n');
    SplitAllFirst(s, '\n');
    assert Before(s, '\n') == s;
  }

  /** A two-character pattern cannot start at a pair with the wrong second
      character, so such a pair followed by text free of the first one is
      copied through. */
  lemma ReplaceAllOtherPair(c0: char, c1: char, y: string, p: string, rep: string)
    requires |p| == 2 && p[0] == c0 && p[1] != c1 && c1 != c0 && c0 !in y
    ensures ReplaceAll([c0, c1] + y, p, rep) == [c0, c1] + y
  {
    var m := [c0, c1] + y;
    assert m[..2] != p by { assert m[..2][1] == c1; }
    assert m[1..] == [c1] + y;
    ReplaceAllWithout(m[1..], p, rep);
    assert [m[0]] + m[1..] == m;
  }

  // ---- templates of placeholders ----

  /** The text a template spells out: its pieces one after another. */
  function Concat(ts: seq<string>): string
    decreases |ts|
  {
    if ts == [] then [] else ts[0] + Concat(ts[1..])
  }

  /** Every piece of the template is either text without the escape
      character `c` or a two-character placeholder: `c` and then something
      other than `c`. */
  predicate Template(ts: seq<string>, c: char) {
    forall i :: 0 <= i < |ts| ==> c !in ts[i] || (|ts[i]| == 2 && ts[i][0] == c && ts[i][1] != c)
  }

  /** The pieces with every one equal to `p` put as `rep`. */
  function Subst(ts: seq<string>, p: string, rep: string): seq<string> {
    seq(|ts|, i requires 0 <= i < |ts| => if ts[i] == p then rep else ts[i])
  }

  /** A pair that starts like the two-character pattern but ends otherwise is
      copied through, and the scan goes on behind it. */
  lemma ReplaceAllPair(c0: char, c1: char, y: string, p: string, rep: string)
    requires |p| == 2 && p[0] == c0 && p[1] != c1 && c1 != c0
    ensures ReplaceAll([c0, c1] + y, p, rep) == [c0, c1] + ReplaceAll(y, p, rep)
  {
    var m := [c0, c1] + y;
    assert m[..2] != p by { assert m[..2][1] == c1; }
    assert m[1..] == [c1] + y;
    ReplaceAllSkip([c1], y, p, rep);
    assert [m[0]] + m[1..] == m;
  }

  /** One replace-all pass over a template replaces exactly the placeholders
      equal to the pattern and leaves every other piece, placeholder or text,
      as it is. */
  lemma {:induction false} ReplaceAllTemplate(ts: seq<string>, p: string, rep: string)
    requires |p| == 2 && p[1] != p[0] && Template(ts, p[0])
    ensures ReplaceAll(Concat(ts), p, rep) == Concat(Subst(ts, p, rep))
    decreases |ts|
  {
    if ts == [] {
      assert Subst(ts, p, rep) == [];
    } else {
      var t := ts[0];
      var y := Concat(ts[1..]);
      assert Template(ts[1..], p[0]) by {
        forall i | 0 <= i < |ts[1..]|
          ensures p[0] !in ts[1..][i] || (|ts[1..][i]| == 2 && ts[1..][i][0] == p[0] && ts[1..][i][1] != p[0])
        {
          assert ts[1..][i] == ts[i + 1];
        }
      }
      ReplaceAllTemplate(ts[1..], p, rep);
      var r := Subst(ts, p, rep);
      assert r[1..] == Subst(ts[1..], p, rep);
      assert Concat(r) == r[0] + Concat(r[1..]);
      if p[0] !in t {
        assert p[0] in p;
        ReplaceAllSkip(t, y, p, rep);
      } else if t == p {
        ReplaceAllFront(y, p, rep);
      } else {
        assert t == [t[0], t[1]];
        ReplaceAllPair(t[0], t[1], y, p, rep);
      }
    }
  }

  /** A pass whose replacement is free of the escape character leaves a
      template a template. */
  lemma SubstTemplate(ts: seq<string>, p: string, rep: string, c: char)
    requires Template(ts, c) && c !in rep
    ensures Template(Subst(ts, p, rep), c)
  {
  }
}
