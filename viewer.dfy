/** v.rb: the FileViewer program. It reads its options from the command
    line (existing files, a volume in dB, a speed factor), resolves each
    file's mime type to a runner through the user's mimeapps.list and the
    system mimeinfo.cache, fills the runner in and runs it.

    The mime type of a file (`xdg-mime query filetype`) is the input
    `mimeOf`; the commands the backticks would run are recorded in
    `launched`, in order. */
module Viewer {
  import opened Wrappers
  import opened Seqs
  import opened Text
  import opened ParsedConfig
  import opened Host
  import MimeHelpers

  /** The directory v.rb looks desktop entries up in. */
  const DefaultMimePath := "/usr/share/applications/"
  const LocalMimeappsList := "~/.local/share/applications/mimeapps.list"
  const SystemMimeinfoCache := "/usr/share/applications/mimeinfo.cache"

  // ---------------------------------------------------------------------
  // getArgs and the two fixed recognisers
  // ---------------------------------------------------------------------

  /** getArgs: `ARGV.map { f }.compact`, the non-nil answers in argument order. */
  function GetArgs<B>(argv: seq<string>, f: string -> Option<B>): (r: seq<B>)
    ensures r == FilterMap(argv, f)
    ensures |r| <= |argv|
  {
    CompactMap(argv, f);
    Compact(Map(argv, f))
  }

  predicate IsDigit(c: char) {
    '0' <= c <= '9'
  }

  /** `[0-9]+`. */
  predicate Digits(s: string) {
    |s| > 0 && forall i :: 0 <= i < |s| ==> IsDigit(s[i])
  }

  /** A whole line that `[+-][0-9]+db` matches, letters in any case. */
  predicate IsDbLine(l: string) {
    |l| >= 4 && (l[0] == '+' || l[0] == '-') && Digits(l[1..|l| - 2]) &&
    (l[|l| - 2] == 'd' || l[|l| - 2] == 'D') && (l[|l| - 1] == 'b' || l[|l| - 1] == 'B')
  }

  /** The first group of the db pattern on one line: its sign and digits. */
  function DbOfLine(l: string): Option<string> {
    if IsDbLine(l) then Some(l[..|l| - 2]) else None
  }

  /** A whole line that `[0-9]+[.][0-9]+x` matches, `x` in any case. */
  predicate IsFactorLine(l: string) {
    |l| >= 4 && (l[|l| - 1] == 'x' || l[|l| - 1] == 'X') &&
    var num := l[..|l| - 1];
    var whole := Before(num, '.');
    |whole| < |num| && Digits(whole) && Digits(num[|whole| + 1..])
  }

  /** The first group of the factor pattern on one line: the number before `x`. */
  function FactorOfLine(l: string): Option<string> {
    if IsFactorLine(l) then Some(l[..|l| - 1]) else None
  }

  /** The answer for the first line that gives one: the leftmost match of
      a pattern anchored with `^` and `$`, which Ruby reads line by line. */
  function FirstMatch<T>(ls: seq<string>, f: string -> Option<T>): (r: Option<T>)
    ensures r.None? <==> forall i :: 0 <= i < |ls| ==> f(ls[i]).None?
    ensures r.Some? ==> exists i :: 0 <= i < |ls| && f(ls[i]) == r && forall j :: 0 <= j < i ==> f(ls[j]).None?
  {
    if ls == [] then None
    else if f(ls[0]).Some? then f(ls[0])
    else
      var r := FirstMatch(ls[1..], f);
      assert forall i :: 1 <= i < |ls| ==> ls[i] == ls[1..][i - 1];
      r
  }

  /** `/^([+-][0-9]+)db$/i.match(c)`, then `m[1]`. */
  function DbToken(c: string): Option<string> {
    FirstMatch(Lines(c), DbOfLine)
  }

  /** `/^([0-9]+[.][0-9]+)x$/i.match(c)`, then `m[1]`. */
  function FactorToken(c: string): Option<string> {
    FirstMatch(Lines(c), FactorOfLine)
  }

  /** The text of a db argument: its sign, its digits and "db" in some case. */
  function DbText(sign: char, digits: string, d: char, b: char): string {
    [sign] + digits + [d, b]
  }

  /** A well-formed db argument is recognised and keeps its sign and
      digits; "-6dB" gives "-6". */
  lemma DbTokenRoundTrip(sign: char, digits: string, d: char, b: char)
    requires sign == '+' || sign == '-'
    requires Digits(digits)
    requires (d == 'd' || d == 'D') && (b == 'b' || b == 'B')
    ensures DbToken(DbText(sign, digits, d, b)) == Some([sign] + digits)
  {
    var l := DbText(sign, digits, d, b);
    assert l[1..|l| - 2] == digits;
    assert l[..|l| - 2] == [sign] + digits;
    assert '\n' !in l by {
      assert forall i :: 0 <= i < |l| ==> l[i] == sign || IsDigit(l[i]) || l[i] == d || l[i] == b by {
        forall i | 0 <= i < |l| ensures l[i] == sign || IsDigit(l[i]) || l[i] == d || l[i] == b {
          if 1 <= i < |l| - 2 {
            assert l[i] == digits[i - 1];
          }
        }
      }
    }
    OneLine(l);
  }

  /** Conversely, a one-line argument that is recognised is exactly a db
      argument built from the token it gives. */
  lemma DbTokenExact(l: string)
    requires '\n' !in l && DbToken(l).Some?
    ensures |l| >= 4
    ensures var v := DbToken(l).value;
            |v| >= 2 && (v[0] == '+' || v[0] == '-') && Digits(v[1..]) &&
            (l[|l| - 2] == 'd' || l[|l| - 2] == 'D') && (l[|l| - 1] == 'b' || l[|l| - 1] == 'B') &&
            l == DbText(v[0], v[1..], l[|l| - 2], l[|l| - 1])
  {
    OneLine(l);
    var v := l[..|l| - 2];
    assert v[1..] == l[1..|l| - 2];
    assert l == [v[0]] + v[1..] + [l[|l| - 2], l[|l| - 1]];
  }

  /** The text of a factor argument: digits, ".", digits and "x" in some case. */
  function FactorText(whole: string, frac: string, x: char): string {
    whole + "." + frac + [x]
  }

  lemma DigitsNoDot(s: string)
    requires Digits(s)
    ensures '.' !in s && '\n' !in s
  {
    forall i | 0 <= i < |s| ensures s[i] != '.' && s[i] != '\n' {
      assert IsDigit(s[i]);
    }
  }

  /** The first field of `x + [c] + y` split on `c`, when `x` has no `c`. */
  lemma BeforeSeparated(x: string, c: char, y: string)
    requires c !in x
    ensures Before(x + [c] + y, c) == x
  {
    var s := x + [c] + y;
    var r := Before(s, c);
    assert s[..|x|] == x && s[|x|] == c;
  }

  /** A well-formed factor argument is recognised and keeps its number;
      "1.5x" gives "1.5". */
  lemma FactorTokenRoundTrip(whole: string, frac: string, x: char)
    requires Digits(whole) && Digits(frac) && (x == 'x' || x == 'X')
    ensures FactorToken(FactorText(whole, frac, x)) == Some(whole + "." + frac)
  {
    var l := FactorText(whole, frac, x);
    var num := whole + "." + frac;
    assert l[..|l| - 1] == num;
    DigitsNoDot(whole);
    DigitsNoDot(frac);
    BeforeSeparated(whole, '.', frac);
    assert num[|whole| + 1..] == frac;
    assert '\n' !in l by {
      assert l == whole + ['.'] + frac + [x];
    }
    OneLine(l);
  }

  /** Conversely, a one-line argument that is recognised is exactly a
      factor argument built from the token it gives. */
  lemma FactorTokenExact(l: string)
    requires '\n' !in l && FactorToken(l).Some?
    ensures |l| >= 4
    ensures var v := FactorToken(l).value;
            var whole := Before(v, '.');
            |whole| < |v| && Digits(whole) && Digits(v[|whole| + 1..]) &&
            (l[|l| - 1] == 'x' || l[|l| - 1] == 'X') &&
            l == FactorText(whole, v[|whole| + 1..], l[|l| - 1])
  {
    OneLine(l);
    var v := l[..|l| - 1];
    var whole := Before(v, '.');
    assert v == whole + "." + v[|whole| + 1..];
    assert l == v + [l[|l| - 1]];
  }

  // ---------------------------------------------------------------------
  // Runner resolution
  // ---------------------------------------------------------------------

  /** guessMimeRunnerFor of v.rb: the id without ".desktop", then " %U ". */
  function GuessRunner(id: string): string {
    MimeHelpers.StripDesktop(id) + " %U "
  }

  /** For an id with one line, the guess drops a final ".desktop". */
  lemma GuessRunnerFromDesktopName(name: string)
    requires '\n' !in name
    ensures GuessRunner(name + ".desktop") == name + " %U "
  {
    MimeHelpers.GuessFromDesktopName(name);
  }

  /** getMimeRunnerFromConfig of v.rb. Nothing is rescued here: an
      unreadable file or a missing section raises, and an entry made only of
      ";" leaves `desktopFile` nil, which raises TypeError in the path
      concatenation. A desktop entry that does not resolve gives the guess. */
  function RunnerFromConfig(env: Env, mime: string, configfile: string, key: string): (r: Attempt<Option<string>>)
    ensures MimeHelpers.Apps(env, configfile, key, mime).Raised? ==> r.Raised?
    ensures MimeHelpers.Apps(env, configfile, key, mime) == Returned(None) ==> r == Returned(None)
    ensures var apps := MimeHelpers.Apps(env, configfile, key, mime);
            apps.Returned? && apps.value.Some? ==>
              r != Returned(None) &&
              (MimeHelpers.FirstField(apps.value.value).None? ==> r.Raised?) &&
              (MimeHelpers.FirstField(apps.value.value).Some? ==>
                 var id := MimeHelpers.FirstField(apps.value.value).value;
                 var found := MimeHelpers.MimeRunnerFor(env, DefaultMimePath, id);
                 r == if found == Returned(None) then Returned(Some(GuessRunner(id))) else found)
  {
    match MimeHelpers.Apps(env, configfile, key, mime)
    case Raised => Raised
    case Returned(None) => Returned(None)
    case Returned(Some(apps)) =>
      match MimeHelpers.FirstField(apps)
      case None => Raised
      case Some(id) =>
        match MimeHelpers.MimeRunnerFor(env, DefaultMimePath, id)
        case Raised => Raised
        case Returned(None) => Returned(Some(GuessRunner(id)))
        case Returned(Some(runner)) => Returned(Some(runner))
  }

  /** getFromLocalMimeappList. */
  function FromLocalMimeappList(env: Env, mime: string): Attempt<Option<string>> {
    RunnerFromConfig(env, mime, env.expand(LocalMimeappsList), MimeHelpers.DefaultApplications)
  }

  /** getFromMimeinfo. */
  function FromMimeinfo(env: Env, mime: string): Attempt<Option<string>> {
    RunnerFromConfig(env, mime, SystemMimeinfoCache, MimeHelpers.MimeCache)
  }

  /** The options v.rb keeps in `@args`. */
  datatype ViewerArgs = ViewerArgs(icon: string, caption: string, db: seq<string>, factor: seq<string>, files: seq<string>)

  /** The entries of `@args` the shared mplayer adjustment reads. */
  function PlayArgsOf(a: ViewerArgs): MimeHelpers.PlayArgs {
    MimeHelpers.PlayArgs(a.icon, a.caption, Some(a.db), Some(a.factor))
  }

  /** adjustRunner: the same adjustment as the library's tweakRunner. */
  function AdjustRunner(r: string, a: ViewerArgs): (t: string)
    ensures MimeHelpers.MatchesMplayer(r) ==>
              t == r + " -af volume=" + MimeHelpers.GetFirstOr(Some(a.db), MimeHelpers.DefaultDb) + "dB,scaletempo -speed "
                     + MimeHelpers.GetFirstOr(Some(a.factor), MimeHelpers.DefaultSpeed) + " "
    ensures !MimeHelpers.MatchesMplayer(r) ==> t == r
  {
    MimeHelpers.TweakRunner(r, PlayArgsOf(a))
  }

  /** The runner updateRunner settles on for `mime`. */
  function Runner(env: Env, a: ViewerArgs, mime: string): Attempt<Option<string>> {
    MimeHelpers.Tweaked(OrElse(FromLocalMimeappList(env, mime), FromMimeinfo(env, mime)), PlayArgsOf(a))
  }

  /** The user's mimeapps.list is tried first; the system mimeinfo.cache is
      consulted only when the first gives nil. */
  lemma RunnerOrder(env: Env, a: ViewerArgs, mime: string)
    ensures FromLocalMimeappList(env, mime).Raised? ==> Runner(env, a, mime).Raised?
    ensures var local := FromLocalMimeappList(env, mime);
            local.Returned? && local.value.Some? ==> Runner(env, a, mime) == Returned(Some(AdjustRunner(local.value.value, a)))
    ensures FromLocalMimeappList(env, mime) == Returned(None) ==>
              Runner(env, a, mime) == MimeHelpers.Tweaked(FromMimeinfo(env, mime), PlayArgsOf(a))
    ensures Runner(env, a, mime) == Returned(None) <==>
              FromLocalMimeappList(env, mime) == Returned(None) && FromMimeinfo(env, mime) == Returned(None)
  {
  }

  // ---------------------------------------------------------------------
  // fillRunnerArgs of v.rb
  // ---------------------------------------------------------------------

  /** The passes of v.rb's fillRunnerArgs: `%F` and `%U` (not `%u`) become
      the quoted file, then `%i` the icon and `%c` the caption. */
  function FillTokens(file: string, a: ViewerArgs): (passes: seq<(string, string)>)
    ensures forall i :: 0 <= i < |passes| ==> |passes[i].0| > 0
  {
    [("%F", MimeHelpers.Quoted(file)), ("%U", MimeHelpers.Quoted(file)), ("%i", a.icon), ("%c", a.caption)]
  }

  function FillRunnerArgs(file: string, runner: string, a: ViewerArgs): string {
    MimeHelpers.FillPasses(runner, FillTokens(file, a))
  }

  /** What v.rb's fillRunnerArgs puts for one piece of a runner: `%u` is
      not among its placeholders and stays. */
  function FilledToken(t: string, file: string, a: ViewerArgs): string {
    if t == "%F" || t == "%U" then MimeHelpers.Quoted(file)
    else if t == "%i" then a.icon
    else if t == "%c" then a.caption
    else t
  }

  /** The four passes send each piece to its filled value. */
  lemma PassTokenFill(t: string, file: string, a: ViewerArgs)
    requires '%' !in file && '%' !in a.icon && '%' !in a.caption
    ensures MimeHelpers.PassToken(t, FillTokens(file, a)) == FilledToken(t, file, a)
  {
    var q := MimeHelpers.Quoted(file);
    MimeHelpers.QuotedPlain(file);
    var passes := FillTokens(file, a);
    assert "%U"[0] == '%' && "%i"[0] == '%' && "%c"[0] == '%';
    var t1 := if t == "%F" then q else t;
    var t2 := if t1 == "%U" then q else t1;
    var t3 := if t2 == "%i" then a.icon else t2;
    var t4 := if t3 == "%c" then a.caption else t3;
    assert MimeHelpers.PassToken(t, passes) == MimeHelpers.PassToken(t1, passes[1..]);
    assert MimeHelpers.PassToken(t1, passes[1..]) == MimeHelpers.PassToken(t2, passes[2..]);
    assert MimeHelpers.PassToken(t2, passes[2..]) == MimeHelpers.PassToken(t3, passes[3..]);
    assert MimeHelpers.PassToken(t3, passes[3..]) == MimeHelpers.PassToken(t4, passes[4..]);
    assert passes[4..] == [];
  }

  /** v.rb's fillRunnerArgs on any runner made of `%`-free text and
      two-character placeholders, with a file, icon and caption free of `%`:
      every `%F` and `%U` becomes the quoted file, every `%i` the icon, every
      `%c` the caption, and `%u`, other placeholders and all text stay. */
  lemma FillRunnerArgsTemplate(ts: seq<string>, file: string, a: ViewerArgs)
    requires Template(ts, '%')
    requires '%' !in file && '%' !in a.icon && '%' !in a.caption
    ensures FillRunnerArgs(file, Concat(ts), a)
            == Concat(seq(|ts|, i requires 0 <= i < |ts| => FilledToken(ts[i], file, a)))
  {
    var passes := FillTokens(file, a);
    MimeHelpers.QuotedPlain(file);
    MimeHelpers.FillPassesTemplate(ts, passes);
    forall i | 0 <= i < |ts|
      ensures MimeHelpers.PassEach(ts, passes)[i] == FilledToken(ts[i], file, a)
    {
      PassTokenFill(ts[i], file, a);
    }
    assert MimeHelpers.PassEach(ts, passes) == seq(|ts|, i requires 0 <= i < |ts| => FilledToken(ts[i], file, a));
  }

  /** A runner with one `%U` and no other `%` gets the quoted file there. */
  lemma FillRunnerArgsU(x: string, y: string, file: string, a: ViewerArgs)
    requires '%' !in x && '%' !in y && '%' !in file
    ensures FillRunnerArgs(file, x + "%U" + y, a) == x + MimeHelpers.Quoted(file) + y
  {
    var q := MimeHelpers.Quoted(file);
    var passes := FillTokens(file, a);
    var s0 := x + "%U" + y;
    var s2 := x + q + y;
    assert ReplaceAll(s0, "%F", q) == s0 by {
      assert s0 == x + (['%', 'U'] + y);
      ReplaceAllSkip(x, ['%', 'U'] + y, "%F", q);
      ReplaceAllOtherPair('%', 'U', y, "%F", q);
    }
    assert ReplaceAll(s0, "%U", q) == s2 by {
      assert s0 == x + ("%U" + y);
      ReplaceAllSkip(x, "%U" + y, "%U", q);
      ReplaceAllFront(y, "%U", q);
      ReplaceAllWithout(y, "%U", q);
    }
    assert '%' !in q;
    assert '%' !in s2;
    var rest := passes[2..];
    forall i | 0 <= i < |rest| ensures |rest[i].0| > 0 && !Occurs(s2, rest[i].0) {
      NotOccursFirst(s2, rest[i].0);
    }
    MimeHelpers.FillPassesUntouched(s2, rest);
    assert passes[1..][0] == ("%U", q) && passes[1..][1..] == rest;
    assert MimeHelpers.FillPasses(s0, passes[1..]) == s2;
    assert MimeHelpers.FillPasses(s0, passes) == MimeHelpers.FillPasses(s0, passes[1..]);
  }

  /** Unlike the library's version, v.rb leaves `%u` in place. */
  lemma FillRunnerArgsKeepsLowerU(x: string, y: string, file: string, a: ViewerArgs)
    requires '%' !in x && '%' !in y
    ensures FillRunnerArgs(file, x + "%u" + y, a) == x + "%u" + y
  {
    var s0 := x + "%u" + y;
    var passes := FillTokens(file, a);
    assert s0 == x + (['%', 'u'] + y);
    forall i | 0 <= i < |passes| ensures |passes[i].0| > 0 && !Occurs(s0, passes[i].0) {
      var p := passes[i].0;
      assert |p| == 2 && p[0] == '%' && p[1] != 'u';
      forall j | 0 <= j < |s0| - 1 ensures !(s0[j] == p[0] && s0[j + 1] == p[1]) {
        if j < |x| {
          assert s0[j] == x[j];
        } else if j == |x| {
          assert s0[j + 1] == 'u';
        } else if j == |x| + 1 {
          assert s0[j] == 'u';
        } else {
          assert s0[j] == y[j - |x| - 2];
        }
      }
      NotOccursPair(s0, p);
    }
    MimeHelpers.FillPassesUntouched(s0, passes);
  }

  // ---------------------------------------------------------------------
  // The FileViewer object
  // ---------------------------------------------------------------------

  /** `@args` as parseArgs leaves it. */
  function ArgsOf(argv: seq<string>, env: Env): (a: ViewerArgs)
    ensures a.icon == "" && a.caption == "v"
    ensures a.files == FilterMap(argv, Found(env))
    ensures a.db == FilterMap(argv, DbToken) && a.factor == FilterMap(argv, FactorToken)
  {
    ViewerArgs("", "v", GetArgs(argv, DbToken), GetArgs(argv, FactorToken), GetArgs(argv, Found(env)))
  }

  /** The runner each file gets once its mime type is known. */
  function RunnerOf(env: Env, a: ViewerArgs, mimeOf: string -> string): string -> Attempt<Option<string>> {
    f => Runner(env, a, mimeOf(f))
  }

  /** The command a file's runner becomes. */
  function FillerOf(a: ViewerArgs): (string, string) -> string {
    (f, r) => FillRunnerArgs(f, r, a)
  }

  /** The commands the files loop runs, and whether it got through every
      file: it stops at the first file that has no runner, or whose lookup
      raises, because the exception ends the program there. */
  function Launches(rs: string -> Attempt<Option<string>>, fill: (string, string) -> string, files: seq<string>): (r: (seq<string>, bool))
    ensures |r.0| <= |files|
    ensures r.1 ==> |r.0| == |files|
    decreases |files|
  {
    if files == [] then ([], true)
    else
      var n := |files| - 1;
      var prev := Launches(rs, fill, files[..n]);
      if !prev.1 then prev
      else match rs(files[n])
        case Returned(Some(runner)) => (prev.0 + [fill(files[n], runner)], true)
        case _ => (prev.0, false)
  }

  predicate HasRunner(rs: string -> Attempt<Option<string>>, f: string) {
    rs(f).Returned? && rs(f).value.Some?
  }

  /** The loop gets through every file exactly when every file has a runner. */
  lemma {:induction false} LaunchesComplete(rs: string -> Attempt<Option<string>>, fill: (string, string) -> string, files: seq<string>)
    ensures Launches(rs, fill, files).1 <==> forall i :: 0 <= i < |files| ==> HasRunner(rs, files[i])
    decreases |files|
  {
    if files != [] {
      var n := |files| - 1;
      LaunchesComplete(rs, fill, files[..n]);
      assert forall i :: 0 <= i < n ==> files[..n][i] == files[i];
    }
  }

  /** The i-th command run is the i-th file's runner, filled in for it. */
  lemma {:induction false} LaunchesFilled(rs: string -> Attempt<Option<string>>, fill: (string, string) -> string, files: seq<string>)
    ensures var cmds := Launches(rs, fill, files).0;
            forall i :: 0 <= i < |cmds| ==>
              (HasRunner(rs, files[i]) && cmds[i] == fill(files[i], rs(files[i]).value.value))
    decreases |files|
  {
    if files != [] {
      var n := |files| - 1;
      LaunchesFilled(rs, fill, files[..n]);
      assert forall i :: 0 <= i < n ==> files[..n][i] == files[i];
    }
  }

  /** A stop is final: what follows the first failing file never runs. */
  lemma {:induction false} LaunchesStopped(rs: string -> Attempt<Option<string>>, fill: (string, string) -> string, files: seq<string>, i: nat)
    requires i <= |files| && !Launches(rs, fill, files[..i]).1
    ensures Launches(rs, fill, files) == Launches(rs, fill, files[..i])
    decreases |files|
  {
    if i < |files| {
      var n := |files| - 1;
      assert files[..n][..i] == files[..i];
      LaunchesStopped(rs, fill, files[..n], i);
    } else {
      assert files[..i] == files;
    }
  }

  /** One turn of the files loop: with a runner the file's command is
      added, and without one the loop's result is already final. */
  lemma LaunchesNext(rs: string -> Attempt<Option<string>>, fill: (string, string) -> string, files: seq<string>, i: nat, done: seq<string>)
    requires i < |files| && Launches(rs, fill, files[..i]) == (done, true)
    ensures HasRunner(rs, files[i]) ==>
              Launches(rs, fill, files[..i + 1]) == (done + [fill(files[i], rs(files[i]).value.value)], true)
    ensures !HasRunner(rs, files[i]) ==> Launches(rs, fill, files) == (done, false)
  {
    assert files[..i + 1][..i] == files[..i];
    if !HasRunner(rs, files[i]) {
      LaunchesStopped(rs, fill, files, i + 1);
    }
  }

  class FileViewer {
    var args: ViewerArgs
    var launched: seq<string>

    /** initialize: parseArgs, then resolve, fill and run each file in turn. */
    constructor(argv: seq<string>, env: Env, mimeOf: string -> string)
      ensures args == ArgsOf(argv, env)
      ensures launched == Launches(RunnerOf(env, args, mimeOf), FillerOf(args), args.files).0
    {
      args := ViewerArgs("", "v", [], [], []);
      launched := [];
      new;
      var proceed := ParseArgs(argv, env);
      if proceed {
        RunFiles(env, mimeOf);
      }
    }

    /** parseArgs: the defaults, then the files, db and factor lists, each
        overwriting its entry; with no file the program exits. */
    method ParseArgs(argv: seq<string>, env: Env) returns (proceed: bool)
      modifies this
      ensures args == ArgsOf(argv, env)
      ensures proceed <==> args.files != []
      ensures launched == old(launched)
    {
      args := ViewerArgs("", "v", [], [], []);
      args := args.(files := GetArgs(argv, Found(env)));
      args := args.(db := GetArgs(argv, DbToken));
      args := args.(factor := GetArgs(argv, FactorToken));
      proceed := args.files != [];
    }

    /** updateRunner: the user's list, then the system cache, then adjustRunner. */
    method UpdateRunner(env: Env, mime: string) returns (runner: Attempt<Option<string>>)
      ensures runner == Runner(env, args, mime)
    {
      runner := Returned(None);
      if runner == Returned(None) {
        runner := FromLocalMimeappList(env, mime);
        if runner.Raised? {
          return;
        }
      }
      if runner == Returned(None) {
        runner := FromMimeinfo(env, mime);
        if runner.Raised? {
          return;
        }
      }
      if runner.Returned? && runner.value.Some? {
        runner := Returned(Some(AdjustRunner(runner.value.value, args)));
      }
    }

    /** The body of initialize's files loop for one file: its MIME type,
        the runner updateRunner picks, and the filled command. nil when the
        lookup raises or finds nothing, which ends the loop. */
    method RunFile(env: Env, mimeOf: string -> string, f: string) returns (exec: Option<string>)
      ensures exec.Some? <==> HasRunner(RunnerOf(env, args, mimeOf), f)
      ensures exec.Some? ==> exec.value == FillerOf(args)(f, RunnerOf(env, args, mimeOf)(f).value.value)
    {
      var mime := mimeOf(f);
      var runner := UpdateRunner(env, mime);
      assert runner == RunnerOf(env, args, mimeOf)(f);
      if runner.Raised? || runner.value.None? {
        return None;
      }
      exec := Some(FillRunnerArgs(f, runner.value.value, args));
    }

    /** The files loop of initialize. */
    method RunFiles(env: Env, mimeOf: string -> string)
      modifies this
      requires launched == []
      ensures args == old(args)
      ensures launched == Launches(RunnerOf(env, args, mimeOf), FillerOf(args), args.files).0
    {
      var files := args.files;
      var rs := RunnerOf(env, args, mimeOf);
      var fill := FillerOf(args);
      var i := 0;
      while i < |files|
        invariant 0 <= i <= |files| && args == old(args)
        invariant Launches(rs, fill, files[..i]) == (launched, true)
      {
        var exec := RunFile(env, mimeOf, files[i]);
        LaunchesNext(rs, fill, files, i, launched);
        if exec.None? {
          return;
        }
        launched := launched + [exec.value];
        i := i + 1;
      }
      assert files[..i] == files;
      assert Launches(rs, fill, files) == (launched, true);
    }
  }
}
