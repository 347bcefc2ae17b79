/** lib/mime-helpers.rb: resolve a mime type to a command line through the
    freedesktop association files, and fill that command line for one file.
    The `@args` hash the module reads becomes the value `PlayArgs`; the
    directory that holds desktop entries is the parameter `base`. */
module MimeHelpers {
  import opened Wrappers
  import opened Text
  import opened ParsedConfig
  import opened Host

  /** The entries of `@args` these helpers read. */
  datatype PlayArgs = PlayArgs(icon: string, caption: string, db: Option<seq<string>>, factor: Option<seq<string>>)

  const DefaultApplications := "Default Applications"
  const MimeCache := "MIME Cache"
  const MimeappsList := "share/applications/mimeapps.list"
  const MimeinfoCache := "share/applications/mimeinfo.cache"
  /** The volume change and speed used when no db or factor word is given. */
  const DefaultDb := "+0"
  const DefaultSpeed := "1.0"

  // ---- desktop entries ----

  /** The vendor-directory reading of an id (`kde4-gwenview.desktop` names
      `kde4/gwenview.desktop`): split on "-", keep the first field, join the
      others back with "-". None when the split has fewer than two fields. */
  function VendorPath(id: string): Option<string> {
    var parts := RubySplit(id, '-');
    if |parts| >= 2 then Some(parts[0] + "/" + Join(parts[1..], '-')) else None
  }

  /** The vendor reading exists exactly when a "-" is left once the id's
      trailing "-"s are dropped, and it is that text with its first "-"
      turned into "/". */
  lemma VendorPathShape(id: string)
    ensures var t := StripTrailing(id, '-');
            && (VendorPath(id).Some? <==> '-' in t)
            && (VendorPath(id).Some? ==>
                  var i := |Before(t, '-')|;
                  i < |t| && t[i] == '-' && VendorPath(id).value == t[..i] + "/" + t[i + 1..])
  {
    var t := StripTrailing(id, '-');
    RubySplitTwoFields(id, '-');
    RubySplitStripped(id, '-');
    if '-' in t {
      assert RubySplit(id, '-') == SplitAll(t, '-');
      VendorOfFields(t);
    }
  }

  /** Rejoining all fields but the first, after a "/", turns the first "-"
      of `t` into "/". */
  lemma VendorOfFields(t: string)
    requires '-' in t
    ensures var i := |Before(t, '-')|;
            var parts := SplitAll(t, '-');
            && i < |t| && t[i] == '-'
            && parts[0] + "/" + Join(parts[1..], '-') == t[..i] + "/" + t[i + 1..]
  {
    var i := |Before(t, '-')|;
    SplitAllFirst(t, '-');
    SplitAllRest(t, '-');
    JoinSplitAll(t[i + 1..], '-');
  }

  /** The file getMimeRunnerFor settles on: `base + id` when that exists,
      otherwise the vendor reading when there is one. */
  function DesktopPath(env: Env, base: string, id: string): (path: string)
    ensures Exists(env, base + id) ==> path == base + id
    ensures !Exists(env, base + id) && VendorPath(id).Some? ==> path == base + VendorPath(id).value
    ensures !Exists(env, base + id) && VendorPath(id).None? ==> path == base + id
  {
    var direct := base + id;
    if !Exists(env, direct) && VendorPath(id).Some? then base + VendorPath(id).value else direct
  }

  /** getMimeRunnerFor: the `Exec` entry of the "Desktop Entry" section of
      the chosen file. nil when that file does not exist or has no `Exec`;
      the ParseConfig call and the section lookup are not rescued, so an
      unreadable file or a missing section raises. */
  function MimeRunnerFor(env: Env, base: string, id: string): (r: Attempt<Option<string>>)
    ensures !Exists(env, DesktopPath(env, base, id)) ==> r == Returned(None)
    ensures var path := DesktopPath(env, base, id);
            r.Raised? <==> Exists(env, path)
                           && (ParseFile(env, path).None? || Get(ParseFile(env, path).value, "Desktop Entry").None?)
    ensures var path := DesktopPath(env, base, id);
            Exists(env, path) && ParseFile(env, path).Some? ==>
              r == Index(Get(ParseFile(env, path).value, "Desktop Entry"), "Exec")
  {
    var path := DesktopPath(env, base, id);
    if !Exists(env, path) then Returned(None)
    else
      match ParseFile(env, path)
      case None => Raised
      case Some(conf) => Index(Get(conf, "Desktop Entry"), "Exec")
  }

  /** One line of gsub(/.desktop$/, ""): a final "desktop" goes, with the
      one character before it (the "." of the pattern matches any character). */
  function DropDesktopLine(l: string): string {
    if |l| >= 8 && l[|l| - 7..] == "desktop" then l[..|l| - 8] else l
  }

  /** gsub(/.desktop$/, ""): `$` is a line end in Ruby, so every line is treated. */
  function StripDesktop(s: string): string {
    var ls := Lines(s);
    Join(seq(|ls|, i requires 0 <= i < |ls| => DropDesktopLine(ls[i])), '\n')
  }

  /** On a single line the substitution is the one-line one. */
  lemma StripDesktopOneLine(s: string)
    requires '\n' !in s
    ensures StripDesktop(s) == DropDesktopLine(s)
  {
    OneLine(s);
    var ls := Lines(s);
    assert seq(|ls|, i requires 0 <= i < |ls| => DropDesktopLine(ls[i])) == [DropDesktopLine(s)];
  }


  /** guessMimeRunnerFor: the id without its ".desktop", followed by " %F ". */
  function GuessMimeRunnerFor(id: string): string {
    StripDesktop(id) + " %F "
  }

  /** "mplayer.desktop" is guessed as "mplayer %F ". */
  lemma GuessFromDesktopName(name: string)
    requires '\n' !in name
    ensures StripDesktop(name + ".desktop") == name
    ensures GuessMimeRunnerFor(name + ".desktop") == name + " %F "
  {
    var id := name + ".desktop";
    assert '\n' !in id;
    StripDesktopOneLine(id);
    assert id[|id| - 7..] == "desktop";
    assert id[..|id| - 8] == name;
  }

  /** A one-line id that does not end in "desktop" is used as it is. */
  lemma GuessKeepsOtherIds(id: string)
    requires '\n' !in id
    requires |id| < 8 || id[|id| - 7..] != "desktop"
    ensures StripDesktop(id) == id
    ensures GuessMimeRunnerFor(id) == id + " %F "
  {
    StripDesktopOneLine(id);
  }

  // ---- association stores ----

  /** The part of the expression `ParseConfig.new(configfile).params[key][mime]`
      that both versions of the program share: ParseConfig raises on an
      unreadable file and `nil[mime]` raises when the section is missing. */
  function Apps(env: Env, configfile: string, key: string, mime: string): (r: Attempt<Option<string>>)
    ensures r.Raised? <==> ParseFile(env, configfile).None? || Get(ParseFile(env, configfile).value, key).None?
    ensures r.Returned? ==> r == Index(Get(ParseFile(env, configfile).value, key), mime)
  {
    match ParseFile(env, configfile)
    case None => Raised
    case Some(conf) => Index(Get(conf, key), mime)
  }

  /** `apps.split(";")[0]`: nil when `apps` holds nothing but ";" (or
      nothing at all), otherwise the text before the first ";". */
  function FirstField(apps: string): (r: Option<string>)
    ensures r.None? <==> forall j :: 0 <= j < |apps| ==> apps[j] == ';'
    ensures r.Some? ==> r.value == Before(apps, ';') && ';' !in r.value
  {
    RubySplitFirst(apps, ';');
    var parts := RubySplit(apps, ';');
    if parts == [] then None else Some(parts[0])
  }

  /** getRunnerMetaFromConfig: the first desktop-entry id listed for `mime`
      under `key`; every failure on the way is rescued and gives nil. */
  function RunnerMetaFromConfig(env: Env, mime: string, configfile: string, key: string): (r: Option<string>)
    ensures var apps := Apps(env, configfile, key, mime);
            r.Some? <==> apps.Returned? && apps.value.Some? && exists j :: 0 <= j < |apps.value.value| && apps.value.value[j] != ';'
    ensures r.Some? ==> r.value == Before(Apps(env, configfile, key, mime).value.value, ';')
  {
    match Apps(env, configfile, key, mime)
    case Raised => None
    case Returned(None) => None
    case Returned(Some(apps)) => FirstField(apps)
  }

  /** getRunnerFromConfig: nil when no id is listed; once an id is found the
      result is never nil, because a missing desktop entry is replaced by a
      guess built from the id. */
  function RunnerFromConfig(env: Env, base: string, mime: string, configfile: string, key: string): (r: Attempt<Option<string>>)
    ensures RunnerMetaFromConfig(env, mime, configfile, key).None? ==> r == Returned(None)
    ensures RunnerMetaFromConfig(env, mime, configfile, key).Some? ==> r != Returned(None)
    ensures var id := RunnerMetaFromConfig(env, mime, configfile, key);
            id.Some? && MimeRunnerFor(env, base, id.value) == Returned(None) ==>
              r == Returned(Some(GuessMimeRunnerFor(id.value)))
    ensures var id := RunnerMetaFromConfig(env, mime, configfile, key);
            id.Some? && MimeRunnerFor(env, base, id.value) != Returned(None) ==>
              r == MimeRunnerFor(env, base, id.value)
  {
    match RunnerMetaFromConfig(env, mime, configfile, key)
    case None => Returned(None)
    case Some(id) =>
      match MimeRunnerFor(env, base, id)
      case Raised => Raised
      case Returned(Some(runner)) => Returned(Some(runner))
      case Returned(None) => Returned(Some(GuessMimeRunnerFor(id)))
  }

  function RunnerFromMimeinfoCache(env: Env, base: string, mime: string): (r: Attempt<Option<string>>)
    ensures var local := RunnerFromConfig(env, base, mime, env.expand("~/.local/" + MimeinfoCache), MimeCache);
            var system := RunnerFromConfig(env, base, mime, "/usr/" + MimeinfoCache, MimeCache);
            && (r == Returned(None) <==> local == Returned(None) && system == Returned(None))
            && (local.Returned? && local.value.Some? ==> r == local)
  {
    OrElse(RunnerFromConfig(env, base, mime, env.expand("~/.local/" + MimeinfoCache), MimeCache),
           RunnerFromConfig(env, base, mime, "/usr/" + MimeinfoCache, MimeCache))
  }

  function RunnerFromMimeappList(env: Env, base: string, mime: string): (r: Attempt<Option<string>>)
    ensures var local := RunnerFromConfig(env, base, mime, env.expand("~/.local/" + MimeappsList), DefaultApplications);
            var system := RunnerFromConfig(env, base, mime, "/usr/" + MimeappsList, DefaultApplications);
            && (r == Returned(None) <==> local == Returned(None) && system == Returned(None))
            && (local.Returned? && local.value.Some? ==> r == local)
  {
    OrElse(RunnerFromConfig(env, base, mime, env.expand("~/.local/" + MimeappsList), DefaultApplications),
           RunnerFromConfig(env, base, mime, "/usr/" + MimeappsList, DefaultApplications))
  }

  /** A store consulted by getRunner: a file and the section read from it. */
  datatype Store = Store(path: string, key: string)

  /** The stores in the order getRunner consults them. */
  function Stores(env: Env): seq<Store> {
    [ Store(env.expand("~/.local/" + MimeappsList), DefaultApplications),
      Store("/usr/" + MimeappsList, DefaultApplications),
      Store(env.expand("~/.local/" + MimeinfoCache), MimeCache),
      Store("/usr/" + MimeinfoCache, MimeCache) ]
  }

  /** What each store, on its own, yields for `mime`. */
  function Lookups(env: Env, base: string, mime: string): (ls: seq<Attempt<Option<string>>>)
    ensures |ls| == |Stores(env)|
    ensures forall i :: 0 <= i < |ls| ==> ls[i] == RunnerFromConfig(env, base, mime, Stores(env)[i].path, Stores(env)[i].key)
  {
    var st := Stores(env);
    seq(|st|, i requires 0 <= i < |st| => RunnerFromConfig(env, base, mime, st[i].path, st[i].key))
  }

  /** A priority search: the first lookup that raises or finds something. */
  function FirstHit(ls: seq<Attempt<Option<string>>>): Attempt<Option<string>> {
    if ls == [] then Returned(None) else OrElse(ls[0], FirstHit(ls[1..]))
  }

  /** The search is nil exactly when every lookup is nil. */
  lemma {:induction false} FirstHitNil(ls: seq<Attempt<Option<string>>>)
    ensures FirstHit(ls) == Returned(None) <==> forall i :: 0 <= i < |ls| ==> ls[i] == Returned(None)
  {
    if ls != [] {
      FirstHitNil(ls[1..]);
      assert forall i :: 1 <= i < |ls| ==> ls[i] == ls[1..][i - 1];
    }
  }

  /** Otherwise it is the first lookup that is not nil, and every lookup
      before that one was nil. */
  lemma {:induction false} FirstHitIsFirst(ls: seq<Attempt<Option<string>>>)
    requires FirstHit(ls) != Returned(None)
    ensures exists i :: 0 <= i < |ls| && FirstHit(ls) == ls[i] && ls[i] != Returned(None)
                        && forall j :: 0 <= j < i ==> ls[j] == Returned(None)
  {
    if ls[0] == Returned(None) {
      FirstHitIsFirst(ls[1..]);
      var i :| 0 <= i < |ls[1..]| && FirstHit(ls[1..]) == ls[1..][i] && ls[1..][i] != Returned(None)
               && forall j :: 0 <= j < i ==> ls[1..][j] == Returned(None);
      assert forall j :: 1 <= j < i + 1 ==> ls[j] == ls[1..][j - 1];
      assert FirstHit(ls) == ls[i + 1];
    } else {
      assert FirstHit(ls) == ls[0];
    }
  }

  /** Once a lookup succeeds, what comes after it is never consulted. */
  lemma {:induction false} FirstHitIgnoresLater(ls: seq<Attempt<Option<string>>>, later: seq<Attempt<Option<string>>>)
    requires FirstHit(ls) != Returned(None)
    ensures FirstHit(ls + later) == FirstHit(ls)
  {
    assert (ls + later)[0] == ls[0];
    if ls[0] == Returned(None) {
      assert (ls + later)[1..] == ls[1..] + later;
      FirstHitIgnoresLater(ls[1..], later);
    }
  }

  /** Applies the mplayer adjustment to a runner that was found. */
  function Tweaked(found: Attempt<Option<string>>, args: PlayArgs): Attempt<Option<string>> {
    match found
    case Raised => Raised
    case Returned(None) => Returned(None)
    case Returned(Some(runner)) => Returned(Some(TweakRunner(runner, args)))
  }

  /** getRunner: the mimeapps lists, then the mimeinfo caches, the user's
      `~/.local` copy before the one under `/usr` each time. nil when all
      of them are nil; otherwise the first runner found, adjusted. */
  function GetRunner(env: Env, base: string, args: PlayArgs, mime: string): (r: Attempt<Option<string>>)
    ensures var list := RunnerFromMimeappList(env, base, mime);
            var cache := RunnerFromMimeinfoCache(env, base, mime);
            && (r == Returned(None) <==> list == Returned(None) && cache == Returned(None))
            && (r.Raised? <==> list.Raised? || (list == Returned(None) && cache.Raised?))
  {
    var runner := OrElse(OrElse(RunnerFromMimeappList(env, base, mime), RunnerFromMimeinfoCache(env, base, mime)), Returned(None));
    Tweaked(runner, args)
  }

  /** getRunner is the priority search over `Stores`, in that order. */
  lemma GetRunnerSearchesStores(env: Env, base: string, args: PlayArgs, mime: string)
    ensures GetRunner(env, base, args, mime) == Tweaked(FirstHit(Lookups(env, base, mime)), args)
  {
    var ls := Lookups(env, base, mime);
    assert ls[3..][1..] == [];
    assert FirstHit(ls[3..]) == OrElse(ls[3], Returned(None));
    assert ls[2..][1..] == ls[3..];
    assert FirstHit(ls[2..]) == OrElse(ls[2], FirstHit(ls[3..]));
    assert ls[1..][1..] == ls[2..];
    assert FirstHit(ls[1..]) == OrElse(ls[1], FirstHit(ls[2..]));
    assert FirstHit(ls) == OrElse(ls[0], FirstHit(ls[1..]));
  }

  /** getRunner is nil exactly when every store lookup is nil. */
  lemma GetRunnerNil(env: Env, base: string, args: PlayArgs, mime: string)
    ensures GetRunner(env, base, args, mime) == Returned(None)
        <==> forall i :: 0 <= i < 4 ==> Lookups(env, base, mime)[i] == Returned(None)
  {
    GetRunnerSearchesStores(env, base, args, mime);
    FirstHitNil(Lookups(env, base, mime));
  }

  /** When store `i` is the first one with an answer, getRunner is that
      answer, adjusted: the later stores play no part. */
  lemma GetRunnerFirstStore(env: Env, base: string, args: PlayArgs, mime: string, i: nat)
    requires i < 4
    requires Lookups(env, base, mime)[i] != Returned(None)
    requires forall j :: 0 <= j < i ==> Lookups(env, base, mime)[j] == Returned(None)
    ensures GetRunner(env, base, args, mime) == Tweaked(Lookups(env, base, mime)[i], args)
  {
    var ls := Lookups(env, base, mime);
    GetRunnerSearchesStores(env, base, args, mime);
    FirstHitNil(ls);
    FirstHitIsFirst(ls);
    var k :| 0 <= k < |ls| && FirstHit(ls) == ls[k] && ls[k] != Returned(None)
             && forall j :: 0 <= j < k ==> ls[j] == Returned(None);
    assert k == i;
  }

  // ---- filling and adjusting the runner ----

  /** Successive replace-all passes, in the order given. */
  function FillPasses(s: string, passes: seq<(string, string)>): string
    requires forall i :: 0 <= i < |passes| ==> |passes[i].0| > 0
    decreases |passes|
  {
    if passes == [] then s else FillPasses(ReplaceAll(s, passes[0].0, passes[0].1), passes[1..])
  }

  /** A template holding none of the patterns comes out unchanged. */
  lemma {:induction false} FillPassesUntouched(s: string, passes: seq<(string, string)>)
    requires forall i :: 0 <= i < |passes| ==> |passes[i].0| > 0 && !Occurs(s, passes[i].0)
    ensures FillPasses(s, passes) == s
  {
    if passes != [] {
      ReplaceAllAbsent(s, passes[0].0, passes[0].1);
      FillPassesUntouched(s, passes[1..]);
    }
  }

  function Quoted(file: string): string {
    "\"" + file + "\""
  }

  /** The passes of fillRunnerArgs: `%F`, `%U` and `%u` become the quoted
      file, then `%i` the icon, then `%c` the caption. */
  function FillTokens(file: string, args: PlayArgs): (passes: seq<(string, string)>)
    ensures forall i :: 0 <= i < |passes| ==> |passes[i].0| > 0
  {
    [("%F", Quoted(file)), ("%U", Quoted(file)), ("%u", Quoted(file)), ("%i", args.icon), ("%c", args.caption)]
  }

  function FillRunnerArgs(runner: string, file: string, args: PlayArgs): string {
    FillPasses(runner, FillTokens(file, args))
  }

  /** A runner with none of the five placeholders is returned unchanged. */
  lemma FillRunnerArgsUntouched(runner: string, file: string, args: PlayArgs)
    requires !Occurs(runner, "%F") && !Occurs(runner, "%U") && !Occurs(runner, "%u")
    requires !Occurs(runner, "%i") && !Occurs(runner, "%c")
    ensures FillRunnerArgs(runner, file, args) == runner
  {
    FillPassesUntouched(runner, FillTokens(file, args));
  }

  /** What one piece of a template is after the passes, in order. */
  function PassToken(t: string, passes: seq<(string, string)>): string
    decreases |passes|
  {
    if passes == [] then t else PassToken(if t == passes[0].0 then passes[0].1 else t, passes[1..])
  }

  /** The pieces of a template after the passes, each on its own. */
  function PassEach(ts: seq<string>, passes: seq<(string, string)>): seq<string> {
    seq(|ts|, i requires 0 <= i < |ts| => PassToken(ts[i], passes))
  }

  /** Passes of `%`-placeholders whose replacements hold no `%` act on a
      template piece by piece: the text between the placeholders is kept,
      and no replacement is rescanned as a placeholder. */
  lemma {:induction false} FillPassesTemplate(ts: seq<string>, passes: seq<(string, string)>)
    requires forall i :: 0 <= i < |passes| ==>
               |passes[i].0| == 2 && passes[i].0[0] == '%' && passes[i].0[1] != '%' && '%' !in passes[i].1
    requires Template(ts, '%')
    ensures FillPasses(Concat(ts), passes) == Concat(PassEach(ts, passes))
    decreases |passes|
  {
    if passes == [] {
      assert PassEach(ts, passes) == ts;
    } else {
      var p := passes[0].0;
      var rep := passes[0].1;
      ReplaceAllTemplate(ts, p, rep);
      var ts' := Subst(ts, p, rep);
      SubstTemplate(ts, p, rep, '%');
      assert forall i :: 0 <= i < |passes[1..]| ==> passes[1..][i] == passes[i + 1];
      FillPassesTemplate(ts', passes[1..]);
      assert PassEach(ts', passes[1..]) == PassEach(ts, passes) by {
        forall i | 0 <= i < |ts|
          ensures PassEach(ts', passes[1..])[i] == PassEach(ts, passes)[i]
        {
          assert ts'[i] == if ts[i] == p then rep else ts[i];
        }
      }
      assert FillPasses(Concat(ts), passes) == FillPasses(ReplaceAll(Concat(ts), p, rep), passes[1..]);
    }
  }

  /** What fillRunnerArgs puts for one piece of a runner. */
  function FilledToken(t: string, file: string, args: PlayArgs): string {
    if t == "%F" || t == "%U" || t == "%u" then Quoted(file)
    else if t == "%i" then args.icon
    else if t == "%c" then args.caption
    else t
  }

  lemma QuotedPlain(file: string)
    requires '%' !in file
    ensures '%' !in Quoted(file)
  {
    assert Quoted(file) == "\"" + file + "\"";
  }

  /** The five passes send each piece to its filled value. */
  lemma PassTokenFill(t: string, file: string, args: PlayArgs)
    requires '%' !in file && '%' !in args.icon && '%' !in args.caption
    ensures PassToken(t, FillTokens(file, args)) == FilledToken(t, file, args)
  {
    var q := Quoted(file);
    QuotedPlain(file);
    var passes := FillTokens(file, args);
    assert "%U"[0] == '%' && "%u"[0] == '%' && "%i"[0] == '%' && "%c"[0] == '%';
    var t1 := if t == "%F" then q else t;
    var t2 := if t1 == "%U" then q else t1;
    var t3 := if t2 == "%u" then q else t2;
    var t4 := if t3 == "%i" then args.icon else t3;
    var t5 := if t4 == "%c" then args.caption else t4;
    assert PassToken(t, passes) == PassToken(t1, passes[1..]);
    assert PassToken(t1, passes[1..]) == PassToken(t2, passes[2..]);
    assert PassToken(t2, passes[2..]) == PassToken(t3, passes[3..]);
    assert PassToken(t3, passes[3..]) == PassToken(t4, passes[4..]);
    assert PassToken(t4, passes[4..]) == PassToken(t5, passes[5..]);
    assert passes[5..] == [];
  }

  /** fillRunnerArgs on any runner made of `%`-free text and two-character
      placeholders, with a file, icon and caption free of `%`: every `%F`,
      `%U` and `%u` becomes the quoted file, every `%i` the icon, every `%c`
      the caption, and other placeholders and all text stay as they are. */
  lemma FillRunnerArgsTemplate(ts: seq<string>, file: string, args: PlayArgs)
    requires Template(ts, '%')
    requires '%' !in file && '%' !in args.icon && '%' !in args.caption
    ensures FillRunnerArgs(Concat(ts), file, args)
            == Concat(seq(|ts|, i requires 0 <= i < |ts| => FilledToken(ts[i], file, args)))
  {
    var passes := FillTokens(file, args);
    QuotedPlain(file);
    FillPassesTemplate(ts, passes);
    forall i | 0 <= i < |ts|
      ensures PassEach(ts, passes)[i] == FilledToken(ts[i], file, args)
    {
      PassTokenFill(ts[i], file, args);
    }
    assert PassEach(ts, passes) == seq(|ts|, i requires 0 <= i < |ts| => FilledToken(ts[i], file, args));
  }

  /** The `%F` pass on a runner with one `%F` and no other `%`. */
  lemma ReplaceOnlyF(x: string, y: string, q: string)
    requires '%' !in x && '%' !in y
    ensures ReplaceAll(x + "%F" + y, "%F", q) == x + q + y
  {
    assert x + "%F" + y == x + ("%F" + y);
    ReplaceAllSkip(x, "%F" + y, "%F", q);
    ReplaceAllFront(y, "%F", q);
    ReplaceAllWithout(y, "%F", q);
  }

  /** A runner with one `%F` and no other `%` gets the quoted file in its
      place, e.g. "mplayer %F " and "a.mkv" give `mplayer "a.mkv" `. */
  lemma FillRunnerArgsOnePlaceholder(x: string, y: string, file: string, args: PlayArgs)
    requires '%' !in x && '%' !in y && '%' !in file
    ensures FillRunnerArgs(x + "%F" + y, file, args) == x + Quoted(file) + y
  {
    var q := Quoted(file);
    var passes := FillTokens(file, args);
    ReplaceOnlyF(x, y, q);
    var s1 := x + q + y;
    assert '%' !in q;
    assert '%' !in s1;
    var rest := passes[1..];
    forall i | 0 <= i < |rest| ensures |rest[i].0| > 0 && !Occurs(s1, rest[i].0) {
      NotOccursFirst(s1, rest[i].0);
    }
    FillPassesUntouched(s1, rest);
  }

  /** The passes after `%F` on a text whose only `%` starts a `%c`. */
  lemma FillAfterFWithC(x': string, z: string, passes: seq<(string, string)>, caption: string)
    requires '%' !in x' && '%' !in z
    requires |passes| == 4 && passes[3] == ("%c", caption)
    requires forall i :: 0 <= i < 3 ==> |passes[i].0| == 2 && passes[i].0[0] == '%' && passes[i].0[1] != 'c'
    ensures FillPasses(x' + "%c" + z, passes) == x' + caption + z
  {
    var s1 := x' + "%c" + z;
    var m := "%c" + z;
    assert s1 == x' + m;
    assert m == ['%', 'c'] + z;
    forall i | 0 <= i < 3 ensures ReplaceAll(s1, passes[i].0, passes[i].1) == s1 {
      ReplaceAllSkip(x', m, passes[i].0, passes[i].1);
      ReplaceAllOtherPair('%', 'c', z, passes[i].0, passes[i].1);
    }
    ReplaceAllSkip(x', m, "%c", caption);
    ReplaceAllFront(z, "%c", caption);
    ReplaceAllWithout(z, "%c", caption);
    assert ReplaceAll(s1, "%c", caption) == x' + caption + z;
    assert passes[1..][1..] == passes[2..] && passes[2..][1..] == passes[3..] && passes[3..][1..] == [];
    assert FillPasses(s1, passes[3..]) == x' + caption + z;
    assert FillPasses(s1, passes[2..]) == FillPasses(s1, passes[3..]);
    assert FillPasses(s1, passes[1..]) == FillPasses(s1, passes[2..]);
  }

  /** The passes run one after another, so a placeholder carried in by the
      file name is itself replaced: a file named "%c" is filled in with the
      caption. */
  lemma FillRunnerArgsResubstitutes(x: string, y: string, args: PlayArgs)
    requires '%' !in x && '%' !in y
    ensures FillRunnerArgs(x + "%F" + y, "%c", args) == x + "\"" + args.caption + "\"" + y
  {
    var q := Quoted("%c");
    var passes := FillTokens("%c", args);
    ReplaceOnlyF(x, y, q);
    var x' := x + "\"";
    var z := "\"" + y;
    assert x + q + y == x' + "%c" + z;
    FillAfterFWithC(x', z, passes[1..], args.caption);
    assert x' + args.caption + z == x + "\"" + args.caption + "\"" + y;
  }

  /** getFirstOr: the first element, or `alt` for nil or an empty list. */
  function GetFirstOr<T>(a: Option<seq<T>>, alt: T): (r: T)
    ensures a.None? || a.value == [] ==> r == alt
    ensures a.Some? && a.value != [] ==> r == a.value[0] && r in a.value
  {
    if a.None? then alt
    else if a.value == [] then alt
    else a.value[0]
  }

  /** r.match(/^mplayer/): some line of `r` begins with "mplayer". */
  predicate MatchesMplayer(r: string) {
    var ls := Lines(r);
    exists i | 0 <= i < |ls| :: StartsWith(ls[i], "mplayer")
  }

  /** A runner that begins with "mplayer" matches. */
  lemma MplayerAtStart(r: string)
    requires StartsWith(r, "mplayer")
    ensures MatchesMplayer(r)
  {
    SplitAllFirst(r, '\n');
    var first := Before(r, '\n');
    assert r[..7] == "mplayer";
    assert |first| >= 7;
    assert first[..7] == r[..7];
    assert StartsWith(Lines(r)[0], "mplayer");
  }

  /** tweakRunner: an mplayer runner gets the volume, scaletempo and speed
      flags appended at its end; any other runner is left as it is. */
  function TweakRunner(r: string, args: PlayArgs): (t: string)
    ensures MatchesMplayer(r) ==>
              t == r + " -af volume=" + GetFirstOr(args.db, DefaultDb) + "dB,scaletempo -speed " + GetFirstOr(args.factor, DefaultSpeed) + " "
    ensures !MatchesMplayer(r) ==> t == r
  {
    if MatchesMplayer(r) then
      var speed := GetFirstOr(args.factor, DefaultSpeed);
      var db := GetFirstOr(args.db, DefaultDb);
      r + " -af volume=" + db + "dB,scaletempo -speed " + speed + " "
    else r
  }

  /** The adjustment changes a runner exactly when it is an mplayer runner,
      and then only by extending it. */
  lemma TweakRunnerChanges(r: string, args: PlayArgs)
    ensures TweakRunner(r, args) != r <==> MatchesMplayer(r)
    ensures StartsWith(TweakRunner(r, args), r)
  {
    var t := TweakRunner(r, args);
    assert t[..|r|] == r;
  }

  /** With no db and no factor given, the defaults `+0` and `1.0` are used. */
  lemma TweakRunnerDefaults(r: string, args: PlayArgs)
    requires StartsWith(r, "mplayer")
    requires args.db.None? || args.db.value == []
    requires args.factor.None? || args.factor.value == []
    ensures TweakRunner(r, args) == r + " -af volume=" + DefaultDb + "dB,scaletempo -speed " + DefaultSpeed + " "
  {
    MplayerAtStart(r);
  }
}
