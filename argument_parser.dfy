/** lib/argument-parser.rb: the configuration an ArgumentParser loads (the
    default file, then the user's files, deep-merged in that order), the
    controls taken from its "controls" section, and `parse`, which lets each
    control claim the arguments its pattern matches and treats what is left
    as files.

    A control's pattern is kept as its source text; `Regexp.new(v).match(c.downcase)`
    is the matcher `m(pattern, arg)`, an input of the model. */
module ArgumentParser {
  import opened Wrappers
  import opened Seqs
  import opened ParsedConfig
  import opened Host
  import Text

  /** The configuration read before any of the user's files. */
  const DefaultConfigs: seq<string> := ["lib/v.default.conf"]

  // ---------------------------------------------------------------------
  // getArgs: an order-preserving partition
  // ---------------------------------------------------------------------

  /** One element of `all` in getArgs: `[r, nil]` when the block answers
      `r`, `[nil, a]` when it answers nil. */
  function Tag<A, B>(f: A -> Option<B>, a: A): (Option<B>, Option<A>) {
    var r := f(a);
    if r.None? then (None, Some(a)) else (r, None)
  }

  function Tagged<A, B>(args: seq<A>, f: A -> Option<B>): seq<(Option<B>, Option<A>)> {
    seq(|args|, i requires 0 <= i < |args| => Tag(f, args[i]))
  }

  function Firsts<A, B>(all: seq<(Option<B>, Option<A>)>): seq<Option<B>> {
    seq(|all|, i requires 0 <= i < |all| => all[i].0)
  }

  function Seconds<A, B>(all: seq<(Option<B>, Option<A>)>): seq<Option<A>> {
    seq(|all|, i requires 0 <= i < |all| => all[i].1)
  }

  /** Both compacted columns of `all` are the two halves of the partition. */
  lemma {:induction false} TaggedColumns<A, B>(args: seq<A>, f: A -> Option<B>)
    ensures Compact(Firsts(Tagged(args, f))) == FilterMap(args, f)
    ensures Compact(Seconds(Tagged(args, f))) == Rejected(args, f)
  {
    if args != [] {
      var t := Tagged(args, f);
      assert t[1..] == Tagged(args[1..], f);
      assert Firsts(t)[1..] == Firsts(t[1..]);
      assert Seconds(t)[1..] == Seconds(t[1..]);
      TaggedColumns(args[1..], f);
    }
  }

  /** getArgs: what the block transforms, and what it leaves, each in
      argument order; together they account for every argument. */
  function GetArgs<A, B>(args: seq<A>, f: A -> Option<B>): (r: (seq<B>, seq<A>))
    ensures r.0 == FilterMap(args, f) && r.1 == Rejected(args, f)
    ensures |r.0| + |r.1| == |args|
  {
    var all := Tagged(args, f);
    TaggedColumns(args, f);
    PartitionSizes(args, f);
    (Compact(Firsts(all)), Compact(Seconds(all)))
  }

  // ---------------------------------------------------------------------
  // parse
  // ---------------------------------------------------------------------

  /** One entry of the "controls" section: its key and its pattern. */
  datatype Control = Control(name: string, pattern: string)

  /** The block parse hands getArgs for control `c`. */
  function Claim<M>(c: Control, m: (string, string) -> Option<M>): string -> Option<M> {
    a => m(c.pattern, a)
  }

  /** `rest` once the controls `cs` have run, one after another. */
  function Rest<M>(cs: seq<Control>, m: (string, string) -> Option<M>, args: seq<string>): (r: seq<string>)
    ensures |r| <= |args|
    ensures forall w :: w in r ==> w in args
    decreases |cs|
  {
    if cs == [] then args
    else Rejected(Rest(cs[..|cs| - 1], m, args), Claim(cs[|cs| - 1], m))
  }

  /** A value of the opts hash: a control's match results, or the file list. */
  datatype Opt<M> = Matches(ms: seq<M>) | Files(paths: seq<string>)

  /** `opts` once the controls `cs` have run. */
  function OptsAfter<M>(cs: seq<Control>, m: (string, string) -> Option<M>, args: seq<string>): seq<(string, Opt<M>)>
    decreases |cs|
  {
    if cs == [] then []
    else
      var n := |cs| - 1;
      Put(OptsAfter(cs[..n], m, args), cs[n].name, Matches(FilterMap(Rest(cs[..n], m, args), Claim(cs[n], m))))
  }

  /** Every control gets an entry in `opts`, whether or not it matched. */
  lemma {:induction false} OptsAfterNames<M>(cs: seq<Control>, m: (string, string) -> Option<M>, args: seq<string>, i: nat)
    requires i < |cs|
    ensures Get(OptsAfter(cs, m, args), cs[i].name).Some?
    decreases |cs|
  {
    var n := |cs| - 1;
    var prev := OptsAfter(cs[..n], m, args);
    if i < n && cs[i].name != cs[n].name {
      OptsAfterNames(cs[..n], m, args, i);
      assert cs[..n][i] == cs[i];
    }
    PutKeepsKey(prev, cs[n].name, Matches(FilterMap(Rest(cs[..n], m, args), Claim(cs[n], m))), cs[i].name);
  }

  /** parse: every control, in config order, takes the arguments it matches
      from what the earlier ones left; the leftovers that name existing
      files become "files", which is ["."] when nothing is left over. */
  method Parse<M>(controls: seq<Control>, m: (string, string) -> Option<M>, env: Env, args: seq<string>)
    returns (opts: seq<(string, Opt<M>)>)
    ensures var rest := Rest(controls, m, args);
            var files := FilterMap(rest, Found(env));
            opts == Put(OptsAfter(controls, m, args), "files",
                        Files(if files == [] && rest == [] then ["."] else files))
  {
    opts := [];
    var rest := args;
    var i := 0;
    while i < |controls|
      invariant 0 <= i <= |controls|
      invariant opts == OptsAfter(controls[..i], m, args)
      invariant rest == Rest(controls[..i], m, args)
    {
      var got := GetArgs(rest, Claim(controls[i], m));
      opts := Put(opts, controls[i].name, Matches(got.0));
      rest := got.1;
      assert controls[..i + 1][..i] == controls[..i];
      i := i + 1;
    }
    assert controls[..i] == controls;
    var files := FilterMap(rest, Found(env));
    if files == [] && rest == [] {
      files := ["."];
    }
    opts := Put(opts, "files", Files(files));
  }

  /** The first control, in config order, whose pattern matches `a`;
      folded from the back, as the controls run. */
  function Owner<M>(cs: seq<Control>, m: (string, string) -> Option<M>, a: string): (r: Option<nat>)
    ensures r.None? <==> forall i :: 0 <= i < |cs| ==> m(cs[i].pattern, a).None?
    ensures r.Some? ==> r.value < |cs| && m(cs[r.value].pattern, a).Some?
    ensures r.Some? ==> forall j :: 0 <= j < r.value ==> m(cs[j].pattern, a).None?
    decreases |cs|
  {
    if cs == [] then None
    else
      var n := |cs| - 1;
      var p := Owner(cs[..n], m, a);
      assert forall i :: 0 <= i < n ==> cs[..n][i] == cs[i];
      if p.Some? then p
      else if m(cs[n].pattern, a).Some? then Some(n)
      else None
  }

  function OwnerOf<M>(cs: seq<Control>, m: (string, string) -> Option<M>): string -> Option<nat> {
    a => Owner(cs, m, a)
  }

  /** The leftovers are exactly the arguments no control matches, in order. */
  lemma {:induction false} RestIsUnowned<M>(cs: seq<Control>, m: (string, string) -> Option<M>, args: seq<string>)
    ensures Rest(cs, m, args) == Rejected(args, OwnerOf(cs, m))
    decreases |cs|
  {
    if cs == [] {
      FilterNothing(args, OwnerOf(cs, m));
    } else {
      var n := |cs| - 1;
      RestIsUnowned(cs[..n], m, args);
      RejectedTwice(args, OwnerOf(cs[..n], m), Claim(cs[n], m), OwnerOf(cs, m));
    }
  }

  /** Rejecting by a block that never answers keeps everything. */
  lemma {:induction false} FilterNothing<A, B>(s: seq<A>, f: A -> Option<B>)
    requires forall x :: f(x).None?
    ensures Rejected(s, f) == s
  {
    if s != [] {
      FilterNothing(s[1..], f);
    }
  }

  /** The match results of control `i` whose owner is `i`. */
  function OwnedMatch<M>(cs: seq<Control>, m: (string, string) -> Option<M>, i: nat): string -> Option<M>
    requires i < |cs|
  {
    a => if Owner(cs, m, a) == Some(i) then m(cs[i].pattern, a) else None
  }

  predicate DistinctNames(cs: seq<Control>) {
    forall i, j :: 0 <= i < j < |cs| ==> cs[i].name != cs[j].name
  }

  /** The last control takes, from what the others left, exactly the
      arguments it owns. */
  lemma ControlClaimsLast<M>(cs: seq<Control>, m: (string, string) -> Option<M>, args: seq<string>)
    requires cs != []
    ensures var n := |cs| - 1;
            FilterMap(Rest(cs[..n], m, args), Claim(cs[n], m)) == FilterMap(args, OwnedMatch(cs, m, n))
  {
    var n := |cs| - 1;
    RestIsUnowned(cs[..n], m, args);
    forall j | 0 <= j < |args|
      ensures OwnedMatch(cs, m, n)(args[j])
           == if OwnerOf(cs[..n], m)(args[j]).None? then Claim(cs[n], m)(args[j]) else None
    {
      var p := Owner(cs[..n], m, args[j]);
      assert Owner(cs, m, args[j]) == if p.Some? then p else if m(cs[n].pattern, args[j]).Some? then Some(n) else None;
    }
    FilterMapOfRejected(args, OwnerOf(cs[..n], m), Claim(cs[n], m), OwnedMatch(cs, m, n));
  }

  /** A later control does not change which arguments an earlier one owns. */
  lemma OwnedMatchSnoc<M>(cs: seq<Control>, m: (string, string) -> Option<M>, args: seq<string>, i: nat)
    requires i < |cs| - 1
    ensures FilterMap(args, OwnedMatch(cs[..|cs| - 1], m, i)) == FilterMap(args, OwnedMatch(cs, m, i))
  {
    var n := |cs| - 1;
    assert cs[..n][i] == cs[i];
    forall j | 0 <= j < |args|
      ensures OwnedMatch(cs[..n], m, i)(args[j]) == OwnedMatch(cs, m, i)(args[j])
    {
      var p := Owner(cs[..n], m, args[j]);
      assert Owner(cs, m, args[j]) == if p.Some? then p else if m(cs[n].pattern, args[j]).Some? then Some(n) else None;
    }
    FilterMapPointwise(args, OwnedMatch(cs[..n], m, i), OwnedMatch(cs, m, i));
  }

  /** Each argument is claimed by at most one control: `opts[name]` of a
      control holds, in argument order, the match results of exactly the
      arguments it is the first control to match. */
  lemma {:induction false} ControlClaims<M>(cs: seq<Control>, m: (string, string) -> Option<M>, args: seq<string>, i: nat)
    requires DistinctNames(cs) && i < |cs|
    ensures Get(OptsAfter(cs, m, args), cs[i].name) == Some(Matches(FilterMap(args, OwnedMatch(cs, m, i))))
    decreases |cs|
  {
    var n := |cs| - 1;
    var prev := OptsAfter(cs[..n], m, args);
    var last := Matches(FilterMap(Rest(cs[..n], m, args), Claim(cs[n], m)));
    assert OptsAfter(cs, m, args) == Put(prev, cs[n].name, last);
    if i == n {
      ControlClaimsLast(cs, m, args);
    } else {
      assert cs[..n][i] == cs[i];
      assert cs[i].name != cs[n].name;
      forall a, b | 0 <= a < b < n ensures cs[..n][a].name != cs[..n][b].name {
        assert cs[..n][a] == cs[a] && cs[..n][b] == cs[b];
      }
      ControlClaims(cs[..n], m, args, i);
      assert Get(Put(prev, cs[n].name, last), cs[i].name) == Get(prev, cs[i].name);
      OwnedMatchSnoc(cs, m, args, i);
    }
  }

  /** "files": the expanded leftovers that exist, in order; ["."] only when
      no argument was left over. */
  lemma ParseFiles<M>(cs: seq<Control>, m: (string, string) -> Option<M>, env: Env, args: seq<string>, opts: seq<(string, Opt<M>)>)
    requires var rest := Rest(cs, m, args);
             var files := FilterMap(rest, Found(env));
             opts == Put(OptsAfter(cs, m, args), "files", Files(if files == [] && rest == [] then ["."] else files))
    ensures var left := Rejected(args, OwnerOf(cs, m));
            Get(opts, "files") == Some(Files(if left == [] then ["."] else FilterMap(left, Found(env))))
    ensures forall a :: a in Rejected(args, OwnerOf(cs, m)) <==> a in args && Owner(cs, m, a).None?
  {
    RestIsUnowned(cs, m, args);
    var left := Rejected(args, OwnerOf(cs, m));
    forall a | a in args && Owner(cs, m, a).None? ensures a in left {
      RejectedComplete(args, OwnerOf(cs, m), a);
    }
  }

  // ---------------------------------------------------------------------
  // deep_merge
  // ---------------------------------------------------------------------

  /** `b[k] = v` inside deep_merge's recursive call: on a hash it stores
      the pair; on a String (a scalar the section is merged into) it is
      String#[]=, which replaces the first occurrence of `k` and raises
      IndexError when there is none. */
  function Assign(t: Value, k: string, v: string): (r: Attempt<Value>)
    ensures t.Section? ==> r == Returned(Section(Put(t.pairs, k, v)))
    ensures t.Str? ==> (r.Raised? <==> !Text.Occurs(t.s, k))
    ensures t.Str? && r.Returned? ==> r.value.Str? && |r.value.s| == |t.s| - |k| + |v|
    ensures t.Str? && Text.Occurs(t.s, k) ==> r == Returned(Str(Text.ReplaceFirst(t.s, k, v)))
  {
    match t
    case Section(qs) => Returned(Section(Put(qs, k, v)))
    case Str(s) => if Text.Occurs(s, k) then Returned(Str(Text.ReplaceFirst(s, k, v))) else Raised
  }

  /** The value `b[k]` ends up as when the section `ps` is merged into `t`. */
  function MergeValue(t: Value, ps: seq<(string, string)>): Attempt<Value>
    decreases |ps|
  {
    if ps == [] then Returned(t)
    else match MergeValue(t, ps[..|ps| - 1])
      case Raised => Raised
      case Returned(u) => Assign(u, ps[|ps| - 1].0, ps[|ps| - 1].1)
  }

  /** `b[k] ||= {}`. */
  function Target(b: Params, k: string): (t: Value)
    ensures Get(b, k).Some? ==> t == Get(b, k).value
    ensures Get(b, k).None? ==> t == Section([])
  {
    match Get(b, k)
    case None => Section([])
    case Some(t) => t
  }

  /** One step of deep_merge: the pair `(k, v)` of `a` merged into `b`. */
  function MergeEntry(b: Params, k: string, v: Value): (r: Attempt<Params>)
    ensures v.Str? ==> r.Returned?
    ensures r.Returned? ==> Get(r.value, k).Some?
    ensures r.Returned? ==> forall k' {:trigger Get(r.value, k')} :: k' != k ==> Get(r.value, k') == Get(b, k')
  {
    match v
    case Str(_) => Returned(Put(b, k, v))
    case Section(ps) =>
      match MergeValue(Target(b, k), ps)
      case Raised => Raised
      case Returned(u) => Returned(Put(b, k, u))
  }

  /** deep_merge(a, b): what `b` holds once every pair of `a` is merged in. */
  function Merge(b: Params, a: Params): Attempt<Params>
    decreases |a|
  {
    if a == [] then Returned(b)
    else match Merge(b, a[..|a| - 1])
      case Raised => Raised
      case Returned(c) => MergeEntry(c, a[|a| - 1].0, a[|a| - 1].1)
  }

  /** A raise part-way through a section's merge aborts the whole. */
  lemma {:induction false} MergeValueRaisedPrefix(t: Value, ps: seq<(string, string)>, i: nat)
    requires i <= |ps| && MergeValue(t, ps[..i]).Raised?
    ensures MergeValue(t, ps).Raised?
    decreases |ps| - i
  {
    if i < |ps| {
      var next := ps[..i + 1];
      assert next[..|next| - 1] == ps[..i];
      assert MergeValue(t, next).Raised?;
      MergeValueRaisedPrefix(t, ps, i + 1);
    } else {
      assert ps[..i] == ps;
    }
  }

  lemma {:induction false} MergeRaisedPrefix(b: Params, a: Params, i: nat)
    requires i <= |a| && Merge(b, a[..i]).Raised?
    ensures Merge(b, a).Raised?
    decreases |a| - i
  {
    if i < |a| {
      var next := a[..i + 1];
      assert next[..|next| - 1] == a[..i];
      assert Merge(b, next).Raised?;
      MergeRaisedPrefix(b, a, i + 1);
    } else {
      assert a[..i] == a;
    }
  }

  /** The recursive call of deep_merge: merges the section `ps` into `t`. */
  method MergeSection(t: Value, ps: seq<(string, string)>) returns (r: Attempt<Value>)
    ensures r == MergeValue(t, ps)
  {
    var cur := t;
    var i := 0;
    while i < |ps|
      invariant 0 <= i <= |ps|
      invariant MergeValue(t, ps[..i]) == Returned(cur)
    {
      var (k, v) := ps[i];
      assert ps[..i + 1][..i] == ps[..i];
      var next := Assign(cur, k, v);
      if next.Raised? {
        MergeValueRaisedPrefix(t, ps, i + 1);
        return Raised;
      }
      cur := next.value;
      i := i + 1;
    }
    assert ps[..i] == ps;
    return Returned(cur);
  }

  /** deep_merge(a, b), with the new contents of `b` as its result. */
  method DeepMerge(a: Params, b: Params) returns (r: Attempt<Params>)
    ensures r == Merge(b, a)
  {
    var acc := b;
    var i := 0;
    while i < |a|
      invariant 0 <= i <= |a|
      invariant Merge(b, a[..i]) == Returned(acc)
    {
      var (k, v) := a[i];
      assert a[..i + 1][..i] == a[..i];
      match v {
        case Str(_) =>
          acc := Put(acc, k, v);
        case Section(ps) =>
          var u := MergeSection(Target(acc, k), ps);
          if u.Raised? {
            MergeRaisedPrefix(b, a, i + 1);
            return Raised;
          }
          acc := Put(acc, k, u.value);
      }
      i := i + 1;
    }
    assert a[..i] == a;
    return Returned(acc);
  }

  /** A section merged into a hash never raises: it stores each pair in turn. */
  lemma {:induction false} MergeValueSection(qs: seq<(string, string)>, ps: seq<(string, string)>)
    ensures MergeValue(Section(qs), ps) == Returned(Section(PutAll(qs, ps)))
    decreases |ps|
  {
    if ps != [] {
      MergeValueSection(qs, ps[..|ps| - 1]);
    }
  }

  /** A non-hash value of `a` is stored in `b` under its key and overwrites
      what was there; the last such value of `a` for a key wins. */
  lemma {:induction false} MergeScalarWins(b: Params, a: Params, k: string, s: string)
    requires LastGet(a, k) == Some(Str(s)) && Merge(b, a).Returned?
    ensures Get(Merge(b, a).value, k) == Some(Str(s))
    decreases |a|
  {
    var n := |a| - 1;
    if a[n].0 != k {
      MergeScalarWins(b, a[..n], k, s);
    }
  }

  /** Keys that `a` does not mention keep their values in `b`. */
  lemma {:induction false} MergeKeepsAbsent(b: Params, a: Params, k: string)
    requires forall i :: 0 <= i < |a| ==> a[i].0 != k
    requires Merge(b, a).Returned?
    ensures Get(Merge(b, a).value, k) == Get(b, k)
    decreases |a|
  {
    if a != [] {
      var n := |a| - 1;
      assert forall i :: 0 <= i < n ==> a[..n][i] == a[i];
      MergeKeepsAbsent(b, a[..n], k);
    }
  }

  predicate DistinctKeys<V>(a: seq<(string, V)>) {
    forall i, j :: 0 <= i < j < |a| ==> a[i].0 != a[j].0
  }

  /** A hash value of `a` (whose keys are distinct, as a Ruby hash's are)
      is merged recursively into `b[k]`, or into a new empty hash when `b`
      has no `k`. */
  lemma {:induction false} MergeSectionEntry(b: Params, a: Params, k: string, ps: seq<(string, string)>, i: nat)
    requires DistinctKeys(a) && i < |a| && a[i] == (k, Section(ps))
    requires Merge(b, a).Returned?
    ensures Get(Merge(b, a).value, k).Some?
    ensures MergeValue(Target(b, k), ps) == Returned(Get(Merge(b, a).value, k).value)
    decreases |a|
  {
    var n := |a| - 1;
    assert forall j :: 0 <= j < n ==> a[..n][j] == a[j];
    if i == n {
      MergeKeepsAbsent(b, a[..n], k);
    } else {
      MergeSectionEntry(b, a[..n], k, ps, i);
    }
  }

  /** A file holding only scalars is stored into `b` pair by pair. */
  lemma {:induction false} MergeScalarsOnly(b: Params, a: Params)
    requires forall i :: 0 <= i < |a| ==> a[i].1.Str?
    ensures Merge(b, a) == Returned(PutAll(b, a))
    decreases |a|
  {
    if a != [] {
      var front := a[..|a| - 1];
      forall i | 0 <= i < |front| ensures front[i].1.Str? {
        assert front[i] == a[i];
      }
      MergeScalarsOnly(b, front);
      MergeScalarStep(b, a);
    }
  }

  lemma MergeScalarStep(b: Params, a: Params)
    requires a != [] && a[|a| - 1].1.Str?
    requires Merge(b, a[..|a| - 1]) == Returned(PutAll(b, a[..|a| - 1]))
    ensures Merge(b, a) == Returned(PutAll(b, a))
  {
    var n := |a| - 1;
    var c := PutAll(b, a[..n]);
    assert MergeEntry(c, a[n].0, a[n].1) == Returned(Put(c, a[n].0, a[n].1));
  }

  // ---------------------------------------------------------------------
  // initialize and parse_config_keys
  // ---------------------------------------------------------------------

  /** The files initialize reads: the default first, then the user's. */
  function ConfigPaths(files: seq<string>): (ps: seq<string>)
    ensures |ps| == |files| + 1 && ps[0] == DefaultConfigs[0] && ps[1..] == files
  {
    DefaultConfigs + files
  }

  /** `paths.map { ParseConfig::new(f) }`: all files are parsed before any is
      merged, and one that ParseConfig refuses aborts the constructor. */
  function ParseAll(env: Env, paths: seq<string>): (r: Attempt<seq<Params>>)
    ensures r.Returned? <==> forall i :: 0 <= i < |paths| ==> ParseFile(env, paths[i]).Some?
    ensures r.Returned? ==> |r.value| == |paths|
    ensures r.Returned? ==> forall i :: 0 <= i < |paths| ==> r.value[i] == ParseFile(env, paths[i]).value
    decreases |paths|
  {
    if paths == [] then Returned([])
    else
      var n := |paths| - 1;
      assert forall i :: 0 <= i < n ==> paths[..n][i] == paths[i];
      match ParseAll(env, paths[..n])
      case Raised => Raised
      case Returned(cs) =>
        match ParseFile(env, paths[n])
        case None => Raised
        case Some(c) => Returned(cs + [c])
  }

  /** `.each { |cur| deep_merge(cur.params, @config) }`. */
  function MergeAll(acc: Params, cs: seq<Params>): Attempt<Params>
    decreases |cs|
  {
    if cs == [] then Returned(acc)
    else match MergeAll(acc, cs[..|cs| - 1])
      case Raised => Raised
      case Returned(c) => Merge(c, cs[|cs| - 1])
  }

  lemma {:induction false} MergeAllRaisedPrefix(acc: Params, cs: seq<Params>, i: nat)
    requires i <= |cs| && MergeAll(acc, cs[..i]).Raised?
    ensures MergeAll(acc, cs).Raised?
    decreases |cs|
  {
    if i < |cs| {
      var n := |cs| - 1;
      assert cs[..n][..i] == cs[..i];
      MergeAllRaisedPrefix(acc, cs[..n], i);
    } else {
      assert cs[..i] == cs;
    }
  }

  /** Later files override earlier ones on scalar keys: the value of `k` is
      the last one given it by the last file that mentions `k`. */
  lemma {:induction false} LaterFileWins(acc: Params, cs: seq<Params>, k: string, s: string, j: nat)
    requires j < |cs| && LastGet(cs[j], k) == Some(Str(s))
    requires forall j', i :: j < j' < |cs| && 0 <= i < |cs[j']| ==> cs[j'][i].0 != k
    requires MergeAll(acc, cs).Returned?
    ensures Get(MergeAll(acc, cs).value, k) == Some(Str(s))
    decreases |cs|
  {
    var n := |cs| - 1;
    assert MergeAll(acc, cs[..n]).Returned?;
    var c := MergeAll(acc, cs[..n]).value;
    if j == n {
      MergeScalarWins(c, cs[n], k, s);
    } else {
      assert forall j' :: 0 <= j' < n ==> cs[..n][j'] == cs[j'];
      LaterFileWins(acc, cs[..n], k, s, j);
      MergeKeepsAbsent(c, cs[n], k);
    }
  }

  /** The controls the "controls" section defines: each entry becomes a
      control whose pattern is the entry's value; a missing "controls" key,
      or one holding a scalar, raises NoMethodError. */
  function ControlsOf(c: Params): (r: Attempt<seq<Control>>)
    ensures r.Returned? <==> Get(c, "controls").Some? && Get(c, "controls").value.Section?
    ensures r.Returned? ==>
              var ps := Get(c, "controls").value.pairs;
              |r.value| == |ps| && forall i :: 0 <= i < |ps| ==> r.value[i].name == ps[i].0 && r.value[i].pattern == ps[i].1
  {
    match Get(c, "controls")
    case None => Raised
    case Some(x) =>
      if x.Str? then Raised
      else
        var ps := x.pairs;
        Returned(seq(|ps|, i requires 0 <= i < |ps| => Control(ps[i].0, ps[i].1)))
  }

  /** parse_config_keys: overwrites each entry of "controls" with its pattern. */
  method ParseConfigKeys(c: Params) returns (r: Attempt<seq<Control>>)
    ensures r == ControlsOf(c)
  {
    var x := Get(c, "controls");
    if x.None? || x.value.Str? {
      return Raised;
    }
    var ps := x.value.pairs;
    var controls: seq<Control> := [];
    for i := 0 to |ps|
      invariant |controls| == i
      invariant forall j :: 0 <= j < i ==> controls[j] == Control(ps[j].0, ps[j].1)
    {
      controls := controls + [Control(ps[i].0, ps[i].1)];
    }
    assert controls == seq(|ps|, i requires 0 <= i < |ps| => Control(ps[i].0, ps[i].1));
    return Returned(controls);
  }

  /** What initialize leaves in `@config`: the merged parameters and the
      controls its "controls" section defines. */
  datatype Config = Config(params: Params, controls: seq<Control>)

  /** The merged parameters of the default file and `files`, in that order. */
  function LoadParams(env: Env, files: seq<string>): Attempt<Params> {
    match ParseAll(env, ConfigPaths(files))
    case Raised => Raised
    case Returned(cs) => MergeAll([], cs)
  }

  function LoadConfig(env: Env, files: seq<string>): Attempt<Config> {
    match LoadParams(env, files)
    case Raised => Raised
    case Returned(c) =>
      match ControlsOf(c)
      case Raised => Raised
      case Returned(controls) => Returned(Config(c, controls))
  }

  /** One turn of initialize's merge loop: the next file is merged into
      what the earlier ones built, and a raise there ends the loading. */
  lemma MergeAllNext(acc: Params, cs: seq<Params>, i: nat, config: Params)
    requires i < |cs| && MergeAll(acc, cs[..i]) == Returned(config)
    ensures MergeAll(acc, cs[..i + 1]) == Merge(config, cs[i])
    ensures Merge(config, cs[i]).Raised? ==> MergeAll(acc, cs).Raised?
  {
    assert cs[..i + 1][..i] == cs[..i];
    if Merge(config, cs[i]).Raised? {
      MergeAllRaisedPrefix(acc, cs, i + 1);
    }
  }

  /** initialize: parse every file, merge them in order into an empty
      `@config`, then turn its controls into patterns. */
  method Initialize(env: Env, files: seq<string>) returns (r: Attempt<Config>)
    ensures r == LoadConfig(env, files)
  {
    var parsed := ParseAll(env, ConfigPaths(files));
    if parsed.Raised? {
      return Raised;
    }
    var cs := parsed.value;
    var config: Params := [];
    var i := 0;
    while i < |cs|
      invariant 0 <= i <= |cs|
      invariant MergeAll([], cs[..i]) == Returned(config)
    {
      var next := DeepMerge(cs[i], config);
      MergeAllNext([], cs, i, config);
      if next.Raised? {
        return Raised;
      }
      config := next.value;
      i := i + 1;
    }
    assert cs[..i] == cs;
    var controls := ParseConfigKeys(config);
    if controls.Raised? {
      return Raised;
    }
    return Returned(Config(config, controls.value));
  }

  /** The default file is read first and the user's files after it, so a
      scalar key takes its value from the last file that mentions it. */
  lemma LoadLaterFileWins(env: Env, files: seq<string>, k: string, s: string, j: nat)
    requires LoadParams(env, files).Returned?
    requires j <= |files|
    requires var paths := ConfigPaths(files);
             ParseFile(env, paths[j]).Some? && LastGet(ParseFile(env, paths[j]).value, k) == Some(Str(s))
    requires forall j' :: j < j' <= |files| ==>
               (ParseFile(env, ConfigPaths(files)[j']).Some? &&
                forall i :: 0 <= i < |ParseFile(env, ConfigPaths(files)[j']).value| ==> ParseFile(env, ConfigPaths(files)[j']).value[i].0 != k)
    ensures Get(LoadParams(env, files).value, k) == Some(Str(s))
  {
    var cs := ParseAll(env, ConfigPaths(files)).value;
    LaterFileWins([], cs, k, s, j);
  }
}
