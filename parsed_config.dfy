/** What the ParseConfig library hands back for a parsed file: its `params`
    hash. Top-level `key = value` lines become strings, `[section]` blocks
    become hashes of strings. Ruby hashes keep insertion order, so both levels
    are ordered association lists. */
module ParsedConfig {
  import opened Wrappers
  import opened Text

  datatype Value = Str(s: string) | Section(pairs: seq<(string, string)>)

  type Params = seq<(string, Value)>

  /** Ruby's `h[k]` for a hash given as an association list. */
  function Get<V>(m: seq<(string, V)>, k: string): (r: Option<V>)
    ensures r.None? <==> forall i :: 0 <= i < |m| ==> m[i].0 != k
    ensures r.Some? ==> exists i :: 0 <= i < |m| && m[i] == (k, r.value)
  {
    if m == [] then None
    else if m[0].0 == k then Some(m[0].1)
    else
      var r := Get(m[1..], k);
      assert forall i :: 1 <= i < |m| ==> m[i] == m[1..][i - 1];
      r
  }

  /** Ruby's `h[k] = v`: an existing key keeps its place and takes the new
      value, a new key is appended. */
  function Put<V>(m: seq<(string, V)>, k: string, v: V): (r: seq<(string, V)>)
    ensures Get(r, k) == Some(v)
    ensures forall k' {:trigger Get(r, k')} :: k' != k ==> Get(r, k') == Get(m, k')
    ensures Get(m, k).Some? ==> |r| == |m| && forall i :: 0 <= i < |m| ==> r[i].0 == m[i].0
    ensures Get(m, k).None? ==> r == m + [(k, v)]
  {
    if m == [] then [(k, v)]
    else if m[0].0 == k then [(k, v)] + m[1..]
    else
      var rest := Put(m[1..], k, v);
      var r := [m[0]] + rest;
      assert r[0] == m[0] && r[1..] == rest;
      assert m == [m[0]] + m[1..];
      assert Get(m, k) == Get(m[1..], k);
      r
  }

  /** The value of the LAST entry for `k`: what a sequence of `Put`s leaves behind. */
  function LastGet<V>(m: seq<(string, V)>, k: string): (r: Option<V>)
    ensures r.None? <==> forall i :: 0 <= i < |m| ==> m[i].0 != k
  {
    if m == [] then None
    else if m[|m| - 1].0 == k then Some(m[|m| - 1].1)
    else
      var r := LastGet(m[..|m| - 1], k);
      assert forall i :: 0 <= i < |m| - 1 ==> m[i] == m[..|m| - 1][i];
      r
  }

  /** A key that is present, or the one just stored, is present afterwards. */
  lemma PutKeepsKey<V>(m: seq<(string, V)>, k: string, v: V, k': string)
    requires k' == k || Get(m, k').Some?
    ensures Get(Put(m, k, v), k').Some?
  {
  }

  /** Storing every pair of `ps`, in order, into `m`. */
  function PutAll<V>(m: seq<(string, V)>, ps: seq<(string, V)>): seq<(string, V)> {
    if ps == [] then m
    else Put(PutAll(m, ps[..|ps| - 1]), ps[|ps| - 1].0, ps[|ps| - 1].1)
  }

  /** After `PutAll`, a key of `ps` holds its last value in `ps`; every other
      key keeps the value it had. */
  lemma {:induction false} PutAllGet<V>(m: seq<(string, V)>, ps: seq<(string, V)>, k: string)
    ensures Get(PutAll(m, ps), k) == if LastGet(ps, k).Some? then LastGet(ps, k) else Get(m, k)
  {
    if ps != [] {
      PutAllGet(m, ps[..|ps| - 1], k);
    }
  }

  /** Ruby's `x[k]` where `x` is itself the result of `params[section]`:
      nil raises NoMethodError, a String answers with `k` when `k` is a
      substring of it (String#[] with a string index) and a Hash looks `k` up. */
  function Index(x: Option<Value>, k: string): (r: Attempt<Option<string>>)
    ensures x.None? <==> r.Raised?
    ensures x.Some? && x.value.Section? ==> r == Returned(Get(x.value.pairs, k))
    ensures x.Some? && x.value.Str? ==> r == Returned(if Occurs(x.value.s, k) then Some(k) else None)
  {
    match x
    case None => Raised
    case Some(Str(s)) => Returned(if Occurs(s, k) then Some(k) else None)
    case Some(Section(ps)) => Returned(Get(ps, k))
  }
}
