/** Ruby's `map { ... }.compact` and its complement, on sequences. */
module Seqs {
  import opened Wrappers

  /** `s.map(f).compact`: the non-nil results of `f`, in the order of `s`. */
  function FilterMap<A, B>(s: seq<A>, f: A -> Option<B>): (r: seq<B>)
    ensures |r| <= |s|
    ensures |r| == |s| <==> forall i :: 0 <= i < |s| ==> f(s[i]).Some?
    ensures forall j :: 0 <= j < |r| ==> exists i :: 0 <= i < |s| && f(s[i]) == Some(r[j])
  {
    if s == [] then []
    else
      var rest := FilterMap(s[1..], f);
      assert forall j :: 0 <= j < |rest| ==> exists i :: 0 <= i < |s| && f(s[i]) == Some(rest[j]) by {
        forall j | 0 <= j < |rest| ensures exists i :: 0 <= i < |s| && f(s[i]) == Some(rest[j]) {
          var i :| 0 <= i < |s[1..]| && f(s[1..][i]) == Some(rest[j]);
          assert f(s[i + 1]) == Some(rest[j]);
        }
      }
      match f(s[0])
      case Some(y) => [y] + rest
      case None =>
        assert |rest| < |s| by {
          if |rest| == |s| - 1 {
            assert forall i :: 0 <= i < |s[1..]| ==> f(s[1..][i]).Some?;
          }
        }
        rest
  }

  /** The elements of `s` for which `f` is nil, in order and unchanged. */
  function Rejected<A, B>(s: seq<A>, f: A -> Option<B>): (r: seq<A>)
    ensures |r| <= |s|
    ensures forall x :: x in r ==> x in s && f(x).None?
  {
    if s == [] then []
    else if f(s[0]).None? then [s[0]] + Rejected(s[1..], f)
    else Rejected(s[1..], f)
  }

  /** Every rejected element of `s` lands in `Rejected(s, f)`. */
  lemma {:induction false} RejectedComplete<A, B>(s: seq<A>, f: A -> Option<B>, x: A)
    requires x in s && f(x).None?
    ensures x in Rejected(s, f)
  {
    if s[0] != x {
      assert x in s[1..];
      RejectedComplete(s[1..], f, x);
    }
  }

  /** The two halves of a partition account for every element exactly once. */
  lemma {:induction false} PartitionSizes<A, B>(s: seq<A>, f: A -> Option<B>)
    ensures |FilterMap(s, f)| + |Rejected(s, f)| == |s|
  {
    if s != [] {
      PartitionSizes(s[1..], f);
    }
  }

  /** Filtering is a homomorphism over concatenation: it keeps the input's order. */
  lemma {:induction false} FilterMapAppend<A, B>(s: seq<A>, t: seq<A>, f: A -> Option<B>)
    ensures FilterMap(s + t, f) == FilterMap(s, f) + FilterMap(t, f)
  {
    if s != [] {
      assert (s + t)[1..] == s[1..] + t;
      FilterMapAppend(s[1..], t, f);
    } else {
      assert s + t == t;
    }
  }

  lemma {:induction false} RejectedAppend<A, B>(s: seq<A>, t: seq<A>, f: A -> Option<B>)
    ensures Rejected(s + t, f) == Rejected(s, f) + Rejected(t, f)
  {
    if s != [] {
      assert (s + t)[1..] == s[1..] + t;
      RejectedAppend(s[1..], t, f);
    } else {
      assert s + t == t;
    }
  }

  /** Ruby's `compact`: the non-nil entries, in order. */
  function Compact<T>(s: seq<Option<T>>): (r: seq<T>)
    ensures |r| <= |s|
  {
    if s == [] then []
    else (if s[0].Some? then [s[0].value] else []) + Compact(s[1..])
  }

  /** Ruby's `map`. */
  function Map<A, B>(s: seq<A>, f: A -> B): (r: seq<B>)
    ensures |r| == |s| && forall i :: 0 <= i < |s| ==> r[i] == f(s[i])
  {
    seq(|s|, i requires 0 <= i < |s| => f(s[i]))
  }

  /** `s.map(f).compact`, computed in two steps as Ruby does, is `FilterMap`. */
  lemma {:induction false} CompactMap<A, B>(s: seq<A>, f: A -> Option<B>)
    ensures Compact(Map(s, f)) == FilterMap(s, f)
  {
    if s != [] {
      assert Map(s, f)[1..] == Map(s[1..], f);
      CompactMap(s[1..], f);
    }
  }

  /** Two blocks that agree on the elements of `s` filter it alike. */
  lemma {:induction false} FilterMapPointwise<A, B>(s: seq<A>, f: A -> Option<B>, g: A -> Option<B>)
    requires forall i :: 0 <= i < |s| ==> f(s[i]) == g(s[i])
    ensures FilterMap(s, f) == FilterMap(s, g)
  {
    if s != [] {
      assert f(s[0]) == g(s[0]);
      FilterMapPointwise(s[1..], f, g);
    }
  }

  /** Rejecting by `f` and then by `g` keeps what neither takes. */
  lemma {:induction false} RejectedTwice<A, B, C, D>(s: seq<A>, f: A -> Option<B>, g: A -> Option<C>, h: A -> Option<D>)
    requires forall i :: 0 <= i < |s| ==> (h(s[i]).None? <==> f(s[i]).None? && g(s[i]).None?)
    ensures Rejected(Rejected(s, f), g) == Rejected(s, h)
  {
    if s != [] {
      RejectedTwice(s[1..], f, g, h);
      if f(s[0]).None? {
        assert Rejected(s, f) == [s[0]] + Rejected(s[1..], f);
        assert ([s[0]] + Rejected(s[1..], f))[1..] == Rejected(s[1..], f);
      }
    }
  }

  /** What `g` takes from the leftovers of `f` is what `g` takes from the
      elements `f` does not. */
  lemma {:induction false} FilterMapOfRejected<A, B, C>(s: seq<A>, f: A -> Option<B>, g: A -> Option<C>, h: A -> Option<C>)
    requires forall i :: 0 <= i < |s| ==> h(s[i]) == if f(s[i]).None? then g(s[i]) else None
    ensures FilterMap(Rejected(s, f), g) == FilterMap(s, h)
  {
    if s != [] {
      FilterMapOfRejected(s[1..], f, g, h);
      if f(s[0]).None? {
        assert Rejected(s, f) == [s[0]] + Rejected(s[1..], f);
        assert ([s[0]] + Rejected(s[1..], f))[1..] == Rejected(s[1..], f);
      }
    }
  }
}
