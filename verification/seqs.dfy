/** Order-preserving sequence operations shared by the filters: the
    JavaScript `Array.prototype.filter`, lodash `_.flatten` and `_.uniq`. */
module Seqs {

  /** `a` is obtained from `b` by deleting elements, keeping the order of the rest. */
  predicate IsSubseq<T(==)>(a: seq<T>, b: seq<T>)
    decreases |b|
  {
    |a| == 0 || (|b| > 0 && ((a[0] == b[0] && IsSubseq(a[1..], b[1..])) || IsSubseq(a, b[1..])))
  }

  /** No element occurs twice. */
  predicate NoDup<T(==)>(xs: seq<T>) {
    forall i, j :: 0 <= i < j < |xs| ==> xs[i] != xs[j]
  }

  /** `a` is an initial part of `b`. */
  predicate IsPrefix<T(==)>(a: seq<T>, b: seq<T>) {
    |a| <= |b| && b[..|a|] == a
  }

  lemma PrefixTrans<T>(a: seq<T>, b: seq<T>, c: seq<T>)
    requires IsPrefix(a, b) && IsPrefix(b, c)
    ensures IsPrefix(a, c)
  {
    assert c[..|a|] == c[..|b|][..|a|];
  }

  lemma PrefixAppend<T>(a: seq<T>, b: seq<T>)
    ensures IsPrefix(a, a + b)
  {
    assert (a + b)[..|a|] == a;
  }

  lemma {:induction false} SubseqRefl<T>(a: seq<T>)
    ensures IsSubseq(a, a)
  {
    if |a| > 0 {
      SubseqRefl(a[1..]);
    }
  }

  lemma {:induction false} SubseqTrans<T>(a: seq<T>, b: seq<T>, c: seq<T>)
    requires IsSubseq(a, b) && IsSubseq(b, c)
    ensures IsSubseq(a, c)
    decreases |c|
  {
    if |a| == 0 {
    } else if |c| == 0 {
    } else if |b| > 0 && b[0] == c[0] && IsSubseq(b[1..], c[1..]) {
      if a[0] == b[0] && IsSubseq(a[1..], b[1..]) {
        SubseqTrans(a[1..], b[1..], c[1..]);
      } else {
        SubseqTrans(a, b[1..], c[1..]);
      }
    } else {
      SubseqTrans(a, b, c[1..]);
    }
  }

  lemma {:induction false} SubseqMembers<T>(a: seq<T>, b: seq<T>)
    requires IsSubseq(a, b)
    ensures forall x :: x in a ==> x in b
    decreases |b|
  {
    if |a| > 0 {
      assert a == [a[0]] + a[1..];
      if a[0] == b[0] && IsSubseq(a[1..], b[1..]) {
        SubseqMembers(a[1..], b[1..]);
        assert b == [b[0]] + b[1..];
      } else {
        SubseqMembers(a, b[1..]);
      }
    }
  }

  /** Deleting from two pieces independently deletes from their concatenation. */
  lemma {:induction false} SubseqConcat<T>(a: seq<T>, b: seq<T>, c: seq<T>, d: seq<T>)
    requires IsSubseq(a, c) && IsSubseq(b, d)
    ensures IsSubseq(a + b, c + d)
    decreases |c|
  {
    if |c| == 0 {
      assert a + b == b && c + d == d;
    } else if |a| > 0 && a[0] == c[0] && IsSubseq(a[1..], c[1..]) {
      SubseqConcat(a[1..], b, c[1..], d);
      assert (a + b)[1..] == a[1..] + b && (c + d)[1..] == c[1..] + d;
    } else {
      SubseqConcat(a, b, c[1..], d);
      assert (c + d)[1..] == c[1..] + d;
    }
  }

  /** Keeps the elements satisfying `p`, in order (`Array.prototype.filter`). */
  function Filter<T(!new)>(xs: seq<T>, p: T -> bool): (r: seq<T>)
    ensures |r| <= |xs|
    ensures forall i :: 0 <= i < |r| ==> p(r[i])
  {
    if |xs| == 0 then []
    else
      var rest := Filter(xs[1..], p);
      if p(xs[0]) then [xs[0]] + rest else rest
  }

  /** Each element is kept as often as it occurs, or dropped entirely. */
  lemma {:induction false} FilterCount<T(!new)>(xs: seq<T>, p: T -> bool)
    ensures forall x :: multiset(Filter(xs, p))[x] == if p(x) then multiset(xs)[x] else 0
  {
    if |xs| > 0 {
      FilterCount(xs[1..], p);
      assert xs == [xs[0]] + xs[1..];
    }
  }

  lemma FilterMembers<T(!new)>(xs: seq<T>, p: T -> bool)
    ensures forall x :: x in Filter(xs, p) <==> x in xs && p(x)
  {
    var r := Filter(xs, p);
    FilterCount(xs, p);
    forall x
      ensures x in r <==> x in xs && p(x)
    {
      assert x in r <==> multiset(r)[x] > 0;
      assert x in xs <==> multiset(xs)[x] > 0;
    }
  }

  lemma {:induction false} FilterIsSubseq<T(!new)>(xs: seq<T>, p: T -> bool)
    ensures IsSubseq(Filter(xs, p), xs)
  {
    if |xs| > 0 {
      FilterIsSubseq(xs[1..], p);
      var rest := Filter(xs[1..], p);
      if p(xs[0]) {
        assert Filter(xs, p) == [xs[0]] + rest;
        assert ([xs[0]] + rest)[1..] == rest;
      }
    }
  }

  /** Two predicates that agree on the elements give the same filter. */
  lemma {:induction false} FilterCongruent<T(!new)>(xs: seq<T>, p: T -> bool, q: T -> bool)
    requires forall i :: 0 <= i < |xs| ==> p(xs[i]) == q(xs[i])
    ensures Filter(xs, p) == Filter(xs, q)
  {
    if |xs| > 0 {
      FilterCongruent(xs[1..], p, q);
    }
  }

  lemma {:induction false} FilterAll<T(!new)>(xs: seq<T>, p: T -> bool)
    requires forall i :: 0 <= i < |xs| ==> p(xs[i])
    ensures Filter(xs, p) == xs
  {
    if |xs| > 0 {
      FilterAll(xs[1..], p);
      assert xs == [xs[0]] + xs[1..];
    }
  }

  lemma {:induction false} FilterNone<T(!new)>(xs: seq<T>, p: T -> bool)
    requires forall i :: 0 <= i < |xs| ==> !p(xs[i])
    ensures Filter(xs, p) == []
  {
    if |xs| > 0 {
      FilterNone(xs[1..], p);
    }
  }

  /** One-level flattening (`_.flatten`). */
  function Flatten<T(!new)>(xss: seq<seq<T>>): (r: seq<T>)
    ensures forall x :: multiset(r)[x] == SumCount(xss, x)
  {
    if |xss| == 0 then [] else xss[0] + Flatten(xss[1..])
  }

  /** Total number of occurrences of `x` over all the lists. */
  ghost function SumCount<T>(xss: seq<seq<T>>, x: T): nat {
    if |xss| == 0 then 0 else multiset(xss[0])[x] + SumCount(xss[1..], x)
  }

  lemma {:induction false} FlattenMembers<T(!new)>(xss: seq<seq<T>>, x: T)
    ensures x in Flatten(xss) <==> exists i :: 0 <= i < |xss| && x in xss[i]
  {
    if |xss| > 0 {
      FlattenMembers(xss[1..], x);
      if x in Flatten(xss[1..]) {
        var i :| 0 <= i < |xss[1..]| && x in xss[1..][i];
        assert x in xss[i + 1];
      }
      if exists i :: 0 <= i < |xss| && x in xss[i] {
        var i :| 0 <= i < |xss| && x in xss[i];
        if i > 0 {
          assert x in xss[1..][i - 1];
        }
      }
    }
  }

  lemma FlattenEmpty<T(!new)>(xss: seq<seq<T>>)
    ensures |Flatten(xss)| == 0 <==> forall i :: 0 <= i < |xss| ==> |xss[i]| == 0
  {
  }

  /** Every element but `h`. */
  function Other<T(==)>(h: T): T -> bool {
    y => y != h
  }

  /** Keeps the first occurrence of every element (`_.uniq`, and the key
      order of a JavaScript object filled left to right). */
  function Dedupe<T(==,!new)>(xs: seq<T>): (r: seq<T>)
    ensures NoDup(r)
    ensures forall x :: x in r <==> x in xs
    ensures IsSubseq(r, xs)
    decreases |xs|
  {
    if |xs| == 0 then []
    else
      var head := xs[0];
      var rest := Filter(xs[1..], Other(head));
      FilterMembers(xs[1..], Other(head));
      FilterIsSubseq(xs[1..], Other(head));
      var d := Dedupe(rest);
      SubseqTrans(d, rest, xs[1..]);
      DedupeCons(head, d, xs);
      [head] + d
  }

  lemma DedupeCons<T>(head: T, d: seq<T>, xs: seq<T>)
    requires |xs| > 0 && xs[0] == head
    requires NoDup(d) && head !in d
    requires IsSubseq(d, xs[1..])
    requires forall x :: x in d <==> x in xs[1..] && x != head
    ensures NoDup([head] + d)
    ensures forall x :: x in [head] + d <==> x in xs
    ensures IsSubseq([head] + d, xs)
  {
    var r := [head] + d;
    assert r[1..] == d;
    forall i, j | 0 <= i < j < |r|
      ensures r[i] != r[j]
    {
      if i == 0 {
        assert r[j] == d[j - 1];
      } else {
        assert r[i] == d[i - 1] && r[j] == d[j - 1];
      }
    }
    assert xs == [xs[0]] + xs[1..];
  }

  lemma {:induction false} FilterAppend<T(!new)>(a: seq<T>, b: seq<T>, p: T -> bool)
    ensures Filter(a + b, p) == Filter(a, p) + Filter(b, p)
  {
    if |a| == 0 {
      assert a + b == b;
    } else {
      var ab := a + b;
      assert ab[0] == a[0] && ab[1..] == a[1..] + b;
      FilterAppend(a[1..], b, p);
      var l := Filter(a[1..], p);
      var r := Filter(b, p);
      if p(a[0]) {
        assert Filter(ab, p) == [a[0]] + (l + r);
        assert [a[0]] + (l + r) == ([a[0]] + l) + r;
      } else {
        assert Filter(ab, p) == l + r;
      }
    }
  }

  lemma DedupeUnfold<T(!new)>(a: seq<T>)
    requires |a| > 0
    ensures Dedupe(a) == [a[0]] + Dedupe(Filter(a[1..], Other(a[0])))
  {
  }

  /** The element after `a` is dropped by the filter of `a`'s head exactly
      when it equals that head. */
  lemma FilterSnoc<T(!new)>(a: seq<T>, x: T)
    requires |a| > 0
    ensures var ax := a + [x];
      |ax| > 0 && ax[0] == a[0]
      && Filter(ax[1..], Other(a[0])) == Filter(a[1..], Other(a[0])) + (if x == a[0] then [] else [x])
  {
    var ax := a + [x];
    assert ax[1..] == a[1..] + [x];
    FilterAppend(a[1..], [x], Other(a[0]));
    assert [x][1..] == [];
  }

  /** Deduplicating one more element appends it when it is new. */
  lemma {:induction false} DedupeSnoc<T(!new)>(a: seq<T>, x: T)
    ensures Dedupe(a + [x]) == Dedupe(a) + (if x in a then [] else [x])
    decreases |a|
  {
    var ax := a + [x];
    if |a| == 0 {
      assert ax == [x] && ax[1..] == [];
    } else {
      var h := a[0];
      var ft := Filter(a[1..], Other(h));
      DedupeUnfold(a);
      DedupeUnfold(ax);
      FilterSnoc(a, x);
      if x == h {
        assert ft + [] == ft;
        assert Dedupe(ax) == Dedupe(a);
        assert x in a;
      } else {
        DedupeSnoc(ft, x);
        FilterMembers(a[1..], Other(h));
        assert x in a <==> x in a[1..];
        var d := Dedupe(ft);
        var tail := if x in ft then [] else [x];
        assert Dedupe(ax) == [h] + (d + tail);
        assert [h] + (d + tail) == ([h] + d) + tail;
      }
    }
  }
}
