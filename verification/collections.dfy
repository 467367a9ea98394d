/**
 Small facts about sequences, sets and maps that the graph and colouring
 modules rely on: distinctness, cardinality bounds, the maximum of a finite
 set of naturals, and a pigeonhole principle.
 */
module Collections {

  datatype Option<+T> = None | Some(value: T)

  datatype Result<+T, +E> = Success(value: T) | Failure(error: E)

  /** No element occurs twice in `xs`. */
  ghost predicate Distinct<T>(xs: seq<T>) {
    forall i, j :: 0 <= i < j < |xs| ==> xs[i] != xs[j]
  }

  /** A sequence without repeats has as many elements as its set. */
  lemma {:induction false} DistinctCard<T>(xs: seq<T>)
    requires Distinct(xs)
    ensures |set x | x in xs| == |xs|
  {
    if |xs| > 0 {
      var init := xs[..|xs| - 1];
      var last := xs[|xs| - 1];
      assert Distinct(init);
      DistinctCard(init);
      assert (set x | x in xs) == (set x | x in init) + {last};
      assert last !in init;
    }
  }

  /** A subset is no larger than its superset. */
  lemma {:induction false} SubsetCard<T>(a: set<T>, b: set<T>)
    requires a <= b
    ensures |a| <= |b|
  {
    if a != {} {
      var x :| x in a;
      SubsetCard(a - {x}, b - {x});
    }
  }

  /** A subset that is at least as large as its superset is the superset. */
  lemma SubsetFull<T>(a: set<T>, b: set<T>)
    requires a <= b
    requires |a| >= |b|
    ensures a == b
  {
    if a != b {
      assert exists x :: x in b && x !in a;
      var x :| x in b && x !in a;
      SubsetCard(a, b - {x});
    }
  }

  /** The naturals below `k`. */
  function Below(k: nat): (r: set<nat>)
    ensures forall j: nat :: j in r <==> j < k
    ensures |r| == k
  {
    if k == 0 then {} else Below(k - 1) + {k - 1}
  }

  /** A set holding every natural below `k` has at least `k` elements. */
  lemma PrefixBound(used: set<nat>, k: nat)
    requires forall j :: 0 <= j < k ==> j in used
    ensures k <= |used|
  {
    assert Below(k) <= used;
    SubsetCard(Below(k), used);
  }

  /** Looking a set of keys up in a map never yields more values than keys. */
  lemma {:induction false} ImageCard<K>(a: set<K>, m: map<K, nat>, image: set<nat>)
    requires forall y :: y in image ==> exists k :: k in a && k in m && m[k] == y
    ensures |image| <= |a|
  {
    if a != {} {
      var x :| x in a;
      var rest := if x in m then image - {m[x]} else image;
      forall y | y in rest
        ensures exists k :: k in a - {x} && k in m && m[k] == y
      {
        var k :| k in a && k in m && m[k] == y;
        assert k != x;
      }
      ImageCard(a - {x}, m, rest);
      if x in m {
        SubsetCard(image, rest + {m[x]});
      }
    } else {
      assert image == {};
    }
  }

  lemma {:induction false} MaxExists(s: set<nat>)
    requires s != {}
    ensures exists m :: m in s && forall x :: x in s ==> x <= m
  {
    var y :| y in s;
    if s != {y} {
      MaxExists(s - {y});
      var m :| m in s - {y} && forall x :: x in s - {y} ==> x <= m;
      var top := if y <= m then m else y;
      forall x | x in s
        ensures x <= top
      {
        if x != y {
          assert x in s - {y};
        }
      }
      assert top in s;
    } else {
      forall x | x in s
        ensures x <= y
      {
      }
    }
  }

  /** The largest element of a non-empty finite set of naturals (Python `max`). */
  function MaxOf(s: set<nat>): (m: nat)
    requires s != {}
    ensures m in s
    ensures forall x :: x in s ==> x <= m
  {
    MaxExists(s);
    var m :| m in s && forall x :: x in s ==> x <= m;
    m
  }

  /** More than `bound` naturals, all below `bound`, cannot be pairwise different. */
  lemma Pigeonhole(xs: seq<nat>, bound: nat)
    requires |xs| > bound
    requires forall i :: 0 <= i < |xs| ==> xs[i] < bound
    ensures exists i, j :: 0 <= i < j < |xs| && xs[i] == xs[j]
  {
    if forall i, j :: 0 <= i < j < |xs| ==> xs[i] != xs[j] {
      assert Distinct(xs);
      DistinctCard(xs);
      var values := set x | x in xs;
      assert values <= Below(bound);
      SubsetCard(values, Below(bound));
    }
  }
}
