/**
 * The pandas relational operation that both feature scripts rely on:
 * `left.merge(right, on="GEOID", how="left")`. Rows are keyed by a string
 * (the GEOID); the key of a row is given by a function.
 */
module Frames {
  import opened Common

  /** The rows of `right` whose key is `k`, in their order. */
  function Matches<R(!new)>(right: seq<R>, key: R -> string, k: string): (ms: seq<R>)
    ensures |ms| <= |right|
    ensures forall x :: x in ms <==> x in right && key(x) == k
  {
    if right == [] then []
    else (if key(right[0]) == k then [right[0]] else []) + Matches(right[1..], key, k)
  }

  /**
   * `Matches` drops no row of key `k` and no duplicate of one: each row occurs
   * in the result as often as in `right` when its key is `k`, and not at all
   * otherwise; when every row has key `k` the result is `right` itself.
   */
  lemma {:induction false} MatchesCount<R(!new)>(right: seq<R>, key: R -> string, k: string)
    ensures var ms := Matches(right, key, k);
      && (forall x :: multiset(ms)[x] == if key(x) == k then multiset(right)[x] else 0)
      && ((forall x :: x in right ==> key(x) == k) ==> ms == right)
  {
    if right != [] {
      assert right == [right[0]] + right[1..];
      MatchesCount(right[1..], key, k);
    }
  }

  /** The first row of `right` whose key is `k`, if any. */
  function Find<R(!new)>(right: seq<R>, key: R -> string, k: string): (o: Option<R>)
    ensures o.Some? ==> o.value in right && key(o.value) == k
    ensures o.None? ==> forall x :: x in right ==> key(x) != k
  {
    if right == [] then None
    else if key(right[0]) == k then Some(right[0])
    else Find(right[1..], key, k)
  }

  /** No two rows of `s` share a key. */
  ghost predicate UniqueKeys<R>(s: seq<R>, key: R -> string)
  {
    forall i, j :: 0 <= i < j < |s| ==> key(s[i]) != key(s[j])
  }

  /** One left row joined with each of its matches. */
  function Pair<L, R>(l: L, ms: seq<R>): (r: seq<(L, Option<R>)>)
    ensures |r| == |ms|
    ensures forall i :: 0 <= i < |ms| ==> r[i] == (l, Some(ms[i]))
  {
    seq(|ms|, i requires 0 <= i < |ms| => (l, Some(ms[i])))
  }

  /** The merged rows of one left row: one per match, in order, or the row alone with a missing right side. */
  function MergedRows<L(!new), R(!new)>(l: L, right: seq<R>, lkey: L -> string, rkey: R -> string)
    : (b: seq<(L, Option<R>)>)
    ensures var ms := Matches(right, rkey, lkey(l));
      && |b| == (if ms == [] then 1 else |ms|)
      && (ms == [] ==> b == [(l, None)])
      && (forall i :: 0 <= i < |ms| ==> b[i] == (l, Some(ms[i])))
  {
    var ms := Matches(right, rkey, lkey(l));
    if ms == [] then [(l, None)] else Pair(l, ms)
  }

  /**
   * `left.merge(right, how="left")`: every left row, in order, joined with
   * each matching right row in order; a left row without a match appears once
   * with a missing right side.
   */
  function LeftMerge<L(!new), R(!new)>(left: seq<L>, right: seq<R>, lkey: L -> string, rkey: R -> string)
    : (m: seq<(L, Option<R>)>)
    ensures |m| >= |left|
  {
    if left == [] then []
    else MergedRows(left[0], right, lkey, rkey) + LeftMerge(left[1..], right, lkey, rkey)
  }

  /** The merged rows of `l` all start with `l`; they pair it with exactly its matches, or with nothing when it has none. */
  lemma MergedRowsExactly<L(!new), R(!new)>(l: L, right: seq<R>, lkey: L -> string, rkey: R -> string)
    ensures var b := MergedRows(l, right, lkey, rkey);
      && (forall p :: p in b ==> p.0 == l)
      && (forall x :: (l, Some(x)) in b <==> x in right && rkey(x) == lkey(l))
      && ((l, None) in b <==> Matches(right, rkey, lkey(l)) == [])
  {
    var b := MergedRows(l, right, lkey, rkey);
    var ms := Matches(right, rkey, lkey(l));
    forall p | p in b ensures p.0 == l && (ms != [] ==> p.1.Some?) {
      var i :| 0 <= i < |b| && b[i] == p;
    }
    forall x | x in ms ensures (l, Some(x)) in b {
      var i :| 0 <= i < |ms| && ms[i] == x;
      assert b[i] == (l, Some(x));
    }
    forall x | (l, Some(x)) in b ensures x in ms {
      var i :| 0 <= i < |b| && b[i] == (l, Some(x));
    }
  }

  /** A merged row is a merged row of some left row. */
  lemma {:induction false} LeftMergeFrom<L(!new), R(!new)>(
    left: seq<L>, right: seq<R>, lkey: L -> string, rkey: R -> string, p: (L, Option<R>))
    requires p in LeftMerge(left, right, lkey, rkey)
    ensures p.0 in left && p in MergedRows(p.0, right, lkey, rkey)
  {
    var b := MergedRows(left[0], right, lkey, rkey);
    var rest := LeftMerge(left[1..], right, lkey, rkey);
    assert LeftMerge(left, right, lkey, rkey) == b + rest;
    if p in b {
      MergedRowsExactly(left[0], right, lkey, rkey);
    } else {
      assert p in rest;
      LeftMergeFrom(left[1..], right, lkey, rkey, p);
      assert p.0 in left[1..];
    }
  }

  /** Every merged row of every left row is in the merge. */
  lemma LeftMergeHas<L(!new), R(!new)>(
    left: seq<L>, right: seq<R>, lkey: L -> string, rkey: R -> string, l: L, p: (L, Option<R>))
    requires l in left && p in MergedRows(l, right, lkey, rkey)
    ensures p in LeftMerge(left, right, lkey, rkey)
  {
    var i :| 0 <= i < |left| && left[i] == l;
    LeftMergeSplit(left, right, lkey, rkey, i);
  }

  /**
   * Every merged row comes from a left row; a left row is paired with exactly
   * the right rows of its key, and with a missing right side exactly when it
   * has none.
   */
  lemma LeftMergeExactly<L(!new), R(!new)>(left: seq<L>, right: seq<R>, lkey: L -> string, rkey: R -> string)
    ensures var m := LeftMerge(left, right, lkey, rkey);
      && (forall p :: p in m ==> p.0 in left)
      && (forall l, x :: (l, Some(x)) in m <==> l in left && x in right && rkey(x) == lkey(l))
      && (forall l :: (l, None) in m <==> l in left && Matches(right, rkey, lkey(l)) == [])
  {
    var m := LeftMerge(left, right, lkey, rkey);
    forall p | p in m ensures p.0 in left {
      LeftMergeFrom(left, right, lkey, rkey, p);
    }
    forall l, x ensures (l, Some(x)) in m <==> l in left && x in right && rkey(x) == lkey(l) {
      MergedRowsExactly(l, right, lkey, rkey);
      if (l, Some(x)) in m {
        LeftMergeFrom(left, right, lkey, rkey, (l, Some(x)));
      } else if l in left && x in right && rkey(x) == lkey(l) {
        LeftMergeHas(left, right, lkey, rkey, l, (l, Some(x)));
      }
    }
    forall l ensures (l, None) in m <==> l in left && Matches(right, rkey, lkey(l)) == [] {
      MergedRowsExactly(l, right, lkey, rkey);
      if (l, None) in m {
        LeftMergeFrom(left, right, lkey, rkey, (l, None));
      } else if l in left && Matches(right, rkey, lkey(l)) == [] {
        LeftMergeHas(left, right, lkey, rkey, l, (l, None));
      }
    }
  }

  /** The merge works row by row: merging a concatenation concatenates the merges, in order. */
  lemma {:induction false} LeftMergeAppend<L(!new), R(!new)>(
    a: seq<L>, c: seq<L>, right: seq<R>, lkey: L -> string, rkey: R -> string)
    ensures LeftMerge(a + c, right, lkey, rkey) == LeftMerge(a, right, lkey, rkey) + LeftMerge(c, right, lkey, rkey)
  {
    if a == [] {
      assert a + c == c;
    } else {
      assert (a + c)[0] == a[0] && (a + c)[1..] == a[1..] + c;
      LeftMergeAppend(a[1..], c, right, lkey, rkey);
    }
  }

  /**
   * Left row `i` contributes exactly its own merged rows (max(1, number of
   * matches) of them), after those of the rows before it and before those
   * of the rows after it.
   */
  lemma LeftMergeSplit<L(!new), R(!new)>(left: seq<L>, right: seq<R>, lkey: L -> string, rkey: R -> string, i: nat)
    requires i < |left|
    ensures LeftMerge(left, right, lkey, rkey)
      == LeftMerge(left[..i], right, lkey, rkey) + MergedRows(left[i], right, lkey, rkey)
         + LeftMerge(left[i + 1..], right, lkey, rkey)
  {
    assert left == left[..i] + ([left[i]] + left[i + 1..]);
    LeftMergeAppend(left[..i], [left[i]] + left[i + 1..], right, lkey, rkey);
    LeftMergeAppend([left[i]], left[i + 1..], right, lkey, rkey);
    assert [left[i]][1..] == [];
  }

  /** With unique right keys a key has at most one match, and it is the one `Find` returns. */
  lemma {:induction false} MatchesUnique<R(!new)>(right: seq<R>, key: R -> string, k: string)
    requires UniqueKeys(right, key)
    ensures var ms := Matches(right, key, k);
      (ms == [] <==> Find(right, key, k).None?)
      && (ms != [] ==> ms == [Find(right, key, k).value])
  {
    if right != [] {
      var tail := right[1..];
      assert UniqueKeys(tail, key) by {
        forall i, j | 0 <= i < j < |tail| ensures key(tail[i]) != key(tail[j]) {
          assert tail[i] == right[i + 1] && tail[j] == right[j + 1];
        }
      }
      MatchesUnique(tail, key, k);
      if key(right[0]) == k {
        assert Matches(tail, key, k) == [] by {
          forall x | x in tail ensures key(x) != k {
            var j :| 0 <= j < |tail| && tail[j] == x;
            assert right[j + 1] == x;
          }
        }
      }
    }
  }

  /** With unique right keys a left row yields exactly one merged row: itself with its match, if any. */
  lemma MergedRowsUnique<L(!new), R(!new)>(l: L, right: seq<R>, lkey: L -> string, rkey: R -> string)
    requires UniqueKeys(right, rkey)
    ensures MergedRows(l, right, lkey, rkey) == [(l, Find(right, rkey, lkey(l)))]
  {
    MatchesUnique(right, rkey, lkey(l));
  }

  /**
   * The left merge on a right table with unique keys keeps every left row
   * exactly once and in order, each joined with its match if there is one.
   */
  lemma {:induction false} LeftMergeOneToOne<L(!new), R(!new)>(
    left: seq<L>, right: seq<R>, lkey: L -> string, rkey: R -> string)
    requires UniqueKeys(right, rkey)
    ensures |LeftMerge(left, right, lkey, rkey)| == |left|
    ensures forall i :: 0 <= i < |left| ==>
      LeftMerge(left, right, lkey, rkey)[i] == (left[i], Find(right, rkey, lkey(left[i])))
  {
    if left != [] {
      MergedRowsUnique(left[0], right, lkey, rkey);
      LeftMergeOneToOne(left[1..], right, lkey, rkey);
      var rest := LeftMerge(left[1..], right, lkey, rkey);
      var m := LeftMerge(left, right, lkey, rkey);
      assert m == [(left[0], Find(right, rkey, lkey(left[0])))] + rest;
      forall i | 0 <= i < |left|
        ensures m[i] == (left[i], Find(right, rkey, lkey(left[i])))
      {
        if i > 0 {
          assert m[i] == rest[i - 1] && left[i] == left[1..][i - 1];
        }
      }
    }
  }
}
