/** Pairing of tag arguments and the overwrite-merge of those pairs into a
    parsed query dictionary. */
module Query {
  import opened Urls

  /** A `(name, value)` pair supplied to the tag. */
  type Pair = (string, string)

  /** Groups `name value name value …` into consecutive pairs. */
  function Pairs(args: seq<string>): (r: seq<Pair>)
    requires |args| % 2 == 0
    ensures 2 * |r| == |args|
    ensures forall i :: 0 <= i < |r| ==> r[i] == (args[2 * i], args[2 * i + 1])
    decreases |args|
  {
    if |args| == 0 then []
    else [(args[0], args[1])] + Pairs(args[2..])
  }

  /** Writes pairs back out as `name value name value …`. */
  function Flatten(pairs: seq<Pair>): (r: seq<string>)
    ensures |r| == 2 * |pairs|
    ensures forall i :: 0 <= i < |pairs| ==> r[2 * i] == pairs[i].0 && r[2 * i + 1] == pairs[i].1
    decreases |pairs|
  {
    if |pairs| == 0 then []
    else [pairs[0].0, pairs[0].1] + Flatten(pairs[1..])
  }

  /** Pairing loses nothing: flattening the pairs gives the arguments back. */
  lemma {:induction false} FlattenPairs(args: seq<string>)
    requires |args| % 2 == 0
    ensures Flatten(Pairs(args)) == args
    decreases |args|
  {
    if |args| > 0 {
      FlattenPairs(args[2..]);
      assert args == [args[0], args[1]] + args[2..];
    }
  }

  /** Pairing is the inverse of flattening. */
  lemma PairsFlatten(pairs: seq<Pair>)
    ensures Pairs(Flatten(pairs)) == pairs
  {
  }

  /** The names the pairs write. */
  function Names(pairs: seq<Pair>): (r: set<string>)
    ensures forall i :: 0 <= i < |pairs| ==> pairs[i].0 in r
    decreases |pairs|
  {
    if |pairs| == 0 then {}
    else Names(pairs[..|pairs| - 1]) + {pairs[|pairs| - 1].0}
  }

  /** Every name the pairs write is the name of some pair. */
  lemma {:induction false} NameHasPair(pairs: seq<Pair>, n: string)
    requires n in Names(pairs)
    ensures exists i :: 0 <= i < |pairs| && pairs[i].0 == n
    decreases |pairs|
  {
    var init := pairs[..|pairs| - 1];
    if n != pairs[|pairs| - 1].0 {
      NameHasPair(init, n);
      var i :| 0 <= i < |init| && init[i].0 == n;
      assert pairs[i].0 == n;
    }
  }

  /** Pair `i` writes `name` and no later pair writes it again. */
  predicate IsLastWrite(pairs: seq<Pair>, name: string, i: int)
  {
    && 0 <= i < |pairs|
    && pairs[i].0 == name
    && forall j :: i < j < |pairs| ==> pairs[j].0 != name
  }

  /** Assigns every pair into the dictionary in order, each one replacing
      whatever the key held. Keys no pair names keep their parsed values and
      no key is removed; which value a named key ends with is
      `OverrideLastWins`. */
  function Override(d: QueryDict, pairs: seq<Pair>): (r: QueryDict)
    ensures r.Keys == d.Keys + Names(pairs)
    ensures forall k :: k in d && k !in Names(pairs) ==> r[k] == d[k]
    decreases |pairs|
  {
    if |pairs| == 0 then d
    else
      var last := pairs[|pairs| - 1];
      Override(d, pairs[..|pairs| - 1])[last.0 := [last.1]]
  }

  /** Later pairs overwrite earlier ones: a named key holds the value of the
      last pair that writes it. */
  lemma {:induction false} OverrideLastWins(d: QueryDict, pairs: seq<Pair>, k: string)
    requires k in Names(pairs)
    ensures exists i :: IsLastWrite(pairs, k, i) && Override(d, pairs)[k] == [pairs[i].1]
    decreases |pairs|
  {
    var n := |pairs| - 1;
    var init := pairs[..n];
    if k == pairs[n].0 {
      assert IsLastWrite(pairs, k, n);
    } else {
      OverrideLastWins(d, init, k);
      var i :| IsLastWrite(init, k, i) && Override(d, init)[k] == [init[i].1];
      assert IsLastWrite(pairs, k, i);
    }
  }

  /** A name has at most one last write. */
  lemma LastWriteUnique(pairs: seq<Pair>, name: string, i: int, j: int)
    requires IsLastWrite(pairs, name, i) && IsLastWrite(pairs, name, j)
    ensures i == j
  {
  }

  /** Every pair that is the last to write its name decides that name's value. */
  lemma {:induction false} OverrideLastWrite(d: QueryDict, pairs: seq<Pair>, i: int)
    requires 0 <= i < |pairs| && IsLastWrite(pairs, pairs[i].0, i)
    ensures pairs[i].0 in Override(d, pairs)
    ensures Override(d, pairs)[pairs[i].0] == [pairs[i].1]
  {
    var k := pairs[i].0;
    OverrideLastWins(d, pairs, k);
    var j :| IsLastWrite(pairs, k, j) && Override(d, pairs)[k] == [pairs[j].1];
    LastWriteUnique(pairs, k, i, j);
  }

  /** A supplied name's value does not depend on the parsed query: whatever
      the key held before is overwritten. */
  lemma {:induction false} OverrideIgnoresOriginal(d1: QueryDict, d2: QueryDict, pairs: seq<Pair>, k: string)
    requires k in Names(pairs)
    ensures Override(d1, pairs)[k] == Override(d2, pairs)[k]
  {
    OverrideLastWins(d1, pairs, k);
    var i :| IsLastWrite(pairs, k, i) && Override(d1, pairs)[k] == [pairs[i].1];
    OverrideLastWrite(d2, pairs, i);
  }

  /** One more pair is one more assignment on top of the earlier merge. */
  lemma OverrideSnoc(d: QueryDict, pairs: seq<Pair>, last: Pair)
    ensures Override(d, pairs + [last]) == Override(d, pairs)[last.0 := [last.1]]
  {
  }

  /** Merging `p` and then `q` is merging `p + q` in one pass. */
  lemma {:induction false} OverrideAppend(d: QueryDict, p: seq<Pair>, q: seq<Pair>)
    ensures Override(Override(d, p), q) == Override(d, p + q)
    decreases |q|
  {
    if |q| == 0 {
      assert p + q == p;
    } else {
      var q', last := q[..|q| - 1], q[|q| - 1];
      assert q == q' + [last];
      assert p + q == (p + q') + [last];
      OverrideSnoc(Override(d, p), q', last);
      OverrideSnoc(d, p + q', last);
      OverrideAppend(d, p, q');
    }
  }

  /** Merging the same pairs twice changes nothing more. */
  lemma {:induction false} OverrideIdempotent(d: QueryDict, pairs: seq<Pair>)
    ensures Override(Override(d, pairs), pairs) == Override(d, pairs)
  {
    var a := Override(d, pairs);
    var b := Override(a, pairs);
    forall k | k in Names(pairs) ensures b[k] == a[k] {
      OverrideIgnoresOriginal(a, d, pairs, k);
    }
  }

  /** Pairs that write disjoint names can be merged in either order. */
  lemma {:induction false} OverrideDisjointCommute(d: QueryDict, p: seq<Pair>, q: seq<Pair>)
    requires Names(p) !! Names(q)
    ensures Override(d, p + q) == Override(d, q + p)
  {
    OverrideAppend(d, p, q);
    OverrideAppend(d, q, p);
    var dp, dq := Override(d, p), Override(d, q);
    var pq, qp := Override(dp, q), Override(dq, p);
    assert pq.Keys == qp.Keys;
    forall k | k in Names(q) ensures pq[k] == qp[k] {
      OverrideIgnoresOriginal(dp, d, q, k);
    }
    forall k | k in Names(p) ensures pq[k] == qp[k] {
      OverrideIgnoresOriginal(dq, d, p, k);
    }
    assert forall k :: k in pq ==> pq[k] == qp[k];
  }

  /** The names the tag arguments supply: every argument at an even index. */
  function ArgNames(args: seq<string>): set<string>
  {
    set i | 0 <= i < |args| && i % 2 == 0 :: args[i]
  }

  /** Argument `i` is a name (an even index with a value after it) and no
      later name repeats it. */
  predicate IsLastName(args: seq<string>, i: int)
  {
    && 0 <= i < |args| - 1
    && i % 2 == 0
    && forall j :: i < j < |args| && j % 2 == 0 ==> args[j] != args[i]
  }

  lemma {:induction false} PairNameIsArgName(args: seq<string>, i: int)
    requires |args| % 2 == 0 && 0 <= i < |args| / 2
    ensures Pairs(args)[i].0 in ArgNames(args)
  {
    var j := 2 * i;
    assert 0 <= j < |args| && j % 2 == 0;
    assert Pairs(args)[i].0 == args[j];
  }

  lemma {:induction false} ArgNameIsPairName(args: seq<string>, i: int)
    requires |args| % 2 == 0 && 0 <= i < |args| && i % 2 == 0
    ensures args[i] in Names(Pairs(args))
  {
    var h := i / 2;
    assert 2 * h == i;
    assert Pairs(args)[h].0 == args[i];
  }

  lemma {:induction false} NamesOfPairs(args: seq<string>)
    requires |args| % 2 == 0
    ensures Names(Pairs(args)) == ArgNames(args)
  {
    var ps := Pairs(args);
    forall n | n in Names(ps) ensures n in ArgNames(args) {
      NameHasPair(ps, n);
      var i :| 0 <= i < |ps| && ps[i].0 == n;
      PairNameIsArgName(args, i);
    }
    forall n | n in ArgNames(args) ensures n in Names(ps) {
      var i :| 0 <= i < |args| && i % 2 == 0 && args[i] == n;
      ArgNameIsPairName(args, i);
    }
  }

  /** The name at argument `i`, if no later name repeats it, ends with the
      argument that follows it as its value. */
  lemma {:induction false} LastNameWins(d: QueryDict, args: seq<string>, i: int)
    requires |args| % 2 == 0 && IsLastName(args, i)
    ensures args[i] in Override(d, Pairs(args))
    ensures Override(d, Pairs(args))[args[i]] == [args[i + 1]]
  {
    var ps := Pairs(args);
    var h := i / 2;
    assert 2 * h == i;
    assert ps[h] == (args[i], args[i + 1]);
    forall j | h < j < |ps| ensures ps[j].0 != args[i] {
      assert ps[j].0 == args[2 * j];
    }
    OverrideLastWrite(d, ps, h);
  }

  /** Merging the tag arguments into a parsed query, stated on the argument
      list itself: the keys are the parsed keys plus every supplied name,
      unnamed keys keep their parsed values, and a name takes the value that
      follows its last occurrence among the names. */
  lemma {:induction false} MergeArguments(d: QueryDict, args: seq<string>)
    requires |args| % 2 == 0
    ensures Override(d, Pairs(args)).Keys == d.Keys + ArgNames(args)
    ensures forall k :: k in d && k !in ArgNames(args) ==> Override(d, Pairs(args))[k] == d[k]
    ensures forall i :: IsLastName(args, i) ==> Override(d, Pairs(args))[args[i]] == [args[i + 1]]
  {
    NamesOfPairs(args);
    forall i | IsLastName(args, i)
      ensures Override(d, Pairs(args))[args[i]] == [args[i + 1]]
    {
      LastNameWins(d, args, i);
    }
  }
}
