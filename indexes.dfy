/**
 * The two insertion strategies the merge engine uses on its name indexes
 * (first-wins and overwrite), appending to category buckets, and
 * order-preserving de-duplication.
 */
module Indexes {

  /**
   * `m[k]` is truthy: the key is present with a non-empty name. An index
   * entry whose name is the empty string is falsy in JavaScript, so a
   * later first-wins insertion may still take it.
   */
  predicate Claimed(m: map<string, string>, k: string)
  {
    k in m && m[k] != ""
  }

  /** `k` is given to `v` unless it is already claimed. */
  function InsertIfUnclaimed(m: map<string, string>, k: string, v: string): map<string, string>
  {
    if Claimed(m, k) then m else m[k := v]
  }

  /** Each of `keys`, in order, is given to `v` unless it is already claimed: the first claim wins. */
  function InsertAllIfUnclaimed(m: map<string, string>, keys: seq<string>, v: string): map<string, string>
    decreases |keys|
  {
    if keys == [] then m
    else InsertIfUnclaimed(InsertAllIfUnclaimed(m, keys[..|keys| - 1], v), keys[|keys| - 1], v)
  }

  /**
   * First-wins insertion: a claimed key keeps its owner, every other listed
   * key is given to `v`, and unlisted keys are untouched.
   */
  lemma {:induction false} InsertAllIfUnclaimedEffect(m: map<string, string>, keys: seq<string>, v: string)
    ensures forall k :: k in InsertAllIfUnclaimed(m, keys, v) <==> k in m || k in keys
    ensures forall k :: k in InsertAllIfUnclaimed(m, keys, v) ==>
              InsertAllIfUnclaimed(m, keys, v)[k] == if k in keys && !Claimed(m, k) then v else m[k]
    decreases |keys|
  {
    if keys != [] {
      var init := keys[..|keys| - 1];
      assert keys == init + [keys[|keys| - 1]];
      InsertAllIfUnclaimedEffect(m, init, v);
    }
  }

  /** Each of `keys` is given to `v` unconditionally. */
  function ReplaceAll(m: map<string, string>, keys: seq<string>, v: string): map<string, string>
    decreases |keys|
  {
    if keys == [] then m
    else ReplaceAll(m, keys[..|keys| - 1], v)[keys[|keys| - 1] := v]
  }

  /**
   * Overwriting insertion: every listed key now belongs to `v`, whoever
   * owned it before; unlisted keys are untouched.
   */
  lemma {:induction false} ReplaceAllEffect(m: map<string, string>, keys: seq<string>, v: string)
    ensures forall k :: k in ReplaceAll(m, keys, v) <==> k in m || k in keys
    ensures forall k :: k in ReplaceAll(m, keys, v) ==> ReplaceAll(m, keys, v)[k] == if k in keys then v else m[k]
    decreases |keys|
  {
    if keys != [] {
      var init := keys[..|keys| - 1];
      assert keys == init + [keys[|keys| - 1]];
      ReplaceAllEffect(m, init, v);
    }
  }

  /** `m[c] || []` for a category map. */
  function Bucket(m: map<string, seq<string>>, c: string): seq<string>
  {
    if c in m then m[c] else []
  }

  /** `n` is pushed onto the bucket of category `c`, which starts empty when missing. */
  function AppendName(m: map<string, seq<string>>, c: string, n: string): map<string, seq<string>>
  {
    m[c := Bucket(m, c) + [n]]
  }

  /** `k` copies of `n`. */
  function Repeat(n: string, k: nat): seq<string>
  {
    if k == 0 then [] else Repeat(n, k - 1) + [n]
  }

  /** `n` is pushed onto the bucket of each category of `cats`, in order, once per listing. */
  function AppendToAll(m: map<string, seq<string>>, cats: seq<string>, n: string): map<string, seq<string>>
    decreases |cats|
  {
    if cats == [] then m
    else AppendName(AppendToAll(m, cats[..|cats| - 1], n), cats[|cats| - 1], n)
  }

  lemma {:induction false} RepeatMembers(n: string, k: nat, x: string)
    ensures x in Repeat(n, k) <==> k > 0 && x == n
  {
    if k > 0 {
      RepeatMembers(n, k - 1, x);
    }
  }

  /**
   * Pushing `n` onto the bucket of each category of `cats`: a bucket gains
   * one copy of `n` per occurrence of its category in `cats` (no
   * de-duplication), and no other bucket changes.
   */
  lemma {:induction false} AppendToAllBuckets(m: map<string, seq<string>>, cats: seq<string>, n: string)
    ensures forall c :: c in AppendToAll(m, cats, n) <==> c in m || c in cats
    ensures forall c :: Bucket(AppendToAll(m, cats, n), c) == Bucket(m, c) + Repeat(n, multiset(cats)[c])
    decreases |cats|
  {
    if cats != [] {
      var init := cats[..|cats| - 1];
      assert cats == init + [cats[|cats| - 1]];
      AppendToAllBuckets(m, init, n);
      AppendNameRepeat(m, AppendToAll(m, init, n), cats, n);
    }
  }

  /** One more push keeps each bucket equal to the old bucket plus one copy per occurrence. */
  lemma AppendNameRepeat(m: map<string, seq<string>>, r0: map<string, seq<string>>, cats: seq<string>, n: string)
    requires cats != []
    requires forall c :: Bucket(r0, c) == Bucket(m, c) + Repeat(n, multiset(cats[..|cats| - 1])[c])
    ensures forall c :: Bucket(AppendName(r0, cats[|cats| - 1], n), c) == Bucket(m, c) + Repeat(n, multiset(cats)[c])
  {
    forall c ensures Bucket(AppendName(r0, cats[|cats| - 1], n), c) == Bucket(m, c) + Repeat(n, multiset(cats)[c]) {
      AppendNameRepeatAt(Bucket(m, c), r0, cats, n, c);
    }
  }

  lemma AppendNameRepeatAt(b: seq<string>, r0: map<string, seq<string>>, cats: seq<string>, n: string, c: string)
    requires cats != []
    requires Bucket(r0, c) == b + Repeat(n, multiset(cats[..|cats| - 1])[c])
    ensures Bucket(AppendName(r0, cats[|cats| - 1], n), c) == b + Repeat(n, multiset(cats)[c])
  {
    var init, last := cats[..|cats| - 1], cats[|cats| - 1];
    assert cats == init + [last];
    var k := multiset(init)[c];
    if c == last {
      assert multiset(cats)[c] == k + 1;
      assert Bucket(AppendName(r0, last, n), c) == Bucket(r0, c) + [n];
      assert Repeat(n, k + 1) == Repeat(n, k) + [n];
    } else {
      assert multiset(cats)[c] == k;
    }
  }

  /** No name occurs twice. */
  predicate NoDup(xs: seq<string>)
  {
    forall i, j :: 0 <= i < j < |xs| ==> xs[i] != xs[j]
  }

  /**
   * Lodash `uniq`: the first occurrence of each name, in order. The result
   * has no duplicates and the same members, and a list without duplicates
   * is returned unchanged.
   */
  function Uniq(xs: seq<string>): (r: seq<string>)
    ensures NoDup(r)
    ensures forall x :: x in r <==> x in xs
    ensures NoDup(xs) ==> r == xs
    decreases |xs|
  {
    if xs == [] then []
    else
      var init := Uniq(xs[..|xs| - 1]);
      var last := xs[|xs| - 1];
      assert xs == xs[..|xs| - 1] + [last];
      if last in init then init else init + [last]
  }
}
