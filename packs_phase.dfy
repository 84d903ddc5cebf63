/**
 * Properties of the packs phase: how it decomposes into one pass over all
 * dictionary entries, the first-wins canonical table, the first-wins
 * character, alias and ascii indexes, the category buckets and the
 * attribution list.
 */
module PacksPhaseProperties {
  import opened Wrappers
  import opened Types
  import opened Indexes
  import opened Merge

  // ---------------------------------------------------------------------
  // Decomposition

  lemma {:induction false} RegisterAllAppend(s: Metadata, a: seq<Item>, b: seq<Item>)
    ensures RegisterAll(s, a + b) == RegisterAll(RegisterAll(s, a), b)
    decreases |b|
  {
    if b == [] {
      assert a + b == a;
    } else {
      assert (a + b)[..|a + b| - 1] == a + b[..|b| - 1];
      RegisterAllAppend(s, a, b[..|b| - 1]);
    }
  }

  lemma {:induction false} RegisterAllIgnoresPacks(s: Metadata, x: seq<PackInfo>, items: seq<Item>)
    ensures RegisterAll(s.(packs := x), items) == RegisterAll(s, items).(packs := x)
    decreases |items|
  {
    if items != [] {
      RegisterAllIgnoresPacks(s, x, items[..|items| - 1]);
    }
  }

  /** Registering `b` after `a` on a state with attribution list `x`. */
  lemma ShiftAppend(s: Metadata, a: seq<Item>, b: seq<Item>, x: seq<PackInfo>)
    ensures RegisterAll(RegisterAll(s, a).(packs := x), b) == RegisterAll(s, a + b).(packs := x)
  {
    RegisterAllIgnoresPacks(RegisterAll(s, a), x, b);
    RegisterAllAppend(s, a, b);
  }

  /**
   * The packs phase registers every dictionary entry of every pack in
   * order, and appends one attribution record per pack.
   */
  lemma {:induction false} PacksPhaseFlat(s: Metadata, ps: seq<(string, Pack)>)
    requires AllValid(ps)
    ensures PacksPhase(s, ps) == RegisterAll(s, Flat(ps)).(packs := s.packs + Infos(ps))
    decreases |ps|
  {
    if ps == [] {
      assert s.packs + Infos(ps) == s.packs;
    } else {
      var init, p := ps[..|ps| - 1], ps[|ps| - 1].1;
      PacksPhaseFlat(s, init);
      var x := s.packs + Infos(init);
      assert x + [Info(p)] == s.packs + Infos(ps);
      var t := RegisterAll(s, Flat(init));
      assert t.(packs := x).(packs := x + [Info(p)]) == t.(packs := x + [Info(p)]);
      ShiftAppend(s, Flat(init), Items(p), x + [Info(p)]);
    }
  }

  lemma {:induction false} PacksPhaseAppend(s: Metadata, a: seq<(string, Pack)>, b: seq<(string, Pack)>)
    requires AllValid(a) && AllValid(b)
    ensures AllValid(a + b)
    ensures PacksPhase(s, a + b) == PacksPhase(PacksPhase(s, a), b)
    decreases |b|
  {
    if b == [] {
      assert a + b == a;
    } else {
      assert (a + b)[..|a + b| - 1] == a + b[..|b| - 1];
      PacksPhaseAppend(s, a, b[..|b| - 1]);
    }
  }

  // ---------------------------------------------------------------------
  // The canonical table

  /** Some item is named `n`. */
  ghost predicate HasName(items: seq<Item>, n: string)
  {
    exists i :: 0 <= i < |items| && items[i].name == n
  }

  lemma HasNameSnoc(init: seq<Item>, x: Item, n: string)
    ensures HasName(init + [x], n) <==> HasName(init, n) || x.name == n
  {
    var items := init + [x];
    if HasName(init, n) {
      var i :| 0 <= i < |init| && init[i].name == n;
      assert items[i].name == n;
    }
    if x.name == n {
      assert items[|init|].name == n;
    }
    if HasName(items, n) {
      var i :| 0 <= i < |items| && items[i].name == n;
      if i < |init| {
        assert init[i].name == n;
      }
    }
  }

  /** No item before `i` has the name of item `i`. */
  ghost predicate FirstNamed(items: seq<Item>, i: int)
    requires 0 <= i < |items|
  {
    forall j :: 0 <= j < i ==> items[j].name != items[i].name
  }

  /**
   * `t` is `t0` after registering `items` first-wins: its keys are the old
   * keys and the items' names, old entries are untouched, and a new name
   * holds the entry built from the first item carrying it.
   */
  ghost predicate TableFirstWins(t0: map<string, Entry>, items: seq<Item>, t: map<string, Entry>)
  {
    && (forall n :: n in t <==> n in t0 || HasName(items, n))
    && (forall n :: n in t0 ==> t[n] == t0[n])
    && (forall i :: 0 <= i < |items| && items[i].name !in t0 && FirstNamed(items, i) ==>
          t[items[i].name] == NewEntry(items[i]))
  }

  lemma RegisterTableStep(t0: map<string, Entry>, items: seq<Item>, t: map<string, Entry>)
    requires items != []
    requires TableFirstWins(t0, items[..|items| - 1], t)
    ensures var x := items[|items| - 1];
      TableFirstWins(t0, items, if x.name in t then t else t[x.name := NewEntry(x)])
  {
    var init, x := items[..|items| - 1], items[|items| - 1];
    assert items == init + [x];
    var t' := if x.name in t then t else t[x.name := NewEntry(x)];
    forall n ensures n in t' <==> n in t0 || HasName(items, n) {
      HasNameSnoc(init, x, n);
    }
    forall i | 0 <= i < |items| && items[i].name !in t0 && FirstNamed(items, i)
      ensures t'[items[i].name] == NewEntry(items[i])
    {
      if i < |init| {
        assert items[i] == init[i];
        forall j | 0 <= j < i ensures init[j].name != init[i].name {
          assert items[j] == init[j];
        }
        assert HasName(init, init[i].name);
      } else {
        assert items[i] == x;
        forall j | 0 <= j < |init| ensures init[j].name != x.name {
          assert items[j] == init[j];
        }
      }
    }
  }

  /** The table after registering `items`, as a fold over the table alone. */
  function TableAfter(t: map<string, Entry>, items: seq<Item>): map<string, Entry>
    decreases |items|
  {
    if items == [] then t
    else
      var t', x := TableAfter(t, items[..|items| - 1]), items[|items| - 1];
      if x.name in t' then t' else t'[x.name := NewEntry(x)]
  }

  lemma {:induction false} RegisterAllTableAfter(s: Metadata, items: seq<Item>)
    ensures RegisterAll(s, items).table == TableAfter(s.table, items)
    decreases |items|
  {
    if items != [] {
      RegisterAllTableAfter(s, items[..|items| - 1]);
    }
  }

  lemma {:induction false} TableAfterFirstWins(t0: map<string, Entry>, items: seq<Item>)
    ensures TableFirstWins(t0, items, TableAfter(t0, items))
    decreases |items|
  {
    if items != [] {
      TableAfterFirstWins(t0, items[..|items| - 1]);
      RegisterTableStep(t0, items, TableAfter(t0, items[..|items| - 1]));
    }
  }

  lemma RegisterAllTable(s: Metadata, items: seq<Item>)
    ensures TableFirstWins(s.table, items, RegisterAll(s, items).table)
  {
    RegisterAllTableAfter(s, items);
    TableAfterFirstWins(s.table, items);
  }

  /**
   * After the packs phase the table is first-wins over all dictionary
   * entries in pack and key order: a name is a key exactly when some pack
   * has a key lowering to it or it was there before; an existing entry is
   * never changed; a new name holds the entry of the first pack key
   * lowering to it (its character, image or '', the pack id, aliases or
   * [], keywords or []).
   */
  lemma PacksTableFirstWins(s: Metadata, ps: seq<(string, Pack)>)
    requires AllValid(ps)
    ensures TableFirstWins(s.table, Flat(ps), PacksPhase(s, ps).table)
  {
    PacksPhaseFlat(s, ps);
    RegisterAllTable(s, Flat(ps));
  }

  /** Packs processed later never change a table entry made by an earlier pack. */
  lemma LaterPacksKeepTable(first: seq<(string, Pack)>, later: seq<(string, Pack)>, n: string)
    requires AllValid(first) && AllValid(later)
    requires n in PacksPhase(EmptyMetadata, first).table
    ensures AllValid(first + later)
    ensures n in PacksPhase(EmptyMetadata, first + later).table
    ensures PacksPhase(EmptyMetadata, first + later).table[n] == PacksPhase(EmptyMetadata, first).table[n]
  {
    PacksPhaseAppend(EmptyMetadata, first, later);
    PacksTableFirstWins(PacksPhase(EmptyMetadata, first), later);
  }

  // ---------------------------------------------------------------------
  // The character, alias and ascii indexes

  datatype IndexKind = CharacterIndex | AliasIndex | AsciiIndex

  function IndexOf(s: Metadata, kind: IndexKind): map<string, string>
  {
    match kind
    case CharacterIndex => s.characters
    case AliasIndex => s.aliases
    case AsciiIndex => s.ascii
  }

  /** The keys an emoji registers in the index of `kind`. */
  function KeysOf(kind: IndexKind, e: Emoji): seq<string>
  {
    match kind
    case CharacterIndex => CharacterKeys(e)
    case AliasIndex => AliasKeys(e)
    case AsciiIndex => AsciiKeys(e)
  }

  /** Item `i` lists key `k` in the index of `kind`. */
  ghost predicate Lists(items: seq<Item>, i: int, kind: IndexKind, k: string)
    requires 0 <= i < |items|
  {
    k in KeysOf(kind, items[i].emoji)
  }

  /** Every item before `i` that lists `k` has the empty (falsy) name. */
  ghost predicate NoEarlierClaim(items: seq<Item>, i: int, kind: IndexKind, k: string)
    requires 0 <= i <= |items|
  {
    forall j :: 0 <= j < i && Lists(items, j, kind, k) ==> items[j].name == ""
  }

  /**
   * `m` is `m0` after the items have registered their keys first-wins:
   * claimed keys keep their owner, every listed key is present, every
   * owner is the old one or an item listing the key, and an unclaimed key
   * goes to the first item with a non-empty name that lists it.
   */
  ghost predicate IndexFirstWins(m0: map<string, string>, items: seq<Item>, kind: IndexKind, m: map<string, string>)
  {
    && (forall k :: Claimed(m0, k) ==> k in m && m[k] == m0[k])
    && (forall i, k :: 0 <= i < |items| && Lists(items, i, kind, k) ==> k in m)
    && (forall k :: k in m ==>
          (k in m0 && m[k] == m0[k]) || exists i :: 0 <= i < |items| && Lists(items, i, kind, k) && m[k] == items[i].name)
    && (forall i, k ::
          0 <= i < |items| && Lists(items, i, kind, k) && items[i].name != "" && !Claimed(m0, k) && NoEarlierClaim(items, i, kind, k)
          ==> k in m && m[k] == items[i].name)
  }

  lemma RegisterIndex(s: Metadata, it: Item, kind: IndexKind)
    ensures IndexOf(Register(s, it), kind) == InsertAllIfUnclaimed(IndexOf(s, kind), KeysOf(kind, it.emoji), it.name)
  {
  }

  lemma RegisterIndexStep(m0: map<string, string>, init: seq<Item>, x: Item, kind: IndexKind, m: map<string, string>)
    requires IndexFirstWins(m0, init, kind, m)
    ensures IndexFirstWins(m0, init + [x], kind, InsertAllIfUnclaimed(m, KeysOf(kind, x.emoji), x.name))
  {
    var items := init + [x];
    var keys := KeysOf(kind, x.emoji);
    var m' := InsertAllIfUnclaimed(m, keys, x.name);
    InsertAllIfUnclaimedEffect(m, keys, x.name);
    assert forall j :: 0 <= j < |init| ==> items[j] == init[j];
    assert items[|init|] == x;
    assert forall j, k :: 0 <= j < |init| ==> (Lists(items, j, kind, k) <==> Lists(init, j, kind, k));

    forall k | Claimed(m0, k) ensures k in m' && m'[k] == m0[k] {
      assert Claimed(m, k);
    }
    forall i, k | 0 <= i < |items| && Lists(items, i, kind, k) ensures k in m' {
      if i < |init| {
        assert Lists(init, i, kind, k);
      }
    }
    forall k | k in m' ensures
      (k in m0 && m'[k] == m0[k]) || exists i :: 0 <= i < |items| && Lists(items, i, kind, k) && m'[k] == items[i].name
    {
      if k in keys && !Claimed(m, k) {
        assert Lists(items, |init|, kind, k) && m'[k] == items[|init|].name;
      } else {
        assert k in m && m'[k] == m[k];
        if !(k in m0 && m[k] == m0[k]) {
          var i :| 0 <= i < |init| && Lists(init, i, kind, k) && m[k] == init[i].name;
          assert Lists(items, i, kind, k) && m'[k] == items[i].name;
        }
      }
    }
    forall i, k | 0 <= i < |items| && Lists(items, i, kind, k) && items[i].name != "" && !Claimed(m0, k)
                  && NoEarlierClaim(items, i, kind, k)
      ensures k in m' && m'[k] == items[i].name
    {
      if i < |init| {
        assert Lists(init, i, kind, k);
        assert NoEarlierClaim(init, i, kind, k);
        assert Claimed(m, k);
      } else {
        assert NoEarlierClaim(init, |init|, kind, k);
        assert !Claimed(m, k);
        assert k in keys;
      }
    }
  }

  lemma {:induction false} RegisterAllIndex(s: Metadata, items: seq<Item>, kind: IndexKind)
    ensures IndexFirstWins(IndexOf(s, kind), items, kind, IndexOf(RegisterAll(s, items), kind))
    decreases |items|
  {
    if items != [] {
      var init, x := items[..|items| - 1], items[|items| - 1];
      RegisterAllIndex(s, init, kind);
      RegisterIndex(RegisterAll(s, init), x, kind);
      RegisterIndexStep(IndexOf(s, kind), init, x, kind, IndexOf(RegisterAll(s, init), kind));
      assert init + [x] == items;
    }
  }

  /**
   * The character, alias and ascii indexes are first-wins over all
   * dictionary entries in pack and key order, whether or not an entry's
   * table slot was new.
   */
  lemma PacksIndexFirstWins(s: Metadata, ps: seq<(string, Pack)>, kind: IndexKind)
    requires AllValid(ps)
    ensures IndexFirstWins(IndexOf(s, kind), Flat(ps), kind, IndexOf(PacksPhase(s, ps), kind))
  {
    PacksPhaseFlat(s, ps);
    RegisterAllIndex(s, Flat(ps), kind);
  }

  // ---------------------------------------------------------------------
  // Category buckets

  /** Some item lists category `cat`. */
  ghost predicate SomeListing(items: seq<Item>, cat: string)
  {
    exists i :: 0 <= i < |items| && cat in CategoriesOf(items[i].emoji)
  }

  /** Some item named `n` lists category `cat`. */
  ghost predicate NamedListing(items: seq<Item>, cat: string, n: string)
  {
    exists i :: 0 <= i < |items| && items[i].name == n && cat in CategoriesOf(items[i].emoji)
  }

  lemma ListingSnoc(init: seq<Item>, x: Item, cat: string, n: string)
    ensures SomeListing(init + [x], cat) <==> SomeListing(init, cat) || cat in CategoriesOf(x.emoji)
    ensures NamedListing(init + [x], cat, n) <==> NamedListing(init, cat, n) || (x.name == n && cat in CategoriesOf(x.emoji))
  {
    var items := init + [x];
    assert forall j :: 0 <= j < |init| ==> items[j] == init[j];
    assert items[|init|] == x;
    if SomeListing(items, cat) {
      var i :| 0 <= i < |items| && cat in CategoriesOf(items[i].emoji);
      assert i < |init| ==> cat in CategoriesOf(init[i].emoji);
    }
    if NamedListing(items, cat, n) {
      var i :| 0 <= i < |items| && items[i].name == n && cat in CategoriesOf(items[i].emoji);
      assert i < |init| ==> init[i].name == n && cat in CategoriesOf(init[i].emoji);
    }
  }

  /**
   * `c` is `c0` after the items have pushed their names: a category has a
   * bucket exactly when it had one or some item lists it, and a name is in
   * a bucket exactly when it was or some item of that name lists the
   * category.
   */
  ghost predicate BucketsListed(c0: map<string, seq<string>>, items: seq<Item>, c: map<string, seq<string>>)
  {
    && (forall cat :: cat in c <==> cat in c0 || SomeListing(items, cat))
    && (forall cat, n :: n in Bucket(c, cat) <==> n in Bucket(c0, cat) || NamedListing(items, cat, n))
  }

  lemma RegisterBucketsStep(c0: map<string, seq<string>>, init: seq<Item>, x: Item, c: map<string, seq<string>>)
    requires BucketsListed(c0, init, c)
    ensures BucketsListed(c0, init + [x], AppendToAll(c, CategoriesOf(x.emoji), x.name))
  {
    var cats := CategoriesOf(x.emoji);
    AppendToAllBuckets(c, cats, x.name);
    forall cat, n ensures n in Bucket(AppendToAll(c, cats, x.name), cat) <==> n in Bucket(c0, cat) || NamedListing(init + [x], cat, n) {
      ListingSnoc(init, x, cat, n);
      RepeatMembers(x.name, multiset(cats)[cat], n);
    }
    forall cat ensures cat in AppendToAll(c, cats, x.name) <==> cat in c0 || SomeListing(init + [x], cat) {
      ListingSnoc(init, x, cat, x.name);
    }
  }

  lemma {:induction false} RegisterAllBuckets(s: Metadata, items: seq<Item>)
    ensures BucketsListed(s.categories, items, RegisterAll(s, items).categories)
    decreases |items|
  {
    if items != [] {
      var init, x := items[..|items| - 1], items[|items| - 1];
      RegisterAllBuckets(s, init);
      RegisterBucketsStep(s.categories, init, x, RegisterAll(s, init).categories);
      assert init + [x] == items;
    }
  }

  /**
   * After the packs phase the buckets hold exactly the names whose emoji
   * listed the category, `other` standing in for an absent category list.
   */
  lemma PacksBuckets(s: Metadata, ps: seq<(string, Pack)>)
    requires AllValid(ps)
    ensures BucketsListed(s.categories, Flat(ps), PacksPhase(s, ps).categories)
  {
    PacksPhaseFlat(s, ps);
    RegisterAllBuckets(s, Flat(ps));
  }

  // ---------------------------------------------------------------------
  // Attribution list

  /** The packs phase appends one attribution record per pack, in input order. */
  lemma PacksAttribution(s: Metadata, ps: seq<(string, Pack)>)
    requires AllValid(ps)
    ensures |PacksPhase(s, ps).packs| == |s.packs| + |ps|
    ensures PacksPhase(s, ps).packs[..|s.packs|] == s.packs
    ensures forall i :: 0 <= i < |ps| ==> PacksPhase(s, ps).packs[|s.packs| + i] == Info(ps[i].1)
  {
    PacksPhaseFlat(s, ps);
  }
}
