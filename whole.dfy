/**
 * Properties of the whole merge: no index or bucket ever names an emoji
 * that is not in the table, and how the three phases combine on the
 * table, the indexes, the characters and the attribution list.
 */
module WholeMerge {
  import opened Text
  import opened Types
  import opened Indexes
  import opened Merge
  import opened PacksPhaseProperties
  import opened MergeProperties

  // ---------------------------------------------------------------------
  // No dangling names

  /** Every value of `m` is a key of `t`. */
  ghost predicate PointsInto(m: map<string, string>, t: map<string, Entry>)
  {
    forall k :: k in m ==> m[k] in t
  }

  /** Every member of every bucket of `c` is a key of `t`. */
  ghost predicate BucketsInto(c: map<string, seq<string>>, t: map<string, Entry>)
  {
    forall cat, n :: n in Bucket(c, cat) ==> n in t
  }

  /**
   * The results agree with each other: every entry records its own key as
   * its name, and every name the character, alias and ascii indexes map
   * to, and every name in a category bucket, is a key of the table.
   */
  ghost predicate Consistent(s: Metadata)
  {
    && (forall n :: n in s.table ==> s.table[n].name == n)
    && PointsInto(s.characters, s.table)
    && PointsInto(s.aliases, s.table)
    && PointsInto(s.ascii, s.table)
    && BucketsInto(s.categories, s.table)
  }

  lemma InsertAllPointsInto(m: map<string, string>, keys: seq<string>, v: string, t: map<string, Entry>)
    requires PointsInto(m, t) && v in t
    ensures PointsInto(InsertAllIfUnclaimed(m, keys, v), t)
  {
    InsertAllIfUnclaimedEffect(m, keys, v);
  }

  lemma ReplaceAllPointsInto(m: map<string, string>, keys: seq<string>, v: string, t: map<string, Entry>)
    requires PointsInto(m, t) && v in t
    ensures PointsInto(ReplaceAll(m, keys, v), t)
  {
    ReplaceAllEffect(m, keys, v);
  }

  lemma AppendToAllBucketsInto(c: map<string, seq<string>>, cats: seq<string>, n: string, t: map<string, Entry>)
    requires BucketsInto(c, t) && n in t
    ensures BucketsInto(AppendToAll(c, cats, n), t)
  {
    AppendToAllBuckets(c, cats, n);
    forall cat, x | x in Bucket(AppendToAll(c, cats, n), cat) ensures x in t {
      RepeatMembers(n, multiset(cats)[cat], x);
    }
  }

  lemma RegisterConsistent(s: Metadata, it: Item)
    requires Consistent(s)
    ensures Consistent(Register(s, it))
  {
    var t := Register(s, it).table;
    assert s.table.Keys <= t.Keys && it.name in t;
    InsertAllPointsInto(s.characters, CharacterKeys(it.emoji), it.name, t);
    InsertAllPointsInto(s.aliases, AliasKeys(it.emoji), it.name, t);
    InsertAllPointsInto(s.ascii, AsciiKeys(it.emoji), it.name, t);
    AppendToAllBucketsInto(s.categories, CategoriesOf(it.emoji), it.name, t);
  }

  lemma {:induction false} RegisterAllConsistent(s: Metadata, items: seq<Item>)
    requires Consistent(s)
    ensures Consistent(RegisterAll(s, items))
    decreases |items|
  {
    if items != [] {
      RegisterAllConsistent(s, items[..|items| - 1]);
      RegisterConsistent(RegisterAll(s, items[..|items| - 1]), items[|items| - 1]);
    }
  }

  lemma PacksPhaseConsistent(s: Metadata, ps: seq<(string, Pack)>)
    requires AllValid(ps) && Consistent(s)
    ensures Consistent(PacksPhase(s, ps))
  {
    PacksPhaseFlat(s, ps);
    RegisterAllConsistent(s, Flat(ps));
  }

  lemma DedupConsistent(s: Metadata)
    requires Consistent(s)
    ensures Consistent(Dedup(s))
  {
    DedupEffect(s);
  }

  lemma CustomStepConsistent(s: Metadata, e: CustomEmoji)
    requires Consistent(s)
    ensures Consistent(CustomStep(s, e))
  {
    var n := Lower(e.name);
    var t := CustomStep(s, e).table;
    assert s.table.Keys <= t.Keys && n in t;
    InsertAllPointsInto(s.aliases, LowerAll(e.aliases), n, t);
    InsertAllPointsInto(s.ascii, e.ascii, n, t);
    assert BucketsInto(AppendToAll(s.categories, ["custom"], n), t) by {
      AppendToAllBucketsInto(s.categories, ["custom"], n, t);
    }
    assert AppendToAll(s.categories, ["custom"], n) == AppendName(s.categories, "custom", n) by {
      assert ["custom"][..0] == [];
    }
  }

  lemma {:induction false} CustomsPhaseConsistent(s: Metadata, es: seq<CustomEmoji>)
    requires Consistent(s)
    ensures Consistent(CustomsPhase(s, es))
    decreases |es|
  {
    if es != [] {
      CustomsPhaseConsistent(s, es[..|es| - 1]);
      CustomStepConsistent(CustomsPhase(s, es[..|es| - 1]), es[|es| - 1]);
    }
  }

  lemma AdjunctStepConsistent(s: Metadata, a: Adjunct)
    requires Consistent(s)
    ensures Consistent(AdjunctStep(s, a))
  {
    if a.name in s.table {
      var t := AdjunctStep(s, a).table;
      assert t.Keys == s.table.Keys;
      ReplaceAllPointsInto(s.aliases, a.aliases, a.name, t);
      ReplaceAllPointsInto(s.ascii, a.ascii, a.name, t);
    }
  }

  lemma {:induction false} AdjunctsPhaseConsistent(s: Metadata, adjs: seq<Adjunct>)
    requires Consistent(s)
    ensures Consistent(AdjunctsPhase(s, adjs))
    decreases |adjs|
  {
    if adjs != [] {
      AdjunctsPhaseConsistent(s, adjs[..|adjs| - 1]);
      AdjunctStepConsistent(AdjunctsPhase(s, adjs[..|adjs| - 1]), adjs[|adjs| - 1]);
    }
  }

  /**
   * The merged results never point at a missing emoji: every name an
   * index or a bucket holds is a key of the table, and every entry is
   * stored under its own name.
   */
  lemma MergeConsistent(ps: seq<(string, Pack)>, c: Customizations)
    requires AllValid(ps)
    ensures Consistent(MergeAll(ps, c))
  {
    var s0 := PacksPhase(EmptyMetadata, ps);
    PacksPhaseConsistent(EmptyMetadata, ps);
    DedupConsistent(s0);
    CustomsPhaseConsistent(Dedup(s0), c.emojis);
    AdjunctsPhaseConsistent(CustomsPhase(Dedup(s0), c.emojis), c.adjuncts);
  }

  // ---------------------------------------------------------------------
  // The phases combined

  /**
   * The character index is built by the packs alone, and the attribution
   * list holds one record per valid pack, in order.
   */
  lemma MergeCharactersAndPacks(ps: seq<(string, Pack)>, c: Customizations)
    requires AllValid(ps)
    ensures MergeAll(ps, c).characters == PacksPhase(EmptyMetadata, ps).characters
    ensures MergeAll(ps, c).packs == Infos(ps)
  {
    var s1 := Dedup(PacksPhase(EmptyMetadata, ps));
    PacksPhaseFlat(EmptyMetadata, ps);
    assert [] + Infos(ps) == Infos(ps);
    CustomsPhaseKeepsClaims(s1, c.emojis);
    AdjunctsPhaseKeeps(CustomsPhase(s1, c.emojis), c.adjuncts);
  }

  /**
   * The table holds exactly the names of the pack entries and of the
   * customization emojis, all lowered; adjuncts add no name.
   */
  lemma MergeTableNames(ps: seq<(string, Pack)>, c: Customizations, n: string)
    requires AllValid(ps)
    ensures n in MergeAll(ps, c).table <==> HasName(Flat(ps), n) || n in CustomNames(c.emojis)
  {
    var s1 := Dedup(PacksPhase(EmptyMetadata, ps));
    PacksTableFirstWins(EmptyMetadata, ps);
    CustomsPhaseTable(s1, c.emojis);
    AdjunctsPhaseTable(CustomsPhase(s1, c.emojis), c.adjuncts);
  }

  /**
   * A name first given by a pack entry, and by no customization emoji,
   * ends with that entry's fields, its aliases extended by the adjuncts
   * naming it.
   */
  lemma MergePackEntry(ps: seq<(string, Pack)>, c: Customizations, i: nat)
    requires AllValid(ps)
    requires i < |Flat(ps)| && FirstNamed(Flat(ps), i)
    requires Flat(ps)[i].name !in CustomNames(c.emojis)
    ensures var n, e := Flat(ps)[i].name, NewEntry(Flat(ps)[i]);
      n in MergeAll(ps, c).table &&
      MergeAll(ps, c).table[n] == e.(aliases := e.aliases + AppendedAliases(c.adjuncts, n))
  {
    var s1 := Dedup(PacksPhase(EmptyMetadata, ps));
    PacksTableFirstWins(EmptyMetadata, ps);
    CustomsPhaseTable(s1, c.emojis);
    AdjunctsPhaseTable(CustomsPhase(s1, c.emojis), c.adjuncts);
  }

  /**
   * The last customization emoji lowering to a name decides its entry,
   * whatever a pack put there, its aliases extended by the adjuncts naming it.
   */
  lemma MergeCustomEntry(ps: seq<(string, Pack)>, c: Customizations, i: nat)
    requires AllValid(ps)
    requires i < |c.emojis| && LastNamed(c.emojis, i)
    ensures var n, e := Lower(c.emojis[i].name), CustomEntry(c.emojis[i]);
      n in MergeAll(ps, c).table &&
      MergeAll(ps, c).table[n] == e.(aliases := e.aliases + AppendedAliases(c.adjuncts, n))
  {
    var s1 := Dedup(PacksPhase(EmptyMetadata, ps));
    CustomsPhaseTable(s1, c.emojis);
    AdjunctsPhaseTable(CustomsPhase(s1, c.emojis), c.adjuncts);
  }

  /**
   * An alias or ascii key a pack claimed keeps its pack owner to the end,
   * unless an applicable adjunct lists it.
   */
  lemma MergeKeepsPackClaim(ps: seq<(string, Pack)>, c: Customizations, kind: IndexKind, k: string)
    requires AllValid(ps)
    requires Claimed(IndexOf(PacksPhase(EmptyMetadata, ps), kind), k)
    requires Unlisted(MergeAll(ps, c).table.Keys, c.adjuncts, kind, k)
    ensures k in IndexOf(MergeAll(ps, c), kind)
    ensures IndexOf(MergeAll(ps, c), kind)[k] == IndexOf(PacksPhase(EmptyMetadata, ps), kind)[k]
  {
    var s1 := Dedup(PacksPhase(EmptyMetadata, ps));
    var s2 := CustomsPhase(s1, c.emojis);
    CustomsPhaseKeepsClaims(s1, c.emojis);
    assert Claimed(IndexOf(s2, kind), k);
    AdjunctsPhaseTable(s2, c.adjuncts);
    AdjunctsPhaseIndex(s2, c.adjuncts, kind);
  }

  /**
   * An alias or ascii key no pack claimed belongs, at the end, to the first
   * customization emoji with a non-empty lowered name that lists it, unless
   * an applicable adjunct lists it.
   */
  lemma MergeCustomClaim(ps: seq<(string, Pack)>, c: Customizations, kind: IndexKind, i: nat, k: string)
    requires AllValid(ps)
    requires !Claimed(IndexOf(PacksPhase(EmptyMetadata, ps), kind), k)
    requires i < |c.emojis| && Lists(CustomItems(c.emojis), i, kind, k) && Lower(c.emojis[i].name) != ""
    requires NoEarlierClaim(CustomItems(c.emojis), i, kind, k)
    requires Unlisted(MergeAll(ps, c).table.Keys, c.adjuncts, kind, k)
    ensures k in IndexOf(MergeAll(ps, c), kind)
    ensures IndexOf(MergeAll(ps, c), kind)[k] == Lower(c.emojis[i].name)
  {
    var s0 := PacksPhase(EmptyMetadata, ps);
    var s2 := CustomsPhase(Dedup(s0), c.emojis);
    assert IndexOf(Dedup(s0), kind) == IndexOf(s0, kind);
    CustomsPhaseIndex(Dedup(s0), c.emojis, kind);
    AdjunctsPhaseTable(s2, c.adjuncts);
    AdjunctsPhaseIndex(s2, c.adjuncts, kind);
  }

  /**
   * An alias or ascii key listed by an applicable adjunct belongs, at the
   * end, to the last such adjunct's name, even when a pack or a
   * customization emoji claimed it first.
   */
  lemma MergeAdjunctWins(ps: seq<(string, Pack)>, c: Customizations, kind: IndexKind, i: nat, k: string)
    requires AllValid(ps)
    requires i < |c.adjuncts| && LastLister(MergeAll(ps, c).table.Keys, c.adjuncts, i, kind, k)
    ensures k in IndexOf(MergeAll(ps, c), kind)
    ensures IndexOf(MergeAll(ps, c), kind)[k] == c.adjuncts[i].name
  {
    var s2 := CustomsPhase(Dedup(PacksPhase(EmptyMetadata, ps)), c.emojis);
    AdjunctsPhaseTable(s2, c.adjuncts);
    AdjunctsPhaseIndex(s2, c.adjuncts, kind);
  }

  // ---------------------------------------------------------------------
  // Case of names

  lemma {:induction false} FlatNamesLower(ps: seq<(string, Pack)>)
    requires AllValid(ps)
    ensures forall i :: 0 <= i < |Flat(ps)| ==> IsLower(Flat(ps)[i].name)
    decreases |ps|
  {
    if ps != [] {
      var init, p := ps[..|ps| - 1], ps[|ps| - 1].1;
      FlatNamesLower(init);
      forall j | 0 <= j < |Items(p)| ensures IsLower(Items(p)[j].name) {
        LowerIsLower(p.dictionary.value[j].0);
      }
      var f := Flat(ps);
      forall i | 0 <= i < |f| ensures IsLower(f[i].name) {
        if i >= |Flat(init)| {
          assert f[i] == Items(p)[i - |Flat(init)|];
        } else {
          assert f[i] == Flat(init)[i];
        }
      }
    }
  }

  /** Every key of the merged table is lower-case: both the pack keys and the customization names are lowered. */
  lemma MergeKeysLower(ps: seq<(string, Pack)>, c: Customizations)
    requires AllValid(ps)
    ensures forall n :: n in MergeAll(ps, c).table ==> IsLower(n)
  {
    FlatNamesLower(ps);
    forall n | n in MergeAll(ps, c).table ensures IsLower(n) {
      MergeTableNames(ps, c, n);
      if n in CustomNames(c.emojis) {
        var i :| 0 <= i < |c.emojis| && CustomNames(c.emojis)[i] == n;
        LowerIsLower(c.emojis[i].name);
      }
    }
  }

  lemma {:induction false} AdjunctsPhaseSkipsUpperCase(s: Metadata, adjs: seq<Adjunct>)
    requires forall n :: n in s.table ==> IsLower(n)
    requires forall i :: 0 <= i < |adjs| ==> !IsLower(adjs[i].name)
    ensures AdjunctsPhase(s, adjs) == s
    decreases |adjs|
  {
    if adjs != [] {
      AdjunctsPhaseSkipsUpperCase(s, adjs[..|adjs| - 1]);
      AdjunctWithUpperCaseNameSkipped(s, adjs[|adjs| - 1]);
    }
  }

  /**
   * Adjunct names are compared verbatim with lower-case table keys, so
   * adjuncts whose names all carry an upper-case ASCII letter have no
   * effect on the merge.
   */
  lemma MergeSkipsUpperCaseAdjuncts(ps: seq<(string, Pack)>, c: Customizations)
    requires AllValid(ps)
    requires forall i :: 0 <= i < |c.adjuncts| ==> !IsLower(c.adjuncts[i].name)
    ensures MergeAll(ps, c) == CustomsPhase(Dedup(PacksPhase(EmptyMetadata, ps)), c.emojis)
  {
    var s2 := CustomsPhase(Dedup(PacksPhase(EmptyMetadata, ps)), c.emojis);
    MergeKeysLower(ps, c);
    AdjunctsPhaseTable(s2, c.adjuncts);
    AdjunctsPhaseSkipsUpperCase(s2, c.adjuncts);
  }
}
