/**
 * Properties of the de-duplication, the customization-emoji phase and the
 * adjunct phase, and of the merge as a whole.
 */
module MergeProperties {
  import opened Wrappers
  import opened Text
  import opened Types
  import opened Indexes
  import opened Merge
  import opened PacksPhaseProperties

  // ---------------------------------------------------------------------
  // De-duplication

  /**
   * The de-duplication only touches the buckets: every bucket is then
   * duplicate-free with the same members, and a bucket that had no
   * duplicate is unchanged.
   */
  lemma DedupEffect(s: Metadata)
    ensures Dedup(s) == s.(categories := Dedup(s).categories)
    ensures Dedup(s).categories.Keys == s.categories.Keys
    ensures forall cat :: cat in Dedup(s).categories ==> NoDup(Dedup(s).categories[cat])
    ensures forall cat, n :: n in Bucket(Dedup(s).categories, cat) <==> n in Bucket(s.categories, cat)
    ensures forall cat :: cat in s.categories && NoDup(s.categories[cat]) ==> Dedup(s).categories[cat] == s.categories[cat]
  {
  }

  /**
   * Immediately after the de-duplication every bucket is duplicate-free and
   * holds exactly the names whose emoji listed that category.
   */
  lemma CategoriesAfterDedup(ps: seq<(string, Pack)>)
    requires AllValid(ps)
    ensures forall cat :: cat in Dedup(PacksPhase(EmptyMetadata, ps)).categories ==>
              NoDup(Dedup(PacksPhase(EmptyMetadata, ps)).categories[cat])
    ensures forall cat :: cat in Dedup(PacksPhase(EmptyMetadata, ps)).categories <==> SomeListing(Flat(ps), cat)
    ensures forall cat, n :: n in Bucket(Dedup(PacksPhase(EmptyMetadata, ps)).categories, cat) <==> NamedListing(Flat(ps), cat, n)
  {
    PacksBuckets(EmptyMetadata, ps);
    DedupEffect(PacksPhase(EmptyMetadata, ps));
  }

  /** An emoji that declares no categories lands in the `other` bucket. */
  lemma UncategorizedGoToOther(ps: seq<(string, Pack)>, i: nat)
    requires AllValid(ps)
    requires i < |Flat(ps)| && Flat(ps)[i].emoji.categories.None?
    ensures Flat(ps)[i].name in Bucket(Dedup(PacksPhase(EmptyMetadata, ps)).categories, "other")
  {
    CategoriesAfterDedup(ps);
    assert NamedListing(Flat(ps), "other", Flat(ps)[i].name);
  }

  // ---------------------------------------------------------------------
  // Customization emojis

  /**
   * One customization emoji overwrites its lowered name's table entry,
   * whatever was there, with character '', pack 'customizations', no
   * keywords and its own image and aliases; no other entry changes. Its
   * aliases and ascii codes are first-wins; its name is pushed onto the
   * `custom` bucket; the character index and attribution list are untouched.
   */
  lemma CustomEmojiEffect(s: Metadata, e: CustomEmoji)
    ensures Lower(e.name) in CustomStep(s, e).table
    ensures CustomStep(s, e).table[Lower(e.name)] ==
              Entry(Lower(e.name), Some(""), e.image, "customizations", e.aliases, [])
    ensures forall n :: n != Lower(e.name) ==>
              && (n in CustomStep(s, e).table <==> n in s.table)
              && (n in s.table ==> CustomStep(s, e).table[n] == s.table[n])
    ensures forall a :: a in e.aliases ==> Lower(a) in CustomStep(s, e).aliases
    ensures forall a :: a in e.aliases && !Claimed(s.aliases, Lower(a)) ==> CustomStep(s, e).aliases[Lower(a)] == Lower(e.name)
    ensures forall k :: Claimed(s.aliases, k) ==> k in CustomStep(s, e).aliases && CustomStep(s, e).aliases[k] == s.aliases[k]
    ensures forall k :: k !in LowerAll(e.aliases) ==>
              && (k in CustomStep(s, e).aliases <==> k in s.aliases)
              && (k in s.aliases ==> CustomStep(s, e).aliases[k] == s.aliases[k])
    ensures forall c :: c in e.ascii ==> c in CustomStep(s, e).ascii
    ensures forall c :: c in e.ascii && !Claimed(s.ascii, c) ==> CustomStep(s, e).ascii[c] == Lower(e.name)
    ensures forall k :: Claimed(s.ascii, k) ==> k in CustomStep(s, e).ascii && CustomStep(s, e).ascii[k] == s.ascii[k]
    ensures forall k :: k !in e.ascii ==>
              && (k in CustomStep(s, e).ascii <==> k in s.ascii)
              && (k in s.ascii ==> CustomStep(s, e).ascii[k] == s.ascii[k])
    ensures Bucket(CustomStep(s, e).categories, "custom") == Bucket(s.categories, "custom") + [Lower(e.name)]
    ensures forall c :: c != "custom" ==> Bucket(CustomStep(s, e).categories, c) == Bucket(s.categories, c)
    ensures "custom" in CustomStep(s, e).categories
    ensures forall c :: c != "custom" ==> (c in CustomStep(s, e).categories <==> c in s.categories)
    ensures CustomStep(s, e).characters == s.characters && CustomStep(s, e).packs == s.packs
  {
    var n := Lower(e.name);
    InsertAllIfUnclaimedEffect(s.aliases, LowerAll(e.aliases), n);
    InsertAllIfUnclaimedEffect(s.ascii, e.ascii, n);
    forall a | a in e.aliases ensures Lower(a) in LowerAll(e.aliases) {
      var i :| 0 <= i < |e.aliases| && e.aliases[i] == a;
      assert LowerAll(e.aliases)[i] == Lower(a);
    }
  }

  /** The lowered names of the customization emojis, in order, duplicates kept. */
  function CustomNames(es: seq<CustomEmoji>): seq<string>
  {
    seq(|es|, i requires 0 <= i < |es| => Lower(es[i].name))
  }

  /** No later customization emoji lowers to the name of emoji `i`. */
  ghost predicate LastNamed(es: seq<CustomEmoji>, i: int)
    requires 0 <= i < |es|
  {
    forall j :: i < j < |es| ==> Lower(es[j].name) != Lower(es[i].name)
  }

  /** The table as the customization-emoji phase leaves it: each emoji overwrites its name's slot. */
  function CustomTable(t: map<string, Entry>, es: seq<CustomEmoji>): map<string, Entry>
    decreases |es|
  {
    if es == [] then t
    else CustomTable(t, es[..|es| - 1])[Lower(es[|es| - 1].name) := CustomEntry(es[|es| - 1])]
  }

  lemma {:induction false} CustomsPhaseCustomTable(s: Metadata, es: seq<CustomEmoji>)
    ensures CustomsPhase(s, es).table == CustomTable(s.table, es)
    decreases |es|
  {
    if es != [] {
      CustomsPhaseCustomTable(s, es[..|es| - 1]);
    }
  }

  /**
   * Last-wins over `es` from `t0` to `t`: every name an emoji lowers to is
   * a key, a name no emoji lowers to keeps its slot (present or absent), and
   * each name holds the entry of the last emoji lowering to it.
   */
  ghost predicate CustomTableLastWins(t0: map<string, Entry>, es: seq<CustomEmoji>, t: map<string, Entry>)
  {
    && (forall n :: n in CustomNames(es) ==> n in t)
    && (forall n :: n !in CustomNames(es) ==> (n in t <==> n in t0) && (n in t0 ==> t[n] == t0[n]))
    && (forall i :: 0 <= i < |es| && LastNamed(es, i) ==>
          Lower(es[i].name) in t && t[Lower(es[i].name)] == CustomEntry(es[i]))
  }

  lemma CustomTableStep(t0: map<string, Entry>, es: seq<CustomEmoji>, t: map<string, Entry>)
    requires es != []
    requires CustomTableLastWins(t0, es[..|es| - 1], t)
    ensures CustomTableLastWins(t0, es, t[Lower(es[|es| - 1].name) := CustomEntry(es[|es| - 1])])
  {
    var init, e := es[..|es| - 1], es[|es| - 1];
    var t' := t[Lower(e.name) := CustomEntry(e)];
    assert CustomNames(es) == CustomNames(init) + [Lower(e.name)];
    forall i | 0 <= i < |es| && LastNamed(es, i)
      ensures Lower(es[i].name) in t' && t'[Lower(es[i].name)] == CustomEntry(es[i])
    {
      if i < |init| {
        assert es[i] == init[i];
        assert LastNamed(init, i) by {
          forall j | i < j < |init| ensures Lower(init[j].name) != Lower(init[i].name) {
            assert es[j] == init[j];
          }
        }
        assert Lower(es[|init|].name) != Lower(es[i].name);
      }
    }
  }

  lemma {:induction false} CustomTableLastWinsFold(t0: map<string, Entry>, es: seq<CustomEmoji>)
    ensures CustomTableLastWins(t0, es, CustomTable(t0, es))
    decreases |es|
  {
    if es != [] {
      CustomTableLastWinsFold(t0, es[..|es| - 1]);
      CustomTableStep(t0, es, CustomTable(t0, es[..|es| - 1]));
    }
  }

  /**
   * The customization-emoji phase on the table is last-wins: a name holds
   * the entry of the last customization emoji lowering to it, whatever the
   * packs put there, and every other slot is untouched.
   */
  lemma CustomsPhaseTable(s: Metadata, es: seq<CustomEmoji>)
    ensures CustomTableLastWins(s.table, es, CustomsPhase(s, es).table)
  {
    CustomsPhaseCustomTable(s, es);
    CustomTableLastWinsFold(s.table, es);
  }

  /**
   * The customization-emoji phase on the buckets: the `custom` bucket grows
   * by every emoji's lowered name in order, without de-duplication, and no
   * other bucket changes or appears.
   */
  lemma {:induction false} CustomsPhaseBuckets(s: Metadata, es: seq<CustomEmoji>)
    ensures Bucket(CustomsPhase(s, es).categories, "custom") == Bucket(s.categories, "custom") + CustomNames(es)
    ensures forall c :: c != "custom" ==> Bucket(CustomsPhase(s, es).categories, c) == Bucket(s.categories, c)
    ensures es != [] ==> "custom" in CustomsPhase(s, es).categories
    ensures forall c :: c != "custom" ==> (c in CustomsPhase(s, es).categories <==> c in s.categories)
    decreases |es|
  {
    if es != [] {
      var init, e := es[..|es| - 1], es[|es| - 1];
      CustomsPhaseBuckets(s, init);
      assert CustomNames(es) == CustomNames(init) + [Lower(e.name)];
    }
    CustomsPhaseCategoryKeys(s, es);
  }

  /** The customization-emoji phase creates no category other than `custom`, and removes none. */
  lemma {:induction false} CustomsPhaseCategoryKeys(s: Metadata, es: seq<CustomEmoji>)
    ensures es != [] ==> "custom" in CustomsPhase(s, es).categories
    ensures forall c :: c != "custom" ==> (c in CustomsPhase(s, es).categories <==> c in s.categories)
    decreases |es|
  {
    if es != [] {
      CustomsPhaseCategoryKeys(s, es[..|es| - 1]);
    }
  }

  /**
   * The customization-emoji phase leaves the character index and the
   * attribution list alone, and a claimed alias or ascii key keeps its
   * owner.
   */
  lemma {:induction false} CustomsPhaseKeepsClaims(s: Metadata, es: seq<CustomEmoji>)
    ensures CustomsPhase(s, es).characters == s.characters && CustomsPhase(s, es).packs == s.packs
    ensures forall k :: Claimed(s.aliases, k) ==> k in CustomsPhase(s, es).aliases && CustomsPhase(s, es).aliases[k] == s.aliases[k]
    ensures forall k :: Claimed(s.ascii, k) ==> k in CustomsPhase(s, es).ascii && CustomsPhase(s, es).ascii[k] == s.ascii[k]
    decreases |es|
  {
    if es != [] {
      var init, e := es[..|es| - 1], es[|es| - 1];
      CustomsPhaseKeepsClaims(s, init);
      var t := CustomsPhase(s, init);
      CustomEmojiEffect(t, e);
      forall k | Claimed(s.aliases, k) ensures k in CustomsPhase(s, es).aliases && CustomsPhase(s, es).aliases[k] == s.aliases[k] {
        assert Claimed(t.aliases, k);
      }
      forall k | Claimed(s.ascii, k) ensures k in CustomsPhase(s, es).ascii && CustomsPhase(s, es).ascii[k] == s.ascii[k] {
        assert Claimed(t.ascii, k);
      }
    }
  }

  /**
   * A customization emoji as the alias and ascii indexes see it: a pack
   * entry named with the lowered name that lists the lowered aliases and
   * the verbatim ascii codes, and no character.
   */
  function CustomItem(e: CustomEmoji): Item
  {
    Item(Lower(e.name), "customizations", Emoji(None, None, Some(e.aliases), None, Some(e.ascii), None))
  }

  /** The customization emojis as items, in order. */
  function CustomItems(es: seq<CustomEmoji>): seq<Item>
  {
    seq(|es|, i requires 0 <= i < |es| => CustomItem(es[i]))
  }

  /** One customization emoji inserts into each index exactly what its item would. */
  lemma CustomStepIndex(s: Metadata, e: CustomEmoji, kind: IndexKind)
    ensures IndexOf(CustomStep(s, e), kind) ==
              InsertAllIfUnclaimed(IndexOf(s, kind), KeysOf(kind, CustomItem(e).emoji), CustomItem(e).name)
  {
  }

  /**
   * The customization-emoji phase is first-wins on each index, continuing
   * from the packs: claimed keys keep their owner, every key an emoji lists
   * is present, every owner is an old one or a lister, and a key still
   * unclaimed goes to the first emoji with a non-empty lowered name that
   * lists it. The character index gets no key.
   */
  lemma {:induction false} CustomsPhaseIndex(s: Metadata, es: seq<CustomEmoji>, kind: IndexKind)
    ensures IndexFirstWins(IndexOf(s, kind), CustomItems(es), kind, IndexOf(CustomsPhase(s, es), kind))
    decreases |es|
  {
    if es != [] {
      var init, e := es[..|es| - 1], es[|es| - 1];
      CustomsPhaseIndex(s, init, kind);
      assert CustomItems(es) == CustomItems(init) + [CustomItem(e)];
      CustomStepIndex(CustomsPhase(s, init), e, kind);
      RegisterIndexStep(IndexOf(s, kind), CustomItems(init), CustomItem(e), kind, IndexOf(CustomsPhase(s, init), kind));
    }
  }

  // ---------------------------------------------------------------------
  // Adjuncts

  /** An adjunct whose name, taken verbatim, is not a table key changes nothing. */
  lemma AdjunctMissingIsNoop(s: Metadata, a: Adjunct)
    requires a.name !in s.table
    ensures AdjunctStep(s, a) == s
  {
  }

  /**
   * An adjunct whose name is a table key appends its aliases to that
   * entry's (duplicates kept) and leaves its other fields and every other
   * entry alone; each of its aliases and ascii codes, verbatim, now belongs
   * to the name whoever owned it before; every other key of those indexes,
   * the characters, the buckets and the attribution list are untouched.
   */
  lemma AdjunctExistingEffect(s: Metadata, a: Adjunct)
    requires a.name in s.table
    ensures a.name in AdjunctStep(s, a).table
    ensures AdjunctStep(s, a).table[a.name] == s.table[a.name].(aliases := s.table[a.name].aliases + a.aliases)
    ensures forall n :: n != a.name ==>
              && (n in AdjunctStep(s, a).table <==> n in s.table)
              && (n in s.table ==> AdjunctStep(s, a).table[n] == s.table[n])
    ensures forall k :: k in a.aliases ==> k in AdjunctStep(s, a).aliases && AdjunctStep(s, a).aliases[k] == a.name
    ensures forall k :: k in a.ascii ==> k in AdjunctStep(s, a).ascii && AdjunctStep(s, a).ascii[k] == a.name
    ensures forall k :: k !in a.aliases ==>
              && (k in AdjunctStep(s, a).aliases <==> k in s.aliases)
              && (k in s.aliases ==> AdjunctStep(s, a).aliases[k] == s.aliases[k])
    ensures forall k :: k !in a.ascii ==>
              && (k in AdjunctStep(s, a).ascii <==> k in s.ascii)
              && (k in s.ascii ==> AdjunctStep(s, a).ascii[k] == s.ascii[k])
    ensures AdjunctStep(s, a).characters == s.characters
    ensures AdjunctStep(s, a).categories == s.categories && AdjunctStep(s, a).packs == s.packs
  {
    ReplaceAllEffect(s.aliases, a.aliases, a.name);
    ReplaceAllEffect(s.ascii, a.ascii, a.name);
  }

  /**
   * Because adjunct names are not lowered while every table key is, an
   * adjunct whose name has an upper-case ASCII letter is always skipped.
   */
  lemma AdjunctWithUpperCaseNameSkipped(s: Metadata, a: Adjunct)
    requires forall n :: n in s.table ==> IsLower(n)
    requires !IsLower(a.name)
    ensures AdjunctStep(s, a) == s
  {
  }

  /** The aliases or the ascii codes of an adjunct (it never touches the character index). */
  function AdjunctKeys(a: Adjunct, kind: IndexKind): seq<string>
  {
    match kind
    case AliasIndex => a.aliases
    case AsciiIndex => a.ascii
    case CharacterIndex => []
  }

  /** The aliases that applicable adjuncts named `n` append to its entry, in order. */
  function AppendedAliases(adjs: seq<Adjunct>, n: string): seq<string>
    decreases |adjs|
  {
    if adjs == [] then []
    else AppendedAliases(adjs[..|adjs| - 1], n) + (if adjs[|adjs| - 1].name == n then adjs[|adjs| - 1].aliases else [])
  }

  /** The table as the adjunct phase leaves it. */
  function AdjunctTable(t: map<string, Entry>, adjs: seq<Adjunct>): map<string, Entry>
    decreases |adjs|
  {
    if adjs == [] then t
    else
      var t', a := AdjunctTable(t, adjs[..|adjs| - 1]), adjs[|adjs| - 1];
      if a.name in t' then t'[a.name := t'[a.name].(aliases := t'[a.name].aliases + a.aliases)] else t'
  }

  lemma {:induction false} AdjunctsPhaseAdjunctTable(s: Metadata, adjs: seq<Adjunct>)
    ensures AdjunctsPhase(s, adjs).table == AdjunctTable(s.table, adjs)
    decreases |adjs|
  {
    if adjs != [] {
      AdjunctsPhaseAdjunctTable(s, adjs[..|adjs| - 1]);
    }
  }

  lemma {:induction false} AdjunctTableEffect(t: map<string, Entry>, adjs: seq<Adjunct>)
    ensures AdjunctTable(t, adjs).Keys == t.Keys
    ensures forall n :: n in t ==> AdjunctTable(t, adjs)[n] == t[n].(aliases := t[n].aliases + AppendedAliases(adjs, n))
    decreases |adjs|
  {
    if adjs != [] {
      var init, a := adjs[..|adjs| - 1], adjs[|adjs| - 1];
      AdjunctTableEffect(t, init);
      forall n | n in t
        ensures AdjunctTable(t, adjs)[n] == t[n].(aliases := t[n].aliases + AppendedAliases(adjs, n))
      {
        if n == a.name {
          assert t[n].aliases + AppendedAliases(adjs, n) == t[n].aliases + AppendedAliases(init, n) + a.aliases;
        } else {
          assert AppendedAliases(adjs, n) == AppendedAliases(init, n) + [];
          assert AppendedAliases(init, n) + [] == AppendedAliases(init, n);
        }
      }
    }
  }

  /**
   * The adjunct phase on the table: the keys do not change, and an entry's
   * aliases grow by those of the adjuncts naming it, in order, duplicates
   * kept; its other fields are untouched.
   */
  lemma AdjunctsPhaseTable(s: Metadata, adjs: seq<Adjunct>)
    ensures AdjunctsPhase(s, adjs).table.Keys == s.table.Keys
    ensures forall n :: n in s.table ==>
              AdjunctsPhase(s, adjs).table[n] == s.table[n].(aliases := s.table[n].aliases + AppendedAliases(adjs, n))
  {
    AdjunctsPhaseAdjunctTable(s, adjs);
    AdjunctTableEffect(s.table, adjs);
  }

  /** The adjunct phase leaves the characters, the buckets and the attribution list alone. */
  lemma {:induction false} AdjunctsPhaseKeeps(s: Metadata, adjs: seq<Adjunct>)
    ensures AdjunctsPhase(s, adjs).characters == s.characters
    ensures AdjunctsPhase(s, adjs).categories == s.categories && AdjunctsPhase(s, adjs).packs == s.packs
    decreases |adjs|
  {
    if adjs != [] {
      AdjunctsPhaseKeeps(s, adjs[..|adjs| - 1]);
    }
  }

  /** The alias or ascii index as the adjunct phase leaves it, given the (fixed) table keys `names`. */
  function AdjunctIndex(names: set<string>, m: map<string, string>, adjs: seq<Adjunct>, kind: IndexKind): map<string, string>
    decreases |adjs|
  {
    if adjs == [] then m
    else
      AdjunctIndexStep(names, AdjunctIndex(names, m, adjs[..|adjs| - 1], kind), adjs[|adjs| - 1], kind)
  }

  lemma {:induction false} AdjunctsPhaseAdjunctIndex(s: Metadata, adjs: seq<Adjunct>, kind: IndexKind)
    ensures IndexOf(AdjunctsPhase(s, adjs), kind) == AdjunctIndex(s.table.Keys, IndexOf(s, kind), adjs, kind)
    decreases |adjs|
  {
    if adjs != [] {
      AdjunctsPhaseAdjunctIndex(s, adjs[..|adjs| - 1], kind);
      AdjunctsPhaseTable(s, adjs[..|adjs| - 1]);
    }
  }

  /** Adjunct `i` applies (its name is one of `names`) and lists `k`. */
  ghost predicate AdjunctLists(names: set<string>, adjs: seq<Adjunct>, i: int, kind: IndexKind, k: string)
    requires 0 <= i < |adjs|
  {
    adjs[i].name in names && k in AdjunctKeys(adjs[i], kind)
  }

  /** Adjunct `i` is the last applicable adjunct listing `k`. */
  ghost predicate LastLister(names: set<string>, adjs: seq<Adjunct>, i: int, kind: IndexKind, k: string)
    requires 0 <= i < |adjs|
  {
    AdjunctLists(names, adjs, i, kind, k) && forall j :: i < j < |adjs| ==> !AdjunctLists(names, adjs, j, kind, k)
  }

  /** No applicable adjunct lists `k`. */
  ghost predicate Unlisted(names: set<string>, adjs: seq<Adjunct>, kind: IndexKind, k: string)
  {
    forall i :: 0 <= i < |adjs| ==> !AdjunctLists(names, adjs, i, kind, k)
  }

  /**
   * Last-wins over `adjs` from `m0` to `m`: a key listed by an applicable
   * adjunct belongs to the last such adjunct's name, whoever owned it
   * before; every other key is untouched.
   */
  ghost predicate AdjunctIndexLastWins(names: set<string>, m0: map<string, string>, adjs: seq<Adjunct>, kind: IndexKind, m: map<string, string>)
  {
    && (forall i, k :: 0 <= i < |adjs| && LastLister(names, adjs, i, kind, k) ==> k in m && m[k] == adjs[i].name)
    && (forall k :: Unlisted(names, adjs, kind, k) ==> (k in m <==> k in m0) && (k in m0 ==> m[k] == m0[k]))
  }

  /** The index after one more adjunct `a`. */
  function AdjunctIndexStep(names: set<string>, m: map<string, string>, a: Adjunct, kind: IndexKind): map<string, string>
  {
    if a.name in names then ReplaceAll(m, AdjunctKeys(a, kind), a.name) else m
  }

  lemma AdjunctIndexStepEffect(names: set<string>, m: map<string, string>, a: Adjunct, kind: IndexKind)
    ensures forall k :: a.name in names && k in AdjunctKeys(a, kind) ==>
              k in AdjunctIndexStep(names, m, a, kind) && AdjunctIndexStep(names, m, a, kind)[k] == a.name
    ensures forall k :: !(a.name in names && k in AdjunctKeys(a, kind)) ==>
              (k in AdjunctIndexStep(names, m, a, kind) <==> k in m) &&
              (k in m ==> AdjunctIndexStep(names, m, a, kind)[k] == m[k])
  {
    ReplaceAllEffect(m, AdjunctKeys(a, kind), a.name);
  }

  lemma AdjunctIndexStepListed(names: set<string>, m0: map<string, string>, adjs: seq<Adjunct>, kind: IndexKind, m: map<string, string>)
    requires adjs != []
    requires AdjunctIndexLastWins(names, m0, adjs[..|adjs| - 1], kind, m)
    ensures forall i, k :: 0 <= i < |adjs| && LastLister(names, adjs, i, kind, k) ==>
              var m' := AdjunctIndexStep(names, m, adjs[|adjs| - 1], kind);
              k in m' && m'[k] == adjs[i].name
  {
    var init, a := adjs[..|adjs| - 1], adjs[|adjs| - 1];
    var m' := AdjunctIndexStep(names, m, a, kind);
    AdjunctIndexStepEffect(names, m, a, kind);
    forall i, k | 0 <= i < |adjs| && LastLister(names, adjs, i, kind, k)
      ensures k in m' && m'[k] == adjs[i].name
    {
      if i < |init| {
        assert !AdjunctLists(names, adjs, |init|, kind, k);
        assert LastLister(names, init, i, kind, k) by {
          assert adjs[i] == init[i];
          forall j | i < j < |init| ensures !AdjunctLists(names, init, j, kind, k) {
            assert adjs[j] == init[j];
            assert !AdjunctLists(names, adjs, j, kind, k);
          }
        }
      } else {
        assert adjs[i] == a;
      }
    }
  }

  lemma AdjunctIndexStepUnlisted(names: set<string>, m0: map<string, string>, adjs: seq<Adjunct>, kind: IndexKind, m: map<string, string>)
    requires adjs != []
    requires AdjunctIndexLastWins(names, m0, adjs[..|adjs| - 1], kind, m)
    ensures forall k :: Unlisted(names, adjs, kind, k) ==>
              var m' := AdjunctIndexStep(names, m, adjs[|adjs| - 1], kind);
              (k in m' <==> k in m0) && (k in m0 ==> m'[k] == m0[k])
  {
    var init, a := adjs[..|adjs| - 1], adjs[|adjs| - 1];
    var m' := AdjunctIndexStep(names, m, a, kind);
    AdjunctIndexStepEffect(names, m, a, kind);
    forall k | Unlisted(names, adjs, kind, k)
      ensures (k in m' <==> k in m0) && (k in m0 ==> m'[k] == m0[k])
    {
      assert !AdjunctLists(names, adjs, |init|, kind, k);
      assert Unlisted(names, init, kind, k) by {
        forall i | 0 <= i < |init| ensures !AdjunctLists(names, init, i, kind, k) {
          assert adjs[i] == init[i];
          assert !AdjunctLists(names, adjs, i, kind, k);
        }
      }
    }
  }

  lemma {:induction false} AdjunctIndexLastWinsFold(names: set<string>, m0: map<string, string>, adjs: seq<Adjunct>, kind: IndexKind)
    ensures AdjunctIndexLastWins(names, m0, adjs, kind, AdjunctIndex(names, m0, adjs, kind))
    decreases |adjs|
  {
    if adjs != [] {
      AdjunctIndexLastWinsFold(names, m0, adjs[..|adjs| - 1], kind);
      AdjunctIndexStepListed(names, m0, adjs, kind, AdjunctIndex(names, m0, adjs[..|adjs| - 1], kind));
      AdjunctIndexStepUnlisted(names, m0, adjs, kind, AdjunctIndex(names, m0, adjs[..|adjs| - 1], kind));
    }
  }

  /**
   * The adjunct phase on the alias and ascii indexes is last-wins and
   * unconditional: a key listed (verbatim) by an adjunct whose name is a
   * table key belongs to the last such adjunct's name, even when a pack
   * or a customization emoji claimed it first; every other key is untouched.
   */
  lemma AdjunctsPhaseIndex(s: Metadata, adjs: seq<Adjunct>, kind: IndexKind)
    ensures AdjunctIndexLastWins(s.table.Keys, IndexOf(s, kind), adjs, kind, IndexOf(AdjunctsPhase(s, adjs), kind))
  {
    AdjunctsPhaseAdjunctIndex(s, adjs, kind);
    AdjunctIndexLastWinsFold(s.table.Keys, IndexOf(s, kind), adjs, kind);
  }
}
