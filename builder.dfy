/**
 * The plugin's build step as it runs the merge: six results held in one object and
 * updated in place by nested loops, each operation proved to produce the
 * state its specification function in module Merge describes.
 */
module Build {
  import opened Wrappers
  import opened Text
  import opened Types
  import opened Indexes
  import opened Merge

  /** Each key of `list`, lowered, is given to `v` unless it is already claimed; earlier keys go first. */
  method InsertLoweredIfUnclaimed(m: map<string, string>, list: seq<string>, v: string) returns (r: map<string, string>)
    ensures r == InsertAllIfUnclaimed(m, LowerAll(list), v)
  {
    r := m;
    for k := 0 to |list|
      invariant r == InsertAllIfUnclaimed(m, LowerAll(list[..k]), v)
    {
      assert LowerAll(list[..k + 1]) == LowerAll(list[..k]) + [Lower(list[k])];
      var a := Lower(list[k]);
      if !Claimed(r, a) {
        r := r[a := v];
      }
    }
    assert list[..|list|] == list;
  }

  /** Each key of `list`, verbatim, is given to `v` unless it is already claimed; earlier keys go first. */
  method InsertEachIfUnclaimed(m: map<string, string>, list: seq<string>, v: string) returns (r: map<string, string>)
    ensures r == InsertAllIfUnclaimed(m, list, v)
  {
    r := m;
    for k := 0 to |list|
      invariant r == InsertAllIfUnclaimed(m, list[..k], v)
    {
      assert list[..k + 1][..k] == list[..k];
      if !Claimed(r, list[k]) {
        r := r[list[k] := v];
      }
    }
    assert list[..|list|] == list;
  }

  /** Each key of `list` is given to `v`, whoever held it before. */
  method ReplaceEach(m: map<string, string>, list: seq<string>, v: string) returns (r: map<string, string>)
    ensures r == ReplaceAll(m, list, v)
  {
    r := m;
    for k := 0 to |list|
      invariant r == ReplaceAll(m, list[..k], v)
    {
      assert list[..k + 1][..k] == list[..k];
      r := r[list[k] := v];
    }
    assert list[..|list|] == list;
  }

  /** `n` is pushed onto the bucket of each category of `cats`, once per listing; a missing bucket starts empty. */
  method PushToEach(m: map<string, seq<string>>, cats: seq<string>, n: string) returns (r: map<string, seq<string>>)
    ensures r == AppendToAll(m, cats, n)
  {
    r := m;
    for k := 0 to |cats|
      invariant r == AppendToAll(m, cats[..k], n)
    {
      assert cats[..k + 1][..k] == cats[..k];
      r := r[cats[k] := Bucket(r, cats[k]) + [n]];
    }
    assert cats[..|cats|] == cats;
  }

  class Builder {
    var table: map<string, Entry>
    var aliases: map<string, string>
    var ascii: map<string, string>
    var characters: map<string, string>
    var categories: map<string, seq<string>>
    var packs: seq<PackInfo>

    /** The six results as one value. */
    function Snapshot(): Metadata
      reads this
    {
      Metadata(table, aliases, ascii, characters, categories, packs)
    }

    /** Six empty results. */
    constructor ()
      ensures Snapshot() == EmptyMetadata
    {
      table, aliases, ascii, characters, categories, packs := map[], map[], map[], map[], map[], [];
    }

    /** The body of the dictionary loop for one key, already lowered to `name`. */
    method RegisterEmoji(name: string, packId: string, emoji: Emoji)
      modifies this
      ensures Snapshot() == Register(old(Snapshot()), Item(name, packId, emoji))
    {
      if name !in table {
        table := table[name := NewEntry(Item(name, packId, emoji))];
      }

      if emoji.character.Some? && emoji.character.value != "" {
        var c := emoji.character.value;
        assert CharacterKeys(emoji)[..0] == [];
        assert InsertAllIfUnclaimed(characters, CharacterKeys(emoji), name) == InsertIfUnclaimed(characters, c, name);
        if !Claimed(characters, c) {
          characters := characters[c := name];
        }
      }

      if emoji.aliases.Some? {
        aliases := InsertLoweredIfUnclaimed(aliases, emoji.aliases.value, name);
      }
      if emoji.ascii.Some? {
        ascii := InsertEachIfUnclaimed(ascii, emoji.ascii.value, name);
      }
      categories := PushToEach(categories, CategoriesOf(emoji), name);
    }

    /** One iteration of the packs loop. */
    method ApplyPack(pack: Pack)
      requires IsValid(pack)
      modifies this
      ensures Snapshot() == PackStep(old(Snapshot()), pack)
    {
      packs := packs + [Info(pack)];
      var dict := pack.dictionary.value;
      ghost var start := Snapshot();
      for j := 0 to |dict|
        invariant Snapshot() == RegisterAll(start, Items(pack)[..j])
      {
        assert Items(pack)[..j + 1][..j] == Items(pack)[..j];
        RegisterEmoji(Lower(dict[j].0), pack.id, dict[j].1);
      }
      assert Items(pack)[..|dict|] == Items(pack);
    }

    /** `uniq` applied to every category bucket, one key at a time. */
    method DedupCategories()
      modifies this
      ensures Snapshot() == Dedup(old(Snapshot()))
    {
      var todo := categories.Keys;
      ghost var done: set<string> := {};
      var buckets := categories;
      while todo != {}
        invariant todo !! done && todo + done == categories.Keys
        invariant buckets.Keys == categories.Keys
        invariant forall c :: c in buckets ==> buckets[c] == if c in done then Uniq(categories[c]) else categories[c]
        decreases todo
      {
        var c :| c in todo;
        buckets := buckets[c := Uniq(buckets[c])];
        todo, done := todo - {c}, done + {c};
      }
      categories := buckets;
    }

    /** One iteration of the customization-emoji loop. */
    method ApplyCustomEmoji(emoji: CustomEmoji)
      modifies this
      ensures Snapshot() == CustomStep(old(Snapshot()), emoji)
    {
      var name := Lower(emoji.name);
      table := table[name := CustomEntry(emoji)];

      aliases := InsertLoweredIfUnclaimed(aliases, emoji.aliases, name);
      ascii := InsertEachIfUnclaimed(ascii, emoji.ascii, name);

      categories := categories["custom" := Bucket(categories, "custom") + [name]];
    }

    /** One iteration of the adjunct loop. */
    method ApplyAdjunct(adjunct: Adjunct)
      modifies this
      ensures Snapshot() == AdjunctStep(old(Snapshot()), adjunct)
    {
      var name := adjunct.name;
      if name !in table {
        return;
      }
      table := table[name := table[name].(aliases := table[name].aliases + adjunct.aliases)];

      aliases := ReplaceEach(aliases, adjunct.aliases, name);
      ascii := ReplaceEach(ascii, adjunct.ascii, name);
    }

    /** The packs loop. */
    method ApplyPacks(ps: seq<(string, Pack)>)
      requires AllValid(ps)
      modifies this
      ensures Snapshot() == PacksPhase(old(Snapshot()), ps)
    {
      ghost var start := Snapshot();
      for i := 0 to |ps|
        invariant Snapshot() == PacksPhase(start, ps[..i])
      {
        assert ps[..i + 1][..i] == ps[..i];
        ApplyPack(ps[i].1);
      }
      assert ps[..|ps|] == ps;
    }

    /** The customization-emoji loop. */
    method ApplyCustomEmojis(emojis: seq<CustomEmoji>)
      modifies this
      ensures Snapshot() == CustomsPhase(old(Snapshot()), emojis)
    {
      ghost var start := Snapshot();
      for i := 0 to |emojis|
        invariant Snapshot() == CustomsPhase(start, emojis[..i])
      {
        assert emojis[..i + 1][..i] == emojis[..i];
        ApplyCustomEmoji(emojis[i]);
      }
      assert emojis[..|emojis|] == emojis;
    }

    /** The adjunct loop. */
    method ApplyAdjuncts(adjuncts: seq<Adjunct>)
      modifies this
      ensures Snapshot() == AdjunctsPhase(old(Snapshot()), adjuncts)
    {
      ghost var start := Snapshot();
      for i := 0 to |adjuncts|
        invariant Snapshot() == AdjunctsPhase(start, adjuncts[..i])
      {
        assert adjuncts[..i + 1][..i] == adjuncts[..i];
        ApplyAdjunct(adjuncts[i]);
      }
      assert adjuncts[..|adjuncts|] == adjuncts;
    }
  }

  /**
   * The merge step: a fresh builder, the packs loop, one de-duplication,
   * the customization-emoji loop and the adjunct loop.
   */
  method MergeStep(packs: seq<(string, Pack)>, customizations: Customizations) returns (result: Metadata)
    requires AllValid(packs)
    ensures result == MergeAll(packs, customizations)
  {
    var b := new Builder();
    b.ApplyPacks(packs);
    b.DedupCategories();
    b.ApplyCustomEmojis(customizations.emojis);
    b.ApplyAdjuncts(customizations.adjuncts);
    result := b.Snapshot();
  }
}
