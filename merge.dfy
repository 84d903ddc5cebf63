/**
 * Functional specification of the merge engine: how one pack emoji, one
 * pack, the category de-duplication, one customization emoji and one
 * adjunct change the six results, and the whole merge as their fold.
 */
module Merge {
  import opened Wrappers
  import opened Text
  import opened Types
  import opened Indexes

  /** A dictionary entry as the packs phase processes it: lowered name, owning pack id, emoji. */
  datatype Item = Item(name: string, pack: string, emoji: Emoji)

  /** The character keys an emoji registers: its character when truthy. */
  function CharacterKeys(e: Emoji): seq<string>
  {
    if e.character.Some? && e.character.value != "" then [e.character.value] else []
  }

  /** The alias keys an emoji registers: its aliases, lowered. */
  function AliasKeys(e: Emoji): seq<string>
  {
    LowerAll(e.aliases.GetOr([]))
  }

  /** The ascii keys an emoji registers, verbatim. */
  function AsciiKeys(e: Emoji): seq<string>
  {
    e.ascii.GetOr([])
  }

  /** `emoji.categories || ['other']`: an empty list is truthy and stays empty. */
  function CategoriesOf(e: Emoji): seq<string>
  {
    e.categories.GetOr(["other"])
  }

  /** The table entry a pack emoji creates when its name is new. */
  function NewEntry(it: Item): Entry
  {
    Entry(it.name, it.emoji.character, it.emoji.image.GetOr(""), it.pack,
          it.emoji.aliases.GetOr([]), it.emoji.keywords.GetOr([]))
  }

  /**
   * One iteration of the dictionary loop: the table slot is first-wins;
   * the character, alias and ascii indexes are first-wins per key whether
   * or not the table slot was new; the name joins each of its category
   * buckets.
   */
  function Register(s: Metadata, it: Item): Metadata
  {
    s.(table := if it.name in s.table then s.table else s.table[it.name := NewEntry(it)],
       characters := InsertAllIfUnclaimed(s.characters, CharacterKeys(it.emoji), it.name),
       aliases := InsertAllIfUnclaimed(s.aliases, AliasKeys(it.emoji), it.name),
       ascii := InsertAllIfUnclaimed(s.ascii, AsciiKeys(it.emoji), it.name),
       categories := AppendToAll(s.categories, CategoriesOf(it.emoji), it.name))
  }

  /** `items` registered in order. */
  function RegisterAll(s: Metadata, items: seq<Item>): Metadata
    decreases |items|
  {
    if items == [] then s
    else Register(RegisterAll(s, items[..|items| - 1]), items[|items| - 1])
  }

  function Info(p: Pack): PackInfo
  {
    PackInfo(p.name, p.id, p.attribution, p.license)
  }

  /** The attribution records of a pack list, in order. */
  function Infos(ps: seq<(string, Pack)>): seq<PackInfo>
  {
    seq(|ps|, i requires 0 <= i < |ps| => Info(ps[i].1))
  }

  /**
   * The dictionary of a pack as items, in key order: one item per key,
   * named in lower case, owned by the pack and carrying the key's emoji.
   */
  function Items(p: Pack): (r: seq<Item>)
    requires p.dictionary.Some?
    ensures |r| == |p.dictionary.value|
    ensures forall i :: 0 <= i < |r| ==>
              && IsLower(r[i].name)
              && r[i].pack == p.id
              && r[i].emoji == p.dictionary.value[i].1
  {
    var d := p.dictionary.value;
    seq(|d|, i requires 0 <= i < |d| => Item(Lower(d[i].0), p.id, d[i].1))
  }

  /** Every dictionary entry of every pack, in processing order. */
  function Flat(ps: seq<(string, Pack)>): seq<Item>
    requires AllValid(ps)
    decreases |ps|
  {
    if ps == [] then []
    else Flat(ps[..|ps| - 1]) + Items(ps[|ps| - 1].1)
  }

  /** One iteration of the packs loop: record the attribution, then register the dictionary. */
  function PackStep(s: Metadata, p: Pack): Metadata
    requires IsValid(p)
  {
    RegisterAll(s.(packs := s.packs + [Info(p)]), Items(p))
  }

  /** The packs phase over `ps`, in order. */
  function PacksPhase(s: Metadata, ps: seq<(string, Pack)>): Metadata
    requires AllValid(ps)
    decreases |ps|
  {
    if ps == [] then s
    else PackStep(PacksPhase(s, ps[..|ps| - 1]), ps[|ps| - 1].1)
  }

  /** Every category bucket replaced by its `uniq`. */
  function Dedup(s: Metadata): Metadata
  {
    s.(categories := map c | c in s.categories :: Uniq(s.categories[c]))
  }

  /** The table entry a customization emoji writes. */
  function CustomEntry(e: CustomEmoji): Entry
  {
    Entry(Lower(e.name), Some(""), e.image, "customizations", e.aliases, [])
  }

  /**
   * One customization emoji: its table slot is overwritten unconditionally,
   * its lowered aliases and its ascii codes are first-wins, and its name is
   * pushed onto the `custom` bucket.
   */
  function CustomStep(s: Metadata, e: CustomEmoji): Metadata
  {
    var n := Lower(e.name);
    s.(table := s.table[n := CustomEntry(e)],
       aliases := InsertAllIfUnclaimed(s.aliases, LowerAll(e.aliases), n),
       ascii := InsertAllIfUnclaimed(s.ascii, e.ascii, n),
       categories := AppendName(s.categories, "custom", n))
  }

  function CustomsPhase(s: Metadata, es: seq<CustomEmoji>): Metadata
    decreases |es|
  {
    if es == [] then s
    else CustomStep(CustomsPhase(s, es[..|es| - 1]), es[|es| - 1])
  }

  /**
   * One adjunct: skipped when its name, taken verbatim, is not a table key;
   * otherwise its aliases are appended to the entry's and its aliases and
   * ascii codes, both verbatim, are given to the name unconditionally.
   */
  function AdjunctStep(s: Metadata, a: Adjunct): Metadata
  {
    if a.name !in s.table then s
    else
      var e := s.table[a.name];
      s.(table := s.table[a.name := e.(aliases := e.aliases + a.aliases)],
         aliases := ReplaceAll(s.aliases, a.aliases, a.name),
         ascii := ReplaceAll(s.ascii, a.ascii, a.name))
  }

  function AdjunctsPhase(s: Metadata, adjs: seq<Adjunct>): Metadata
    decreases |adjs|
  {
    if adjs == [] then s
    else AdjunctStep(AdjunctsPhase(s, adjs[..|adjs| - 1]), adjs[|adjs| - 1])
  }

  /** The whole merge: packs, one de-duplication of the buckets, customization emojis, adjuncts. */
  function MergeAll(ps: seq<(string, Pack)>, c: Customizations): Metadata
    requires AllValid(ps)
  {
    AdjunctsPhase(CustomsPhase(Dedup(PacksPhase(EmptyMetadata, ps)), c.emojis), c.adjuncts)
  }
}
