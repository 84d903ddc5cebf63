/**
 * The data the merge engine reads and builds: emoji packs, the
 * customization overlay, and the six merged results.
 */
module Types {
  import opened Wrappers

  /**
   * One emoji of a pack's dictionary. A field the pack does not declare is
   * `None`; an image given as the empty string behaves like no image.
   */
  datatype Emoji = Emoji(
    character: Option<string>,
    image: Option<string>,
    aliases: Option<seq<string>>,
    keywords: Option<seq<string>>,
    ascii: Option<seq<string>>,
    categories: Option<seq<string>>)

  /** A pack's dictionary: raw key and emoji, in the order `Object.keys` yields them. */
  type Dictionary = seq<(string, Emoji)>

  /**
   * A loaded emoji pack. `id`, `name` and `mode` are the empty string when
   * undeclared (both are falsy in JavaScript); a missing dictionary is `None`.
   */
  datatype Pack = Pack(
    id: string,
    name: string,
    mode: string,
    dictionary: Option<Dictionary>,
    attribution: Option<string>,
    license: Option<string>)

  /** The validity test the pipeline applies before merging. */
  predicate IsValid(p: Pack)
  {
    p.id != "" && p.name != "" && p.mode != "" && p.dictionary.Some?
  }

  /** Every pack of a `(path, pack)` list is valid. */
  predicate AllValid(ps: seq<(string, Pack)>)
  {
    forall i :: 0 <= i < |ps| ==> IsValid(ps[i].1)
  }

  /** The attribution record kept for each pack. */
  datatype PackInfo = PackInfo(name: string, id: string, attribution: Option<string>, license: Option<string>)

  /** An entry of the canonical table. `character` is `None` when the pack declared none. */
  datatype Entry = Entry(
    name: string,
    character: Option<string>,
    image: string,
    pack: string,
    aliases: seq<string>,
    keywords: seq<string>)

  /** A user-defined emoji of the customization overlay. */
  datatype CustomEmoji = CustomEmoji(name: string, image: string, aliases: seq<string>, ascii: seq<string>)

  /** Extra aliases and ascii codes for an existing table entry. */
  datatype Adjunct = Adjunct(name: string, aliases: seq<string>, ascii: seq<string>)

  datatype Customizations = Customizations(emojis: seq<CustomEmoji>, adjuncts: seq<Adjunct>)

  /**
   * The six results of the merge: canonical table, alias, ascii and
   * character indexes (each key to a canonical name), category buckets and
   * the pack attribution list.
   */
  datatype Metadata = Metadata(
    table: map<string, Entry>,
    aliases: map<string, string>,
    ascii: map<string, string>,
    characters: map<string, string>,
    categories: map<string, seq<string>>,
    packs: seq<PackInfo>)

  const EmptyMetadata := Metadata(map[], map[], map[], map[], map[], [])
}
