/** A worked example of the first-wins character index across two packs. */
module MergeExample {
  import opened Wrappers
  import opened Text
  import opened Types
  import opened Indexes
  import opened Merge
  import opened PacksPhaseProperties

  const Grin := Emoji(Some("\U{1F601}"), None, None, None, None, None)
  const Smile := Emoji(Some("\U{1F642}"), None, None, None, None, None)
  const PackA := Pack("a", "Pack A", "images", Some([("grin", Grin)]), None, None)
  const PackB := Pack("b", "Pack B", "images", Some([("grin", Grin), ("smile", Smile)]), None, None)

  lemma InsertOne(m: map<string, string>, k: string, v: string)
    ensures InsertAllIfUnclaimed(m, [k], v) == InsertIfUnclaimed(m, k, v)
  {
    assert [k][..0] == [];
  }

  const Packs := [("a", PackA), ("b", PackB)]
  const Registered := [Item("grin", "a", Grin), Item("grin", "b", Grin), Item("smile", "b", Smile)]

  lemma ExampleFlat()
    ensures AllValid(Packs) && Flat(Packs) == Registered
  {
    LowerIsLower("grin");
    LowerIsLower("smile");
    assert IsLower("grin") && IsLower("smile");
    assert Items(PackA) == Registered[..1];
    assert Items(PackB) == Registered[1..];
    assert Packs[..1] == [("a", PackA)];
    assert Flat(Packs[..1]) == Registered[..1];
  }

  lemma ExampleRegister()
    ensures var r := RegisterAll(EmptyMetadata, Registered);
      && r.characters == map["\U{1F601}" := "grin", "\U{1F642}" := "smile"]
      && "grin" in r.table && r.table["grin"].pack == "a"
      && "smile" in r.table && r.table["smile"].pack == "b"
  {
    var items := Registered;
    assert CharacterKeys(Grin) == ["\U{1F601}"] && CharacterKeys(Smile) == ["\U{1F642}"];
    InsertOne(map[], "\U{1F601}", "grin");
    InsertOne(map["\U{1F601}" := "grin"], "\U{1F601}", "grin");
    InsertOne(map["\U{1F601}" := "grin"], "\U{1F642}", "smile");
    var r1 := Register(EmptyMetadata, items[0]);
    assert r1.characters == map["\U{1F601}" := "grin"] && r1.table["grin"].pack == "a";
    var r2 := Register(r1, items[1]);
    assert r2.characters == r1.characters && r2.table["grin"].pack == "a";
    var r3 := Register(r2, items[2]);
    assert r3.characters == map["\U{1F601}" := "grin", "\U{1F642}" := "smile"];
    assert r3.table["grin"].pack == "a" && r3.table["smile"].pack == "b";
    assert items[..1][..0] == [] && items[..2][..1] == items[..1] && items[..3][..2] == items[..2];
    assert RegisterAll(EmptyMetadata, items[..1]) == r1;
    assert RegisterAll(EmptyMetadata, items[..2]) == r2;
    assert items[..3] == items;
  }

  /**
   * Two packs that both define `grin` with the same character, the second
   * also defining `smile`: the character index maps each character to the
   * first name registered for it, and `grin` keeps pack `a`'s entry.
   */
  lemma TwoPacksShareACharacter()
    ensures AllValid(Packs)
    ensures var r := MergeAll(Packs, Customizations([], []));
      && r.characters == map["\U{1F601}" := "grin", "\U{1F642}" := "smile"]
      && "grin" in r.table && r.table["grin"].pack == "a"
      && "smile" in r.table && r.table["smile"].pack == "b"
  {
    ExampleFlat();
    ExampleRegister();
    PacksPhaseFlat(EmptyMetadata, Packs);
    assert MergeAll(Packs, Customizations([], [])) == Dedup(PacksPhase(EmptyMetadata, Packs));
  }
}
