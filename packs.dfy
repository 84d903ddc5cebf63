/**
 * The pure selection steps around the merge: which loaded packs are kept,
 * which font files a font pack declares, the names a pack directory may
 * define its emoji in, and how the stylesheet is assembled.
 */
module Packs {
  import opened Wrappers
  import opened Types

  // ---------------------------------------------------------------------
  // Validity filter

  /**
   * One element of the loading step's result: `None` when loading threw,
   * otherwise the pack directory and the value the definition gave, which
   * may itself be missing.
   */
  type Loaded = Option<(string, Option<Pack>)>

  /** A loaded element survives both filters: it is present, has a pack, and the pack is valid. */
  predicate Kept(l: Loaded)
  {
    l.Some? && l.value.1.Some? && IsValid(l.value.1.value)
  }

  /** The (directory, pack) pair of a kept element. */
  function Pair(l: Loaded): (string, Pack)
    requires Kept(l)
  {
    (l.value.0, l.value.1.value)
  }

  /**
   * The present elements whose pack has a truthy id, name, mode and
   * dictionary, as (directory, pack) pairs, in input order.
   */
  function Validate(loaded: seq<Loaded>): (r: seq<(string, Pack)>)
    ensures AllValid(r)
    ensures |r| <= |loaded|
    ensures forall path, p :: (path, p) in r <==> Some((path, Some(p))) in loaded && IsValid(p)
    decreases |loaded|
  {
    if loaded == [] then []
    else
      var init, l := loaded[..|loaded| - 1], loaded[|loaded| - 1];
      assert loaded == init + [l];
      Validate(init) + (if Kept(l) then [Pair(l)] else [])
  }

  /** The filter works element by element, so it keeps the input order. */
  lemma {:induction false} ValidateAppend(a: seq<Loaded>, b: seq<Loaded>)
    ensures Validate(a + b) == Validate(a) + Validate(b)
    decreases |b|
  {
    if b == [] {
      assert a + b == a;
    } else {
      assert (a + b)[..|a + b| - 1] == a + b[..|b| - 1];
      ValidateAppend(a, b[..|b| - 1]);
    }
  }

  /** When every element is kept, nothing is dropped and nothing is reordered. */
  lemma {:induction false} ValidateKeepsAll(loaded: seq<Loaded>)
    requires forall i :: 0 <= i < |loaded| ==> Kept(loaded[i])
    ensures |Validate(loaded)| == |loaded|
    ensures forall i :: 0 <= i < |loaded| ==> Validate(loaded)[i] == Pair(loaded[i])
    decreases |loaded|
  {
    if loaded != [] {
      var init, l := loaded[..|loaded| - 1], loaded[|loaded| - 1];
      assert forall i :: 0 <= i < |init| ==> init[i] == loaded[i];
      ValidateKeepsAll(init);
      assert Kept(l);
      assert Validate(loaded) == Validate(init) + [Pair(l)];
    }
  }

  // ---------------------------------------------------------------------
  // Font files

  /** The font files a font pack may declare; an undeclared one is the empty (falsy) string. */
  datatype Font = Font(eot: string, svg: string, woff: string, ttf: string, woff2: string)

  /** `filter(Boolean)` on strings: the non-empty ones, in order. */
  function Declared(xs: seq<string>): (r: seq<string>)
    ensures |r| <= |xs|
    ensures forall x :: x in r <==> x in xs && x != ""
    decreases |xs|
  {
    if xs == [] then []
    else
      var init, x := xs[..|xs| - 1], xs[|xs| - 1];
      assert xs == init + [x];
      Declared(init) + (if x != "" then [x] else [])
  }

  lemma {:induction false} DeclaredAppend(a: seq<string>, b: seq<string>)
    ensures Declared(a + b) == Declared(a) + Declared(b)
    decreases |b|
  {
    if b == [] {
      assert a + b == a;
    } else {
      assert (a + b)[..|a + b| - 1] == a + b[..|b| - 1];
      DeclaredAppend(a, b[..|b| - 1]);
    }
  }

  /** The declared font files to copy, in the order eot, svg, woff, ttf, woff2. */
  function FontFiles(f: Font): (r: seq<string>)
    ensures |r| <= 5
    ensures forall x :: x in r <==> x != "" && (x == f.eot || x == f.svg || x == f.woff || x == f.ttf || x == f.woff2)
  {
    Declared([f.eot, f.svg, f.woff, f.ttf, f.woff2])
  }

  /** The list is the declared files one format at a time, so a file never moves ahead of an earlier format. */
  lemma FontFilesInOrder(f: Font)
    ensures FontFiles(f) ==
              Declared([f.eot]) + Declared([f.svg]) + Declared([f.woff]) + Declared([f.ttf]) + Declared([f.woff2])
  {
    var xs := [f.eot, f.svg, f.woff, f.ttf, f.woff2];
    DeclaredAppend(xs[..4], [f.woff2]);
    DeclaredAppend(xs[..3], [f.ttf]);
    DeclaredAppend(xs[..2], [f.woff]);
    DeclaredAppend(xs[..1], [f.svg]);
    assert xs[..4] + [f.woff2] == xs;
    assert xs[..3] + [f.ttf] == xs[..4];
    assert xs[..2] + [f.woff] == xs[..3];
    assert xs[..1] + [f.svg] == xs[..2];
  }

  /** A font pack that declares all five formats copies all five, in order. */
  lemma FontFilesAllDeclared(f: Font)
    requires f.eot != "" && f.svg != "" && f.woff != "" && f.ttf != "" && f.woff2 != ""
    ensures FontFiles(f) == [f.eot, f.svg, f.woff, f.ttf, f.woff2]
  {
    FontFilesInOrder(f);
    assert [f.eot][..0] == [] && [f.svg][..0] == [] && [f.woff][..0] == [];
    assert [f.ttf][..0] == [] && [f.woff2][..0] == [];
  }

  // ---------------------------------------------------------------------
  // Definition files and stylesheet

  /** The files, relative to a plugin directory, whose presence makes it an emoji pack. */
  const DefinitionFiles: seq<string> := ["emoji.json", "emoji.js"]

  /**
   * The rule appended after every pack's styles: it spells
   * `.emoji-customizations { display: inline-block; height: 23px; }`.
   */
  const CustomizationsRule := ".emoji-customizations" + " { display:" + " inline-block;" + " height: 23px; }"

  /** The customizations rule fits on one line. */
  lemma CustomizationsRuleOneLine()
    ensures '\n' !in CustomizationsRule
  {
    assert '\n' !in ".emoji-customizations";
    assert '\n' !in " { display:";
    assert '\n' !in " inline-block;";
    assert '\n' !in " height: 23px; }";
  }

  /** `xs.join('\n')`. */
  function JoinLines(xs: seq<string>): string
    decreases |xs|
  {
    if xs == [] then ""
    else if |xs| == 1 then xs[0]
    else JoinLines(xs[..|xs| - 1]) + "\n" + xs[|xs| - 1]
  }

  /**
   * The stylesheet: each pack's styles (as its mode's builder produces
   * them, in pack order) joined by newlines, then a newline and the
   * customizations rule.
   */
  function Stylesheet(styles: seq<string>): string
  {
    JoinLines(styles) + "\n" + CustomizationsRule
  }

  /**
   * `s.split('\n')`: the lines of `s`, read back from the text; the empty
   * string is one empty line.
   */
  function Split(s: string): (r: seq<string>)
    ensures |r| >= 1
    decreases |s|
  {
    if s == [] then [""]
    else if s[|s| - 1] == '\n' then Split(s[..|s| - 1]) + [""]
    else
      var r0 := Split(s[..|s| - 1]);
      r0[..|r0| - 1] + [r0[|r0| - 1] + [s[|s| - 1]]]
  }

  /** A string without a newline is a single line. */
  lemma {:induction false} SplitOneLine(b: string)
    requires '\n' !in b
    ensures Split(b) == [b]
    decreases |b|
  {
    if b != [] {
      var b0 := b[..|b| - 1];
      assert '\n' !in b0 by {
        forall i | 0 <= i < |b0| ensures b0[i] != '\n' {
          assert b0[i] == b[i];
        }
      }
      SplitOneLine(b0);
      assert b0 + [b[|b| - 1]] == b;
    }
  }

  /** Appending a newline and a line without newlines adds exactly that line. */
  lemma {:induction false} SplitAddLine(a: string, b: string)
    requires '\n' !in b
    ensures Split(a + "\n" + b) == Split(a) + [b]
    decreases |b|
  {
    var s := a + "\n" + b;
    if b == [] {
      assert s[..|s| - 1] == a;
    } else {
      var b0 := b[..|b| - 1];
      assert '\n' !in b0 by {
        forall i | 0 <= i < |b0| ensures b0[i] != '\n' {
          assert b0[i] == b[i];
        }
      }
      SplitAddLine(a, b0);
      assert s[..|s| - 1] == a + "\n" + b0;
      assert s[|s| - 1] == b[|b| - 1] != '\n';
      assert b0 + [b[|b| - 1]] == b;
    }
  }

  /** Joining lines that hold no newline and splitting again gives the lines back. */
  lemma {:induction false} SplitJoinLines(xs: seq<string>)
    requires xs != []
    requires forall i :: 0 <= i < |xs| ==> '\n' !in xs[i]
    ensures Split(JoinLines(xs)) == xs
    decreases |xs|
  {
    if |xs| == 1 {
      SplitOneLine(xs[0]);
    } else {
      var init, x := xs[..|xs| - 1], xs[|xs| - 1];
      assert forall i :: 0 <= i < |init| ==> init[i] == xs[i];
      SplitJoinLines(init);
      assert JoinLines(xs) == JoinLines(init) + "\n" + x;
      SplitAddLine(JoinLines(init), x);
      assert init + [x] == xs;
    }
  }

  /**
   * Read line by line, the stylesheet holds each pack's styles on a line of
   * its own, in pack order (one empty line when there is no pack), and then
   * the customizations rule as its last line.
   */
  lemma StylesheetLines(styles: seq<string>)
    requires forall i :: 0 <= i < |styles| ==> '\n' !in styles[i]
    ensures Split(Stylesheet(styles)) == (if styles == [] then [""] else styles) + [CustomizationsRule]
  {
    CustomizationsRuleOneLine();
    SplitAddLine(JoinLines(styles), CustomizationsRule);
    if styles != [] {
      SplitJoinLines(styles);
    }
  }

  /** With no pack the stylesheet is just the customizations rule after an empty line. */
  lemma StylesheetNoPacks()
    ensures Stylesheet([]) == "\n" + CustomizationsRule
  {
  }
}
