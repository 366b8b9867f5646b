/** The encoder's output read back by the decoder: the label definitions the
    encoder appends after a blank line form exactly one block match, which
    the decoder removes from the text and folds into its dictionary, so the
    text comes back trimmed and every label maps to the id of its first
    written definition. */
module RoundTrip {
  import opened Wrappers
  import opened Strings
  import opened Grammar
  import opened EntityTypes
  import opened Encoder
  import Decoder

  /** The definitions the encoder writes for `types`, in order, without the
      ones whose label equals their id (the decoder skips those). */
  function Written(types: seq<EntityType>): (r: seq<Definition>)
    ensures |r| <= |types|
  {
    if types == [] then []
    else
      var e := types[0];
      (if Show(e.name) == Show(e.id) then [] else [Definition(Show(e.name), Show(e.id))])
      + Written(types[1..])
  }

  /** The encoder's text followed by a blank line and the definition lines. */
  function WithDefinitions(text: string, types: seq<EntityType>): string {
    text + "\n\n" + Join(DefinitionLines(types), "\n")
  }

  /** Appending the definition lines after a text that ends in a visible
      character and holds no block of its own: the decoder gives the text
      back trimmed, and each label has the id of its first written definition. */
  lemma {:induction false} DefinitionsRoundTrip(text: string, types: seq<EntityType>)
    requires text != [] && !IsSpace(text[|text| - 1]) && Blocks(text, 0) == []
    requires types != [] && forall e :: e in types ==> Readable(e)
    ensures Decoder.WithoutReferences(WithDefinitions(text, types)) == Trim(text)
    ensures forall name :: Lookup(ReadEntities(WithDefinitions(text, types)), name) == FirstId(Written(types), name)
  {
    DecodedText(text, types);
    DecodedLookups(text, types);
  }

  /** The first half of the round trip: the definitions are cut off again. */
  lemma {:induction false} DecodedText(text: string, types: seq<EntityType>)
    requires text != [] && !IsSpace(text[|text| - 1]) && Blocks(text, 0) == []
    requires types != [] && forall e :: e in types ==> Readable(e)
    ensures Decoder.WithoutReferences(WithDefinitions(text, types)) == Trim(text)
  {
    var s := WithDefinitions(text, types);
    OnlyBlock(text, types);
    var b := Block(|text|, |s|);
    assert Decoder.ReplaceBlocks(s, [b], 0) == text + "\n\n" by {
      ReplaceDefinitions(text, types);
    }
    assert AllSpace("\n\n");
    TrimSpacesAfter(text, "\n\n");
  }

  /** The second half of the round trip: every label looks up the id written for it. */
  lemma {:induction false} DecodedLookups(text: string, types: seq<EntityType>)
    requires text != [] && !IsSpace(text[|text| - 1]) && Blocks(text, 0) == []
    requires types != [] && forall e :: e in types ==> Readable(e)
    ensures forall name :: Lookup(ReadEntities(WithDefinitions(text, types)), name) == FirstId(Written(types), name)
  {
    var s := WithDefinitions(text, types);
    forall name
      ensures Lookup(ReadEntities(s), name) == FirstId(Written(types), name)
    {
      ReadEntitiesFirstWins(s, name);
      DefinitionsAccepted(text, types);
    }
  }

  /** The whole round trip from a document: when the annotated text ends in
      a visible character and holds no block, and every labelled entity type
      has a label and an id the definition-line grammar can read, decoding the
      output gives back the trimmed annotated text and the labels' ids. */
  lemma {:induction false} EncodedRoundTrip(src: Source)
    requires src.text.Some?
    requires LabeledEntityTypes(src.config).Some? && LabeledEntityTypes(src.config).value != []
    requires forall e :: e in LabeledEntityTypes(src.config).value ==> Readable(e)
    requires var a := Annotated(src, src.text.value, Validate(src.denotations.GetOr([]), |src.text.value|));
             a != [] && !IsSpace(a[|a| - 1]) && Blocks(a, 0) == []
    ensures Encoded(src).Success?
    ensures Decoder.WithoutReferences(Encoded(src).value)
            == Trim(Annotated(src, src.text.value, Validate(src.denotations.GetOr([]), |src.text.value|)))
    ensures forall name :: Lookup(ReadEntities(Encoded(src).value), name)
                           == FirstId(Written(LabeledEntityTypes(src.config).value), name)
  {
    var text := src.text.value;
    var a := Annotated(src, text, Validate(src.denotations.GetOr([]), |text|));
    var types := LabeledEntityTypes(src.config).value;
    DefinitionsAppended(src);
    assert Encoded(src) == Success(WithDefinitions(a, types));
    DefinitionsRoundTrip(a, types);
  }

  // ---------------------------------------------------------------------------
  // The definition lines form one block, at the end
  // ---------------------------------------------------------------------------

  /** The block list of the output is the appended definitions alone. */
  lemma {:induction false} OnlyBlock(text: string, types: seq<EntityType>)
    requires text != [] && !IsSpace(text[|text| - 1]) && Blocks(text, 0) == []
    requires types != [] && forall e :: e in types ==> Readable(e)
    ensures Blocks(WithDefinitions(text, types), 0) == [Block(|text|, |WithDefinitions(text, types)|)]
  {
    var s := WithDefinitions(text, types);
    var n := |text|;
    var tail := "\n\n" + Join(DefinitionLines(types), "\n");
    assert s == text + tail;
    BlocksNone(text, 0);
    SearchReaches(text, tail);
    DefinitionsBlock(text, types);
    SearchStops(s, n, |s|);
    BlocksSingle(s, Block(n, |s|));
  }

  /** No block is found in the text, so the search in the output reaches the
      end of the text unchanged. */
  lemma {:induction false} SearchReaches(text: string, tail: string)
    requires text != [] && !IsSpace(text[|text| - 1]) && tail != [] && tail[0] == '\n'
    requires FirstBlock(text, 0).None?
    ensures FirstBlock(text + tail, 0) == FirstBlock(text + tail, |text|)
  {
    var s := text + tail;
    if FirstBlock(s, 0).Some? && FirstBlock(s, 0).value.start < |text| {
      var q := FirstBlock(s, 0).value.start;
      FirstBlockLeftmost(text, 0, q);
      BlockAtPrefix(text, tail, q);
      assert false;
    }
    FirstBlockSkipped(s, 0, |text|);
  }

  lemma {:induction false} BlocksNone(s: string, from: nat)
    requires Blocks(s, from) == []
    ensures FirstBlock(s, from).None?
  {
  }

  lemma {:induction false} BlocksSingle(s: string, b: Block)
    requires FirstBlock(s, 0) == Some(b) && b.end == |s|
    ensures Blocks(s, 0) == [b]
  {
    assert Blocks(s, |s|) == [];
  }

  lemma {:induction false} SearchStops(s: string, n: nat, e: nat)
    requires n < |s| && BlockAt(s, n) == Some(e)
    ensures FirstBlock(s, n) == Some(Block(n, e))
  {
  }

  /** The blank line and the definition lines are a block match that runs to
      the end of the output. */
  lemma {:induction false} DefinitionsBlock(text: string, types: seq<EntityType>)
    requires types != [] && forall e :: e in types ==> Readable(e)
    ensures BlockAt(WithDefinitions(text, types), |text|) == Some(|WithDefinitions(text, types)|)
  {
    var s := WithDefinitions(text, types);
    var n := |text|;
    var defs := Join(DefinitionLines(types), "\n");
    DefinitionsText(types);
    assert s[n..n + 2] == "\n\n";
    assert s[n + 1 + 1..|s|] == defs;
    assert AllSpace("\n\n");
    BlockPartsIntro(s, n, n + 1, |s|);
    BlockAtComplete(s, n, n + 1, |s|);
  }

  /** The definition text is a non-empty run of whole definition lines that
      does not end with a newline. */
  lemma {:induction false} DefinitionsText(types: seq<EntityType>)
    requires types != [] && forall e :: e in types ==> Readable(e)
    ensures var defs := Join(DefinitionLines(types), "\n");
            && defs != [] && defs[|defs| - 1] != '\n'
            && WithoutFinalNewline(defs) == defs && DefinitionLinesIn(defs)
  {
    var lines := DefinitionLines(types);
    forall k | 0 <= k < |lines|
      ensures '\n' !in lines[k] && ParseDefinitionLine(lines[k]).Some?
    {
      assert types[k] in types;
      DefinitionLineParses(types[k]);
    }
    var last := types[|types| - 1];
    assert last in types;
    DefinitionLineParses(last);
    JoinEndsWith(lines, "\n");
    SplitJoin(lines, '\n');
  }

  /** A join ends with the last character of its last part. */
  lemma {:induction false} JoinEndsWith(parts: seq<string>, sep: string)
    requires parts != [] && parts[|parts| - 1] != []
    ensures var j := Join(parts, sep); j != [] && j[|j| - 1] == parts[|parts| - 1][|parts[|parts| - 1]| - 1]
    decreases |parts|
  {
    if |parts| > 1 {
      assert parts[1..][|parts| - 2] == parts[|parts| - 1];
      JoinEndsWith(parts[1..], sep);
    }
  }

  // ---------------------------------------------------------------------------
  // Nothing in the text before the definitions is a block
  // ---------------------------------------------------------------------------

  /** A position in the text where no block starts still starts none once
      something beginning with a newline is appended. */
  lemma {:induction false} BlockAtPrefix(text: string, tail: string, q: nat)
    requires q < |text| && !IsSpace(text[|text| - 1]) && tail != [] && tail[0] == '\n'
    requires BlockAt(text, q).None?
    ensures BlockAt(text + tail, q).None?
  {
    SeparatorEndPrefix(text, tail, q);
    if SeparatorEnd(text, q).Some? {
      BlockAtSeparator(text, q, SeparatorEnd(text, q).value);
      SeparatorPrefix(text, tail, q, SeparatorEnd(text, q).value);
    } else {
      BlockAtNone(text + tail, q);
    }
  }

  /** The case where the newline at `q` opens a separator in the text. */
  lemma {:induction false} SeparatorPrefix(text: string, tail: string, q: nat, r: nat)
    requires r + 1 <= |text| && tail != [] && tail[0] == '\n'
    requires SeparatorEnd(text + tail, q) == Some(r) && !DefinitionLineAt(text, r + 1)
    ensures BlockAt(text + tail, q).None?
  {
    BlockAtSeparator(text + tail, q, r);
    DefinitionLineAtPrefix(text, tail, r + 1);
  }

  lemma {:induction false} BlockAtNone(s: string, q: nat)
    requires SeparatorEnd(s, q).None?
    ensures BlockAt(s, q).None?
  {
  }

  lemma {:induction false} BlockAtSeparator(s: string, q: nat, r: nat)
    requires SeparatorEnd(s, q) == Some(r)
    ensures BlockAt(s, q).None? <==> !DefinitionLineAt(s, r + 1)
  {
  }

  /** Whether a line of the text is a definition line does not depend on what
      follows the text. */
  lemma {:induction false} DefinitionLineAtPrefix(text: string, tail: string, a: nat)
    requires a <= |text| && tail != [] && tail[0] == '\n'
    ensures DefinitionLineAt(text + tail, a) == DefinitionLineAt(text, a)
  {
    LineEndPrefix(text, tail, a);
  }

  /** The separator after a newline in the text stops inside the text. */
  lemma {:induction false} SeparatorEndPrefix(text: string, tail: string, q: nat)
    requires q < |text| && !IsSpace(text[|text| - 1])
    ensures SeparatorEnd(text + tail, q) == SeparatorEnd(text, q)
    ensures SeparatorEnd(text, q).Some? ==> SeparatorEnd(text, q).value + 1 <= |text|
  {
    var s := text + tail;
    assert s[q] == text[q];
    if text[q] == '\n' {
      assert q + 1 < |text|;
      SkipSpacesPrefix(text, tail, q + 1);
      var k := SkipSpaces(text, q + 1);
      LastIndexInPrefix(text, tail, '\n', q + 1, k);
    }
  }

  /** Skipping whitespace inside a text that ends in a visible character
      stops inside it, whatever follows. */
  lemma {:induction false} SkipSpacesPrefix(text: string, tail: string, from: nat)
    requires from < |text| && !IsSpace(text[|text| - 1])
    ensures SkipSpaces(text + tail, from) == SkipSpaces(text, from) < |text|
    decreases |text| - from
  {
    assert (text + tail)[from] == text[from];
    if IsSpace(text[from]) {
      SkipSpacesPrefix(text, tail, from + 1);
    }
  }

  /** Searching backwards inside the text ignores what follows it. */
  lemma {:induction false} LastIndexInPrefix(text: string, tail: string, c: char, from: nat, upto: nat)
    requires from <= upto <= |text|
    ensures LastIndexIn(text + tail, c, from, upto) == LastIndexIn(text, c, from, upto)
    decreases upto
  {
    if from < upto {
      assert (text + tail)[upto - 1] == text[upto - 1];
      LastIndexInPrefix(text, tail, c, from, upto - 1);
    }
  }

  /** A line of the text ends where it did, since what follows starts with a newline. */
  lemma {:induction false} LineEndPrefix(text: string, tail: string, a: nat)
    requires a <= |text| && tail != [] && tail[0] == '\n'
    ensures LineEnd(text + tail, a) == LineEnd(text, a)
    ensures (text + tail)[a..LineEnd(text, a)] == text[a..LineEnd(text, a)]
  {
    var s := text + tail;
    var e := LineEnd(text, a);
    assert s[a..e] == text[a..e];
    assert s[e] == '\n';
    IndexOfAt(s, '\n', a, e);
  }

  // ---------------------------------------------------------------------------
  // What the decoder makes of the output
  // ---------------------------------------------------------------------------

  /** Replacing the definition block leaves the text and the blank line. */
  lemma {:induction false} ReplaceDefinitions(text: string, types: seq<EntityType>)
    requires types != []
    ensures var s := WithDefinitions(text, types);
            Decoder.Ordered(s, [Block(|text|, |s|)], 0)
            && Decoder.ReplaceBlocks(s, [Block(|text|, |s|)], 0) == text + "\n\n"
  {
    var s := WithDefinitions(text, types);
    var b := Block(|text|, |s|);
    var block := s[|text|..|s|];
    assert block[0] == s[|text|] == '\n' && block[1] == s[|text| + 1] == '\n';
    assert block[..2] == "\n\n";
    assert Decoder.Replacement(s[|text|..|s|]) == "\n\n";
    assert Decoder.ReplaceBlocks(s, [], |s|) == [];
    assert s[0..|text|] == text;
  }

  /** Whitespace after a text that ends in a visible character is trimmed away. */
  lemma {:induction false} TrimSpacesAfter(text: string, w: string)
    requires text != [] && !IsSpace(text[|text| - 1]) && AllSpace(w)
    ensures Trim(text + w) == Trim(text)
  {
    SkipSpacesPrefix(text, w, 0);
    var k := SkipSpaces(text, 0);
    assert TrimStart(text + w) == text[k..] + w;
    TrimEndSpaces(text[k..], w);
  }

  /** `trimEnd` ignores trailing whitespace added to its input. */
  lemma {:induction false} TrimEndSpaces(t: string, w: string)
    requires AllSpace(w)
    ensures TrimEnd(t + w) == TrimEnd(t)
    decreases |w|
  {
    if w != [] {
      var u := w[..|w| - 1];
      assert (t + w)[..|t + w| - 1] == t + u;
      assert IsSpace(w[|w| - 1]);
      TrimEndSpaces(t, u);
    } else {
      assert t + w == t;
    }
  }

  /** The lines the decoder reads from the output are accepted as the
      definitions the encoder wrote. */
  lemma {:induction false} DefinitionsAccepted(text: string, types: seq<EntityType>)
    requires text != [] && !IsSpace(text[|text| - 1]) && Blocks(text, 0) == []
    requires types != [] && forall e :: e in types ==> Readable(e)
    ensures Accepted(AllLines(WithDefinitions(text, types), Blocks(WithDefinitions(text, types), 0))) == Written(types)
  {
    var s := WithDefinitions(text, types);
    var b := Block(|text|, |s|);
    OnlyBlock(text, types);
    OneBlockLines(s, b);
    DefinitionBlockSplit(text, types);
    BlankLinesSkipped(DefinitionLines(types));
    WrittenAccepted(types);
  }

  /** The lines of a single block are the lines of that block. */
  lemma {:induction false} OneBlockLines(s: string, b: Block)
    requires b.start <= b.end <= |s|
    ensures InText(s, [b]) && AllLines(s, [b]) == BlockLines(s, b)
  {
    assert [b][..0] == [];
  }

  /** The block's text splits into the two empty lines of the separator and
      then the definition lines. */
  lemma {:induction false} DefinitionBlockSplit(text: string, types: seq<EntityType>)
    requires types != [] && forall e :: e in types ==> Readable(e)
    ensures var s := WithDefinitions(text, types);
            BlockLines(s, Block(|text|, |s|)) == ["", ""] + DefinitionLines(types)
  {
    var s := WithDefinitions(text, types);
    var defs := Join(DefinitionLines(types), "\n");
    assert s[|text|..|s|] == "\n\n" + defs;
    SplitBlankLines(defs);
    LinesSplit(types);
  }

  /** Two newlines in front split off two empty lines. */
  lemma {:induction false} SplitBlankLines(y: string)
    ensures Split("\n\n" + y, '\n') == ["", ""] + Split(y, '\n')
  {
    assert "\n\n" + y == [] + ['\n'] + ("\n" + y);
    SplitAfter([], "\n" + y, '\n');
    assert "\n" + y == [] + ['\n'] + y;
    SplitAfter([], y, '\n');
  }

  /** The definition lines, joined by newlines, split back into themselves. */
  lemma {:induction false} LinesSplit(types: seq<EntityType>)
    requires types != [] && forall e :: e in types ==> Readable(e)
    ensures Split(Join(DefinitionLines(types), "\n"), '\n') == DefinitionLines(types)
  {
    var lines := DefinitionLines(types);
    forall k | 0 <= k < |lines|
      ensures '\n' !in lines[k]
    {
      assert types[k] in types;
      DefinitionLineParses(types[k]);
    }
    SplitJoin(lines, '\n');
  }

  /** The separator's two empty lines add no definition. */
  lemma {:induction false} BlankLinesSkipped(lines: seq<string>)
    ensures Accepted(["", ""] + lines) == Accepted(lines)
  {
    var blank: seq<string> := [""];
    BlankNotAccepted();
    AcceptedSingle("");
    AcceptedAppend(blank, blank);
    assert blank + blank == ["", ""];
    AcceptedAppend(blank + blank, lines);
  }

  /** A single line is accepted as its definition, or not at all. */
  lemma {:induction false} AcceptedSingle(line: string)
    ensures Accepted([line]) == match Accept(line) case None => [] case Some(def) => [def]
  {
    assert [line][..0] == [];
  }

  /** An empty line defines nothing. */
  lemma {:induction false} BlankNotAccepted()
    ensures Accept("") == None
  {
    assert Trim("") == "";
    assert Scan("", 0, Lead) == Final(Lead, 0);
  }

  /** Accepting the lines of a concatenation accepts each part in turn. */
  lemma {:induction false} AcceptedAppend(a: seq<string>, b: seq<string>)
    ensures Accepted(a + b) == Accepted(a) + Accepted(b)
    decreases |b|
  {
    if b == [] {
      assert a + b == a;
    } else {
      var c := b[..|b| - 1];
      assert (a + b)[..|a + b| - 1] == a + c;
      assert (a + b)[|a + b| - 1] == b[|b| - 1];
      AcceptedAppend(a, c);
    }
  }

  /** The decoder accepts each written line as the entry's label and id,
      and skips it exactly when the two are equal. */
  lemma {:induction false} WrittenAccepted(types: seq<EntityType>)
    requires forall e :: e in types ==> Readable(e)
    ensures Accepted(DefinitionLines(types)) == Written(types)
    decreases |types|
  {
    if types != [] {
      var line := DefinitionLine(types[0]);
      assert types[0] in types;
      WrittenHead(types[0]);
      assert DefinitionLines(types) == [line] + DefinitionLines(types[1..]);
      AcceptedAppend([line], DefinitionLines(types[1..]));
      assert forall x :: x in types[1..] ==> x in types;
      WrittenAccepted(types[1..]);
    }
  }

  /** One written line is accepted as its entry's definition, or skipped. */
  lemma {:induction false} WrittenHead(e: EntityType)
    requires Readable(e)
    ensures Accepted([DefinitionLine(e)])
            == if Show(e.name) == Show(e.id) then [] else [Definition(Show(e.name), Show(e.id))]
  {
    DefinitionLineReadBack(e);
    AcceptedSingle(DefinitionLine(e));
  }
}
