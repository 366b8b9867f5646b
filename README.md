# Simple inline text annotation: encoder, decoder and entity-type dictionary

The simple inline text annotation format writes annotations inline, next to
the text they annotate. A span of text followed by its annotation looks like
`[Elon Musk][T1, Person, member_of, T2]`. Lines of the form
`[label]: identifier` that follow the text define short labels for long
entity-type identifiers.

This project models the format's conversion engine in both directions:

- **The encoder** is the Ruby `Generator`. It takes a document and produces
  the inline markup. A document is a text, denotations (spans with an id and
  an object), relations, and an optional `config["entity types"]` list.
  - It checks the spans and resolves span conflicts.
  - It rewrites the spans from right to left, so the offsets of the spans
    still to do stay valid.
  - It builds each annotation from the id, the shown object and the first
    relation whose subject is that id.
  - It appends one `[label]: id` line per labelled entity type.
- **The decoder** is the JavaScript `Parser`.
  - It removes the label-definition blocks from the source.
  - It then scans for `[target][label]` pairs. It records a denotation at the
    target's offset in the progressively rewritten text, and replaces each
    pair by its target.
  - The scan resumes where the regular expression's `lastIndex` left it: at
    the end of the whole match, measured on the rewritten text.
- **The entity-type dictionary** is the JavaScript `EntityTypeCollection`.
  - It is a label → id map read from the definition blocks. The first
    definition of a label wins, and a line whose label equals its id is
    skipped.
  - It is computed lazily, once.
- **The patterns of `constants.js`** become hand-written recognisers over
  `seq<char>`:
  - the definition line;
  - the definition block;
  - the `[target][label]` denotation;
  - the backslash escape.

Modules:

- `Wrappers`: `Option` and `Result`.
- `Strings`: JavaScript whitespace, `trim`, `split` and `join`.
- `Grammar`: the recognisers and the lemmas that tie each one to a
  declarative reading of its pattern.
- `EntityTypes`: the dictionary fold and the `EntityTypeCollection` class.
- `Encoder`: the Ruby generator, with the `Generator` class and its
  `AnnotateText` loop.
- `EncoderExamples`: the documents of the generator's own test file.
- `Decoder`: block removal, the scan, and the `Parser` class with its
  `ProcessDenotations` loop.
- `RoundTrip`: the encoder's definition block read back by the decoder.

Read at face value, the block pattern would also recognise a definition
block at the very start of the text. The code does not. The block pattern's
first alternative is `\A`. Inside a `RegExp` without the `u` flag, `\A` is a
literal `A`, and it is followed by a start-of-line anchor that needs a newline
right before it, so that alternative never matches. The model follows the
code: a block is recognised only after a newline that starts a whitespace run
containing a second newline (`Grammar.BlockAt`, `Grammar.FirstLineNeverInBlock`).

## Model

| member | source | states |
|---|---|---|
| Strings.Trim | js/src/parser.js:31 | the result is a slice of the input with only whitespace cut off at either end, and it neither starts nor ends with whitespace |
| Strings.Split | js/src/entity_type_collection.mjs:63 | at least one piece, and no piece contains the separator |
| Strings.JoinSplit | js/src/entity_type_collection.mjs:63 | joining the pieces of a split with the same one-character separator gives the string back |
| Strings.SplitJoin | ruby/lib/simple_inline_text_annotation/generator.rb:72-74 | lines without a newline, joined with newlines and split again, are the same lines |
| Strings.IndexOf | js/src/constants.js:1-3 | the first occurrence at or after `from`, or none at all |
| Grammar.ParseDefinitionLineSound | js/src/constants.js:1 | every accepted line is optional whitespace, `[label]:` with a non-empty label free of `]`, at least one whitespace character, a non-empty whitespace-free id, and an optional quoted title with trailing whitespace |
| Grammar.ParseDefinitionLineComplete | js/src/constants.js:1 | every line of that shape is accepted, and the label and id read back are exactly its own |
| Grammar.TitleTailStartsWithSpace | js/src/constants.js:1 | a non-empty title tail begins with whitespace, so the id ends at the first whitespace |
| Grammar.DenotationAt | js/src/constants.js:4 | a match at `p` is `[target][label]` there, with a non-empty target free of `[`, a non-empty label free of `]`, and no backslash right before `p` |
| Grammar.DenotationAtComplete | js/src/constants.js:4 | the split is unique: whenever the declarative reading holds at `p`, the recogniser finds exactly that target and label |
| Grammar.FindDenotation | js/src/parser.js:42 | a match found lies at or after `lastIndex` and inside the text; its target is non-empty and free of `[`, and its label is non-empty and free of `]` |
| Grammar.FindDenotationFound | js/src/parser.js:42 | what the search returns is a match of the pattern at its own index |
| Grammar.FindDenotationLeftmost | js/src/parser.js:42 | the pattern matches nowhere between `lastIndex` and the match found, and nowhere after `lastIndex` when nothing is found |
| Grammar.EscapeAtMeans | js/src/constants.js:3 | the escape pattern matches a backslash exactly when `[a][b]` follows it, with `a` and `b` non-empty and free of `]` |
| Grammar.EscapedPairIsNoDenotation | js/src/constants.js:4 | no denotation match starts at a `[` directly preceded by a backslash |
| Grammar.BlockAt | js/src/constants.js:2 | a block match starts at a newline and ends after it, inside the text |
| Grammar.SeparatorEnd | js/src/constants.js:2 | the separator runs from a newline, through whitespace only, to a later newline, and that newline is the last one before the next non-whitespace character; when there is none, the whitespace after the newline holds no second newline |
| Grammar.BlockShape | js/src/constants.js:2 | a block match is a newline, whitespace up to and including a last newline, then one or more lines, each of them a whole definition line |
| Grammar.BlockAtComplete | js/src/constants.js:2 | conversely, a newline, whitespace up to and including a last newline, then whole definition lines up to the end of the text or up to a line that is not one, is a block match that ends exactly there |
| Grammar.LinesRun | js/src/constants.js:2 | whole definition lines that run up to the end of the text, or up to a line that is not one, are exactly what the repeated line group of the block pattern takes in |
| Grammar.FirstLineNeverInBlock | js/src/constants.js:2 | no block starts inside the first line of the text, so a definition block at the very start is not read |
| Grammar.FirstBlock | js/src/entity_type_collection.mjs:53 | a block found starts at or after `from` and is a block match that ends where the pattern ends it |
| Grammar.FirstBlockLeftmost | js/src/entity_type_collection.mjs:53 | no block starts between `from` and the block found, and none after `from` when nothing is found |
| Grammar.Blocks | js/src/entity_type_collection.mjs:53 | all matches of the global block pattern, each inside the text, in text order and not overlapping |
| Grammar.BlocksMatch | js/src/entity_type_collection.mjs:53 | every listed block is a match of the block pattern |
| EntityTypes.Lookup | js/src/entity_type_collection.mjs:10-12 | the registered id when the label is a key, and nothing otherwise: no entry is invented |
| EntityTypes.Define | js/src/entity_type_collection.mjs:77-79 | an existing label is never overwritten; a new one is appended to the key order with its id; every other label reads as before |
| EntityTypes.Accept | js/src/entity_type_collection.mjs:70-75 | a line contributes exactly when its trimmed form has the definition-line shape and the label differs from the id, and then it contributes that label and id |
| EntityTypes.AddLineChanges | js/src/entity_type_collection.mjs:70-80 | a line changes the dictionary exactly when it is accepted and its label is not yet registered |
| EntityTypes.FirstDefinitionWins | js/src/entity_type_collection.mjs:77-79 | after the lines are folded in, a label keeps the id it already had, or else gets the id of its first accepted definition among the lines |
| EntityTypes.KeysOnlyGrow | js/src/entity_type_collection.mjs:77-79 | folding lines never removes or reorders a key: the old keys stay a prefix |
| EntityTypes.BlocksAreLines | js/src/entity_type_collection.mjs:50-68 | folding the blocks one after the other is the left fold over all their lines in match order |
| EntityTypes.ReadEntitiesFirstWins | js/src/entity_type_collection.mjs:50-80 | each label of the source's dictionary has the id of its first accepted definition over all block lines in match order |
| EntityTypes.ConfigOf | js/src/entity_type_collection.mjs:24-29 | one `{ id, label }` record per key, in key order, no label twice, each record's id the one the map holds, every key present |
| EntityTypes.EntityTypeCollection.constructor | js/src/entity_type_collection.mjs:5-8 | keeps the source; the cache starts empty |
| EntityTypes.EntityTypeCollection.EntityTypes | js/src/entity_type_collection.mjs:43-48 | returns the source's dictionary and caches it; a filled cache is not read again |
| EntityTypes.EntityTypeCollection.ReadEntitiesFromSource | js/src/entity_type_collection.mjs:50-59 | the loop over the block matches builds the source's dictionary |
| EntityTypes.EntityTypeCollection.ProcessEntityBlock | js/src/entity_type_collection.mjs:61-68 | the loop over the lines of the matched text folds each of them in, in order |
| EntityTypes.EntityTypeCollection.ProcessEntityLine | js/src/entity_type_collection.mjs:70-80 | one line folded in as `Accept` and `Define` say |
| EntityTypes.EntityTypeCollection.Get | js/src/entity_type_collection.mjs:10-12 | the id registered for the label in the source's dictionary, or nothing |
| EntityTypes.EntityTypeCollection.Config | js/src/entity_type_collection.mjs:24-29 | the records of the source's dictionary in key order |
| EntityTypes.RepeatedGet | js/src/entity_type_collection.mjs:43-48 | two reads of the same label on one collection agree, and agree with the source's dictionary |
| Decoder.Resolve | js/src/parser.js:34-36 | the label's registered id, or the label itself when it is not registered |
| Decoder.Replacement | js/src/parser.js:28-30 | a blank line when the matched block starts with one, and nothing otherwise |
| Decoder.ReplaceBlocks | js/src/parser.js:27-30 | the text up to the first block is kept as it is, and the result is no longer than the text |
| Decoder.ReplaceBlocksLength | js/src/parser.js:27-30 | the result is shorter than the text by exactly what each block loses to its replacement |
| Decoder.ReplaceBlocksPieces | js/src/parser.js:27-30 | each block's replacement stands in the result at the block's start moved left by what the earlier blocks lost, followed by the text between that block and the next, unchanged |
| Decoder.WithoutReferences | js/src/parser.js:26-32 | the text with every block replaced, with whitespace and only whitespace cut off at either end; never longer than the source; the trimmed source when there is no block |
| Decoder.Unwrap | js/src/parser.js:53 | the text before the match is unchanged, the target stands at the match's index, the text after the whole match follows it unchanged, and the length shrinks by the label length + 4 |
| Decoder.Decode | js/src/parser.js:42-54 | no match is recorded exactly when the pattern matches nowhere at or after `lastIndex` |
| Decoder.DecodeOrdered | js/src/parser.js:42-53 | matches are recorded in discovery order, none before `lastIndex`, and each one starts at or after the end of the previous whole match |
| Decoder.DecodeMarkupParts | js/src/constants.js:4 | every recorded target is non-empty and free of `[`, and every recorded label is non-empty and free of `]` |
| Decoder.DecodeKeepsPrefix | js/src/parser.js:53 | text before the resume point is never changed by the rest of the scan |
| Decoder.DecodeLength | js/src/parser.js:53 | the final text is shorter than the input by the label length + 4 for each match |
| Decoder.TargetsInPlace | js/src/parser.js:46-53 | in the final text, each recorded target stands at its recorded begin offset |
| Decoder.SpansOrdered | js/src/parser.js:42-53 | the recorded spans are non-empty and strictly increasing; each ends at least the label length + 4 before the next begins |
| Decoder.SkippedMarkup | js/src/parser.js:42-53 | `[Elon][P] [Musk][P]` decodes to `Elon [Musk][P]` with one denotation: the second pair starts before the resume point and is left as it is |
| Decoder.PlainTextUnchanged | js/src/parser.js:42-56 | text without markup is returned unchanged with no denotation |
| Decoder.Parser.constructor | js/src/parser.js:7-11 | keeps the source, starts with no denotation, and builds the entity-type collection from the original source |
| Decoder.Parser.Parse | js/src/parser.js:13-23 | the text is the decoded text of the source without its blocks; the new denotations, with objects read from the original source's dictionary, are appended to those already held |
| Decoder.Parser.GetObjFor | js/src/parser.js:34-36 | the label's id in the source's dictionary, or the label itself |
| Decoder.Parser.ProcessDenotations | js/src/parser.js:38-57 | the `while (regex.exec(...))` loop returns the decoded text and appends one denotation per match, in discovery order |
| Encoder.Checked | ruby/lib/simple_inline_text_annotation/generator.rb:19 | a denotation passes exactly when both bounds are integers with 0 <= begin < end <= text length, and it keeps its bounds, object and id |
| Encoder.DropCrossing | ruby/lib/simple_inline_text_annotation/generator.rb:19 | keeps exactly the accepted spans that do not cross the candidate, and keeps them apart |
| Encoder.DropWithin | ruby/lib/simple_inline_text_annotation/generator.rb:19 | keeps exactly the accepted spans that are not inside the candidate, and keeps them apart |
| Encoder.Admit | ruby/lib/simple_inline_text_annotation/generator.rb:19 | a covered candidate changes nothing; a crossing one is rejected along with the spans it crosses; otherwise it is accepted and the spans inside it are retracted; spans apart from it always stay |
| Encoder.Validate | ruby/lib/simple_inline_text_annotation/generator.rb:19 | the survivors are non-empty spans inside the text, pairwise apart |
| Encoder.ValidateFromInput | ruby/lib/simple_inline_text_annotation/generator.rb:19 | no denotation is invented: every survivor is the checked form of an input denotation |
| Encoder.ValidateKeepsApart | ruby/lib/simple_inline_text_annotation/generator.rb:19 | valid denotations that are pairwise apart all survive, in input order |
| Encoder.SameSpanKeepsFirst | ruby/spec/simple_inline_text_annotation/generator_spec.rb:111-129 | of two identical spans only the first is kept |
| Encoder.InnerAfterOuterDropped | ruby/spec/simple_inline_text_annotation/generator_spec.rb:132-150 | a span inside an earlier one is dropped |
| Encoder.OuterAfterInnerWins | ruby/spec/simple_inline_text_annotation/generator_spec.rb:152-170 | a later span that shares the begin and contains an earlier one replaces it |
| Encoder.OuterAfterInnerEndWins | ruby/spec/simple_inline_text_annotation/generator_spec.rb:172-190 | a later span that shares the end and contains an earlier one replaces it |
| Encoder.CrossingBothDropped | ruby/spec/simple_inline_text_annotation/generator_spec.rb:193-211 | two crossing spans are both dropped |
| Encoder.BadBoundsDropped | ruby/spec/simple_inline_text_annotation/generator_spec.rb:213-268 | a negative begin, a reversed span, a span past the text and non-integer bounds are all dropped |
| Encoder.FirstRelation | ruby/lib/simple_inline_text_annotation/generator.rb:54-55 | the first relation whose subject equals the id, or none when no relation has that subject |
| Encoder.Labelled | ruby/lib/simple_inline_text_annotation/generator.rb:50 | exactly the entries that have a label, never more than the list |
| Encoder.LabelledAppend | ruby/lib/simple_inline_text_annotation/generator.rb:50 | the selection keeps the config order: it distributes over concatenation |
| Encoder.LabeledEntityTypes | ruby/lib/simple_inline_text_annotation/generator.rb:47-51 | nothing without a config or without an entity-type list, else exactly the entries that have a label |
| Encoder.FirstEntity | ruby/lib/simple_inline_text_annotation/generator.rb:65 | the first entry with the given id, or none when no entry has it |
| Encoder.FindEntityLabel | ruby/lib/simple_inline_text_annotation/generator.rb:64-67 | the label of the first labelled entry with that id, else the object itself |
| Encoder.AnnotationsShown | ruby/lib/simple_inline_text_annotation/generator.rb:53-62 | without labelled entity types the object is shown as it is; with them, as the label of the first labelled entry with that id, or as itself when there is none |
| Encoder.AnnotationFields | ruby/lib/simple_inline_text_annotation/generator.rb:53-61 | the fields are the id and the shown object, then the predicate and object of the first relation whose subject is the id; missing ones are left out and the rest are joined by `, ` in that order |
| Encoder.Compact | ruby/lib/simple_inline_text_annotation/generator.rb:61 | exactly the present values, never more than the list |
| Encoder.CompactAppend | ruby/lib/simple_inline_text_annotation/generator.rb:61 | dropping missing values distributes over concatenation, so the fields that remain keep their order |
| Encoder.DefinitionLines | ruby/lib/simple_inline_text_annotation/generator.rb:72-74 | one `[label]: id` line per entry, in order |
| Encoder.BuildLabelDefinitions | ruby/lib/simple_inline_text_annotation/generator.rb:69-75 | nothing exactly when there is no labelled entry |
| Encoder.Insert | ruby/lib/simple_inline_text_annotation/generator.rb:35 | the result is the list with the span added, as a multiset |
| Encoder.SortByBegin | ruby/lib/simple_inline_text_annotation/generator.rb:35 | the sorted list is a permutation of the input |
| Encoder.SortIncreasing | ruby/lib/simple_inline_text_annotation/generator.rb:35 | spans that are pairwise apart come out of the sort in text order, each ending at or before the next begins |
| Encoder.RewriteStep | ruby/lib/simple_inline_text_annotation/generator.rb:36-41 | one right-to-left rewrite of the text gives the left-to-right rendering from one span earlier |
| Encoder.Generator.constructor | ruby/lib/simple_inline_text_annotation/generator.rb:9-13 | keeps the document, its denotation list (empty when absent) and its config |
| Encoder.Generator.Generate | ruby/lib/simple_inline_text_annotation/generator.rb:15-25 | the output is the annotated text, followed by a blank line and the definitions when there are any; the missing-text error is raised exactly when the document has no text |
| Encoder.Generator.AnnotateText | ruby/lib/simple_inline_text_annotation/generator.rb:33-45 | the right-to-left loop yields the text with every span marked up, spans taken in text order |
| Encoder.PlainTextUnchanged | ruby/lib/simple_inline_text_annotation/generator.rb:19-24 | with no surviving denotation and no labelled entity type, the output is the text itself |
| Encoder.DefinitionLineReadBack | ruby/lib/simple_inline_text_annotation/generator.rb:73 | each definition line written is read back by the decoder's line reader as the same label and id, and skipped when the two are equal |
| Encoder.DefinitionLineParses | ruby/lib/simple_inline_text_annotation/generator.rb:73 | a definition line written for a readable entry is one line, starts with `[`, ends with the last character of the id, and the line reader reads back that label and id |
| Encoder.DefinitionBlockLines | ruby/lib/simple_inline_text_annotation/generator.rb:72-74 | the definition block splits back into one line per labelled entry |
| Encoder.RenderSplit | ruby/lib/simple_inline_text_annotation/generator.rb:35-41 | the output splits at every span boundary into the markup so far and the rest |
| Encoder.PrefixLength | ruby/lib/simple_inline_text_annotation/generator.rb:40-41 | the output for a run of spans is as long as the text it covers plus the brackets and annotations added |
| Encoder.MarkupOffset | ruby/lib/simple_inline_text_annotation/generator.rb:40-41 | each span's `[text][annotations]` stands at its begin offset moved right by the markup added before it |
| Encoder.GapUnchanged | ruby/lib/simple_inline_text_annotation/generator.rb:41 | the text between two spans is copied unchanged, moved right by the markup before it |
| Encoder.RenderLength | ruby/lib/simple_inline_text_annotation/generator.rb:33-45 | the output is longer than the text by exactly the added markup, and the text after the last span ends it unchanged |
| EncoderExamples.PlainAnnotations | ruby/spec/simple_inline_text_annotation/generator_spec.rb:9-29 | the annotations are `T1, Person, member_of, T2` for the relation's subject and `T2, Organization` for the other denotation |
| EncoderExamples.PairEncoded | ruby/spec/simple_inline_text_annotation/generator_spec.rb:9-29 | the whole output of the first document |
| EncoderExamples.LabelledAnnotations | ruby/spec/simple_inline_text_annotation/generator_spec.rb:32-63 | with labels configured, objects show as labels and the definitions come in config order |
| EncoderExamples.LabelledPairEncoded | ruby/spec/simple_inline_text_annotation/generator_spec.rb:32-63 | the whole output of the labelled document, definition block included |
| EncoderExamples.UnlabelledEntryIgnored | ruby/spec/simple_inline_text_annotation/generator_spec.rb:65-88 | an entry without a label changes no annotation and writes no definition |
| EncoderExamples.NonIntegerBoundsDropped | ruby/spec/simple_inline_text_annotation/generator_spec.rb:90-109 | spans with non-integer bounds are dropped, and the output is the text itself |
| RoundTrip.OnlyBlock | js/src/constants.js:2 | the definitions appended after a blank line to a text that holds no block are the only block of the output, and it runs to the end |
| RoundTrip.WrittenAccepted | js/src/entity_type_collection.mjs:70-75 | reading the written definition lines back accepts exactly the definitions written, in order, leaving out those whose label equals the id |
| RoundTrip.DefinitionsRoundTrip | js/src/parser.js:26-32 | a text followed by a blank line and the definition lines decodes back to the trimmed text, and each label looks up the id of its first written definition whose label differs from its id |
| RoundTrip.EncodedRoundTrip | ruby/lib/simple_inline_text_annotation/generator.rb:15-25 | the generator's output decodes back to the trimmed annotated text, and each label looks up the id of the first labelled entry with that label, among the entries whose label differs from their id |

## Left out

- `denotation.rb` is not part of this model. `Encoder.Validate` is written
  from the outcomes the generator's test file asserts. For same, nested and
  crossing spans it resolves conflicts one candidate at a time in input order.
  Another rule that agrees on those examples is possible.
- Ruby's dynamic typing of span bounds is reduced to `Bound`: an integer, or
  anything else. A float, a numeric string or nil is `NonInteger`.
- A denotation without a `"span"` key makes Ruby raise `NoMethodError` while
  building the denotations. `RawDenotation` always has a span, so that crash
  is not modelled.
- A `"label"` key that is present with the value nil counts as labelled in
  Ruby and interpolates as an empty label. `EntityType.name` cannot tell that
  case from a missing key, so it is treated as unlabelled.
- Encoder.Compact: drops only missing values, which matches Ruby's `compact`.
  Empty strings are kept.
- Encoder.Generator.AnnotateText: requires the spans to be non-empty, inside
  the text and pairwise apart. Its only caller passes the output of
  `validate`, which guarantees that. Overlapping spans are not modelled.
- JavaScript regular-expression semantics are modelled at the line level:
  - `\s*` between the lines of a block can run across newlines, so blank
    lines inside a block and labels, ids or titles broken across lines are
    not modelled;
  - the trailing `\s*$` of a block line can take in following blank lines,
    which is not modelled either. So on `"x\n\n[a]: b\n\n[c]: d"` the model
    reads only the `[a]` block: `[c]: d` stays in the decoded text and `c`
    never enters the dictionary, whereas the pattern takes both lines as one
    block.
  - Grammar.BlockAt: a definition line is read from its first character to
    its newline, so a block ends at its last whole definition line.
- The `\A` alternative of the block pattern never matches (see above). It is
  not modelled as a branch.
- The dictionary is a JavaScript object:
  - inherited keys such as `constructor` and `__proto__` are not modelled;
  - nor is the order in which `Object.entries` lists integer-like keys first.
  `EntityTypes.ConfigOf` lists keys in insertion order.
- `Decoder.Parser.Parse` and `EntityTypes.EntityTypeCollection`: the
  denotation and dictionary objects are values here. Aliasing of the returned
  dictionary object, which a caller could mutate, is not modelled.
- The use of `ESCAPE_PATTERN` to strip backslashes is not part of these
  files. Only the pattern itself is modelled (`Grammar.EscapeAtMeans`).
- `index.js`, `denotation.js`, the Ruby parser, the JavaScript generator,
  the command line, file I/O and package loading are not part of this model.
- Text is a sequence of characters. Ruby counts characters and JavaScript
  counts UTF-16 code units, so offsets differ for characters outside the
  Basic Multilingual Plane; that difference is not modelled.
- RoundTrip.DefinitionsRoundTrip: stated for texts whose last character is
  not whitespace and that hold no block of their own, with readable labels
  and ids (a non-empty label without `]` or a newline, a non-empty id without
  whitespace). Other texts can merge with the definition block or hold blocks
  that the decoder also removes.
- RoundTrip.EncodedRoundTrip: the same conditions on the annotated text and on
  the labelled entries. The markup itself is not decoded back in this theorem:
  the decoder's skip rule (`Decoder.SkippedMarkup`) breaks that part of the
  round trip when two spans are closer than the label length + 4.
