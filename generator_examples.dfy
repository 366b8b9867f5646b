/** The worked documents of the generator's test file, on the sentence
    "Elon Musk is a member of the PayPal Mafia." (42 characters). */
module EncoderExamples {
  import opened Wrappers
  import opened Strings
  import opened Encoder
  import Grammar

  const Sentence: string := "Elon Musk" + " is a member of the " + "PayPal Mafia" + "."

  const MemberOf: seq<Relation> := [Relation(Some("T1"), Some("member_of"), Some("T2"))]

  /** The sentence with the given denotations, the one relation and config. */
  function Document(denotations: seq<RawDenotation>, config: Option<Config>): Source {
    Source(Some(Sentence), Some(denotations), Some(MemberOf), config)
  }

  const Person := EntityType(Some("https://example.com/Person"), Some("Person"))
  const Organization := EntityType(Some("https://example.com/Organization"), Some("Organization"))

  /** Annotation strings: id, object, then the predicate and object of the
      relation whose subject is the id; a denotation that is no relation's
      subject shows only its id and object. */
  lemma PlainAnnotations()
    ensures Annotations(Document([], None), Some("Person"), Some("T1")) == "T1, Person, member_of, T2"
    ensures Annotations(Document([], None), Some("Organization"), Some("T2")) == "T2, Organization"
  {
    SubjectAnnotation("Person");
    OtherAnnotation("Organization");
    Spelled();
  }

  /** T1 is the subject of the relation: its predicate and object follow. */
  lemma SubjectAnnotation(shown: string)
    ensures AnnotationText(Some(MemberOf), Some("T1"), Some(shown)) == Join(["T1", shown, "member_of", "T2"], ", ")
  {
    assert FirstRelation(MemberOf, Some("T1")) == Some(MemberOf[0]);
    var xs := [Some("T1"), Some(shown), Some("member_of"), Some("T2")];
    CompactPresent(xs);
    assert Compact(xs) == ["T1", shown, "member_of", "T2"];
  }

  /** T2 is no relation's subject: only id and object. */
  lemma OtherAnnotation(shown: string)
    ensures AnnotationText(Some(MemberOf), Some("T2"), Some(shown)) == Join(["T2", shown], ", ")
  {
    assert FirstRelation(MemberOf[1..], Some("T2")) == None;
    var xs := [Some("T2"), Some(shown)];
    CompactDropsLast(xs);
    CompactDropsLast(xs + [None]);
    assert xs + [None] + [None] == [Some("T2"), Some(shown), None, None];
    CompactPresent(xs);
    assert Compact(xs) == ["T2", shown];
  }

  const Labels: Option<Config> := Some(Config(Some([Person, Organization])))

  /** With labelled entity types configured, the object is shown as the label
      of the entry with that id, and the definitions follow in config order. */
  lemma LabelledAnnotations()
    ensures Annotations(Document([], Labels), Some("https://example.com/Person"), Some("T1")) == "T1, Person, member_of, T2"
    ensures Annotations(Document([], Labels), Some("https://example.com/Organization"), Some("T2")) == "T2, Organization"
    ensures BuildLabelDefinitions(Labels)
            == Some("[Person]: " + "https://example.com/Person" + "\n" + "[Organization]: " + "https://example.com/Organization")
  {
    LabelsShown();
    SubjectAnnotation("Person");
    OtherAnnotation("Organization");
    Spelled();
    LabelDefinitions();
  }

  lemma LabelsListed()
    ensures LabeledEntityTypes(Labels) == Some([Person, Organization])
  {
    assert [Organization][1..] == [];
    assert Labelled([Organization]) == [Organization] + Labelled([]);
    assert [Person, Organization][1..] == [Organization];
    assert Labelled([Person, Organization]) == [Person] + Labelled([Organization]);
    assert Labelled([Person, Organization]) == [Person, Organization];
    assert Labels.value.entityTypes == Some([Person, Organization]);
  }

  lemma LabelsShown()
    ensures ShownObj(Document([], Labels), Some("https://example.com/Person")) == Some("Person")
    ensures ShownObj(Document([], Labels), Some("https://example.com/Organization")) == Some("Organization")
  {
    LabelsListed();
    assert FirstEntity([Person, Organization], Some("https://example.com/Person")) == Some(Person);
    assert FirstEntity([Person, Organization][1..], Some("https://example.com/Organization")) == Some(Organization);
  }

  lemma LabelDefinitions()
    ensures BuildLabelDefinitions(Labels)
            == Some("[Person]: " + "https://example.com/Person" + "\n" + "[Organization]: " + "https://example.com/Organization")
  {
    LabelsListed();
    assert DefinitionLines([Person, Organization]) == [DefinitionLine(Person), DefinitionLine(Organization)] by {
      assert [Person, Organization][1..] == [Organization];
    }
    JoinTwo(DefinitionLine(Person), DefinitionLine(Organization), "\n");
    DefinitionsSpelled();
  }

  lemma DefinitionsSpelled()
    ensures DefinitionLine(Person) + "\n" + DefinitionLine(Organization)
            == "[Person]: " + "https://example.com/Person" + "\n" + "[Organization]: " + "https://example.com/Organization"
  {
    DefinitionSpelled(Person);
    DefinitionSpelled(Organization);
    assert "[" + "Person" + "]: " == "[Person]: ";
    assert "[" + "Organization" + "]: " == "[Organization]: ";
  }

  lemma DefinitionSpelled(e: EntityType)
    requires e.name.Some? && e.id.Some?
    ensures DefinitionLine(e) == "[" + e.name.value + "]: " + e.id.value
  {
  }

  /** An entry without a label is ignored: the object is shown as it is and
      no definition is written. */
  lemma UnlabelledEntryIgnored()
    ensures var config := Some(Config(Some([EntityType(Some("Person"), None)])));
            && Annotations(Document([], config), Some("Person"), Some("T1")) == "T1, Person, member_of, T2"
            && BuildLabelDefinitions(config).None?
  {
    var config := Some(Config(Some([EntityType(Some("Person"), None)])));
    assert LabeledEntityTypes(config) == Some([]);
    assert ShownObj(Document([], config), Some("Person")) == Some("Person");
    SubjectAnnotation("Person");
    Spelled();
  }

  /** The two denotations of the test file's first document, with the
      given objects. */
  function Pair(obj1: string, obj2: string): seq<RawDenotation> {
    [Raw("T1", 0, 9, obj1), Raw("T2", 29, 41, obj2)]
  }

  /** The first document: both spans are marked up in place. */
  lemma PairEncoded()
    ensures Encoded(Document(Pair("Person", "Organization"), None))
            == Success(Grammar.MarkupText("Elon Musk", "T1, Person, member_of, T2") + " is a member of the "
                       + Grammar.MarkupText("PayPal Mafia", "T2, Organization") + ".")
  {
    var src := Document(Pair("Person", "Organization"), None);
    PairRendered(src, "Person", "Organization");
    PlainAnnotations();
  }

  /** The same document with labelled entity types: the objects are shown as
      labels and the definitions follow after a blank line. */
  lemma LabelledPairEncoded()
    ensures Encoded(Document(Pair("https://example.com/Person", "https://example.com/Organization"), Labels))
            == Success(Grammar.MarkupText("Elon Musk", "T1, Person, member_of, T2") + " is a member of the "
                       + Grammar.MarkupText("PayPal Mafia", "T2, Organization") + "."
                       + "\n\n" + ("[Person]: " + "https://example.com/Person" + "\n" + "[Organization]: " + "https://example.com/Organization"))
  {
    var src := Document(Pair("https://example.com/Person", "https://example.com/Organization"), Labels);
    PairRendered(src, "https://example.com/Person", "https://example.com/Organization");
    LabelledAnnotations();
  }

  /** Spans with non-integer bounds are dropped, leaving the text as it is. */
  lemma NonIntegerBoundsDropped()
    ensures Encoded(Document([RawDenotation(Some("T1"), Span(NonInteger, NonInteger), Some("Person")),
                              RawDenotation(Some("T2"), Span(NonInteger, NonInteger), Some("Organization"))], None))
            == Success(Sentence)
  {
    var ds := [RawDenotation(Some("T1"), Span(NonInteger, NonInteger), Some("Person")),
               RawDenotation(Some("T2"), Span(NonInteger, NonInteger), Some("Organization"))];
    assert ds[..1][..0] == [];
    assert Validate(ds[..1], 42) == [];
    PlainTextUnchanged(Document(ds, None));
  }

  lemma PairRendered(src: Source, obj1: string, obj2: string)
    requires src.text == Some(Sentence) && src.denotations == Some(Pair(obj1, obj2))
    ensures var a := Denotation(0, 9, Some(obj1), Some("T1"));
            var b := Denotation(29, 41, Some(obj2), Some("T2"));
            Encoded(src) == Success(Assemble(Grammar.MarkupText("Elon Musk", Annotations(src, a.obj, a.id)) + " is a member of the "
                                             + Grammar.MarkupText("PayPal Mafia", Annotations(src, b.obj, b.id)) + ".",
                                             BuildLabelDefinitions(src.config)))
  {
    var a := Denotation(0, 9, Some(obj1), Some("T1"));
    var b := Denotation(29, 41, Some(obj2), Some("T2"));
    SentencePieces();
    PairValidated(obj1, obj2);
    PairSorted(a, b);
    PairRender(src, a, b);
    assert Annotated(src, Sentence, [a, b]) == Render(src, Sentence, [a, b], 0);
  }

  lemma PairRender(src: Source, a: Denotation, b: Denotation)
    requires a.beginPos == 0 && a.endPos == 9 && b.beginPos == 29 && b.endPos == 41
    ensures Render(src, Sentence, [a, b], 0)
            == Grammar.MarkupText("Elon Musk", Annotations(src, a.obj, a.id)) + " is a member of the "
               + Grammar.MarkupText("PayPal Mafia", Annotations(src, b.obj, b.id)) + "."
  {
    SentencePieces();
    var ab := [a, b];
    var m1 := Grammar.MarkupText("Elon Musk", Annotations(src, a.obj, a.id));
    var m2 := Grammar.MarkupText("PayPal Mafia", Annotations(src, b.obj, b.id));
    assert Render(src, Sentence, ab, 2) == ".";
    assert Render(src, Sentence, ab, 1) == " is a member of the " + m2 + ".";
    assert Render(src, Sentence, ab, 0) == "" + m1 + (" is a member of the " + m2 + ".");
    assert "" + m1 + (" is a member of the " + m2 + ".") == m1 + " is a member of the " + m2 + ".";
  }

  lemma SentencePieces()
    ensures |Sentence| == 42
    ensures Sentence[0..0] == "" && Sentence[0..9] == "Elon Musk" && Sentence[9..29] == " is a member of the "
    ensures Sentence[29..41] == "PayPal Mafia" && Sentence[41..] == "."
  {
    FourPieces("Elon Musk", " is a member of the ", "PayPal Mafia", ".");
  }

  lemma FourPieces(a: string, b: string, c: string, d: string)
    ensures var s := a + b + c + d;
            && s[0..0] == [] && s[0..|a|] == a && s[|a|..|a| + |b|] == b
            && s[|a| + |b|..|a| + |b| + |c|] == c && s[|a| + |b| + |c|..] == d
  {
  }

  lemma PairValidated(obj1: string, obj2: string)
    ensures Validate(Pair(obj1, obj2), 42)
            == [Denotation(0, 9, Some(obj1), Some("T1")), Denotation(29, 41, Some(obj2), Some("T2"))]
  {
    var ds := Pair(obj1, obj2);
    ValidateKeepsApart(ds, 42);
    assert ds[..1] == [ds[0]] && [ds[0]][..0] == [];
  }

  lemma PairSorted(a: Denotation, b: Denotation)
    requires a.beginPos < b.beginPos
    ensures SortByBegin([a, b]) == [a, b]
  {
    assert [a, b][1..] == [b];
    assert SortByBegin([b]) == Insert(b, SortByBegin([]));
  }

  lemma Spelled()
    ensures Join(["T1", "Person", "member_of", "T2"], ", ") == "T1, Person, member_of, T2"
    ensures Join(["T2", "Organization"], ", ") == "T2, Organization"
  {
    JoinFour("T1", "Person", "member_of", "T2");
    JoinTwo("T2", "Organization", ", ");
  }

  /** A trailing missing value is dropped. */
  lemma {:induction false} CompactDropsLast(xs: seq<Option<string>>)
    ensures Compact(xs + [None]) == Compact(xs)
  {
    if xs != [] {
      assert (xs + [None])[1..] == xs[1..] + [None];
      CompactDropsLast(xs[1..]);
    }
  }
}
