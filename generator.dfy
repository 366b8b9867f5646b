/** The encoder: turns a document (text, denotations, relations and an
    optional `config["entity types"]` list) into inline markup such as
    `[Elon Musk][T1, Person, member_of, T2]`, followed by `[label]: id`
    definition lines for the labelled entity types. */
module Encoder {
  import opened Wrappers
  import opened Strings
  import opened Grammar
  import opened EntityTypes

  // ---------------------------------------------------------------------------
  // The document
  // ---------------------------------------------------------------------------

  /** A span bound as the document gives it: an integer, or anything else
      (a float, a string, ...). */
  datatype Bound = Int(value: int) | NonInteger

  datatype Span = Span(begin: Bound, end: Bound)

  /** A denotation as read from the document; `None` stands for a missing key. */
  datatype RawDenotation = RawDenotation(id: Option<string>, span: Span, obj: Option<string>)

  datatype Relation = Relation(subj: Option<string>, pred: Option<string>, obj: Option<string>)

  /** An entry of `config["entity types"]`; `name` is its `"label"`, `None`
      when the entry has no such key. */
  datatype EntityType = EntityType(id: Option<string>, name: Option<string>)

  datatype Config = Config(entityTypes: Option<seq<EntityType>>)

  datatype Source = Source(
    text: Option<string>,
    denotations: Option<seq<RawDenotation>>,
    relations: Option<seq<Relation>>,
    config: Option<Config>)

  datatype GeneratorError = GeneratorError(message: string)

  const MissingText := "The \"text\" key is missing."

  /** A denotation whose bounds passed validation. */
  datatype Denotation = Denotation(beginPos: nat, endPos: nat, obj: Option<string>, id: Option<string>)

  // ---------------------------------------------------------------------------
  // Span resolution
  // ---------------------------------------------------------------------------

  predicate SameSpan(a: Denotation, b: Denotation) {
    a.beginPos == b.beginPos && a.endPos == b.endPos
  }

  /** `inner` lies inside `outer` and is not the same span. */
  predicate Within(inner: Denotation, outer: Denotation) {
    outer.beginPos <= inner.beginPos && inner.endPos <= outer.endPos && !SameSpan(inner, outer)
  }

  /** Disjoint or adjacent. */
  predicate Apart(a: Denotation, b: Denotation) {
    a.endPos <= b.beginPos || b.endPos <= a.beginPos
  }

  /** The ranges overlap but neither contains the other. */
  predicate Crosses(a: Denotation, b: Denotation) {
    !Apart(a, b) && !SameSpan(a, b) && !Within(a, b) && !Within(b, a)
  }

  /** A non-empty span inside a text of length `n`. */
  predicate Proper(d: Denotation, n: nat) {
    d.beginPos < d.endPos <= n
  }

  predicate AllProper(ds: seq<Denotation>, n: nat) {
    forall i :: 0 <= i < |ds| ==> Proper(ds[i], n)
  }

  /** No two spans of the list overlap. */
  predicate Separate(ds: seq<Denotation>) {
    forall i, j :: 0 <= i < |ds| && 0 <= j < |ds| && i != j ==> Apart(ds[i], ds[j])
  }

  /** The validation of one denotation's bounds against the text length. */
  function Checked(d: RawDenotation, length: nat): (r: Option<Denotation>)
    ensures r.Some? <==> d.span.begin.Int? && d.span.end.Int?
                         && 0 <= d.span.begin.value < d.span.end.value <= length
    ensures r.Some? ==> Proper(r.value, length)
                        && r.value.beginPos == d.span.begin.value && r.value.endPos == d.span.end.value
                        && r.value.obj == d.obj && r.value.id == d.id
  {
    match d.span
    case Span(Int(b), Int(e)) =>
      if 0 <= b < e <= length then Some(Denotation(b, e, d.obj, d.id)) else None
    case _ => None
  }

  /** An accepted span is the same as `c` or contains it. */
  predicate Covered(accepted: seq<Denotation>, c: Denotation) {
    exists i :: 0 <= i < |accepted| && (SameSpan(accepted[i], c) || Within(c, accepted[i]))
  }

  predicate CrossesAny(accepted: seq<Denotation>, c: Denotation) {
    exists i :: 0 <= i < |accepted| && Crosses(accepted[i], c)
  }

  /** The accepted spans that do not cross `c`, in order. */
  function DropCrossing(accepted: seq<Denotation>, c: Denotation): (r: seq<Denotation>)
    ensures forall a :: a in r <==> a in accepted && !Crosses(a, c)
    ensures Separate(accepted) ==> Separate(r)
  {
    if accepted == [] then []
    else
      var rest := DropCrossing(accepted[1..], c);
      SeparateTail(accepted);
      if Crosses(accepted[0], c) then rest
      else
        SeparateCons(accepted[0], rest, accepted);
        [accepted[0]] + rest
  }

  /** The accepted spans not inside `c`, in order. */
  function DropWithin(accepted: seq<Denotation>, c: Denotation): (r: seq<Denotation>)
    ensures forall a :: a in r <==> a in accepted && !Within(a, c)
    ensures Separate(accepted) ==> Separate(r)
  {
    if accepted == [] then []
    else
      var rest := DropWithin(accepted[1..], c);
      SeparateTail(accepted);
      if Within(accepted[0], c) then rest
      else
        SeparateCons(accepted[0], rest, accepted);
        [accepted[0]] + rest
  }

  lemma {:induction false} SeparateTail(ds: seq<Denotation>)
    requires ds != []
    ensures Separate(ds) ==> Separate(ds[1..])
  {
    if Separate(ds) {
      forall i, j | 0 <= i < |ds| - 1 && 0 <= j < |ds| - 1 && i != j
        ensures Apart(ds[1..][i], ds[1..][j])
      {
        assert ds[1..][i] == ds[i + 1] && ds[1..][j] == ds[j + 1];
      }
    }
  }

  /** Putting the head back on a sub-list of the tail keeps the spans apart. */
  lemma {:induction false} SeparateCons(a: Denotation, rest: seq<Denotation>, ds: seq<Denotation>)
    requires ds != [] && a == ds[0]
    requires forall x :: x in rest ==> x in ds[1..]
    requires Separate(ds) ==> Separate(rest)
    ensures Separate(ds) ==> Separate([a] + rest)
  {
    if Separate(ds) {
      var r := [a] + rest;
      forall i, j | 0 <= i < |r| && 0 <= j < |r| && i != j
        ensures Apart(r[i], r[j])
      {
        if i == 0 || j == 0 {
          var k := if i == 0 then j else i;
          assert r[k] == rest[k - 1] && r[k] in ds[1..];
          var m :| 0 <= m < |ds| - 1 && ds[1..][m] == r[k];
          assert Apart(ds[0], ds[m + 1]);
        } else {
          assert r[i] == rest[i - 1] && r[j] == rest[j - 1];
        }
      }
    }
  }

  /** One step of the resolution: a candidate that an accepted span equals or
      contains is rejected; one that crosses accepted spans is rejected and
      takes them with it; otherwise it is accepted and retracts the accepted
      spans inside it. */
  function Admit(accepted: seq<Denotation>, c: Denotation): (r: seq<Denotation>)
    ensures forall a :: a in r ==> a in accepted || a == c
    ensures Covered(accepted, c) ==> r == accepted
    ensures !Covered(accepted, c) ==> (c in r <==> !CrossesAny(accepted, c))
    ensures !Covered(accepted, c) ==> forall a :: a in accepted && Crosses(a, c) ==> a !in r
    ensures !Covered(accepted, c) && !CrossesAny(accepted, c) ==> forall a :: a in accepted && Within(a, c) ==> a !in r
    ensures !Covered(accepted, c) ==> forall a :: a in accepted && a.beginPos < a.endPos && Apart(a, c) ==> a in r
    ensures Separate(accepted) && c.beginPos < c.endPos ==> Separate(r)
  {
    if Covered(accepted, c) then accepted
    else if CrossesAny(accepted, c) then
      assert forall a :: a in accepted && Crosses(a, c) ==> a != c;
      DropCrossing(accepted, c)
    else
      var kept := DropWithin(accepted, c);
      SeparateSnoc(kept, c);
      kept + [c]
  }

  /** Adding a span apart from every listed one keeps the list separate. */
  lemma {:induction false} SeparateSnoc(ds: seq<Denotation>, c: Denotation)
    requires forall a :: a in ds ==> Apart(a, c)
    ensures Separate(ds) ==> Separate(ds + [c])
  {
    var r := ds + [c];
    if !Separate(ds) {
      return;
    }
    forall i, j | 0 <= i < |r| && 0 <= j < |r| && i != j
      ensures Apart(r[i], r[j])
    {
      if i == |ds| {
        assert r[j] == ds[j] && r[j] in ds;
      } else if j == |ds| {
        assert r[i] == ds[i] && r[i] in ds;
      } else {
        assert r[i] == ds[i] && r[j] == ds[j];
      }
    }
  }

  /** `validate(denotations, text.length)`: drops the denotations with bad
      bounds, then resolves the conflicts in input order. */
  function Validate(ds: seq<RawDenotation>, length: nat): (r: seq<Denotation>)
    decreases |ds|
    ensures AllProper(r, length) && Separate(r)
  {
    if ds == [] then []
    else
      var accepted := Validate(ds[..|ds| - 1], length);
      match Checked(ds[|ds| - 1], length)
      case None => accepted
      case Some(c) =>
        var r := Admit(accepted, c);
        assert forall i :: 0 <= i < |r| ==> r[i] in accepted || r[i] == c;
        r
  }

  /** No denotation is invented: every survivor is a validated input one. */
  lemma {:induction false} ValidateFromInput(ds: seq<RawDenotation>, length: nat, i: nat)
    requires i < |Validate(ds, length)|
    ensures exists k :: 0 <= k < |ds| && Checked(ds[k], length) == Some(Validate(ds, length)[i])
    decreases |ds|
  {
    var r := Validate(ds, length);
    var init := ds[..|ds| - 1];
    var accepted := Validate(init, length);
    var last := |ds| - 1;
    if Checked(ds[last], length).Some? && r[i] == Checked(ds[last], length).value {
    } else {
      assert r[i] in accepted;
      var j :| 0 <= j < |accepted| && accepted[j] == r[i];
      ValidateFromInput(init, length, j);
      var k :| 0 <= k < |init| && Checked(init[k], length) == Some(accepted[j]);
      assert ds[k] == init[k];
    }
  }

  /** Denotations that are all valid and pairwise apart all survive, in input
      order. */
  lemma {:induction false} ValidateKeepsApart(ds: seq<RawDenotation>, length: nat)
    requires forall k :: 0 <= k < |ds| ==> Checked(ds[k], length).Some?
    requires forall k, l :: 0 <= k < l < |ds| ==> Apart(Checked(ds[k], length).value, Checked(ds[l], length).value)
    ensures Validate(ds, length) == CheckedAll(ds, length)
    decreases |ds|
  {
    if ds != [] {
      var init := ds[..|ds| - 1];
      var c := Checked(ds[|ds| - 1], length).value;
      ValidateKeepsApart(init, length);
      var accepted := Validate(init, length);
      assert accepted == CheckedAll(init, length);
      forall a | a in accepted
        ensures Apart(a, c)
      {
        var k :| 0 <= k < |accepted| && accepted[k] == a;
        CheckedAllAt(init, length, k);
        assert init[k] == ds[k];
      }
      forall i | 0 <= i < |accepted|
        ensures Apart(accepted[i], c) && !SameSpan(accepted[i], c) && !Within(c, accepted[i]) && !Crosses(accepted[i], c)
      {
        assert accepted[i] in accepted;
      }
      assert !Covered(accepted, c) && !CrossesAny(accepted, c);
      DropWithinNone(accepted, c);
      assert Validate(ds, length) == Admit(accepted, c) == accepted + [c];
      assert CheckedAll(ds, length) == CheckedAll(init, length) + [c];
    }
  }

  /** The validated form of every denotation, for inputs that are all valid. */
  function CheckedAll(ds: seq<RawDenotation>, length: nat): (r: seq<Denotation>)
    requires forall k :: 0 <= k < |ds| ==> Checked(ds[k], length).Some?
    ensures |r| == |ds|
  {
    if ds == [] then [] else CheckedAll(ds[..|ds| - 1], length) + [Checked(ds[|ds| - 1], length).value]
  }

  lemma {:induction false} CheckedAllAt(ds: seq<RawDenotation>, length: nat, k: nat)
    requires forall k :: 0 <= k < |ds| ==> Checked(ds[k], length).Some?
    requires k < |ds|
    ensures CheckedAll(ds, length)[k] == Checked(ds[k], length).value
    decreases |ds|
  {
    if k < |ds| - 1 {
      CheckedAllAt(ds[..|ds| - 1], length, k);
    }
  }

  lemma {:induction false} DropWithinNone(accepted: seq<Denotation>, c: Denotation)
    requires forall a :: a in accepted ==> Apart(a, c) && a.beginPos < a.endPos
    ensures DropWithin(accepted, c) == accepted
  {
    if accepted != [] {
      assert accepted[0] in accepted;
      DropWithinNone(accepted[1..], c);
    }
  }

  // The resolution cases of the generator's test file, on the 42
  // characters of "Elon Musk is a member of the PayPal Mafia.".

  /** An integer-bounded input denotation. */
  function Raw(id: string, b: int, e: int, obj: string): RawDenotation {
    RawDenotation(Some(id), Span(Int(b), Int(e)), Some(obj))
  }

  /** Two denotations with the same span: the first is kept. */
  lemma SameSpanKeepsFirst()
    ensures Validate([Raw("T1", 0, 9, "Person"), Raw("T2", 0, 9, "Organization")], 42)
            == [Denotation(0, 9, Some("Person"), Some("T1"))]
  {
    var ds := [Raw("T1", 0, 9, "Person"), Raw("T2", 0, 9, "Organization")];
    var a := Denotation(0, 9, Some("Person"), Some("T1"));
    assert ds[..1] == [ds[0]] && [ds[0]][..0] == [];
    assert Validate(ds[..1], 42) == [a];
    assert [a][0] == a;
    assert Covered([a], Denotation(0, 9, Some("Organization"), Some("T2")));
  }

  /** A span inside an earlier one is dropped. */
  lemma InnerAfterOuterDropped()
    ensures Validate([Raw("T1", 0, 9, "Person"), Raw("T2", 2, 6, "Organization")], 42)
            == [Denotation(0, 9, Some("Person"), Some("T1"))]
  {
    var ds := [Raw("T1", 0, 9, "Person"), Raw("T2", 2, 6, "Organization")];
    var a := Denotation(0, 9, Some("Person"), Some("T1"));
    assert ds[..1] == [ds[0]] && [ds[0]][..0] == [];
    assert Validate(ds[..1], 42) == [a];
    assert [a][0] == a;
    assert Covered([a], Denotation(2, 6, Some("Organization"), Some("T2")));
  }

  /** A later span sharing the begin and containing an earlier one retracts it. */
  lemma OuterAfterInnerWins()
    ensures Validate([Raw("T1", 0, 4, "First name"), Raw("T2", 0, 9, "Full name")], 42)
            == [Denotation(0, 9, Some("Full name"), Some("T2"))]
  {
    var ds := [Raw("T1", 0, 4, "First name"), Raw("T2", 0, 9, "Full name")];
    var a := Denotation(0, 4, Some("First name"), Some("T1"));
    assert ds[..1] == [ds[0]] && [ds[0]][..0] == [];
    assert Validate(ds[..1], 42) == [a];
    assert [a][0] == a;
    var c := Denotation(0, 9, Some("Full name"), Some("T2"));
    assert !Covered([a], c) && !CrossesAny([a], c);
    assert DropWithin([a], c) == [];
  }

  /** A later span sharing the end and containing an earlier one retracts it. */
  lemma OuterAfterInnerEndWins()
    ensures Validate([Raw("T1", 6, 9, "Last name"), Raw("T2", 0, 9, "Full name")], 42)
            == [Denotation(0, 9, Some("Full name"), Some("T2"))]
  {
    var ds := [Raw("T1", 6, 9, "Last name"), Raw("T2", 0, 9, "Full name")];
    var a := Denotation(6, 9, Some("Last name"), Some("T1"));
    assert ds[..1] == [ds[0]] && [ds[0]][..0] == [];
    assert Validate(ds[..1], 42) == [a];
    assert [a][0] == a;
    var c := Denotation(0, 9, Some("Full name"), Some("T2"));
    assert !Covered([a], c) && !CrossesAny([a], c);
    assert DropWithin([a], c) == [];
  }

  /** Crossing spans are both dropped. */
  lemma CrossingBothDropped()
    ensures Validate([Raw("T1", 0, 9, "Person"), Raw("T2", 8, 11, "Organization")], 42) == []
  {
    var ds := [Raw("T1", 0, 9, "Person"), Raw("T2", 8, 11, "Organization")];
    var a := Denotation(0, 9, Some("Person"), Some("T1"));
    assert ds[..1] == [ds[0]] && [ds[0]][..0] == [];
    assert Validate(ds[..1], 42) == [a];
    assert [a][0] == a;
    var c := Denotation(8, 11, Some("Organization"), Some("T2"));
    assert !Covered([a], c) && CrossesAny([a], c);
    assert DropCrossing([a], c) == [];
  }

  /** A negative begin, an empty or reversed span, a span past the end of the
      text and non-integer bounds are all dropped. */
  lemma BadBoundsDropped()
    ensures Validate([Raw("T1", -1, 9, "Person")], 42) == []
    ensures Validate([RawDenotation(None, Span(Int(4), Int(0)), Some("Person"))], 42) == []
    ensures Validate([Raw("T1", 100, 200, "Person")], 42) == []
    ensures Validate([RawDenotation(Some("T1"), Span(NonInteger, NonInteger), Some("Person")),
                      RawDenotation(Some("T2"), Span(NonInteger, NonInteger), Some("Organization"))], 42) == []
  {
    var ds := [RawDenotation(Some("T1"), Span(NonInteger, NonInteger), Some("Person")),
               RawDenotation(Some("T2"), Span(NonInteger, NonInteger), Some("Organization"))];
    assert ds[..1] == [ds[0]] && [ds[0]][..0] == [];
  }

  // ---------------------------------------------------------------------------
  // Annotation strings and label definitions
  // ---------------------------------------------------------------------------

  /** `relations.find { |rel| rel["subj"] == id }`: the first relation whose
      subject is `id` (a missing subject equals a missing id). */
  function FirstRelation(relations: seq<Relation>, id: Option<string>): (r: Option<Relation>)
    ensures r.Some? ==> exists k :: 0 <= k < |relations| && relations[k] == r.value
                         && (forall j :: 0 <= j < k ==> relations[j].subj != id)
    ensures r.Some? ==> r.value.subj == id
    ensures r.None? ==> forall k :: 0 <= k < |relations| ==> relations[k].subj != id
  {
    if relations == [] then None
    else if relations[0].subj == id then Some(relations[0])
    else
      var r := FirstRelation(relations[1..], id);
      assert forall k :: 0 < k < |relations| ==> relations[k] == relations[1..][k - 1];
      r
  }

  /** The labelled entity types, in config order. */
  function Labelled(types: seq<EntityType>): (r: seq<EntityType>)
    ensures forall e :: e in r <==> e in types && e.name.Some?
    ensures |r| <= |types|
  {
    if types == [] then []
    else if types[0].name.Some? then [types[0]] + Labelled(types[1..])
    else Labelled(types[1..])
  }

  /** Filtering keeps the relative order: it distributes over concatenation. */
  lemma {:induction false} LabelledAppend(a: seq<EntityType>, b: seq<EntityType>)
    ensures Labelled(a + b) == Labelled(a) + Labelled(b)
  {
    if a != [] {
      assert (a + b)[0] == a[0] && (a + b)[1..] == a[1..] + b;
      LabelledAppend(a[1..], b);
    } else {
      assert a + b == b;
    }
  }

  /** `labeled_entity_types`: nothing without a config or without an
      `"entity types"` list, else the entries that have a label. */
  function LabeledEntityTypes(config: Option<Config>): (r: Option<seq<EntityType>>)
    ensures r.Some? <==> config.Some? && config.value.entityTypes.Some?
    ensures r.Some? ==> forall e :: e in r.value <==> e in config.value.entityTypes.value && e.name.Some?
  {
    match config
    case None => None
    case Some(c) =>
      match c.entityTypes
      case None => None
      case Some(types) => Some(Labelled(types))
  }

  /** The first entity type with the given id. */
  function FirstEntity(types: seq<EntityType>, obj: Option<string>): (r: Option<EntityType>)
    ensures r.Some? ==> exists k :: 0 <= k < |types| && types[k] == r.value
                         && (forall j :: 0 <= j < k ==> types[j].id != obj)
    ensures r.Some? ==> r.value.id == obj
    ensures r.None? ==> forall k :: 0 <= k < |types| ==> types[k].id != obj
  {
    if types == [] then None
    else if types[0].id == obj then Some(types[0])
    else
      var r := FirstEntity(types[1..], obj);
      assert forall k :: 0 < k < |types| ==> types[k] == types[1..][k - 1];
      r
  }

  /** `find_entity_label`: the label of the first labelled entry whose id is
      `obj`, or `obj` itself. */
  function FindEntityLabel(config: Option<Config>, obj: Option<string>): (r: Option<string>)
    requires LabeledEntityTypes(config).Some?
    ensures var labelled := LabeledEntityTypes(config).value;
            match FirstEntity(labelled, obj)
            case Some(e) => r == e.name && r.Some?
            case None => r == obj
  {
    match FirstEntity(LabeledEntityTypes(config).value, obj)
    case Some(e) => e.name
    case None => obj
  }

  /** Ruby's `compact`: the present values, in order. */
  function Compact(xs: seq<Option<string>>): (r: seq<string>)
    ensures |r| <= |xs|
    ensures forall x :: x in r <==> Some(x) in xs
  {
    if xs == [] then []
    else
      var rest := Compact(xs[1..]);
      assert forall x :: Some(x) in xs <==> xs[0] == Some(x) || Some(x) in xs[1..];
      if xs[0].Some? then [xs[0].value] + rest else rest
  }

  /** `compact` keeps the order: it distributes over concatenation. */
  lemma {:induction false} CompactAppend(a: seq<Option<string>>, b: seq<Option<string>>)
    ensures Compact(a + b) == Compact(a) + Compact(b)
    decreases |a|
  {
    if a == [] {
      assert a + b == b;
    } else {
      assert (a + b)[0] == a[0] && (a + b)[1..] == a[1..] + b;
      CompactAppend(a[1..], b);
    }
  }

  /** The object shown in an annotation: its label when labelled entity types
      are configured, else the object itself. */
  function ShownObj(src: Source, obj: Option<string>): Option<string> {
    if LabeledEntityTypes(src.config).None? then obj else FindEntityLabel(src.config, obj)
  }

  /** `get_annotations(obj, id)`: id, shown object, and the predicate and
      object of the first relation whose subject is the id, with the missing
      ones dropped, joined by `", "`. */
  function Annotations(src: Source, obj: Option<string>, id: Option<string>): string {
    AnnotationText(src.relations, id, ShownObj(src, obj))
  }

  /** The annotation of a denotation with id `id` whose object is shown as
      `shown`. */
  function AnnotationText(relations: Option<seq<Relation>>, id: Option<string>, shown: Option<string>): string {
    var relation := if relations.None? then None else FirstRelation(relations.value, id);
    var pred := if relation.None? then None else relation.value.pred;
    var relObj := if relation.None? then None else relation.value.obj;
    Join(Compact([id, shown, pred, relObj]), ", ")
  }

  /** The object an annotation shows: with labelled entity types configured,
      the label of the first labelled entity type whose id is the object, and
      the object itself when there is none; without them, the object. */
  lemma {:induction false} AnnotationsShown(src: Source, obj: Option<string>, id: Option<string>)
    ensures LabeledEntityTypes(src.config).None? ==> Annotations(src, obj, id) == AnnotationText(src.relations, id, obj)
    ensures LabeledEntityTypes(src.config).Some? ==>
              match FirstEntity(LabeledEntityTypes(src.config).value, obj)
              case Some(e) => e.name.Some? && Annotations(src, obj, id) == AnnotationText(src.relations, id, e.name)
              case None => Annotations(src, obj, id) == AnnotationText(src.relations, id, obj)
  {
  }

  /** The fields of an annotation, in order: the id and the shown object, then
      the predicate and object of the first relation whose subject is the id;
      a missing field is left out and the rest are joined by `", "`. */
  lemma {:induction false} AnnotationFields(relations: Option<seq<Relation>>, id: Option<string>, shown: Option<string>)
    ensures relations.None? || FirstRelation(relations.value, id).None? ==>
              AnnotationText(relations, id, shown) == Join(Compact([id, shown]), ", ")
    ensures relations.Some? && FirstRelation(relations.value, id).Some? ==>
              var rel := FirstRelation(relations.value, id).value;
              AnnotationText(relations, id, shown) == Join(Compact([id, shown]) + Compact([rel.pred, rel.obj]), ", ")
    ensures relations.Some? && FirstRelation(relations.value, id).Some? && id.Some? && shown.Some? ==>
              var rel := FirstRelation(relations.value, id).value;
              rel.pred.Some? && rel.obj.Some? ==>
              AnnotationText(relations, id, shown) == id.value + ", " + (shown.value + ", " + (rel.pred.value + ", " + rel.obj.value))
  {
    var relation := if relations.None? then None else FirstRelation(relations.value, id);
    var pred := if relation.None? then None else relation.value.pred;
    var relObj := if relation.None? then None else relation.value.obj;
    CompactAppend([id, shown], [pred, relObj]);
    assert [id, shown] + [pred, relObj] == [id, shown, pred, relObj];
    NoFields();
    if id.Some? && shown.Some? && pred.Some? && relObj.Some? {
      FourFields(id.value, shown.value, pred.value, relObj.value);
    }
  }

  /** Four present fields are joined in order. */
  lemma {:induction false} FourFields(a: string, b: string, c: string, d: string)
    ensures Join(Compact([Some(a), Some(b), Some(c), Some(d)]), ", ") == a + ", " + (b + ", " + (c + ", " + d))
  {
    var xs := [Some(a), Some(b), Some(c), Some(d)];
    CompactPresent(xs);
    assert Compact(xs) == [a, b, c, d];
    JoinFour(a, b, c, d);
  }

  /** Missing fields add nothing. */
  lemma {:induction false} NoFields()
    ensures Compact([None, None]) == []
  {
    var xs: seq<Option<string>> := [None, None];
    assert xs[1..] == [None];
  }

  lemma JoinTwo(a: string, b: string, sep: string)
    ensures Join([a, b], sep) == a + sep + b
  {
    assert [a, b][1..] == [b];
  }

  lemma JoinFour(a: string, b: string, c: string, d: string)
    ensures Join([a, b, c, d], ", ") == a + ", " + (b + ", " + (c + ", " + d))
  {
    assert [a, b, c, d][1..] == [b, c, d];
    assert [b, c, d][1..] == [c, d];
    JoinTwo(c, d, ", ");
  }

  /** Present values are all kept. */
  lemma {:induction false} CompactPresent(xs: seq<Option<string>>)
    requires forall k :: 0 <= k < |xs| ==> xs[k].Some?
    ensures |Compact(xs)| == |xs| && forall k :: 0 <= k < |xs| ==> Compact(xs)[k] == xs[k].value
  {
    if xs != [] {
      CompactPresent(xs[1..]);
    }
  }

  /** Ruby's `"#{x}"`: a missing value interpolates as the empty string. */
  function Show(x: Option<string>): string {
    x.GetOr("")
  }

  function DefinitionLine(e: EntityType): string {
    "[" + Show(e.name) + "]: " + Show(e.id)
  }

  function DefinitionLines(types: seq<EntityType>): (r: seq<string>)
    ensures |r| == |types|
    ensures forall k :: 0 <= k < |types| ==> r[k] == DefinitionLine(types[k])
  {
    if types == [] then [] else [DefinitionLine(types[0])] + DefinitionLines(types[1..])
  }

  /** `build_label_definitions`: one `[label]: id` line per labelled entry,
      joined by newlines; nothing when there is no labelled entry. */
  function BuildLabelDefinitions(config: Option<Config>): (r: Option<string>)
    ensures r.None? <==> LabeledEntityTypes(config).None? || LabeledEntityTypes(config).value == []
  {
    match LabeledEntityTypes(config)
    case None => None
    case Some(labelled) =>
      if labelled == [] then None else Some(Join(DefinitionLines(labelled), "\n"))
  }

  // ---------------------------------------------------------------------------
  // Rewriting the text
  // ---------------------------------------------------------------------------

  /** Each span ends at or before the next one begins. */
  predicate Increasing(ds: seq<Denotation>) {
    forall i, j :: 0 <= i < j < |ds| ==> ds[i].endPos <= ds[j].beginPos
  }

  /** `d` ends before every listed span begins. */
  predicate Before(d: Denotation, ds: seq<Denotation>) {
    forall x :: x in ds ==> d.endPos <= x.beginPos
  }

  lemma {:induction false} IncreasingCons(d: Denotation, ds: seq<Denotation>)
    requires Increasing(ds) && Before(d, ds)
    ensures Increasing([d] + ds)
  {
    var r := [d] + ds;
    forall i, j | 0 <= i < j < |r|
      ensures r[i].endPos <= r[j].beginPos
    {
      if i == 0 {
        assert r[j] == ds[j - 1] && r[j] in ds;
      } else {
        assert r[i] == ds[i - 1] && r[j] == ds[j - 1];
      }
    }
  }

  /** The first of increasing, non-empty spans begins first. */
  lemma {:induction false} HeadBegins(ds: seq<Denotation>, n: nat)
    requires ds != [] && AllProper(ds, n) && Increasing(ds)
    ensures forall x :: x in ds ==> ds[0].beginPos <= x.beginPos
  {
    forall x | x in ds
      ensures ds[0].beginPos <= x.beginPos
    {
      var j :| 0 <= j < |ds| && ds[j] == x;
      if j > 0 {
        assert ds[0].endPos <= ds[j].beginPos;
      }
    }
  }

  lemma {:induction false} IncreasingTail(ds: seq<Denotation>, n: nat)
    requires ds != [] && AllProper(ds, n) && Increasing(ds)
    ensures AllProper(ds[1..], n) && Increasing(ds[1..]) && Before(ds[0], ds[1..])
  {
    assert forall i :: 0 <= i < |ds| - 1 ==> ds[1..][i] == ds[i + 1];
    forall x | x in ds[1..]
      ensures ds[0].endPos <= x.beginPos
    {
      var j :| 0 <= j < |ds| - 1 && ds[1..][j] == x;
      assert ds[j + 1] == x;
    }
  }

  lemma {:induction false} AllProperCons(d: Denotation, ds: seq<Denotation>, n: nat)
    requires Proper(d, n) && AllProper(ds, n)
    ensures AllProper([d] + ds, n)
  {
    assert forall i :: 0 < i <= |ds| ==> ([d] + ds)[i] == ds[i - 1];
  }

  /** Inserts a span before the first listed one that begins after it. */
  function Insert(d: Denotation, sorted: seq<Denotation>): (r: seq<Denotation>)
    ensures multiset(r) == multiset(sorted) + multiset{d}
  {
    if sorted == [] then [d]
    else if d.beginPos < sorted[0].beginPos then [d] + sorted
    else
      assert sorted == [sorted[0]] + sorted[1..];
      [sorted[0]] + Insert(d, sorted[1..])
  }

  /** Inserting a span apart from all the sorted ones keeps them sorted. */
  lemma {:induction false} InsertIncreasing(d: Denotation, sorted: seq<Denotation>, n: nat)
    requires Proper(d, n) && AllProper(sorted, n) && Increasing(sorted)
    requires forall x :: x in sorted ==> Apart(d, x)
    ensures AllProper(Insert(d, sorted), n) && Increasing(Insert(d, sorted))
  {
    if sorted == [] {
    } else if d.beginPos < sorted[0].beginPos {
      assert Before(d, sorted) by {
        assert sorted[0] in sorted && Proper(sorted[0], n) && Apart(d, sorted[0]);
        HeadBegins(sorted, n);
      }
      IncreasingCons(d, sorted);
      AllProperCons(d, sorted, n);
    } else {
      var s0 := sorted[0];
      assert s0.endPos <= d.beginPos by {
        assert s0 in sorted && Apart(d, s0);
      }
      IncreasingTail(sorted, n);
      var rest := Insert(d, sorted[1..]);
      InsertIncreasing(d, sorted[1..], n);
      assert Before(s0, rest) by {
        forall x | x in rest
          ensures s0.endPos <= x.beginPos
        {
          assert x in multiset(rest);
        }
      }
      IncreasingCons(s0, rest);
      AllProperCons(s0, rest, n);
    }
  }

  /** `sort_by(&:begin_pos)`, as an insertion sort. */
  function SortByBegin(ds: seq<Denotation>): (r: seq<Denotation>)
    ensures multiset(r) == multiset(ds)
  {
    if ds == [] then []
    else
      assert ds == [ds[0]] + ds[1..];
      Insert(ds[0], SortByBegin(ds[1..]))
  }

  /** The first of spans that are pairwise apart is apart from the sorted rest. */
  lemma {:induction false} HeadApart(ds: seq<Denotation>)
    requires ds != [] && Separate(ds)
    ensures forall x :: x in SortByBegin(ds[1..]) ==> Apart(ds[0], x)
  {
    forall x | x in SortByBegin(ds[1..])
      ensures Apart(ds[0], x)
    {
      assert x in multiset(ds[1..]);
      var j :| 0 <= j < |ds| - 1 && ds[1..][j] == x;
      assert ds[j + 1] == x;
    }
  }

  /** Spans that are pairwise apart come out of the sort in text order, each
      ending before the next begins. */
  lemma {:induction false} SortIncreasing(ds: seq<Denotation>, n: nat)
    requires AllProper(ds, n) && Separate(ds)
    ensures AllProper(SortByBegin(ds), n) && Increasing(SortByBegin(ds))
  {
    if ds != [] {
      SeparateTail(ds);
      assert AllProper(ds[1..], n) by {
        assert forall i :: 0 <= i < |ds| - 1 ==> ds[1..][i] == ds[i + 1];
      }
      SortIncreasing(ds[1..], n);
      HeadApart(ds);
      InsertIncreasing(ds[0], SortByBegin(ds[1..]), n);
    }
  }

  /** `[<covered text>][<annotations>]` for one span. */
  function Marked(src: Source, text: string, d: Denotation): string
    requires Proper(d, |text|)
  {
    "[" + text[d.beginPos..d.endPos] + "][" + Annotations(src, d.obj, d.id) + "]"
  }

  /** Where the text after `sorted[..i]` starts: the end of the span before. */
  function Resume(sorted: seq<Denotation>, i: nat): nat
    requires i <= |sorted|
  {
    if i == 0 then 0 else sorted[i - 1].endPos
  }

  lemma {:induction false} ResumeBounds(text: string, sorted: seq<Denotation>, i: nat)
    requires AllProper(sorted, |text|) && Increasing(sorted) && i <= |sorted|
    ensures Resume(sorted, i) <= |text|
    ensures i < |sorted| ==> Resume(sorted, i) <= sorted[i].beginPos
  {
    if 0 < i < |sorted| {
      assert sorted[i - 1].endPos <= sorted[i].beginPos;
    }
  }

  /** The annotated text after the spans `sorted[..i]`, built left to right:
      the text between the spans is copied, each span becomes its markup. */
  function Render(src: Source, text: string, sorted: seq<Denotation>, i: nat): string
    requires AllProper(sorted, |text|) && Increasing(sorted) && i <= |sorted|
    decreases |sorted| - i
  {
    ResumeBounds(text, sorted, i);
    var pos := Resume(sorted, i);
    if i == |sorted| then text[pos..]
    else text[pos..sorted[i].beginPos] + Marked(src, text, sorted[i]) + Render(src, text, sorted, i + 1)
  }

  /** One step of the right-to-left rewrite gives the left-to-right result
      from one span earlier. */
  lemma {:induction false} RewriteStep(src: Source, text: string, sorted: seq<Denotation>, i: nat, r: string)
    requires AllProper(sorted, |text|) && Increasing(sorted) && 0 < i <= |sorted|
    requires r == text[..Resume(sorted, i)] + Render(src, text, sorted, i)
    ensures var d := sorted[i - 1];
            && d.endPos == Resume(sorted, i) && d.endPos <= |r|
            && r[..d.beginPos] + ("[" + r[d.beginPos..d.endPos] + "][" + Annotations(src, d.obj, d.id) + "]") + r[d.endPos..]
               == text[..Resume(sorted, i - 1)] + Render(src, text, sorted, i - 1)
  {
    var d := sorted[i - 1];
    var q := Resume(sorted, i - 1);
    ResumeBounds(text, sorted, i - 1);
    ResumeBounds(text, sorted, i);
    var rest := Render(src, text, sorted, i);
    var m := Marked(src, text, d);
    assert Render(src, text, sorted, i - 1) == text[q..d.beginPos] + m + rest;
    Splice(text, rest, d.beginPos, d.endPos, Annotations(src, d.obj, d.id));
    Regroup(text, q, d.beginPos, m, rest);
  }

  /** Marking `[b, e)` in text whose first `e` characters are original. */
  lemma {:induction false} Splice(text: string, rest: string, b: nat, e: nat, a: string)
    requires b <= e <= |text|
    ensures var r := text[..e] + rest;
            r[..b] + ("[" + r[b..e] + "][" + a + "]") + r[e..]
            == text[..b] + ("[" + text[b..e] + "][" + a + "]") + rest
  {
    var r := text[..e] + rest;
    assert r[..b] == text[..b];
    assert r[b..e] == text[b..e];
    assert r[e..] == rest;
  }

  lemma {:induction false} Regroup(text: string, q: nat, b: nat, m: string, rest: string)
    requires q <= b <= |text|
    ensures text[..q] + (text[q..b] + m + rest) == text[..b] + m + rest
  {
    assert text[..q] + text[q..b] == text[..b];
  }

  /** The text with every span marked up, the spans taken in text order. */
  function Annotated(src: Source, text: string, ds: seq<Denotation>): string
    requires AllProper(ds, |text|) && Separate(ds)
  {
    SortIncreasing(ds, |text|);
    Render(src, text, SortByBegin(ds), 0)
  }

  // ---------------------------------------------------------------------------
  // The generator
  // ---------------------------------------------------------------------------

  /** `[annotated_text, label_definitions].compact.join("\n\n")`. */
  function Assemble(annotated: string, definitions: Option<string>): string {
    if definitions.None? then annotated else annotated + "\n\n" + definitions.value
  }

  /** What `generate` returns for a document, or the error it raises. */
  function Encoded(src: Source): Result<string, GeneratorError> {
    if src.text.None? then Failure(GeneratorError(MissingText))
    else
      var text := src.text.value;
      var denotations := Validate(src.denotations.GetOr([]), |text|);
      Success(Assemble(Annotated(src, text, denotations), BuildLabelDefinitions(src.config)))
  }

  class Generator {
    /** The document, frozen at construction. */
    const source: Source
    const denotations: seq<RawDenotation>
    const config: Option<Config>

    constructor(source: Source)
      ensures this.source == source
      ensures denotations == source.denotations.GetOr([]) && config == source.config
    {
      this.source := source;
      denotations := source.denotations.GetOr([]);
      config := source.config;
    }

    /** `generate`: the annotated text followed, after a blank line, by the
        label definitions; the missing-text error when the document has no
        text. */
    method Generate() returns (r: Result<string, GeneratorError>)
      requires denotations == source.denotations.GetOr([]) && config == source.config
      ensures r == Encoded(source)
      ensures source.text.None? <==> r == Failure(GeneratorError(MissingText))
    {
      if source.text.None? {
        return Failure(GeneratorError(MissingText));
      }
      var text := source.text.value;
      var valid := Validate(denotations, |text|);
      var annotatedText := AnnotateText(text, valid);
      var labelDefinitions := BuildLabelDefinitions(config);
      r := Success(Assemble(annotatedText, labelDefinitions));
    }

    /** `annotate_text`: rewrites the spans from the rightmost one to the
        leftmost, so the offsets of the spans still to do stay valid. */
    method AnnotateText(text: string, ds: seq<Denotation>) returns (r: string)
      requires AllProper(ds, |text|) && Separate(ds)
      ensures r == Annotated(source, text, ds)
    {
      var sorted := SortByBegin(ds);
      SortIncreasing(ds, |text|);
      r := text;
      var i := |sorted|;
      ResumeBounds(text, sorted, i);
      while i > 0
        invariant 0 <= i <= |sorted|
        invariant r == text[..Resume(sorted, i)] + Render(source, text, sorted, i)
      {
        RewriteStep(source, text, sorted, i, r);
        var d := sorted[i - 1];
        var annotations := Annotations(source, d.obj, d.id);
        var annotatedText := "[" + r[d.beginPos..d.endPos] + "][" + annotations + "]";
        r := r[..d.beginPos] + annotatedText + r[d.endPos..];
        i := i - 1;
      }
    }
  }

  // ---------------------------------------------------------------------------
  // Properties of the output
  // ---------------------------------------------------------------------------

  /** With no surviving denotation and no labelled entity type the output is
      the text itself. */
  lemma {:induction false} PlainTextUnchanged(src: Source)
    requires src.text.Some?
    requires Validate(src.denotations.GetOr([]), |src.text.value|) == []
    requires BuildLabelDefinitions(src.config).None?
    ensures Encoded(src) == Success(src.text.value)
  {
    var text := src.text.value;
    assert SortByBegin([]) == [];
    assert Render(src, text, [], 0) == text[0..] == text;
  }

  /** The definition block is appended, after a blank line, exactly when a
      labelled entity type exists, one line per labelled entry in config
      order. */
  lemma {:induction false} DefinitionsAppended(src: Source)
    requires src.text.Some?
    ensures var text := src.text.value;
            var ds := Validate(src.denotations.GetOr([]), |text|);
            var labelled := LabeledEntityTypes(src.config);
            if labelled.Some? && labelled.value != [] then
              Encoded(src) == Success(Annotated(src, text, ds) + "\n\n" + Join(DefinitionLines(labelled.value), "\n"))
            else
              Encoded(src) == Success(Annotated(src, text, ds))
  {
  }

  /** An entity type the decoder's definition-line grammar can read back. */
  predicate Readable(e: EntityType) {
    && e.id.Some? && e.name.Some?
    && e.name.value != [] && ']' !in e.name.value && '\n' !in e.name.value
    && e.id.value != [] && NoSpace(e.id.value)
  }

  /** Each label definition line the encoder writes is read back by the
      decoder's line reader as the same label and id, unless the two are
      equal, in which case the decoder skips it. */
  lemma {:induction false} DefinitionLineReadBack(e: EntityType)
    requires Readable(e)
    ensures Accept(DefinitionLine(e)) == if e.name.value == e.id.value then None
                                         else Some(Definition(e.name.value, e.id.value))
  {
    DefinitionLineParses(e);
    TrimUnchanged(DefinitionLine(e));
  }

  /** A readable entry's line is, as it stands, a whole definition line
      giving its label and id; it is one line and ends with the id. */
  lemma {:induction false} DefinitionLineParses(e: EntityType)
    requires Readable(e)
    ensures var line := DefinitionLine(e);
            && ParseDefinitionLine(line) == Some(Definition(e.name.value, e.id.value))
            && '\n' !in line && line != [] && line[0] == '['
            && line[|line| - 1] == e.id.value[|e.id.value| - 1] && !IsSpace(line[|line| - 1])
  {
    var line := DefinitionLine(e);
    var name, id := e.name.value, e.id.value;
    var d := Definition(name, id);
    assert line == "" + "[" + d.name + "]:" + " " + d.id + "";
    assert IsSpace(' ');
    assert AllSpace("") && AllSpace(" ");
    assert IsTitleTail("");
    assert line[|line| - 1] == id[|id| - 1];
    assert !IsSpace(id[|id| - 1]);
    ParseDefinitionLineComplete(line, d, "", " ", "");
  }

  /** The definition block splits back into one line per labelled entry. */
  lemma {:induction false} DefinitionBlockLines(config: Option<Config>)
    requires LabeledEntityTypes(config).Some? && LabeledEntityTypes(config).value != []
    requires forall e :: e in LabeledEntityTypes(config).value ==> Readable(e)
    ensures BuildLabelDefinitions(config).Some?
    ensures Split(BuildLabelDefinitions(config).value, '\n') == DefinitionLines(LabeledEntityTypes(config).value)
  {
    var labelled := LabeledEntityTypes(config).value;
    var lines := DefinitionLines(labelled);
    forall k | 0 <= k < |lines|
      ensures '\n' !in lines[k]
    {
      assert labelled[k] in labelled;
      DefinitionLineParses(labelled[k]);
    }
    SplitJoin(lines, '\n');
  }

  /** How much longer the output is than the text because of the markup of
      the spans `sorted[i..k]`: each adds its brackets and annotations. */
  function Added(src: Source, sorted: seq<Denotation>, i: nat, k: nat): nat
    requires i <= k <= |sorted|
    decreases k - i
  {
    if i == k then 0 else |Annotations(src, sorted[i].obj, sorted[i].id)| + 4 + Added(src, sorted, i + 1, k)
  }

  lemma {:induction false} SliceAfter(a: string, b: string, x: int, y: int)
    requires |a| <= x <= y <= |a| + |b|
    ensures (a + b)[x..y] == b[x - |a|..y - |a|]
  {
  }

  /** The output for the spans `sorted[i..k]`: the text before each span and
      its markup. */
  function Prefix(src: Source, text: string, sorted: seq<Denotation>, i: nat, k: nat): string
    requires AllProper(sorted, |text|) && Increasing(sorted) && i <= k <= |sorted|
    decreases k - i
  {
    ResumeBounds(text, sorted, i);
    if i == k then []
    else text[Resume(sorted, i)..sorted[i].beginPos] + Marked(src, text, sorted[i]) + Prefix(src, text, sorted, i + 1, k)
  }

  /** The output splits at every span boundary. */
  lemma {:induction false} RenderSplit(src: Source, text: string, sorted: seq<Denotation>, i: nat, k: nat)
    requires AllProper(sorted, |text|) && Increasing(sorted) && i <= k <= |sorted|
    ensures Render(src, text, sorted, i) == Prefix(src, text, sorted, i, k) + Render(src, text, sorted, k)
    decreases k - i
  {
    if i < k {
      ResumeBounds(text, sorted, i);
      RenderSplit(src, text, sorted, i + 1, k);
      var g := text[Resume(sorted, i)..sorted[i].beginPos];
      var m := Marked(src, text, sorted[i]);
      var p := Prefix(src, text, sorted, i + 1, k);
      var r := Render(src, text, sorted, k);
      assert g + m + (p + r) == (g + m + p) + r;
    }
  }

  /** The output for `sorted[i..k]` is as long as the text it covers plus the
      markup added. */
  lemma {:induction false} PrefixLength(src: Source, text: string, sorted: seq<Denotation>, i: nat, k: nat)
    requires AllProper(sorted, |text|) && Increasing(sorted) && i <= k <= |sorted|
    ensures Resume(sorted, i) <= Resume(sorted, k)
    ensures |Prefix(src, text, sorted, i, k)| == Resume(sorted, k) - Resume(sorted, i) + Added(src, sorted, i, k)
    decreases k - i
  {
    if i < k {
      ResumeBounds(text, sorted, i);
      PrefixLength(src, text, sorted, i + 1, k);
      var d := sorted[i];
      assert |Marked(src, text, d)| == d.endPos - d.beginPos + |Annotations(src, d.obj, d.id)| + 4;
    }
  }

  /** Where the markup of `sorted[k]` starts in the output. */
  function Offset(src: Source, sorted: seq<Denotation>, k: nat): nat
    requires k < |sorted|
  {
    sorted[k].beginPos + Added(src, sorted, 0, k)
  }

  /** Where each span ends up: the markup of `sorted[k]` stands at its
      original offset moved right by the markup added before it. */
  lemma {:induction false} MarkupOffset(src: Source, text: string, sorted: seq<Denotation>, k: nat)
    requires AllProper(sorted, |text|) && Increasing(sorted) && k < |sorted|
    ensures Offset(src, sorted, k) + |Marked(src, text, sorted[k])| <= |Render(src, text, sorted, 0)|
    ensures Render(src, text, sorted, 0)[Offset(src, sorted, k)..Offset(src, sorted, k) + |Marked(src, text, sorted[k])|]
            == Marked(src, text, sorted[k])
  {
    var pre, g, rest := Layout(src, text, sorted, k);
    Pieces(Render(src, text, sorted, 0), pre, g, Marked(src, text, sorted[k]), rest,
           Resume(sorted, k) + Added(src, sorted, 0, k), Offset(src, sorted, k));
  }

  /** The text between the span before `sorted[k]` and it is copied
      unchanged, moved right by the markup added before it. */
  lemma {:induction false} GapUnchanged(src: Source, text: string, sorted: seq<Denotation>, k: nat)
    requires AllProper(sorted, |text|) && Increasing(sorted) && k < |sorted|
    ensures Resume(sorted, k) <= sorted[k].beginPos
    ensures Offset(src, sorted, k) <= |Render(src, text, sorted, 0)|
    ensures Render(src, text, sorted, 0)[Resume(sorted, k) + Added(src, sorted, 0, k)..Offset(src, sorted, k)]
            == text[Resume(sorted, k)..sorted[k].beginPos]
  {
    var pre, g, rest := Layout(src, text, sorted, k);
    Pieces(Render(src, text, sorted, 0), pre, g, Marked(src, text, sorted[k]), rest,
           Resume(sorted, k) + Added(src, sorted, 0, k), Offset(src, sorted, k));
  }

  /** The output cut before the gap preceding `sorted[k]`, and after its markup. */
  lemma {:induction false} Layout(src: Source, text: string, sorted: seq<Denotation>, k: nat)
    returns (pre: string, g: string, rest: string)
    requires AllProper(sorted, |text|) && Increasing(sorted) && k < |sorted|
    ensures Resume(sorted, k) <= sorted[k].beginPos
    ensures g == text[Resume(sorted, k)..sorted[k].beginPos]
    ensures |pre| == Resume(sorted, k) + Added(src, sorted, 0, k)
    ensures Render(src, text, sorted, 0) == pre + (g + Marked(src, text, sorted[k]) + rest)
  {
    ResumeBounds(text, sorted, k);
    RenderSplit(src, text, sorted, 0, k);
    PrefixLength(src, text, sorted, 0, k);
    pre := Prefix(src, text, sorted, 0, k);
    g := text[Resume(sorted, k)..sorted[k].beginPos];
    rest := Render(src, text, sorted, k + 1);
    assert Render(src, text, sorted, k) == g + Marked(src, text, sorted[k]) + rest;
  }

  /** The pieces of a four-part concatenation sit at their running offsets. */
  lemma {:induction false} Pieces(out: string, pre: string, g: string, m: string, rest: string, q: nat, p: nat)
    requires out == pre + (g + m + rest) && q == |pre| && p == q + |g|
    ensures p + |m| <= |out|
    ensures out[q..p] == g
    ensures out[p..p + |m|] == m
  {
    assert out == (pre + g) + (m + rest);
    SliceAfter(pre, g + (m + rest), q, p);
    assert (g + (m + rest))[0..|g|] == g;
    SliceAfter(pre + g, m + rest, p, p + |m|);
    assert (m + rest)[0..|m|] == m;
  }

  /** The output is longer than the text by exactly the added markup, and the
      text after the last span ends it unchanged. */
  lemma {:induction false} RenderLength(src: Source, text: string, sorted: seq<Denotation>)
    requires AllProper(sorted, |text|) && Increasing(sorted)
    ensures Resume(sorted, |sorted|) <= |text|
    ensures var out := Render(src, text, sorted, 0);
            var tail := text[Resume(sorted, |sorted|)..];
            && |out| == |text| + Added(src, sorted, 0, |sorted|)
            && |tail| <= |out| && out[|out| - |tail|..] == tail
  {
    ResumeBounds(text, sorted, |sorted|);
    RenderSplit(src, text, sorted, 0, |sorted|);
    PrefixLength(src, text, sorted, 0, |sorted|);
    var pre := Prefix(src, text, sorted, 0, |sorted|);
    var tail := text[Resume(sorted, |sorted|)..];
    assert Render(src, text, sorted, |sorted|) == tail;
    SliceAfter(pre, tail, |pre|, |pre| + |tail|);
  }

}
