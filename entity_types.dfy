// The entity-type dictionary of the decoder: a label -> id map read from the
// label-definition blocks of a source text, computed lazily once per
// collection. The first definition of a label wins.

module EntityTypes {
  import opened Wrappers
  import opened Strings
  import opened Grammar

  // ---------------------------------------------------------------------------
  // The dictionary: a JavaScript object used as a map, whose keys keep their
  // insertion order
  // ---------------------------------------------------------------------------

  /** `keys` lists the labels in insertion order; `ids` maps each to its id. */
  datatype Dictionary = Dictionary(keys: seq<string>, ids: map<string, string>)

  /** No label is listed twice and the listed labels are exactly the mapped ones. */
  ghost predicate WellFormed(d: Dictionary) {
    && (forall i, j :: 0 <= i < j < |d.keys| ==> d.keys[i] != d.keys[j])
    && (forall name :: name in d.ids <==> name in d.keys)
  }

  const Empty := Dictionary([], map[])

  /** Reading a label: its id, or nothing when it is not registered. */
  function Lookup(d: Dictionary, name: string): (r: Option<string>)
    ensures r.Some? <==> name in d.ids
    ensures r.Some? ==> r.value == d.ids[name]
  {
    if name in d.ids then Some(d.ids[name]) else None
  }

  /** Registers `name` unless it is already present: an existing entry is
      never overwritten. */
  function Define(d: Dictionary, name: string, id: string): (r: Dictionary)
    requires WellFormed(d)
    ensures WellFormed(r)
    ensures name in d.ids ==> r == d
    ensures name !in d.ids ==> r.keys == d.keys + [name] && Lookup(r, name) == Some(id)
    ensures forall other :: other != name ==> Lookup(r, other) == Lookup(d, other)
  {
    if name in d.ids then d
    else
      var r := Dictionary(d.keys + [name], d.ids[name := id]);
      assert forall i :: 0 <= i < |d.keys| ==> r.keys[i] == d.keys[i];
      r
  }

  // ---------------------------------------------------------------------------
  // Reading definition lines
  // ---------------------------------------------------------------------------

  /** The definition a line contributes: the trimmed line must match the
      definition-line pattern as a whole, and a label equal to its id is
      skipped. */
  function Accept(line: string): (r: Option<Definition>)
    ensures r.Some? ==> r.value.name != r.value.id
    ensures r.Some? ==> exists lead, sep, tail :: DefinitionLineShape(Trim(line), r.value, lead, sep, tail)
    ensures forall d, lead, sep, tail :: DefinitionLineShape(Trim(line), d, lead, sep, tail)
              ==> r == if d.name == d.id then None else Some(d)
  {
    assert forall d, lead, sep, tail :: DefinitionLineShape(Trim(line), d, lead, sep, tail)
             ==> ParseDefinitionLine(Trim(line)) == Some(d) by {
      forall d, lead, sep, tail | DefinitionLineShape(Trim(line), d, lead, sep, tail)
        ensures ParseDefinitionLine(Trim(line)) == Some(d)
      {
        ParseDefinitionLineComplete(Trim(line), d, lead, sep, tail);
      }
    }
    match ParseDefinitionLine(Trim(line))
    case None => None
    case Some(def) =>
      ParseDefinitionLineSound(Trim(line));
      if def.name == def.id then None else Some(def)
  }

  /** One line of a block folded into the dictionary. */
  function AddLine(d: Dictionary, line: string): (r: Dictionary)
    requires WellFormed(d)
    ensures WellFormed(r)
  {
    match Accept(line)
    case None => d
    case Some(def) => Define(d, def.name, def.id)
  }

  /** The lines folded into the dictionary from left to right. */
  function AddLines(d: Dictionary, lines: seq<string>): (r: Dictionary)
    requires WellFormed(d)
    ensures WellFormed(r)
  {
    if lines == [] then d
    else AddLine(AddLines(d, lines[..|lines| - 1]), lines[|lines| - 1])
  }

  /** The lines of a block match: the whole matched text, separator included,
      split at each newline. */
  function BlockLines(s: string, b: Block): seq<string>
    requires b.start <= b.end <= |s|
  {
    Split(s[b.start..b.end], '\n')
  }

  predicate InText(s: string, blocks: seq<Block>) {
    forall i :: 0 <= i < |blocks| ==> blocks[i].start <= blocks[i].end <= |s|
  }

  /** The blocks folded into the dictionary in match order. */
  function AddBlocks(d: Dictionary, s: string, blocks: seq<Block>): (r: Dictionary)
    requires WellFormed(d) && InText(s, blocks)
    ensures WellFormed(r)
  {
    if blocks == [] then d
    else AddLines(AddBlocks(d, s, blocks[..|blocks| - 1]), BlockLines(s, blocks[|blocks| - 1]))
  }

  /** One more block of the same match list folded in. */
  lemma {:induction false} AddBlocksNext(d: Dictionary, s: string, blocks: seq<Block>, i: nat)
    requires WellFormed(d) && InText(s, blocks) && i < |blocks|
    ensures InText(s, blocks[..i]) && InText(s, blocks[..i + 1])
    ensures AddBlocks(d, s, blocks[..i + 1]) == AddLines(AddBlocks(d, s, blocks[..i]), BlockLines(s, blocks[i]))
  {
    assert blocks[..i + 1][..i] == blocks[..i];
  }

  /** The dictionary a source text defines. */
  function ReadEntities(s: string): (r: Dictionary)
    ensures WellFormed(r)
  {
    AddBlocks(Empty, s, Blocks(s, 0))
  }

  // ---------------------------------------------------------------------------
  // An independent reading: the first accepted definition of each label
  // ---------------------------------------------------------------------------

  /** The accepted definitions of `lines`, in order. */
  function Accepted(lines: seq<string>): seq<Definition> {
    if lines == [] then []
    else
      Accepted(lines[..|lines| - 1])
      + match Accept(lines[|lines| - 1]) case None => [] case Some(def) => [def]
  }

  /** The id of the first definition of `name`. */
  function FirstId(defs: seq<Definition>, name: string): (r: Option<string>)
    ensures r.Some? <==> exists k :: 0 <= k < |defs| && defs[k].name == name
    ensures r.Some? ==> exists k :: 0 <= k < |defs| && defs[k] == Definition(name, r.value)
                                   && forall j :: 0 <= j < k ==> defs[j].name != name
  {
    if defs == [] then None
    else if defs[0].name == name then Some(defs[0].id)
    else
      var r := FirstId(defs[1..], name);
      assert forall k :: 0 < k < |defs| ==> defs[k] == defs[1..][k - 1];
      r
  }

  lemma {:induction false} FirstIdAppend(a: seq<Definition>, b: seq<Definition>, name: string)
    ensures FirstId(a + b, name) == if FirstId(a, name).Some? then FirstId(a, name) else FirstId(b, name)
    decreases |a|
  {
    if a != [] {
      assert (a + b)[0] == a[0] && (a + b)[1..] == a[1..] + b;
      FirstIdAppend(a[1..], b, name);
    } else {
      assert a + b == b;
    }
  }

  /** The first accepted definition of a label wins: after folding `lines`
      into `d`, a label keeps the id `d` gave it, and otherwise has the id of
      its first accepted definition among the lines, or none. */
  lemma {:induction false} FirstDefinitionWins(d: Dictionary, lines: seq<string>, name: string)
    requires WellFormed(d)
    ensures Lookup(AddLines(d, lines), name)
            == if name in d.ids then Some(d.ids[name]) else FirstId(Accepted(lines), name)
    decreases |lines|
  {
    if lines != [] {
      var init, last := lines[..|lines| - 1], lines[|lines| - 1];
      assert AddLines(d, lines) == AddLine(AddLines(d, init), last);
      FirstDefinitionWins(d, init, name);
      var tail := match Accept(last) case None => [] case Some(def) => [def];
      assert Accepted(lines) == Accepted(init) + tail;
      FirstIdAppend(Accepted(init), tail, name);
    }
  }

  /** Folding never removes or reorders a label: the old keys stay a prefix. */
  lemma {:induction false} KeysOnlyGrow(d: Dictionary, lines: seq<string>)
    requires WellFormed(d)
    ensures d.keys <= AddLines(d, lines).keys
    decreases |lines|
  {
    if lines != [] {
      KeysOnlyGrow(d, lines[..|lines| - 1]);
    }
  }

  /** Folding the blocks one after the other is folding all their lines. */
  lemma {:induction false} BlocksAreLines(d: Dictionary, s: string, blocks: seq<Block>)
    requires WellFormed(d) && InText(s, blocks)
    ensures AddBlocks(d, s, blocks) == AddLines(d, AllLines(s, blocks))
    decreases |blocks|
  {
    if blocks != [] {
      var init := blocks[..|blocks| - 1];
      BlocksAreLines(d, s, init);
      LinesAppend(d, AllLines(s, init), BlockLines(s, blocks[|blocks| - 1]));
    }
  }

  /** The lines of all blocks, in match order. */
  function AllLines(s: string, blocks: seq<Block>): seq<string>
    requires InText(s, blocks)
  {
    if blocks == [] then []
    else AllLines(s, blocks[..|blocks| - 1]) + BlockLines(s, blocks[|blocks| - 1])
  }

  /** Folding a concatenation is folding its parts in turn. */
  lemma {:induction false} LinesAppend(d: Dictionary, a: seq<string>, b: seq<string>)
    requires WellFormed(d)
    ensures AddLines(d, a + b) == AddLines(AddLines(d, a), b)
    decreases |b|
  {
    if b == [] {
      assert a + b == a;
    } else {
      assert (a + b)[..|a + b| - 1] == a + b[..|b| - 1];
      LinesAppend(d, a, b[..|b| - 1]);
    }
  }

  /** The dictionary of a source: each label has the id of its first accepted
      definition, over all lines of all blocks in match order. */
  lemma {:induction false} ReadEntitiesFirstWins(s: string, name: string)
    ensures Lookup(ReadEntities(s), name) == FirstId(Accepted(AllLines(s, Blocks(s, 0))), name)
  {
    BlocksAreLines(Empty, s, Blocks(s, 0));
    FirstDefinitionWins(Empty, AllLines(s, Blocks(s, 0)), name);
  }

  /** A line adds an entry exactly when it is accepted and its label is new. */
  lemma {:induction false} AddLineChanges(d: Dictionary, line: string)
    requires WellFormed(d)
    ensures AddLine(d, line) != d <==> Accept(line).Some? && Accept(line).value.name !in d.ids
  {
    if Accept(line).Some? && Accept(line).value.name !in d.ids {
      assert |AddLine(d, line).keys| == |d.keys| + 1;
    }
  }

  // ---------------------------------------------------------------------------
  // The configuration view: one { id, label } record per key
  // ---------------------------------------------------------------------------

  datatype ConfigEntry = ConfigEntry(id: string, name: string)

  /** `Object.entries` of the dictionary as `{ id, label }` records. */
  function ConfigOf(d: Dictionary): (r: seq<ConfigEntry>)
    requires WellFormed(d)
    ensures |r| == |d.keys| && forall i :: 0 <= i < |r| ==> r[i].name == d.keys[i]
    ensures forall i, j :: 0 <= i < j < |r| ==> r[i].name != r[j].name
    ensures forall i :: 0 <= i < |r| ==> Lookup(d, r[i].name) == Some(r[i].id)
    ensures forall name :: name in d.ids ==> exists i :: 0 <= i < |r| && r[i].name == name
  {
    var r := seq(|d.keys|, i requires 0 <= i < |d.keys| => ConfigEntry(d.ids[d.keys[i]], d.keys[i]));
    assert forall name :: name in d.ids ==> exists i :: 0 <= i < |r| && r[i].name == name by {
      forall name | name in d.ids
        ensures exists i :: 0 <= i < |r| && r[i].name == name
      {
        var i :| 0 <= i < |d.keys| && d.keys[i] == name;
        assert r[i].name == name;
      }
    }
    r
  }

  // ---------------------------------------------------------------------------
  // The collection object with its lazily filled cache
  // ---------------------------------------------------------------------------

  class EntityTypeCollection {
    const source: string
    /** `null` until the dictionary is first needed. */
    var cache: Option<Dictionary>
    /** How many times the dictionary has been read from the source. */
    ghost var loads: nat

    /** The cache, once filled, holds the dictionary of the source, and it
        has been filled at most once. */
    ghost predicate Valid()
      reads this
    {
      && (cache.Some? ==> cache.value == ReadEntities(source))
      && loads == (if cache.Some? then 1 else 0)
    }

    constructor(source: string)
      ensures this.source == source && cache == None && loads == 0
      ensures Valid()
    {
      this.source := source;
      cache := None;
      loads := 0;
    }

    /** The dictionary, read from the source on first use only. */
    method EntityTypes() returns (d: Dictionary)
      requires Valid()
      modifies this
      ensures Valid()
      ensures d == ReadEntities(source) && cache == Some(d)
      ensures old(cache).Some? ==> loads == old(loads)
    {
      if cache.None? {
        var read := ReadEntitiesFromSource();
        cache := Some(read);
        loads := loads + 1;
      }
      d := cache.value;
    }

    /** Every block match of the source, in order, folded into a fresh dictionary. */
    method ReadEntitiesFromSource() returns (d: Dictionary)
      ensures d == ReadEntities(source)
    {
      var matches := Blocks(source, 0);
      assert InText(source, matches);
      d := Empty;
      for i := 0 to |matches|
        invariant WellFormed(d) && d == AddBlocks(Empty, source, matches[..i])
      {
        AddBlocksNext(Empty, source, matches, i);
        d := ProcessEntityBlock(matches[i], d);
      }
      assert matches[..|matches|] == matches;
    }

    /** Each line of the block's matched text folded into `d`. */
    method ProcessEntityBlock(block: Block, d: Dictionary) returns (r: Dictionary)
      requires block.start <= block.end <= |source| && WellFormed(d)
      ensures WellFormed(r) && r == AddLines(d, BlockLines(source, block))
    {
      var lines := Split(source[block.start..block.end], '\n');
      r := d;
      for i := 0 to |lines|
        invariant WellFormed(r) && r == AddLines(d, lines[..i])
      {
        assert lines[..i + 1][..i] == lines[..i];
        r := ProcessEntityLine(lines[i], r);
      }
      assert lines[..|lines|] == lines;
    }

    /** One line: ignored unless its trimmed form is a definition line whose
        label differs from its id and is not yet registered. */
    method ProcessEntityLine(line: string, d: Dictionary) returns (r: Dictionary)
      requires WellFormed(d)
      ensures r == AddLine(d, line)
    {
      var m := ParseDefinitionLine(Trim(line));
      if m.None? {
        return d;
      }
      var def := m.value;
      if def.name == def.id {
        return d;
      }
      r := d;
      if def.name !in r.ids {
        r := Dictionary(r.keys + [def.name], r.ids[def.name := def.id]);
      }
    }

    /** The id registered for `name`, or nothing. */
    method Get(name: string) returns (r: Option<string>)
      requires Valid()
      modifies this
      ensures Valid() && cache.Some?
      ensures r == Lookup(ReadEntities(source), name)
    {
      var d := EntityTypes();
      r := Lookup(d, name);
    }

    /** The dictionary as `{ id, label }` records in key order. */
    method Config() returns (r: seq<ConfigEntry>)
      requires Valid()
      modifies this
      ensures Valid() && cache.Some?
      ensures r == ConfigOf(ReadEntities(source))
    {
      var d := EntityTypes();
      r := ConfigOf(d);
    }
  }

  /** Reading twice gives the same answer and reads the source once. */
  method RepeatedGet(source: string, name: string) returns (first: Option<string>, second: Option<string>)
    ensures first == second == Lookup(ReadEntities(source), name)
  {
    var c := new EntityTypeCollection(source);
    first := c.Get(name);
    assert c.loads == 1;
    second := c.Get(name);
    assert c.loads == 1;
  }
}
