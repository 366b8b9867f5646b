/** The decoder: strips the label-definition blocks from a source text, then
    reads each `[target][label]` denotation, records it at the target's offset
    in the progressively de-annotated text, and rewrites it to the target
    alone. The scan resumes where the regular expression's `lastIndex` left
    it: at the end of the whole match, measured on the rewritten text, so
    markup that begins fewer than label-length + 4 characters after a target
    is passed over and left as it is. */
module Decoder {
  import opened Wrappers
  import opened Strings
  import opened Grammar
  import opened EntityTypes

  /** A recorded denotation: the target's span in the final text and the
      object its label stands for. */
  datatype Denotation = Denotation(beginPos: nat, endPos: nat, obj: string)

  /** The object of a label: its registered id, or the label itself. */
  function Resolve(d: Dictionary, name: string): (r: string)
    ensures Lookup(d, name).Some? ==> r == Lookup(d, name).value
    ensures Lookup(d, name).None? ==> r == name
  {
    Lookup(d, name).GetOr(name)
  }

  // ---------------------------------------------------------------------------
  // Removing the definition blocks
  // ---------------------------------------------------------------------------

  /** What a matched block is replaced by: a blank line when the match
      starts with one, else nothing. */
  function Replacement(block: string): (r: string)
    ensures |r| <= |block|
    ensures r == "\n\n" <==> |block| >= 2 && block[..2] == "\n\n"
    ensures r != "\n\n" ==> r == ""
  {
    if |block| >= 2 && block[..2] == "\n\n" then "\n\n" else ""
  }

  /** Blocks in text order, inside `s`, none before `from`. */
  predicate Ordered(s: string, blocks: seq<Block>, from: nat) {
    && (blocks != [] ==> from <= blocks[0].start)
    && (forall i :: 0 <= i < |blocks| ==> blocks[i].start <= blocks[i].end <= |s|)
    && (forall i :: 0 <= i < |blocks| - 1 ==> blocks[i].end <= blocks[i + 1].start)
  }

  /** `s[from..]` with every listed block replaced. */
  function ReplaceBlocks(s: string, blocks: seq<Block>, from: nat): (r: string)
    requires from <= |s| && Ordered(s, blocks, from)
    decreases |blocks|
    ensures |r| <= |s| - from
    ensures blocks == [] ==> r == s[from..]
    ensures blocks != [] ==> blocks[0].start - from <= |r| && r[..blocks[0].start - from] == s[from..blocks[0].start]
  {
    if blocks == [] then s[from..]
    else
      var b := blocks[0];
      assert forall i :: 0 <= i < |blocks| - 1 ==> blocks[1..][i] == blocks[i + 1];
      var rest := ReplaceBlocks(s, blocks[1..], b.end);
      var r := s[from..b.start] + Replacement(s[b.start..b.end]) + rest;
      assert r[..b.start - from] == s[from..b.start];
      r
  }

  /** How much shorter replacing the block `b` makes the text. */
  function Cut(s: string, b: Block): nat
    requires b.start <= b.end <= |s|
  {
    (b.end - b.start) - |Replacement(s[b.start..b.end])|
  }

  /** How much shorter replacing all the blocks makes the text. */
  function CutAll(s: string, blocks: seq<Block>): nat
    requires forall i :: 0 <= i < |blocks| ==> blocks[i].start <= blocks[i].end <= |s|
    decreases |blocks|
  {
    if blocks == [] then 0
    else
      assert forall i :: 0 <= i < |blocks| - 1 ==> blocks[1..][i] == blocks[i + 1];
      Cut(s, blocks[0]) + CutAll(s, blocks[1..])
  }

  /** The blocks after the first are in order from the end of the first. */
  lemma {:induction false} OrderedTail(s: string, blocks: seq<Block>, from: nat)
    requires Ordered(s, blocks, from) && blocks != []
    ensures Ordered(s, blocks[1..], blocks[0].end)
  {
    assert forall i :: 0 <= i < |blocks| - 1 ==> blocks[1..][i] == blocks[i + 1];
  }

  /** Replacing the blocks shortens the text by exactly what each block loses. */
  lemma {:induction false} ReplaceBlocksLength(s: string, blocks: seq<Block>, from: nat)
    requires from <= |s| && Ordered(s, blocks, from)
    ensures |ReplaceBlocks(s, blocks, from)| + CutAll(s, blocks) == |s| - from
    decreases |blocks|
  {
    if blocks != [] {
      OrderedTail(s, blocks, from);
      ReplaceBlocksLength(s, blocks[1..], blocks[0].end);
    }
  }

  /** `piece` stands in `r` at offset `o`. */
  predicate Stands(r: string, o: int, piece: string) {
    0 <= o && o + |piece| <= |r| && r[o..o + |piece|] == piece
  }

  /** The text of block `k`. */
  function BlockText(s: string, blocks: seq<Block>, k: nat): string
    requires k < |blocks| && blocks[k].start <= blocks[k].end <= |s|
  {
    s[blocks[k].start..blocks[k].end]
  }

  /** Where the text after block `k` stops: at the next block, or at the end. */
  function NextStart(s: string, blocks: seq<Block>, k: nat): nat
    requires k < |blocks|
  {
    if k + 1 < |blocks| then blocks[k + 1].start else |s|
  }

  /** The text after block `k`, up to the next block or the end of the text. */
  function Gap(s: string, blocks: seq<Block>, k: nat): string
    requires k < |blocks| && blocks[k].end <= NextStart(s, blocks, k) <= |s|
  {
    s[blocks[k].end..NextStart(s, blocks, k)]
  }

  /** `rep` stands in `r` at offset `o` and `gap` right after it. */
  predicate PieceAt(r: string, o: int, rep: string, gap: string) {
    Stands(r, o, rep) && Stands(r, o + |rep|, gap)
  }

  /** Where block `k`'s replacement stands in the result: its own start,
      counted from `from`, less what the blocks before it lost. */
  function PieceOffset(s: string, blocks: seq<Block>, from: nat, k: nat): int
    requires k < |blocks| && Ordered(s, blocks, from)
  {
    blocks[k].start - from - CutAll(s, blocks[..k])
  }

  /** Where the pieces of the result stand: block `k` is replaced at its
      offset, and the text from its end up to the next block, or to the end of
      the text, follows unchanged. */
  lemma {:induction false} ReplaceBlocksPieces(s: string, blocks: seq<Block>, from: nat, k: nat)
    requires from <= |s| && Ordered(s, blocks, from) && k < |blocks|
    ensures PieceAt(ReplaceBlocks(s, blocks, from), PieceOffset(s, blocks, from, k),
                    Replacement(BlockText(s, blocks, k)), Gap(s, blocks, k))
    decreases |blocks|
  {
    OrderedTail(s, blocks, from);
    if k == 0 {
      FirstPiece(s, blocks, from);
    } else {
      ReplaceBlocksPieces(s, blocks[1..], blocks[0].end, k - 1);
      LaterPiece(s, blocks, from, k);
    }
  }

  lemma {:induction false} FirstPiece(s: string, blocks: seq<Block>, from: nat)
    requires from <= |s| && Ordered(s, blocks, from) && blocks != []
    requires Ordered(s, blocks[1..], blocks[0].end)
    ensures PieceAt(ReplaceBlocks(s, blocks, from), PieceOffset(s, blocks, from, 0),
                    Replacement(BlockText(s, blocks, 0)), Gap(s, blocks, 0))
  {
    var b := blocks[0];
    var rep := Replacement(BlockText(s, blocks, 0));
    var rest := ReplaceBlocks(s, blocks[1..], b.end);
    var head := s[from..b.start];
    ReplaceBlocksHead(s, blocks, from);
    assert blocks[..0] == [];
    assert PieceOffset(s, blocks, from, 0) == |head|;
    GapStands(s, blocks, from);
    PieceShifted(head, rep + rest, 0, rep);
    PieceShifted(head + rep, rest, 0, s[b.end..NextStart(s, blocks, 0)]);
  }

  /** The text after the first block stands at the start of the rest of the result. */
  lemma {:induction false} GapStands(s: string, blocks: seq<Block>, from: nat)
    requires from <= |s| && Ordered(s, blocks, from) && blocks != []
    requires Ordered(s, blocks[1..], blocks[0].end)
    ensures Stands(ReplaceBlocks(s, blocks[1..], blocks[0].end), 0, s[blocks[0].end..NextStart(s, blocks, 0)])
  {
    if |blocks| > 1 {
      assert blocks[1..][0] == blocks[1];
    }
  }

  /** One step of the replacement: the text before the first block, its
      replacement, then the rest replaced from the block's end. */
  lemma {:induction false} ReplaceBlocksHead(s: string, blocks: seq<Block>, from: nat)
    requires from <= |s| && Ordered(s, blocks, from) && blocks != []
    requires Ordered(s, blocks[1..], blocks[0].end)
    ensures ReplaceBlocks(s, blocks, from)
            == s[from..blocks[0].start] + Replacement(s[blocks[0].start..blocks[0].end])
               + ReplaceBlocks(s, blocks[1..], blocks[0].end)
  {
  }

  lemma {:induction false} LaterPiece(s: string, blocks: seq<Block>, from: nat, k: nat)
    requires from <= |s| && Ordered(s, blocks, from) && 0 < k < |blocks|
    requires Ordered(s, blocks[1..], blocks[0].end)
    requires PieceAt(ReplaceBlocks(s, blocks[1..], blocks[0].end), PieceOffset(s, blocks[1..], blocks[0].end, k - 1),
                     Replacement(BlockText(s, blocks[1..], k - 1)), Gap(s, blocks[1..], k - 1))
    ensures PieceAt(ReplaceBlocks(s, blocks, from), PieceOffset(s, blocks, from, k),
                    Replacement(BlockText(s, blocks, k)), Gap(s, blocks, k))
  {
    var b0 := blocks[0];
    var head := s[from..b0.start] + Replacement(s[b0.start..b0.end]);
    ReplaceBlocksHead(s, blocks, from);
    TailView(s, blocks, k);
    OffsetAfterFirst(s, blocks, from, k);
    PiecesShifted(head, ReplaceBlocks(s, blocks[1..], b0.end), ReplaceBlocks(s, blocks, from),
                  PieceOffset(s, blocks[1..], b0.end, k - 1), PieceOffset(s, blocks, from, k),
                  Replacement(BlockText(s, blocks, k)), Gap(s, blocks, k));
  }

  /** A replacement and the text after it, standing together in the second
      part of a concatenation, stand moved right by the first part. */
  lemma {:induction false} PiecesShifted(head: string, rest: string, whole: string, o: int, moved: int, rep: string, gap: string)
    requires whole == head + rest && moved == |head| + o
    requires PieceAt(rest, o, rep, gap)
    ensures PieceAt(whole, moved, rep, gap)
  {
    PieceShifted(head, rest, o, rep);
    PieceShifted(head, rest, o + |rep|, gap);
  }

  /** Block `k` seen from the second block on is block `k - 1` there. */
  lemma {:induction false} TailView(s: string, blocks: seq<Block>, k: nat)
    requires 0 < k < |blocks| && blocks[k].start <= blocks[k].end <= |s|
    ensures blocks[1..][k - 1] == blocks[k]
    ensures BlockText(s, blocks[1..], k - 1) == BlockText(s, blocks, k)
    ensures NextStart(s, blocks[1..], k - 1) == NextStart(s, blocks, k)
    ensures blocks[k].end <= NextStart(s, blocks, k) <= |s| ==> Gap(s, blocks[1..], k - 1) == Gap(s, blocks, k)
  {
  }

  /** Block `k`'s offset is the first block's text and replacement, then its
      offset among the remaining blocks. */
  lemma {:induction false} OffsetAfterFirst(s: string, blocks: seq<Block>, from: nat, k: nat)
    requires from <= |s| && Ordered(s, blocks, from) && 0 < k < |blocks|
    requires Ordered(s, blocks[1..], blocks[0].end)
    ensures PieceOffset(s, blocks, from, k)
            == (blocks[0].start - from) + |Replacement(s[blocks[0].start..blocks[0].end])|
               + PieceOffset(s, blocks[1..], blocks[0].end, k - 1)
  {
    assert blocks[..k][0] == blocks[0] && blocks[..k][1..] == blocks[1..][..k - 1];
    assert CutAll(s, blocks[..k]) == Cut(s, blocks[0]) + CutAll(s, blocks[1..][..k - 1]);
  }

  /** A piece of the second part of a concatenation stands moved right by the first. */
  lemma {:induction false} PieceShifted(a: string, b: string, o: int, piece: string)
    requires Stands(b, o, piece)
    ensures Stands(a + b, |a| + o, piece)
  {
    assert (a + b)[|a| + o..|a| + o + |piece|] == b[o..o + |piece|];
  }

  /** `sourceWithoutReferences`: every block match replaced, then trimmed. */
  function WithoutReferences(s: string): (r: string)
    ensures |r| <= |s|
    ensures Blocks(s, 0) == [] ==> r == Trim(s)
    ensures TrimmedFrom(ReplaceBlocks(s, Blocks(s, 0), 0), r)
  {
    var t := ReplaceBlocks(s, Blocks(s, 0), 0);
    var r := Trim(t);
    assert TrimmedFrom(t, r);
    r
  }

  // ---------------------------------------------------------------------------
  // The denotation scan
  // ---------------------------------------------------------------------------

  /** The text after the scan and the denotation matches it made, in order. */
  datatype Decoded = Decoded(text: string, marks: seq<Markup>)

  /** The markup replaced by its target. */
  function Unwrap(t: string, m: Markup): (r: string)
    requires m.End() <= |t|
    ensures |r| == |t| - |m.name| - 4
    ensures r[..m.index] == t[..m.index]
    ensures r[m.index..m.index + |m.target|] == m.target
    ensures r[m.index + |m.target|..] == t[m.End()..]
  {
    t[..m.index] + m.target + t[m.End()..]
  }

  /** What the markup matches removed from the text. */
  function Removed(marks: seq<Markup>): nat {
    if marks == [] then 0 else |marks[0].name| + 4 + Removed(marks[1..])
  }

  /** The `while (regex.exec(fullText))` loop of the decoder from `lastIndex ==
      from`: find the leftmost match, record it, rewrite it to its target and
      go on from the end of the whole match in the rewritten text. */
  function Decode(t: string, from: nat): (r: Decoded)
    decreases |t|
    ensures |r.text| <= |t|
    ensures r.marks == [] <==> FindDenotation(t, from).None?
  {
    match FindDenotation(t, from)
    case None => Decoded(t, [])
    case Some(m) =>
      var rest := Decode(Unwrap(t, m), m.End());
      Decoded(rest.text, [m] + rest.marks)
  }

  /** One step of the scan: the leftmost match, then the rest of the scan on
      the rewritten text from the end of the whole match. */
  lemma {:induction false} DecodeStep(t: string, from: nat)
    requires FindDenotation(t, from).Some?
    ensures var m := FindDenotation(t, from).value;
            && from <= m.index && m.End() <= |t|
            && m.target != [] && '[' !in m.target && m.name != [] && ']' !in m.name
            && Decode(t, from) == Decoded(Decode(Unwrap(t, m), m.End()).text, [m] + Decode(Unwrap(t, m), m.End()).marks)
  {
  }

  /** Matches are found left to right, none before `from`, and each one
      starts at or after the end of the previous whole match. */
  lemma {:induction false} DecodeOrdered(t: string, from: nat)
    ensures var marks := Decode(t, from).marks;
            && (forall k :: 0 <= k < |marks| ==> from <= marks[k].index)
            && (forall k :: 0 <= k < |marks| - 1 ==> marks[k].End() <= marks[k + 1].index)
    decreases |t|
  {
    if FindDenotation(t, from).Some? {
      DecodeStep(t, from);
      var m := FindDenotation(t, from).value;
      var rest := Decode(Unwrap(t, m), m.End()).marks;
      DecodeOrdered(Unwrap(t, m), m.End());
      var marks := Decode(t, from).marks;
      assert marks == [m] + rest;
      assert forall k :: 0 < k < |marks| ==> marks[k] == rest[k - 1];
    }
  }

  /** Every recorded target is non-empty and free of `[`, every label
      non-empty and free of `]`. */
  lemma {:induction false} DecodeMarkupParts(t: string, from: nat, k: nat)
    requires k < |Decode(t, from).marks|
    ensures var m := Decode(t, from).marks[k];
            m.target != [] && '[' !in m.target && m.name != [] && ']' !in m.name
    decreases |t|
  {
    DecodeStep(t, from);
    if k > 0 {
      var m := FindDenotation(t, from).value;
      DecodeMarkupParts(Unwrap(t, m), m.End(), k - 1);
    }
  }

  /** The text before the resume point is never changed by the rest of the scan. */
  lemma {:induction false} DecodeKeepsPrefix(t: string, from: nat, i: nat)
    requires i < from && i < |t|
    ensures i < |Decode(t, from).text| && Decode(t, from).text[i] == t[i]
    decreases |t|
  {
    if FindDenotation(t, from).Some? {
      DecodeStep(t, from);
      var m := FindDenotation(t, from).value;
      var u := Unwrap(t, m);
      assert u[..m.index] == t[..m.index];
      assert u[i] == u[..m.index][i];
      DecodeKeepsPrefix(u, m.End(), i);
    }
  }

  /** Each rewrite removes the label and the four brackets. */
  lemma {:induction false} DecodeLength(t: string, from: nat)
    ensures |Decode(t, from).text| + Removed(Decode(t, from).marks) == |t|
    decreases |t|
  {
    if FindDenotation(t, from).Some? {
      DecodeStep(t, from);
      var m := FindDenotation(t, from).value;
      DecodeLength(Unwrap(t, m), m.End());
      assert ([m] + Decode(Unwrap(t, m), m.End()).marks)[1..] == Decode(Unwrap(t, m), m.End()).marks;
    }
  }

  /** A stretch of text before the resume point is kept as a whole. */
  lemma {:induction false} DecodeKeepsSlice(t: string, from: nat, a: nat, b: nat)
    requires a <= b <= from && b <= |t|
    ensures b <= |Decode(t, from).text| && Decode(t, from).text[a..b] == t[a..b]
  {
    var r := Decode(t, from).text;
    if 0 < b {
      DecodeKeepsPrefix(t, from, b - 1);
    }
    forall i | a <= i < b
      ensures r[i] == t[i]
    {
      DecodeKeepsPrefix(t, from, i);
    }
  }

  /** `text` holds the match's target at the match's offset. */
  predicate TargetStands(text: string, m: Markup) {
    m.index + |m.target| <= |text| && text[m.index..m.index + |m.target|] == m.target
  }

  /** Every recorded target stands in the final text at its recorded offset. */
  lemma {:induction false} TargetsInPlace(t: string, from: nat, k: nat)
    requires k < |Decode(t, from).marks|
    ensures TargetStands(Decode(t, from).text, Decode(t, from).marks[k])
    decreases |t|, 1
  {
    if k == 0 {
      FirstTargetInPlace(t, from);
    } else {
      LaterTargetInPlace(t, from, k);
    }
  }

  lemma {:induction false} LaterTargetInPlace(t: string, from: nat, k: nat)
    requires 0 < k < |Decode(t, from).marks|
    ensures TargetStands(Decode(t, from).text, Decode(t, from).marks[k])
    decreases |t|, 0
  {
    var m := FindDenotation(t, from).value;
    DecodeLater(t, from, k);
    TargetsInPlace(Unwrap(t, m), m.End(), k - 1);
  }

  /** A later match and the final text come from the rest of the scan. */
  lemma {:induction false} DecodeLater(t: string, from: nat, k: nat)
    requires 0 < k < |Decode(t, from).marks|
    ensures var m := FindDenotation(t, from).value;
            var rest := Decode(Unwrap(t, m), m.End());
            && k - 1 < |rest.marks| && Decode(t, from).marks[k] == rest.marks[k - 1]
            && Decode(t, from).text == rest.text
  {
    DecodeStep(t, from);
  }

  lemma {:induction false} FirstTargetInPlace(t: string, from: nat)
    requires FindDenotation(t, from).Some?
    ensures var m := FindDenotation(t, from).value;
            var r := Decode(t, from);
            r.marks != [] && r.marks[0] == m && TargetStands(r.text, m)
  {
    DecodeStep(t, from);
    var m := FindDenotation(t, from).value;
    var u := Unwrap(t, m);
    DecodeKeepsSlice(u, m.End(), m.index, m.index + |m.target|);
  }

  /** The denotation recorded for one match: the target's span and the
      object of the label. */
  function DenotationOf(d: Dictionary, m: Markup): Denotation {
    Denotation(m.index, m.index + |m.target|, Resolve(d, m.name))
  }

  /** The denotations recorded for a list of matches, in order. */
  function DenotationsOf(d: Dictionary, marks: seq<Markup>): (r: seq<Denotation>)
    ensures |r| == |marks|
  {
    if marks == [] then [] else DenotationsOf(d, marks[..|marks| - 1]) + [DenotationOf(d, marks[|marks| - 1])]
  }

  lemma {:induction false} DenotationsOfAt(d: Dictionary, marks: seq<Markup>, k: nat)
    requires k < |marks|
    ensures DenotationsOf(d, marks)[k] == DenotationOf(d, marks[k])
    decreases |marks|
  {
    if k < |marks| - 1 {
      DenotationsOfAt(d, marks[..|marks| - 1], k);
    }
  }

  lemma {:induction false} DenotationsOfNext(d: Dictionary, earlier: seq<Denotation>, marks: seq<Markup>, m: Markup)
    ensures earlier + DenotationsOf(d, marks + [m]) == (earlier + DenotationsOf(d, marks)) + [DenotationOf(d, m)]
  {
    assert (marks + [m])[..|marks|] == marks;
  }

  /** The scan with the matches made so far carried along, as the decoder's
      loop keeps them. */
  function DecodeAcc(t: string, from: nat, marks: seq<Markup>): Decoded
    decreases |t|
  {
    match FindDenotation(t, from)
    case None => Decoded(t, marks)
    case Some(m) => DecodeAcc(Unwrap(t, m), m.End(), marks + [m])
  }

  lemma {:induction false} DecodeAccIs(t: string, from: nat, marks: seq<Markup>)
    ensures DecodeAcc(t, from, marks) == Decoded(Decode(t, from).text, marks + Decode(t, from).marks)
    decreases |t|
  {
    if FindDenotation(t, from).Some? {
      var m := FindDenotation(t, from).value;
      DecodeAccIs(Unwrap(t, m), m.End(), marks + [m]);
      var rest := Decode(Unwrap(t, m), m.End());
      assert (marks + [m]) + rest.marks == marks + ([m] + rest.marks);
    } else {
      assert marks + [] == marks;
    }
  }

  lemma {:induction false} DecodeAccStep(t: string, from: nat, marks: seq<Markup>, m: Markup)
    requires FindDenotation(t, from) == Some(m)
    ensures m.End() <= |t| && DecodeAcc(t, from, marks) == DecodeAcc(Unwrap(t, m), m.End(), marks + [m])
  {
  }

  lemma {:induction false} DecodeAccStart(t: string)
    ensures DecodeAcc(t, 0, []) == Decode(t, 0)
  {
    DecodeAccIs(t, 0, []);
    assert [] + Decode(t, 0).marks == Decode(t, 0).marks;
  }

  /** Recorded spans are strictly increasing and non-overlapping, each one
      covers its target in the final text, and consecutive spans are at least
      the removed label length + 4 apart. */
  lemma {:induction false} SpansOrdered(d: Dictionary, t: string, i: nat, j: nat)
    requires i < j < |Decode(t, 0).marks|
    ensures var ds := DenotationsOf(d, Decode(t, 0).marks);
            var m := Decode(t, 0).marks[i];
            ds[i].beginPos < ds[i].endPos && ds[i].endPos + |m.name| + 4 <= ds[j].beginPos
  {
    var marks := Decode(t, 0).marks;
    DecodeOrdered(t, 0);
    DecodeMarkupParts(t, 0, i);
    OrderedFrom(marks, i, j);
    DenotationsOfAt(d, marks, i);
    DenotationsOfAt(d, marks, j);
  }

  lemma {:induction false} OrderedFrom(marks: seq<Markup>, i: nat, j: nat)
    requires i < j < |marks|
    requires forall k :: 0 <= k < |marks| - 1 ==> marks[k].End() <= marks[k + 1].index
    ensures marks[i].End() <= marks[j].index
    decreases j - i
  {
    if j > i + 1 {
      OrderedFrom(marks, i + 1, j);
    }
  }

  /** Markup that starts before the end of the previous whole match in the
      rewritten text is passed over: `[Elon][P] [Musk][P]` decodes to
      `Elon [Musk][P]` with one denotation, because the second pair starts at
      offset 5 while the scan resumes at offset 9. */
  lemma {:induction false} SkippedMarkup()
    ensures Decode("[Elon][P] [Musk][P]", 0) == Decoded("Elon [Musk][P]", [Markup(0, "Elon", "P")])
  {
    var t := "[Elon][P] [Musk][P]";
    var m := Markup(0, "Elon", "P");
    SkippedMarkupFirst();
    assert Unwrap(t, m) == "Elon [Musk][P]";
    SkippedMarkupRest();
  }

  lemma {:induction false} SkippedMarkupFirst()
    ensures FindDenotation("[Elon][P] [Musk][P]", 0) == Some(Markup(0, "Elon", "P"))
  {
    var t := "[Elon][P] [Musk][P]";
    assert IsDenotationAt(t, 0, "Elon", "P") by {
      assert t[0..9] == MarkupText("Elon", "P");
    }
    DenotationAtComplete(t, 0, "Elon", "P");
  }

  /** From offset 9 of the rewritten text only `k][P]` is left to scan. */
  lemma {:induction false} SkippedMarkupRest()
    ensures Decode("Elon [Musk][P]", 9) == Decoded("Elon [Musk][P]", [])
  {
    var u := "Elon [Musk][P]";
    forall q | 9 <= q < |u|
      ensures DenotationAt(u, q).None?
    {
      if q == 11 {
        assert TargetFrom(u, 11, 12) == TargetFrom(u, 11, 13) == TargetFrom(u, 11, 14) == None;
      }
    }
    NoMatchNoFind(u, 9);
  }

  /** With no markup, decoding leaves the text as it is. */
  lemma {:induction false} PlainTextUnchanged(t: string)
    requires forall q :: 0 <= q < |t| ==> DenotationAt(t, q).None?
    ensures Decode(t, 0) == Decoded(t, [])
  {
    NoMatchNoFind(t, 0);
  }

  lemma {:induction false} NoMatchNoFind(s: string, from: nat)
    requires forall q :: from <= q < |s| ==> DenotationAt(s, q).None?
    ensures FindDenotation(s, from).None?
    decreases |s| - from
  {
    if from < |s| {
      assert DenotationAt(s, from).None?;
      NoMatchNoFind(s, from + 1);
    }
  }

  // ---------------------------------------------------------------------------
  // The parser object
  // ---------------------------------------------------------------------------

  /** The decoder's result: text, denotations and the entity-type collection. */
  datatype Annotation = Annotation(text: string, denotations: seq<Denotation>, entityTypes: EntityTypeCollection)

  class Parser {
    const source: string
    var denotations: seq<Denotation>
    /** Built from the original source, definition blocks included. */
    const entityTypeCollection: EntityTypeCollection

    ghost predicate Valid()
      reads this, entityTypeCollection
    {
      entityTypeCollection.source == source && entityTypeCollection.Valid()
    }

    constructor(source: string)
      ensures this.source == source && denotations == []
      ensures fresh(entityTypeCollection) && entityTypeCollection.cache == None
      ensures Valid()
    {
      this.source := source;
      denotations := [];
      entityTypeCollection := new EntityTypeCollection(source);
    }

    /** Strips the definition blocks and decodes the rest; the denotations
        of this run are appended to those already held. */
    method Parse() returns (r: Annotation)
      requires Valid()
      modifies this, entityTypeCollection
      ensures Valid()
      ensures var dec := Decode(WithoutReferences(source), 0);
              && r.text == dec.text
              && denotations == old(denotations) + DenotationsOf(ReadEntities(source), dec.marks)
              && r.denotations == denotations
      ensures r.entityTypes == entityTypeCollection
    {
      var fullText := WithoutReferences(source);
      fullText := ProcessDenotations(fullText);
      r := Annotation(fullText, denotations, entityTypeCollection);
    }

    /** The object for a label: its id in the dictionary of the source, or
        the label itself. */
    method GetObjFor(name: string) returns (obj: string)
      requires Valid()
      modifies entityTypeCollection
      ensures Valid()
      ensures obj == Resolve(ReadEntities(source), name)
    {
      var id := entityTypeCollection.Get(name);
      obj := if id.Some? then id.value else name;
    }

    /** The scan loop: records a denotation per match and rewrites the match
        to its target, resuming at the end of the whole match. */
    method ProcessDenotations(fullText: string) returns (r: string)
      requires Valid()
      modifies this, entityTypeCollection
      ensures Valid()
      ensures r == Decode(fullText, 0).text
      ensures denotations == old(denotations) + DenotationsOf(ReadEntities(source), Decode(fullText, 0).marks)
    {
      var text := fullText;
      var lastIndex: nat := 0;
      ghost var marks: seq<Markup> := [];
      ghost var d := ReadEntities(source);
      var found := FindDenotation(text, lastIndex);
      DecodeAccStart(fullText);
      while found.Some?
        invariant Valid()
        invariant found == FindDenotation(text, lastIndex)
        invariant DecodeAcc(text, lastIndex, marks) == DecodeAcc(fullText, 0, [])
        invariant denotations == old(denotations) + DenotationsOf(d, marks)
        decreases |text|
      {
        var m := found.value;
        DecodeAccStep(text, lastIndex, marks, m);
        ghost var before := denotations;
        DenotationsOfNext(d, old(denotations), marks, m);
        var beginPos := m.index;
        var endPos := beginPos + |m.target|;
        var obj := GetObjFor(m.name);
        assert denotations == before;
        assert Denotation(beginPos, endPos, obj) == DenotationOf(d, m);
        denotations := denotations + [Denotation(beginPos, endPos, obj)];
        assert denotations == before + [DenotationOf(d, m)];
        text := Unwrap(text, m);
        lastIndex := m.End();
        marks := marks + [m];
        found := FindDenotation(text, lastIndex);
      }
      DecodeAccStart(fullText);
      r := text;
    }
  }
}
