/** The four patterns of the inline-annotation format, written as hand-made
    recognisers over strings instead of regular expressions:

    - a label-definition line `[label]: id "optional title"`;
    - a label-definition block: a blank-line separator followed by definition lines;
    - an escaped bracket pair `\[..][..]`;
    - a denotation `[target][label]` not preceded by a backslash.

    Each recogniser comes with a declarative description of the strings it
    accepts and lemmas tying the two together. */
module Grammar {
  import opened Wrappers
  import opened Strings

  /** A label (`name`, since `label` is a Dafny keyword) and the identifier it
      stands for, as read from a definition line. */
  datatype Definition = Definition(name: string, id: string)

  predicate IsQuote(c: char) {
    c == '"' || c == '\''
  }

  // ---------------------------------------------------------------------------
  // Definition lines
  // ---------------------------------------------------------------------------

  /** What may follow the identifier of a definition line: whitespace only, or
      whitespace, a title in double or single quotes, and whitespace. The title
      ends at the first quote of its own kind. */
  predicate IsTitleTail(t: string) {
    var w := SkipSpaces(t, 0);
    w == |t|
    || (0 < w && IsQuote(t[w])
        && match IndexOf(t, t[w], w + 1)
           case None => false
           case Some(c) => AllSpace(t[c + 1..]))
  }

  /** Where the parts of a definition line lie: the opening bracket, the
      closing bracket, and the start and end of the identifier. */
  datatype LineParts = LineParts(open: nat, close: nat, idStart: nat, idEnd: nat)

  predicate InOrder(p: LineParts, upto: nat) {
    p.open < p.close < p.idStart < p.idEnd <= upto
  }

  /** The states of the definition-line recogniser, which reads a line one
      character at a time and records the positions it has passed. */
  datatype LineState =
    | Lead                                            // whitespace before `[`
    | InLabel(open: nat)                              // inside the label
    | AfterLabel(open: nat, close: nat)               // after `]`, before `:`
    | AfterColon(open: nat, close: nat)               // after `:`, whitespace required
    | InSep(open: nat, close: nat)                    // whitespace before the identifier
    | InId(open: nat, close: nat, idStart: nat)       // inside the identifier
    | AfterId(parts: LineParts)                       // whitespace after the identifier
    | InTitle(parts: LineParts, quoteAt: nat)         // inside a quoted title
    | AfterTitle(parts: LineParts, quoteAt: nat, closeAt: nat)  // whitespace after the title

  /** The positions a state records lie before `i`, in order. */
  predicate Recorded(st: LineState, i: nat) {
    match st
    case Lead => true
    case InLabel(o) => o < i
    case AfterLabel(o, c) => o < c < i
    case AfterColon(o, c) => o < c < i
    case InSep(o, c) => o < c < i
    case InId(o, c, k) => o < c < k < i
    case AfterId(p) => InOrder(p, i)
    case InTitle(p, q) => InOrder(p, q) && q < i
    case AfterTitle(p, q, e) => InOrder(p, q) && q < e < i
  }

  /** Reading `line[i]` in state `st`: the next state, or `None` when the
      line cannot be a definition line. */
  function Step(line: string, i: nat, st: LineState): (r: Option<LineState>)
    requires i < |line| && Recorded(st, i)
    ensures r.Some? ==> Recorded(r.value, i + 1)
  {
    var ch := line[i];
    match st
    case Lead => if IsSpace(ch) then Some(Lead) else if ch == '[' then Some(InLabel(i)) else None
    case InLabel(o) =>
      if ch != ']' then Some(st) else if i == o + 1 then None else Some(AfterLabel(o, i))
    case AfterLabel(o, c) => if ch == ':' then Some(AfterColon(o, c)) else None
    case AfterColon(o, c) => if IsSpace(ch) then Some(InSep(o, c)) else None
    case InSep(o, c) => if IsSpace(ch) then Some(st) else Some(InId(o, c, i))
    case InId(o, c, k) => if IsSpace(ch) then Some(AfterId(LineParts(o, c, k, i))) else Some(st)
    case AfterId(p) => if IsSpace(ch) then Some(st) else if IsQuote(ch) then Some(InTitle(p, i)) else None
    case InTitle(p, q) => if ch == line[q] then Some(AfterTitle(p, q, i)) else Some(st)
    case AfterTitle(p, q, e) => if IsSpace(ch) then Some(st) else None
  }

  /** The outcome when the line ends in state `st` after `n` characters: the
      line is accepted inside the identifier or in trailing whitespace. */
  function Final(st: LineState, n: nat): (r: Option<LineParts>)
    requires Recorded(st, n)
    ensures r.Some? ==> InOrder(r.value, n)
  {
    match st
    case InId(o, c, k) => Some(LineParts(o, c, k, n))
    case AfterId(p) => Some(p)
    case AfterTitle(p, _, _) => Some(p)
    case _ => None
  }

  /** Runs the recogniser from position `i` in state `st` to the end of the line. */
  function Scan(line: string, i: nat, st: LineState): (r: Option<LineParts>)
    requires i <= |line| && Recorded(st, i)
    decreases |line| - i
    ensures r.Some? ==> InOrder(r.value, |line|)
  {
    if i == |line| then Final(st, i)
    else
      match Step(line, i, st)
      case None => None
      case Some(next) => Scan(line, i + 1, next)
  }

  /** The definition-line pattern applied to a whole string: optional leading
      whitespace, `[label]` whose label is non-empty and holds no `]`, a colon,
      at least one whitespace character, a non-empty whitespace-free identifier,
      then an optional quoted title and trailing whitespace. Gives the label
      and the identifier. */
  function ParseDefinitionLine(line: string): (r: Option<Definition>)
  {
    match Scan(line, 0, Lead)
    case None => None
    case Some(p) => Some(Definition(line[p.open + 1..p.close], line[p.idStart..p.idEnd]))
  }

  /** The parts lie where the definition-line pattern puts them. */
  predicate PartsFit(line: string, p: LineParts) {
    && HeadFits(line, p)
    && IsTitleTail(line[p.idEnd..])
    && (p.idEnd < |line| ==> IsSpace(line[p.idEnd]))
  }

  /** The part of a definition line up to the end of the identifier. */
  predicate HeadFits(line: string, p: LineParts) {
    && p.open + 1 < p.close && p.close + 2 < p.idStart < p.idEnd <= |line|
    && AllSpace(line[0..p.open]) && line[p.open] == '['
    && ']' !in line[p.open + 1..p.close]
    && line[p.close] == ']' && line[p.close + 1] == ':'
    && AllSpace(line[p.close + 2..p.idStart]) && NoSpace(line[p.idStart..p.idEnd])
  }

  // ---------------------------------------------------------------------------
  // The recogniser agrees with the pattern
  // ---------------------------------------------------------------------------

  /** The label has been read: `line[open]` is `[` after leading whitespace
      and `line[close]` the first `]` after it, with something in between. */
  predicate Labelled(line: string, o: nat, c: nat) {
    o + 1 < c < |line| && AllSpace(line[0..o]) && line[o] == '['
    && ']' !in line[o + 1..c] && line[c] == ']'
  }

  /** The identifier has been read and is followed by whitespace. */
  predicate IdRead(line: string, p: LineParts) {
    p.close + 2 < p.idStart < p.idEnd < |line|
    && Labelled(line, p.open, p.close) && line[p.close + 1] == ':'
    && AllSpace(line[p.close + 2..p.idStart]) && NoSpace(line[p.idStart..p.idEnd])
    && IsSpace(line[p.idEnd])
  }

  /** What the recogniser knows about `line[..i]` in each state. */
  predicate Knows(line: string, i: nat, st: LineState)
    requires i <= |line|
  {
    match st
    case Lead => AllSpace(line[0..i])
    case InLabel(o) => o < i && AllSpace(line[0..o]) && line[o] == '[' && ']' !in line[o + 1..i]
    case AfterLabel(o, c) => Labelled(line, o, c) && i == c + 1
    case AfterColon(o, c) => Labelled(line, o, c) && i == c + 2 && line[c + 1] == ':'
    case InSep(o, c) =>
      c + 2 < i && Labelled(line, o, c) && line[c + 1] == ':' && AllSpace(line[c + 2..i])
    case InId(o, c, k) =>
      c + 2 < k < i && Labelled(line, o, c) && line[c + 1] == ':'
      && AllSpace(line[c + 2..k]) && NoSpace(line[k..i])
    case AfterId(p) => IdRead(line, p) && p.idEnd < i && AllSpace(line[p.idEnd..i])
    case InTitle(p, q) =>
      IdRead(line, p) && p.idEnd < q < i && AllSpace(line[p.idEnd..q]) && IsQuote(line[q])
      && line[q] !in line[q + 1..i]
    case AfterTitle(p, q, e) =>
      IdRead(line, p) && p.idEnd < q < e < i && AllSpace(line[p.idEnd..q]) && IsQuote(line[q])
      && line[q] !in line[q + 1..e] && line[e] == line[q] && AllSpace(line[e + 1..i])
  }

  lemma {:induction false} AllSpaceSub(s: string, a: nat, b: nat, i: nat, j: nat)
    requires a <= i <= j <= b <= |s| && AllSpace(s[a..b])
    ensures AllSpace(s[i..j])
  {
    assert forall k :: i <= k < j ==> s[a..b][k - a] == s[k];
  }

  lemma {:induction false} AllSpaceExtend(s: string, a: nat, i: nat)
    requires a <= i < |s| && AllSpace(s[a..i]) && IsSpace(s[i])
    ensures AllSpace(s[a..i + 1])
  {
    assert s[a..i + 1] == s[a..i] + [s[i]];
  }

  lemma {:induction false} NoSpaceExtend(s: string, a: nat, i: nat)
    requires a <= i < |s| && NoSpace(s[a..i]) && !IsSpace(s[i])
    ensures NoSpace(s[a..i + 1])
  {
    assert s[a..i + 1] == s[a..i] + [s[i]];
  }

  lemma {:induction false} NotInExtend(s: string, c: char, a: nat, i: nat)
    requires a <= i < |s| && c !in s[a..i] && s[i] != c
    ensures c !in s[a..i + 1]
  {
    assert s[a..i + 1] == s[a..i] + [s[i]];
  }

  /** Each step keeps what the recogniser knows about the text read. */
  lemma {:induction false} StepKnows(line: string, i: nat, st: LineState)
    requires i < |line| && Recorded(st, i) && Knows(line, i, st)
    requires Step(line, i, st).Some?
    ensures Knows(line, i + 1, Step(line, i, st).value)
  {
    if st.Lead? || st.InLabel? || st.AfterLabel? || st.AfterColon? {
      StepKnowsLabel(line, i, st);
    } else if st.InSep? || st.InId? {
      StepKnowsId(line, i, st);
    } else {
      StepKnowsTitle(line, i, st);
    }
  }

  /** The steps up to and including the colon keep what is known. */
  lemma {:induction false} StepKnowsLabel(line: string, i: nat, st: LineState)
    requires st.Lead? || st.InLabel? || st.AfterLabel? || st.AfterColon?
    requires i < |line| && Recorded(st, i) && Knows(line, i, st)
    requires Step(line, i, st).Some?
    ensures Knows(line, i + 1, Step(line, i, st).value)
  {
    var ch := line[i];
    match st
    case Lead =>
      if IsSpace(ch) { AllSpaceExtend(line, 0, i); }
    case InLabel(o) =>
      if ch != ']' { NotInExtend(line, ']', o + 1, i); }
    case AfterLabel(o, c) =>
    case AfterColon(o, c) =>
      AllSpaceExtend(line, i, i);
  }

  /** The steps through the separator and the identifier keep what is known. */
  lemma {:induction false} StepKnowsId(line: string, i: nat, st: LineState)
    requires st.InSep? || st.InId?
    requires i < |line| && Recorded(st, i) && Knows(line, i, st)
    requires Step(line, i, st).Some?
    ensures Knows(line, i + 1, Step(line, i, st).value)
  {
    var ch := line[i];
    match st
    case InSep(o, c) =>
      if IsSpace(ch) { AllSpaceExtend(line, c + 2, i); } else { NoSpaceExtend(line, i, i); }
    case InId(o, c, k) =>
      if IsSpace(ch) { AllSpaceExtend(line, i, i); } else { NoSpaceExtend(line, k, i); }
  }

  /** The steps after the identifier keep what is known. */
  lemma {:induction false} StepKnowsTitle(line: string, i: nat, st: LineState)
    requires st.AfterId? || st.InTitle? || st.AfterTitle?
    requires i < |line| && Recorded(st, i) && Knows(line, i, st)
    requires Step(line, i, st).Some?
    ensures Knows(line, i + 1, Step(line, i, st).value)
  {
    var ch := line[i];
    match st
    case AfterId(p) =>
      if IsSpace(ch) { AllSpaceExtend(line, p.idEnd, i); }
    case InTitle(p, q) =>
      if ch != line[q] { NotInExtend(line, line[q], q + 1, i); }
    case AfterTitle(p, q, e) =>
      AllSpaceExtend(line, e + 1, i);
  }

  /** An all-whitespace tail is a title tail. */
  lemma {:induction false} TitleTailAllSpace(t: string)
    requires AllSpace(t)
    ensures IsTitleTail(t)
  {
    assert t[0..|t|] == t;
    SkipSpacesStopsAt(t, 0, |t|);
  }

  /** Whitespace, a quoted title and whitespace make a title tail. */
  lemma {:induction false} TitleTailQuoted(t: string, w: nat, e: nat)
    requires 0 < w < e < |t| && AllSpace(t[0..w]) && IsQuote(t[w])
    requires t[w] !in t[w + 1..e] && t[e] == t[w] && AllSpace(t[e + 1..])
    ensures IsTitleTail(t)
  {
    SkipSpacesStopsAt(t, 0, w);
    IndexOfAt(t, t[w], w + 1, e);
  }

  /** Accepting at the end of the line in trailing whitespace after a title. */
  lemma {:induction false} FinalAfterTitle(line: string, p: LineParts, q: nat, e: nat)
    requires Recorded(AfterTitle(p, q, e), |line|) && Knows(line, |line|, AfterTitle(p, q, e))
    ensures PartsFit(line, p)
  {
    var t := line[p.idEnd..];
    SliceOfSlice(line, p.idEnd, |line|, 0, q - p.idEnd);
    SliceOfSlice(line, p.idEnd, |line|, q - p.idEnd + 1, e - p.idEnd);
    SliceOfSlice(line, p.idEnd, |line|, e - p.idEnd + 1, |t|);
    assert line[p.idEnd..|line|] == t;
    TitleTailQuoted(t, q - p.idEnd, e - p.idEnd);
  }

  /** What the recogniser accepts fits the pattern. */
  lemma {:induction false} FinalSound(line: string, st: LineState)
    requires Recorded(st, |line|) && Knows(line, |line|, st)
    requires Final(st, |line|).Some?
    ensures PartsFit(line, Final(st, |line|).value)
  {
    match st
    case InId(o, c, k) =>
      TitleTailAllSpace(line[|line|..]);
    case AfterId(p) =>
      assert line[p.idEnd..|line|] == line[p.idEnd..];
      TitleTailAllSpace(line[p.idEnd..]);
    case AfterTitle(p, q, e) =>
      FinalAfterTitle(line, p, q, e);
  }

  lemma {:induction false} ScanSound(line: string, i: nat, st: LineState)
    requires i <= |line| && Recorded(st, i) && Knows(line, i, st)
    requires Scan(line, i, st).Some?
    ensures PartsFit(line, Scan(line, i, st).value)
    decreases |line| - i
  {
    if i == |line| {
      FinalSound(line, st);
    } else {
      StepKnows(line, i, st);
      ScanSound(line, i + 1, Step(line, i, st).value);
    }
  }

  /** The recogniser accepts only lines of the pattern's form. */
  lemma {:induction false} ScanAccepts(line: string)
    requires Scan(line, 0, Lead).Some?
    ensures PartsFit(line, Scan(line, 0, Lead).value)
  {
    ScanSound(line, 0, Lead);
  }

  /** One step of the recogniser. */
  lemma {:induction false} ScanStep(line: string, i: nat, st: LineState, next: LineState)
    requires i < |line| && Recorded(st, i) && Step(line, i, st) == Some(next)
    ensures Recorded(next, i + 1) && Scan(line, i, st) == Scan(line, i + 1, next)
  {
  }

  /** A stretch of characters on which the state loops leaves the outcome unchanged. */
  lemma {:induction false} ScanRun(line: string, i: nat, j: nat, st: LineState)
    requires i <= j <= |line| && Recorded(st, i) && Recorded(st, j)
    requires forall k :: i <= k < j ==> Recorded(st, k) && Step(line, k, st) == Some(st)
    ensures Scan(line, i, st) == Scan(line, j, st)
    decreases j - i
  {
    if i < j {
      assert Recorded(st, i + 1) && Step(line, i, st) == Some(st);
      ScanRun(line, i + 1, j, st);
    }
  }

  /** The states that stay put on whitespace. */
  predicate LoopsOnSpace(st: LineState) {
    st.Lead? || st.InSep? || st.AfterId? || st.AfterTitle?
  }

  lemma {:induction false} SpacesRun(line: string, i: nat, j: nat, st: LineState)
    requires i <= j <= |line| && Recorded(st, i) && LoopsOnSpace(st) && AllSpace(line[i..j])
    ensures Recorded(st, j) && Scan(line, i, st) == Scan(line, j, st)
  {
    forall k | i <= k < j
      ensures Recorded(st, k) && Step(line, k, st) == Some(st)
    {
      assert line[i..j][k - i] == line[k];
    }
    ScanRun(line, i, j, st);
  }

  lemma {:induction false} LabelRun(line: string, i: nat, j: nat, o: nat)
    requires o < i <= j <= |line| && ']' !in line[i..j]
    ensures Scan(line, i, InLabel(o)) == Scan(line, j, InLabel(o))
  {
    forall k | i <= k < j
      ensures Recorded(InLabel(o), k) && Step(line, k, InLabel(o)) == Some(InLabel(o))
    {
      assert line[i..j][k - i] == line[k];
    }
    ScanRun(line, i, j, InLabel(o));
  }

  lemma {:induction false} IdRun(line: string, i: nat, j: nat, o: nat, c: nat, k: nat)
    requires o < c < k < i <= j <= |line| && NoSpace(line[i..j])
    ensures Scan(line, i, InId(o, c, k)) == Scan(line, j, InId(o, c, k))
  {
    forall n | i <= n < j
      ensures Recorded(InId(o, c, k), n) && Step(line, n, InId(o, c, k)) == Some(InId(o, c, k))
    {
      assert line[i..j][n - i] == line[n];
    }
    ScanRun(line, i, j, InId(o, c, k));
  }

  lemma {:induction false} TitleRun(line: string, i: nat, j: nat, p: LineParts, q: nat)
    requires InOrder(p, q) && q < i <= j <= |line| && line[q] !in line[i..j]
    ensures Scan(line, i, InTitle(p, q)) == Scan(line, j, InTitle(p, q))
  {
    forall n | i <= n < j
      ensures Recorded(InTitle(p, q), n) && Step(line, n, InTitle(p, q)) == Some(InTitle(p, q))
    {
      assert line[i..j][n - i] == line[n];
    }
    ScanRun(line, i, j, InTitle(p, q));
  }

  /** From the start of a line of the pattern's form, the recogniser reaches
      the whitespace after the colon. */
  lemma {:induction false} ScanToSep(line: string, p: LineParts)
    requires HeadFits(line, p)
    ensures Scan(line, 0, Lead) == Scan(line, p.close + 3, InSep(p.open, p.close))
  {
    ScanThroughLabel(line, p);
    ScanThroughColon(line, p);
  }

  lemma {:induction false} ScanThroughLabel(line: string, p: LineParts)
    requires HeadFits(line, p)
    ensures Scan(line, 0, Lead) == Scan(line, p.close, InLabel(p.open))
  {
    var o, c := p.open, p.close;
    SpacesRun(line, 0, o, Lead);
    ScanStep(line, o, Lead, InLabel(o));
    LabelRun(line, o + 1, c, o);
  }

  lemma {:induction false} ScanThroughColon(line: string, p: LineParts)
    requires HeadFits(line, p)
    ensures Scan(line, p.close, InLabel(p.open)) == Scan(line, p.close + 3, InSep(p.open, p.close))
  {
    var o, c := p.open, p.close;
    ScanStep(line, c, InLabel(o), AfterLabel(o, c));
    ScanStep(line, c + 1, AfterLabel(o, c), AfterColon(o, c));
    assert line[c + 2..p.idStart][0] == line[c + 2];
    ScanStep(line, c + 2, AfterColon(o, c), InSep(o, c));
  }

  /** From the whitespace after the colon, the recogniser reads the identifier. */
  lemma {:induction false} ScanToId(line: string, p: LineParts)
    requires HeadFits(line, p)
    ensures Scan(line, p.close + 3, InSep(p.open, p.close))
         == Scan(line, p.idEnd, InId(p.open, p.close, p.idStart))
  {
    ScanIntoId(line, p);
    ScanThroughId(line, p);
  }

  lemma {:induction false} ScanIntoId(line: string, p: LineParts)
    requires HeadFits(line, p)
    ensures Scan(line, p.close + 3, InSep(p.open, p.close))
         == Scan(line, p.idStart + 1, InId(p.open, p.close, p.idStart))
  {
    var o, c, k := p.open, p.close, p.idStart;
    AllSpaceSub(line, c + 2, k, c + 3, k);
    assert line[k..p.idEnd][0] == line[k];
    SpacesRun(line, c + 3, k, InSep(o, c));
    ScanStep(line, k, InSep(o, c), InId(o, c, k));
  }

  lemma {:induction false} ScanThroughId(line: string, p: LineParts)
    requires HeadFits(line, p)
    ensures Scan(line, p.idStart + 1, InId(p.open, p.close, p.idStart))
         == Scan(line, p.idEnd, InId(p.open, p.close, p.idStart))
  {
    SliceOfSlice(line, p.idStart, p.idEnd, 1, p.idEnd - p.idStart);
    IdRun(line, p.idStart + 1, p.idEnd, p.open, p.close, p.idStart);
  }

  /** After the identifier and a whitespace character, a title tail is accepted. */
  lemma {:induction false} ScanTail(line: string, p: LineParts)
    requires InOrder(p, p.idEnd) && p.idEnd < |line| && IsSpace(line[p.idEnd])
    requires IsTitleTail(line[p.idEnd..])
    ensures Scan(line, p.idEnd + 1, AfterId(p)) == Some(p)
  {
    var t := line[p.idEnd..];
    if SkipSpaces(t, 0) == |t| {
      ScanTailSpaces(line, p);
    } else {
      ScanTailQuoted(line, p);
    }
  }

  lemma {:induction false} ScanTailSpaces(line: string, p: LineParts)
    requires InOrder(p, p.idEnd) && p.idEnd < |line|
    requires SkipSpaces(line[p.idEnd..], 0) == |line| - p.idEnd
    ensures Scan(line, p.idEnd + 1, AfterId(p)) == Some(p)
  {
    var m := p.idEnd;
    var t := line[m..];
    assert line[m..|line|] == t;
    AllSpaceSub(t, 0, |t|, 1, |t|);
    SliceOfSlice(line, m, |line|, 1, |t|);
    SpacesRun(line, m + 1, |line|, AfterId(p));
  }

  lemma {:induction false} ScanTailQuoted(line: string, p: LineParts)
    requires InOrder(p, p.idEnd) && p.idEnd < |line| && IsSpace(line[p.idEnd])
    requires IsTitleTail(line[p.idEnd..]) && SkipSpaces(line[p.idEnd..], 0) < |line| - p.idEnd
    ensures Scan(line, p.idEnd + 1, AfterId(p)) == Some(p)
  {
    var m := p.idEnd;
    var t := line[m..];
    assert line[m..|line|] == t;
    var w := SkipSpaces(t, 0);
    assert t[0] == line[m];
    AllSpaceSub(t, 0, w, 1, w);
    SliceOfSlice(line, m, |line|, 1, w);
    var e := IndexOf(t, t[w], w + 1).value;
    NotInSlice(t, t[w], w + 1, e);
    SliceOfSlice(line, m, |line|, w + 1, e);
    assert t[e + 1..] == t[e + 1..|t|];
    SliceOfSlice(line, m, |line|, e + 1, |t|);
    ScanTitle(line, p, m + w, m + e);
  }

  /** Whitespace, a quoted title and whitespace after the identifier are accepted. */
  lemma {:induction false} ScanTitle(line: string, p: LineParts, q: nat, e: nat)
    requires InOrder(p, p.idEnd) && p.idEnd < q < e < |line|
    requires AllSpace(line[p.idEnd + 1..q]) && IsQuote(line[q])
    requires line[q] !in line[q + 1..e] && line[e] == line[q] && AllSpace(line[e + 1..|line|])
    ensures Scan(line, p.idEnd + 1, AfterId(p)) == Some(p)
  {
    SpacesRun(line, p.idEnd + 1, q, AfterId(p));
    ScanStep(line, q, AfterId(p), InTitle(p, q));
    ScanQuoted(line, p, q, e);
  }

  /** The quoted title and the whitespace after it are accepted. */
  lemma {:induction false} ScanQuoted(line: string, p: LineParts, q: nat, e: nat)
    requires InOrder(p, p.idEnd) && p.idEnd < q < e < |line| && IsQuote(line[q])
    requires line[q] !in line[q + 1..e] && line[e] == line[q] && AllSpace(line[e + 1..|line|])
    ensures Scan(line, q + 1, InTitle(p, q)) == Some(p)
  {
    TitleRun(line, q + 1, e, p, q);
    ScanStep(line, e, InTitle(p, q), AfterTitle(p, q, e));
    SpacesRun(line, e + 1, |line|, AfterTitle(p, q, e));
  }

  /** The recogniser accepts every line of the pattern's form, with its parts. */
  lemma {:induction false} ScanComplete(line: string, p: LineParts)
    requires PartsFit(line, p)
    ensures Scan(line, 0, Lead) == Some(p)
  {
    ScanToSep(line, p);
    ScanToId(line, p);
    if p.idEnd < |line| {
      ScanStep(line, p.idEnd, InId(p.open, p.close, p.idStart), AfterId(p));
      ScanTail(line, p);
    }
  }

  /** `line` is `lead [label]:sep id tail` with every part of the right form. */
  predicate DefinitionLineShape(line: string, d: Definition, lead: string, sep: string, tail: string) {
    && line == lead + "[" + d.name + "]:" + sep + d.id + tail
    && AllSpace(lead)
    && d.name != [] && ']' !in d.name
    && sep != [] && AllSpace(sep)
    && d.id != [] && NoSpace(d.id)
    && IsTitleTail(tail)
  }

  /** Every accepted line has the shape of a definition line. */
  lemma {:induction false} ParseDefinitionLineSound(line: string)
    requires ParseDefinitionLine(line).Some?
    ensures exists lead, sep, tail :: DefinitionLineShape(line, ParseDefinitionLine(line).value, lead, sep, tail)
  {
    var p := Scan(line, 0, Lead).value;
    ScanAccepts(line);
    ShapeAt(line, p.open, p.close, p.idStart, p.idEnd);
  }

  lemma {:induction false} ShapeAt(line: string, i: nat, c: nat, k: nat, m: nat)
    requires i + 1 < c && c + 2 < k < m <= |line|
    requires AllSpace(line[0..i]) && line[i] == '[' && ']' !in line[i + 1..c]
    requires line[c] == ']' && line[c + 1] == ':'
    requires AllSpace(line[c + 2..k]) && NoSpace(line[k..m]) && IsTitleTail(line[m..])
    ensures DefinitionLineShape(line, Definition(line[i + 1..c], line[k..m]), line[..i], line[c + 2..k], line[m..])
  {
    assert line[0..i] == line[..i];
    LinePieces(line, i, c, k, m);
  }

  /** A line cut around `[name]:` and at two more points. */
  lemma {:induction false} LinePieces(line: string, i: nat, c: nat, k: nat, m: nat)
    requires i < c && c + 2 <= k <= m <= |line| && line[i] == '[' && line[c] == ']' && line[c + 1] == ':'
    ensures line == line[..i] + "[" + line[i + 1..c] + "]:" + line[c + 2..k] + line[k..m] + line[m..]
  {
    var lead, name, sep, id, tail := line[..i], line[i + 1..c], line[c + 2..k], line[k..m], line[m..];
    var r := lead + "[" + name + "]:" + sep + id + tail;
    assert |r| == |line|;
    forall j | 0 <= j < |line|
      ensures r[j] == line[j]
    {
      if j < i {
      } else if j == i {
      } else if j < c {
        assert r[j] == name[j - i - 1];
      } else if j <= c + 1 {
      } else if j < k {
        assert r[j] == sep[j - c - 2];
      } else if j < m {
        assert r[j] == id[j - k];
      } else {
        assert r[j] == tail[j - m];
      }
    }
  }

  /** Every string of the shape of a definition line is accepted, and the
      recogniser reads back exactly its label and identifier. */
  lemma {:induction false} ParseDefinitionLineComplete(line: string, d: Definition, lead: string, sep: string, tail: string)
    requires DefinitionLineShape(line, d, lead, sep, tail)
    ensures ParseDefinitionLine(line) == Some(d)
  {
    var i := |lead|;
    var c := i + 1 + |d.name|;
    var k := c + 2 + |sep|;
    var m := k + |d.id|;
    ShapeSlices(line, d, lead, sep, tail);
    if tail != [] { TitleTailStartsWithSpace(tail); }
    ScanComplete(line, LineParts(i, c, k, m));
  }

  lemma {:induction false} ShapeSlices(line: string, d: Definition, lead: string, sep: string, tail: string)
    requires line == lead + "[" + d.name + "]:" + sep + d.id + tail
    ensures var i, c := |lead|, |lead| + 1 + |d.name|;
            var k := c + 2 + |sep|;
            && line[0..i] == lead && line[i] == '[' && line[i + 1..c] == d.name
            && line[c] == ']' && line[c + 1] == ':'
            && line[c + 2..k] == sep && line[k..k + |d.id|] == d.id && line[k + |d.id|..] == tail
  {
  }

  lemma {:induction false} TitleTailStartsWithSpace(tail: string)
    requires IsTitleTail(tail) && tail != []
    ensures IsSpace(tail[0])
  {
    var w := SkipSpaces(tail, 0);
    assert tail[0..w][0] == tail[0];
  }

  lemma {:induction false} SliceSplit(s: string, a: nat, b: nat)
    requires a <= b <= |s|
    ensures s[a..] == s[a..b] + s[b..]
    ensures s[..b] == s[..a] + s[a..b]
  {
  }

  /** `c` is absent from a slice when no index of the slice holds it. */
  lemma {:induction false} NotInSlice(s: string, c: char, a: nat, b: nat)
    requires a <= b <= |s|
    requires forall j :: a <= j < b ==> s[j] != c
    ensures c !in s[a..b]
  {
  }

  /** Every index of a slice holds what the slice says. */
  lemma {:induction false} SliceAt(s: string, a: nat, b: nat)
    requires a <= b <= |s|
    ensures forall j :: a <= j < b ==> s[j] == s[a..b][j - a]
  {
  }

  // ---------------------------------------------------------------------------
  // Denotations: `[target][label]` not preceded by a backslash
  // ---------------------------------------------------------------------------

  /** A denotation found at `index`: the text between the first pair of
      brackets and the label between the second. */
  datatype Markup = Markup(index: nat, target: string, name: string) {
    /** The length of the whole `[target][label]` match. */
    function Length(): nat { |target| + |name| + 4 }
    function End(): nat { index + Length() }
  }

  function MarkupText(target: string, name: string): string {
    "[" + target + "][" + name + "]"
  }

  /** The declarative reading of the denotation pattern at `p`: the text there
      is `[target][label]` with a non-empty target free of `[`, a non-empty
      label free of `]`, and no backslash right before the opening bracket. */
  predicate IsDenotationAt(s: string, p: nat, target: string, name: string) {
    && p + |target| + |name| + 4 <= |s|
    && s[p..p + |target| + |name| + 4] == MarkupText(target, name)
    && target != [] && '[' !in target
    && name != [] && ']' !in name
    && (p == 0 || s[p - 1] != '\\')
  }

  /** The denotation pattern tried at position `p`. Because the target may not
      hold `[`, the `][` that ends it is the first `[` after the opening one;
      the label ends at the first `]` after that. */
  function DenotationAt(s: string, p: nat): (r: Option<Markup>)
    ensures r.Some? ==> r.value.index == p && IsDenotationAt(s, p, r.value.target, r.value.name)
  {
    if p >= |s| || s[p] != '[' || (p > 0 && s[p - 1] == '\\') then None
    else TargetFrom(s, p, p + 1)
  }

  /** The opening bracket of a denotation stands at `p`. */
  predicate Opened(s: string, p: nat) {
    p < |s| && s[p] == '[' && (p == 0 || s[p - 1] != '\\')
  }

  /** Reads the target of a denotation opened at `p`, `s[p + 1..i]` read so
      far: it ends at the first `[`, which must come right after a `]`. */
  function TargetFrom(s: string, p: nat, i: nat): (r: Option<Markup>)
    requires Opened(s, p) && p < i <= |s| && '[' !in s[p + 1..i]
    decreases |s| - i
    ensures r.Some? ==> r.value.index == p && IsDenotationAt(s, p, r.value.target, r.value.name)
  {
    if i == |s| then None
    else if s[i] != '[' then
      NotInExtend(s, '[', p + 1, i);
      TargetFrom(s, p, i + 1)
    else if i < p + 3 || s[i - 1] != ']' then None
    else LabelFrom(s, p, i, i + 1)
  }

  /** Reads the label of a denotation whose target ends at the `[` at `b`,
      `s[b + 1..j]` read so far: it ends at the first `]`. */
  function LabelFrom(s: string, p: nat, b: nat, j: nat): (r: Option<Markup>)
    requires Opened(s, p) && p + 3 <= b < j <= |s|
    requires '[' !in s[p + 1..b] && s[b - 1] == ']' && s[b] == '[' && ']' !in s[b + 1..j]
    decreases |s| - j
    ensures r.Some? ==> r.value.index == p && IsDenotationAt(s, p, r.value.target, r.value.name)
  {
    if j == |s| then None
    else if s[j] != ']' then
      NotInExtend(s, ']', b + 1, j);
      LabelFrom(s, p, b, j + 1)
    else if j == b + 1 then None
    else
      MarkupFound(s, p, b, j);
      Some(Markup(p, s[p + 1..b - 1], s[b + 1..j]))
  }

  lemma {:induction false} MarkupFound(s: string, p: nat, b: nat, c: nat)
    requires Opened(s, p) && p + 3 <= b && b + 1 < c < |s|
    requires '[' !in s[p + 1..b] && s[b - 1] == ']' && s[b] == '[' && ']' !in s[b + 1..c] && s[c] == ']'
    ensures IsDenotationAt(s, p, s[p + 1..b - 1], s[b + 1..c])
  {
    var target, name := s[p + 1..b - 1], s[b + 1..c];
    IsMarkupText(s[p..c + 1], target, name);
  }

  /** A text laid out character by character as `[target][name]`. */
  lemma {:induction false} IsMarkupText(m: string, target: string, name: string)
    requires |m| == |target| + |name| + 4
    requires m[0] == '[' && m[|target| + 1] == ']' && m[|target| + 2] == '[' && m[|m| - 1] == ']'
    requires forall i :: 0 <= i < |target| ==> m[i + 1] == target[i]
    requires forall i :: 0 <= i < |name| ==> m[i + |target| + 3] == name[i]
    ensures m == MarkupText(target, name)
  {
    var t := MarkupText(target, name);
    forall i | 0 <= i < |m|
      ensures m[i] == t[i]
    {
      if 0 < i <= |target| {
        assert t[i] == target[i - 1];
      } else if |target| + 3 <= i < |m| - 1 {
        assert t[i] == name[i - |target| - 3];
      }
    }
  }

  /** The split of a `[..][..]` match is unique: whenever the pattern's
      declarative reading holds, the recogniser finds exactly that target and
      label. */
  lemma {:induction false} DenotationAtComplete(s: string, p: nat, target: string, name: string)
    requires IsDenotationAt(s, p, target, name)
    ensures DenotationAt(s, p) == Some(Markup(p, target, name))
  {
    var b := p + |target| + 2;
    var c := b + |name| + 1;
    MarkupSlices(s, p, target, name);
    assert s[p + 1..b] == target + [']'];
    assert s[p + 1..p + 1] == [];
    TargetFromAt(s, p, p + 1, b);
    assert s[b + 1..b + 1] == [];
    LabelFromAt(s, p, b, b + 1, c);
  }

  /** The target reader stops at the next `[`. */
  lemma {:induction false} TargetFromAt(s: string, p: nat, i: nat, b: nat)
    requires Opened(s, p) && p < i <= b < |s| && '[' !in s[p + 1..b] && s[b] == '['
    ensures '[' !in s[p + 1..i]
    ensures TargetFrom(s, p, i) == TargetFrom(s, p, b)
    decreases b - i
  {
    assert s[p + 1..i] == s[p + 1..b][..i - p - 1];
    if i < b {
      assert s[i] == s[p + 1..b][i - p - 1];
      TargetFromAt(s, p, i + 1, b);
    }
  }

  /** The label reader stops at the next `]`. */
  lemma {:induction false} LabelFromAt(s: string, p: nat, b: nat, j: nat, c: nat)
    requires Opened(s, p) && p + 3 <= b < j <= c < |s|
    requires '[' !in s[p + 1..b] && s[b - 1] == ']' && s[b] == '[' && ']' !in s[b + 1..c] && s[c] == ']'
    ensures ']' !in s[b + 1..j]
    ensures LabelFrom(s, p, b, j) == LabelFrom(s, p, b, c)
    decreases c - j
  {
    assert s[b + 1..j] == s[b + 1..c][..j - b - 1];
    if j < c {
      assert s[j] == s[b + 1..c][j - b - 1];
      LabelFromAt(s, p, b, j + 1, c);
    }
  }

  /** `RegExp.prototype.exec` of the global denotation pattern with
      `lastIndex == from`: the leftmost match starting at or after `from`. */
  function FindDenotation(s: string, from: nat): (r: Option<Markup>)
    decreases |s| - from
    ensures r.Some? ==> from <= r.value.index && r.value.End() <= |s|
    ensures r.Some? ==> r.value.target != [] && '[' !in r.value.target
    ensures r.Some? ==> r.value.name != [] && ']' !in r.value.name
  {
    if from >= |s| then None
    else if DenotationAt(s, from).Some? then DenotationAt(s, from)
    else FindDenotation(s, from + 1)
  }

  /** What the search finds is a match of the pattern at that position. */
  lemma {:induction false} FindDenotationFound(s: string, from: nat)
    requires FindDenotation(s, from).Some?
    ensures DenotationAt(s, FindDenotation(s, from).value.index) == FindDenotation(s, from)
    decreases |s| - from
  {
    if DenotationAt(s, from).None? {
      FindDenotationFound(s, from + 1);
    }
  }

  /** The search finds the leftmost match: the pattern matches nowhere
      between `from` and the match found, or nowhere at all after `from`
      when nothing is found. */
  lemma {:induction false} FindDenotationLeftmost(s: string, from: nat, q: nat)
    requires from <= q
    requires FindDenotation(s, from).Some? ==> q < FindDenotation(s, from).value.index
    ensures DenotationAt(s, q).None?
    decreases |s| - from
  {
    if from < |s| && from < q {
      FindDenotationLeftmost(s, from + 1, q);
    }
  }

  // ---------------------------------------------------------------------------
  // Escapes: a backslash directly followed by `[..][..]`
  // ---------------------------------------------------------------------------

  /** `[a][b]` at `q` with both parts non-empty and free of `]`. */
  predicate IsBracketPairAt(s: string, q: nat, a: string, b: string) {
    && q + |a| + |b| + 4 <= |s|
    && s[q..q + |a| + |b| + 4] == MarkupText(a, b)
    && a != [] && ']' !in a && b != [] && ']' !in b
  }

  /** The look-ahead of the escape pattern at `q`: `[`, a non-empty run without
      `]`, `][`, a non-empty run without `]`, and `]`. */
  predicate BracketPairAt(s: string, q: nat) {
    q < |s| && s[q] == '['
    && match IndexOf(s, ']', q + 1)
       case None => false
       case Some(c1) =>
         c1 > q + 1 && c1 + 1 < |s| && s[c1 + 1] == '['
         && match IndexOf(s, ']', c1 + 2)
            case None => false
            case Some(c2) => c2 > c1 + 2
  }

  /** The escape pattern matches the backslash at `p`. */
  predicate EscapeAt(s: string, p: nat) {
    p < |s| && s[p] == '\\' && BracketPairAt(s, p + 1)
  }

  /** A backslash at `p` directly followed by the bracket pair `[a][b]`. */
  predicate IsEscapedPairAt(s: string, p: nat, a: string, b: string) {
    p < |s| && s[p] == '\\' && IsBracketPairAt(s, p + 1, a, b)
  }

  /** The escape pattern matches a backslash exactly when a bracket pair
      follows it directly. */
  lemma {:induction false} EscapeAtMeans(s: string, p: nat)
    ensures EscapeAt(s, p) <==> exists a, b :: IsEscapedPairAt(s, p, a, b)
  {
    if EscapeAt(s, p) {
      BracketPairAtSound(s, p + 1);
      var a, b :| IsBracketPairAt(s, p + 1, a, b);
      assert IsEscapedPairAt(s, p, a, b);
    }
    if exists a, b :: IsEscapedPairAt(s, p, a, b) {
      var a, b :| IsEscapedPairAt(s, p, a, b);
      BracketPairAtComplete(s, p + 1, a, b);
    }
  }

  lemma {:induction false} BracketPairAtSound(s: string, q: nat)
    requires BracketPairAt(s, q)
    ensures exists a, b :: IsBracketPairAt(s, q, a, b)
  {
    var c1 := IndexOf(s, ']', q + 1).value;
    var c2 := IndexOf(s, ']', c1 + 2).value;
    NotInSlice(s, ']', q + 1, c1);
    NotInSlice(s, ']', c1 + 2, c2);
    var a, b := s[q + 1..c1], s[c1 + 2..c2];
    IsMarkupText(s[q..c2 + 1], a, b);
    assert IsBracketPairAt(s, q, a, b);
  }

  lemma {:induction false} BracketPairAtComplete(s: string, q: nat, a: string, b: string)
    requires IsBracketPairAt(s, q, a, b)
    ensures BracketPairAt(s, q)
  {
    var c1 := q + |a| + 1;
    var c2 := c1 + |b| + 2;
    MarkupSlices(s, q, a, b);
    IndexOfAt(s, ']', q + 1, c1);
    IndexOfAt(s, ']', c1 + 2, c2);
  }

  /** Reading the parts of `[a][b]` back out of a string that holds it at `q`. */
  lemma {:induction false} MarkupSlices(s: string, q: nat, a: string, b: string)
    requires q + |a| + |b| + 4 <= |s|
    requires s[q..q + |a| + |b| + 4] == MarkupText(a, b)
    ensures var c1 := q + |a| + 1;
            var c2 := c1 + |b| + 2;
            && s[q] == '[' && s[q + 1..c1] == a && s[c1] == ']' && s[c1 + 1] == '['
            && s[c1 + 2..c2] == b && s[c2] == ']'
  {
    var c1 := q + |a| + 1;
    var c2 := c1 + |b| + 2;
    var m := s[q..c2 + 1];
    assert m == "[" + a + "][" + b + "]";
    assert m[1..|a| + 1] == a;
    assert m[|a| + 3..|a| + 3 + |b|] == b;
    SliceOfSlice(s, q, c2 + 1, 1, |a| + 1);
    SliceOfSlice(s, q, c2 + 1, |a| + 3, |a| + 3 + |b|);
  }

  /** A bracket pair behind an escaping backslash is never read as a denotation. */
  lemma {:induction false} EscapedPairIsNoDenotation(s: string, p: nat)
    requires EscapeAt(s, p)
    ensures DenotationAt(s, p + 1).None?
  {
  }

  // ---------------------------------------------------------------------------
  // Label-definition blocks: a blank-line separator, then definition lines
  // ---------------------------------------------------------------------------

  /** Where the line starting at `a` ends: at its newline or at the end of the text. */
  function LineEnd(s: string, a: nat): (e: nat)
    requires a <= |s|
    ensures a <= e <= |s| && '\n' !in s[a..e]
    ensures e < |s| ==> s[e] == '\n'
  {
    match IndexOf(s, '\n', a)
    case None => NotInSlice(s, '\n', a, |s|); |s|
    case Some(e) => NotInSlice(s, '\n', a, e); e
  }

  /** The line starting at `a` is, as a whole, a definition line. */
  predicate DefinitionLineAt(s: string, a: nat)
    requires a <= |s|
  {
    ParseDefinitionLine(s[a..LineEnd(s, a)]).Some?
  }

  /** The last index in `[from, upto)` that holds `c`. */
  function LastIndexIn(s: string, c: char, from: nat, upto: nat): (r: Option<nat>)
    requires from <= upto <= |s|
    decreases upto
    ensures r.Some? ==> from <= r.value < upto && s[r.value] == c && c !in s[r.value + 1..upto]
    ensures r.None? ==> c !in s[from..upto]
  {
    if from == upto then None
    else if s[upto - 1] == c then Some(upto - 1)
    else
      var r := LastIndexIn(s, c, from, upto - 1);
      assert r.Some? ==> s[r.value + 1..upto] == s[r.value + 1..upto - 1] + [s[upto - 1]];
      assert r.None? ==> s[from..upto] == s[from..upto - 1] + [s[upto - 1]];
      r
  }

  /** The end of the run of consecutive definition lines starting at `a`,
      including the newline after the last one when there is one. */
  function DefinitionLinesEnd(s: string, a: nat): (e: nat)
    requires a <= |s| && DefinitionLineAt(s, a)
    decreases |s| - a
    ensures a < e <= |s|
  {
    var e := LineEnd(s, a);
    if e == |s| then |s|
    else if DefinitionLineAt(s, e + 1) then DefinitionLinesEnd(s, e + 1)
    else e + 1
  }

  /** The block pattern tried at `p`, giving the end of the block. Its first
      alternative, `\A` in a pattern without the `u` flag, is a literal `A`
      followed by a start-of-line anchor, which needs a newline right before
      it: that alternative never matches and is not modelled. So a block is
      always introduced by a newline, then a whitespace run containing a
      second newline; the definition lines start after the last newline of
      that run. */
  function BlockAt(s: string, p: nat): (r: Option<nat>)
    ensures r.Some? ==> p < |s| && s[p] == '\n' && p < r.value <= |s|
  {
    match SeparatorEnd(s, p)
    case None => None
    case Some(r) =>
      if DefinitionLineAt(s, r + 1) then Some(DefinitionLinesEnd(s, r + 1)) else None
  }

  /** The last newline of the whitespace run after a newline at `p`, when
      that run holds one. */
  function SeparatorEnd(s: string, p: nat): (r: Option<nat>)
    ensures r.Some? ==> p < r.value < |s| && s[p] == '\n' && s[r.value] == '\n' && AllSpace(s[p..r.value + 1])
    ensures r.Some? ==> r.value < SkipSpaces(s, p + 1) && '\n' !in s[r.value + 1..SkipSpaces(s, p + 1)]
    ensures r.None? && p < |s| && s[p] == '\n' ==> '\n' !in s[p + 1..SkipSpaces(s, p + 1)]
  {
    if p >= |s| || s[p] != '\n' then None
    else
      var q := SkipSpaces(s, p + 1);
      var r := LastIndexIn(s, '\n', p + 1, q);
      if r.Some? then SeparatorSpaces(s, p, q, r.value); r else None
  }

  /** A block match: `s[start..end]` is the whole matched text. */
  datatype Block = Block(start: nat, end: nat)

  /** The leftmost block match at or after `from`. */
  function FirstBlock(s: string, from: nat): (r: Option<Block>)
    decreases |s| - from
    ensures r.Some? ==> from <= r.value.start < r.value.end <= |s| && BlockAt(s, r.value.start) == Some(r.value.end)
  {
    if from >= |s| then None
    else match BlockAt(s, from)
      case Some(e) => Some(Block(from, e))
      case None =>
        FirstBlock(s, from + 1)
  }

  /** The match found is the leftmost one: no block starts between `from`
      and it, nor anywhere after `from` when none is found. */
  lemma {:induction false} FirstBlockLeftmost(s: string, from: nat, q: nat)
    requires from <= q
    requires FirstBlock(s, from).Some? ==> q < FirstBlock(s, from).value.start
    ensures BlockAt(s, q).None?
  {
    FirstBlockSkipped(s, from, q);
  }

  /** Starting the search later, but no later than the match, finds the same match. */
  lemma {:induction false} FirstBlockSkipped(s: string, from: nat, q: nat)
    requires from <= q
    requires FirstBlock(s, from).Some? ==> q <= FirstBlock(s, from).value.start
    ensures FirstBlock(s, q) == FirstBlock(s, from)
    decreases q - from
  {
    if from < q {
      FirstBlockSkipped(s, from + 1, q);
    }
  }

  /** All block matches of the global block pattern from `from` on, as
      `matchAll` and `replace` find them: leftmost first, each search resuming
      where the previous match ended. */
  function Blocks(s: string, from: nat): (r: seq<Block>)
    decreases |s| - from
    ensures forall i :: 0 <= i < |r| ==> from <= r[i].start < r[i].end <= |s|
    ensures forall i :: 0 <= i < |r| - 1 ==> r[i].end <= r[i + 1].start
  {
    match FirstBlock(s, from)
    case None => []
    case Some(b) =>
      var rest := Blocks(s, b.end);
      BlocksCons(b, rest, from, |s|);
      [b] + rest
  }

  /** A block followed by blocks that start after it are in text order. */
  lemma {:induction false} BlocksCons(b: Block, rest: seq<Block>, from: nat, n: nat)
    requires from <= b.start < b.end <= n
    requires forall i :: 0 <= i < |rest| ==> b.end <= rest[i].start < rest[i].end <= n
    requires forall i :: 0 <= i < |rest| - 1 ==> rest[i].end <= rest[i + 1].start
    ensures var r := [b] + rest;
            && (forall i :: 0 <= i < |r| ==> from <= r[i].start < r[i].end <= n)
            && (forall i :: 0 <= i < |r| - 1 ==> r[i].end <= r[i + 1].start)
  {
    assert forall i :: 0 < i < |rest| + 1 ==> ([b] + rest)[i] == rest[i - 1];
  }

  /** Every element of `Blocks` is a match of the block pattern. */
  lemma {:induction false} BlocksMatch(s: string, from: nat, i: nat)
    requires i < |Blocks(s, from)|
    ensures BlockAt(s, Blocks(s, from)[i].start) == Some(Blocks(s, from)[i].end)
    decreases |s| - from
  {
    var b := FirstBlock(s, from).value;
    if i > 0 {
      BlocksMatch(s, b.end, i - 1);
    }
  }

  /** The text of a run of definition lines without its final newline. */
  function WithoutFinalNewline(t: string): string {
    if t != [] && t[|t| - 1] == '\n' then t[..|t| - 1] else t
  }

  /** `s[p..e]` is a newline at `p`, whitespace up to and including a last
      newline at `r`, then one or more lines, each a whole definition line. */
  predicate BlockParts(s: string, p: nat, r: nat, e: nat) {
    p < r < e <= |s| && s[p] == '\n' && s[r] == '\n' && AllSpace(s[p..r + 1])
    && DefinitionLinesIn(WithoutFinalNewline(s[r + 1..e]))
  }

  /** What a block match consists of. */
  lemma {:induction false} BlockShape(s: string, p: nat)
    requires BlockAt(s, p).Some?
    ensures exists r :: BlockParts(s, p, r, BlockAt(s, p).value)
  {
    var r := BlockSeparator(s, p);
    var e := BlockAt(s, p).value;
    DefinitionLinesEndShape(s, r + 1);
    BlockPartsIntro(s, p, r, e);
  }

  /** A block match is its separator followed by a run of definition lines. */
  lemma {:induction false} BlockSeparator(s: string, p: nat) returns (r: nat)
    requires BlockAt(s, p).Some?
    ensures SeparatorEnd(s, p) == Some(r) && r + 1 <= |s| && DefinitionLineAt(s, r + 1)
    ensures BlockAt(s, p).value == DefinitionLinesEnd(s, r + 1)
  {
    r := SeparatorEnd(s, p).value;
  }

  lemma {:induction false} BlockPartsIntro(s: string, p: nat, r: nat, e: nat)
    requires p < r < e <= |s| && s[p] == '\n' && s[r] == '\n' && AllSpace(s[p..r + 1])
    requires DefinitionLinesIn(WithoutFinalNewline(s[r + 1..e]))
    ensures BlockParts(s, p, r, e)
  {
  }

  lemma {:induction false} SeparatorSpaces(s: string, p: nat, q: nat, r: nat)
    requires p < |s| && s[p] == '\n' && p + 1 <= r < q <= |s| && AllSpace(s[p + 1..q])
    ensures AllSpace(s[p..r + 1])
  {
    assert forall j :: p + 1 <= j < q ==> s[p + 1..q][j - p - 1] == s[j];
  }

  /** Every line of `t` is a whole definition line. */
  predicate DefinitionLinesIn(t: string) {
    AllDefinitionLines(Split(t, '\n'))
  }

  predicate AllDefinitionLines(lines: seq<string>) {
    forall k :: 0 <= k < |lines| ==> ParseDefinitionLine(lines[k]).Some?
  }

  lemma {:induction false} DefinitionLinesEndShape(s: string, a: nat)
    requires a <= |s| && DefinitionLineAt(s, a)
    ensures DefinitionLinesIn(WithoutFinalNewline(s[a..DefinitionLinesEnd(s, a)]))
    decreases |s| - a, 1
  {
    var e := LineEnd(s, a);
    if e == |s| {
      LastLineShape(s, a);
    } else if DefinitionLineAt(s, e + 1) {
      MoreLinesShape(s, a);
    } else {
      LineBeforeOtherShape(s, a);
    }
  }

  lemma {:induction false} MoreLinesShape(s: string, a: nat)
    requires a <= |s| && DefinitionLineAt(s, a)
    requires LineEnd(s, a) < |s| && DefinitionLineAt(s, LineEnd(s, a) + 1)
    ensures DefinitionLinesIn(WithoutFinalNewline(s[a..DefinitionLinesEnd(s, a)]))
    decreases |s| - a, 0
  {
    var e := LineEnd(s, a);
    var f := DefinitionLinesEnd(s, e + 1);
    assert DefinitionLinesEnd(s, a) == f;
    DefinitionLinesEndShape(s, e + 1);
    LinesAfterLine(s, a, e, f);
  }

  lemma {:induction false} LinesAfterLine(s: string, a: nat, e: nat, f: nat)
    requires a <= e < |s| && s[e] == '\n' && '\n' !in s[a..e] && ParseDefinitionLine(s[a..e]).Some?
    requires e + 1 < f <= |s|
    requires DefinitionLinesIn(WithoutFinalNewline(s[e + 1..f]))
    ensures DefinitionLinesIn(WithoutFinalNewline(s[a..f]))
  {
    assert s[a..f] == s[a..e] + ['\n'] + s[e + 1..f];
    NextLineShape(s[a..e], s[e + 1..f]);
  }

  lemma {:induction false} LastLineShape(s: string, a: nat)
    requires a <= |s| && DefinitionLineAt(s, a) && LineEnd(s, a) == |s|
    ensures DefinitionLinesIn(WithoutFinalNewline(s[a..DefinitionLinesEnd(s, a)]))
  {
    var line := s[a..|s|];
    assert ParseDefinitionLine(line).Some?;
    assert WithoutFinalNewline(line) == line;
    SplitWithout(line, '\n');
  }

  lemma {:induction false} LineBeforeOtherShape(s: string, a: nat)
    requires a <= |s| && DefinitionLineAt(s, a)
    requires LineEnd(s, a) < |s| && !DefinitionLineAt(s, LineEnd(s, a) + 1)
    ensures DefinitionLinesIn(WithoutFinalNewline(s[a..DefinitionLinesEnd(s, a)]))
  {
    var e := LineEnd(s, a);
    assert DefinitionLinesEnd(s, a) == e + 1;
    OneLineShape(s, a, e);
  }

  lemma {:induction false} OneLineShape(s: string, a: nat, e: nat)
    requires a <= e < |s| && s[e] == '\n' && '\n' !in s[a..e] && ParseDefinitionLine(s[a..e]).Some?
    ensures DefinitionLinesIn(WithoutFinalNewline(s[a..e + 1]))
  {
    var line := s[a..e];
    assert s[a..e + 1] == line + ['\n'];
    assert WithoutFinalNewline(s[a..e + 1]) == line;
    SplitWithout(line, '\n');
  }

  lemma {:induction false} NextLineShape(line: string, rest: string)
    requires '\n' !in line && ParseDefinitionLine(line).Some?
    requires rest != [] && DefinitionLinesIn(WithoutFinalNewline(rest))
    ensures DefinitionLinesIn(WithoutFinalNewline(line + ['\n'] + rest))
  {
    var t := line + ['\n'] + rest;
    assert t[|t| - 1] == rest[|rest| - 1];
    if rest[|rest| - 1] == '\n' {
      assert t[..|t| - 1] == line + ['\n'] + rest[..|rest| - 1];
    }
    assert WithoutFinalNewline(t) == line + ['\n'] + WithoutFinalNewline(rest);
    SplitAfter(line, WithoutFinalNewline(rest), '\n');
  }

  /** The converse of `BlockShape`: a newline, a whitespace run up to a
      newline, then a run of whole definition lines that the next line does
      not extend, is a block match ending exactly there. The pattern's `+` is
      greedy, so the match takes every following definition line. */
  lemma {:induction false} BlockAtComplete(s: string, p: nat, r: nat, e: nat)
    requires BlockParts(s, p, r, e)
    requires e == |s| || (s[e - 1] == '\n' && !DefinitionLineAt(s, e))
    ensures BlockAt(s, p) == Some(e)
  {
    RunNotEmpty(s[r + 1..e]);
    LinesRun(s, r + 1, e);
    var q := LineOpens(s, r + 1);
    SeparatorFound(s, p, r, q);
    BlockAtFrom(s, p, r);
  }

  lemma {:induction false} BlockAtFrom(s: string, p: nat, r: nat)
    requires SeparatorEnd(s, p) == Some(r) && r + 1 <= |s| && DefinitionLineAt(s, r + 1)
    ensures BlockAt(s, p) == Some(DefinitionLinesEnd(s, r + 1))
  {
  }

  /** A run of definition lines holds at least one character. */
  lemma {:induction false} RunNotEmpty(t: string)
    requires DefinitionLinesIn(WithoutFinalNewline(t))
    ensures t != []
  {
    var w := WithoutFinalNewline(t);
    var j := ParsedLineOpens(Split(w, '\n')[0]);
    SplitFirstShorter(w, '\n');
    assert |w| <= |t|;
  }

  /** The first piece of a split is no longer than the text. */
  lemma {:induction false} SplitFirstShorter(w: string, c: char)
    ensures |Split(w, c)[0]| <= |w|
  {
    match IndexOf(w, c, 0) {
      case None =>
      case Some(i) =>
        assert Split(w, c)[0] == w[..i];
    }
  }

  /** The whitespace run after the newline at `p` ends at the `[` of the line
      that follows the newline at `r`, so `r` is its last newline. */
  lemma {:induction false} SeparatorFound(s: string, p: nat, r: nat, q: nat)
    requires p < r < q < |s| && s[p] == '\n' && s[r] == '\n' && AllSpace(s[p..r + 1])
    requires AllSpace(s[r + 1..q]) && '\n' !in s[r + 1..q] && s[q] == '['
    ensures SeparatorEnd(s, p) == Some(r)
  {
    assert AllSpace(s[p + 1..q]) by {
      forall k | p + 1 <= k < q
        ensures IsSpace(s[k])
      {
        if k <= r {
          assert s[k] == s[p..r + 1][k - p];
        } else {
          assert s[k] == s[r + 1..q][k - r - 1];
        }
      }
    }
    SkipSpacesStopsAt(s, p + 1, q);
    LastIndexInAt(s, '\n', p + 1, q, r);
  }

  /** A definition line opens its label after leading whitespace, before its end. */
  lemma {:induction false} LineOpens(s: string, a: nat) returns (q: nat)
    requires a <= |s| && DefinitionLineAt(s, a)
    ensures a <= q < LineEnd(s, a) && s[q] == '['
    ensures AllSpace(s[a..q]) && '\n' !in s[a..q]
  {
    var f := LineEnd(s, a);
    var line := s[a..f];
    var j := ParsedLineOpens(line);
    q := a + j;
    assert s[q] == line[j];
    assert s[a..q] == line[..j];
  }

  /** An accepted definition line opens its label after leading whitespace. */
  lemma {:induction false} ParsedLineOpens(line: string) returns (j: nat)
    requires ParseDefinitionLine(line).Some?
    ensures j < |line| && AllSpace(line[..j]) && line[j] == '['
  {
    ParseDefinitionLineSound(line);
    var d := ParseDefinitionLine(line).value;
    var lead, sep, tail :| DefinitionLineShape(line, d, lead, sep, tail);
    j := |lead|;
    assert line[..j] == lead;
  }

  /** `LastIndexIn` finds an occurrence with none after it. */
  lemma {:induction false} LastIndexInAt(s: string, c: char, from: nat, upto: nat, at: nat)
    requires from <= at < upto <= |s| && s[at] == c && c !in s[at + 1..upto]
    ensures LastIndexIn(s, c, from, upto) == Some(at)
    decreases upto
  {
    if at < upto - 1 {
      assert s[upto - 1] == s[at + 1..upto][upto - 2 - at];
      assert s[at + 1..upto - 1] == s[at + 1..upto][..upto - 2 - at];
      LastIndexInAt(s, c, from, upto - 1, at);
    }
  }

  /** A run of whole definition lines from `a` to `e` that the line at `e`
      does not extend is what `DefinitionLinesEnd` reads from `a`. */
  lemma {:induction false} LinesRun(s: string, a: nat, e: nat)
    requires a < e <= |s| && DefinitionLinesIn(WithoutFinalNewline(s[a..e]))
    requires e == |s| || (s[e - 1] == '\n' && !DefinitionLineAt(s, e))
    ensures DefinitionLineAt(s, a)
    ensures DefinitionLinesEnd(s, a) == e
    decreases e - a, 1
  {
    var f := LineEnd(s, a);
    if f < e - 1 {
      LinesRunSplit(s, a, f, e);
      LinesRunMore(s, a, f, e);
    } else if f == e - 1 {
      LinesRunLast(s, a, e);
      NoLineAtEnd(s);
      LinesEndStop(s, a, f, e);
    } else {
      assert s[a..f][e - 1 - a] == s[e - 1];
      assert e == |s|;
      LinesRunEnd(s, a);
      LinesEndText(s, a, e);
    }
  }

  /** A run whose first line is followed by more of the run. */
  lemma {:induction false} LinesRunMore(s: string, a: nat, f: nat, e: nat)
    requires a < e <= |s| && DefinitionLineAt(s, a)
    requires e == |s| || (s[e - 1] == '\n' && !DefinitionLineAt(s, e))
    requires f == LineEnd(s, a) && f < e - 1 && DefinitionLinesIn(WithoutFinalNewline(s[f + 1..e]))
    ensures DefinitionLinesEnd(s, a) == e
    decreases e - a, 0
  {
    LinesRun(s, f + 1, e);
    LinesEndNext(s, a, f, e);
  }

  lemma {:induction false} LinesEndNext(s: string, a: nat, f: nat, e: nat)
    requires a <= |s| && DefinitionLineAt(s, a) && f == LineEnd(s, a)
    requires f < |s| && DefinitionLineAt(s, f + 1) && DefinitionLinesEnd(s, f + 1) == e
    ensures DefinitionLinesEnd(s, a) == e
  {
  }

  lemma {:induction false} LinesEndStop(s: string, a: nat, f: nat, e: nat)
    requires a <= |s| && DefinitionLineAt(s, a) && f == LineEnd(s, a)
    requires f < |s| && !DefinitionLineAt(s, f + 1) && e == f + 1
    ensures DefinitionLinesEnd(s, a) == e
  {
  }

  lemma {:induction false} LinesEndText(s: string, a: nat, e: nat)
    requires a <= |s| && DefinitionLineAt(s, a) && LineEnd(s, a) == |s| && e == |s|
    ensures DefinitionLinesEnd(s, a) == e
  {
  }

  /** The empty line at the end of the text is no definition line. */
  lemma {:induction false} NoLineAtEnd(s: string)
    ensures !DefinitionLineAt(s, |s|)
  {
    assert s[|s|..LineEnd(s, |s|)] == [];
  }

  /** A run whose first line ends before the run does: that line, then the rest. */
  lemma {:induction false} LinesRunSplit(s: string, a: nat, f: nat, e: nat)
    requires a <= f && f + 1 < e <= |s| && f == LineEnd(s, a)
    requires DefinitionLinesIn(WithoutFinalNewline(s[a..e]))
    ensures DefinitionLineAt(s, a) && DefinitionLinesIn(WithoutFinalNewline(s[f + 1..e]))
  {
    var rest := s[f + 1..e];
    RunAfterLine(s[a..e], s[a..f], rest);
    SplitAfter(s[a..f], WithoutFinalNewline(rest), '\n');
    LinesHead(s[a..f], Split(WithoutFinalNewline(rest), '\n'));
  }

  /** Every line of a list is a definition line: so is its first, and so are the others. */
  lemma {:induction false} LinesHead(line: string, lines: seq<string>)
    requires AllDefinitionLines([line] + lines)
    ensures ParseDefinitionLine(line).Some? && AllDefinitionLines(lines)
  {
    assert ([line] + lines)[0] == line;
    assert forall k :: 0 <= k < |lines| ==> ([line] + lines)[k + 1] == lines[k];
  }

  /** Dropping the final newline of a line and a non-empty rest drops it from the rest. */
  lemma {:induction false} RunAfterLine(t: string, line: string, rest: string)
    requires t == line + ['\n'] + rest && rest != []
    ensures WithoutFinalNewline(t) == line + ['\n'] + WithoutFinalNewline(rest)
  {
    assert t[|t| - 1] == rest[|rest| - 1];
    if rest[|rest| - 1] == '\n' {
      assert t[..|t| - 1] == line + ['\n'] + rest[..|rest| - 1];
    }
  }

  /** A run that is one line and its newline. */
  lemma {:induction false} LinesRunLast(s: string, a: nat, e: nat)
    requires a < e <= |s| && LineEnd(s, a) == e - 1
    requires DefinitionLinesIn(WithoutFinalNewline(s[a..e]))
    ensures DefinitionLineAt(s, a)
  {
    var line := s[a..e - 1];
    assert s[a..e] == line + ['\n'];
    assert WithoutFinalNewline(s[a..e]) == line;
    SplitWithout(line, '\n');
    assert Split(line, '\n')[0] == line;
  }

  /** A run that is the last line of the text, without a newline. */
  lemma {:induction false} LinesRunEnd(s: string, a: nat)
    requires a < |s| && LineEnd(s, a) == |s|
    requires DefinitionLinesIn(WithoutFinalNewline(s[a..|s|]))
    ensures DefinitionLineAt(s, a)
  {
    var t := s[a..|s|];
    assert t[|t| - 1] == s[|s| - 1];
    assert WithoutFinalNewline(t) == t;
    SplitWithout(t, '\n');
    assert Split(t, '\n')[0] == t;
  }

  /** The first line of a text never belongs to a block: every block begins
      at a newline, so a definition block at the very start is not read. */
  lemma {:induction false} FirstLineNeverInBlock(s: string, i: nat)
    requires i < |Blocks(s, 0)|
    ensures LineEnd(s, 0) <= Blocks(s, 0)[i].start
  {
  }

  lemma {:induction false} SkipSpacesStopsAt(s: string, from: nat, stop: nat)
    requires from <= stop <= |s|
    requires AllSpace(s[from..stop])
    requires stop < |s| ==> !IsSpace(s[stop])
    ensures SkipSpaces(s, from) == stop
    decreases stop - from
  {
    if from < stop {
      assert s[from..stop][0] == s[from] && s[from + 1..stop] == s[from..stop][1..];
      SkipSpacesStopsAt(s, from + 1, stop);
    }
  }

  lemma {:induction false} SkipNonSpacesStopsAt(s: string, from: nat, stop: nat)
    requires from <= stop <= |s|
    requires NoSpace(s[from..stop])
    requires stop < |s| ==> IsSpace(s[stop])
    ensures SkipNonSpaces(s, from) == stop
    decreases stop - from
  {
    if from < stop {
      assert s[from..stop][0] == s[from] && s[from + 1..stop] == s[from..stop][1..];
      SkipNonSpacesStopsAt(s, from + 1, stop);
    }
  }
}
