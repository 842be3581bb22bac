/** Splitting a certificate file into its PEM blocks (sc/cert_store.cpp; section 2 of RFC 7468). */
module Pem {
  import opened Octets

  /** The text around a block's label: "-----BEGIN ", the label, "-----", ..., and the END marker. */
  datatype Markers = Markers(begin: string, name: string, dashes: string, end: string) {
    predicate Valid() {
      begin != [] && !IsSpaceCharacter(begin[0]) && dashes != [] && |dashes| <= |end|
    }

    /** The line a block starts with. */
    function BeginLine(): string { begin + name + dashes }
  }

  function PemMarkers(name: string): (m: Markers)
    ensures m.Valid() && m.name == name
  {
    Markers("-----BEGIN ", name, "-----", "-----END " + name + "-----")
  }

  predicate IsSpaceCharacter(c: char) { c in {' ', '\t', '\r', '\n'} }

  // ---------------------------------------------------------------------------
  // std::string::find
  // ---------------------------------------------------------------------------

  predicate Occurs(s: string, pattern: string, at: nat) {
    at + |pattern| <= |s| && s[at..at + |pattern|] == pattern
  }

  /** The first place from `from` on where `pattern` occurs. */
  function Find(s: string, pattern: string, from: nat): (r: Option<nat>)
    ensures r.Some? ==> from <= r.value && r.value + |pattern| <= |s| && Occurs(s, pattern, r.value)
    ensures r.Some? ==> forall i: nat | from <= i < r.value :: !Occurs(s, pattern, i)
    ensures r.None? ==> forall i: nat | from <= i :: !Occurs(s, pattern, i)
    decreases |s| - from
  {
    if from + |pattern| > |s| then None
    else if s[from..from + |pattern|] == pattern then Some(from)
    else Find(s, pattern, from + 1)
  }

  lemma OccursFromFirst(s: string, pattern: string, at: nat)
    requires pattern != [] && at < |s| && s[at] != pattern[0]
    ensures !Occurs(s, pattern, at)
  {
    if at + |pattern| <= |s| {
      assert s[at..at + |pattern|][0] == s[at];
    }
  }

  /** What makes a place the one `Find` gives. */
  lemma FoundAt(s: string, pattern: string, from: nat, at: nat)
    requires from <= at && Occurs(s, pattern, at)
    requires forall i: nat | from <= i < at :: !Occurs(s, pattern, i)
    ensures Find(s, pattern, from) == Some(at)
  {
    var r := Find(s, pattern, from);
    assert !(r.Some? && r.value < at) && !(r.Some? && r.value > at);
  }

  lemma OccursInPart(s: string, pattern: string, from: nat, to: nat, at: nat)
    requires from <= at && at + |pattern| <= to <= |s|
    ensures Occurs(s, pattern, at) <==> Occurs(s[from..to], pattern, at - from)
  {
    SliceOfSlice(s, from, to, at - from, |pattern|);
  }

  /** Searching the rest of a text is searching the text from there. */
  lemma FindInRest(s: string, pattern: string, start: nat, from: nat)
    requires start <= |s|
    ensures var whole, rest := Find(s, pattern, start + from), Find(s[start..], pattern, from);
            && whole.Some? == rest.Some?
            && (whole.Some? ==> whole.value == start + rest.value)
  {
    hide Find, Occurs;
    var whole, rest := Find(s, pattern, start + from), Find(s[start..], pattern, from);
    assert s[start..] == s[start..|s|];
    if whole.Some? {
      OccursInPart(s, pattern, start, |s|, whole.value);
    }
    if rest.Some? {
      OccursInPart(s, pattern, start, |s|, start + rest.value);
      forall i: nat | start + from <= i < start + rest.value ensures !Occurs(s, pattern, i) {
        OccursInPart(s, pattern, start, |s|, i);
      }
      FoundAt(s, pattern, start + from, start + rest.value);
    }
  }

  // ---------------------------------------------------------------------------
  // Splitting
  // ---------------------------------------------------------------------------

  predicate IsSpace(s: string) {
    forall i | 0 <= i < |s| :: IsSpaceCharacter(s[i])
  }

  datatype Problem = TextOutside | UnterminatedHeader | OtherLabel | NoEndLine

  datatype Split = Blocks(blocks: seq<string>) | Refused(problem: Problem)

  /** The first block of `s`: where it begins, and where it ends. */
  datatype First = NoBlock | Block(begin: nat, end: nat) | Bad(problem: Problem)

  function FirstBlock(s: string, m: Markers): (r: First)
    requires m.Valid()
    ensures r.Block? ==> r.begin < r.end <= |s|
  {
    var begin := Find(s, m.begin, 0);
    if !IsSpace(s[..if begin.None? then |s| else begin.value]) then Bad(TextOutside)
    else if begin.None? then NoBlock
    else
      var nameStart := begin.value + |m.begin|;
      var nameEnd := Find(s, m.dashes, nameStart);
      if nameEnd.None? then Bad(UnterminatedHeader)
      else if s[nameStart..nameEnd.value] != m.name then Bad(OtherLabel)
      else
        var end := Find(s, m.end, nameEnd.value);
        if end.None? then Bad(NoEndLine) else Block(begin.value, end.value + |m.end|)
  }

  function SplitPem(s: string, m: Markers): (r: Split)
    requires m.Valid()
    decreases |s|
  {
    match FirstBlock(s, m)
    case Bad(problem) => Refused(problem)
    case NoBlock => Blocks([])
    case Block(begin, end) => Prepend([s[begin..end]], SplitPem(s[end..], m))
  }

  function Prepend(blocks: seq<string>, r: Split): Split {
    match r
    case Refused(problem) => Refused(problem)
    case Blocks(rest) => Blocks(blocks + rest)
  }

  lemma SliceOfRest(s: string, pos: nat, from: nat, to: nat)
    requires pos <= from <= to <= |s|
    ensures s[pos..][from - pos..to - pos] == s[from..to]
  {
  }

  /** FirstBlock from `pos` on, as the scan searches: over the whole text. */
  method NextBlock(pem: string, m: Markers, pos: nat) returns (r: First)
    requires m.Valid() && pos <= |pem|
    ensures match FirstBlock(pem[pos..], m)
            case NoBlock => r == NoBlock
            case Bad(problem) => r == Bad(problem)
            case Block(begin, end) => r == Block(pos + begin, pos + end)
  {
    hide Find, IsSpace, Occurs;
    ghost var rest := pem[pos..];
    var begin := Find(pem, m.begin, pos);
    FindInRest(pem, m.begin, pos, 0);
    var gapEnd := if begin.None? then |pem| else begin.value;
    SliceOfRest(pem, pos, pos, gapEnd);
    if !IsSpace(pem[pos..gapEnd]) {
      return Bad(TextOutside);
    }
    if begin.None? {
      return NoBlock;
    }
    var nameStart := begin.value + |m.begin|;
    var nameEnd := Find(pem, m.dashes, nameStart);
    FindInRest(pem, m.dashes, pos, nameStart - pos);
    if nameEnd.None? {
      return Bad(UnterminatedHeader);
    }
    SliceOfRest(pem, pos, nameStart, nameEnd.value);
    if pem[nameStart..nameEnd.value] != m.name {
      return Bad(OtherLabel);
    }
    var end := Find(pem, m.end, nameEnd.value);
    FindInRest(pem, m.end, pos, nameEnd.value - pos);
    if end.None? {
      return Bad(NoEndLine);
    }
    return Block(begin.value, end.value + |m.end|);
  }

  /** The scan itself: `pos` moves over the text, `blocks` collects. */
  method SplitPemBlocks(pem: string, m: Markers) returns (r: Split)
    requires m.Valid()
    ensures r == SplitPem(pem, m)
  {
    hide FirstBlock;
    var pos, blocks := 0, [];
    assert pem[0..] == pem;
    while true
      invariant 0 <= pos <= |pem|
      invariant SplitPem(pem, m) == Prepend(blocks, SplitPem(pem[pos..], m))
      decreases |pem| - pos
    {
      ghost var rest := pem[pos..];
      var block := NextBlock(pem, m, pos);
      match block
      case Bad(problem) => return Refused(problem);
      case NoBlock => return Blocks(blocks);
      case Block(begin, end) =>
        assert rest[end - pos..] == pem[end..] && rest[begin - pos..end - pos] == pem[begin..end];
        pos := end;
        blocks := blocks + [pem[begin..end]];
    }
  }

  // ---------------------------------------------------------------------------
  // The texts that are accepted
  // ---------------------------------------------------------------------------

  /** A block: the BEGIN line, up to and including the first END marker from the closing dashes of that
      line on - which may be the marker's own opening dashes. */
  predicate IsBlock(b: string, m: Markers) {
    m.BeginLine() <= b && |b| >= |m.end| && Find(b, m.end, |m.begin| + |m.name|) == Some(|b| - |m.end|)
  }

  /** The gaps and the blocks, taking turns. */
  function Weave(gaps: seq<string>, blocks: seq<string>): (s: string)
    requires |gaps| == |blocks| + 1
  {
    if blocks == [] then gaps[0] else gaps[0] + blocks[0] + Weave(gaps[1..], blocks[1..])
  }

  predicate Shape(s: string, m: Markers, gaps: seq<string>, blocks: seq<string>) {
    && |gaps| == |blocks| + 1 && s == Weave(gaps, blocks)
    && (forall i | 0 <= i < |gaps| :: IsSpace(gaps[i]))
    && (forall i | 0 <= i < |blocks| :: IsBlock(blocks[i], m))
  }

  /** The dashes that close the BEGIN line are the first ones after the label's start; so with any label
      without a dash, such as "CERTIFICATE". */
  predicate PlainLabel(m: Markers) {
    Find(m.name + m.dashes, m.dashes, 0) == Some(|m.name|)
  }

  /** Searching a part that holds the first place found gives that place. */
  lemma FindInPart(s: string, pattern: string, from: nat, to: nat, start: nat)
    requires from <= start && to <= |s|
    requires Find(s, pattern, start).Some? && Find(s, pattern, start).value + |pattern| <= to
    ensures Find(s[from..to], pattern, start - from) == Some(Find(s, pattern, start).value - from)
  {
    hide Find;
    var at := Find(s, pattern, start).value;
    OccursInPart(s, pattern, from, to, at);
    forall i: nat | start - from <= i < at - from ensures !Occurs(s[from..to], pattern, i) {
      OccursInPart(s, pattern, from, to, from + i);
    }
    FoundAt(s[from..to], pattern, start - from, at - from);
  }

  /** And the place found in a part is the one found in the whole. */
  lemma FindFromPart(s: string, pattern: string, from: nat, to: nat, start: nat)
    requires from <= start && from <= to <= |s| && Find(s[from..to], pattern, start - from).Some?
    ensures Find(s, pattern, start) == Some(from + Find(s[from..to], pattern, start - from).value)
  {
    hide Find;
    var at := from + Find(s[from..to], pattern, start - from).value;
    OccursInPart(s, pattern, from, to, at);
    forall i: nat | start <= i < at ensures !Occurs(s, pattern, i) {
      OccursInPart(s, pattern, from, to, i);
    }
    FoundAt(s, pattern, start, at);
  }

  lemma FirstBlockIsBlock(s: string, m: Markers)
    requires m.Valid() && FirstBlock(s, m).Block?
    ensures var f := FirstBlock(s, m); IsBlock(s[f.begin..f.end], m) && IsSpace(s[..f.begin])
    ensures PlainLabel(m)
  {
    hide Find, IsSpace;
    var f := FirstBlock(s, m);
    var nameStart := f.begin + |m.begin|;
    var nameEnd := nameStart + |m.name|;
    var header := nameEnd + |m.dashes|;
    assert Find(s, m.dashes, nameStart) == Some(nameEnd);
    assert s[f.begin..nameStart] == m.begin && s[nameStart..nameEnd] == m.name && s[nameEnd..header] == m.dashes;
    assert s[f.begin..header] == m.BeginLine();
    assert s[f.begin..f.end][..|m.BeginLine()|] == m.BeginLine();
    FindInPart(s, m.end, f.begin, f.end, nameEnd);
    assert s[nameStart..header] == m.name + m.dashes;
    FindInPart(s, m.dashes, nameStart, header, nameStart);
  }

  lemma BlockIsFirst(gap: string, block: string, rest: string, m: Markers)
    requires m.Valid() && IsSpace(gap) && IsBlock(block, m) && PlainLabel(m)
    ensures FirstBlock(gap + block + rest, m) == Block(|gap|, |gap| + |block|)
  {
    hide Find, IsSpace, Occurs;
    var s := gap + block + rest;
    var nameStart := |gap| + |m.begin|;
    var nameEnd := nameStart + |m.name|;
    var header := nameEnd + |m.dashes|;
    BlockParts(gap, block, rest, m);
    GapHasNoBegin(gap, block, rest, m);
    FoundAt(s, m.begin, 0, |gap|);
    FindFromPart(s, m.dashes, nameStart, header, nameStart);
    FindFromPart(s, m.end, |gap|, |gap| + |block|, nameEnd);
  }

  /** Where the parts of a block are in a text. */
  lemma BlockParts(gap: string, block: string, rest: string, m: Markers)
    requires IsBlock(block, m)
    ensures var s, nameStart := gap + block + rest, |gap| + |m.begin|;
      var nameEnd := nameStart + |m.name|;
      && nameEnd + |m.dashes| <= |s| && s[..|gap|] == gap && s[|gap|..|gap| + |block|] == block &&
          Occurs(s, m.begin, |gap|)
      && s[nameStart..nameEnd] == m.name && s[nameStart..nameEnd + |m.dashes|] == m.name + m.dashes
  {
    hide Find;
    var s := gap + block + rest;
    var line := m.BeginLine();
    assert block[..|line|] == line;
    assert s[|gap|..|gap| + |line|] == line;
    SliceOfSlice(s, |gap|, |gap| + |line|, 0, |m.begin|);
    SliceOfSlice(s, |gap|, |gap| + |line|, |m.begin|, |m.name|);
    SliceOfSlice(s, |gap|, |gap| + |line|, |m.begin|, |m.name| + |m.dashes|);
    assert line[0..|m.begin|] == m.begin && line[|m.begin|..|m.begin| + |m.name|] == m.name;
    assert line[|m.begin|..|m.begin| + (|m.name| + |m.dashes|)] == m.name + m.dashes;
  }

  lemma GapHasNoBegin(gap: string, block: string, rest: string, m: Markers)
    requires m.Valid() && IsSpace(gap)
    ensures forall i: nat | i < |gap| :: !Occurs(gap + block + rest, m.begin, i)
  {
    var s := gap + block + rest;
    forall i: nat | i < |gap| ensures !Occurs(s, m.begin, i) {
      assert s[i] == gap[i];
      OccursFromFirst(s, m.begin, i);
    }
  }

  /** What is split off is the text: whitespace, block, whitespace, ..., block, whitespace. */
  lemma {:induction false} SplitHasShape(s: string, m: Markers) returns (gaps: seq<string>)
    requires m.Valid() && SplitPem(s, m).Blocks?
    ensures Shape(s, m, gaps, SplitPem(s, m).blocks)
    ensures SplitPem(s, m).blocks != [] ==> PlainLabel(m)
    decreases |s|
  {
    if FirstBlock(s, m).NoBlock? {
      gaps := [s];
      assert s[..|s|] == s;
    } else {
      var begin, end := FirstBlock(s, m).begin, FirstBlock(s, m).end;
      FirstBlockIsBlock(s, m);
      var rest := SplitHasShape(s[end..], m);
      gaps := [s[..begin]] + rest;
      ShapeExtends(s, begin, end, m, rest, SplitPem(s[end..], m).blocks);
    }
  }

  lemma ShapeExtends(s: string, begin: nat, end: nat, m: Markers, gaps: seq<string>, blocks: seq<string>)
    requires begin < end <= |s| && IsSpace(s[..begin]) && IsBlock(s[begin..end], m)
    requires Shape(s[end..], m, gaps, blocks)
    ensures Shape(s, m, [s[..begin]] + gaps, [s[begin..end]] + blocks)
  {
    hide IsBlock, IsSpace;
    var allGaps, allBlocks := [s[..begin]] + gaps, [s[begin..end]] + blocks;
    assert allGaps[1..] == gaps && allBlocks[1..] == blocks;
    assert s == s[..begin] + s[begin..end] + s[end..];
  }

  lemma SpaceHasNoBlock(s: string, m: Markers)
    requires m.Valid() && IsSpace(s)
    ensures FirstBlock(s, m) == NoBlock
  {
    hide Find;
    forall i: nat | i < |s| ensures !Occurs(s, m.begin, i) {
      OccursFromFirst(s, m.begin, i);
    }
    assert s[..|s|] == s;
  }

  lemma {:induction false} ShapeSplits(s: string, m: Markers, gaps: seq<string>, blocks: seq<string>)
    requires m.Valid() && Shape(s, m, gaps, blocks) && (blocks == [] || PlainLabel(m))
    ensures SplitPem(s, m) == Blocks(blocks)
    decreases |blocks|
  {
    hide FirstBlock, Find, IsBlock;
    if blocks == [] {
      SpaceHasNoBlock(s, m);
    } else {
      var rest := Weave(gaps[1..], blocks[1..]);
      BlockIsFirst(gaps[0], blocks[0], rest, m);
      var end := |gaps[0]| + |blocks[0]|;
      assert s[end..] == rest && s[|gaps[0]|..end] == blocks[0];
      ShapeSplits(rest, m, gaps[1..], blocks[1..]);
      assert blocks == [blocks[0]] + blocks[1..];
    }
  }

  /** SplitPemBlocks accepts exactly the texts of that shape, and gives their blocks. */
  lemma SplitExactly(s: string, m: Markers, blocks: seq<string>)
    requires m.Valid()
    ensures SplitPem(s, m) == Blocks(blocks) <==>
            (exists gaps :: Shape(s, m, gaps, blocks)) && (blocks == [] || PlainLabel(m))
  {
    if SplitPem(s, m) == Blocks(blocks) {
      var gaps := SplitHasShape(s, m);
      assert Shape(s, m, gaps, blocks);
    }
    if (exists gaps :: Shape(s, m, gaps, blocks)) && (blocks == [] || PlainLabel(m)) {
      var gaps :| Shape(s, m, gaps, blocks);
      ShapeSplits(s, m, gaps, blocks);
    }
  }

  /** A text of one block and the space after it. */
  lemma LoneBlockSplits(block: string, gap: string, m: Markers)
    requires m.Valid() && IsBlock(block, m) && PlainLabel(m) && IsSpace(gap)
    ensures SplitPem(block + gap, m) == Blocks([block])
  {
    hide IsBlock, PlainLabel, SplitPem;
    assert Weave([gap], []) == gap;
    assert ["", gap][1..] == [gap] && [block][1..] == [];
    assert Weave(["", gap], [block]) == "" + block + Weave([gap], []);
    assert Shape(block + gap, m, ["", gap], [block]);
    ShapeSplits(block + gap, m, ["", gap], [block]);
  }

  lemma DashFreeLabelIsPlain(name: string)
    requires '-' !in name
    ensures PlainLabel(PemMarkers(name))
  {
    var dashes := "-----";
    var s := name + dashes;
    forall i: nat | i < |name| ensures !Occurs(s, dashes, i) {
      assert s[i] == name[i];
      OccursFromFirst(s, dashes, i);
    }
    FoundAt(s, dashes, 0, |name|);
  }
}
