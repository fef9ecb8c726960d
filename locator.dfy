/**
  The block locator and the splice (main.ts:5-55). The children of the element
  handed to the post-processor are a sequence of sibling nodes; a paragraph
  whose text opens a block is the start of a scan over its later siblings, the
  scanned texts are matched against the block pattern, and on a match the
  walked run of siblings is replaced by the embed container.
*/
module Locator {
  import opened Wrappers
  import opened JsText
  import opened BlockPattern
  import MdcElement
  import Markdown

  /** A sibling element: one from the rendered note, known by its `textContent`,
      or an embed container put there by an earlier replacement. */
  datatype Node = Element(text: string) | Embedded(container: MdcElement.Container)

  /** `textContent`: an embed's text is its title followed by its content string;
      the browser's HTML parse of that string is not modelled. */
  function TextContent(n: Node): string {
    match n
    case Element(text) => text
    case Embedded(c) => c.title.GetOr("") + c.content.GetOr("")
  }

  /** The hook's test on a paragraph's text: it starts with `::` and contains `::`. */
  predicate Triggers(text: string) {
    |text| >= 2 && text[0] == ':' && text[1] == ':' && HasMarker(text)
  }

  /** The `includes('::')` half of the test adds nothing to the `startsWith('::')` half. */
  lemma TriggersOnPrefix(text: string)
    ensures Triggers(text) <==> |text| >= 2 && text[0] == ':' && text[1] == ':'
  {
    if |text| >= 2 && text[0] == ':' && text[1] == ':' {
      assert 0 < |text| - 1 && text[0] == ':' && text[0 + 1] == ':';
    }
  }

  /** The first sibling at or after `i` whose text contains `::`, or the last sibling. */
  function ScanFrom(nodes: seq<Node>, i: nat): (e: nat)
    requires 1 <= i <= |nodes|
    ensures i - 1 <= e < |nodes|
    ensures forall k :: i <= k < e ==> !HasMarker(TextContent(nodes[k]))
    ensures e == |nodes| - 1 || (i <= e && HasMarker(TextContent(nodes[e])))
    decreases |nodes| - i
  {
    if i == |nodes| then |nodes| - 1
    else if HasMarker(TextContent(nodes[i])) then i
    else ScanFrom(nodes, i + 1)
  }

  /** The last sibling `getFullBlockText` reads from the start `s`: the first later
      sibling whose text contains `::`, or the last sibling when there is none. The
      start itself never ends the scan. */
  function ScanEnd(nodes: seq<Node>, s: nat): (e: nat)
    requires s < |nodes|
    ensures s <= e < |nodes|
    ensures forall k :: s < k < e ==> !HasMarker(TextContent(nodes[k]))
    ensures e == |nodes| - 1 || (s < e && HasMarker(TextContent(nodes[e])))
  {
    ScanFrom(nodes, s + 1)
  }

  /** One step of a walk from the start that has not passed the scan's end: a later
      sibling holding `::` is the end, and at the end the walk stops. */
  lemma ScanStep(nodes: seq<Node>, s: nat, i: nat)
    requires s < |nodes| && s <= i <= ScanEnd(nodes, s)
    ensures HasMarker(TextContent(nodes[i])) && i != s ==> i == ScanEnd(nodes, s)
    ensures i == ScanEnd(nodes, s) ==> i + 1 == |nodes| || (HasMarker(TextContent(nodes[i])) && i != s)
  {
  }

  /** The texts of the siblings in `[s, e)`. */
  function Texts(nodes: seq<Node>, s: nat, e: nat): (ts: seq<string>)
    requires s <= e <= |nodes|
    ensures |ts| == e - s
    ensures forall k :: 0 <= k < e - s ==> ts[k] == TextContent(nodes[s + k])
  {
    seq(e - s, k requires 0 <= k < e - s => TextContent(nodes[s + k]))
  }

  /** The accumulator `text` after one `text += t + '\n'` per text. */
  function Accumulate(texts: seq<string>): string {
    if |texts| == 0 then ""
    else Accumulate(texts[..|texts| - 1]) + texts[|texts| - 1] + "\n"
  }

  /** The texts of the scanned run. */
  function RunTexts(nodes: seq<Node>, s: nat): seq<string>
    requires s < |nodes|
  {
    Texts(nodes, s, ScanEnd(nodes, s) + 1)
  }

  /** `getFullBlockText(start)`: the scanned texts, each followed by a line break, trimmed. */
  function BlockText(nodes: seq<Node>, s: nat): string
    requires s < |nodes|
  {
    Trim(Accumulate(RunTexts(nodes, s)))
  }

  /** The number of siblings the walk of `replaceBlockElements` pushes: the scanned
      run, cut short after `limit` siblings. */
  function RunLength(nodes: seq<Node>, s: nat, limit: nat): (r: nat)
    requires s < |nodes|
    ensures r <= limit && r <= ScanEnd(nodes, s) - s + 1
    ensures r == limit || r == ScanEnd(nodes, s) - s + 1
  {
    if ScanEnd(nodes, s) - s + 1 <= limit then ScanEnd(nodes, s) - s + 1 else limit
  }

  /** `insertBefore` of the container before the start, then `remove` of the `r`
      siblings from the start on. */
  function Splice(nodes: seq<Node>, s: nat, r: nat, c: MdcElement.Container): seq<Node>
    requires s + r <= |nodes|
  {
    nodes[..s] + [Embedded(c)] + nodes[s + r..]
  }

  /** The container `createMdcElement` builds from the body of the match. */
  function Replacement(nodes: seq<Node>, s: nat): MdcElement.Container
    requires s < |nodes| && MatchBlock(BlockText(nodes, s)).Some?
  {
    var text := BlockText(nodes, s);
    MdcElement.Embed(Content(text, MatchBlock(text).value))
  }

  /** How many siblings `replaceBlockElements` removes: the walk is bounded by the
      number of lines of the block text. */
  function Removed(nodes: seq<Node>, s: nat): (r: nat)
    requires s < |nodes|
    ensures 1 <= r <= ScanEnd(nodes, s) - s + 1
  {
    RunLength(nodes, s, |Split(BlockText(nodes, s), '\n')|)
  }

  /** `processMdcBlock(start)`: the siblings once the block at `s` has been handled,
      where `c` is the container built for the match. The splice does not look
      into the container, so the lemmas below hold for any `c`. */
  function ProcessWith(nodes: seq<Node>, s: nat, c: MdcElement.Container): seq<Node>
    requires s < |nodes|
  {
    if MatchBlock(BlockText(nodes, s)).None? then nodes
    else Splice(nodes, s, Removed(nodes, s), c)
  }

  /** One more sibling read. */
  lemma TextsStep(nodes: seq<Node>, s: nat, i: nat)
    requires s <= i < |nodes|
    ensures Accumulate(Texts(nodes, s, i + 1)) == Accumulate(Texts(nodes, s, i)) + TextContent(nodes[i]) + "\n"
  {
    assert Texts(nodes, s, i + 1)[..i - s] == Texts(nodes, s, i);
  }

  /** The accumulator is the texts joined by line breaks, with one more break at the end. */
  lemma {:induction false} AccumulateJoin(texts: seq<string>)
    requires |texts| >= 1
    ensures Accumulate(texts) == Join(texts, '\n') + "\n"
  {
    var n := |texts|;
    if n == 1 {
      assert Accumulate(texts) == "" + texts[0] + "\n";
    } else {
      var init := texts[..n - 1];
      AccumulateJoin(init);
      JoinAt(texts, n - 2, '\n');
      assert texts[..n - 2 + 1] == init;
      assert texts[n - 2 + 1..] == [texts[n - 1]];
    }
  }

  /** The scanned texts joined by line breaks and trimmed: the trailing break that the
      loop appends is trimmed away. */
  lemma BlockTextJoin(nodes: seq<Node>, s: nat)
    requires s < |nodes|
    ensures BlockText(nodes, s) == Trim(Join(RunTexts(nodes, s), '\n'))
  {
    AccumulateJoin(RunTexts(nodes, s));
    TrimNewline(Join(RunTexts(nodes, s), '\n'));
  }

  /** Every text read puts a line break into the accumulator. */
  lemma {:induction false} AccumulateCount(texts: seq<string>)
    ensures Count(Accumulate(texts), '\n') >= |texts|
  {
    if |texts| > 0 {
      var init := texts[..|texts| - 1];
      AccumulateCount(init);
      CountAppend(Accumulate(init), texts[|texts| - 1], '\n');
      CountAppend(Accumulate(init) + texts[|texts| - 1], "\n", '\n');
    }
  }

  /** The accumulator starts with the first text's first character. */
  lemma {:induction false} AccumulateHead(texts: seq<string>)
    requires |texts| >= 1 && |texts[0]| >= 1
    ensures |Accumulate(texts)| >= 1 && Accumulate(texts)[0] == texts[0][0]
  {
    var init := texts[..|texts| - 1];
    if |texts| > 1 {
      assert init[0] == texts[0];
      AccumulateHead(init);
    } else {
      assert Accumulate(texts) == "" + texts[0] + "\n";
    }
  }

  /** The last text read is not all white space, so trimming the accumulator's end
      stops inside it and keeps every break the earlier texts put in. */
  lemma AccumulateTrimEnd(init: seq<string>, last: string)
    requires !AllSpace(last)
    ensures Count(TrimEnd(Accumulate(init + [last])), '\n') >= |init|
  {
    var texts := init + [last];
    assert texts[..|texts| - 1] == init;
    var a := Accumulate(init);
    assert Accumulate(texts) == a + (last + "\n");
    AccumulateCount(init);
    assert !AllSpace(last + "\n") by {
      var k :| 0 <= k < |last| && !IsSpace(last[k]);
      assert (last + "\n")[k] == last[k];
    }
    TrimEndAppend(a, last + "\n");
    CountAppend(a, TrimEnd(last + "\n"), '\n');
  }

  /** When the first text does not begin with white space and the last is not all
      white space, trimming keeps every break between two texts. */
  lemma AccumulateLines(texts: seq<string>)
    requires |texts| >= 2 && |texts[0]| >= 1 && !IsSpace(texts[0][0])
    requires !AllSpace(texts[|texts| - 1])
    ensures |Split(Trim(Accumulate(texts)), '\n')| >= |texts|
  {
    var n := |texts|;
    var init := texts[..n - 1];
    assert texts == init + [texts[n - 1]];
    AccumulateTrimEnd(init, texts[n - 1]);
    AccumulateHead(texts);
    assert TrimStart(Accumulate(texts)) == Accumulate(texts);
  }

  /** When the start's text does not begin with white space and the last text read
      is not all white space, the block text has at least as many lines as siblings
      were read. */
  lemma LinesCoverRun(nodes: seq<Node>, s: nat)
    requires s < |nodes| && ScanEnd(nodes, s) > s
    requires |TextContent(nodes[s])| >= 1 && !IsSpace(TextContent(nodes[s])[0])
    requires !AllSpace(TextContent(nodes[ScanEnd(nodes, s)]))
    ensures |Split(BlockText(nodes, s), '\n')| >= ScanEnd(nodes, s) - s + 1
  {
    var texts := RunTexts(nodes, s);
    assert texts[0] == TextContent(nodes[s]);
    assert texts[|texts| - 1] == TextContent(nodes[ScanEnd(nodes, s)]);
    AccumulateLines(texts);
  }

  /** A text holding `::` is not all white space. */
  lemma MarkerNotSpace(text: string)
    requires HasMarker(text)
    ensures !AllSpace(text)
  {
    var i :| 0 <= i < |text| - 1 && text[i] == ':' && text[i + 1] == ':';
    assert !IsSpace(text[i]);
  }

  /** No match, no change; and a match always replaces the start paragraph. */
  lemma NoMatchNoChange(nodes: seq<Node>, s: nat, c: MdcElement.Container)
    requires s < |nodes| && nodes[s].Element?
    ensures MatchBlock(BlockText(nodes, s)).None? <==> ProcessWith(nodes, s, c) == nodes
  {
    if MatchBlock(BlockText(nodes, s)).Some? {
      SpliceShape(nodes, s, Removed(nodes, s), c);
      assert ProcessWith(nodes, s, c)[s] != nodes[s];
    }
  }

  /** The splice keeps what comes before the start and after the removed run. */
  lemma SpliceShape(nodes: seq<Node>, s: nat, r: nat, c: MdcElement.Container)
    requires s + r <= |nodes|
    ensures var p := Splice(nodes, s, r, c);
      && |p| == |nodes| - r + 1
      && p[..s] == nodes[..s] && p[s] == Embedded(c) && p[s + 1..] == nodes[s + r..]
  {
    var p := Splice(nodes, s, r, c);
    assert p[..s] == nodes[..s];
    assert p[s + 1..] == nodes[s + r..];
  }

  /** On a match, the container goes in right before the start sibling and a run of
      siblings from the start on, no longer than the scanned run, is removed; the
      siblings before the start and after the run are kept in order. */
  lemma ProcessSplices(nodes: seq<Node>, s: nat, c: MdcElement.Container)
    requires s < |nodes| && MatchBlock(BlockText(nodes, s)).Some?
    ensures |ProcessWith(nodes, s, c)| == |nodes| - Removed(nodes, s) + 1
    ensures ProcessWith(nodes, s, c)[..s] == nodes[..s]
    ensures ProcessWith(nodes, s, c)[s] == Embedded(c)
    ensures ProcessWith(nodes, s, c)[s + 1..] == nodes[s + Removed(nodes, s)..]
  {
    SpliceShape(nodes, s, Removed(nodes, s), c);
  }

  /** When a later sibling holding `::` ends the scan and the start's text begins with
      `::`, the walk removes exactly the siblings the scan read. */
  lemma SpliceRemovesScanRun(nodes: seq<Node>, s: nat)
    requires s < |nodes| && |TextContent(nodes[s])| >= 2
    requires TextContent(nodes[s])[0] == ':' && TextContent(nodes[s])[1] == ':'
    requires ScanEnd(nodes, s) > s && HasMarker(TextContent(nodes[ScanEnd(nodes, s)]))
    ensures Removed(nodes, s) == ScanEnd(nodes, s) - s + 1
  {
    MarkerNotSpace(TextContent(nodes[ScanEnd(nodes, s)]));
    LinesCoverRun(nodes, s);
  }

  /** The siblings the walk of `replaceBlockElements` should remove: from the start
      through the sibling whose text holds the end of the match's closing `::` line,
      counted as the fewest siblings, at least `r`, whose accumulated texts reach `x`. */
  function CoverFrom(texts: seq<string>, x: nat, r: nat): (c: nat)
    requires 1 <= r <= |texts| && x <= |Accumulate(texts)|
    ensures r <= c <= |texts| && x <= |Accumulate(texts[..c])|
    ensures forall k :: r <= k < c ==> |Accumulate(texts[..k])| < x
    decreases |texts| - r
  {
    if r == |texts| then
      assert texts[..r] == texts; r
    else if x <= |Accumulate(texts[..r])| then r
    else CoverFrom(texts, x, r + 1)
  }

  /** Where the match ends in the accumulator: the white space `trim` removed from
      the front, then the end of the closing line. */
  function MatchEnd(nodes: seq<Node>, s: nat): (x: nat)
    requires s < |nodes| && MatchBlock(BlockText(nodes, s)).Some?
    ensures x <= |Accumulate(RunTexts(nodes, s))|
  {
    var acc := Accumulate(RunTexts(nodes, s));
    TrimShape(acc);
    |acc| - |TrimStart(acc)| + MatchBlock(BlockText(nodes, s)).value.close + 3
  }

  /** The number of siblings that hold the matched block: the run from the start up
      to the sibling where the match ends. */
  function CoverRun(nodes: seq<Node>, s: nat): (r: nat)
    requires s < |nodes| && MatchBlock(BlockText(nodes, s)).Some?
    ensures 1 <= r <= ScanEnd(nodes, s) - s + 1
    ensures MatchEnd(nodes, s) <= |Accumulate(RunTexts(nodes, s)[..r])|
    ensures r > 1 ==> |Accumulate(RunTexts(nodes, s)[..r - 1])| < MatchEnd(nodes, s)
  {
    CoverFrom(RunTexts(nodes, s), MatchEnd(nodes, s), 1)
  }

  /** `processMdcBlock` with the walk bounded by the match rather than by the line count. */
  function ProcessCovering(nodes: seq<Node>, s: nat, c: MdcElement.Container): seq<Node>
    requires s < |nodes|
  {
    if MatchBlock(BlockText(nodes, s)).None? then nodes
    else Splice(nodes, s, CoverRun(nodes, s), c)
  }

  /** The two siblings `a` and `after`, where `a` opens with `::` and holds a whole
      block, and `after` is a paragraph of text without `::`. */
  function Pair(a: string, after: string): seq<Node> {
    [Element(a), Element(after)]
  }

  /** The scan reads both siblings and the block text begins with `a` as it is. */
  lemma PairScan(a: string, after: string)
    requires |a| >= 2 && a[0] == ':' && a[1] == ':' && !HasMarker(after)
    ensures ScanEnd(Pair(a, after), 0) == 1
    ensures RunTexts(Pair(a, after), 0)[..1] == [a]
    ensures TrimStart(Accumulate(RunTexts(Pair(a, after), 0))) == Accumulate(RunTexts(Pair(a, after), 0))
  {
    var texts := RunTexts(Pair(a, after), 0);
    assert texts == [a, after];
    assert texts[..1] == [a];
    AccumulateHead(texts);
  }

  /** As written, a paragraph that follows a block held in one paragraph is removed
      with it, although the match ends before it. */
  lemma AfterSiblingRemoved(a: string, after: string, c: MdcElement.Container)
    requires |a| >= 2 && a[0] == ':' && a[1] == ':' && !HasMarker(after) && !AllSpace(after)
    requires MatchBlock(BlockText(Pair(a, after), 0)).Some?
    requires MatchBlock(BlockText(Pair(a, after), 0)).value.close + 3 <= |a|
    ensures Removed(Pair(a, after), 0) == 2
    ensures ProcessWith(Pair(a, after), 0, c) == [Embedded(c)]
  {
    var nodes := Pair(a, after);
    PairScan(a, after);
    LinesCoverRun(nodes, 0);
    assert nodes[2..] == [];
  }

  /** Bounded by the match, the walk removes the block's paragraph only and the next
      paragraph stays. */
  lemma AfterSiblingKept(a: string, after: string, c: MdcElement.Container)
    requires |a| >= 2 && a[0] == ':' && a[1] == ':' && !HasMarker(after) && !AllSpace(after)
    requires MatchBlock(BlockText(Pair(a, after), 0)).Some?
    requires MatchBlock(BlockText(Pair(a, after), 0)).value.close + 3 <= |a|
    ensures CoverRun(Pair(a, after), 0) == 1
    ensures ProcessCovering(Pair(a, after), 0, c) == [Embedded(c), Element(after)]
  {
    var nodes := Pair(a, after);
    PairScan(a, after);
    assert Accumulate([a]) == "" + a + "\n";
    assert nodes[1..] == [Element(after)];
  }

  /** The block text of a pair whose first paragraph starts with `::`: both texts
      joined by a line break, with the white space at the end of `after` trimmed. */
  lemma PairBlockText(a: string, after: string)
    requires |a| >= 2 && a[0] == ':' && a[1] == ':' && !HasMarker(after) && !AllSpace(after)
    ensures BlockText(Pair(a, after), 0) == a + "\n" + TrimEnd(after + "\n")
  {
    var texts := RunTexts(Pair(a, after), 0);
    PairScan(a, after);
    assert texts == [a, after];
    assert texts[..1] == [a];
    assert Accumulate([a]) == "" + a + "\n";
    var acc := Accumulate(texts);
    assert acc == (a + "\n") + (after + "\n");
    assert !AllSpace(after + "\n") by {
      var k :| 0 <= k < |after| && !IsSpace(after[k]);
      assert (after + "\n")[k] == after[k];
    }
    TrimEndAppend(a + "\n", after + "\n");
  }

  /** The three-line paragraph `::w`, `y`, `::` opens and closes a block within
      itself when the tag `w` is a run of word characters and the line `y` starts
      with a non-space: followed by a paragraph `after`, the block text matches and
      the match ends inside the first paragraph. */
  lemma OneParagraphBlock(w: string, y: string, after: string)
    requires |w| > 0 && forall k :: 0 <= k < |w| ==> IsWordChar(w[k])
    requires |y| > 0 && !IsSpace(y[0]) && forall k :: 0 <= k < |y| ==> !IsLineTerminator(y[k])
    requires !HasMarker(after) && !AllSpace(after)
    ensures var a := "::" + w + "\n" + y + "\n::";
      && MatchBlock(BlockText(Pair(a, after), 0)).Some?
      && MatchBlock(BlockText(Pair(a, after), 0)).value.close + 3 <= |a|
  {
    var a := "::" + w + "\n" + y + "\n::";
    var q := 2 + |w|;
    var b := q + 1 + |y|;
    PairBlockText(a, after);
    var t := BlockText(Pair(a, after), 0);
    assert |a| == b + 3 && t[..b + 4] == a + "\n";
    assert t[0] == ':' && t[1] == ':';
    assert forall k :: 2 <= k < q ==> t[k] == w[k - 2];
    assert t[q] == '\n' && t[q + 1] == y[0];
    assert t[b] == '\n' && t[b + 1] == ':' && t[b + 2] == ':' && t[b + 3] == '\n';
    assert IsMatch(t, 0, q, q, b);
    var m := MatchBlock(t).value;
    assert Before(m, 0, q, q, b);
    assert m.newline == q;
  }

  /** The discrepancy on a family of inputs: a block held in one paragraph and a
      plain paragraph after it. As written, both paragraphs are removed; bounded by
      the match, the second one stays. */
  lemma BlockThenParagraph(w: string, y: string, after: string, c: MdcElement.Container)
    requires |w| > 0 && forall k :: 0 <= k < |w| ==> IsWordChar(w[k])
    requires |y| > 0 && !IsSpace(y[0]) && forall k :: 0 <= k < |y| ==> !IsLineTerminator(y[k])
    requires !HasMarker(after) && !AllSpace(after)
    ensures var a := "::" + w + "\n" + y + "\n::";
      && ProcessWith(Pair(a, after), 0, c) == [Embedded(c)]
      && ProcessCovering(Pair(a, after), 0, c) == [Embedded(c), Element(after)]
  {
    var a := "::" + w + "\n" + y + "\n::";
    OneParagraphBlock(w, y, after);
    AfterSiblingRemoved(a, after, c);
    AfterSiblingKept(a, after, c);
  }

  /** The block text of a lone paragraph without white space at its ends is its text. */
  lemma SingleBlockText(a: string)
    requires |a| > 0 && !IsSpace(a[0]) && !IsSpace(a[|a| - 1])
    ensures BlockText([Element(a)], 0) == a
  {
    var nodes := [Element(a)];
    assert ScanEnd(nodes, 0) == 0;
    var texts := RunTexts(nodes, 0);
    assert texts == [a];
    assert Accumulate(texts) == a + "\n" by {
      assert texts[..0] == [];
    }
    TrimNewline(a);
    TrimKeeps(a);
  }

  /** A paragraph that opens with `::` and ends with a non-space, alone among its
      siblings: the hook tests it, the scan reads it alone, its text is the block
      text, and a match replaces it by the container. */
  lemma SingleParagraph(a: string, c: MdcElement.Container)
    requires |a| >= 2 && a[0] == ':' && a[1] == ':' && !IsSpace(a[|a| - 1])
    ensures Triggers(TextContent(Element(a)))
    ensures BlockText([Element(a)], 0) == a
    ensures MatchBlock(a).Some? ==> ProcessWith([Element(a)], 0, c) == [Embedded(c)]
  {
    var nodes := [Element(a)];
    TriggersOnPrefix(a);
    SingleBlockText(a);
    assert ScanEnd(nodes, 0) == 0;
    assert nodes[1..] == [];
  }

  /** The block source of a one-paragraph block is captured whole, and the
      container built from it replaces the paragraph. */
  lemma WholeBlockReplaced(w: string, src: string)
    requires |w| > 0 && forall k :: 0 <= k < |w| ==> IsWordChar(w[k])
    requires |src| > 0 && !IsSpace(src[0]) && NoMarkerLine(src)
    ensures var nodes := [Element("::" + w + "\n" + src + "\n::")];
      && Triggers(TextContent(nodes[0]))
      && MatchBlock(BlockText(nodes, 0)).Some?
      && Replacement(nodes, 0) == MdcElement.Embed(src)
      && ProcessWith(nodes, 0, Replacement(nodes, 0)) == [Embedded(MdcElement.Embed(src))]
  {
    var a := "::" + w + "\n" + src + "\n::";
    var nodes := [Element(a)];
    CapturesSource(w, src);
    assert a[0] == ':' && a[1] == ':' && a[|a| - 1] == ':';
    SingleBlockText(a);
    ReplacementOf(nodes, a, src);
    SingleParagraph(a, Replacement(nodes, 0));
  }

  /** The container for a block text whose capture is `src` is built from `src`. */
  lemma ReplacementOf(nodes: seq<Node>, a: string, src: string)
    requires |nodes| > 0 && BlockText(nodes, 0) == a
    requires MatchBlock(a).Some? && Content(a, MatchBlock(a).value) == src
    ensures Replacement(nodes, 0) == MdcElement.Embed(src)
  {
  }

  /** The block source made of the one header line `title: "name"` and the body
      `**x**y` opens with a non-space and has no line starting with `::`, so it can
      stand between the lines `::w` and `::` of a one-paragraph block. */
  lemma TitledSourceShape(name: string, x: string, y: string)
    requires forall k :: 0 <= k < |name| ==> name[k] != '"' && name[k] != '\n'
    requires Markdown.Plain(x) && Markdown.Plain(y)
    ensures var src := "---\ntitle: \"" + name + "\"\n---\n**" + x + "**" + y;
      && |src| > 0 && !IsSpace(src[0]) && NoMarkerLine(src)
  {
    var line := "title: \"" + name + "\"";
    var body := "**" + x + "**" + y;
    var src := "---\n" + line + "\n---\n" + body;
    assert src == "---\ntitle: \"" + name + "\"\n---\n**" + x + "**" + y;
    FeedFreeLine(name);
    FeedFreeBody(x, y);
    var l := "\n" + line;
    var m := "\n---";
    var r := "\n" + body;
    FeedFreeMarkers("---");
    LeadingFeed(line);
    LeadingFeed("---");
    LeadingFeed(body);
    MarkerFreeJoin("---", l);
    assert ("---" + l)[|"---" + l| - 1] == line[|line| - 1];
    MarkerFreeJoin("---" + l, m);
    MarkerFreeJoin("---" + l + m, r);
    assert src == "---" + l + m + r;
  }

  /** The header line `title: "name"` holds no line feed. */
  lemma FeedFreeLine(name: string)
    requires forall k :: 0 <= k < |name| ==> name[k] != '"' && name[k] != '\n'
    ensures var line := "title: \"" + name + "\"";
      && NoFeed(line) && line[0] == 't' && line[|line| - 1] == '"'
  {
    var line := "title: \"" + name + "\"";
    forall k | 0 <= k < |line|
      ensures line[k] != '\n'
    {
      if 8 <= k < 8 + |name| {
        assert line[k] == name[k - 8];
      }
    }
  }

  /** The body `**x**y` holds no line feed when `x` and `y` are plain. */
  lemma FeedFreeBody(x: string, y: string)
    requires Markdown.Plain(x) && Markdown.Plain(y)
    ensures var body := "**" + x + "**" + y;
      && NoFeed(body) && body[0] == '*'
  {
    var body := "**" + x + "**" + y;
    forall k | 0 <= k < |body|
      ensures body[k] != '\n'
    {
      if 2 <= k < 2 + |x| {
        assert body[k] == x[k - 2];
      } else if 4 + |x| <= k {
        assert body[k] == y[k - 4 - |x|];
      }
    }
  }

  /** The siblings of one rendered section, updated in place by the post-processor. */
  class Fragment {
    var nodes: seq<Node>

    constructor(nodes: seq<Node>)
      ensures this.nodes == nodes
    {
      this.nodes := nodes;
    }

    /** `getFullBlockText(start)` for the sibling at `s`. */
    method GetFullBlockText(s: nat) returns (text: string)
      requires s < |nodes|
      ensures text == BlockText(nodes, s)
    {
      text := "";
      var i := s;
      ghost var e := ScanEnd(nodes, s);
      while i < |nodes|
        invariant s <= i <= e + 1
        invariant i == e + 1 ==> i == |nodes|
        invariant text == Accumulate(Texts(nodes, s, i))
      {
        var t := TextContent(nodes[i]);
        TextsStep(nodes, s, i);
        ScanStep(nodes, s, i);
        text := text + t + "\n";
        if HasMarker(t) && i != s {
          i := i + 1;
          break;
        }
        i := i + 1;
      }
      text := Trim(text);
    }

    /** `replaceBlockElements(start, replacement, blockText)`: the walk pushes
        siblings into `toRemove` while it has siblings and fewer than one per line of
        `blockText`, stopping after a later sibling holding `::`; then the container
        is inserted before the start and the pushed siblings are removed. */
    method ReplaceBlockElements(s: nat, replacement: MdcElement.Container, blockText: string)
      requires s < |nodes|
      modifies this
      ensures nodes == Splice(old(nodes), s, RunLength(old(nodes), s, |Split(blockText, '\n')|), replacement)
    {
      var lines := Split(blockText, '\n');
      var i := s;
      var toRemove: seq<Node> := [];
      var lineCount := 0;
      ghost var e := ScanEnd(nodes, s);
      while i < |nodes| && lineCount < |lines|
        invariant nodes == old(nodes) && e == ScanEnd(nodes, s)
        invariant s <= i <= e + 1
        invariant i == e + 1 ==> i == |nodes|
        invariant i == s + lineCount && lineCount <= |lines|
        invariant toRemove == nodes[s..i]
      {
        ScanStep(nodes, s, i);
        assert nodes[s..i + 1] == nodes[s..i] + [nodes[i]];
        toRemove := toRemove + [nodes[i]];
        lineCount := lineCount + 1;
        if HasMarker(TextContent(nodes[i])) && i != s {
          i := i + 1;
          break;
        }
        i := i + 1;
      }
      nodes := nodes[..s] + [Embedded(replacement)] + nodes[s + |toRemove|..];
    }

    /** `processMdcBlock(start)` for the sibling at `s`. */
    method ProcessMdcBlock(s: nat)
      requires s < |nodes|
      modifies this
      ensures MatchBlock(BlockText(old(nodes), s)).None? ==> nodes == old(nodes)
      ensures MatchBlock(BlockText(old(nodes), s)).Some? ==>
        nodes == ProcessWith(old(nodes), s, Replacement(old(nodes), s))
    {
      var fullText := GetFullBlockText(s);
      var found := MatchBlock(fullText);
      if found.Some? {
        var tag := Tag(fullText, found.value);
        var content := Content(fullText, found.value);
        var mdcEl := MdcElement.CreateMdcElement(tag, content);
        ReplaceBlockElements(s, mdcEl, fullText);
      }
    }

    /** The hook's visit of the paragraph at `s`. */
    method Visit(s: nat)
      requires s < |nodes|
      modifies this
      ensures !Triggers(TextContent(old(nodes)[s])) || MatchBlock(BlockText(old(nodes), s)).None? ==>
        nodes == old(nodes)
      ensures Triggers(TextContent(old(nodes)[s])) && MatchBlock(BlockText(old(nodes), s)).Some? ==>
        nodes == ProcessWith(old(nodes), s, Replacement(old(nodes), s))
    {
      var text := TextContent(nodes[s]);
      if |text| >= 2 && text[0] == ':' && text[1] == ':' && HasMarker(text) {
        ProcessMdcBlock(s);
      }
    }
  }

  /** The hook's visit of a section that is one paragraph holding a whole block:
      the line `::w`, a source `src` that starts with a non-space and has no line
      opening with `::`, and the line `::`. The paragraph is replaced by the
      container built from exactly `src`. */
  method VisitWholeBlock(w: string, src: string) returns (result: seq<Node>)
    requires |w| > 0 && forall k :: 0 <= k < |w| ==> IsWordChar(w[k])
    requires |src| > 0 && !IsSpace(src[0]) && NoMarkerLine(src)
    ensures result == [Embedded(MdcElement.Embed(src))]
  {
    var a := "::" + w + "\n" + src + "\n::";
    var f := new Fragment([Element(a)]);
    WholeBlockReplaced(w, src);
    f.Visit(0);
    result := f.nodes;
  }

  /** The block of the line `::note`, a front-matter header holding
      `title: "Hello World"`, the body `**bold** text` and the line `::`, alone in
      its section, becomes a container titled `Hello World` whose content is
      `<strong>bold</strong> text` (the strings are written as the pieces the
      general lemmas glue together). */
  method HelloWorldBlock() returns (result: seq<Node>)
    ensures result == [Embedded(MdcElement.Container(Some("Hello World"), Some("<strong>" + "bold" + "</strong>" + " text")))]
  {
    var src := "---\ntitle: \"" + "Hello World" + "\"\n---\n**" + "bold" + "**" + " text";
    TitledSourceShape("Hello World", "bold", " text");
    MdcElement.HelloWorldEmbed();
    result := VisitWholeBlock("note", src);
  }
}
