/** The document renderer's own logic: the notes text is cut into blank-line separated blocks,
    each block becomes either a bulleted list or one paragraph, and the result is the flat
    list of flowables that the page layout engine then typesets. */
module Layout {
  import opened Text

  /** One element of the flow handed to the layout engine. The constructor names the style:
      the title style, the indented bullet style, the normal body style, and a fixed
      1 x 6 point vertical gap. */
  datatype Flowable = Title(text: string) | Bullet(text: string) | Para(text: string) | Spacer

  /** Page geometry in millimetres. */
  datatype PageSetup = PageSetup(width: nat, height: nat, left: nat, right: nat, top: nat, bottom: nat)

  /** An A4 page (210 x 297 mm) with a 20 mm margin on every side. */
  const A4WithMargins: PageSetup := PageSetup(210, 297, 20, 20, 20, 20)

  /** What the document builder receives: where to write, the page setup and the flow. */
  datatype Document = Document(path: string, page: PageSetup, flow: seq<Flowable>)

  const BlockSeparator: string := "\n\n"

  predicate IsMarker(c: char) {
    c == '-' || c == '*' || c == ' '
  }

  predicate OnlyMarkers(s: string) {
    forall i | 0 <= i < |s| :: IsMarker(s[i])
  }

  /** `s.lstrip("-* ")`: `s` without its leading markers (characterised by
      `LStripMarkersFacts`). */
  function LStripMarkers(s: string): string
  {
    if s != [] && IsMarker(s[0]) then LStripMarkers(s[1..]) else s
  }

  lemma {:induction false} LStripMarkersFacts(s: string)
    ensures var r := LStripMarkers(s);
      && |r| <= |s| && r == s[|s| - |r|..]
      && OnlyMarkers(s[..|s| - |r|])
      && (r == [] || !IsMarker(r[0]))
  {
    if s != [] && IsMarker(s[0]) {
      LStripMarkersFacts(s[1..]);
      var r := LStripMarkers(s);
      assert s[..|s| - |r|] == [s[0]] + s[1..][..|s| - 1 - |r|];
    }
  }

  /** A line counts as a bullet when, stripped, it is blank or starts with `-` or `*`. */
  predicate IsBulletLine(line: string) {
    var s := Strip(line);
    s != [] ==> s[0] == '-' || s[0] == '*'
  }

  /** A block is a bulleted list when every non-blank line of it starts with a marker. */
  predicate IsBulletBlock(lines: seq<string>) {
    forall i | 0 <= i < |lines| :: IsBulletLine(lines[i])
  }

  /** The text of a list item: the line stripped, its leading markers and spaces removed, and
      stripped again. It is empty exactly when the stripped line holds nothing but markers. */
  function BulletText(line: string): (r: string)
    ensures IsTrimmed(r)
    ensures r == [] <==> OnlyMarkers(Strip(line))
  {
    var s := Strip(line);
    var m := LStripMarkers(s);
    BulletTextEmpty(s, m);
    Strip(m)
  }

  lemma BulletTextEmpty(s: string, m: string)
    requires IsTrimmed(s) && m == LStripMarkers(s)
    ensures Strip(m) == [] <==> OnlyMarkers(s)
  {
    LStripMarkersFacts(s);
    if m != [] {
      assert m[|m| - 1] == s[|s| - 1];
      assert !IsSpace(m[|m| - 1]);
      assert !AllSpace(m);
      assert !IsMarker(s[|s| - |m|]);
    } else {
      assert s[..|s|] == s;
    }
  }

  /** The list items a line contributes: one for a non-blank line, none for a blank one. */
  function LineItems(line: string): seq<Flowable> {
    if Strip(line) != [] then [Bullet(BulletText(line))] else []
  }

  function BulletItems(lines: seq<string>): seq<Flowable> {
    if lines == [] then []
    else BulletItems(lines[..|lines| - 1]) + LineItems(lines[|lines| - 1])
  }

  /** The flow of one block: its list items and a spacer, or its one paragraph, line breaks
      turned into break tags, and a spacer. */
  function BlockFlow(block: string): seq<Flowable> {
    var lines := SplitLines(block);
    if IsBulletBlock(lines) then BulletItems(lines) + [Spacer]
    else [Para(ReplaceLineFeeds(block)), Spacer]
  }

  function BlocksFlow(blocks: seq<string>): seq<Flowable> {
    if blocks == [] then []
    else BlocksFlow(blocks[..|blocks| - 1]) + BlockFlow(blocks[|blocks| - 1])
  }

  /** The whole flow: the title, a spacer, then the flow of every block in order. */
  function Flow(title: string, notes: string): seq<Flowable> {
    [Title(title), Spacer] + BlocksFlow(Split(notes, BlockSeparator))
  }

  /** Builds the document as the source does, appending to the flow block by block. Writing
      the file is left to the layout engine. */
  method CreatePdfFromNotes(title: string, notes: string, outputPath: string)
    returns (doc: Document)
    ensures doc.path == outputPath && doc.page == A4WithMargins
    ensures doc.flow == Flow(title, notes)
  {
    var flow: seq<Flowable> := [];
    flow := flow + [Title(title)];
    flow := flow + [Spacer];
    var parts := Split(notes, BlockSeparator);
    for k := 0 to |parts|
      invariant flow == [Title(title), Spacer] + BlocksFlow(parts[..k])
    {
      BlocksFlowStep(parts, k);
      AppendAssociative([Title(title), Spacer], BlocksFlow(parts[..k]), BlockFlow(parts[k]));
      flow := AppendBlock(flow, parts[k]);
    }
    assert parts[..|parts|] == parts;
    doc := Document(outputPath, A4WithMargins, flow);
  }

  lemma AppendAssociative<T>(a: seq<T>, b: seq<T>, c: seq<T>)
    ensures (a + b) + c == a + (b + c)
  {
  }

  lemma BlocksFlowStep(blocks: seq<string>, k: nat)
    requires k < |blocks|
    ensures BlocksFlow(blocks[..k + 1]) == BlocksFlow(blocks[..k]) + BlockFlow(blocks[k])
  {
    assert blocks[..k + 1][..k] == blocks[..k];
  }

  lemma BulletItemsStep(lines: seq<string>, i: nat)
    requires i < |lines|
    ensures BulletItems(lines[..i + 1]) == BulletItems(lines[..i]) + LineItems(lines[i])
  {
    assert lines[..i + 1][..i] == lines[..i];
  }

  /** One turn of the loop over blocks: a bulleted block appends its items line by line and
      then a spacer, any other block its paragraph and a spacer. */
  method AppendBlock(flow: seq<Flowable>, p: string) returns (out: seq<Flowable>)
    ensures out == flow + BlockFlow(p)
  {
    out := flow;
    var lines := SplitLines(p);
    if IsBulletBlock(lines) {
      for i := 0 to |lines|
        invariant out == flow + BulletItems(lines[..i])
      {
        BulletItemsStep(lines, i);
        ghost var before := out;
        if Strip(lines[i]) != [] {
          out := out + [Bullet(Strip(LStripMarkers(Strip(lines[i]))))];
        }
        assert out == before + LineItems(lines[i]);
        AppendAssociative(flow, BulletItems(lines[..i]), LineItems(lines[i]));
      }
      assert lines[..|lines|] == lines;
      AppendAssociative(flow, BulletItems(lines), [Spacer]);
      out := out + [Spacer];
    } else {
      out := out + [Para(ReplaceLineFeeds(p))];
      out := out + [Spacer];
      assert out == flow + [Para(ReplaceLineFeeds(p)), Spacer];
    }
  }

  /** The flow starts with the title and one spacer. */
  lemma FlowStart(title: string, notes: string)
    ensures |Flow(title, notes)| >= 2
    ensures Flow(title, notes)[0] == Title(title) && Flow(title, notes)[1] == Spacer
  {
  }

  /** The list items of a bulleted block: one per non-blank line, in order, each the bullet
      text of that line once stripped. */
  lemma {:induction false} BulletItemsAt(lines: seq<string>)
    ensures |BulletItems(lines)| == |NonBlankStripped(lines)|
    ensures forall i | 0 <= i < |BulletItems(lines)| ::
      BulletItems(lines)[i] == Bullet(BulletText(NonBlankStripped(lines)[i]))
  {
    if lines != [] {
      var init := lines[..|lines| - 1];
      var last := lines[|lines| - 1];
      BulletItemsAt(init);
      StripIdempotent(last);
      var a, b := BulletItems(init), LineItems(last);
      var na := NonBlankStripped(init);
      var nb := if Strip(last) != [] then [Strip(last)] else [];
      assert BulletItems(lines) == a + b;
      assert NonBlankStripped(lines) == na + nb;
      assert |b| == |nb|;
      assert b != [] ==> b[0] == Bullet(BulletText(nb[0]));
    }
  }

  /** Number of list items plus one spacer for a bulleted block; one paragraph plus one spacer
      otherwise. */
  function BlockSize(block: string): nat {
    var lines := SplitLines(block);
    (if IsBulletBlock(lines) then |NonBlankStripped(lines)| else 1) + 1
  }

  function TotalSize(blocks: seq<string>): nat {
    if blocks == [] then 0 else TotalSize(blocks[..|blocks| - 1]) + BlockSize(blocks[|blocks| - 1])
  }

  /** The shape of one block's flow: it ends with its only spacer; a bulleted block yields one
      list item per non-blank line before it, any other block exactly one paragraph whose text
      holds no line feed. */
  lemma BlockFlowShape(block: string)
    ensures var f := BlockFlow(block);
      && |f| == BlockSize(block)
      && f[|f| - 1] == Spacer
      && (forall i | 0 <= i < |f| - 1 :: !f[i].Spacer? && !f[i].Title?)
      && (IsBulletBlock(SplitLines(block)) <==> forall i | 0 <= i < |f| - 1 :: f[i].Bullet?)
      && (!IsBulletBlock(SplitLines(block)) ==>
            |f| == 2 && f[0] == Para(ReplaceLineFeeds(block)) && '\n' !in f[0].text)
      && (forall i | 0 <= i < |f| - 1 :: f[i].Bullet? ==> IsTrimmed(f[i].text))
  {
    var lines := SplitLines(block);
    var f := BlockFlow(block);
    if IsBulletBlock(lines) {
      var items := BulletItems(lines);
      BulletItemsAt(lines);
      assert f == items + [Spacer];
      assert forall i | 0 <= i < |f| - 1 :: f[i] == items[i];
    } else {
      assert f == [Para(ReplaceLineFeeds(block)), Spacer];
      assert !f[0].Bullet?;
    }
  }

  /** A block without a non-blank line is a (vacuously) bulleted block and adds only a spacer. */
  lemma BlankBlockFlow(block: string)
    requires forall i | 0 <= i < |SplitLines(block)| :: Strip(SplitLines(block)[i]) == []
    ensures BlockFlow(block) == [Spacer]
  {
    var lines := SplitLines(block);
    BulletItemsAt(lines);
    assert |NonBlankStripped(lines)| == 0 by {
      BlankLinesVanish(lines);
    }
  }

  lemma {:induction false} BlankLinesVanish(lines: seq<string>)
    requires forall i | 0 <= i < |lines| :: Strip(lines[i]) == []
    ensures NonBlankStripped(lines) == []
  {
    if lines != [] {
      BlankLinesVanish(lines[..|lines| - 1]);
    }
  }

  /** The length of the flow: two for the title and its spacer, then for every block its item
      count and one spacer. */
  lemma {:induction false} BlocksFlowSize(blocks: seq<string>)
    ensures |BlocksFlow(blocks)| == TotalSize(blocks)
  {
    if blocks != [] {
      BlocksFlowSize(blocks[..|blocks| - 1]);
      BlockFlowShape(blocks[|blocks| - 1]);
    }
  }

  lemma FlowSize(title: string, notes: string)
    ensures |Flow(title, notes)| == 2 + TotalSize(Split(notes, BlockSeparator))
  {
    BlocksFlowSize(Split(notes, BlockSeparator));
  }

  function SpacerCount(flow: seq<Flowable>): nat {
    if flow == [] then 0
    else SpacerCount(flow[..|flow| - 1]) + (if flow[|flow| - 1].Spacer? then 1 else 0)
  }

  lemma {:induction false} SpacerCountAppend(a: seq<Flowable>, b: seq<Flowable>)
    ensures SpacerCount(a + b) == SpacerCount(a) + SpacerCount(b)
    decreases |b|
  {
    if b != [] {
      var init := b[..|b| - 1];
      assert (a + b)[..|a + b| - 1] == a + init;
      SpacerCountAppend(a, init);
    } else {
      assert a + b == a;
    }
  }

  lemma {:induction false} SpacersOfBlock(block: string)
    ensures SpacerCount(BlockFlow(block)) == 1
  {
    var f := BlockFlow(block);
    BlockFlowShape(block);
    NoSpacers(f[..|f| - 1]);
    assert f == f[..|f| - 1] + [Spacer];
    SpacerCountAppend(f[..|f| - 1], [Spacer]);
    assert SpacerCount([Spacer]) == SpacerCount([]) + 1 by {
      assert [Spacer][..0] == [];
    }
  }

  lemma {:induction false} NoSpacers(f: seq<Flowable>)
    requires forall i | 0 <= i < |f| :: !f[i].Spacer?
    ensures SpacerCount(f) == 0
  {
    if f != [] {
      NoSpacers(f[..|f| - 1]);
    }
  }

  /** Every block contributes exactly one spacer, and the title one more: the flow can be cut
      back into its blocks at the spacers. */
  lemma {:induction false} BlocksSpacerCount(blocks: seq<string>)
    ensures SpacerCount(BlocksFlow(blocks)) == |blocks|
  {
    if blocks != [] {
      var init := blocks[..|blocks| - 1];
      BlocksSpacerCount(init);
      SpacerCountAppend(BlocksFlow(init), BlockFlow(blocks[|blocks| - 1]));
      SpacersOfBlock(blocks[|blocks| - 1]);
    }
  }

  lemma FlowSpacers(title: string, notes: string)
    ensures SpacerCount(Flow(title, notes)) == Count(notes, BlockSeparator) + 2
  {
    var blocks := Split(notes, BlockSeparator);
    BlocksSpacerCount(blocks);
    SplitCount(notes, BlockSeparator);
    SpacerCountAppend([Title(title)], [Spacer]);
    SpacerCountAppend([Title(title), Spacer], BlocksFlow(blocks));
    assert SpacerCount([Title(title)]) == 0 by {
      assert [Title(title)][..0] == [];
    }
    assert SpacerCount([Spacer]) == 1 by {
      assert [Spacer][..0] == [];
    }
    assert [Title(title)] + [Spacer] == [Title(title), Spacer];
  }

  /** What every element after the title satisfies: it is not a title, a paragraph holds no
      line feed and a list item is trimmed. */
  predicate BodyItem(x: Flowable) {
    && !x.Title?
    && (x.Para? ==> '\n' !in x.text)
    && (x.Bullet? ==> IsTrimmed(x.text))
  }

  lemma BlockFlowItems(block: string)
    ensures var f := BlockFlow(block);
      f != [] && f[|f| - 1] == Spacer && forall i | 0 <= i < |f| :: BodyItem(f[i])
  {
    BlockFlowShape(block);
  }

  /** The flow of the blocks ends with a spacer when there is a block, and holds only body
      items. */
  lemma {:induction false} BlocksFlowItems(blocks: seq<string>)
    ensures var f := BlocksFlow(blocks);
      && (blocks != [] ==> f != [] && f[|f| - 1] == Spacer)
      && forall i | 0 <= i < |f| :: BodyItem(f[i])
  {
    if blocks != [] {
      var init := blocks[..|blocks| - 1];
      BlocksFlowItems(init);
      BlockFlowItems(blocks[|blocks| - 1]);
      var a := BlocksFlow(init);
      var b := BlockFlow(blocks[|blocks| - 1]);
      assert BlocksFlow(blocks) == a + b;
      assert (a + b)[|a + b| - 1] == b[|b| - 1];
      forall i | 0 <= i < |a| + |b| ensures BodyItem((a + b)[i]) {
        if i < |a| {
          assert (a + b)[i] == a[i];
        } else {
          assert (a + b)[i] == b[i - |a|];
        }
      }
    }
  }

  /** Only the first element of a flow is a title; every paragraph is free of line feeds and
      every list item is trimmed; the flow ends with a spacer. */
  lemma FlowItems(title: string, notes: string)
    ensures var f := Flow(title, notes);
      && f[|f| - 1] == Spacer
      && forall i | 0 <= i < |f| ::
           && (f[i].Title? <==> i == 0)
           && (f[i].Para? ==> '\n' !in f[i].text)
           && (f[i].Bullet? ==> IsTrimmed(f[i].text))
  {
    var blocks := Split(notes, BlockSeparator);
    BlocksFlowItems(blocks);
    TitleThenBody(title, BlocksFlow(blocks));
  }

  lemma TitleThenBody(title: string, body: seq<Flowable>)
    requires body != [] && body[|body| - 1] == Spacer
    requires forall i | 0 <= i < |body| :: BodyItem(body[i])
    ensures var f := [Title(title), Spacer] + body;
      && f[|f| - 1] == Spacer
      && forall i | 0 <= i < |f| ::
           && (f[i].Title? <==> i == 0)
           && (f[i].Para? ==> '\n' !in f[i].text)
           && (f[i].Bullet? ==> IsTrimmed(f[i].text))
  {
    var f := [Title(title), Spacer] + body;
    forall i | 2 <= i < |f| ensures BodyItem(f[i]) {
      assert f[i] == body[i - 2];
    }
  }
}
