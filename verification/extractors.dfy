/**
 The extractors of document_processor.py: title inference for a PDF
 (`_extract_title`), the per-page loop of `extract_from_pdf` and the
 per-slide loop of `extract_from_ppt`. The PDF and slide-deck readers are
 replaced by their results: an opened PDF is its metadata title and the text
 of each page, an opened deck is its core title and, per slide, the text of
 the title placeholder and the texts of its shapes. A file that cannot be
 opened is `None`.
 */
module Extractors {
  import opened Wrappers
  import opened PyStr
  import opened TextClean
  import opened Chunker

  /** The `metadata` dictionary of an extraction result. */
  datatype DocInfo = DocInfo(title: string, pages: nat, kind: string)

  /** `{"metadata": ..., "chunks": ...}`; `metadata` is `None` for `{}`. */
  datatype Extraction = Extraction(metadata: Option<DocInfo>, chunks: seq<Chunk>)

  /** An opened PDF: `doc.metadata.get("title")` and each page's plain text. */
  datatype PdfFile = PdfFile(metaTitle: Option<string>, pages: seq<string>)

  /** A slide: the text of its title placeholder when it has one, and the
      `text` of every shape that has that attribute, in shape order. The
      title placeholder is itself one of the shapes. */
  datatype Slide = Slide(title: Option<string>, shapeTexts: seq<string>)

  /** An opened deck: `core_properties.title` and the slides. */
  datatype PptFile = PptFile(coreTitle: Option<string>, slides: seq<Slide>)

  const Placeholders: seq<string> := ["untitled", "sin título", "documento"]
  const UntitledPdf: string := "Documento sin título"
  const UntitledDeck: string := "Presentación sin título"
  /** How many leading lines of page 1 are scanned for a title. */
  const TitleScan: nat := 5
  const FallbackTitleLength: nat := 100

  // ---------------------------------------------------------------------
  // Title inference

  /** A metadata title is used when present, non-empty and not a placeholder
      (compared in lower case). */
  predicate UsableMetaTitle(t: Option<string>) {
    t.Some? && t.value != [] && Lower(t.value) !in Placeholders
  }

  /** A line that looks like a title: 11 to 149 characters, no final period. */
  predicate TitleLike(line: string) {
    10 < |line| < 150 && !EndsWith(line, '.')
  }

  /** `[l.strip() for l in page.split('\n') if l.strip()]`: the page is cut
      at every newline, so no line holds one. */
  function Lines(page: string): (ls: seq<string>)
    ensures forall i :: 0 <= i < |ls| ==> Solid(ls[i])
    ensures forall i :: 0 <= i < |ls| ==> '\n' !in ls[i]
  {
    SplitNoSep(page, "\n");
    KeepStrippedNoOccur(Split(page, "\n"), "\n");
    var ls := KeepStripped(Split(page, "\n"));
    forall i | 0 <= i < |ls| ensures '\n' !in ls[i] {
      OccursChar('\n', ls[i]);
    }
    ls
  }

  /** The lines hold exactly the page's visible characters, in order. */
  lemma LinesVisible(page: string)
    ensures Visible(Join(Lines(page), "\n")) == Visible(page)
  {
    JoinSplit(page, "\n");
    VisibleBlank("\n");
    KeepStrippedVisible(Split(page, "\n"), "\n");
  }

  /** The position of the first title-like line, if any. */
  function FirstTitleLike(lines: seq<string>): (r: Option<nat>)
    ensures r.Some? ==> r.value < |lines| && TitleLike(lines[r.value])
    ensures r.Some? ==> forall k :: 0 <= k < r.value ==> !TitleLike(lines[k])
    ensures r.None? ==> forall k :: 0 <= k < |lines| ==> !TitleLike(lines[k])
  {
    if lines == [] then None
    else if TitleLike(lines[0]) then Some(0)
    else match FirstTitleLike(lines[1..])
      case None => None
      case Some(k) => Some(k + 1)
  }

  /** `_extract_title`: (1) a usable metadata title; else (2) the first
      title-like line among the first five non-blank lines of page 1; else
      (3) the first such line cut to 100 characters; else (4) the fixed
      fallback. `firstPage` is `None` when page 1 cannot be read. The title
      is never empty. */
  function ExtractTitle(metaTitle: Option<string>, firstPage: Option<string>): (r: string)
    ensures r != []
    ensures UsableMetaTitle(metaTitle) ==> r == metaTitle.value
    ensures !UsableMetaTitle(metaTitle) && (firstPage.None? || Lines(firstPage.value) == []) ==>
      r == UntitledPdf
    ensures !UsableMetaTitle(metaTitle) && firstPage.Some? ==>
      var lines := Lines(firstPage.value);
      && (forall i :: (0 <= i < |lines| && i < TitleScan && TitleLike(lines[i])
                        && forall k :: 0 <= k < i ==> !TitleLike(lines[k])) ==> r == lines[i])
      && (lines != [] && (forall k :: 0 <= k < |lines| && k < TitleScan ==> !TitleLike(lines[k])) ==>
            r == Take(lines[0], FallbackTitleLength))
  {
    if UsableMetaTitle(metaTitle) then metaTitle.value
    else if firstPage.None? then UntitledPdf
    else
      var lines := Lines(firstPage.value);
      if lines == [] then UntitledPdf
      else
        var head := Take(lines, TitleScan);
        match FirstTitleLike(head)
        case Some(i) =>
          assert head[i] == lines[i];
          lines[i]
        case None =>
          assert forall k :: 0 <= k < |lines| && k < TitleScan ==> lines[k] == head[k];
          Take(lines[0], FallbackTitleLength)
  }

  // ---------------------------------------------------------------------
  // PDF pages

  /** A text whose ends are not whitespace has at least one paragraph. */
  lemma SolidHasParagraph(text: string)
    requires Solid(text)
    ensures Paragraphs(text) != []
  {
    var pieces := Split(text, ParaSep);
    if Paragraphs(text) == [] {
      KeepStrippedEmpty(pieces);
      JoinSplit(text, ParaSep);
      JoinBlank(pieces, ParaSep);
      assert false;
    }
  }

  lemma {:induction false} KeepStrippedEmpty(pieces: seq<string>)
    requires KeepStripped(pieces) == []
    ensures forall i :: 0 <= i < |pieces| ==> Blank(pieces[i])
  {
    if pieces != [] {
      StripEmptyIff(pieces[0]);
      KeepStrippedEmpty(pieces[1..]);
      assert forall i :: 1 <= i < |pieces| ==> pieces[i] == pieces[1..][i - 1];
    }
  }

  /** One iteration of the page loop: normalize, skip a blank page, split. A
      page contributes no chunk exactly when it has no visible character,
      and its chunks, rejoined, hold exactly the page's visible characters
      in order. */
  function PageChunks(count: string -> nat, raw: string, pageNum: nat): (r: seq<Chunk>)
    ensures forall c :: c in r ==> c.page == pageNum
    ensures r == [] <==> Visible(raw) == []
    ensures Visible(Join(Texts(r), ParaSep)) == Visible(raw)
  {
    var text := Clean(raw);
    CleanEmptyIff(raw);
    CleanKeeps(raw);
    if Blank(text) then
      assert Texts([]) == [];
      []
    else
      SplitSolid(count, text, pageNum);
      SplitSectionsVisible(count, text, pageNum);
      SplitSections(count, text, pageNum)
  }

  /** A text with a visible character always yields at least one chunk. */
  lemma SplitSolid(count: string -> nat, text: string, page: nat)
    requires Solid(text)
    ensures SplitSections(count, text, page) != []
  {
    if count(text) >= ChunkBudget {
      SolidHasParagraph(text);
      PackedChunksSpec(count, text, page);
    }
  }

  // ---------------------------------------------------------------------
  // The extraction loops: one block of chunks per page or slide, in order

  // The blocks are laid end to end by `Flatten` (`chunks.extend(...)` once
  // per block).

  /** Block `i` holds only chunks numbered `start + i`. */
  predicate Numbered(blocks: seq<seq<Chunk>>, start: nat) {
    forall i, c :: 0 <= i < |blocks| && c in blocks[i] ==> c.page == start + i
  }

  lemma NumberedTail(blocks: seq<seq<Chunk>>, start: nat)
    requires Numbered(blocks, start) && blocks != []
    ensures Numbered(blocks[1..], start + 1)
  {
    var rest := blocks[1..];
    forall i, c: Chunk | 0 <= i < |rest| && c in rest[i] ensures c.page == start + 1 + i {
      assert c in blocks[i + 1];
    }
  }

  /** Page numbers never decrease along `cs`. */
  predicate PagesAscending(cs: seq<Chunk>) {
    forall i, j :: 0 <= i < j < |cs| ==> cs[i].page <= cs[j].page
  }

  /** Page numbers strictly increase along `cs`. */
  predicate PagesStrictlyAscending(cs: seq<Chunk>) {
    forall i, j :: 0 <= i < j < |cs| ==> cs[i].page < cs[j].page
  }

  /** A chunk of the flattened list comes from some block, and every chunk
      of every block is in it. */
  lemma {:induction false} FlattenMember(blocks: seq<seq<Chunk>>, c: Chunk)
    ensures c in Flatten(blocks) <==> exists i :: 0 <= i < |blocks| && c in blocks[i]
  {
    if blocks != [] {
      FlattenMember(blocks[1..], c);
      if c in Flatten(blocks[1..]) {
        var i :| 0 <= i < |blocks[1..]| && c in blocks[1..][i];
        assert c in blocks[i + 1];
      }
      if exists i :: 0 <= i < |blocks| && c in blocks[i] {
        var i :| 0 <= i < |blocks| && c in blocks[i];
        if i > 0 {
          assert c in blocks[1..][i - 1];
        }
      }
    }
  }

  /** Chunks of block `i` numbered `start + i` come out in non-decreasing
      page order, every page number in `start..start + |blocks|`. */
  lemma {:induction false} FlattenAscending(blocks: seq<seq<Chunk>>, start: nat)
    requires Numbered(blocks, start)
    ensures PagesAscending(Flatten(blocks))
    ensures forall c :: c in Flatten(blocks) ==> start <= c.page < start + |blocks|
  {
    if blocks != [] {
      var rest := blocks[1..];
      NumberedTail(blocks, start);
      FlattenAscending(rest, start + 1);
      assert forall c :: c in blocks[0] ==> c.page == start;
      PagesAscendingAppend(blocks[0], Flatten(rest), start);
    }
  }

  /** With at most one chunk per block, the order is strict and there are
      at most as many chunks as blocks. */
  lemma {:induction false} FlattenStrict(blocks: seq<seq<Chunk>>, start: nat)
    requires Numbered(blocks, start)
    requires forall i :: 0 <= i < |blocks| ==> |blocks[i]| <= 1
    ensures PagesStrictlyAscending(Flatten(blocks))
    ensures |Flatten(blocks)| <= |blocks|
  {
    if blocks != [] {
      var rest := blocks[1..];
      NumberedTail(blocks, start);
      FlattenStrict(rest, start + 1);
      FlattenAscending(rest, start + 1);
      assert forall c :: c in blocks[0] ==> c.page == start;
      StrictlyAscendingCons(blocks[0], Flatten(rest), start);
    }
  }

  /** The chunks of `cs` numbered `n`, in order. */
  function OnPage(cs: seq<Chunk>, n: nat): seq<Chunk> {
    if cs == [] then [] else (if cs[0].page == n then [cs[0]] else []) + OnPage(cs[1..], n)
  }

  lemma {:induction false} OnPageAppend(a: seq<Chunk>, b: seq<Chunk>, n: nat)
    ensures OnPage(a + b, n) == OnPage(a, n) + OnPage(b, n)
  {
    if a == [] {
      assert a + b == b;
    } else {
      assert (a + b)[1..] == a[1..] + b;
      OnPageAppend(a[1..], b, n);
    }
  }

  /** `OnPage` keeps a list whose chunks all carry `n` and empties one
      whose chunks never do. */
  lemma {:induction false} OnPageUniform(cs: seq<Chunk>, n: nat)
    ensures (forall c :: c in cs ==> c.page == n) ==> OnPage(cs, n) == cs
    ensures (forall c :: c in cs ==> c.page != n) ==> OnPage(cs, n) == []
  {
    if cs != [] {
      assert forall c :: c in cs[1..] ==> c in cs;
      OnPageUniform(cs[1..], n);
    }
  }

  /** In blocks laid end to end, the chunks numbered `start + j` are
      exactly block `j`. */
  lemma {:induction false} OnPageFlatten(blocks: seq<seq<Chunk>>, start: nat, j: nat)
    requires Numbered(blocks, start) && j < |blocks|
    ensures OnPage(Flatten(blocks), start + j) == blocks[j]
    decreases j
  {
    var rest := blocks[1..];
    assert Flatten(blocks) == blocks[0] + Flatten(rest);
    NumberedTail(blocks, start);
    OnPageAppend(blocks[0], Flatten(rest), start + j);
    OnPageUniform(blocks[0], start + j);
    if j == 0 {
      LaterPagesOff(rest, start + 1);
      OnPageUniform(Flatten(rest), start);
    } else {
      OnPageFlatten(rest, start + 1, j - 1);
    }
  }

  /** Blocks numbered from `start` hold no chunk numbered below `start`. */
  lemma LaterPagesOff(blocks: seq<seq<Chunk>>, start: nat)
    requires Numbered(blocks, start) && start > 0
    ensures forall c :: c in Flatten(blocks) ==> c.page != start - 1
  {
    FlattenAscending(blocks, start);
  }

  /** Chunks all on page `p` followed by ascending chunks on later pages
      are ascending. */
  lemma PagesAscendingAppend(here: seq<Chunk>, rest: seq<Chunk>, p: nat)
    requires forall c :: c in here ==> c.page == p
    requires forall c :: c in rest ==> p < c.page
    requires PagesAscending(rest)
    ensures PagesAscending(here + rest)
  {
  }

  /** At most one chunk on page `p` followed by strictly ascending chunks on
      later pages are strictly ascending. */
  lemma StrictlyAscendingCons(here: seq<Chunk>, rest: seq<Chunk>, p: nat)
    requires |here| <= 1 && forall c :: c in here ==> c.page == p
    requires forall c :: c in rest ==> p < c.page
    requires PagesStrictlyAscending(rest)
    ensures PagesStrictlyAscending(here + rest)
  {
  }

  // ---------------------------------------------------------------------
  // PDF pages

  /** One block per page: page `i` (0-based) is numbered `i + 1`. */
  function PageBlocks(count: string -> nat, pages: seq<string>): (bs: seq<seq<Chunk>>)
    ensures |bs| == |pages|
    ensures forall i :: 0 <= i < |pages| ==> bs[i] == PageChunks(count, pages[i], i + 1)
  {
    seq(|pages|, i requires 0 <= i < |pages| => PageChunks(count, pages[i], i + 1))
  }

  /** Chunk page numbers are 1-based, never those of a blank page, and do
      not decrease; every page with a visible character has a chunk; and the
      chunks numbered `j + 1` are exactly the chunks of page `j`, which
      rejoined hold that page's visible characters. */
  predicate PdfChunksFit(count: string -> nat, pages: seq<string>, r: seq<Chunk>) {
    && PagesAscending(r)
    && (forall j :: 0 <= j < |pages| ==> OnPage(r, j + 1) == PageChunks(count, pages[j], j + 1))
    && (forall j :: 0 <= j < |pages| ==> Visible(Join(Texts(OnPage(r, j + 1)), ParaSep)) == Visible(pages[j]))
    && (forall c :: c in r ==> 1 <= c.page <= |pages| && Visible(pages[c.page - 1]) != [])
    && (forall j :: 0 <= j < |pages| && Visible(pages[j]) != [] ==>
          exists c :: c in r && c.page == j + 1)
  }

  /** The page loop of `extract_from_pdf` fits the pages. */
  lemma PdfChunksSpec(count: string -> nat, pages: seq<string>)
    ensures PdfChunksFit(count, pages, Flatten(PageBlocks(count, pages)))
  {
    var bs := PageBlocks(count, pages);
    var r := Flatten(bs);
    assert Numbered(bs, 1);
    FlattenAscending(bs, 1);
    PdfPagesPinned(count, pages);
    PdfPagesCovered(count, pages);
  }

  /** The chunks numbered `j + 1` are those page `j` yields. */
  lemma PdfPagesPinned(count: string -> nat, pages: seq<string>)
    ensures forall j :: 0 <= j < |pages| ==>
      OnPage(Flatten(PageBlocks(count, pages)), j + 1) == PageChunks(count, pages[j], j + 1)
  {
    forall j | 0 <= j < |pages|
      ensures OnPage(Flatten(PageBlocks(count, pages)), j + 1) == PageChunks(count, pages[j], j + 1)
    {
      PdfPagePinned(count, pages, j);
    }
  }

  lemma PdfPagePinned(count: string -> nat, pages: seq<string>, j: nat)
    requires j < |pages|
    ensures OnPage(Flatten(PageBlocks(count, pages)), j + 1) == PageChunks(count, pages[j], j + 1)
  {
    var bs := PageBlocks(count, pages);
    assert Numbered(bs, 1);
    OnPageFlatten(bs, 1, j);
  }

  /** Chunks come from non-blank pages only, and every non-blank page has one. */
  lemma PdfPagesCovered(count: string -> nat, pages: seq<string>)
    ensures var r := Flatten(PageBlocks(count, pages));
      && (forall c :: c in r ==> 1 <= c.page <= |pages| && Visible(pages[c.page - 1]) != [])
      && (forall j :: 0 <= j < |pages| && Visible(pages[j]) != [] ==> exists c :: c in r && c.page == j + 1)
  {
    var bs := PageBlocks(count, pages);
    var r := Flatten(bs);
    assert Numbered(bs, 1);
    FlattenAscending(bs, 1);
    forall c | c in r ensures Visible(pages[c.page - 1]) != [] {
      FlattenMember(bs, c);
      var i :| 0 <= i < |bs| && c in bs[i];
    }
    forall j | 0 <= j < |pages| && Visible(pages[j]) != [] ensures exists c :: c in r && c.page == j + 1 {
      var c := bs[j][0];
      FlattenMember(bs, c);
    }
  }

  /** `extract_from_pdf`: an unreadable file gives the empty result;
      otherwise the metadata records the inferred title, the page count and
      the type "guideline", and chunk page numbers are 1-based,
      non-decreasing, never those of a blank page, and cover every page with
      a visible character; the chunks numbered `j + 1` are those page `j`
      yields on its own. */
  function ExtractFromPdf(count: string -> nat, file: Option<PdfFile>): (r: Extraction)
    ensures file.None? ==> r == Extraction(None, [])
    ensures file.Some? ==>
      var pages := file.value.pages;
      && r.metadata == Some(DocInfo(
           ExtractTitle(file.value.metaTitle, if |pages| > 0 then Some(pages[0]) else None),
           |pages|, "guideline"))
      && PdfChunksFit(count, pages, r.chunks)
  {
    match file
    case None => Extraction(None, [])
    case Some(f) =>
      var firstPage := if |f.pages| > 0 then Some(f.pages[0]) else None;
      PdfChunksSpec(count, f.pages);
      Extraction(
        Some(DocInfo(ExtractTitle(f.metaTitle, firstPage), |f.pages|, "guideline")),
        Flatten(PageBlocks(count, f.pages)))
  }

  // ---------------------------------------------------------------------
  // Slides

  /** `[t for t in texts if t]`. */
  function NonEmptyTexts(texts: seq<string>): (r: seq<string>)
    ensures forall i :: 0 <= i < |r| ==> r[i] != []
    ensures forall t :: t in texts && t != [] ==> t in r
  {
    if texts == [] then []
    else (if texts[0] != [] then [texts[0]] else []) + NonEmptyTexts(texts[1..])
  }

  /** `f"{title}\n\n" + "\n".join(content)` before normalization. */
  function RawSlideText(s: Slide): string {
    s.title.GetOr("") + ParaSep + Join(NonEmptyTexts(s.shapeTexts), "\n")
  }

  function SlideText(s: Slide): string {
    Clean(RawSlideText(s))
  }

  /** `title or f"Slide {slide_num}"`. */
  function SlideSection(s: Slide, slideNum: nat): string {
    if s.title.GetOr("") != [] then s.title.value else "Slide " + NatToString(slideNum)
  }

  /** One iteration of the slide loop: the slide's whole normalized text as
      one chunk, or nothing when it is blank. */
  function SlideChunk(count: string -> nat, s: Slide, slideNum: nat): (r: seq<Chunk>)
    ensures |r| <= 1
    ensures r == [] <==> SlideText(s) == []
    ensures forall c :: c in r ==>
              c == Chunk(SlideText(s), slideNum, SlideSection(s, slideNum), count(SlideText(s)), Some("slide"))
  {
    var text := SlideText(s);
    if Blank(text) then []
    else [Chunk(text, slideNum, SlideSection(s, slideNum), count(text), Some("slide"))]
  }

  /** One block per slide: slide `i` (0-based) is numbered `i + 1`. */
  function SlideBlocks(count: string -> nat, slides: seq<Slide>): (bs: seq<seq<Chunk>>)
    ensures |bs| == |slides|
    ensures forall i :: 0 <= i < |slides| ==> bs[i] == SlideChunk(count, slides[i], i + 1)
  {
    seq(|slides|, i requires 0 <= i < |slides| => SlideChunk(count, slides[i], i + 1))
  }

  /** `c` is the chunk of the slide its page number names: that slide's
      whole normalized text, non-empty, under the slide's label. */
  predicate IsSlideChunk(count: string -> nat, slides: seq<Slide>, c: Chunk) {
    && 1 <= c.page <= |slides|
    && c.text != []
    && c == Chunk(SlideText(slides[c.page - 1]), c.page, SlideSection(slides[c.page - 1], c.page),
                  count(c.text), Some("slide"))
  }

  /** The slide loop of `extract_from_ppt`: one unsplit chunk per slide with
      visible text, holding the slide's whole normalized text, numbered by
      the slide's 1-based position and labelled with its title or
      "Slide N", in strictly increasing slide order. */
  lemma SlideChunksSpec(count: string -> nat, slides: seq<Slide>)
    ensures var r := Flatten(SlideBlocks(count, slides));
            && |r| <= |slides|
            && PagesStrictlyAscending(r)
            && (forall c :: c in r ==> IsSlideChunk(count, slides, c))
            && (forall j :: 0 <= j < |slides| && SlideText(slides[j]) != [] ==>
                  exists c :: c in r && c.page == j + 1)
  {
    var bs := SlideBlocks(count, slides);
    var r := Flatten(bs);
    assert Numbered(bs, 1);
    FlattenAscending(bs, 1);
    FlattenStrict(bs, 1);
    forall c | c in r ensures IsSlideChunk(count, slides, c) {
      FlattenMember(bs, c);
      var i :| 0 <= i < |bs| && c in bs[i];
      SlideChunkAt(count, slides, i, c);
    }
    forall j | 0 <= j < |slides| && SlideText(slides[j]) != [] ensures exists c :: c in r && c.page == j + 1 {
      SlideChunkCover(count, slides, j);
    }
  }

  /** A chunk of slide `i`'s block is the chunk of the slide its page
      number names. */
  lemma SlideChunkAt(count: string -> nat, slides: seq<Slide>, i: nat, c: Chunk)
    requires i < |slides| && c in SlideBlocks(count, slides)[i]
    ensures IsSlideChunk(count, slides, c)
  {
  }

  /** A slide with visible text has its chunk. */
  lemma SlideChunkCover(count: string -> nat, slides: seq<Slide>, j: nat)
    requires j < |slides| && SlideText(slides[j]) != []
    ensures exists c :: c in Flatten(SlideBlocks(count, slides)) && c.page == j + 1
  {
    var bs := SlideBlocks(count, slides);
    var c := bs[j][0];
    FlattenMember(bs, c);
  }

  /** `extract_from_ppt`: an unreadable file gives the empty result;
      otherwise the metadata records the core title (or the fallback), the
      slide count and the type "presentation", and the chunks are the
      slides with visible text, one each, in slide order. */
  function ExtractFromPpt(count: string -> nat, file: Option<PptFile>): (r: Extraction)
    ensures file.None? ==> r == Extraction(None, [])
    ensures file.Some? ==>
      && r.metadata.Some?
      && r.metadata.value.title != []
      && (file.value.coreTitle.GetOr("") != [] ==> r.metadata.value.title == file.value.coreTitle.value)
      && (file.value.coreTitle.GetOr("") == [] ==> r.metadata.value.title == UntitledDeck)
      && r.metadata.value.pages == |file.value.slides|
      && r.metadata.value.kind == "presentation"
      && |r.chunks| <= |file.value.slides|
      && PagesStrictlyAscending(r.chunks)
      && (forall c :: c in r.chunks ==> IsSlideChunk(count, file.value.slides, c))
      && (forall j :: 0 <= j < |file.value.slides| && SlideText(file.value.slides[j]) != [] ==>
            exists c :: c in r.chunks && c.page == j + 1)
  {
    match file
    case None => Extraction(None, [])
    case Some(f) =>
      var title := if f.coreTitle.GetOr("") != [] then f.coreTitle.value else UntitledDeck;
      SlideChunksSpec(count, f.slides);
      Extraction(Some(DocInfo(title, |f.slides|, "presentation")), Flatten(SlideBlocks(count, f.slides)))
  }

  /** The title placeholder is one of the slide's shapes, so a non-empty
      slide title appears twice in the slide text: once in front and again
      among the shape texts. */
  lemma SlideTitleRepeated(s: Slide)
    requires s.title.Some? && s.title.value != [] && s.title.value in s.shapeTexts
    ensures RawSlideText(s)[..|s.title.value|] == s.title.value
    ensures Occurs(s.title.value, RawSlideText(s)[|s.title.value| + |ParaSep|..])
  {
    var t := s.title.value;
    var texts := NonEmptyTexts(s.shapeTexts);
    var k :| 0 <= k < |texts| && texts[k] == t;
    JoinOccurs(texts, k, "\n");
    assert RawSlideText(s)[|t| + |ParaSep|..] == Join(texts, "\n");
  }
}
