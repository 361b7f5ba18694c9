/**
 The chunker of document_processor.py (`DocumentProcessor._split_by_sections`):
 a page under the token budget is one chunk; otherwise its blank-line
 separated paragraphs are packed greedily into chunks whose token count stays
 under the budget, and a running section label follows short, heading-like
 paragraphs that open a new chunk.

 The tokenizer is a parameter `count: string -> nat` about which nothing is
 assumed (in particular not that it is monotone or additive).

 The source keeps its buffer `current_chunk` as a string built by
 `current_chunk + "\n\n" + para`. Here the buffer is the list of paragraphs
 whose "\n\n"-join is that string (`Join(open, ParaSep)`), so that the
 paragraphs of every chunk can be named in the contracts.
 */
module Chunker {
  import opened Wrappers
  import opened PyStr
  import opened TextClean

  /** A chunk must stay strictly below this many tokens to accept an append. */
  const ChunkBudget: nat := 600
  /** Paragraphs shorter than this may become the section label. */
  const HeadingLimit: nat := 100
  /** Paragraphs are separated by a blank line, the unit `_clean_text` keeps. */
  const ParaSep: string := BlankLine

  /** One chunk record: `text`, `page`, `section`, `tokens`, and the optional
      `type` key that slide chunks carry. */
  datatype Chunk = Chunk(text: string, page: nat, section: string, tokens: nat, kind: Option<string>)

  function Texts(cs: seq<Chunk>): seq<string> {
    seq(|cs|, i requires 0 <= i < |cs| => cs[i].text)
  }

  /** The fallback section label `f"Página {page_num}"`. */
  function PageLabel(page: nat): string {
    "Página " + NatToString(page)
  }

  /** `[p.strip() for p in pieces if p.strip()]`. */
  function KeepStripped(pieces: seq<string>): (ps: seq<string>)
    ensures |ps| <= |pieces|
    ensures forall i :: 0 <= i < |ps| ==> Solid(ps[i])
  {
    if pieces == [] then []
    else (if Strip(pieces[0]) != [] then [Strip(pieces[0])] else []) + KeepStripped(pieces[1..])
  }

  /** The non-blank, stripped paragraphs of a page; the page is cut at every
      blank line, so no paragraph holds one. */
  function Paragraphs(text: string): (ps: seq<string>)
    ensures forall i :: 0 <= i < |ps| ==> Solid(ps[i])
    ensures forall i :: 0 <= i < |ps| ==> !Occurs(ParaSep, ps[i])
  {
    SplitNoSep(text, ParaSep);
    KeepStrippedNoOccur(Split(text, ParaSep), ParaSep);
    KeepStripped(Split(text, ParaSep))
  }

  /** Stripping a piece never creates an occurrence of `t`, so pieces free of
      `t` stay free of it. */
  lemma {:induction false} KeepStrippedNoOccur(pieces: seq<string>, t: string)
    ensures (forall p :: p in pieces ==> !Occurs(t, p)) ==>
      forall i :: 0 <= i < |KeepStripped(pieces)| ==> !Occurs(t, KeepStripped(pieces)[i])
  {
    if pieces != [] && forall p :: p in pieces ==> !Occurs(t, p) {
      var rest := pieces[1..];
      assert forall p :: p in rest ==> p in pieces;
      KeepStrippedNoOccur(rest, t);
      StripOccurs(t, pieces[0]);
      assert pieces[0] in pieces;
    }
  }

  /** A paragraph that looks like a heading: short and not ending in a period. */
  predicate IsHeading(p: string) {
    |p| < HeadingLimit && !EndsWith(p, '.')
  }

  /** The label in force before the first paragraph: the first paragraph when
      it is short, else the page label. */
  function InitialSection(paras: seq<string>, page: nat): string {
    if |paras| > 0 && |paras[0]| < HeadingLimit then Take(paras[0], HeadingLimit) else PageLabel(page)
  }

  /** The paragraphs of one chunk and the section label it is flushed with. */
  datatype Group = Group(paras: seq<string>, section: string)

  /** Loop state: the flushed groups, the open buffer and the running label. */
  datatype Packer = Packer(closed: seq<Group>, open: seq<string>, section: string)

  /** One iteration of the paragraph loop. */
  function Step(count: string -> nat, st: Packer, p: string): Packer {
    var test := if st.open == [] then p else Join(st.open, ParaSep) + ParaSep + p;
    if count(test) < ChunkBudget then
      st.(open := st.open + [p])
    else
      Packer(
        if st.open != [] then st.closed + [Group(st.open, st.section)] else st.closed,
        [p],
        if IsHeading(p) then Take(p, HeadingLimit) else st.section)
  }

  function Pack(count: string -> nat, st: Packer, ps: seq<string>): Packer
    decreases |ps|
  {
    if ps == [] then st else Pack(count, Step(count, st, ps[0]), ps[1..])
  }

  /** The final flush of a non-empty buffer. */
  function Finish(st: Packer): seq<Group> {
    if st.open != [] then st.closed + [Group(st.open, st.section)] else st.closed
  }

  /** The chunk groups the loop produces from a page's paragraphs. */
  function Grouping(count: string -> nat, paras: seq<string>, page: nat): seq<Group> {
    Finish(Pack(count, Packer([], [], InitialSection(paras, page)), paras))
  }

  function ToChunk(count: string -> nat, page: nat, g: Group): Chunk {
    var buffer := Join(g.paras, ParaSep);
    Chunk(Strip(buffer), page, g.section, count(buffer), None)
  }

  /** The multi-chunk path (document_processor.py lines 177-220). */
  function PackedChunks(count: string -> nat, text: string, page: nat): seq<Chunk> {
    var gs := Grouping(count, Paragraphs(text), page);
    seq(|gs|, i requires 0 <= i < |gs| => ToChunk(count, page, gs[i]))
  }

  /** `_split_by_sections(text, page_num)`. */
  function SplitSections(count: string -> nat, text: string, page: nat): (chunks: seq<Chunk>)
    ensures count(text) < ChunkBudget ==>
      chunks == [Chunk(text, page, PageLabel(page), count(text), None)]
    ensures forall i :: 0 <= i < |chunks| ==> chunks[i].page == page && chunks[i].kind == None
  {
    if count(text) < ChunkBudget then [Chunk(text, page, PageLabel(page), count(text), None)]
    else PackedChunks(count, text, page)
  }

  // ---------------------------------------------------------------------
  // Properties of the groups

  /** Concatenation of the groups' paragraphs. */
  function Concat(gs: seq<Group>): seq<string> {
    if gs == [] then [] else gs[0].paras + Concat(gs[1..])
  }

  /** The groups split `paras` into non-empty consecutive runs, in order,
      losing and repeating nothing. */
  predicate Partitions(gs: seq<Group>, paras: seq<string>) {
    && Concat(gs) == paras
    && forall i :: 0 <= i < |gs| ==> gs[i].paras != []
  }

  /** Every group is under the budget, or is a single paragraph. */
  predicate WithinBudget(count: string -> nat, gs: seq<Group>) {
    forall i :: 0 <= i < |gs| ==>
      count(Join(gs[i].paras, ParaSep)) < ChunkBudget || |gs[i].paras| == 1
  }

  /** Group `i` is labelled by its own first paragraph when that is a heading,
      and otherwise inherits the label of the group before it. */
  predicate LabelAt(gs: seq<Group>, i: nat)
    requires 0 < i < |gs|
  {
    gs[i].paras != [] ==>
      gs[i].section == if IsHeading(gs[i].paras[0]) then gs[i].paras[0] else gs[i - 1].section
  }

  /** The first group carries the initial label; every later group carries its
      own first paragraph when that looks like a heading, and otherwise the
      label of the group before it. */
  predicate Labelled(gs: seq<Group>, init: string) {
    && (|gs| > 0 ==> gs[0].section == init)
    && forall i: nat :: 0 < i < |gs| ==> LabelAt(gs, i)
  }

  /** Group `i` was opened by a paragraph that did not fit: the test chunk
      made of the group before it and that paragraph reached the budget. */
  predicate CutAt(count: string -> nat, gs: seq<Group>, i: nat)
    requires 0 < i < |gs|
  {
    gs[i].paras != [] ==>
      count(Join(gs[i - 1].paras, ParaSep) + ParaSep + gs[i].paras[0]) >= ChunkBudget
  }

  /** The test chunk made by the first `m` paragraphs of a group fitted. */
  predicate PrefixFits(count: string -> nat, ps: seq<string>, m: nat)
    requires m <= |ps|
  {
    count(Join(ps[..m], ParaSep)) < ChunkBudget
  }

  /** Every paragraph after the first joined its group because its test
      chunk fitted. */
  predicate Fits(count: string -> nat, ps: seq<string>) {
    forall m: nat :: 2 <= m <= |ps| ==> PrefixFits(count, ps, m)
  }

  /** The packing is greedy: a group takes every following paragraph that
      fits and is closed only by one that does not. */
  predicate Greedy(count: string -> nat, gs: seq<Group>) {
    && (forall i: nat :: 0 < i < |gs| ==> CutAt(count, gs, i))
    && (forall i :: 0 <= i < |gs| ==> Fits(count, gs[i].paras))
  }

  predicate Inv(count: string -> nat, st: Packer, consumed: seq<string>, init: string) {
    && st.open != []
    && Partitions(Finish(st), consumed)
    && WithinBudget(count, Finish(st))
    && Greedy(count, Finish(st))
    && Labelled(Finish(st), init)
  }

  /** The packing loop splits the paragraphs into groups greedily, keeps
      every group under the budget unless it is one paragraph, and moves the
      section label exactly as `Labelled` describes. */
  lemma GroupingSpec(count: string -> nat, paras: seq<string>, page: nat)
    ensures paras == [] <==> Grouping(count, paras, page) == []
    ensures Partitions(Grouping(count, paras, page), paras)
    ensures WithinBudget(count, Grouping(count, paras, page))
    ensures Greedy(count, Grouping(count, paras, page))
    ensures Labelled(Grouping(count, paras, page), InitialSection(paras, page))
  {
    var init := InitialSection(paras, page);
    var st0 := Packer([], [], init);
    if paras != [] {
      var p := paras[0];
      var st1 := Step(count, st0, p);
      assert st1 == Packer([], [p], init);
      assert Finish(st1) == [Group([p], init)];
      assert Concat(Finish(st1)) == [p];
      assert Inv(count, st1, [p], init);
      PackInv(count, st1, [p], init, paras[1..]);
      assert [p] + paras[1..] == paras;
    }
  }

  lemma {:induction false} PackInv(count: string -> nat, st: Packer, consumed: seq<string>, init: string, ps: seq<string>)
    requires Inv(count, st, consumed, init)
    ensures Inv(count, Pack(count, st, ps), consumed + ps, init)
    decreases |ps|
  {
    if ps == [] {
      assert consumed + ps == consumed;
    } else {
      var next := consumed + [ps[0]];
      assert next + ps[1..] == consumed + ps;
      StepInv(count, st, consumed, init, ps[0]);
      PackInv(count, Step(count, st, ps[0]), next, init, ps[1..]);
    }
  }

  lemma StepInv(count: string -> nat, st: Packer, consumed: seq<string>, init: string, p: string)
    requires Inv(count, st, consumed, init)
    ensures Inv(count, Step(count, st, p), consumed + [p], init)
  {
    var test := Join(st.open, ParaSep) + ParaSep + p;
    if count(test) < ChunkBudget {
      StepAccepts(count, st, consumed, init, p);
    } else {
      StepFlushes(count, st, consumed, init, p);
    }
  }

  /** A paragraph that fits joins the open group: the finished groups are
      the same except that the last one has grown by the paragraph. */
  lemma StepAccepts(count: string -> nat, st: Packer, consumed: seq<string>, init: string, p: string)
    requires Inv(count, st, consumed, init)
    requires count(Join(st.open, ParaSep) + ParaSep + p) < ChunkBudget
    ensures Finish(st) != []
    ensures Finish(Step(count, st, p))
         == Finish(st)[..|Finish(st)| - 1] + [Group(Finish(st)[|Finish(st)| - 1].paras + [p], st.section)]
    ensures Inv(count, Step(count, st, p), consumed + [p], init)
  {
    var c, o, s := st.closed, st.open, st.section;
    var x, y := Group(o, s), Group(o + [p], s);
    assert Finish(st) == c + [x];
    assert (c + [x])[..|c|] == c;
    assert Finish(Step(count, st, p)) == c + [y];
    ConcatSnoc(c, x);
    ConcatSnoc(c, y);
    JoinSnoc(o, p, ParaSep);
    ReplaceLast(count, c, x, y, init);
    assert Finish(st)[|c|] == x;
    FitsSnoc(count, o, p);
    ReplaceLastGreedy(count, c, x, y);
  }

  /** A paragraph that does not fit closes the open group under the label in
      force and opens a group of its own, relabelled when it looks like a
      heading. */
  lemma StepFlushes(count: string -> nat, st: Packer, consumed: seq<string>, init: string, p: string)
    requires Inv(count, st, consumed, init)
    requires count(Join(st.open, ParaSep) + ParaSep + p) >= ChunkBudget
    ensures Finish(st) != [] && Finish(st)[|Finish(st)| - 1] == Group(st.open, st.section)
    ensures Finish(Step(count, st, p))
         == Finish(st) + [Group([p], if IsHeading(p) then Take(p, HeadingLimit) else st.section)]
    ensures Inv(count, Step(count, st, p), consumed + [p], init)
  {
    var g := Finish(st);
    var s' := if IsHeading(p) then Take(p, HeadingLimit) else st.section;
    var y := Group([p], s');
    assert Finish(Step(count, st, p)) == g + [y];
    ConcatSnoc(g, y);
    AppendGroup(count, g, y, init);
    AppendGroupGreedy(count, g, y);
  }

  /** A group that fitted so far, grown by a paragraph whose test chunk
      fits, still fits. */
  lemma FitsSnoc(count: string -> nat, o: seq<string>, p: string)
    requires Fits(count, o) && o != []
    requires count(Join(o, ParaSep) + ParaSep + p) < ChunkBudget
    ensures Fits(count, o + [p])
  {
    var o' := o + [p];
    forall m: nat | 2 <= m <= |o'|
      ensures PrefixFits(count, o', m)
    {
      if m <= |o| {
        assert o'[..m] == o[..m];
        assert PrefixFits(count, o, m);
      } else {
        assert o'[..m] == o';
        JoinSnoc(o, p, ParaSep);
      }
    }
  }

  /** Growing the last group into one that fits keeps the packing greedy. */
  lemma ReplaceLastGreedy(count: string -> nat, c: seq<Group>, x: Group, y: Group)
    requires Greedy(count, c + [x])
    requires y.paras != [] && x.paras != [] && y.paras[0] == x.paras[0]
    requires Fits(count, y.paras)
    ensures Greedy(count, c + [y])
  {
    var g, g' := c + [x], c + [y];
    assert forall i :: 0 <= i < |c| ==> g'[i] == g[i];
    assert g[|c|] == x && g'[|c|] == y;
    forall i: nat | 0 < i < |g'|
      ensures CutAt(count, g', i)
    {
      assert CutAt(count, g, i);
    }
  }

  /** Opening a group with a paragraph that did not fit the last group
      keeps the packing greedy. */
  lemma AppendGroupGreedy(count: string -> nat, g: seq<Group>, y: Group)
    requires Greedy(count, g) && g != []
    requires |y.paras| == 1
    requires count(Join(g[|g| - 1].paras, ParaSep) + ParaSep + y.paras[0]) >= ChunkBudget
    ensures Greedy(count, g + [y])
  {
    var g' := g + [y];
    assert forall i :: 0 <= i < |g| ==> g'[i] == g[i];
    assert g'[|g|] == y;
    forall i: nat | 0 < i < |g'|
      ensures CutAt(count, g', i)
    {
      if i < |g| {
        assert CutAt(count, g, i);
      }
    }
  }

  /** Growing the last group keeps the groups under budget and labelled when
      the grown group fits and starts with the same paragraph. */
  lemma ReplaceLast(count: string -> nat, c: seq<Group>, x: Group, y: Group, init: string)
    requires WithinBudget(count, c + [x]) && Labelled(c + [x], init)
    requires y.paras != [] && x.paras != [] && y.paras[0] == x.paras[0] && y.section == x.section
    requires count(Join(y.paras, ParaSep)) < ChunkBudget
    requires forall i :: 0 <= i < |c + [x]| ==> (c + [x])[i].paras != []
    ensures WithinBudget(count, c + [y])
    ensures Labelled(c + [y], init)
    ensures forall i :: 0 <= i < |c + [y]| ==> (c + [y])[i].paras != []
  {
    var g, g' := c + [x], c + [y];
    assert forall i :: 0 <= i < |c| ==> g'[i] == g[i];
    assert g[|c|] == x && g'[|c|] == y;
    assert g'[0].section == g[0].section;
    forall i | 0 <= i < |g'|
      ensures count(Join(g'[i].paras, ParaSep)) < ChunkBudget || |g'[i].paras| == 1
    {
      if i < |c| { assert g[i] == g'[i]; }
    }
    forall i: nat | 0 < i < |g'|
      ensures LabelAt(g', i)
    {
      assert g'[i - 1] == g[i - 1];
      assert LabelAt(g, i);
    }
  }

  /** Appending a one-paragraph group labelled by the heading rule keeps the
      groups under budget and labelled. */
  lemma AppendGroup(count: string -> nat, g: seq<Group>, y: Group, init: string)
    requires WithinBudget(count, g) && Labelled(g, init) && g != []
    requires |y.paras| == 1
    requires y.section == if IsHeading(y.paras[0]) then Take(y.paras[0], HeadingLimit) else g[|g| - 1].section
    requires forall i :: 0 <= i < |g| ==> g[i].paras != []
    ensures WithinBudget(count, g + [y]) && Labelled(g + [y], init)
    ensures forall i :: 0 <= i < |g + [y]| ==> (g + [y])[i].paras != []
  {
    var g' := g + [y];
    assert forall i :: 0 <= i < |g| ==> g'[i] == g[i];
    assert g'[|g|] == y;
    if IsHeading(y.paras[0]) {
      assert Take(y.paras[0], HeadingLimit) == y.paras[0];
    }
    forall i: nat | 0 < i < |g'|
      ensures LabelAt(g', i)
    {
      if i < |g| {
        assert LabelAt(g, i);
      }
    }
  }

  /** The loop's grouping is the only greedy, labelled partition of the
      paragraphs: `GroupingSpec` characterizes it completely. */
  lemma GroupingCharacterized(count: string -> nat, paras: seq<string>, page: nat, gs: seq<Group>)
    ensures gs == Grouping(count, paras, page) <==>
      && Partitions(gs, paras)
      && Greedy(count, gs)
      && Labelled(gs, InitialSection(paras, page))
  {
    GroupingSpec(count, paras, page);
    if Partitions(gs, paras) && Greedy(count, gs) && Labelled(gs, InitialSection(paras, page)) {
      GreedyUnique(count, gs, Grouping(count, paras, page), paras, InitialSection(paras, page));
    }
  }

  /** Two greedy partitions of the same paragraphs under the same initial
      label are the same groups with the same labels. */
  lemma {:induction false} GreedyUnique(count: string -> nat, gs: seq<Group>, hs: seq<Group>, paras: seq<string>, init: string)
    requires Partitions(gs, paras) && Partitions(hs, paras)
    requires Greedy(count, gs) && Greedy(count, hs)
    requires Labelled(gs, init) && Labelled(hs, init)
    ensures gs == hs
    decreases |gs|
  {
    if gs == [] || hs == [] {
      ConcatEmpty(gs);
      ConcatEmpty(hs);
    } else {
      FirstGroupBound(count, gs, hs);
      FirstGroupBound(count, hs, gs);
      var a := |gs[0].paras|;
      var gt, ht := gs[1..], hs[1..];
      assert paras == gs[0].paras + Concat(gt) == hs[0].paras + Concat(ht);
      assert gs[0].paras == paras[..a] == hs[0].paras;
      assert Concat(gt) == paras[a..] == Concat(ht);
      assert gs[0] == hs[0];
      ConcatEmpty(gt);
      ConcatEmpty(ht);
      var init' := if gt != [] then gt[0].section else init;
      if gt != [] {
        assert Concat(gt) == gt[0].paras + Concat(gt[1..]);
        assert Concat(ht) == ht[0].paras + Concat(ht[1..]);
        assert gs[1].paras[0] == Concat(gt)[0] == hs[1].paras[0];
        SecondLabel(gs, hs, init);
      }
      TailGreedy(count, gs);
      TailGreedy(count, hs);
      TailLabelled(gs, init, init');
      TailLabelled(hs, init, init');
      GreedyUnique(count, gt, ht, paras[a..], init');
      assert gs == [gs[0]] + gt && hs == [hs[0]] + ht;
    }
  }

  /** Non-empty groups concatenate to nothing only when there are none. */
  lemma ConcatEmpty(gs: seq<Group>)
    requires forall i :: 0 <= i < |gs| ==> gs[i].paras != []
    ensures gs == [] <==> Concat(gs) == []
  {
    if gs != [] {
      assert |Concat(gs)| >= |gs[0].paras|;
    }
  }

  /** A greedy partition's first group is at least as long as any rival's
      first group that fits: the paragraph closing it did not fit. */
  lemma FirstGroupBound(count: string -> nat, gs: seq<Group>, hs: seq<Group>)
    requires gs != [] && hs != [] && Concat(gs) == Concat(hs)
    requires forall i :: 0 <= i < |gs| ==> gs[i].paras != []
    requires Greedy(count, gs) && Fits(count, hs[0].paras)
    ensures |hs[0].paras| <= |gs[0].paras|
  {
    var x, u := gs[0].paras, hs[0].paras;
    if |x| < |u| {
      var y := Concat(gs[1..]);
      assert x + y == u + Concat(hs[1..]);
      ConcatEmpty(gs[1..]);
      assert gs[1..][0] == gs[1];
      assert y == gs[1].paras + Concat(gs[2..]);
      var p := gs[1].paras[0];
      assert CutAt(count, gs, 1);
      PrefixExtends(x, y, u, Concat(hs[1..]), gs[1].paras, Concat(gs[2..]));
      JoinSnoc(x, p, ParaSep);
      FitsPrefix(count, u, |x| + 1);
    }
  }

  lemma FitsPrefix(count: string -> nat, ps: seq<string>, m: nat)
    requires Fits(count, ps) && 2 <= m <= |ps|
    ensures count(Join(ps[..m], ParaSep)) < ChunkBudget
  {
    assert PrefixFits(count, ps, m);
  }

  /** If `x + y == u + v` with `x` shorter than `u`, then `u` continues `x`
      with the first element of `y`. */
  lemma PrefixExtends<T>(x: seq<T>, y: seq<T>, u: seq<T>, v: seq<T>, w: seq<T>, z: seq<T>)
    requires x + y == u + v && |x| < |u| && y == w + z && w != []
    ensures u[..|x| + 1] == x + [w[0]]
  {
    forall k | 0 <= k <= |x|
      ensures u[k] == (x + [w[0]])[k]
    {
      assert u[k] == (u + v)[k] == (x + y)[k];
    }
  }

  /** Two labelled groupings agreeing on their first group and the first
      paragraph of their second give the second group the same label. */
  lemma SecondLabel(gs: seq<Group>, hs: seq<Group>, init: string)
    requires |gs| > 1 && |hs| > 1 && gs[0] == hs[0]
    requires gs[1].paras != [] && hs[1].paras != [] && gs[1].paras[0] == hs[1].paras[0]
    requires Labelled(gs, init) && Labelled(hs, init)
    ensures gs[1].section == hs[1].section
  {
    assert LabelAt(gs, 1) && LabelAt(hs, 1);
  }

  lemma TailGreedy(count: string -> nat, gs: seq<Group>)
    requires Greedy(count, gs) && gs != []
    ensures Greedy(count, gs[1..])
  {
    var t := gs[1..];
    forall i: nat | 0 < i < |t|
      ensures CutAt(count, t, i)
    {
      assert CutAt(count, gs, i + 1);
    }
  }

  lemma TailLabelled(gs: seq<Group>, init: string, init': string)
    requires Labelled(gs, init) && gs != []
    requires |gs| > 1 ==> gs[1].section == init'
    ensures Labelled(gs[1..], init')
  {
    var t := gs[1..];
    forall i: nat | 0 < i < |t|
      ensures LabelAt(t, i)
    {
      assert LabelAt(gs, i + 1);
    }
  }

  lemma {:induction false} ConcatSnoc(gs: seq<Group>, g: Group)
    ensures Concat(gs + [g]) == Concat(gs) + g.paras
  {
    if gs != [] {
      assert (gs + [g])[1..] == gs[1..] + [g];
      ConcatSnoc(gs[1..], g);
    }
  }

  /** Each paragraph of each group occurs in the concatenation. */
  lemma {:induction false} ConcatMember(gs: seq<Group>, i: nat, j: nat)
    requires i < |gs| && j < |gs[i].paras|
    ensures gs[i].paras[j] in Concat(gs)
  {
    if i > 0 {
      ConcatMember(gs[1..], i - 1, j);
    } else {
      assert Concat(gs)[j] == gs[0].paras[j];
    }
  }

  /** Non-empty groups each hold at least one paragraph. */
  lemma {:induction false} ConcatLength(gs: seq<Group>)
    requires forall i :: 0 <= i < |gs| ==> gs[i].paras != []
    ensures |gs| <= |Concat(gs)|
  {
    if gs != [] {
      ConcatLength(gs[1..]);
    }
  }

  /** Joining each group and then joining the results gives the same text as
      joining all paragraphs at once. */
  lemma {:induction false} JoinGroups(gs: seq<Group>)
    requires forall i :: 0 <= i < |gs| ==> gs[i].paras != []
    ensures Join(seq(|gs|, i requires 0 <= i < |gs| => Join(gs[i].paras, ParaSep)), ParaSep)
         == Join(Concat(gs), ParaSep)
  {
    var js := seq(|gs|, i requires 0 <= i < |gs| => Join(gs[i].paras, ParaSep));
    if |gs| == 1 {
      assert Concat(gs) == gs[0].paras;
    } else if |gs| > 1 {
      var rest := seq(|gs| - 1, i requires 0 <= i < |gs| - 1 => Join(gs[1..][i].paras, ParaSep));
      assert js[1..] == rest;
      JoinGroups(gs[1..]);
      ConcatLength(gs[1..]);
      JoinAppend(gs[0].paras, Concat(gs[1..]), ParaSep);
    }
  }

  // ---------------------------------------------------------------------
  // Properties of the chunks

  /** Each group's joined text is solid, so stripping it changes nothing,
      and a one-paragraph group's text is that paragraph. */
  lemma GroupTexts(gs: seq<Group>, paras: seq<string>)
    requires forall i :: 0 <= i < |paras| ==> Solid(paras[i])
    requires Partitions(gs, paras)
    ensures forall i :: 0 <= i < |gs| ==>
      && Solid(Join(gs[i].paras, ParaSep))
      && Strip(Join(gs[i].paras, ParaSep)) == Join(gs[i].paras, ParaSep)
      && (|gs[i].paras| == 1 ==> Join(gs[i].paras, ParaSep) in paras)
  {
    forall i | 0 <= i < |gs|
      ensures Solid(Join(gs[i].paras, ParaSep))
      ensures Strip(Join(gs[i].paras, ParaSep)) == Join(gs[i].paras, ParaSep)
      ensures |gs[i].paras| == 1 ==> Join(gs[i].paras, ParaSep) in paras
    {
      forall j | 0 <= j < |gs[i].paras|
        ensures Solid(gs[i].paras[j])
      {
        ConcatMember(gs, i, j);
      }
      JoinSolid(gs[i].paras, ParaSep);
      StripTrimmed(Join(gs[i].paras, ParaSep));
      if |gs[i].paras| == 1 {
        ConcatMember(gs, i, 0);
      }
    }
  }

  /** The visible characters of a join with a whitespace-only separator are
      those of its first piece followed by those of the rest. */
  lemma VisibleJoinCons(x: string, xs: seq<string>, sep: string)
    requires Visible(sep) == []
    ensures Visible(Join([x] + xs, sep)) == Visible(x) + Visible(Join(xs, sep))
  {
    if xs == [] {
      assert [x] + xs == [x];
    } else {
      assert ([x] + xs)[1..] == xs;
      assert Join([x] + xs, sep) == x + (sep + Join(xs, sep));
      VisibleAppend(x, sep + Join(xs, sep));
      VisibleAppend(sep, Join(xs, sep));
    }
  }

  lemma ParaSepInvisible()
    ensures Visible(ParaSep) == []
  {
    VisibleBlank(ParaSep);
  }

  /** Stripping the pieces and dropping the blank ones keeps every visible
      character of their blank-line join, in order. */
  lemma {:induction false} KeepStrippedVisible(pieces: seq<string>, sep: string)
    requires Visible(sep) == []
    ensures Visible(Join(KeepStripped(pieces), sep)) == Visible(Join(pieces, sep))
  {
    if pieces != [] {
      var a, rest := pieces[0], pieces[1..];
      KeepStrippedVisible(rest, sep);
      assert pieces == [a] + rest;
      VisibleJoinCons(a, rest, sep);
      StripVisible(a);
      if Strip(a) != [] {
        assert KeepStripped(pieces) == [Strip(a)] + KeepStripped(rest);
        VisibleJoinCons(Strip(a), KeepStripped(rest), sep);
      } else {
        assert KeepStripped(pieces) == KeepStripped(rest);
      }
    }
  }

  /** The paragraphs hold exactly the page's visible characters, in order:
      rejoined, they differ from the page only in whitespace. */
  lemma ParagraphsVisible(text: string)
    ensures Visible(Join(Paragraphs(text), ParaSep)) == Visible(text)
  {
    JoinSplit(text, ParaSep);
    ParaSepInvisible();
    KeepStrippedVisible(Split(text, ParaSep), ParaSep);
  }

  /** The multi-chunk path: chunk `i` is group `i` of `GroupingSpec`, its
      text being the group's paragraphs joined by a blank line and its token
      count that of its own text. */
  lemma PackedChunksGroups(count: string -> nat, text: string, page: nat)
    ensures var cs := PackedChunks(count, text, page);
            var gs := Grouping(count, Paragraphs(text), page);
            && |cs| == |gs|
            && forall i :: 0 <= i < |cs| ==>
                 && cs[i].text == Join(gs[i].paras, ParaSep)
                 && Solid(cs[i].text)
                 && cs[i].section == gs[i].section
                 && cs[i].page == page
                 && cs[i].tokens == count(cs[i].text)
                 && (|gs[i].paras| == 1 ==> cs[i].text in Paragraphs(text))
  {
    var paras := Paragraphs(text);
    var gs := Grouping(count, paras, page);
    GroupingSpec(count, paras, page);
    GroupTexts(gs, paras);
  }

  /** The multi-chunk path: joining the chunk texts with a blank line gives
      back the joined paragraphs (order kept, nothing lost or repeated);
      chunks are non-empty, under the budget unless they are a single
      paragraph, and no more numerous than the paragraphs. */
  lemma PackedChunksSpec(count: string -> nat, text: string, page: nat)
    ensures var cs := PackedChunks(count, text, page);
            var paras := Paragraphs(text);
            && Join(Texts(cs), ParaSep) == Join(paras, ParaSep)
            && Visible(Join(Texts(cs), ParaSep)) == Visible(text)
            && |cs| <= |paras|
            && (paras != [] ==> |cs| > 0)
            && (|cs| > 0 ==> cs[0].section == InitialSection(paras, page))
            && (forall i :: 0 <= i < |cs| ==>
                  && Solid(cs[i].text)
                  && cs[i].page == page
                  && cs[i].tokens == count(cs[i].text)
                  && (cs[i].tokens < ChunkBudget || cs[i].text in paras))
  {
    var cs := PackedChunks(count, text, page);
    var paras := Paragraphs(text);
    var gs := Grouping(count, paras, page);
    GroupingSpec(count, paras, page);
    PackedChunksGroups(count, text, page);
    assert Texts(cs) == seq(|gs|, i requires 0 <= i < |gs| => Join(gs[i].paras, ParaSep));
    JoinGroups(gs);
    ConcatLength(gs);
    ParagraphsVisible(text);
  }

  /** Consequence for `_split_by_sections` on a page at or over the budget. */
  lemma SplitSectionsLong(count: string -> nat, text: string, page: nat)
    requires count(text) >= ChunkBudget
    ensures var cs := SplitSections(count, text, page);
            var paras := Paragraphs(text);
            && Join(Texts(cs), ParaSep) == Join(paras, ParaSep)
            && Visible(Join(Texts(cs), ParaSep)) == Visible(text)
            && |cs| <= |paras| && (paras != [] ==> |cs| > 0)
            && (|cs| > 0 ==> cs[0].section == InitialSection(paras, page))
            && (forall i :: 0 <= i < |cs| ==>
                  Solid(cs[i].text) && cs[i].tokens == count(cs[i].text)
                  && (cs[i].tokens < ChunkBudget || cs[i].text in paras))
  {
    PackedChunksSpec(count, text, page);
    GroupingSpec(count, Paragraphs(text), page);
  }

  /** `_split_by_sections` loses no visible character of the page and adds
      none: the chunk texts joined by a blank line differ from the page only
      in whitespace, on either path. */
  lemma SplitSectionsVisible(count: string -> nat, text: string, page: nat)
    ensures Visible(Join(Texts(SplitSections(count, text, page)), ParaSep)) == Visible(text)
  {
    if count(text) < ChunkBudget {
      assert Texts(SplitSections(count, text, page)) == [text];
    } else {
      PackedChunksSpec(count, text, page);
    }
  }
}
