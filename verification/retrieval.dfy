/** `build_index` and `get_context`: the document list `all_docs` is rebuilt
    from the cleaned text's chunks and the figure descriptions, the vector
    index is rebuilt from the documents' contents, and retrieved documents
    are joined into one context string.

    The module globals `CURRENT_PDF`, `all_docs` and `index` are an explicit
    `IndexState`. What the foreign libraries produce is an input: the words
    of each page, the description returned for each detected figure box of
    each rendered page, and the ids a nearest-neighbour search returns. The
    vector index is represented by the texts embedded into it, in insertion
    order, so its position `k` stands for the embedding of that text. */
module Retrieval {
  import opened Wrappers
  import opened PyText
  import opened Cleanup
  import opened Chunking

  /** The sentence the figure describer is told to give for an image that is
      not a scientific figure. */
  const Refusal: string := "This image does not appear to be a scientific figure from the paper."

  /** What `get_context` puts between two retrieved documents. */
  const ContextSeparator: string := "\n\n---\n\n"

  /** One entry of `all_docs`: a text chunk, or a figure description with the
      1-based number of the page it was cut from. */
  datatype Doc = TextDoc(content: string) | FigureDoc(content: string, page: nat)

  /** `CURRENT_PDF`, `all_docs` and `index`. */
  datatype IndexState = IndexState(currentPdf: Option<string>, docs: seq<Doc>, index: Option<seq<string>>)

  /** Why `build_index` raises. */
  datatype BuildError =
    | DescriptionMissing  // a description came back as `None`, so `.strip()` raises
    | NothingExtracted    // "No text or figures extracted from PDF."

  /** Why `get_context` raises. */
  datatype ContextError =
    | NotProcessed        // "PDF not processed yet (index is None)"
    | IdOutOfRange        // `all_docs[i]` raises IndexError

  /** The state after `build_index`, and what it returned or raised. */
  datatype Built = Built(state: IndexState, result: Result<nat, BuildError>)

  /** Figure documents appended by a scan, and whether it stopped on a missing description. */
  datatype Collected = Collected(docs: seq<Doc>, failed: bool)

  /** What the describer returned for one figure box, with the refusal test
      already applied to it. */
  datatype Reply = NoDescription | Description(text: string, refused: bool)

  /** The description is the refusal sentence, up to surrounding whitespace.
      This is the test `build_index` applies; the scan and the lemmas about
      it take the test as a parameter `refused` and hold for any test. */
  predicate IsRefusal(desc: string)
  {
    Strip(desc) == Refusal
  }

  /** Every detected figure came back with a description. */
  predicate AllDescribed(figures: seq<seq<Option<string>>>)
  {
    forall i :: 0 <= i < |figures| ==> None !in figures[i]
  }

  function ReplyOf(desc: Option<string>, refused: string -> bool): Reply
  {
    match desc
    case None => NoDescription
    case Some(d) => Description(d, refused(d))
  }

  /** The replies for the boxes of one page, box by box. */
  function PageReplies(descs: seq<Option<string>>, refused: string -> bool): (r: seq<Reply>)
    ensures |r| == |descs|
    ensures forall j :: 0 <= j < |descs| ==> r[j] == ReplyOf(descs[j], refused)
  {
    seq(|descs|, j requires 0 <= j < |descs| => ReplyOf(descs[j], refused))
  }

  /** The replies for the boxes of every page, page by page. */
  function Replies(figures: seq<seq<Option<string>>>, refused: string -> bool): (r: seq<seq<Reply>>)
    ensures |r| == |figures|
    ensures forall i :: 0 <= i < |figures| ==> r[i] == PageReplies(figures[i], refused)
  {
    seq(|figures|, i requires 0 <= i < |figures| => PageReplies(figures[i], refused))
  }

  /** A kept reply among a page's replies is a description found on that
      page that is not the refusal. */
  lemma KeptReplyOnPage(descs: seq<Option<string>>, text: string, refused: string -> bool)
    requires Description(text, false) in PageReplies(descs, refused)
    ensures Some(text) in descs && !refused(text)
  {
    var r := PageReplies(descs, refused);
    var j :| 0 <= j < |r| && r[j] == Description(text, false);
    assert ReplyOf(descs[j], refused) == Description(text, false);
    assert descs[j] == Some(text);
  }

  /** A page has a missing reply exactly when a description is missing on it. */
  lemma MissingReplyMeaning(figures: seq<seq<Option<string>>>, refused: string -> bool)
    ensures AnyMissing(Replies(figures, refused)) <==> !AllDescribed(figures)
  {
    var r := Replies(figures, refused);
    forall i | 0 <= i < |figures|
      ensures NoDescription in r[i] <==> None in figures[i]
    {
      assert forall j :: 0 <= j < |figures[i]| ==> (r[i][j] == NoDescription <==> figures[i][j] == None);
    }
  }

  /** The inner loop of `build_index` over the boxes of one page: each
      description that is not the refusal becomes a figure document of that
      page, in box order; a missing description stops the scan, keeping what
      was appended before it. */
  function PageFigures(replies: seq<Reply>, page: nat): Collected
    decreases |replies|
  {
    if |replies| == 0 then Collected([], false)
    else
      match replies[0]
      case NoDescription => Collected([], true)
      case Description(d, refused) =>
        var rest := PageFigures(replies[1..], page);
        Collected((if refused then [] else [FigureDoc(d, page)]) + rest.docs, rest.failed)
  }

  /** Some page has a missing reply. */
  predicate AnyMissing(pages: seq<seq<Reply>>)
  {
    exists i :: 0 <= i < |pages| && NoDescription in pages[i]
  }

  /** The outer loop over the rendered pages, numbered from `first`: the
      pages' figure documents one page after another, stopping at the first
      page with a missing description. */
  function Figures(pages: seq<seq<Reply>>, first: nat): Collected
    decreases |pages|
  {
    if |pages| == 0 then Collected([], false)
    else
      var here := PageFigures(pages[0], first);
      if here.failed then here
      else
        var rest := Figures(pages[1..], first + 1);
        Collected(here.docs + rest.docs, rest.failed)
  }

  /** Membership in a concatenation. */
  lemma InConcat<T>(x: T, a: seq<T>, b: seq<T>)
    ensures x in a + b <==> x in a || x in b
  {
    if x in a + b {
      var k :| 0 <= k < |a + b| && (a + b)[k] == x;
      if k >= |a| {
        assert b[k - |a|] == x;
      }
    }
    if x in b {
      var k :| 0 <= k < |b| && b[k] == x;
      assert (a + b)[|a| + k] == x;
    }
  }

  /** The scan of a page fails exactly when one of its descriptions is missing. */
  lemma {:induction false} PageFiguresFailed(replies: seq<Reply>, page: nat)
    ensures PageFigures(replies, page).failed <==> NoDescription in replies
    decreases |replies|
  {
    if |replies| > 0 && replies[0].Description? {
      PageFiguresFailed(replies[1..], page);
      assert replies == [replies[0]] + replies[1..];
      InConcat(NoDescription, [replies[0]], replies[1..]);
    }
  }

  /** Each document is a figure of `page` whose text is a description among
      `replies` that is not the refusal. */
  predicate FromPage(docs: seq<Doc>, replies: seq<Reply>, page: nat)
  {
    forall k :: 0 <= k < |docs| ==>
      && docs[k] == FigureDoc(docs[k].content, page)
      && Description(docs[k].content, false) in replies
  }

  /** Each document is a figure numbered with one of the pages, counted from
      `first`, whose text is a description on that page that is not the refusal. */
  predicate FromPages(docs: seq<Doc>, pages: seq<seq<Reply>>, first: nat)
  {
    forall k :: 0 <= k < |docs| ==>
      && docs[k].FigureDoc?
      && first <= docs[k].page < first + |pages|
      && Description(docs[k].content, false) in pages[docs[k].page - first]
  }

  /** Figure documents appear in page order: their page numbers never decrease. */
  predicate InPageOrder(docs: seq<Doc>)
  {
    forall k, l :: 0 <= k < l < |docs| && docs[k].FigureDoc? && docs[l].FigureDoc? ==> docs[k].page <= docs[l].page
  }

  /** Every figure document of a page carries that page's number and a
      description found on the page that is not the refusal. */
  lemma {:induction false} PageFiguresSound(replies: seq<Reply>, page: nat)
    ensures FromPage(PageFigures(replies, page).docs, replies, page)
    decreases |replies|
  {
    if |replies| > 0 && replies[0].Description? {
      var rest := PageFigures(replies[1..], page);
      var kept := if replies[0].refused then [] else [FigureDoc(replies[0].text, page)];
      var docs := kept + rest.docs;
      assert replies[0] == Description(replies[0].text, replies[0].refused);
      assert PageFigures(replies, page).docs == docs;
      PageFiguresSound(replies[1..], page);
      forall k | 0 <= k < |docs|
        ensures docs[k] == FigureDoc(docs[k].content, page) && Description(docs[k].content, false) in replies
      {
        if k < |kept| {
          assert docs[k] == FigureDoc(replies[0].text, page);
          assert replies[0] == Description(docs[k].content, false);
        } else {
          var d := rest.docs[k - |kept|];
          assert docs[k] == d;
          var j :| 0 <= j < |replies[1..]| && replies[1..][j] == Description(d.content, false);
          assert replies[j + 1] == Description(d.content, false);
        }
      }
    }
  }

  /** The scan fails exactly when some page has a missing description. */
  lemma {:induction false} FiguresFailed(pages: seq<seq<Reply>>, first: nat)
    ensures Figures(pages, first).failed <==> AnyMissing(pages)
    decreases |pages|
  {
    if |pages| > 0 {
      PageFiguresFailed(pages[0], first);
      if NoDescription !in pages[0] {
        FiguresFailed(pages[1..], first + 1);
        if AnyMissing(pages) {
          var i :| 0 <= i < |pages| && NoDescription in pages[i];
          assert pages[1..][i - 1] == pages[i];
        }
        if AnyMissing(pages[1..]) {
          var i :| 0 <= i < |pages[1..]| && NoDescription in pages[1..][i];
          assert pages[i + 1] == pages[1..][i];
        }
      }
    }
  }

  /** Every figure document is numbered with one of the scanned pages and is
      a description found on that page that is not the refusal. */
  lemma {:induction false} FiguresSound(pages: seq<seq<Reply>>, first: nat)
    ensures FromPages(Figures(pages, first).docs, pages, first)
    decreases |pages|
  {
    if |pages| > 0 {
      var here := PageFigures(pages[0], first);
      PageFiguresSound(pages[0], first);
      if !here.failed {
        var rest := Figures(pages[1..], first + 1);
        var docs := here.docs + rest.docs;
        assert Figures(pages, first).docs == docs;
        FiguresSound(pages[1..], first + 1);
        forall k | 0 <= k < |docs|
          ensures && docs[k].FigureDoc?
                  && first <= docs[k].page < first + |pages|
                  && Description(docs[k].content, false) in pages[docs[k].page - first]
        {
          if k < |here.docs| {
            assert docs[k] == here.docs[k];
          } else {
            var d := rest.docs[k - |here.docs|];
            assert docs[k] == d;
            assert pages[1..][d.page - (first + 1)] == pages[d.page - first];
          }
        }
      }
    }
  }

  /** The figure documents come page by page. */
  lemma {:induction false} FiguresInPageOrder(pages: seq<seq<Reply>>, first: nat)
    ensures InPageOrder(Figures(pages, first).docs)
    decreases |pages|
  {
    if |pages| > 0 {
      var here := PageFigures(pages[0], first);
      PageFiguresSound(pages[0], first);
      if !here.failed {
        var rest := Figures(pages[1..], first + 1);
        var docs := here.docs + rest.docs;
        assert Figures(pages, first).docs == docs;
        FiguresInPageOrder(pages[1..], first + 1);
        FiguresSound(pages[1..], first + 1);
        forall k, l | 0 <= k < l < |docs| && docs[k].FigureDoc? && docs[l].FigureDoc?
          ensures docs[k].page <= docs[l].page
        {
          if l < |here.docs| {
            assert docs[k] == here.docs[k] && docs[l] == here.docs[l];
          } else if k < |here.docs| {
            assert docs[k] == here.docs[k] && docs[l] == rest.docs[l - |here.docs|];
          } else {
            assert docs[k] == rest.docs[k - |here.docs|] && docs[l] == rest.docs[l - |here.docs|];
          }
        }
      } else {
        assert Figures(pages, first).docs == here.docs;
        forall k, l | 0 <= k < l < |here.docs|
          ensures here.docs[k].page == here.docs[l].page
        {
          assert here.docs[k] == FigureDoc(here.docs[k].content, first);
          assert here.docs[l] == FigureDoc(here.docs[l].content, first);
        }
      }
    }
  }

  /** With no reply missing, the kept description of box `j` is among the
      page's figure documents. */
  lemma {:induction false} PageFigureKept(replies: seq<Reply>, page: nat, j: nat)
    requires NoDescription !in replies
    requires j < |replies| && replies[j] == Description(replies[j].text, false)
    ensures FigureDoc(replies[j].text, page) in PageFigures(replies, page).docs
    decreases j
  {
    assert replies[0] != NoDescription;
    var rest := PageFigures(replies[1..], page);
    var kept := if replies[0].refused then [] else [FigureDoc(replies[0].text, page)];
    assert PageFigures(replies, page).docs == kept + rest.docs;
    if j == 0 {
      InConcat(FigureDoc(replies[j].text, page), kept, rest.docs);
    } else {
      assert replies[1..][j - 1] == replies[j];
      assert NoDescription !in replies[1..];
      PageFigureKept(replies[1..], page, j - 1);
      InConcat(FigureDoc(replies[j].text, page), kept, rest.docs);
    }
  }

  /** With no reply missing, the kept description of box `j` of page `i` is
      among the figure documents, with its page number. */
  lemma {:induction false} FigureKept(pages: seq<seq<Reply>>, first: nat, i: nat, j: nat)
    requires !AnyMissing(pages)
    requires i < |pages| && j < |pages[i]| && pages[i][j] == Description(pages[i][j].text, false)
    ensures FigureDoc(pages[i][j].text, first + i) in Figures(pages, first).docs
    decreases i
  {
    var here := PageFigures(pages[0], first);
    var rest := Figures(pages[1..], first + 1);
    var x := FigureDoc(pages[i][j].text, first + i);
    assert NoDescription !in pages[0];
    PageFiguresFailed(pages[0], first);
    assert Figures(pages, first).docs == here.docs + rest.docs;
    if i == 0 {
      PageFigureKept(pages[0], first, j);
    } else {
      assert !AnyMissing(pages[1..]) by {
        assert forall k :: 0 <= k < |pages| - 1 ==> pages[1..][k] == pages[k + 1];
      }
      assert pages[1..][i - 1] == pages[i];
      FigureKept(pages[1..], first + 1, i - 1, j);
    }
    InConcat(x, here.docs, rest.docs);
  }

  /** The figure documents of one page as a filter over its boxes: one per
      present description the refusal test does not reject, in box order. */
  function KeptOnPage(descs: seq<Option<string>>, page: nat, refused: string -> bool): seq<Doc>
    decreases |descs|
  {
    if |descs| == 0 then []
    else
      (if descs[0].Some? && !refused(descs[0].value) then [FigureDoc(descs[0].value, page)] else [])
      + KeptOnPage(descs[1..], page, refused)
  }

  /** The figure documents of every page, numbered from `first`, page after
      page: the list the two nested loops of `build_index` would append if
      none of them raised. */
  function KeptFigures(figures: seq<seq<Option<string>>>, first: nat, refused: string -> bool): seq<Doc>
    decreases |figures|
  {
    if |figures| == 0 then []
    else KeptOnPage(figures[0], first, refused) + KeptFigures(figures[1..], first + 1, refused)
  }

  /** A prefix stays one when the same text is put in front of both sides,
      or more text after the longer side. */
  lemma PrefixGrow(a: seq<Doc>, b: seq<Doc>, c: seq<Doc>, d: seq<Doc>)
    requires b <= c
    ensures a + b <= a + c + d
  {
    assert (a + c + d)[..|a + b|] == a + b;
  }

  /** The box scan of one page appends a prefix of the page's kept figures,
      and all of them when it does not stop on a missing description. */
  lemma {:induction false} PageFiguresAsKept(descs: seq<Option<string>>, page: nat, refused: string -> bool)
    ensures var c := PageFigures(PageReplies(descs, refused), page);
      && c.docs <= KeptOnPage(descs, page, refused)
      && (!c.failed ==> c.docs == KeptOnPage(descs, page, refused))
    decreases |descs|
  {
    var replies := PageReplies(descs, refused);
    if |descs| > 0 && descs[0].Some? {
      assert replies[1..] == PageReplies(descs[1..], refused);
      PageFiguresAsKept(descs[1..], page, refused);
      var kept := if refused(descs[0].value) then [] else [FigureDoc(descs[0].value, page)];
      PrefixGrow(kept, PageFigures(replies[1..], page).docs, KeptOnPage(descs[1..], page, refused), []);
      assert kept + KeptOnPage(descs[1..], page, refused) + [] == KeptOnPage(descs, page, refused);
    }
  }

  /** The page scan appends a prefix of the kept figures of all pages, and
      all of them when no description is missing. */
  lemma {:induction false} FiguresAsKept(figures: seq<seq<Option<string>>>, first: nat, refused: string -> bool)
    ensures var c := Figures(Replies(figures, refused), first);
      && c.docs <= KeptFigures(figures, first, refused)
      && (!c.failed ==> c.docs == KeptFigures(figures, first, refused))
    decreases |figures|
  {
    if |figures| > 0 {
      var pages := Replies(figures, refused);
      assert pages[0] == PageReplies(figures[0], refused);
      assert pages[1..] == Replies(figures[1..], refused);
      PageFiguresAsKept(figures[0], first, refused);
      FiguresAsKept(figures[1..], first + 1, refused);
      var here := PageFigures(pages[0], first);
      var rest := Figures(pages[1..], first + 1);
      var keptHere := KeptOnPage(figures[0], first, refused);
      var keptRest := KeptFigures(figures[1..], first + 1, refused);
      if here.failed {
        PrefixGrow([], here.docs, keptHere, keptRest);
        assert [] + keptHere + keptRest == KeptFigures(figures, first, refused);
        assert [] + here.docs == here.docs;
      } else {
        PrefixGrow(here.docs, rest.docs, keptRest, []);
        assert here.docs + keptRest + [] == KeptFigures(figures, first, refused);
      }
    }
  }

  /** Position of the first missing description of a page, or the number
      of boxes when none is missing. */
  function FirstNone(descs: seq<Option<string>>): (k: nat)
    ensures k <= |descs|
    ensures forall j :: 0 <= j < k ==> descs[j].Some?
    ensures k == |descs| || descs[k].None?
    decreases |descs|
  {
    if |descs| == 0 || descs[0].None? then 0 else 1 + FirstNone(descs[1..])
  }

  /** Position of the first page with a missing description, or the number
      of pages when none has one. */
  function FirstNonePage(figures: seq<seq<Option<string>>>): (p: nat)
    ensures p <= |figures|
    ensures forall i :: 0 <= i < p ==> None !in figures[i]
    ensures p == |figures| || None in figures[p]
    decreases |figures|
  {
    if |figures| == 0 || None in figures[0] then 0 else 1 + FirstNonePage(figures[1..])
  }

  /** What the two nested loops of `build_index` have appended when they
      stop, pages numbered from `first`: the kept figures of every page
      before the first page with a missing description, then the kept figures
      of the boxes of that page before its first missing description. */
  function KeptBeforeMissing(figures: seq<seq<Option<string>>>, first: nat, refused: string -> bool): seq<Doc>
  {
    var p := FirstNonePage(figures);
    KeptFigures(figures[..p], first, refused)
      + (if p < |figures| then KeptOnPage(figures[p][..FirstNone(figures[p])], first + p, refused) else [])
  }

  /** A first page with every description present contributes all its kept
      figures, and the rest is worked out from the next page on. */
  lemma KeptBeforeMissingCons(figures: seq<seq<Option<string>>>, first: nat, refused: string -> bool)
    requires |figures| > 0 && None !in figures[0]
    ensures KeptBeforeMissing(figures, first, refused)
      == KeptOnPage(figures[0], first, refused) + KeptBeforeMissing(figures[1..], first + 1, refused)
  {
    var p := FirstNonePage(figures);
    assert p == 1 + FirstNonePage(figures[1..]);
    var before := figures[..p];
    assert before[0] == figures[0] && before[1..] == figures[1..][..p - 1];
    if p < |figures| {
      assert figures[1..][p - 1] == figures[p];
    }
  }

  /** The box scan of one page appends exactly the kept figures of the boxes
      before the first missing description, and stops exactly when there is
      one. */
  lemma {:induction false} PageFiguresUpTo(descs: seq<Option<string>>, page: nat, refused: string -> bool)
    ensures var c := PageFigures(PageReplies(descs, refused), page);
      && c.docs == KeptOnPage(descs[..FirstNone(descs)], page, refused)
      && (c.failed <==> FirstNone(descs) < |descs|)
    decreases |descs|
  {
    var replies := PageReplies(descs, refused);
    if |descs| > 0 && descs[0].Some? {
      assert replies[1..] == PageReplies(descs[1..], refused);
      PageFiguresUpTo(descs[1..], page, refused);
      var before := descs[..FirstNone(descs)];
      assert before[0] == descs[0] && before[1..] == descs[1..][..FirstNone(descs[1..])];
    }
  }

  /** The page scan appends exactly `KeptBeforeMissing`, and stops exactly
      when some page has a missing description. */
  lemma {:induction false} FiguresUpTo(figures: seq<seq<Option<string>>>, first: nat, refused: string -> bool)
    ensures Figures(Replies(figures, refused), first).docs == KeptBeforeMissing(figures, first, refused)
    ensures Figures(Replies(figures, refused), first).failed <==> FirstNonePage(figures) < |figures|
    decreases |figures|
  {
    if |figures| > 0 {
      var pages := Replies(figures, refused);
      assert pages[0] == PageReplies(figures[0], refused);
      assert pages[1..] == Replies(figures[1..], refused);
      PageFiguresUpTo(figures[0], first, refused);
      if None in figures[0] {
        assert FirstNone(figures[0]) < |figures[0]| by {
          var j :| 0 <= j < |figures[0]| && figures[0][j] == None;
        }
        assert figures[..0] == [];
      } else {
        assert figures[0][..FirstNone(figures[0])] == figures[0];
        FiguresUpTo(figures[1..], first + 1, refused);
        KeptBeforeMissingCons(figures, first, refused);
      }
    }
  }

  /** The text documents: one per chunk, in chunk order. */
  function TextDocs(chunks: seq<string>): (r: seq<Doc>)
    ensures |r| == |chunks|
    ensures forall i :: 0 <= i < |r| ==> r[i] == TextDoc(chunks[i])
  {
    seq(|chunks|, i requires 0 <= i < |chunks| => TextDoc(chunks[i]))
  }

  /** The texts handed to the embedding model: each document's content, in order. */
  function Contents(docs: seq<Doc>): (r: seq<string>)
    ensures |r| == |docs|
    ensures forall i :: 0 <= i < |docs| ==> r[i] == docs[i].content
  {
    seq(|docs|, i requires 0 <= i < |docs| => docs[i].content)
  }

  /** The chunks `build_index` makes of the cleaned text, with the default
      window length and overlap. */
  function TextChunks(pageWords: seq<seq<string>>): seq<string>
  {
    Chunks(ExtractTextClean(pageWords), DefaultChunkSize, DefaultOverlap)
  }

  /** `build_index(pdf_path)` once the text chunks and the figure replies are
      known. `CURRENT_PDF` is set and `all_docs` reset before anything can
      fail; the text chunks go in first, then the figure documents; a missing
      description or an empty document list raises and leaves the old index
      in place; otherwise the index is rebuilt from the documents' contents
      and their number is returned. */
  function Assemble(state: IndexState, pdfPath: string, chunks: seq<string>, pages: seq<seq<Reply>>): (r: Built)
    ensures r.state.currentPdf == Some(pdfPath)
    ensures r.result.Err? ==> r.state.index == state.index
    ensures r.result.Ok? ==>
      && r.result.value == |r.state.docs| > 0
      && r.state.index == Some(Contents(r.state.docs))
  {
    var figs := Figures(pages, 1);
    var docs := TextDocs(chunks) + figs.docs;
    if figs.failed then Built(IndexState(Some(pdfPath), docs, state.index), Err(DescriptionMissing))
    else if |docs| == 0 then Built(IndexState(Some(pdfPath), docs, state.index), Err(NothingExtracted))
    else Built(IndexState(Some(pdfPath), docs, Some(Contents(docs))), Ok(|docs|))
  }

  /** `build_index` raises for a missing description exactly when some page
      has one, and reports that nothing was extracted exactly when every
      description is present and the document list is empty. */
  lemma AssembleErrors(state: IndexState, pdfPath: string, chunks: seq<string>, pages: seq<seq<Reply>>)
    ensures Assemble(state, pdfPath, chunks, pages).result == Err(DescriptionMissing) <==> AnyMissing(pages)
    ensures Assemble(state, pdfPath, chunks, pages).result == Err(NothingExtracted)
      <==> !AnyMissing(pages) && Assemble(state, pdfPath, chunks, pages).state.docs == []
  {
    FiguresFailed(pages, 1);
  }

  /** `build_index(pdf_path)`: the words of each page and the description of
      each detected figure box of each rendered page are what the libraries
      and the describer produced. */
  function BuildIndex(state: IndexState, pdfPath: string, pageWords: seq<seq<string>>,
                      figures: seq<seq<Option<string>>>): (r: Built)
    ensures r.state.currentPdf == Some(pdfPath)
    ensures r.result == Err(DescriptionMissing) <==> !AllDescribed(figures)
    ensures r.result.Err? ==> r.state.index == state.index
    ensures r.result.Ok? ==>
      && r.result.value == |r.state.docs| > 0
      && r.state.index == Some(Contents(r.state.docs))
  {
    MissingReplyMeaning(figures, IsRefusal);
    AssembleErrors(state, pdfPath, TextChunks(pageWords), Replies(figures, IsRefusal));
    Assemble(state, pdfPath, TextChunks(pageWords), Replies(figures, IsRefusal))
  }

  /** Each document is a figure numbered with a page of `figures` whose text
      is a description found on that page that is not the refusal. */
  predicate DescribedOn(docs: seq<Doc>, figures: seq<seq<Option<string>>>, refused: string -> bool)
  {
    forall k :: 0 <= k < |docs| ==>
      && docs[k].FigureDoc?
      && 1 <= docs[k].page <= |figures|
      && Some(docs[k].content) in figures[docs[k].page - 1]
      && !refused(docs[k].content)
  }

  /** The layout of `all_docs`: the text chunks first, in order, then figure
      documents only, in page order, each a description found on its page
      that is not the refusal. */
  predicate Layout(docs: seq<Doc>, chunks: seq<string>, figures: seq<seq<Option<string>>>, refused: string -> bool)
  {
    && |chunks| <= |docs|
    && docs[..|chunks|] == TextDocs(chunks)
    && DescribedOn(docs[|chunks|..], figures, refused)
    && InPageOrder(docs)
  }

  /** Every figure document of the scan is a description found on its page
      that is not the refusal. */
  lemma FigureDocsMeaning(figures: seq<seq<Option<string>>>, refused: string -> bool)
    ensures DescribedOn(Figures(Replies(figures, refused), 1).docs, figures, refused)
  {
    var figs := Figures(Replies(figures, refused), 1).docs;
    FiguresSound(Replies(figures, refused), 1);
    forall k | 0 <= k < |figs|
      ensures Some(figs[k].content) in figures[figs[k].page - 1] && !refused(figs[k].content)
    {
      KeptReplyOnPage(figures[figs[k].page - 1], figs[k].content, refused);
    }
  }

  /** The document list `build_index` leaves behind, whether or not it raised,
      has the layout above. Its figure part is exactly what the scan appended
      before it stopped, which is a prefix of the kept figures; with every
      description present it is the text chunks followed by all kept figures. */
  lemma BuildIndexDocs(state: IndexState, pdfPath: string, pageWords: seq<seq<string>>,
                       figures: seq<seq<Option<string>>>)
    ensures var docs := BuildIndex(state, pdfPath, pageWords, figures).state.docs;
      && Layout(docs, TextChunks(pageWords), figures, IsRefusal)
      && docs[|TextChunks(pageWords)|..] <= KeptFigures(figures, 1, IsRefusal)
      && docs == TextDocs(TextChunks(pageWords)) + KeptBeforeMissing(figures, 1, IsRefusal)
      && (AllDescribed(figures) ==> docs == TextDocs(TextChunks(pageWords)) + KeptFigures(figures, 1, IsRefusal))
  {
    AssembleDocs(state, pdfPath, TextChunks(pageWords), figures, IsRefusal);
  }

  /** `BuildIndexDocs` for any list of text chunks. */
  lemma AssembleDocs(state: IndexState, pdfPath: string, chunks: seq<string>, figures: seq<seq<Option<string>>>,
                     refused: string -> bool)
    ensures var docs := Assemble(state, pdfPath, chunks, Replies(figures, refused)).state.docs;
      && Layout(docs, chunks, figures, refused)
      && docs[|chunks|..] <= KeptFigures(figures, 1, refused)
      && docs == TextDocs(chunks) + KeptBeforeMissing(figures, 1, refused)
      && (AllDescribed(figures) ==> docs == TextDocs(chunks) + KeptFigures(figures, 1, refused))
  {
    var figs := Figures(Replies(figures, refused), 1).docs;
    var docs := Assemble(state, pdfPath, chunks, Replies(figures, refused)).state.docs;
    assert docs == TextDocs(chunks) + figs;
    FigureDocsMeaning(figures, refused);
    FiguresInPageOrder(Replies(figures, refused), 1);
    ConcatLayout(TextDocs(chunks), figs, figures, refused);
    FiguresAsKept(figures, 1, refused);
    FiguresUpTo(figures, 1, refused);
    MissingReplyMeaning(figures, refused);
    FiguresFailed(Replies(figures, refused), 1);
  }

  /** The count `build_index` returns is the number of text chunks plus the
      number of kept figure descriptions. */
  lemma BuildIndexCount(state: IndexState, pdfPath: string, pageWords: seq<seq<string>>,
                        figures: seq<seq<Option<string>>>)
    requires BuildIndex(state, pdfPath, pageWords, figures).result.Ok?
    ensures BuildIndex(state, pdfPath, pageWords, figures).result.value
      == |TextChunks(pageWords)| + |KeptFigures(figures, 1, IsRefusal)|
  {
    BuildIndexDocs(state, pdfPath, pageWords, figures);
  }

  /** Text documents followed by figure documents that are described and in
      page order have the layout above. */
  lemma ConcatLayout(texts: seq<Doc>, figs: seq<Doc>, figures: seq<seq<Option<string>>>, refused: string -> bool)
    requires forall k :: 0 <= k < |texts| ==> texts[k].TextDoc?
    requires DescribedOn(figs, figures, refused) && InPageOrder(figs)
    ensures (texts + figs)[..|texts|] == texts && (texts + figs)[|texts|..] == figs
    ensures InPageOrder(texts + figs)
  {
    var docs := texts + figs;
    assert docs[..|texts|] == texts && docs[|texts|..] == figs;
    forall k, l | 0 <= k < l < |docs| && docs[k].FigureDoc? && docs[l].FigureDoc?
      ensures docs[k].page <= docs[l].page
    {
      assert docs[k] == figs[k - |texts|] && docs[l] == figs[l - |texts|];
    }
  }

  /** When every description is present, each non-refusal description on
      page `i + 1` is in the document list as a figure of that page. */
  lemma BuildIndexKeepsEveryFigure(state: IndexState, pdfPath: string, pageWords: seq<seq<string>>,
                                   figures: seq<seq<Option<string>>>)
    requires AllDescribed(figures)
    ensures forall i, j :: 0 <= i < |figures| && 0 <= j < |figures[i]| && !IsRefusal(figures[i][j].value) ==>
      FigureDoc(figures[i][j].value, i + 1) in BuildIndex(state, pdfPath, pageWords, figures).state.docs
  {
    AssembleKeepsEveryFigure(state, pdfPath, TextChunks(pageWords), figures, IsRefusal);
  }

  /** `BuildIndexKeepsEveryFigure` for any list of text chunks. */
  lemma AssembleKeepsEveryFigure(state: IndexState, pdfPath: string, chunks: seq<string>,
                                 figures: seq<seq<Option<string>>>, refused: string -> bool)
    requires AllDescribed(figures)
    ensures forall i, j :: 0 <= i < |figures| && 0 <= j < |figures[i]| && !refused(figures[i][j].value) ==>
      FigureDoc(figures[i][j].value, i + 1) in Assemble(state, pdfPath, chunks, Replies(figures, refused)).state.docs
  {
    var pages := Replies(figures, refused);
    MissingReplyMeaning(figures, refused);
    var figs := Figures(pages, 1).docs;
    var docs := Assemble(state, pdfPath, chunks, pages).state.docs;
    assert docs == TextDocs(chunks) + figs;
    forall i, j | 0 <= i < |figures| && 0 <= j < |figures[i]| && !refused(figures[i][j].value)
      ensures FigureDoc(figures[i][j].value, i + 1) in docs
    {
      KeptFigureOfDescription(figures, i, j, refused);
      InConcat(FigureDoc(figures[i][j].value, i + 1), TextDocs(chunks), figs);
    }
  }

  /** With every description present, a description on page `i + 1` that is
      not the refusal is among the scan's figure documents. */
  lemma KeptFigureOfDescription(figures: seq<seq<Option<string>>>, i: nat, j: nat, refused: string -> bool)
    requires AllDescribed(figures)
    requires i < |figures| && j < |figures[i]| && !refused(figures[i][j].value)
    ensures FigureDoc(figures[i][j].value, i + 1) in Figures(Replies(figures, refused), 1).docs
  {
    assert figures[i][j].Some? by {
      assert figures[i][j] in figures[i];
    }
    MissingReplyMeaning(figures, refused);
    KeptReplyAt(figures, i, j, refused);
    FigureKept(Replies(figures, refused), 1, i, j);
  }

  /** A present description that is not the refusal is classified as kept. */
  lemma KeptReplyAt(figures: seq<seq<Option<string>>>, i: nat, j: nat, refused: string -> bool)
    requires i < |figures| && j < |figures[i]| && figures[i][j].Some? && !refused(figures[i][j].value)
    ensures Replies(figures, refused)[i][j] == Description(figures[i][j].value, false)
  {
    assert Replies(figures, refused)[i] == PageReplies(figures[i], refused);
  }

  /** Some detected figure came back with a description other than the refusal. */
  predicate AnyFigureKept(figures: seq<seq<Option<string>>>, refused: string -> bool)
  {
    exists i, j :: 0 <= i < |figures| && 0 <= j < |figures[i]| && figures[i][j].Some? && !refused(figures[i][j].value)
  }

  /** `build_index` reports that nothing was extracted exactly when every
      description is present, the cleaned text is empty and no description
      other than the refusal came back. */
  lemma BuildIndexNothingExtracted(state: IndexState, pdfPath: string, pageWords: seq<seq<string>>,
                                   figures: seq<seq<Option<string>>>)
    ensures BuildIndex(state, pdfPath, pageWords, figures).result == Err(NothingExtracted)
      <==> AllDescribed(figures) && ExtractTextClean(pageWords) == [] && !AnyFigureKept(figures, IsRefusal)
  {
    ChunksOfEmpty(ExtractTextClean(pageWords), DefaultChunkSize, DefaultOverlap);
    AssembleNothingExtracted(state, pdfPath, TextChunks(pageWords), figures, IsRefusal);
  }

  /** `BuildIndexNothingExtracted` for any list of text chunks. */
  lemma AssembleNothingExtracted(state: IndexState, pdfPath: string, chunks: seq<string>,
                                 figures: seq<seq<Option<string>>>, refused: string -> bool)
    ensures Assemble(state, pdfPath, chunks, Replies(figures, refused)).result == Err(NothingExtracted)
      <==> AllDescribed(figures) && chunks == [] && !AnyFigureKept(figures, refused)
  {
    var pages := Replies(figures, refused);
    var figs := Figures(pages, 1);
    MissingReplyMeaning(figures, refused);
    AssembleErrors(state, pdfPath, chunks, pages);
    assert Assemble(state, pdfPath, chunks, pages).state.docs == TextDocs(chunks) + figs.docs;
    if AllDescribed(figures) {
      KeptFiguresIff(figures, refused);
    }
  }

  /** With every description present, the scan yields a figure document
      exactly when some description is not the refusal. */
  lemma KeptFiguresIff(figures: seq<seq<Option<string>>>, refused: string -> bool)
    requires AllDescribed(figures)
    ensures AnyFigureKept(figures, refused) <==> |Figures(Replies(figures, refused), 1).docs| > 0
  {
    if AnyFigureKept(figures, refused) {
      var i, j :| 0 <= i < |figures| && 0 <= j < |figures[i]| && figures[i][j].Some? && !refused(figures[i][j].value);
      KeptFigureOfDescription(figures, i, j, refused);
    }
    assert DescribedOn(Figures(Replies(figures, refused), 1).docs, figures, refused) by {
      FigureDocsMeaning(figures, refused);
    }
    DescribedGivesKept(Figures(Replies(figures, refused), 1).docs, figures, refused);
  }

  /** A non-empty list of described figure documents witnesses a kept description. */
  lemma DescribedGivesKept(docs: seq<Doc>, figures: seq<seq<Option<string>>>, refused: string -> bool)
    requires DescribedOn(docs, figures, refused)
    ensures |docs| > 0 ==> AnyFigureKept(figures, refused)
  {
    if |docs| > 0 {
      var d := docs[0];
      var j :| 0 <= j < |figures[d.page - 1]| && figures[d.page - 1][j] == Some(d.content);
      assert figures[d.page - 1][j].Some? && !refused(figures[d.page - 1][j].value);
    }
  }

  /** The documents the search ids point at, with Python's indexing: a
      negative id counts from the end; any id outside the list is an error. */
  function Retrieve(docs: seq<Doc>, ids: seq<int>): (r: Option<seq<string>>)
    ensures r.Some? <==> forall i :: 0 <= i < |ids| ==> -|docs| <= ids[i] < |docs|
    ensures r.Some? ==>
      && |r.value| == |ids|
      && forall i :: 0 <= i < |ids| ==> At(Contents(docs), ids[i]) == Some(r.value[i])
    decreases |ids|
  {
    if |ids| == 0 then Some([])
    else
      match At(docs, ids[0])
      case None => None
      case Some(d) =>
        match Retrieve(docs, ids[1..])
        case None => None
        case Some(rest) => Some([d.content] + rest)
  }

  /** `get_context`: with no index it raises; otherwise the contents of the
      documents the search returned, joined by the separator. */
  function GetContext(state: IndexState, ids: seq<int>): (r: Result<string, ContextError>)
    ensures state.index.None? <==> r == Err(NotProcessed)
    ensures r == Err(IdOutOfRange) <==>
      state.index.Some? && exists i :: 0 <= i < |ids| && !(-|state.docs| <= ids[i] < |state.docs|)
  {
    if state.index.None? then Err(NotProcessed)
    else
      match Retrieve(state.docs, ids)
      case None => Err(IdOutOfRange)
      case Some(parts) => Ok(Join(parts, ContextSeparator))
  }

  /** The context is the retrieved documents in id order, each at its
      offset, with the separator between each neighbouring pair and nothing
      else (the id of part `i` is given by `Retrieve`): it opens with the first document, closes with the last, and is
      as long as the documents plus the separators. */
  lemma GetContextShape(state: IndexState, ids: seq<int>)
    requires GetContext(state, ids).Ok? && |ids| > 0
    ensures var c := GetContext(state, ids).value;
      var parts := Retrieve(state.docs, ids).value;
      && |c| == TotalLength(parts) + (|ids| - 1) * |ContextSeparator|
      && |parts[0]| <= |c|
      && At(Contents(state.docs), ids[0]) == Some(c[..|parts[0]|])
      && |parts[|ids| - 1]| <= |c|
      && At(Contents(state.docs), ids[|ids| - 1]) == Some(c[|c| - |parts[|ids| - 1]|..])
    ensures PartsAt(GetContext(state, ids).value, Retrieve(state.docs, ids).value, ContextSeparator)
  {
    var c := GetContext(state, ids).value;
    var parts := Retrieve(state.docs, ids).value;
    assert c == Join(parts, ContextSeparator);
    JoinLength(parts, ContextSeparator);
    JoinEnds(parts, ContextSeparator);
    assert At(Contents(state.docs), ids[0]) == Some(parts[0]);
    assert At(Contents(state.docs), ids[|ids| - 1]) == Some(parts[|ids| - 1]);
    JoinParts(parts, ContextSeparator);
  }

  /** Whenever the index holds the documents' contents, as it does right
      after a successful `build_index`, every id the index can return,
      the padding id -1 included, retrieves the text embedded at that
      position, with negative ids counting from the end. */
  lemma ContextMatchesIndex(s: IndexState, ids: seq<int>)
    requires s.index == Some(Contents(s.docs))
    requires forall i :: 0 <= i < |ids| ==> -|s.index.value| <= ids[i] < |s.index.value|
    ensures GetContext(s, ids).Ok?
    ensures forall i :: 0 <= i < |ids| ==> Some(Retrieve(s.docs, ids).value[i]) == At(s.index.value, ids[i])
  {
  }
}
