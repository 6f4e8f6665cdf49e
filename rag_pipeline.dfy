/** Text chunking for the protocol retrieval store
    (`risk_score/rag_store/rag_pipeline.py`): `chunk_text` cuts a page's text
    into overlapping windows, and `build_chunks_from_pdfs` names each chunk
    after its document, page and position. PDF extraction, embeddings and the
    index are left out; the pages are the input. */
module RagPipeline {
  import opened Base
  import opened PyText

  const ChunkSize: int := 2000
  const ChunkOverlap: int := 400

  function Min(a: int, b: int): int { if a < b then a else b }

  /** Where the window that starts at `start` ends. */
  function End(n: nat, start: nat, chunkSize: int): int { Min(start + chunkSize, n) }

  /** Where the loop of `chunk_text` starts next: `overlap` before the end
      if that moves forward, else at the end. */
  function Next(n: nat, start: nat, chunkSize: int, overlap: int): int
  {
    var end := End(n, start, chunkSize);
    if end - overlap > start then end - overlap else end
  }

  /** The `[start, end)` windows the loop of `chunk_text` visits on a text of
      length `n` from `start` on, until the next start reaches `n`. */
  function Windows(n: nat, start: nat, chunkSize: int, overlap: int): (ws: seq<(int, int)>)
    requires chunkSize > 0 && start < n
    ensures |ws| >= 1 && ws[0] == (start, End(n, start, chunkSize))
    decreases n - start
  {
    var next := Next(n, start, chunkSize, overlap);
    if next >= n then [(start, End(n, start, chunkSize))]
    else [(start, End(n, start, chunkSize))] + Windows(n, next, chunkSize, overlap)
  }

  /** Each window lies inside the text and is not empty. */
  lemma {:induction false} WindowsInText(n: nat, start: nat, chunkSize: int, overlap: int)
    requires chunkSize > 0 && start < n
    ensures forall i :: 0 <= i < |Windows(n, start, chunkSize, overlap)| ==>
              start <= Windows(n, start, chunkSize, overlap)[i].0 < Windows(n, start, chunkSize, overlap)[i].1 <= n
    decreases n - start
  {
    var next := Next(n, start, chunkSize, overlap);
    var ws := Windows(n, start, chunkSize, overlap);
    if next < n {
      WindowsInText(n, next, chunkSize, overlap);
      var rest := Windows(n, next, chunkSize, overlap);
      assert ws == [ws[0]] + rest;
      forall i | 1 <= i < |ws| ensures start <= ws[i].0 < ws[i].1 <= n {
        assert ws[i] == rest[i - 1];
      }
    }
  }

  /** Every window is at most `chunkSize` long. */
  lemma {:induction false} WindowsAtMostChunkSize(n: nat, start: nat, chunkSize: int, overlap: int)
    requires chunkSize > 0 && start < n
    ensures forall i :: 0 <= i < |Windows(n, start, chunkSize, overlap)| ==>
              Windows(n, start, chunkSize, overlap)[i].1 - Windows(n, start, chunkSize, overlap)[i].0 <= chunkSize
    decreases n - start
  {
    var next := Next(n, start, chunkSize, overlap);
    var ws := Windows(n, start, chunkSize, overlap);
    if next < n {
      WindowsAtMostChunkSize(n, next, chunkSize, overlap);
      var rest := Windows(n, next, chunkSize, overlap);
      assert ws == [ws[0]] + rest;
      forall i | 1 <= i < |ws| ensures ws[i].1 - ws[i].0 <= chunkSize {
        assert ws[i] == rest[i - 1];
      }
    }
  }

  /** The starts strictly increase, which is why the loop terminates. */
  lemma {:induction false} WindowsAdvance(n: nat, start: nat, chunkSize: int, overlap: int)
    requires chunkSize > 0 && start < n
    ensures forall i :: 0 <= i < |Windows(n, start, chunkSize, overlap)| - 1 ==>
              Windows(n, start, chunkSize, overlap)[i].0 < Windows(n, start, chunkSize, overlap)[i + 1].0
    decreases n - start
  {
    var next := Next(n, start, chunkSize, overlap);
    var ws := Windows(n, start, chunkSize, overlap);
    if next < n {
      WindowsAdvance(n, next, chunkSize, overlap);
      var rest := Windows(n, next, chunkSize, overlap);
      assert ws == [ws[0]] + rest;
      forall i | 0 <= i < |ws| - 1 ensures ws[i].0 < ws[i + 1].0 {
        assert ws[i + 1] == rest[i];
        if i > 0 {
          assert ws[i] == rest[i - 1];
        }
      }
    }
  }

  /** With a non-negative overlap the last window ends at the end of the
      text. */
  lemma {:induction false} WindowsReachEnd(n: nat, start: nat, chunkSize: int, overlap: int)
    requires chunkSize > 0 && start < n && overlap >= 0
    ensures Windows(n, start, chunkSize, overlap)[|Windows(n, start, chunkSize, overlap)| - 1].1 == n
    decreases n - start
  {
    var next := Next(n, start, chunkSize, overlap);
    var ws := Windows(n, start, chunkSize, overlap);
    if next < n {
      WindowsReachEnd(n, next, chunkSize, overlap);
      var rest := Windows(n, next, chunkSize, overlap);
      assert ws == [ws[0]] + rest;
      assert ws[|ws| - 1] == rest[|rest| - 1];
    }
  }

  /** With a non-negative overlap each window starts no later than the
      previous one ends. */
  lemma {:induction false} WindowsOverlap(n: nat, start: nat, chunkSize: int, overlap: int)
    requires chunkSize > 0 && start < n && overlap >= 0
    ensures forall i :: 0 <= i < |Windows(n, start, chunkSize, overlap)| - 1 ==>
              Windows(n, start, chunkSize, overlap)[i + 1].0 <= Windows(n, start, chunkSize, overlap)[i].1
    decreases n - start
  {
    var next := Next(n, start, chunkSize, overlap);
    var ws := Windows(n, start, chunkSize, overlap);
    if next < n {
      WindowsOverlap(n, next, chunkSize, overlap);
      var rest := Windows(n, next, chunkSize, overlap);
      assert ws == [ws[0]] + rest;
      forall i | 0 <= i < |ws| - 1 ensures ws[i + 1].0 <= ws[i].1 {
        assert ws[i + 1] == rest[i];
        if i > 0 {
          assert ws[i] == rest[i - 1];
        }
      }
    }
  }

  /** With a non-negative overlap the windows leave no gap: every position of
      the text lies in some window. */
  lemma {:induction false} WindowsCoverText(n: nat, start: nat, chunkSize: int, overlap: int, k: nat)
    requires chunkSize > 0 && start <= k < n && overlap >= 0
    ensures exists i :: 0 <= i < |Windows(n, start, chunkSize, overlap)| &&
              Windows(n, start, chunkSize, overlap)[i].0 <= k < Windows(n, start, chunkSize, overlap)[i].1
    decreases n - start
  {
    var next := Next(n, start, chunkSize, overlap);
    var ws := Windows(n, start, chunkSize, overlap);
    if k >= ws[0].1 {
      var rest := Windows(n, next, chunkSize, overlap);
      assert ws == [ws[0]] + rest;
      WindowsCoverText(n, next, chunkSize, overlap, k);
      var i :| 0 <= i < |rest| && rest[i].0 <= k < rest[i].1;
      assert ws[i + 1] == rest[i];
    } else {
      assert ws[0].0 <= k < ws[0].1;
    }
  }

  /** A text longer than the overlap but no longer than one chunk gives two
      windows: the whole text, then its last `overlap` characters again. */
  lemma {:induction false} ShortTextGivesTwoWindows(n: nat, chunkSize: int, overlap: int)
    requires 0 < overlap < n <= chunkSize
    ensures Windows(n, 0, chunkSize, overlap) == [(0, n), (n - overlap, n)]
  {
    var rest := Windows(n, n - overlap, chunkSize, overlap);
    assert rest == [(n - overlap, n)];
  }

  /** With the default settings a page of 1000 characters gives the chunks
      `[0:1000]` and `[600:1000]`. */
  lemma {:induction false} ThousandCharacterPage()
    ensures Windows(1000, 0, ChunkSize, ChunkOverlap) == [(0, 1000), (600, 1000)]
  {
    ShortTextGivesTwoWindows(1000, ChunkSize, ChunkOverlap);
  }

  /** `f(text[start:end])` for each window; `chunk_text` uses `str.strip`
      for `f`. */
  function TextsOf(t: string, ws: seq<(int, int)>, f: string -> string): (cs: seq<string>)
    ensures |cs| == |ws|
    ensures forall i :: 0 <= i < |ws| ==> cs[i] == f(Slice(t, ws[i].0, ws[i].1))
  {
    seq(|ws|, i requires 0 <= i < |ws| => f(Slice(t, ws[i].0, ws[i].1)))
  }

  /** The texts of the windows from `start` on, one turn of the loop at a
      time. */
  function ChunksFrom(t: string, start: nat, chunkSize: int, overlap: int, f: string -> string): seq<string>
    requires chunkSize > 0 && start < |t|
    decreases |t| - start
  {
    var next := Next(|t|, start, chunkSize, overlap);
    [f(Slice(t, start, End(|t|, start, chunkSize)))]
      + (if next >= |t| then [] else ChunksFrom(t, next, chunkSize, overlap, f))
  }

  /** The loop's chunks are the texts of the windows, in order. */
  lemma {:induction false} ChunksAreWindowTexts(t: string, start: nat, chunkSize: int, overlap: int, f: string -> string)
    requires chunkSize > 0 && start < |t|
    ensures ChunksFrom(t, start, chunkSize, overlap, f) == TextsOf(t, Windows(|t|, start, chunkSize, overlap), f)
    decreases |t| - start
  {
    var next := Next(|t|, start, chunkSize, overlap);
    var ws := Windows(|t|, start, chunkSize, overlap);
    var here := [f(Slice(t, start, End(|t|, start, chunkSize)))];
    if next < |t| {
      ChunksAreWindowTexts(t, next, chunkSize, overlap, f);
      var rest := Windows(|t|, next, chunkSize, overlap);
      assert ws == [ws[0]] + rest;
      var r := here + TextsOf(t, rest, f);
      forall i | 0 <= i < |ws| ensures TextsOf(t, ws, f)[i] == r[i] {
        if i > 0 {
          assert ws[i] == rest[i - 1];
        }
      }
    } else {
      assert TextsOf(t, ws, f) == here;
    }
  }

  /** What `chunk_text` returns: nothing for a missing or empty text,
      otherwise at least one chunk, none longer than `chunk_size`. */
  function Chunks(text: Option<string>, chunkSize: int, overlap: int): (r: seq<string>)
    requires chunkSize > 0
    ensures text.None? || text.value == [] ==> r == []
    ensures text.Some? && text.value != [] ==> |r| >= 1
    ensures forall i :: 0 <= i < |r| ==> |r[i]| <= chunkSize
  {
    if text.None? || text.value == [] then []
    else
      ChunksBounded(text.value, chunkSize, overlap);
      ChunksFrom(text.value, 0, chunkSize, overlap, Strip)
  }

  /** A non-empty text gives at least one chunk, each a stripped window of at
      most `chunk_size` characters. */
  lemma {:induction false} ChunksBounded(t: string, chunkSize: int, overlap: int)
    requires chunkSize > 0 && t != []
    ensures |ChunksFrom(t, 0, chunkSize, overlap, Strip)| >= 1
    ensures forall i :: 0 <= i < |ChunksFrom(t, 0, chunkSize, overlap, Strip)| ==>
              |ChunksFrom(t, 0, chunkSize, overlap, Strip)[i]| <= chunkSize
  {
    var ws := Windows(|t|, 0, chunkSize, overlap);
    var r := ChunksFrom(t, 0, chunkSize, overlap, Strip);
    ChunksAreWindowTexts(t, 0, chunkSize, overlap, Strip);
    WindowsInText(|t|, 0, chunkSize, overlap);
    WindowsAtMostChunkSize(|t|, 0, chunkSize, overlap);
    forall i | 0 <= i < |r|
      ensures |r[i]| <= chunkSize
    {
      var x := Slice(t, ws[i].0, ws[i].1);
      assert r[i] == Strip(x);
      StripBounds(x);
    }
  }

  /** `chunk_text(text, chunk_size, overlap)`. A `chunk_size` of 0 or less
      never moves `start` forward when `overlap` is not negative, so the loop
      only terminates for a positive size, which is required here. */
  method ChunkText(text: Option<string>, chunkSize: int, overlap: int) returns (chunks: seq<string>)
    requires chunkSize > 0
    ensures chunks == Chunks(text, chunkSize, overlap)
  {
    if text.None? || text.value == [] {
      return [];
    }
    chunks := ChunkLoop(text.value, chunkSize, overlap, Strip);
  }

  /** The `while start < len(text)` loop of `chunk_text` on a non-empty
      text; `clean` is what is done to each window (`strip()`). */
  method ChunkLoop(t: string, chunkSize: int, overlap: int, clean: string -> string) returns (chunks: seq<string>)
    requires chunkSize > 0 && t != []
    ensures chunks == ChunksFrom(t, 0, chunkSize, overlap, clean)
  {
    var n := |t|;
    ghost var all := ChunksFrom(t, 0, chunkSize, overlap, clean);
    chunks := [];
    var start := 0;
    while start < n
      invariant 0 <= start
      invariant start < n ==> chunks + ChunksFrom(t, start, chunkSize, overlap, clean) == all
      invariant start >= n ==> chunks == all
      decreases n - start
    {
      chunks, start := ChunkOnce(t, start, chunkSize, overlap, clean, chunks, all);
      if start >= n {
        break;
      }
    }
  }

  /** One turn of the loop of `chunk_text`: cut the window at `start`,
      clean it, append it, and move on. */
  method ChunkOnce(t: string, start: nat, chunkSize: int, overlap: int, clean: string -> string,
                   chunks: seq<string>, ghost all: seq<string>)
    returns (chunks': seq<string>, next: nat)
    requires chunkSize > 0 && start < |t|
    requires chunks + ChunksFrom(t, start, chunkSize, overlap, clean) == all
    ensures start < next
    ensures next < |t| ==> chunks' + ChunksFrom(t, next, chunkSize, overlap, clean) == all
    ensures next >= |t| ==> chunks' == all
  {
    var n := |t|;
    var end := Min(start + chunkSize, n);
    next := if end - overlap > start then end - overlap else end;
    assert end == End(n, start, chunkSize) && next == Next(n, start, chunkSize, overlap);
    ChunksFromStep(t, start, chunkSize, overlap, clean, chunks, all);
    chunks' := chunks + [clean(Slice(t, start, end))];
  }

  /** One turn of the loop: the chunk at `start` moves from what is still
      to come to what has been collected. */
  lemma {:induction false} ChunksFromStep(t: string, start: nat, chunkSize: int, overlap: int, f: string -> string,
                       before: seq<string>, all: seq<string>)
    requires chunkSize > 0 && start < |t|
    requires before + ChunksFrom(t, start, chunkSize, overlap, f) == all
    ensures var next := Next(|t|, start, chunkSize, overlap);
            var after := before + [f(Slice(t, start, End(|t|, start, chunkSize)))];
            (next < |t| ==> after + ChunksFrom(t, next, chunkSize, overlap, f) == all) &&
            (next >= |t| ==> after == all)
  {
    var next := Next(|t|, start, chunkSize, overlap);
    var piece := f(Slice(t, start, End(|t|, start, chunkSize)));
    if next < |t| {
      var later := ChunksFrom(t, next, chunkSize, overlap, f);
      assert ChunksFrom(t, start, chunkSize, overlap, f) == [piece] + later;
      assert before + ([piece] + later) == before + [piece] + later;
    } else {
      assert ChunksFrom(t, start, chunkSize, overlap, f) == [piece] + [];
    }
  }

  /** The chunks of a non-empty text are the stripped texts of its windows. */
  lemma {:induction false} ChunksOfText(t: string, chunkSize: int, overlap: int)
    requires chunkSize > 0 && t != []
    ensures Chunks(Some(t), chunkSize, overlap) == TextsOf(t, Windows(|t|, 0, chunkSize, overlap), Strip)
  {
    ChunksAreWindowTexts(t, 0, chunkSize, overlap, Strip);
  }

  // ------------------------------------------------------ chunk naming

  datatype PdfPage = PdfPage(pageNum: nat, text: Option<string>, imagePath: Option<string>)
  datatype PdfDoc = PdfDoc(docId: string, pages: seq<PdfPage>)
  datatype Chunk = Chunk(docId: string, chunkId: string, text: string, imagePath: Option<string>)

  /** `f"{doc_id}_p{page_num}_c{i}"`: it starts with the document id and
      ends with the chunk's position in decimal. */
  function ChunkId(docId: string, pageNum: nat, i: nat): (r: string)
    ensures |r| >= |docId| + 4 + |NatToString(i)| && r[..|docId|] == docId
    ensures r[|r| - |NatToString(i)|..] == NatToString(i)
  {
    docId + "_p" + NatToString(pageNum) + "_c" + NatToString(i)
  }

  /** The length of the run of digits at the end of `s`. */
  function DigitSuffixLen(s: string): (k: nat)
    ensures k <= |s|
  {
    if s == [] || !IsDigit(s[|s| - 1]) then 0 else 1 + DigitSuffixLen(s[..|s| - 1])
  }

  lemma {:induction false} DigitSuffixLenOf(a: string, c: char, x: string)
    requires !IsDigit(c)
    requires forall k :: 0 <= k < |x| ==> IsDigit(x[k])
    ensures DigitSuffixLen(a + [c] + x) == |x|
    decreases |x|
  {
    if x == [] {
      assert (a + [c] + x)[|a|] == c;
    } else {
      var x' := x[..|x| - 1];
      assert (a + [c] + x)[..|a + [c] + x| - 1] == a + [c] + x';
      DigitSuffixLenOf(a, c, x');
    }
  }

  /** Two strings that end in a separator followed by digits split the same
      way at that separator. */
  lemma {:induction false} DigitSuffixSplit(a1: string, x1: string, a2: string, x2: string, c: char)
    requires !IsDigit(c)
    requires forall k :: 0 <= k < |x1| ==> IsDigit(x1[k])
    requires forall k :: 0 <= k < |x2| ==> IsDigit(x2[k])
    requires a1 + [c] + x1 == a2 + [c] + x2
    ensures a1 == a2 && x1 == x2
  {
    var s := a1 + [c] + x1;
    DigitSuffixLenOf(a1, c, x1);
    DigitSuffixLenOf(a2, c, x2);
    assert x1 == s[|s| - |x1|..] == x2;
    assert a1 == s[..|s| - |x1| - 1] == a2;
  }

  /** Chunk ids name their document, page and position unambiguously, even
      when document ids contain "_p" or "_c". */
  lemma {:induction false} ChunkIdInjective(d1: string, p1: nat, i1: nat, d2: string, p2: nat, i2: nat)
    requires ChunkId(d1, p1, i1) == ChunkId(d2, p2, i2)
    ensures d1 == d2 && p1 == p2 && i1 == i2
  {
    var left1 := PageLeft(d1, p1);
    var left2 := PageLeft(d2, p2);
    ChunkIdShape(d1, p1, i1);
    ChunkIdShape(d2, p2, i2);
    DigitSuffixSplit(left1, NatToString(i1), left2, NatToString(i2), 'c');
    NatToStringInjective(i1, i2);
    PageLeftShape(d1, p1);
    PageLeftShape(d2, p2);
    DigitSuffixSplit(d1 + "_", NatToString(p1), d2 + "_", NatToString(p2), 'p');
    NatToStringInjective(p1, p2);
    assert d1 == (d1 + "_")[..|d1|];
    assert d2 == (d2 + "_")[..|d2|];
  }

  /** The part of a chunk id before its "c". */
  function PageLeft(docId: string, pageNum: nat): string
  {
    docId + "_p" + NatToString(pageNum) + "_"
  }

  lemma {:induction false} ChunkIdShape(docId: string, pageNum: nat, i: nat)
    ensures ChunkId(docId, pageNum, i) == PageLeft(docId, pageNum) + ['c'] + NatToString(i)
  {
  }

  lemma {:induction false} PageLeftShape(docId: string, pageNum: nat)
    ensures |PageLeft(docId, pageNum)| >= 1
    ensures PageLeft(docId, pageNum)[..|PageLeft(docId, pageNum)| - 1]
         == (docId + "_") + ['p'] + NatToString(pageNum)
  {
    var left := PageLeft(docId, pageNum);
    assert left == (docId + "_") + ['p'] + NatToString(pageNum) + ['_'];
  }

  /** The chunk records of one page's texts, numbered from 0. */
  function Named(docId: string, page: PdfPage, texts: seq<string>): (cs: seq<Chunk>)
    ensures |cs| == |texts|
    ensures forall i :: 0 <= i < |cs| ==>
              cs[i] == Chunk(docId, ChunkId(docId, page.pageNum, i), texts[i], page.imagePath)
  {
    seq(|texts|, i requires 0 <= i < |texts| => Chunk(docId, ChunkId(docId, page.pageNum, i), texts[i], page.imagePath))
  }

  /** `page["text"] or ""`. */
  function PageText(page: PdfPage): string
  {
    if page.text.Some? then page.text.value else ""
  }

  /** The chunks of one page; a page without text counts as "". */
  function PageChunks(docId: string, page: PdfPage): seq<Chunk>
  {
    Named(docId, page, Chunks(Some(PageText(page)), ChunkSize, ChunkOverlap))
  }

  function PagesChunks(docId: string, pages: seq<PdfPage>): (r: seq<Chunk>)
    ensures forall k :: 0 <= k < |r| ==> r[k].docId == docId
  {
    if pages == [] then []
    else PagesChunks(docId, pages[..|pages| - 1]) + PageChunks(docId, pages[|pages| - 1])
  }

  /** What `build_chunks_from_pdfs` returns: documents in order, pages in
      order, chunks in order. */
  function AllChunks(docs: seq<PdfDoc>): (r: seq<Chunk>)
    ensures forall k :: 0 <= k < |r| ==> exists j :: 0 <= j < |docs| && r[k].docId == docs[j].docId
  {
    if docs == [] then []
    else
      var front := docs[..|docs| - 1];
      assert forall j :: 0 <= j < |front| ==> front[j] == docs[j];
      AllChunks(front) + PagesChunks(docs[|docs| - 1].docId, docs[|docs| - 1].pages)
  }

  /** The innermost loop of `build_chunks_from_pdfs`: one record per chunk
      of the page, appended in order. */
  method AppendPageChunks(chunks: seq<Chunk>, docId: string, page: PdfPage, pageChunks: seq<string>)
    returns (out: seq<Chunk>)
    ensures out == chunks + Named(docId, page, pageChunks)
  {
    out := chunks;
    var i := 0;
    while i < |pageChunks|
      invariant 0 <= i <= |pageChunks|
      invariant out == chunks + Named(docId, page, pageChunks)[..i]
    {
      out := out + [Chunk(docId, ChunkId(docId, page.pageNum, i), pageChunks[i], page.imagePath)];
      assert Named(docId, page, pageChunks)[..i + 1] == Named(docId, page, pageChunks)[..i] + [Named(docId, page, pageChunks)[i]];
      i := i + 1;
    }
    assert Named(docId, page, pageChunks)[..i] == Named(docId, page, pageChunks);
  }

  /** One more page adds its chunks at the end. */
  lemma {:induction false} PagesChunksSnoc(docId: string, pages: seq<PdfPage>, p: nat)
    requires p < |pages|
    ensures PagesChunks(docId, pages[..p + 1]) == PagesChunks(docId, pages[..p]) + PageChunks(docId, pages[p])
  {
    assert pages[..p + 1][..p] == pages[..p];
  }

  /** One page: its text is chunked, then given chunk records. */
  method ChunkPage(docId: string, page: PdfPage) returns (out: seq<Chunk>)
    ensures out == PageChunks(docId, page)
  {
    var pageChunks := ChunkText(Some(PageText(page)), ChunkSize, ChunkOverlap);
    out := AppendPageChunks([], docId, page, pageChunks);
  }

  /** The loop over one document's pages. */
  method ChunkDoc(doc: PdfDoc) returns (out: seq<Chunk>)
    ensures out == PagesChunks(doc.docId, doc.pages)
  {
    out := [];
    var p := 0;
    while p < |doc.pages|
      invariant 0 <= p <= |doc.pages|
      invariant out == PagesChunks(doc.docId, doc.pages[..p])
    {
      var pageChunks := ChunkPage(doc.docId, doc.pages[p]);
      PagesChunksSnoc(doc.docId, doc.pages, p);
      out := out + pageChunks;
      p := p + 1;
    }
    assert doc.pages[..p] == doc.pages;
  }

  /** One more document adds its chunks at the end. */
  lemma {:induction false} AllChunksSnoc(docs: seq<PdfDoc>, d: nat)
    requires d < |docs|
    ensures AllChunks(docs[..d + 1]) == AllChunks(docs[..d]) + PagesChunks(docs[d].docId, docs[d].pages)
  {
    assert docs[..d + 1][..d] == docs[..d];
  }

  /** `build_chunks_from_pdfs(docs)`. */
  method BuildChunksFromPdfs(docs: seq<PdfDoc>) returns (chunks: seq<Chunk>)
    ensures chunks == AllChunks(docs)
  {
    chunks := [];
    var d := 0;
    while d < |docs|
      invariant 0 <= d <= |docs|
      invariant chunks == AllChunks(docs[..d])
    {
      var docChunks := ChunkDoc(docs[d]);
      AllChunksSnoc(docs, d);
      chunks := chunks + docChunks;
      d := d + 1;
    }
    assert docs[..d] == docs;
  }

  /** Within a page the chunk ids are `{doc_id}_p{page_num}_c0`,
      `..._c1`, ... and pairwise different. */
  lemma {:induction false} PageChunkIdsDistinct(docId: string, page: PdfPage, i: nat, j: nat)
    requires i < j < |PageChunks(docId, page)|
    ensures PageChunks(docId, page)[i].chunkId != PageChunks(docId, page)[j].chunkId
  {
    if ChunkId(docId, page.pageNum, i) == ChunkId(docId, page.pageNum, j) {
      ChunkIdInjective(docId, page.pageNum, i, docId, page.pageNum, j);
    }
  }

  /** A page without text contributes no chunk. */
  lemma {:induction false} EmptyPageHasNoChunks(docId: string, page: PdfPage)
    requires page.text.None? || page.text == Some("")
    ensures PageChunks(docId, page) == []
  {
  }
}
