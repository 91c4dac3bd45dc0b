/** The corpus build: for each configured URL, in order, clean the page text,
    skip it when too short, otherwise derive a title, write the markdown
    article, the chunk records and their metadata records, and add an entry
    to the manifest. Fetching, HTML parsing, random ids, hashing and file
    writes are outside the model; the parser's text, the ids and the hash
    come in as parameters and the files as returned values. */
module Corpus {
  import opened Text
  import opened Cleaner
  import opened Chunker
  import opened Article

  datatype Option<T> = None | Some(value: T)

  /** Cleaned texts shorter than this are skipped. */
  const MinContentLength: nat := 100
  /** Characters of the hex digest kept as a chunk id. */
  const ChunkIdLength: nat := 16
  const PlaceholderAuthor: string := "Unknown"

  /** A fetched page: its URL and the visible text the HTML parser extracted. */
  datatype Page = Page(url: string, parsedText: string)

  /** One line of `chunks.jsonl`. */
  datatype ChunkRecord = ChunkRecord(chunkId: string, text: string)

  /** One line of `metadata.jsonl`. */
  datatype Metadata = Metadata(
    chunkId: string,
    title: string,
    author: string,
    pubDate: string,
    pageNo: Option<nat>,
    tags: seq<string>,
    numeric: map<string, string>,
    sourceUrl: string,
    masterformat: string)

  /** One element of `manifest.json`. */
  datatype ManifestEntry = ManifestEntry(docUuid: string, title: string, source: string, path: string)

  /** What is written under `documents/<docId>/`. */
  datatype DocumentFiles = DocumentFiles(
    docId: string,
    article: string,
    chunks: seq<ChunkRecord>,
    metadata: seq<Metadata>)

  function DigitChar(d: nat): char
    requires d < 10
  {
    (48 + d) as char
  }

  /** `str(n)`: the decimal digits of `n`. */
  function Decimal(n: nat): (s: string)
    ensures |s| > 0
    ensures n >= 10 ==> |s| > 1
  {
    if n < 10 then [DigitChar(n)] else Decimal(n / 10) + [DigitChar(n % 10)]
  }

  /** Different numbers have different decimal forms. */
  lemma {:induction false} DecimalInjective(a: nat, b: nat)
    requires Decimal(a) == Decimal(b)
    ensures a == b
  {
    if a >= 10 && b >= 10 {
      var da, db := Decimal(a), Decimal(b);
      assert da[..|da| - 1] == Decimal(a / 10);
      assert db[..|db| - 1] == Decimal(b / 10);
      DecimalInjective(a / 10, b / 10);
      assert DigitChar(a % 10) == da[|da| - 1] == DigitChar(b % 10);
    }
  }

  /** The text hashed for chunk `idx` of a document: `f"{doc_id}-{idx}"`. */
  function ChunkKey(docId: string, idx: nat): string {
    docId + "-" + Decimal(idx)
  }

  /** Within one document, different chunk indices hash different texts. */
  lemma ChunkKeysDistinct(docId: string, i: nat, j: nat)
    requires i != j
    ensures ChunkKey(docId, i) != ChunkKey(docId, j)
  {
    if ChunkKey(docId, i) == ChunkKey(docId, j) {
      var p := |docId| + 1;
      assert ChunkKey(docId, i)[p..] == Decimal(i);
      assert ChunkKey(docId, j)[p..] == Decimal(j);
      DecimalInjective(i, j);
    }
  }

  /** A lower-case hexadecimal digit, as `hexdigest()` writes them. */
  predicate IsHexDigit(c: char) {
    c in "0123456789abcdef"
  }

  /** What `hashlib.sha256(...).hexdigest()` returns: 64 lower-case hex digits. */
  type HexDigest = d: string | |d| == 64 && forall i :: 0 <= i < |d| ==> IsHexDigit(d[i])
    witness seq(64, i => '0')

  /** The chunk id: the first 16 characters of the hex digest of the chunk key. */
  function ChunkId(sha256Hex: string -> HexDigest, docId: string, idx: nat): (id: string)
    ensures |id| == ChunkIdLength
    ensures forall i :: 0 <= i < |id| ==> IsHexDigit(id[i])
    ensures id <= sha256Hex(ChunkKey(docId, idx))
  {
    sha256Hex(ChunkKey(docId, idx))[..ChunkIdLength]
  }

  /** The metadata record of one chunk: the document's title and URL, the
      chunk's id, and fixed placeholders for everything else. */
  function ChunkMetadata(chunkId: string, title: string, url: string): Metadata {
    Metadata(chunkId, title, PlaceholderAuthor, "", None, [], map[], url, "")
  }

  /** Relative path of a document's chunk file, as listed in the manifest. */
  function ChunksPath(docId: string): string {
    "documents/" + docId + "/chunks.jsonl"
  }

  /** The files of document `docId` for the cleaned text `text` of `url`. */
  function DocumentFor(docId: string, url: string, text: string, sha256Hex: string -> HexDigest): DocumentFiles {
    var title := Title(text);
    var count := ChunkCount(|Split(text)|, Stride(DefaultWindow, DefaultOverlap));
    DocumentFiles(
      docId,
      Markdown(title, text, url),
      seq(count, i requires 0 <= i < count =>
        ChunkRecord(ChunkId(sha256Hex, docId, i), ChunkAt(text, DefaultWindow, DefaultOverlap, i))),
      seq(count, (i: nat) => ChunkMetadata(ChunkId(sha256Hex, docId, i), title, url)))
  }

  /** One kept document: the title, the article, and the aligned `chunks` and
      `metas` lists filled in chunk order. */
  method BuildDocument(docId: string, url: string, text: string, sha256Hex: string -> HexDigest)
    returns (doc: DocumentFiles)
    ensures doc == DocumentFor(docId, url, text, sha256Hex)
  {
    var title := Title(text);
    var article := Markdown(title, text, url);
    var texts := ChunkText(text, DefaultWindow, DefaultOverlap);
    var chunks: seq<ChunkRecord> := [];
    var metas: seq<Metadata> := [];
    ghost var spec := DocumentFor(docId, url, text, sha256Hex);
    var idx := 0;
    while idx < |texts|
      invariant idx <= |texts|
      invariant chunks == spec.chunks[..idx] && metas == spec.metadata[..idx]
    {
      var chunkId := ChunkId(sha256Hex, docId, idx);
      chunks := chunks + [ChunkRecord(chunkId, texts[idx])];
      metas := metas + [ChunkMetadata(chunkId, title, url)];
      idx := idx + 1;
    }
    assert chunks == spec.chunks && metas == spec.metadata;
    doc := DocumentFiles(docId, article, chunks, metas);
  }

  /** In every document written: `chunks.jsonl` and `metadata.jsonl` have the
      same number of lines; line `i` of both carries the id of chunk `i`;
      every metadata line has the placeholder fields and the document's title
      and URL; every chunk holds 1 to 250 tokens and splits back into them. */
  lemma DocumentFacts(docId: string, url: string, text: string, sha256Hex: string -> HexDigest, i: nat)
    requires i < |DocumentFor(docId, url, text, sha256Hex).chunks|
    ensures var doc := DocumentFor(docId, url, text, sha256Hex);
      doc.docId == docId && doc.article == Markdown(Title(text), text, url)
    ensures var doc := DocumentFor(docId, url, text, sha256Hex);
      |doc.metadata| == |doc.chunks| == ChunkCount(|Split(text)|, Stride(DefaultWindow, DefaultOverlap))
    ensures var doc := DocumentFor(docId, url, text, sha256Hex);
      doc.chunks[i].chunkId == doc.metadata[i].chunkId == ChunkId(sha256Hex, docId, i)
    ensures var m := DocumentFor(docId, url, text, sha256Hex).metadata[i];
      m.title == Title(text) && m.sourceUrl == url &&
      m.author == "Unknown" && m.pubDate == "" && m.pageNo == None &&
      m.tags == [] && m.numeric == map[] && m.masterformat == ""
    ensures var c := DocumentFor(docId, url, text, sha256Hex).chunks[i];
      1 <= |Split(c.text)| <= DefaultWindow &&
      Split(c.text) == ChunkTokens(Split(text), DefaultWindow, DefaultOverlap, i)
  {
    SplitChunk(text, DefaultWindow, DefaultOverlap, i);
    ChunkSize(Split(text), DefaultWindow, DefaultOverlap, i);
  }

  /** The guard: a page is kept when its cleaned text has at least 100 characters. */
  predicate Kept(p: Page) {
    |CleanHtml(p.parsedText)| >= MinContentLength
  }

  /** The positions of the kept pages, in URL order. */
  function KeptIndices(pages: seq<Page>): seq<nat> {
    if |pages| == 0 then []
    else
      var last := |pages| - 1;
      var prev := KeptIndices(pages[..last]);
      if Kept(pages[last]) then prev + [last] else prev
  }

  /** The kept positions are increasing, in range, and are exactly the
      positions of the pages that pass the guard; so there are at most as
      many as there are pages. */
  lemma {:induction false} KeptIndicesSpec(pages: seq<Page>)
    ensures var ix := KeptIndices(pages);
      |ix| <= |pages| &&
      (forall m :: 0 <= m < |ix| ==> ix[m] < |pages|) &&
      (forall m, m' :: 0 <= m < m' < |ix| ==> ix[m] < ix[m']) &&
      (forall j :: 0 <= j < |pages| ==> (j in ix <==> Kept(pages[j])))
  {
    if |pages| > 0 {
      var last := |pages| - 1;
      var init := pages[..last];
      KeptIndicesSpec(init);
      assert forall j :: 0 <= j < last ==> init[j] == pages[j];
    }
  }

  /** Looking at one more page adds its index when, and only when, it is kept. */
  lemma KeptIndicesStep(pages: seq<Page>, j: nat)
    requires j < |pages|
    ensures KeptIndices(pages[..j + 1])
      == KeptIndices(pages[..j]) + (if Kept(pages[j]) then [j] else [])
  {
    assert pages[..j + 1][..j] == pages[..j];
  }

  /** The manifest entry of a kept document. */
  function EntryFor(docId: string, p: Page): ManifestEntry {
    ManifestEntry(docId, Title(CleanHtml(p.parsedText)), p.url, ChunksPath(docId))
  }

  /** `manifest` and `docs` hold, in order, the entry and the files of the
      pages at positions `ix`; the `m`-th of them got the `m`-th fresh id. */
  ghost predicate Listed(pages: seq<Page>, ix: seq<nat>, manifest: seq<ManifestEntry>,
                         docs: seq<DocumentFiles>, uuids: nat -> string, sha256Hex: string -> HexDigest)
  {
    |manifest| == |ix| && |docs| == |ix| &&
    forall m :: 0 <= m < |ix| ==>
      ix[m] < |pages| &&
      manifest[m] == EntryFor(uuids(m), pages[ix[m]]) &&
      docs[m] == DocumentFor(uuids(m), pages[ix[m]].url, CleanHtml(pages[ix[m]].parsedText), sha256Hex)
  }

  lemma ListedAppend(pages: seq<Page>, ix: seq<nat>, manifest: seq<ManifestEntry>,
                     docs: seq<DocumentFiles>, uuids: nat -> string, sha256Hex: string -> HexDigest, j: nat)
    requires Listed(pages, ix, manifest, docs, uuids, sha256Hex)
    requires j < |pages|
    ensures var p, docId := pages[j], uuids(|ix|);
      Listed(pages, ix + [j], manifest + [EntryFor(docId, p)],
             docs + [DocumentFor(docId, p.url, CleanHtml(p.parsedText), sha256Hex)], uuids, sha256Hex)
  {
  }

  /** The whole run: one manifest entry and one document per kept page, in
      URL order; the `m`-th kept page gets the `m`-th fresh id. */
  method BuildCorpus(pages: seq<Page>, uuids: nat -> string, sha256Hex: string -> HexDigest)
    returns (manifest: seq<ManifestEntry>, docs: seq<DocumentFiles>)
    ensures Listed(pages, KeptIndices(pages), manifest, docs, uuids, sha256Hex)
  {
    manifest, docs := [], [];
    var j := 0;
    while j < |pages|
      invariant j <= |pages|
      invariant Listed(pages, KeptIndices(pages[..j]), manifest, docs, uuids, sha256Hex)
    {
      KeptIndicesStep(pages, j);
      ghost var before := KeptIndices(pages[..j]);
      var rawText := CleanHtml(pages[j].parsedText);
      if |rawText| < MinContentLength {
        j := j + 1;
        continue;
      }
      var docId := uuids(|manifest|);
      var doc := BuildDocument(docId, pages[j].url, rawText, sha256Hex);
      ListedAppend(pages, before, manifest, docs, uuids, sha256Hex, j);
      docs := docs + [doc];
      manifest := manifest + [ManifestEntry(docId, Title(rawText), pages[j].url, ChunksPath(docId))];
      j := j + 1;
    }
    assert pages[..j] == pages;
  }

  /** What the run writes: no more documents than URLs; each manifest entry
      points at the chunk file of the document written with the same id and
      carries that page's URL and title; each listed page passed the guard;
      and a page whose cleaned text is under 100 characters gets no entry. */
  lemma ManifestFacts(pages: seq<Page>, manifest: seq<ManifestEntry>, docs: seq<DocumentFiles>,
                      uuids: nat -> string, sha256Hex: string -> HexDigest)
    requires Listed(pages, KeptIndices(pages), manifest, docs, uuids, sha256Hex)
    ensures |manifest| == |docs| <= |pages|
    ensures forall m :: 0 <= m < |manifest| ==>
      manifest[m].docUuid == docs[m].docId == uuids(m) &&
      manifest[m].path == "documents/" + docs[m].docId + "/chunks.jsonl" &&
      manifest[m].source == pages[KeptIndices(pages)[m]].url &&
      manifest[m].title == Title(CleanHtml(pages[KeptIndices(pages)[m]].parsedText)) &&
      |CleanHtml(pages[KeptIndices(pages)[m]].parsedText)| >= MinContentLength
    ensures forall j :: 0 <= j < |pages| && |CleanHtml(pages[j].parsedText)| < MinContentLength ==>
      forall m :: 0 <= m < |manifest| ==> KeptIndices(pages)[m] != j
  {
    KeptIndicesSpec(pages);
    var ix := KeptIndices(pages);
    forall m | 0 <= m < |manifest|
      ensures |CleanHtml(pages[ix[m]].parsedText)| >= MinContentLength
    {
      assert ix[m] in ix;
    }
  }
}
