# Corpus builder: chunking and record model

This project models the string and sequence logic of `build_corpus.py`, a
script that downloads a fixed list of articles, cleans them to plain text,
cuts the text into overlapping windows of whitespace-separated tokens, and
writes for every kept article a markdown file, a `chunks.jsonl` file, a
`metadata.jsonl` file, and one `manifest.json` for the whole run.

Modules, one per component of the script:

- `Text` (`text.dfy`): Python's `str.split()` (`Split`) over the whitespace
  set of `str.isspace()` (`IsSpace`), and `" ".join` (`Join`).
- `Cleaner` (`cleaner.dfy`): the whitespace collapse `re.sub(r"\s{2,}", " ", text)`
  of `clean_html` (`Collapse`); `CleanHtml` applies it to the text the HTML
  parser produced.
- `Chunker` (`chunker.dfy`): `chunk_text` as a method with a `while` loop
  (`ChunkText`), checked against the pure description `ChunkAt` of chunk `k`:
  the space-join of `tokens[k*s : min(k*s + window, n)]` with
  `s = window - overlap`.
- `Article` (`article.dfy`): the title guess `text.split(".")[0][:120]`
  (`Title`) and the markdown template (`Markdown`).
- `Corpus` (`corpus.dfy`): the records, the chunk id, the per-document loop
  that fills the aligned `chunks` and `metas` lists (`BuildDocument`, specified
  by `DocumentFor`), and the top-level loop that applies the length guard and
  fills the manifest (`BuildCorpus`, specified by `Listed` and `KeptIndices`).

The random document id and the SHA-256 digest are parameters: `uuids(m)` is
the id the `m`-th kept document receives (`uuid4()` is only called after the
guard), and `sha256Hex` maps a string to its hex digest, a `HexDigest` of 64 lower-case
hex digits. A fetched page is a
`Page(url, parsedText)` whose second field is what the HTML parser returned.

Two behaviours of `chunk_text` (build_corpus.py:67-73) that its callers
should know about:

- The code never checks `overlap < window`. The loop index starts at 0 and
  grows by `window - overlap` per pass (`IndexAfter`); with `overlap >= window`
  it never rises above 0, so on a text with at least one token the loop at
  build_corpus.py:71-73 never ends (`StalledWithoutProgress`). A text with no
  tokens yields nothing whatever the arguments. The model requires
  `overlap < window` for `ChunkText`, where `IndexAfter` is the chunk start
  `Offset` (`IndexAfterIsOffset`).
- The module docstring (build_corpus.py:12) announces chunks of about 250
  tokens with a 50-token overlap. Every token is covered (`CoveringChunk`),
  but consecutive chunks share `overlap` tokens only when the first one is
  full; in general they share `min(overlap, n - (k+1)*s)` tokens
  (`ConsecutiveOverlap`), and a short tail chunk can lie wholly inside its
  predecessor (`TailInsidePredecessor`, `ShortTailExample`).

## Model

| member | source | states |
|---|---|---|
| Text.Split | build_corpus.py:69 | every token `str.split()` yields is non-empty and holds no whitespace |
| Text.SplitJoin | build_corpus.py:69-72 | splitting the space-join of such tokens gives exactly those tokens back |
| Cleaner.Collapse | build_corpus.py:64 | the substitution never lengthens the text, empties only the empty text, and keeps whether the text starts with whitespace |
| Cleaner.CollapseKeepsVisible | build_corpus.py:64 | the collapse keeps every non-whitespace character, in order, and adds none |
| Cleaner.CollapseNoDoubleSpace | build_corpus.py:64 | after the collapse no two adjacent characters are both whitespace |
| Cleaner.CollapseFixedPoint | build_corpus.py:64 | a text is left unchanged by the collapse if and only if it has no two adjacent whitespace characters |
| Cleaner.CollapseIdempotent | build_corpus.py:64 | collapsing twice equals collapsing once |
| Cleaner.CollapseKeepsTokens | build_corpus.py:64-69 | the collapse does not change the tokens `str.split()` finds, so cleaning does not change the chunks |
| Chunker.ChunkCount | build_corpus.py:71-73 | the number of chunks is `ceil(n / (window - overlap))`: the fewest strides whose offset reaches `n` |
| Chunker.ChunkExists | build_corpus.py:71 | chunk `k` is yielded if and only if its start index `k * stride` is below the token count |
| Chunker.ChunkCountUnique | build_corpus.py:71-73 | no other count satisfies the two ceiling bounds |
| Chunker.ChunkTokens | build_corpus.py:72 | chunk `k` is the slice of tokens from `k * stride` to `min(k * stride + window, n)`, start below end |
| Chunker.ChunkText | build_corpus.py:67-73 | the loop terminates when `window > overlap`, yields exactly `ChunkCount` chunks, and chunk `k` is the space-join of slice `k` |
| Chunker.ChunkSize | build_corpus.py:71-73 | every chunk has between 1 and `window` tokens, exactly `window` iff the window fits; start indices strictly increase |
| Chunker.CoveringChunk | build_corpus.py:71-73 | every token index lies in some yielded chunk, at the position its index gives |
| Chunker.ConsecutiveOverlap | build_corpus.py:71-73 | chunks `k` and `k+1` share exactly the tokens from the start of `k+1` to the end of `k`, `min(overlap, n - (k+1)*stride)` of them, exactly `overlap` when chunk `k` is full |
| Chunker.TailInsidePredecessor | build_corpus.py:71-73 | when at most `overlap` tokens remain, chunk `k+1` is the tail of chunk `k` and both end at `n` |
| Chunker.ShortTailExample | build_corpus.py:67-73 | 240 tokens with the defaults give two chunks, the second inside the first |
| Chunker.ThreeHundredTokensExample | build_corpus.py:67-73 | 300 tokens with the defaults give `tokens[0:250]` and `tokens[200:300]` and nothing more |
| Chunker.SplitChunk | build_corpus.py:69-72 | splitting a yielded chunk on whitespace gives back exactly its token slice |
| Chunker.NoTokensNoChunks | build_corpus.py:69-71 | a text of whitespace only yields no chunk |
| Chunker.StalledWithoutProgress | build_corpus.py:70-73 | with `overlap >= window` the loop index `IndexAfter` stays at or below 0 after any number of passes, so `i < len(tokens)` stays true on a non-empty token list and the loop never ends |
| Chunker.IndexAfterIsOffset | build_corpus.py:70-73 | with `overlap < window` the loop index after `k` passes is the start `Offset(k, window - overlap)` of chunk `k` |
| Article.BeforeFirst | build_corpus.py:86 | `split(".")[0]` is the longest prefix without a `.`, ending at the first `.` or at the end |
| Article.TitleIsPrefix | build_corpus.py:86 | the title is a prefix of the cleaned text, holds no `.`, has at most 120 characters, and stops only at 120, at a `.` or at the end |
| Article.MarkdownHeading | build_corpus.py:96 | the first line of the article is `# <title>` whenever the title has no line break |
| Corpus.Decimal | build_corpus.py:101 | `str(idx)` is non-empty, with at least two digits from 10 on |
| Corpus.DecimalInjective | build_corpus.py:101 | different indices have different decimal forms |
| Corpus.ChunkKeysDistinct | build_corpus.py:101 | within one document, different chunk indices hash different strings `f"{doc_id}-{idx}"` |
| Corpus.ChunkId | build_corpus.py:101 | given a 64-character lower-case `hexdigest()`, the chunk id has exactly 16 characters, all lower-case hex digits, and is a prefix of the digest of `f"{doc_id}-{idx}"` |
| Corpus.BuildDocument | build_corpus.py:86-113 | the per-document loop produces the title, the article and the `chunks`/`metas` lists of `DocumentFor` |
| Corpus.DocumentFacts | build_corpus.py:98-113 | `chunks` and `metas` have one entry per chunk, line `i` of both carries the id of chunk `i`, metadata has the placeholder fields and the document's title and URL, and each chunk text splits back into its 1 to 250 tokens |
| Corpus.KeptIndicesSpec | build_corpus.py:77-83 | the kept positions are increasing, in range, at most as many as the URLs, and are exactly the pages whose cleaned text has at least 100 characters |
| Corpus.ListedAppend | build_corpus.py:124-129 | appending the next kept page's entry and files keeps manifest and documents aligned with the kept positions |
| Corpus.BuildCorpus | build_corpus.py:75-129 | the run writes one manifest entry and one document per kept page, in URL order, the `m`-th with the `m`-th fresh id |
| Corpus.ManifestFacts | build_corpus.py:81-129 | the manifest has at most one entry per URL, each naming `documents/<id>/chunks.jsonl` of the document with the same id, the page's URL and the title of its cleaned text; a page under 100 characters has no entry |

## Left out

- Fetching with `requests.get` and `raise_for_status`: network I/O. A failed
  fetch raises and aborts the whole run; the model starts from the pages that
  were fetched.
- HTML parsing and tag removal with BeautifulSoup: a foreign library. Its
  text output is an input of the model, and `CleanHtml` only applies the
  whitespace collapse to it.
- `uuid.uuid4()` and `hashlib.sha256`: randomness and a cryptographic hash,
  taken as the parameters `uuids` and `sha256Hex`. Nothing is claimed about
  hash collisions; only the hashed strings are proved distinct.
- Directory creation, the copy of `aliases.yaml`, `write_text` and the JSON and
  JSONL writes: file I/O. The model returns the contents (`DocumentFiles`,
  the manifest) instead of writing them; JSON serialisation is not modelled.
- The `tqdm` progress bar and the `print` messages, including the skip
  warning: console output.
- The unused imports of `sentence_splitter`, `yaml` and `datetime`: no behaviour.
- Chunker.ChunkText: `window` and `overlap` are natural numbers. A negative
  `overlap` makes the step larger than the window, so the chunks leave gaps
  (`chunk_text(t, 250, -50)` puts tokens 250 to 299 in no chunk); a negative
  `window` makes Python slice up to a position counted from the end of the
  list. Neither is modelled; the script only calls the chunker with 250 and 50.
- Chunker.ChunkText: the generator is run to completion and its chunks are
  returned as one sequence. The script consumes them one by one, but nothing
  else happens in between that the order could affect.
