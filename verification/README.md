# OpenAI-RAG-Model in Dafny

This project models the pure core of a small retrieval-augmented chat tool.

**Chat side (`main.py`).** A query embedding is scored against every stored `(text, embedding)` record with a plain dot product. The scored pairs are sorted by score, descending, with Python's stable sort, and the first `top_k` are kept. The pairs whose score reaches the threshold become the context of the chat request. With no such pair, the request is the fixed "no data" sentence followed by the query.

**Ingestion side (`utils/openaiEmbeddings.py`).** A Markdown document is cut at every `". "` and the sentences are packed greedily into chunks. A sentence joins the current chunk when the chunk's length plus the sentence's length is at most `chunk_size`. That test leaves out the `". "` appended with it, so a raw chunk can reach `chunk_size + 2` characters. A sentence longer than `chunk_size` becomes a chunk of its own, whatever its length. Each embedding is stored as four bytes per value.

**Scrapers (`utils/scrapers/`).** Two scrapers read a file of URLs, one per line, and write Markdown files into `data/`. The GitHub scraper takes a `https://github.com/{owner}/{repo}/blob/{branch}/{path}` URL apart and names the file after the last path segment. The SharePoint scraper names the file after the page title, with the characters `\ / * ? : " < > |` deleted.

The modules follow the program:

| module | file | what it holds |
|---|---|---|
| `PyStrings` | pystrings.dfy | Python `str.strip`, `split`, `join`, `replace` as the leftmost, non-overlapping scans CPython performs |
| `Similarity` | similarity.dfy | `dot_product` over `zip` |
| `Ranking` | ranking.dfy | `get_most_relevant_texts`: scoring, the stable descending sort (an insertion sort over corpus indices) and the `[:top_k]` slice, negative `top_k` included |
| `Grounding` | grounding.dfy | the threshold filter and the two chat requests of `generate_chatgpt_response` |
| `VectorBlob` | vector_blob.dfy | the `struct.pack` / `struct.unpack` layout of an embedding |
| `Chunker` | chunker.dfy | `split_content`: a pure reference `PackFrom`, and the loop of the source proved to compute it |
| `UrlFile` | url_file.dfy | `readlines()`, then `strip()` each line and skip the empty ones; both scrapers share it |
| `GitHubScraper` | github_scraper.dfy | `extract_repo_details`, the file-name transforms, `process_github_url`, `process_urls_from_file` |
| `SharePointScraper` | sharepoint_scraper.dfy | the file-name sanitiser, the `os.path.join` target and the URL loop |
| `Results` | results.dfy | `Result` and `Option` |

Scores are exact reals. The services the code calls are parameters:
- the query embedding is an argument `q`;
- the GitHub contents call is a function `fetch` from the four URL parts to a `Fetched` outcome: it raised, it returned `None`, or it returned the decoded text;
- whether the GitHub scraper's `open` and `write` succeed on a path is a function `canWrite`;
- what `save_page_content` achieves for a SharePoint URL is a function `visit`: the page title when it wrote its file, `None` when something inside its `try` raised.
- the float codec of `struct` is a pair `encode` / `decode`.

Where the code and the intended design differ, the model follows the code:
- Vectors of different lengths are not rejected. `zip` truncates to the common prefix (`Similarity.DotTruncates`).
- An empty corpus is not an error. It gives an empty ranking and the ungrounded request.
- `top_k` is any integer. A negative `top_k` drops records from the end, as a Python slice does (`Ranking.SliceLength`).

## Model

| member | source | states |
|---|---|---|
| Similarity.Dot | main.py:52-53 | `dot_product(a, b)` is `0.0` whenever either vector is empty or all zeros, whatever the length of the other |
| Similarity.DotSymmetric | main.py:52-53 | the score of `a` against `b` equals the score of `b` against `a`, for all vectors |
| Similarity.DotTruncates | main.py:53 | vectors of different lengths are compared on their first `min(len(a), len(b))` entries; the surplus of the longer one never counts and nothing is raised |
| Similarity.DotSnoc | main.py:53 | one more coordinate pair on equal-length vectors adds exactly its product to the score |
| Ranking.Scores | main.py:65-68 | one score per stored record, in corpus order: score `i` is the dot product of the query with record `i`'s embedding |
| Ranking.Insert | main.py:70 | inserting a record into a list in stable descending order gives a list in that order, one longer, holding the old records and the new one |
| Ranking.SortDesc | main.py:70 | the sort of the first `n` records lists each of `0..n-1` once (length `n`, exactly those members), by non-increasing score with ties in corpus order |
| Ranking.TopIndices | main.py:70-72 | the records kept are as many as the Python slice `[:top_k]` keeps, still in stable descending order |
| Ranking.Retrieve | main.py:64-72 | `get_most_relevant_texts` returns as many pairs as `scores[:top_k]` holds, `min(top_k, len(corpus))` when `top_k >= 0`, with scores non-increasing |
| Ranking.RetrieveIsStableTopK | main.py:66-72 | each returned pair is `(text_i, dot(q, emb_i))` of a distinct record `i`; equal scores keep corpus order; every returned record precedes every record left out in the stable order (higher score, or equal score and earlier in the corpus), so of two tied records the cut keeps the earlier; `top_k >= len(corpus)` returns every record |
| Ranking.StablyRankedUnique | main.py:70 | two lists of the same records, both in stable descending order, are equal |
| Ranking.SortDescIsTheStableOrder | main.py:70 | any arrangement of all records by non-increasing score with ties in corpus order is exactly the sorted list |
| Grounding.SelectContext | main.py:87 | a pair is kept iff it is in the ranked list and its score is `>= score_threshold`; the kept list is never longer |
| Grounding.SelectDistributes | main.py:87 | filtering a concatenation is concatenating the filtered parts, so kept pairs stay in ranked order |
| Grounding.SelectMonotone | main.py:87 | the list kept at a higher threshold is the list kept at a lower one filtered again, so it is never longer |
| Grounding.SelectRankedIsPrefix | main.py:87 | on a list of non-increasing scores the kept pairs are a prefix, and every pair after it scores below the threshold |
| Grounding.Texts | main.py:106 | one text per kept pair, in ranked order: text `j` is the text of kept pair `j` |
| Grounding.Respond | main.py:76-119 | both branches send `gpt-4`, streaming, the fixed system message and one user message; the request is grounded iff some score in the ranked list reaches the threshold; ungrounded it carries the no-data sentence, a space and the query; grounded it carries the prompt built from the kept texts |
| Grounding.ShowScoresOnlyPrints | main.py:82-87 | `show_scores` only decides whether the ranked pairs are shown; the branch and the request do not depend on it |
| Grounding.UngroundedIgnoresCorpus | main.py:88-98 | the ungrounded request contains no corpus text: any two corpora that both fall back give the same request for the same query |
| Grounding.ThresholdAboveAllScores | main.py:87-95 | a threshold above every record's score always takes the ungrounded branch |
| Grounding.SessionDefaults | main.py:76-88 | with the defaults the session loop of `main` always uses (`score_threshold` 0.5, `top_k` 3), at most three pairs are ranked and shown, every kept pair scores at least 0.5, and the answer is grounded iff some pair is kept |
| Grounding.GroundedPromptRecoversContext | main.py:106-110 | the grounded prompt is the fixed head, the query, the context intro, the kept texts joined by `"\n"` and the fixed tail; with no newline inside the texts, splitting the context block on `"\n"` gives the texts back in ranked order |
| VectorBlob.Pack | utils/openaiEmbeddings.py:65 | packing `n` values gives `4n` bytes, and bytes `4i..4i+4` are the encoding of value `i` |
| VectorBlob.Unpack | main.py:45-46 | unpacking succeeds iff the blob length is a multiple of 4; it then gives `len(blob) // 4` values, value `i` decoded from word `i`; otherwise it is the `struct.error`, carrying the required size `4 * (len(blob) // 4)` that CPython's message names, and the blob's length as a modelling addition |
| VectorBlob.PackThenUnpack | utils/openaiEmbeddings.py:65 | a packed embedding of `n` values is `4n` bytes, reads back as `n` values, and value `i` read back is the decoding of the encoding of value `i` |
| Chunker.PackFrom | utils/openaiEmbeddings.py:40-50 | the packing of the remaining sentences gives at most one raw chunk more than there are sentences left, and none at all iff the current chunk is empty and no sentence is left |
| Chunker.PackChunks | utils/openaiEmbeddings.py:40-50 | the loop over the sentences, with the final flush, emits exactly the stripped chunks of the greedy packing |
| Chunker.SplitContent | utils/openaiEmbeddings.py:37-51 | `split_content` returns the stripped packing: at least one chunk and at most one more than there are sentences; no chunk after the first is empty; the first is empty iff the first sentence is longer than `chunk_size`; a document within `chunk_size` is the single chunk `(content + ". ").strip()` |
| Chunker.RawChunksConcat | utils/openaiEmbeddings.py:39-47 | the chunks before stripping, concatenated, are the document followed by one `". "`: nothing is lost or reordered |
| Chunker.RawChunksAtSentences | utils/openaiEmbeddings.py:39-50 | chunk boundaries are sentence boundaries: there are cut points `0 = c0 <= c1 < c2 < ... < cn` = the number of sentences such that raw chunk `j` is sentences `cj` to `c(j+1)`, each followed by `". "`; so no sentence is split across two chunks, and only the first chunk can hold no sentence |
| Chunker.RawChunksShape | utils/openaiEmbeddings.py:43-50 | every raw chunk ends with `". "` and is at most `chunk_size + 2` long or one single sentence; the only exception is an empty first chunk, present iff the first sentence is longer than `chunk_size`; the last chunk is never that one |
| Chunker.ChunksCount | utils/openaiEmbeddings.py:42-50 | there is at least one chunk, at most one more than there are sentences, and the last chunk is not empty |
| Chunker.ChunksEmptyOnlyFirst | utils/openaiEmbeddings.py:43-46 | an empty chunk can only be the first, and it is there iff the first sentence is longer than `chunk_size` |
| Chunker.RawChunksSmall | utils/openaiEmbeddings.py:37-51 | a document no longer than `chunk_size` is one raw chunk, the document plus `". "` |
| PyStrings.Strip | utils/scrapers/scrapeGitHubRepos.py:83 | `strip()` never lengthens, leaves no whitespace at either end, and gives `""` iff the line is all whitespace |
| PyStrings.StripIsTrim | utils/scrapers/scrapeGitHubRepos.py:83 | the line is some whitespace, then its `strip()`, then some whitespace: only leading and trailing whitespace is removed |
| PyStrings.StripUnique | utils/scrapers/scrapeGitHubRepos.py:83 | a trimmed string with only whitespace before and after it is what `strip()` gives back, so `StripIsTrim` and the contract of `Strip` fix the result |
| PyStrings.Split | utils/openaiEmbeddings.py:39 | `split(sep)` gives at least one piece, and the pieces joined by `sep` are the string again |
| PyStrings.SplitLeftmost | utils/openaiEmbeddings.py:39 | no piece of `split(sep)` contains `sep`, and every cut is at the first match after the previous cut: no match starts inside a piece and runs into the separator after it |
| PyStrings.SplitUnique | utils/openaiEmbeddings.py:39 | any cutting of a string into pieces that join back with `sep`, each cut at the leftmost match and the last piece free of `sep`, is `split(sep)`: `SplitLeftmost` fixes the result |
| PyStrings.SplitCharAppend | utils/scrapers/scrapeGitHubRepos.py:29 | with a one-character separator every occurrence is a cut: splitting `a + sep + b` is splitting `a`, then splitting `b` |
| PyStrings.ReplaceIsJoinOfSplit | utils/scrapers/scrapeGitHubRepos.py:29 | `s.replace(pat, rep)` equals `rep.join(s.split(pat))` |
| PyStrings.SplitJoinChar | main.py:109 | for a one-character separator that no part contains, splitting the joined parts gives the parts back |
| UrlFile.UrlsToVisit | utils/scrapers/scrapeGitHubRepos.py:82-84 | every URL visited is non-empty and has no whitespace at either end |
| UrlFile.UrlsToVisitAreLines | utils/scrapers/sharepointScraper.py:91-95 | a string is visited iff it is non-empty and is some line of the file with its surrounding whitespace removed |
| UrlFile.ReadLines | utils/scrapers/scrapeGitHubRepos.py:80 | `readlines()` gives no line for an empty file, at least one for any other, and never more lines than characters |
| UrlFile.ReadLinesConcat | utils/scrapers/scrapeGitHubRepos.py:79-80 | `readlines()` loses nothing: the lines concatenated are the file text |
| UrlFile.ReadLinesBreaks | utils/scrapers/scrapeGitHubRepos.py:80 | no line read is empty, every line but the last ends with `'\n'`, and no line holds a `'\n'` before its end |
| UrlFile.UrlsRoundTrip | utils/scrapers/scrapeGitHubRepos.py:79-85 | writing trimmed, non-empty URLs one per line and reading the file back visits exactly those URLs, in order |
| UrlFile.BlankLineIgnored | utils/scrapers/scrapeGitHubRepos.py:82-85 | a whitespace-only line anywhere in the file changes nothing: the URLs visited are those of the file without it |
| UrlFile.UrlsOfAppend | utils/scrapers/sharepointScraper.py:93-96 | lines are handled one by one in file order: the URLs of two runs of lines are the URLs of the first followed by those of the second |
| UrlFile.UrlsOfMembers | utils/scrapers/sharepointScraper.py:93-96 | a string is visited iff it is non-empty and is the stripped form of some line; every URL visited is trimmed |
| UrlFile.NoNewlineInUrls | utils/scrapers/sharepointScraper.py:90-94 | no visited URL contains a `'\n'` |
| GitHubScraper.Details | utils/scrapers/scrapeGitHubRepos.py:29-35 | on the text left once the prefix is deleted: `IndexError` iff it holds fewer than three `'/'`; owner, repository and branch contain no `'/'`; the path is `""` when there are exactly three `'/'` |
| GitHubScraper.ExtractRepoDetails | utils/scrapers/scrapeGitHubRepos.py:26-35 | `IndexError`, and only that exception, iff, once the prefix is deleted, the text has fewer than three `'/'`; owner, repo and branch contain no `'/'`; the path is `""` when there are exactly four segments |
| GitHubScraper.ExtractRoundTrip | utils/scrapers/scrapeGitHubRepos.py:26-35 | `https://github.com/o/r/x/b/p` with no `'/'` in `o`, `r`, `x`, `b`, and no `https://github.com/` anywhere after the leading prefix, gives `(o, r, b, p)`: the third segment is never looked at and the slashes inside the path survive |
| GitHubScraper.PrefixOptional | utils/scrapers/scrapeGitHubRepos.py:29 | a leading prefix is optional: a URL with it in front and the same URL without it give the same result |
| GitHubScraper.PrefixDeletedInside | utils/scrapers/scrapeGitHubRepos.py:29 | the prefix is deleted wherever it occurs, not only in front: a copy after a stretch `u` in which no copy starts is cut out, and the rest is handled the same way |
| GitHubScraper.PrefixInPathDeleted | utils/scrapers/scrapeGitHubRepos.py:29-33 | a file URL whose path is itself `https://github.com/` comes back with an empty path, for any owner, repository, third segment and branch free of `'/'` and `'h'` |
| GitHubScraper.PrefixInPathWitness | utils/scrapers/scrapeGitHubRepos.py:29-33 | `https://github.com/o/r/blob/b/https://github.com/` gives `("o", "r", "b", "")`, not the path `https://github.com/` |
| GitHubScraper.SaveTargetShape | utils/scrapers/scrapeGitHubRepos.py:55-59 | the stem has the length of the name, `'_'` where the name has `'/'` and the name's character elsewhere; the file is `data/` + stem + `.md`, directly inside `data/` |
| GitHubScraper.SavedName | utils/scrapers/scrapeGitHubRepos.py:71 | the name a file is saved under never contains `'/'` |
| GitHubScraper.LastSegmentAfterSlash | utils/scrapers/scrapeGitHubRepos.py:71 | the last `'/'`-segment of `a/b` is the last segment of `b`, whatever `a` holds |
| GitHubScraper.SavedNameOfFile | utils/scrapers/scrapeGitHubRepos.py:71 | a file name with no `.js` in it, in any directory, is saved under that name |
| GitHubScraper.JsExtensionDeleted | utils/scrapers/scrapeGitHubRepos.py:71 | a file `stem.js` is saved as `stem` |
| GitHubScraper.JsInsideJsonDeleted | utils/scrapers/scrapeGitHubRepos.py:71 | `.js` is deleted wherever it occurs: a file `stem.json` is saved as `stem` followed by `on` |
| GitHubScraper.ProcessGitHubUrl | utils/scrapers/scrapeGitHubRepos.py:39-73 | an unsplittable URL raises `IndexError`; a download that raises raises; a status other than 200 or an empty download writes nothing; otherwise the text is written to `data/` + last segment without `.js` + `.md`, and a failing `open` or `write` raises |
| GitHubScraper.ProcessUrlsOutcome | utils/scrapers/scrapeGitHubRepos.py:77-85 | nothing catches an exception: the run ends with one iff some URL raises (cannot be taken apart, download raises, or file cannot be written), and then with the first such URL's; it writes at most one file per URL, each non-empty and directly inside `data/` |
| GitHubScraper.RunOf | utils/scrapers/scrapeGitHubRepos.py:82-85 | the loop with nothing to catch an exception: given each URL's outcome, the run fails iff some outcome is an exception, and it writes at most one file per outcome |
| GitHubScraper.ProcessUrls | utils/scrapers/scrapeGitHubRepos.py:82-85 | the run over a list of URLs fails iff some URL raises, and it writes at most one file per URL |
| GitHubScraper.ProcessUrlFile | utils/scrapers/scrapeGitHubRepos.py:77-85 | `process_urls_from_file` on a file's text ends with an exception iff the URL of some non-blank line raises, and then with the first such URL's exception; it writes at most one file per non-blank line |
| GitHubScraper.ProcessUrlFileBlankLine | utils/scrapers/scrapeGitHubRepos.py:82-85 | a whitespace-only line anywhere in the URL file leaves the whole run unchanged: same exception, same files |
| GitHubScraper.ProcessUrlsOnlySplitFails | utils/scrapers/scrapeGitHubRepos.py:77-85 | when no download raises and every file can be written, the run fails iff some URL cannot be taken apart, and then with `IndexError` |
| GitHubScraper.ProcessUrlsAppend | utils/scrapers/scrapeGitHubRepos.py:82-85 | URLs are handled in file order and the first exception ends the run: running over `a + b` is running over `a`, then over `b` unless `a` raised |
| SharePointScraper.Sanitize | utils/scrapers/sharepointScraper.py:69 | the stem holds none of the nine characters of the class: backslash, `/`, `*`, `?`, `:`, `"`, `<`, `>` and the vertical bar |
| SharePointScraper.SafeFileName | utils/scrapers/sharepointScraper.py:69 | the file name ends with `.md` and its stem holds no forbidden character |
| SharePointScraper.SanitizeCounts | utils/scrapers/sharepointScraper.py:69 | every allowed character occurs in the stem as often as in the title, and no forbidden one occurs |
| SharePointScraper.SanitizeAppend | utils/scrapers/sharepointScraper.py:69 | sanitising works character by character: the stem of a concatenation is the concatenation of the stems |
| SharePointScraper.SanitizeLength | utils/scrapers/sharepointScraper.py:69 | the stem is never longer than the title, and as long iff the title holds no forbidden character |
| SharePointScraper.SanitizeIdempotent | utils/scrapers/sharepointScraper.py:69 | sanitising a sanitised stem changes nothing |
| SharePointScraper.PathJoin | utils/scrapers/sharepointScraper.py:74 | `os.path.join(a, b)` always ends with `b`; an absolute `b` is the whole result; otherwise the result starts with `a` and is at most one character longer than both together (room for one `'/'` between them) |
| SharePointScraper.SavePathInData | utils/scrapers/sharepointScraper.py:69-74 | `os.path.join("data", name)` is `data/` + name, and the name holds no `'/'`, so the page is written directly inside `data/` |
| SharePointScraper.Saved | utils/scrapers/sharepointScraper.py:47-79 | at most one file per URL, and every file written is `data/` + the sanitised title + `.md` of a URL whose processing did not raise |
| SharePointScraper.SavedAppend | utils/scrapers/sharepointScraper.py:77-79 | an exception inside `save_page_content` is caught and the loop goes on: the files of `a + b` are the files of `a` followed by those of `b` |
| SharePointScraper.SavedOne | utils/scrapers/sharepointScraper.py:47-79 | one URL writes exactly the file named after its title, or nothing when its processing raises |
| SharePointScraper.SavedAllVisited | utils/scrapers/sharepointScraper.py:93-96 | when no URL raises, every URL gives one file, in order |
| SharePointScraper.SavedPaths | utils/scrapers/sharepointScraper.py:90-96 | every URL of the file is visited in order; the files written are at most one per URL, each named after the title of a URL whose processing did not raise |

## Left out

- Database access (`get_embeddings_from_db`, `chunk_exists` with its SQL `LIKE`, `upload_to_vectordb`'s insert and commit) and `utils/setupDB.py`: opaque I/O. The corpus is a sequence of records.
- The OpenAI embedding and chat calls and the printing of the streamed answer. The query embedding is a parameter, and the model stops at the chat request it sends.
- The argparse and `input()` session loop of `main`. It calls `generate_chatgpt_response` with the default threshold 0.5 and `top_k` 3, the constants `Grounding.DefaultThreshold` and `Grounding.DefaultTopK`; `Grounding.SessionDefaults` states what those defaults give.
- `process_md_files`: the directory listing and file reading. The chunker takes the document text and `chunk_size` as a parameter; `process_md_files` always uses the default 2000.
- IEEE float rounding, in the scores and in `struct`'s float codec. Scores are exact reals and the codec is a parameter.
- VectorBlob.Pack: does not model the `OverflowError` that `struct.pack` with format `f` raises for a finite value outside the single-precision range. `encode` is total, so every vector packs. Embeddings returned by the embedding service are unit-scale, so the error cannot arise on the values the ingestion code packs.
- Grounding.Respond: the `shown` field records which pairs are printed, not the printed text. The `{text[:50]}` snippet and `{score:.4f}` formatting are not modelled.
- HTTP to the GitHub contents API, the JSON access and the base64 and UTF-8 decoding. `fetch` stands for all of them; which of them raised is not distinguished, every such exception is `FetchError`.
- Selenium login, page loading and BeautifulSoup text extraction in the SharePoint scraper. What visiting a URL yields is a parameter, and the file content is not modelled. An exception raised by `login` or by the WebDriver set-up, outside the loop's `try`, is not modelled.
- Directory creation and file writes. Whether a write succeeds is the parameter `canWrite` (GitHub) or part of `visit` (SharePoint); a file the GitHub scraper writes is a `Saved(path, content)` value, and one the SharePoint scraper writes is its path.
- Opening the URL file itself. Both scrapers raise when it cannot be read; the model starts from its text.
- Universal-newline translation by `open(..., "r")`. The URL file is already-decoded text split at `'\n'`. A `'\r'` left before the `'\n'` is whitespace and is stripped anyway.
- `os.path.join` on Windows. `SharePointScraper.PathJoin` follows POSIX.
