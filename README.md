# Paper search and reverse image search: the retrieval core in Dafny

This project models the retrieval arithmetic of two small search systems and
proves what it computes.

- **Hybrid paper search** (`hybrid_search/`):
  - a semantic index over NeurIPS papers, with one text per paper embedded by a sentence model;
  - the top-k semantic ranking;
  - the fusion of semantic hits and keyword hits into one ranked list;
  - the scraper that turns the listing page's items into paper records and retries empty scrapes.
- **Reverse image search** (`reverse_image_process/`):
  - embedding every image file of a folder;
  - the dot-product similarity;
  - the top-k ranking of a database of embeddings against a query image;
  - the search object that holds the database;
  - the result grid.

## How it is modelled

**Python dicts.** A dict is a sequence of (key, value) pairs in insertion
order (`Dicts`). Assigning to an existing key keeps its position, and a new
key is appended. Tie order after sorting therefore comes out exactly as
Python produces it.

**Sorting.** Python's stable sort by descending score is a functional
insertion sort (`Ranking.SortDesc`). Stability is stated through `WithScore`:
for every score, the sub-list of entries with that score keeps its order.

**Oracles.** The following become function parameters:
- the sentence model;
- the image model (`None` when an image cannot be loaded);
- the cosine similarity of the paper search;
- MongoDB's keyword search;
- the folder listing and "path exists";
- the stored pickle;
- each scrape attempt's outcome.

**Scores.** Scores are `real`s.

**State.** The two engines are classes whose fields the methods update:
- `HybridSearchEngine.papers` / `paperEmbeddings`;
- `ReverseImageSearch.databaseEmbeddings`.

**Loops.** Loops in the source are methods with loop invariants, each proved
equal to a function that specifies it. The properties are lemmas about those
functions.

**`semantic_search`'s `IndexError`.** `semantic_search` raises `IndexError` when:
- a later `build_index` found no papers, and so left the old embeddings in place;
- and something is looked up.

This is modelled as `Err(IndexError)`, and the exact condition is proved
(`StaleIndex`).

## Model

| member | source | states |
|---|---|---|
| Dicts.DedupMembers | hybrid_search/search_engine.py:80-102 | the key order of a dict filled from a sequence of keys holds each key exactly once, and exactly the keys of the sequence |
| Dicts.GetSome | hybrid_search/search_engine.py:96 | `paper_id in paper_scores` holds exactly when a lookup finds an entry |
| Dicts.GetFound | hybrid_search/search_engine.py:97 | what a lookup finds is an entry of the dict under that key |
| Dicts.GetEntry | reverse_image_process/image_embeddings.py:126 | with distinct keys, looking up an entry's key finds that entry's value |
| Dicts.SetKeys | hybrid_search/search_engine.py:85-88 | `d[k] = v` keeps the key order when `k` is present and appends `k` otherwise |
| Dicts.SetSame | reverse_image_process/image_embeddings.py:85 | after `d[k] = v`, `d[k]` is `v` |
| Dicts.SetOther | hybrid_search/search_engine.py:99-102 | `d[k] = v` leaves every other key's value unchanged |
| Dicts.SetDistinct | reverse_image_process/image_embeddings.py:85 | assignment never repeats a key |
| Ranking.SortDesc | hybrid_search/search_engine.py:105-107 | the sorted list is a permutation of the input, of the same length, with non-increasing scores |
| Ranking.SortDescStable | reverse_image_process/image_embeddings.py:131 | the sort is stable: for every score, the entries with that score keep their relative order |
| Ranking.SortDescDistinctBy | hybrid_search/search_engine.py:105-107 | sorting never creates a repeated key |
| Ranking.OmittedScoresNoHigher | reverse_image_process/image_embeddings.py:131-133 | an input entry that a cut of the ranking leaves out scores no higher than any kept entry |
| Ranking.TopKOfRanked | hybrid_search/search_engine.py:109 | `[:top_k]` of a ranked list keeps `min(top_k, n)` entries, stays ranked, and nothing after the cut scores higher than anything kept |
| Ranking.RankedTopKStable | reverse_image_process/image_embeddings.py:131-133 | after sorting and cutting, the kept entries of any one score are the first entries of that score in input order |
| Text.Strip | hybrid_search/scraper.py:35 | `strip()` leaves no whitespace at either end, adds no character, is empty exactly for all-whitespace text, and changes no stripped text |
| Text.StripInfix | hybrid_search/scraper.py:35 | the stripped text is the input with a whitespace prefix and a whitespace suffix cut off: `s[a:b]` with only whitespace before `a` and after `b` |
| Text.StripIdempotent | hybrid_search/scraper.py:46-48 | stripping twice is stripping once |
| Text.Split | hybrid_search/scraper.py:48 | `split(',')` gives one piece more than there are commas, and no piece holds a comma |
| Text.JoinSplit | hybrid_search/scraper.py:48 | joining the pieces of a split with the separator gives back the text |
| Text.SplitJoin | hybrid_search/search_engine.py:25 | splitting a join of separator-free pieces gives back the pieces |
| Text.Lower | reverse_image_process/image_embeddings.py:71 | `lower()` keeps the length, leaves no upper-case ASCII letter, keeps every other character, and moves a changed character to its lower-case partner |
| Text.LowerIdempotent | reverse_image_process/image_embeddings.py:71 | lowering a lowered name changes nothing |
| Text.LowerKeeps | reverse_image_process/image_embeddings.py:71 | lowering neither creates nor removes a `.` or `/` (any non-letter), position by position |
| Scraper.AbsoluteLink | hybrid_search/scraper.py:36-40 | an empty link stays empty, a link starting with `http` is unchanged, any other link gets the host prefix, and a non-empty result starts with `http` |
| Scraper.Authors | hybrid_search/scraper.py:43-48 | no `<i>` tag gives no authors; otherwise there is one author more than the commas of the stripped text, each stripped and comma-free |
| Scraper.BlankAuthorTag | hybrid_search/scraper.py:45-48 | a blank author tag gives one empty author, not none |
| Scraper.AuthorsArePieces | hybrid_search/scraper.py:46-48 | each author is the stripped form of one comma-separated piece, and those pieces joined by commas give back the stripped text |
| Scraper.ExtractItem | hybrid_search/scraper.py:31-57 | an item yields a record exactly when it has an anchor with a non-empty stripped title and a non-empty link; the record holds that title, the absolute link, the authors and the scraper's year |
| Scraper.ExtractPapersWellFormed | hybrid_search/scraper.py:28-57 | there are never more records than items, and every record has a non-empty stripped title, an `http` link and the scraper's year |
| Scraper.ExtractPapersAppend | hybrid_search/scraper.py:28-62 | records are emitted item by item in item order: the records of concatenated items are the concatenated records |
| Scraper.ExtractPapersSingle | hybrid_search/scraper.py:50-57 | a single item contributes its record, or nothing |
| Scraper.NipsScraper.constructor | hybrid_search/scraper.py:7-9 | the scraper keeps its year |
| Scraper.NipsScraper.ScrapePapers | hybrid_search/scraper.py:18-69 | the loop over items returns the extracted records in item order; a failed request returns `[]` |
| Scraper.NipsScraper.ScrapeWithRetry | hybrid_search/scraper.py:71-79 | at most `max_retries` attempts; returns the first non-empty attempt, every earlier one having been empty; `[]` only after all attempts were empty, or with no attempt when `max_retries <= 0` |
| ImageEmbeddings.SimilaritySymmetric | reverse_image_process/image_embeddings.py:107-114 | the dot-product similarity is symmetric |
| ImageEmbeddings.SelfSimilarityNonNegative | reverse_image_process/image_embeddings.py:107-114 | an embedding's similarity to itself is never negative |
| ImageEmbeddings.Extension | reverse_image_process/image_embeddings.py:70-71 | `splitext(p)[1]` is empty or a suffix of `p` that starts with its only dot and holds no `/` |
| ImageEmbeddings.ExtensionNonEmpty | reverse_image_process/image_embeddings.py:71 | `splitext` finds an extension exactly when the last path component has a dot with some non-dot character before it |
| ImageEmbeddings.ExtensionLower | reverse_image_process/image_embeddings.py:71 | the extension of `f.lower()` is the lower-cased extension of `f` |
| ImageEmbeddings.IsImageFileExtension | reverse_image_process/image_embeddings.py:70-71 | a name passes the filter exactly when its own extension, lower-cased, is one of the six image extensions, so `photo.PNG` is kept |
| ImageEmbeddings.HiddenFileHasNoExtension | reverse_image_process/image_embeddings.py:71 | a leading-dot name such as `.png` has no extension, while `photo.PNG` has `.PNG` |
| ImageEmbeddings.ImageFiles | reverse_image_process/image_embeddings.py:68-71 | the filter keeps exactly the listed names whose lower-cased extension is an image extension |
| ImageEmbeddings.ImageFilesSnoc | reverse_image_process/image_embeddings.py:70-71 | the filter works name by name in listing order: one more listed name is appended exactly when it passes |
| ImageEmbeddings.PathJoin | reverse_image_process/image_embeddings.py:80 | `os.path.join`: an absolute name replaces the folder; otherwise the path starts with the folder and ends with the name, with exactly one `/` between them when the folder is non-empty and does not end with `/`, and nothing between them otherwise |
| ImageEmbeddings.PathJoinInjective | reverse_image_process/image_embeddings.py:80 | two relative names joined to the same folder give the same path only when they are the same name |
| ImageEmbeddings.ImageFilesDistinct | reverse_image_process/image_embeddings.py:70-71 | filtering a listing of distinct names keeps them distinct |
| ImageEmbeddings.ListingPathsDistinct | reverse_image_process/image_embeddings.py:70-80 | a listing of distinct names without `/`, as `os.listdir` gives, yields distinct joined paths, which is what `EmbedFilesOrder` needs |
| ImageEmbeddings.EmbedFilesContents | reverse_image_process/image_embeddings.py:79-85 | the folder loop's dict holds each joined path whose embedding succeeded, only those, each once and with its own embedding |
| ImageEmbeddings.EmbedFilesDistinct | reverse_image_process/image_embeddings.py:79-85 | the folder loop's dict never holds a path twice |
| ImageEmbeddings.EmbedFilesKeys | reverse_image_process/image_embeddings.py:79-85 | a path is a key exactly when it is the joined path of an image file and its embedding succeeded |
| ImageEmbeddings.EmbedFilesValues | reverse_image_process/image_embeddings.py:83-85 | each key's value is that path's embedding |
| ImageEmbeddings.EmbedFilesOrder | reverse_image_process/image_embeddings.py:79-85 | with distinct joined paths, the keys are the successful paths in listing order |
| ImageEmbeddings.FolderEmbeddingsContents | reverse_image_process/image_embeddings.py:63-88 | a missing folder gives `{}`; otherwise the dict holds exactly the image files' joined paths whose embedding succeeded, each once, with its own embedding |
| ImageEmbeddings.GenerateEmbeddingsForFolder | reverse_image_process/image_embeddings.py:63-88 | the folder loop computes that dict |
| ImageEmbeddings.Scores | reverse_image_process/image_embeddings.py:124-128 | the similarity list holds the database's paths in dict order, each paired with its dot product against the query |
| ImageEmbeddings.FindSimilarImages | reverse_image_process/image_embeddings.py:116-133 | `min(top_k, n)` results with non-increasing scores and no repeated path; each result is a database path with its dot product; no path left out scores higher than one returned; equal scores keep dict order |
| ImageEmbeddings.SortedMembers | reverse_image_process/image_embeddings.py:124-133 | every result is a database path with its dot product, no path repeats, and no omitted path scores higher |
| ImageEmbeddings.SortedDistinct | reverse_image_process/image_embeddings.py:126-133 | distinct database paths stay distinct through the sort and the cut |
| ImageEmbeddings.SortedOmitted | reverse_image_process/image_embeddings.py:131-133 | an entry whose path is not returned scores no higher than any returned entry |
| ImageSearch.GridFor | reverse_image_process/image_search.py:69-71 | for `n >= 1` results: `min(3, n + 1)` columns (so 2 for one result, 3 from two on), enough cells for the query and all results, and fewer spare cells than columns |
| ImageSearch.ReverseImageSearch.constructor | reverse_image_process/image_search.py:14-18 | starts from `{}` and takes the stored dict exactly when a non-empty path was given and exists |
| ImageSearch.ReverseImageSearch.IndexImages | reverse_image_process/image_search.py:20-31 | the database is replaced by the folder's embeddings, whatever it held; the result is saved exactly when non-empty |
| ImageSearch.ReverseImageSearch.Search | reverse_image_process/image_search.py:33-58 | an empty database gives `[]` without embedding the query; a failed query embedding gives `[]`; otherwise exactly `find_similar_images` on the database; the database is not changed |
| ImageSearch.ReverseImageSearch.DisplayResults | reverse_image_process/image_search.py:60-107 | no results give no figure; otherwise a `GridFor` grid with the query first, every result in order (the early stop never cuts one off), and the remaining cells switched off |
| SearchEngine.IndexTextWithoutAuthors | hybrid_search/search_engine.py:25 | a paper with missing or empty authors is indexed as its title and a space |
| SearchEngine.IndexTextAuthors | hybrid_search/search_engine.py:25 | the index text is the title, a space, and the space-joined authors, which can be read back when no name holds a space |
| SearchEngine.PseudoScore | hybrid_search/search_engine.py:94 | the keyword pseudo-score `(n - i) / n` lies in (0, 1] and is 1 for the first hit |
| SearchEngine.PseudoScoreDecreasing | hybrid_search/search_engine.py:92-94 | later keyword hits score strictly lower |
| SearchEngine.SemanticPassKeys | hybrid_search/search_engine.py:83-88 | after the semantic pass the ids are the semantic hits' ids, each once, in first-appearance order |
| SearchEngine.KeywordPassKeys | hybrid_search/search_engine.py:92-102 | the keyword pass appends each new id in first-appearance order and keeps the existing ones in place |
| SearchEngine.AddKeywordHitKeys | hybrid_search/search_engine.py:96-102 | one keyword hit keeps the id order when its id is present and appends it otherwise |
| SearchEngine.FusedKeys | hybrid_search/search_engine.py:80-102 | `paper_scores` holds each id of the semantic hits followed by the keyword hits exactly once, in first-appearance order |
| SearchEngine.SemanticPassWellKeyed | hybrid_search/search_engine.py:84-88 | every semantic entry is filed under its paper's id |
| SearchEngine.KeywordPassWellKeyed | hybrid_search/search_engine.py:93-102 | the keyword pass keeps every entry filed under its paper's id |
| SearchEngine.FusedWellKeyed | hybrid_search/search_engine.py:80-102 | after both passes every entry is filed under its own paper's id, and no id appears twice |
| SearchEngine.SemanticPassGet | hybrid_search/search_engine.py:83-88 | an id's semantic entry is its last semantic hit's paper with that hit's score times `semantic_weight`; an id without semantic hits has none |
| SearchEngine.AddKeywordHitGet | hybrid_search/search_engine.py:96-102 | a keyword hit adds its score to its id's entry and keeps the paper, or inserts its paper with that score; other ids are untouched |
| SearchEngine.KeywordPassGetPresent | hybrid_search/search_engine.py:96-97 | an id already present keeps its paper, and its score grows by the sum of its weighted pseudo-scores |
| SearchEngine.KeywordPassGetAbsent | hybrid_search/search_engine.py:92-102 | an id neither present nor among the keyword hits gets no entry |
| SearchEngine.KeywordPassGetFirst | hybrid_search/search_engine.py:98-102 | an id first brought by a keyword hit keeps that hit's paper and the sum of its weighted pseudo-scores |
| SearchEngine.FusedEntrySemantic | hybrid_search/search_engine.py:83-97 | an id with a semantic hit keeps the semantic paper, scored by its semantic score times `w` plus its weighted keyword pseudo-scores |
| SearchEngine.FusedEntryKeyword | hybrid_search/search_engine.py:92-102 | a keyword-only id keeps its first keyword hit's paper, scored by its weighted pseudo-scores |
| SearchEngine.FusedEntryNone | hybrid_search/search_engine.py:80-102 | an id neither signal returned has no entry |
| SearchEngine.FusedScoreBoth | hybrid_search/search_engine.py:83-97 | an id found by both signals keeps the semantic paper and scores `s * w + k * (1 - w)` |
| SearchEngine.FusedScoreSemanticOnly | hybrid_search/search_engine.py:83-88 | a semantic-only id scores `s * w` |
| SearchEngine.FusedScoreKeywordOnly | hybrid_search/search_engine.py:92-102 | a keyword-only id at position `i` scores `(n - i) / n * (1 - w)` |
| SearchEngine.ValuesDistinctBy | hybrid_search/search_engine.py:105 | the values of a well-keyed table hold each paper id once |
| SearchEngine.RankedEntries | hybrid_search/search_engine.py:105-109 | every entry of the cut ranking is the table's entry for its paper's id |
| SearchEngine.RankedOmitted | hybrid_search/search_engine.py:105-109 | an id the cut leaves out scores no higher than any returned entry |
| SearchEngine.FuseRanked | hybrid_search/search_engine.py:80-109 | `min(top_k, number of distinct ids)` entries, non-increasing scores, no repeated id |
| SearchEngine.FuseEntries | hybrid_search/search_engine.py:104-109 | each returned pair is the fused paper and score of its id |
| SearchEngine.FuseStable | hybrid_search/search_engine.py:105-109 | ties keep `paper_scores`' insertion order |
| SearchEngine.FuseOmitted | hybrid_search/search_engine.py:104-109 | any id either signal returned that the cut leaves out scores no higher than everything returned |
| SearchEngine.FuseHits | hybrid_search/search_engine.py:79-109 | the two loops, the sort and the cut compute the fused ranking: `min(top_k, distinct ids)` entries, non-increasing, no repeated id |
| SearchEngine.RankedPositions | hybrid_search/search_engine.py:53 | the ranked positions are `min(top_k, n)` positions of the similarity array |
| SearchEngine.RankedIndices | hybrid_search/search_engine.py:53 | the ranked positions are distinct, by non-increasing similarity, with no omitted position scoring higher: one admissible `argsort` result |
| SearchEngine.PositionsPastPapers | hybrid_search/search_engine.py:53-57 | some ranked position lies past the papers exactly when the papers are empty, embeddings remain, and `top_k > 0` |
| SearchEngine.ArgsortTopRanking | hybrid_search/search_engine.py:53-57 | the papers at the ranked positions with their similarities form a top ranking |
| SearchEngine.HybridSearchEngine.constructor | hybrid_search/search_engine.py:7-12 | no papers and no embeddings yet |
| SearchEngine.HybridSearchEngine.BuildIndex | hybrid_search/search_engine.py:14-31 | stores the papers; with papers, one embedding per paper of its index text, in paper order; without papers, the embeddings are left as they were |
| SearchEngine.HybridSearchEngine.SemanticSearch | hybrid_search/search_engine.py:35-59 | `[]` before a build; `IndexError` exactly on a stale index; otherwise `min(top_k, n)` pairs `(papers[idx], sim[idx])` at distinct positions with non-increasing similarity and nothing omitted scoring higher, with no promise on tie order |
| SearchEngine.HybridSearchEngine.HybridSearch | hybrid_search/search_engine.py:67-109 | asks both signals for `top_k * 2` hits; fails exactly when that semantic search fails; otherwise returns the fusion of the semantic ranking and the keyword hits |

## Left out

- **Sentence and image models.** The sentence model, the ViT image model, image loading and L2 normalisation are oracles. `build_index`'s batch `encode` is modelled per text.
- **Cosine similarity.** The cosine of `semantic_search` is an oracle. No unit-norm or [-1, 1] bound is claimed.
- **Floats.** Scores are exact reals: no float rounding and no NaN.
- **I/O.** The following are parameters or left out:
  - pickle save and load, where only whether `index_images` saves is modelled;
  - `os.listdir` and `os.path.exists`;
  - matplotlib drawing;
  - all console output, including `print_results`, `get_database_stats` and the paper engine's `display_results`.
- **Database and keyword search.** `hybrid_search/database.py` is not part of this model. MongoDB's text and author searches are oracles, so `keyword_search` and `search_by_author` are not modelled separately.
- **Scraper network and parsing.** The HTTP request, BeautifulSoup and `time.sleep` are left out. A page is given as its parsed `<li>` items, and each scrape attempt's outcome is given.
- **Interactive front ends.** `hybrid_search/main.py` and `reverse_image_process/main.py` are not part of this model.
- **Text.Lower:** lowers ASCII letters only, because full Unicode case mapping is outside the model. The image extensions are ASCII.
- **Text.IsSpace:** follows Python's `str.isspace` for the Unicode whitespace characters it lists.
- **Paths.** Paths follow POSIX `os.path` (`posixpath`) rules with `/` as the only separator. Windows drive letters and `\` separators are not modelled.
- **Negative `top_k`.** `top_k` is a `nat`. A negative `top_k`, which Python slicing would read from the end, is not modelled.
- **ImageEmbeddings.FindSimilarImages:** requires every database vector to have the query's length, because `np.dot` fails otherwise. That failure is not modelled.
- **ImageSearch.ReverseImageSearch.Search:** has the same length requirement on a successful query embedding.
- **SearchEngine.HybridSearchEngine.SemanticSearch:** the positions are those of a stable descending sort, one of the orders `np.argsort` may give. The contract promises no order among equal similarities, because `argsort` is not stable.
- **ImageSearch.ReverseImageSearch.DisplayResults:** a query or result image that cannot be read still appears in its cell (`QueryImage` or `ResultImage`). In the source that cell stays blank, with its axes shown.
- **Scraper.NipsScraper.ScrapePapers:** the per-item `except Exception` branch is not modelled, since no modelled step raises.
- **SearchEngine.HybridSearchEngine.HybridSearch:** the semantic hits and their positions are ghost outputs. They name what the semantic search returned, so the fusion can be stated over them.
