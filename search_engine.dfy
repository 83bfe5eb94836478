/**
 * The hybrid search engine over NeurIPS papers: the semantic index (one text
 * per paper, embedded by a sentence model), the top-k semantic ranking, and
 * the fusion of semantic hits with keyword hits into one ranked list.
 * The sentence model, the cosine similarity and the database's keyword search
 * are oracles given as parameters.
 */
module SearchEngine {
  import opened Wrappers
  import opened Dicts
  import opened Ranking
  import opened Text
  import opened Vectors


  /** A paper document as the database returns it: the fields the engine reads. */
  datatype Paper = Paper(id: Option<string>, title: string, authors: Option<seq<string>>)

  /** `str(paper.get('_id', ''))`: the key a paper is fused under. */
  function PaperId(p: Paper): string {
    p.id.GetOr("")
  }

  // ---------------------------------------------------------------------------
  // The index text

  /** `f"{title} {' '.join(authors)}"`, a missing author list counting as `[]`. */
  function IndexText(p: Paper): string {
    p.title + " " + Join(p.authors.GetOr([]), " ")
  }

  /** A paper without authors is indexed by its title and a trailing space. */
  lemma IndexTextWithoutAuthors(p: Paper)
    requires p.authors.None? || p.authors == Some([])
    ensures IndexText(p) == p.title + " "
  {
  }

  /**
   * The index text starts with the title and a space, and when no author name
   * holds a space the author list can be read back from the rest.
   */
  lemma IndexTextAuthors(p: Paper)
    requires p.authors.Some? && |p.authors.value| >= 1
    requires forall i :: 0 <= i < |p.authors.value| ==> ' ' !in p.authors.value[i]
    ensures |IndexText(p)| > |p.title|
    ensures IndexText(p)[..|p.title|] == p.title && IndexText(p)[|p.title|] == ' '
    ensures Split(IndexText(p)[|p.title| + 1..], ' ') == p.authors.value
  {
    var rest := Join(p.authors.value, " ");
    assert IndexText(p) == p.title + [' '] + rest;
    assert IndexText(p)[|p.title| + 1..] == rest;
    SplitJoin(p.authors.value, ' ');
  }

  // ---------------------------------------------------------------------------
  // Keyword pseudo-scores

  /** The score of the keyword hit at position `i` of `n`: `(n - i) / n`. */
  function PseudoScore(i: nat, n: nat): (r: real)
    requires i < n
    ensures 0.0 < r <= 1.0
    ensures i == 0 ==> r == 1.0
  {
    var hits := (n - i) as real;
    var total := n as real;
    assert 0.0 < hits <= total;
    assert hits / total * total == hits;
    hits / total
  }

  /** Later keyword hits score strictly lower. */
  lemma PseudoScoreDecreasing(i: nat, j: nat, n: nat)
    requires i < j < n
    ensures PseudoScore(j, n) < PseudoScore(i, n)
  {
    var nr := n as real;
    assert PseudoScore(j, n) * nr == (n - j) as real;
    assert PseudoScore(i, n) * nr == (n - i) as real;
  }

  // ---------------------------------------------------------------------------
  // Rank fusion, as values

  /** `paper_scores`: paper id to the paper kept for it and its accumulated score. */
  type Table = Dict<string, (Paper, real)>

  /** Each entry is filed under its own paper's id. */
  predicate WellKeyed(t: Table) {
    forall i :: 0 <= i < |t| ==> PaperId(t[i].1.0) == t[i].0
  }

  /** The semantic pass: each hit sets `paper_scores[id]` to the paper and `score * w`. */
  function SemanticPass(semantic: seq<(Paper, real)>, w: real): Table {
    if semantic == [] then []
    else
      Set(SemanticPass(semantic[..|semantic| - 1], w), PaperId(semantic[|semantic| - 1].0),
          Weighted(semantic[|semantic| - 1], w))
  }

  /** A semantic hit's entry: the paper and its score times the semantic weight. */
  function Weighted(hit: (Paper, real), w: real): (Paper, real) {
    (hit.0, hit.1 * w)
  }

  /**
   * One keyword hit: adds to the score of its id's entry when the id is in the
   * table (`Get` finds it, see `GetSome`), or inserts a new entry.
   */
  function AddKeywordHit(t: Table, p: Paper, score: real): Table {
    if Get(t, PaperId(p)).Some? then Set(t, PaperId(p), AddScore(Get(t, PaperId(p)).value, score))
    else Set(t, PaperId(p), (p, score))
  }

  /** An entry with `score` added to its score, its paper unchanged. */
  function AddScore(e: (Paper, real), score: real): (Paper, real) {
    (e.0, e.1 + score)
  }

  /** The keyword pass over the first `m` of the keyword hits, with weight `kw`. */
  function KeywordPass(t: Table, keyword: seq<Paper>, m: nat, kw: real): Table
    requires m <= |keyword|
  {
    if m == 0 then t
    else AddKeywordHit(KeywordPass(t, keyword, m - 1, kw), keyword[m - 1], PseudoScore(m - 1, |keyword|) * kw)
  }

  /** `paper_scores` after both passes. */
  function FusedTable(semantic: seq<(Paper, real)>, keyword: seq<Paper>, w: real): Table {
    KeywordPass(SemanticPass(semantic, w), keyword, |keyword|, 1.0 - w)
  }

  /** What `hybrid_search` returns for the two signals' hits. */
  function Fuse(semantic: seq<(Paper, real)>, keyword: seq<Paper>, topK: nat, w: real): seq<(Paper, real)> {
    TopK(SortDesc(Values(FusedTable(semantic, keyword, w))), topK)
  }

  function SemanticIds(semantic: seq<(Paper, real)>): seq<string> {
    seq(|semantic|, i requires 0 <= i < |semantic| => PaperId(semantic[i].0))
  }

  function KeywordIds(keyword: seq<Paper>): seq<string> {
    seq(|keyword|, i requires 0 <= i < |keyword| => PaperId(keyword[i]))
  }

  // ---------------------------------------------------------------------------
  // Rank fusion: the order of the ids

  lemma {:induction false} SemanticPassKeys(semantic: seq<(Paper, real)>, w: real)
    ensures Keys(SemanticPass(semantic, w)) == Dedup(SemanticIds(semantic))
  {
    if semantic != [] {
      var n := |semantic|;
      SemanticPassKeys(semantic[..n - 1], w);
      SetKeys(SemanticPass(semantic[..n - 1], w), PaperId(semantic[n - 1].0), Weighted(semantic[n - 1], w));
      assert SemanticIds(semantic)[..n - 1] == SemanticIds(semantic[..n - 1]);
    }
  }

  lemma {:induction false} KeywordPassKeys(t: Table, keyword: seq<Paper>, m: nat, kw: real, ids: seq<string>)
    requires m <= |keyword| && Keys(t) == Dedup(ids)
    ensures Keys(KeywordPass(t, keyword, m, kw)) == Dedup(ids + KeywordIds(keyword)[..m])
  {
    if m > 0 {
      var s := ids + KeywordIds(keyword)[..m - 1];
      var id := PaperId(keyword[m - 1]);
      KeywordPassKeys(t, keyword, m - 1, kw, ids);
      assert Keys(KeywordPass(t, keyword, m - 1, kw)) == Dedup(s);
      KeywordPassStepKeys(t, keyword, m, kw);
      assert Keys(KeywordPass(t, keyword, m, kw)) == if id in Dedup(s) then Dedup(s) else Dedup(s) + [id];
      KeywordIdsSnoc(ids, keyword, m);
      DedupSnoc(s, id);
    } else {
      assert ids + KeywordIds(keyword)[..m] == ids;
    }
  }

  lemma KeywordIdsSnoc(ids: seq<string>, keyword: seq<Paper>, m: nat)
    requires 0 < m <= |keyword|
    ensures ids + KeywordIds(keyword)[..m] == (ids + KeywordIds(keyword)[..m - 1]) + [PaperId(keyword[m - 1])]
  {
    assert KeywordIds(keyword)[..m] == KeywordIds(keyword)[..m - 1] + [PaperId(keyword[m - 1])];
  }

  lemma KeywordPassStepKeys(t: Table, keyword: seq<Paper>, m: nat, kw: real)
    requires 0 < m <= |keyword|
    ensures Keys(KeywordPass(t, keyword, m, kw)) ==
      if PaperId(keyword[m - 1]) in Keys(KeywordPass(t, keyword, m - 1, kw)) then Keys(KeywordPass(t, keyword, m - 1, kw))
      else Keys(KeywordPass(t, keyword, m - 1, kw)) + [PaperId(keyword[m - 1])]
  {
    AddKeywordHitKeys(KeywordPass(t, keyword, m - 1, kw), keyword[m - 1], PseudoScore(m - 1, |keyword|) * kw);
  }

  lemma AddKeywordHitKeys(t: Table, p: Paper, score: real)
    ensures Keys(AddKeywordHit(t, p, score)) == if PaperId(p) in Keys(t) then Keys(t) else Keys(t) + [PaperId(p)]
  {
    GetSome(t, PaperId(p));
    if Get(t, PaperId(p)).Some? {
      SetKeys(t, PaperId(p), AddScore(Get(t, PaperId(p)).value, score));
    } else {
      SetKeys(t, PaperId(p), (p, score));
    }
  }

  /**
   * The fused ids, in `paper_scores`'s order: each id once, in the order of its
   * first appearance among the semantic hits followed by the keyword hits.
   */
  lemma FusedKeys(semantic: seq<(Paper, real)>, keyword: seq<Paper>, w: real)
    ensures Keys(FusedTable(semantic, keyword, w)) == Dedup(SemanticIds(semantic) + KeywordIds(keyword))
  {
    SemanticPassKeys(semantic, w);
    KeywordPassKeys(SemanticPass(semantic, w), keyword, |keyword|, 1.0 - w, SemanticIds(semantic));
    TakeAll(KeywordIds(keyword));
  }

  // ---------------------------------------------------------------------------
  // Rank fusion: every entry is filed under its paper's id

  lemma SetWellKeyed(t: Table, k: string, v: (Paper, real))
    requires WellKeyed(t) && PaperId(v.0) == k
    ensures WellKeyed(Set(t, k, v))
  {
  }

  lemma {:induction false} SemanticPassWellKeyed(semantic: seq<(Paper, real)>, w: real)
    ensures WellKeyed(SemanticPass(semantic, w))
  {
    if semantic != [] {
      SemanticPassWellKeyed(semantic[..|semantic| - 1], w);
      SetWellKeyed(SemanticPass(semantic[..|semantic| - 1], w), PaperId(semantic[|semantic| - 1].0),
                   Weighted(semantic[|semantic| - 1], w));
    }
  }

  lemma {:induction false} KeywordPassWellKeyed(t: Table, keyword: seq<Paper>, m: nat, kw: real)
    requires m <= |keyword| && WellKeyed(t)
    ensures WellKeyed(KeywordPass(t, keyword, m, kw))
  {
    if m > 0 {
      KeywordPassWellKeyed(t, keyword, m - 1, kw);
      var u := KeywordPass(t, keyword, m - 1, kw);
      var p := keyword[m - 1];
      if Get(u, PaperId(p)).Some? {
        GetSome(u, PaperId(p));
        GetFound(u, PaperId(p));
        SetWellKeyed(u, PaperId(p), AddScore(Get(u, PaperId(p)).value, PseudoScore(m - 1, |keyword|) * kw));
      } else {
        SetWellKeyed(u, PaperId(p), (p, PseudoScore(m - 1, |keyword|) * kw));
      }
    }
  }

  lemma FusedWellKeyed(semantic: seq<(Paper, real)>, keyword: seq<Paper>, w: real)
    ensures WellKeyed(FusedTable(semantic, keyword, w))
    ensures Distinct(Keys(FusedTable(semantic, keyword, w)))
  {
    SemanticPassWellKeyed(semantic, w);
    KeywordPassWellKeyed(SemanticPass(semantic, w), keyword, |keyword|, 1.0 - w);
    FusedKeys(semantic, keyword, w);
    DedupKeysDistinct(FusedTable(semantic, keyword, w), SemanticIds(semantic) + KeywordIds(keyword));
  }

  // ---------------------------------------------------------------------------
  // Rank fusion: the entry of each id

  /** The last semantic hit with id `id`: the one whose paper and score the semantic pass keeps. */
  function LastSemantic(semantic: seq<(Paper, real)>, id: string): Option<(Paper, real)> {
    if semantic == [] then None
    else if PaperId(semantic[|semantic| - 1].0) == id then Some(semantic[|semantic| - 1])
    else LastSemantic(semantic[..|semantic| - 1], id)
  }

  /** The weighted pseudo-scores of the first `m` keyword hits with id `id`, summed. */
  function KeywordTotal(keyword: seq<Paper>, m: nat, id: string, kw: real): real
    requires m <= |keyword|
  {
    if m == 0 then 0.0
    else
      KeywordTotal(keyword, m - 1, id, kw) +
      (if PaperId(keyword[m - 1]) == id then PseudoScore(m - 1, |keyword|) * kw else 0.0)
  }

  /** The first of the first `m` keyword hits with id `id`. */
  function FirstKeyword(keyword: seq<Paper>, m: nat, id: string): Option<Paper>
    requires m <= |keyword|
  {
    if m == 0 then None
    else if FirstKeyword(keyword, m - 1, id).Some? then FirstKeyword(keyword, m - 1, id)
    else if PaperId(keyword[m - 1]) == id then Some(keyword[m - 1])
    else None
  }

  lemma {:induction false} SemanticPassGet(semantic: seq<(Paper, real)>, w: real, id: string)
    ensures LastSemantic(semantic, id).None? ==> Get(SemanticPass(semantic, w), id) == None
    ensures LastSemantic(semantic, id).Some? ==>
      Get(SemanticPass(semantic, w), id) == Some(Weighted(LastSemantic(semantic, id).value, w))
  {
    if semantic != [] {
      SemanticPassGet(semantic[..|semantic| - 1], w, id);
      if PaperId(semantic[|semantic| - 1].0) != id {
        SetOther(SemanticPass(semantic[..|semantic| - 1], w), PaperId(semantic[|semantic| - 1].0),
                 Weighted(semantic[|semantic| - 1], w), id);
      } else {
        SetSame(SemanticPass(semantic[..|semantic| - 1], w), id, Weighted(semantic[|semantic| - 1], w));
      }
    }
  }

  lemma AddKeywordHitGet(t: Table, p: Paper, score: real, id: string)
    ensures PaperId(p) != id ==> Get(AddKeywordHit(t, p, score), id) == Get(t, id)
    ensures PaperId(p) == id && Get(t, id).Some? ==>
      Get(AddKeywordHit(t, p, score), id) == Some(AddScore(Get(t, id).value, score))
    ensures PaperId(p) == id && Get(t, id).None? ==> Get(AddKeywordHit(t, p, score), id) == Some((p, score))
  {
    if Get(t, PaperId(p)).Some? {
      if PaperId(p) != id {
        SetOther(t, PaperId(p), AddScore(Get(t, PaperId(p)).value, score), id);
      } else {
        SetSame(t, PaperId(p), AddScore(Get(t, PaperId(p)).value, score));
      }
    } else {
      if PaperId(p) != id {
        SetOther(t, PaperId(p), (p, score), id);
      } else {
        SetSame(t, PaperId(p), (p, score));
      }
    }
  }

  lemma {:induction false} NoKeywordHitNoTotal(keyword: seq<Paper>, m: nat, id: string, kw: real)
    requires m <= |keyword| && FirstKeyword(keyword, m, id).None?
    ensures KeywordTotal(keyword, m, id, kw) == 0.0
  {
    if m > 0 {
      NoKeywordHitNoTotal(keyword, m - 1, id, kw);
    }
  }

  lemma {:induction false} KeywordPassGetPresent(t: Table, keyword: seq<Paper>, m: nat, kw: real, id: string, e: (Paper, real))
    requires m <= |keyword| && Get(t, id) == Some(e)
    ensures Get(KeywordPass(t, keyword, m, kw), id) == Some((e.0, e.1 + KeywordTotal(keyword, m, id, kw)))
  {
    if m > 0 {
      KeywordPassGetPresent(t, keyword, m - 1, kw, id, e);
      AddKeywordHitGet(KeywordPass(t, keyword, m - 1, kw), keyword[m - 1], PseudoScore(m - 1, |keyword|) * kw, id);
    }
  }

  /** An id neither in the table nor among the keyword hits gets no entry. */
  lemma {:induction false} KeywordPassGetAbsent(t: Table, keyword: seq<Paper>, m: nat, kw: real, id: string)
    requires m <= |keyword| && Get(t, id).None? && FirstKeyword(keyword, m, id).None?
    ensures Get(KeywordPass(t, keyword, m, kw), id) == None
  {
    if m > 0 {
      KeywordPassGetAbsent(t, keyword, m - 1, kw, id);
      AddKeywordHitGet(KeywordPass(t, keyword, m - 1, kw), keyword[m - 1], PseudoScore(m - 1, |keyword|) * kw, id);
    }
  }

  /** An id first brought by a keyword hit keeps that hit's paper and its weighted keyword pseudo-scores. */
  lemma {:induction false} KeywordPassGetFirst(t: Table, keyword: seq<Paper>, m: nat, kw: real, id: string)
    requires m <= |keyword| && Get(t, id).None? && FirstKeyword(keyword, m, id).Some?
    ensures Get(KeywordPass(t, keyword, m, kw), id) == Some((FirstKeyword(keyword, m, id).value, KeywordTotal(keyword, m, id, kw)))
  {
    AddKeywordHitGet(KeywordPass(t, keyword, m - 1, kw), keyword[m - 1], PseudoScore(m - 1, |keyword|) * kw, id);
    if FirstKeyword(keyword, m - 1, id).Some? {
      KeywordPassGetFirst(t, keyword, m - 1, kw, id);
    } else {
      KeywordPassGetAbsent(t, keyword, m - 1, kw, id);
      NoKeywordHitNoTotal(keyword, m - 1, id, kw);
    }
  }

  /** An id with a semantic hit: the paper of its last semantic hit, that hit's weighted score plus all its weighted keyword pseudo-scores. */
  lemma FusedEntrySemantic(semantic: seq<(Paper, real)>, keyword: seq<Paper>, w: real, id: string)
    requires LastSemantic(semantic, id).Some?
    ensures Get(FusedTable(semantic, keyword, w), id) ==
      Some((LastSemantic(semantic, id).value.0,
            LastSemantic(semantic, id).value.1 * w + KeywordTotal(keyword, |keyword|, id, 1.0 - w)))
  {
    SemanticPassGet(semantic, w, id);
    KeywordPassGetPresent(SemanticPass(semantic, w), keyword, |keyword|, 1.0 - w, id, Weighted(LastSemantic(semantic, id).value, w));
  }

  /** An id only the keyword search returned: the paper of its first keyword hit and its weighted keyword pseudo-scores. */
  lemma FusedEntryKeyword(semantic: seq<(Paper, real)>, keyword: seq<Paper>, w: real, id: string)
    requires LastSemantic(semantic, id).None? && FirstKeyword(keyword, |keyword|, id).Some?
    ensures Get(FusedTable(semantic, keyword, w), id) ==
      Some((FirstKeyword(keyword, |keyword|, id).value, KeywordTotal(keyword, |keyword|, id, 1.0 - w)))
  {
    SemanticPassGet(semantic, w, id);
    KeywordPassGetFirst(SemanticPass(semantic, w), keyword, |keyword|, 1.0 - w, id);
  }

  /** An id neither signal returned has no entry. */
  lemma FusedEntryNone(semantic: seq<(Paper, real)>, keyword: seq<Paper>, w: real, id: string)
    requires LastSemantic(semantic, id).None? && FirstKeyword(keyword, |keyword|, id).None?
    ensures Get(FusedTable(semantic, keyword, w), id) == None
  {
    SemanticPassGet(semantic, w, id);
    KeywordPassGetAbsent(SemanticPass(semantic, w), keyword, |keyword|, 1.0 - w, id);
  }

  // ---------------------------------------------------------------------------
  // Rank fusion: the three score formulas, for signals without repeated ids

  lemma {:induction false} LastSemanticOf(semantic: seq<(Paper, real)>, j: nat)
    requires Distinct(SemanticIds(semantic)) && j < |semantic|
    ensures LastSemantic(semantic, PaperId(semantic[j].0)) == Some(semantic[j])
  {
    var n := |semantic|;
    if j < n - 1 {
      assert SemanticIds(semantic)[j] != SemanticIds(semantic)[n - 1];
      assert SemanticIds(semantic[..n - 1]) == SemanticIds(semantic)[..n - 1];
      LastSemanticOf(semantic[..n - 1], j);
    }
  }

  lemma {:induction false} LastSemanticNone(semantic: seq<(Paper, real)>, id: string)
    requires forall j :: 0 <= j < |semantic| ==> PaperId(semantic[j].0) != id
    ensures LastSemantic(semantic, id).None?
  {
    if semantic != [] {
      LastSemanticNone(semantic[..|semantic| - 1], id);
    }
  }

  lemma {:induction false} FirstKeywordNone(keyword: seq<Paper>, m: nat, id: string)
    requires m <= |keyword|
    requires forall i :: 0 <= i < m ==> PaperId(keyword[i]) != id
    ensures FirstKeyword(keyword, m, id).None?
  {
    if m > 0 {
      FirstKeywordNone(keyword, m - 1, id);
    }
  }

  lemma {:induction false} KeywordTotalOf(keyword: seq<Paper>, m: nat, i: nat, kw: real)
    requires Distinct(KeywordIds(keyword)) && i < m <= |keyword|
    ensures FirstKeyword(keyword, m, PaperId(keyword[i])) == Some(keyword[i])
    ensures KeywordTotal(keyword, m, PaperId(keyword[i]), kw) == PseudoScore(i, |keyword|) * kw
  {
    var id := PaperId(keyword[i]);
    if m - 1 == i {
      forall u | 0 <= u < i ensures PaperId(keyword[u]) != id {
        assert KeywordIds(keyword)[u] != KeywordIds(keyword)[i];
      }
      FirstKeywordNone(keyword, i, id);
      NoKeywordHitNoTotal(keyword, i, id, kw);
    } else {
      assert KeywordIds(keyword)[i] != KeywordIds(keyword)[m - 1];
      KeywordTotalOf(keyword, m - 1, i, kw);
    }
  }

  /**
   * An id both signals returned: the semantic hit's paper, scored
   * `score * w + keyword_score * (1 - w)`.
   */
  lemma FusedScoreBoth(semantic: seq<(Paper, real)>, keyword: seq<Paper>, w: real, j: nat, i: nat)
    requires Distinct(SemanticIds(semantic)) && Distinct(KeywordIds(keyword))
    requires j < |semantic| && i < |keyword| && PaperId(semantic[j].0) == PaperId(keyword[i])
    ensures Get(FusedTable(semantic, keyword, w), PaperId(keyword[i])) ==
      Some((semantic[j].0, semantic[j].1 * w + PseudoScore(i, |keyword|) * (1.0 - w)))
  {
    var id := PaperId(keyword[i]);
    LastSemanticOf(semantic, j);
    FusedEntrySemantic(semantic, keyword, w, id);
    KeywordTotalOf(keyword, |keyword|, i, 1.0 - w);
    assert Get(FusedTable(semantic, keyword, w), id).value.1 == semantic[j].1 * w + PseudoScore(i, |keyword|) * (1.0 - w);
  }

  /** An id only the semantic search returned: its paper, scored `score * w`. */
  lemma FusedScoreSemanticOnly(semantic: seq<(Paper, real)>, keyword: seq<Paper>, w: real, j: nat)
    requires Distinct(SemanticIds(semantic)) && j < |semantic|
    requires PaperId(semantic[j].0) !in KeywordIds(keyword)
    ensures Get(FusedTable(semantic, keyword, w), PaperId(semantic[j].0)) == Some((semantic[j].0, semantic[j].1 * w))
  {
    var id := PaperId(semantic[j].0);
    LastSemanticOf(semantic, j);
    forall u | 0 <= u < |keyword| ensures PaperId(keyword[u]) != id {
      assert KeywordIds(keyword)[u] == PaperId(keyword[u]);
    }
    FirstKeywordNone(keyword, |keyword|, id);
    NoKeywordHitNoTotal(keyword, |keyword|, id, 1.0 - w);
    FusedEntrySemantic(semantic, keyword, w, id);
    assert Get(FusedTable(semantic, keyword, w), id).value.1 == semantic[j].1 * w;
  }

  /** An id only the keyword search returned, at position `i`: its paper, scored `keyword_score * (1 - w)`. */
  lemma FusedScoreKeywordOnly(semantic: seq<(Paper, real)>, keyword: seq<Paper>, w: real, i: nat)
    requires Distinct(KeywordIds(keyword)) && i < |keyword|
    requires PaperId(keyword[i]) !in SemanticIds(semantic)
    ensures Get(FusedTable(semantic, keyword, w), PaperId(keyword[i])) ==
      Some((keyword[i], PseudoScore(i, |keyword|) * (1.0 - w)))
  {
    var id := PaperId(keyword[i]);
    forall u | 0 <= u < |semantic| ensures PaperId(semantic[u].0) != id {
      assert SemanticIds(semantic)[u] == PaperId(semantic[u].0);
    }
    LastSemanticNone(semantic, id);
    KeywordTotalOf(keyword, |keyword|, i, 1.0 - w);
    FusedEntryKeyword(semantic, keyword, w, id);
    assert Get(FusedTable(semantic, keyword, w), id).value.1 == PseudoScore(i, |keyword|) * (1.0 - w);
  }

  // ---------------------------------------------------------------------------
  // Rank fusion: the ranked output

  /** A table whose entries are filed under their own ids, each id once, holds each paper id once. */
  lemma ValuesDistinctBy(t: Table)
    requires WellKeyed(t) && Distinct(Keys(t))
    ensures DistinctBy(Values(t), PaperId)
  {
    forall i, j | 0 <= i < j < |t| ensures PaperId(Values(t)[i].0) != PaperId(Values(t)[j].0) {
      assert Keys(t)[i] == t[i].0 && Keys(t)[j] == t[j].0;
    }
  }

  /** Every entry of a cut of the ranked table is the table's entry for its paper's id. */
  lemma RankedEntries(t: Table, sorted: seq<(Paper, real)>, results: seq<(Paper, real)>)
    requires WellKeyed(t) && Distinct(Keys(t))
    requires multiset(sorted) == multiset(Values(t)) && |results| <= |sorted| && results == sorted[..|results|]
    ensures forall i :: 0 <= i < |results| ==> Get(t, PaperId(results[i].0)) == Some(results[i])
  {
    forall i | 0 <= i < |results| ensures Get(t, PaperId(results[i].0)) == Some(results[i]) {
      assert results[i] in multiset(Values(t)) by {
        assert results[i] == sorted[i];
      }
      var k :| 0 <= k < |Values(t)| && Values(t)[k] == results[i];
      GetEntry(t, k);
    }
  }

  /** The entry of an id the cut leaves out scores no higher than anything kept. */
  lemma RankedOmitted(t: Table, sorted: seq<(Paper, real)>, results: seq<(Paper, real)>, id: string)
    requires WellKeyed(t) && NonIncreasing(sorted) && multiset(sorted) == multiset(Values(t))
    requires |results| <= |sorted| && results == sorted[..|results|]
    requires id in Keys(t) && forall i :: 0 <= i < |results| ==> PaperId(results[i].0) != id
    ensures Get(t, id).Some? && forall i :: 0 <= i < |results| ==> Get(t, id).value.1 <= results[i].1
  {
    GetFound(t, id);
    var k :| 0 <= k < |t| && t[k] == (id, Get(t, id).value);
    assert Values(t)[k] == Get(t, id).value;
    forall i | 0 <= i < |results| ensures results[i] != Get(t, id).value {
      assert PaperId(t[k].1.0) == id;
    }
    OmittedScoresNoHigher(Values(t), sorted, |results|, Get(t, id).value);
  }

  /**
   * The shape of what `hybrid_search` returns: `min(top_k, number of distinct
   * ids)` entries, best first, no paper id twice.
   */
  lemma FuseRanked(semantic: seq<(Paper, real)>, keyword: seq<Paper>, topK: nat, w: real)
    ensures |Fuse(semantic, keyword, topK, w)| == Min(topK, |Dedup(SemanticIds(semantic) + KeywordIds(keyword))|)
    ensures NonIncreasing(Fuse(semantic, keyword, topK, w))
    ensures DistinctBy(Fuse(semantic, keyword, topK, w), PaperId)
  {
    var t := FusedTable(semantic, keyword, w);
    FusedKeys(semantic, keyword, w);
    FusedWellKeyed(semantic, keyword, w);
    assert |Values(t)| == |Keys(t)|;
    ValuesDistinctBy(t);
    SortDescDistinctBy(Values(t), PaperId);
    TopKOfRanked(SortDesc(Values(t)), topK);
  }

  /** Each entry `hybrid_search` returns is the fused entry of its paper id. */
  lemma FuseEntries(semantic: seq<(Paper, real)>, keyword: seq<Paper>, topK: nat, w: real)
    ensures forall i :: 0 <= i < |Fuse(semantic, keyword, topK, w)| ==>
      Get(FusedTable(semantic, keyword, w), PaperId(Fuse(semantic, keyword, topK, w)[i].0)) ==
        Some(Fuse(semantic, keyword, topK, w)[i])
  {
    var t := FusedTable(semantic, keyword, w);
    FusedWellKeyed(semantic, keyword, w);
    RankedEntries(t, SortDesc(Values(t)), Fuse(semantic, keyword, topK, w));
  }

  /**
   * Ties keep `paper_scores`' order (semantic ids first, then new keyword
   * ids, see `FusedKeys`): the kept entries of any one score are the first
   * entries of that score in the table.
   */
  lemma FuseStable(semantic: seq<(Paper, real)>, keyword: seq<Paper>, topK: nat, w: real, v: real)
    ensures WithScore(Fuse(semantic, keyword, topK, w), v) <= WithScore(Values(FusedTable(semantic, keyword, w)), v)
  {
    RankedTopKStable(Values(FusedTable(semantic, keyword, w)), topK, v);
  }

  /** An id either signal returned that the cut leaves out scores no higher than anything kept. */
  lemma FuseOmitted(semantic: seq<(Paper, real)>, keyword: seq<Paper>, topK: nat, w: real, id: string)
    requires id in SemanticIds(semantic) + KeywordIds(keyword)
    requires forall i :: 0 <= i < |Fuse(semantic, keyword, topK, w)| ==> PaperId(Fuse(semantic, keyword, topK, w)[i].0) != id
    ensures Get(FusedTable(semantic, keyword, w), id).Some?
    ensures forall i :: 0 <= i < |Fuse(semantic, keyword, topK, w)| ==>
      Get(FusedTable(semantic, keyword, w), id).value.1 <= Fuse(semantic, keyword, topK, w)[i].1
  {
    var t := FusedTable(semantic, keyword, w);
    FusedKeys(semantic, keyword, w);
    FusedWellKeyed(semantic, keyword, w);
    DedupMembers(SemanticIds(semantic) + KeywordIds(keyword));
    RankedOmitted(t, SortDesc(Values(t)), Fuse(semantic, keyword, topK, w), id);
  }

  lemma SemanticPassSnoc(semantic: seq<(Paper, real)>, i: nat, w: real)
    requires i < |semantic|
    ensures SemanticPass(semantic[..i + 1], w) == Set(SemanticPass(semantic[..i], w), PaperId(semantic[i].0), Weighted(semantic[i], w))
  {
    var prefix := semantic[..i + 1];
    assert prefix[..|prefix| - 1] == semantic[..i];
    assert prefix[|prefix| - 1] == semantic[i];
  }

  lemma KeywordPassStep(t: Table, keyword: seq<Paper>, i: nat, kw: real, score: real)
    requires i < |keyword| && score == PseudoScore(i, |keyword|) * kw
    ensures KeywordPass(t, keyword, i + 1, kw) == AddKeywordHit(KeywordPass(t, keyword, i, kw), keyword[i], score)
  {
    var m := i + 1;
    assert KeywordPass(t, keyword, m - 1, kw) == KeywordPass(t, keyword, i, kw);
    assert PseudoScore(m - 1, |keyword|) * kw == score;
  }

  /**
   * The fusion in `hybrid_search`: the semantic pass, the keyword pass with
   * its pseudo-scores, the stable descending sort of the entries and the cut.
   */
  method FuseHits(semantic: seq<(Paper, real)>, keyword: seq<Paper>, topK: nat, semanticWeight: real)
    returns (results: seq<(Paper, real)>)
    ensures results == Fuse(semantic, keyword, topK, semanticWeight)
    ensures |results| == Min(topK, |Dedup(SemanticIds(semantic) + KeywordIds(keyword))|)
    ensures NonIncreasing(results) && DistinctBy(results, PaperId)
  {
    var paperScores: Table := [];
    for i := 0 to |semantic|
      invariant paperScores == SemanticPass(semantic[..i], semanticWeight)
    {
      SemanticPassSnoc(semantic, i, semanticWeight);
      var paperId := PaperId(semantic[i].0);
      paperScores := Set(paperScores, paperId, Weighted(semantic[i], semanticWeight));
    }
    assert semantic[..|semantic|] == semantic;
    ghost var base := paperScores;
    var keywordWeight := 1.0 - semanticWeight;
    for i := 0 to |keyword|
      invariant paperScores == KeywordPass(base, keyword, i, keywordWeight)
    {
      var paperId := PaperId(keyword[i]);
      var keywordScore := PseudoScore(i, |keyword|);
      var delta := keywordScore * keywordWeight;
      KeywordPassStep(base, keyword, i, keywordWeight, delta);
      var entry := Get(paperScores, paperId);
      if entry.Some? {
        paperScores := Set(paperScores, paperId, AddScore(entry.value, delta));
      } else {
        paperScores := Set(paperScores, paperId, (keyword[i], delta));
      }
    }
    assert paperScores == FusedTable(semantic, keyword, semanticWeight);
    var sortedResults := SortDesc(Values(paperScores));
    results := sortedResults[..Min(topK, |sortedResults|)];
    FuseRanked(semantic, keyword, topK, semanticWeight);
  }

  // ---------------------------------------------------------------------------
  // Semantic search

  /** The similarity of each paper's embedding to the query, in paper order. */
  function Similarities(embeddings: seq<Embedding>, query: Embedding, cosine: (Embedding, Embedding) -> real): seq<real> {
    seq(|embeddings|, i requires 0 <= i < |embeddings| => cosine(embeddings[i], query))
  }

  /**
   * What `np.argsort(similarities)[::-1][:top_k]` may return: `min(top_k, n)`
   * distinct positions, by non-increasing similarity, no position left out
   * scoring higher than one taken. The order among equal similarities is not
   * fixed, since `argsort` is not a stable sort.
   */
  predicate TopIndices(sims: seq<real>, k: nat, indices: seq<nat>) {
    && |indices| == Min(k, |sims|)
    && (forall a :: 0 <= a < |indices| ==> indices[a] < |sims|)
    && (forall a, b :: 0 <= a < b < |indices| ==> indices[a] != indices[b])
    && (forall a, b :: 0 <= a < b < |indices| ==> sims[indices[a]] >= sims[indices[b]])
    && (forall a, j :: 0 <= a < |indices| && 0 <= j < |sims| && j !in indices ==> sims[j] <= sims[indices[a]])
  }

  /** `semantic_search`'s result for the positions `indices`: each position's paper with its similarity. */
  predicate IsTopRanking(papers: seq<Paper>, sims: seq<real>, k: nat, results: seq<(Paper, real)>, indices: seq<nat>) {
    && TopIndices(sims, k, indices)
    && |results| == |indices|
    && forall a :: 0 <= a < |indices| ==> indices[a] < |papers| && results[a] == (papers[indices[a]], sims[indices[a]])
  }

  /** Each similarity paired with its position. */
  function Indexed(sims: seq<real>): seq<(nat, real)> {
    seq(|sims|, i requires 0 <= i < |sims| => (i, sims[i]))
  }

  function Positions(ranked: seq<(nat, real)>): seq<nat> {
    seq(|ranked|, a requires 0 <= a < |ranked| => ranked[a].0)
  }

  /** Every entry of a ranking of the indexed similarities is a position and its own similarity. */
  lemma RankedPairs(sims: seq<real>, ranked: seq<(nat, real)>)
    requires multiset(ranked) == multiset(Indexed(sims))
    ensures forall a :: 0 <= a < |ranked| ==> ranked[a].0 < |sims| && ranked[a].1 == sims[ranked[a].0]
  {
    forall a | 0 <= a < |ranked| ensures ranked[a].0 < |sims| && ranked[a].1 == sims[ranked[a].0] {
      assert ranked[a] in multiset(Indexed(sims));
      var j :| 0 <= j < |sims| && Indexed(sims)[j] == ranked[a];
    }
  }

  /**
   * `np.argsort(similarities)[::-1][:top_k]` with ties in position order: one
   * of the orders `argsort` may give (see `RankedIndices`).
   */
  function ArgsortTop(sims: seq<real>, k: nat): seq<nat> {
    Positions(TopK(SortDesc(Indexed(sims)), k))
  }

  /** The cut ranking holds `min(k, n)` positions, each a position of `sims`. */
  lemma RankedPositions(sims: seq<real>, k: nat)
    ensures |ArgsortTop(sims, k)| == Min(k, |sims|)
    ensures forall a :: 0 <= a < |ArgsortTop(sims, k)| ==> ArgsortTop(sims, k)[a] < |sims|
  {
    RankedPairs(sims, SortDesc(Indexed(sims)));
  }

  /**
   * The stable descending ranking of the positions, cut to `k`, is one of the
   * results `argsort` may give.
   */
  lemma RankedIndices(sims: seq<real>, k: nat)
    ensures TopIndices(sims, k, ArgsortTop(sims, k))
  {
    var ranked := SortDesc(Indexed(sims));
    var top := TopK(ranked, k);
    var indices := Positions(top);
    TopKOfRanked(ranked, k);
    RankedPairs(sims, ranked);
    var position := (i: nat) => i;
    assert DistinctBy(Indexed(sims), position);
    SortDescDistinctBy(Indexed(sims), position);
    forall a, j | 0 <= a < |indices| && 0 <= j < |sims| && j !in indices
      ensures sims[j] <= sims[indices[a]]
    {
      assert Indexed(sims)[j] == (j, sims[j]);
      forall b | 0 <= b < |top| ensures top[b] != (j, sims[j]) {
        assert indices[b] == top[b].0;
      }
      OmittedScoresNoHigher(Indexed(sims), ranked, |top|, (j, sims[j]));
    }
  }

  /**
   * With one similarity per paper, or no papers at all, some position the
   * ranking picks lies past the papers exactly when the papers are empty
   * while there are similarities and `k > 0`.
   */
  lemma PositionsPastPapers(papers: seq<Paper>, sims: seq<real>, k: nat)
    requires papers == [] || |papers| == |sims|
    ensures (forall a :: 0 <= a < |ArgsortTop(sims, k)| ==> ArgsortTop(sims, k)[a] < |papers|) <==>
      !(papers == [] && |sims| > 0 && k > 0)
  {
    RankedPositions(sims, k);
    if papers == [] && |sims| > 0 && k > 0 {
      assert ArgsortTop(sims, k)[0] >= |papers|;
    }
  }

  /** The papers at the ranked positions, each with its similarity, are a top ranking. */
  lemma ArgsortTopRanking(papers: seq<Paper>, sims: seq<real>, k: nat, results: seq<(Paper, real)>)
    requires papers == [] || |papers| == |sims|
    requires |results| == |ArgsortTop(sims, k)|
    requires forall b :: 0 <= b < |results| ==>
      ArgsortTop(sims, k)[b] < |papers| && results[b] == (papers[ArgsortTop(sims, k)[b]], sims[ArgsortTop(sims, k)[b]])
    ensures IsTopRanking(papers, sims, k, results, ArgsortTop(sims, k))
  {
    RankedIndices(sims, k);
  }

  /** `semantic_search` on an index whose papers were emptied after an earlier build raises `IndexError`. */
  datatype SearchError = IndexError

  class HybridSearchEngine {
    /** `self.papers`: the papers of the last `build_index`, `None` before the first. */
    var papers: Option<seq<Paper>>
    /** `self.paper_embeddings`: one embedding per paper of the last non-empty build. */
    var paperEmbeddings: Option<seq<Embedding>>

    /**
     * Embeddings exist only after a build, and match the papers one for one
     * unless a later build found no papers and left them behind.
     */
    predicate Valid()
      reads this
    {
      paperEmbeddings.Some? ==> papers.Some? && (papers.value == [] || |paperEmbeddings.value| == |papers.value|)
    }

    /** `__init__`: no index yet. The database and the model are parameters of the operations. */
    constructor ()
      ensures Valid() && papers.None? && paperEmbeddings.None?
    {
      papers := None;
      paperEmbeddings := None;
    }

    /**
     * `build_index`: keeps the database's papers; when there are any, embeds
     * one text per paper, in paper order; when there are none, leaves the
     * embeddings as they were.
     */
    method BuildIndex(allPapers: seq<Paper>, encode: string -> Embedding)
      modifies this
      ensures Valid()
      ensures papers == Some(allPapers)
      ensures allPapers == [] ==> paperEmbeddings == old(paperEmbeddings)
      ensures allPapers != [] ==> paperEmbeddings.Some? && |paperEmbeddings.value| == |allPapers|
      ensures allPapers != [] ==>
        forall i :: 0 <= i < |allPapers| ==> paperEmbeddings.value[i] == encode(IndexText(allPapers[i]))
    {
      papers := Some(allPapers);
      if allPapers == [] {
        return;
      }
      var paperTexts: seq<string> := [];
      for i := 0 to |allPapers|
        invariant |paperTexts| == i
        invariant forall j :: 0 <= j < i ==> paperTexts[j] == IndexText(allPapers[j])
      {
        paperTexts := paperTexts + [IndexText(allPapers[i])];
      }
      paperEmbeddings := Some(seq(|paperTexts|, j requires 0 <= j < |paperTexts| => encode(paperTexts[j])));
    }

    /** The state in which `semantic_search` raises: emptied papers, stale embeddings, and something to look up. */
    predicate StaleIndex(topK: nat)
      reads this
    {
      papers == Some([]) && paperEmbeddings.Some? && |paperEmbeddings.value| > 0 && topK > 0
    }

    /**
     * `semantic_search`: nothing before the index is built; `IndexError`
     * exactly on a stale index; otherwise the papers at the `top_k` best
     * positions (`indices`), each with its similarity, best first.
     */
    method SemanticSearch(query: string, topK: nat, encode: string -> Embedding,
                          cosine: (Embedding, Embedding) -> real)
      returns (r: Result<seq<(Paper, real)>, SearchError>, ghost indices: seq<nat>)
      requires Valid()
      ensures papers.None? || paperEmbeddings.None? ==> r == Ok([])
      ensures r.Err? <==> StaleIndex(topK)
      ensures r.Ok? && papers.Some? && paperEmbeddings.Some? ==>
        IsTopRanking(papers.value, Similarities(paperEmbeddings.value, encode(query), cosine), topK, r.value, indices)
    {
      if paperEmbeddings.None? || papers.None? {
        return Ok([]), [];
      }
      var allPapers := papers.value;
      var queryEmbedding := encode(query);
      var similarities := Similarities(paperEmbeddings.value, queryEmbedding, cosine);
      var topIndices := ArgsortTop(similarities, topK);
      indices := topIndices;
      var results: seq<(Paper, real)> := [];
      for a := 0 to |topIndices|
        invariant |results| == a
        invariant forall b :: 0 <= b < a ==>
          topIndices[b] < |allPapers| && results[b] == (allPapers[topIndices[b]], similarities[topIndices[b]])
      {
        var idx := topIndices[a];
        if idx >= |allPapers| {
          PositionsPastPapers(allPapers, similarities, topK);
          return Err(IndexError), indices;
        }
        RankedPositions(similarities, topK);
        results := results + [(allPapers[idx], similarities[idx])];
      }
      PositionsPastPapers(allPapers, similarities, topK);
      ArgsortTopRanking(allPapers, similarities, topK, results);
      return Ok(results), indices;
    }

    /**
     * `hybrid_search`: asks each signal for `top_k * 2` candidates and fuses
     * them; `semantic` and `indices` are the semantic search's answer.
     */
    method HybridSearch(query: string, topK: nat, semanticWeight: real, encode: string -> Embedding,
                        cosine: (Embedding, Embedding) -> real, keywordSearch: (string, nat) -> seq<Paper>)
      returns (r: Result<seq<(Paper, real)>, SearchError>, ghost semantic: seq<(Paper, real)>, ghost indices: seq<nat>)
      requires Valid()
      ensures r.Err? <==> StaleIndex(topK * 2)
      ensures r.Ok? ==> r.value == Fuse(semantic, keywordSearch(query, topK * 2), topK, semanticWeight)
      ensures r.Ok? && (papers.None? || paperEmbeddings.None?) ==> semantic == []
      ensures r.Ok? && papers.Some? && paperEmbeddings.Some? ==>
        IsTopRanking(papers.value, Similarities(paperEmbeddings.value, encode(query), cosine), topK * 2, semantic, indices)
    {
      var semanticResults;
      semanticResults, indices := SemanticSearch(query, topK * 2, encode, cosine);
      if semanticResults.Err? {
        return Err(semanticResults.error), [], indices;
      }
      var hits := semanticResults.value;
      semantic := hits;
      var keywordResults := keywordSearch(query, topK * 2);
      var fused := FuseHits(hits, keywordResults, topK, semanticWeight);
      r := Ok(fused);
    }
  }
}
