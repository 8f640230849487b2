/** The request-time core of the IPC search engine: the row serialiser, the
    text the vectoriser indexes, the search with its numeric fast path and
    relevance floor, the lookup by section id and the autocomplete. The
    corpus is the loaded dataset, a read-only sequence of rows. */
module Utils {
  import opened Strings
  import opened Select
  import opened Ranking

  /** One row of the dataset after `fillna("")` and the defaulting of
      missing columns: every field is a string, possibly empty.
      `sectionId` holds the row's id in its `str(section_id)` form. */
  datatype Section = Section(
    sectionId: string,
    sectionTitle: string,
    chapterTitle: string,
    lawText: string,
    mainText: string,
    proviso: string,
    explanation: string,
    illustration: string,
    exception: string,
    punishmentText: string,
    keywords: string)

  /** A serialised row: a dictionary from key to text. */
  type Row = map<string, string>

  /** The keys `_row` emits. */
  const RowKeys: set<string> := {
    "section", "title", "chapter", "law_text", "main_text", "proviso",
    "explanation", "illustration", "exception", "punishment", "keywords"}

  /** The relevance floor of the ranked path. */
  const MinScore: real := 0.02

  /** `_row`: the dictionary a caller receives for one row. It has exactly
      the keys in `RowKeys`, and the punishment column appears under
      "punishment", never under "punishment_text". */
  function RowOf(s: Section): (r: Row)
    ensures r.Keys == RowKeys
    ensures "punishment_text" !in r
  {
    var r := map[
      "section" := s.sectionId,
      "title" := s.sectionTitle,
      "chapter" := s.chapterTitle,
      "law_text" := s.lawText,
      "main_text" := s.mainText,
      "proviso" := s.proviso,
      "explanation" := s.explanation,
      "illustration" := s.illustration,
      "exception" := s.exception,
      "punishment" := s.punishmentText,
      "keywords" := s.keywords];
    assert r.Keys == RowKeys;
    assert "punishment_text" !in RowKeys;
    r
  }

  /** Reads a serialised row back into the dataset row it came from. */
  function SectionOf(r: Row): Section
    requires RowKeys <= r.Keys
  {
    Section(
      r["section"], r["title"], r["chapter"], r["law_text"], r["main_text"],
      r["proviso"], r["explanation"], r["illustration"], r["exception"],
      r["punishment"], r["keywords"])
  }

  /** No field is lost by `_row`: `SectionOf` reads the row back. */
  lemma RowOfReadsBack(s: Section)
    ensures SectionOf(RowOf(s)) == s
  {
    var r := RowOf(s);
    assert r["section"] == s.sectionId && r["title"] == s.sectionTitle;
    assert r["chapter"] == s.chapterTitle && r["law_text"] == s.lawText;
    assert r["main_text"] == s.mainText && r["proviso"] == s.proviso;
    assert r["explanation"] == s.explanation && r["illustration"] == s.illustration;
    assert r["exception"] == s.exception && r["punishment"] == s.punishmentText;
  }

  /** Two different rows never serialise to the same dictionary. */
  lemma RowOfInjective(s: Section, s': Section)
    requires RowOf(s) == RowOf(s')
    ensures s == s'
  {
    RowOfReadsBack(s);
    RowOfReadsBack(s');
  }

  /** The `search_text` column: title, law text and keywords joined by
      single spaces. Its length is theirs plus the two separators. */
  function SearchText(s: Section): (t: string)
    ensures |t| == |s.sectionTitle| + |s.lawText| + |s.keywords| + 2
    ensures t[|s.sectionTitle|] == ' ' && t[|s.sectionTitle| + |s.lawText| + 1] == ' '
  {
    s.sectionTitle + " " + s.lawText + " " + s.keywords
  }

  /** Every piece of text in the title, the law text or the keywords is
      also in the search text, at a known offset: these three columns are
      what the vectoriser sees of a row. */
  lemma SearchTextCovers(s: Section, q: string, i: int)
    ensures OccursAt(s.sectionTitle, q, i) ==> OccursAt(SearchText(s), q, i)
    ensures OccursAt(s.lawText, q, i) ==> OccursAt(SearchText(s), q, |s.sectionTitle| + 1 + i)
    ensures OccursAt(s.keywords, q, i) ==>
      OccursAt(SearchText(s), q, |s.sectionTitle| + |s.lawText| + 2 + i)
  {
    SearchTextPieces(s);
    CoveredAt(s.sectionTitle, SearchText(s), 0, q, i);
    CoveredAt(s.lawText, SearchText(s), |s.sectionTitle| + 1, q, i);
    CoveredAt(s.keywords, SearchText(s), |s.sectionTitle| + |s.lawText| + 2, q, i);
  }

  /** When `piece` sits in `t` starting at `offset`, an occurrence of `q`
      at `i` in the piece is an occurrence at `offset + i` in `t`. */
  lemma CoveredAt(piece: string, t: string, offset: nat, q: string, i: int)
    requires offset + |piece| <= |t| && t[offset..offset + |piece|] == piece
    ensures OccursAt(piece, q, i) ==> OccursAt(t, q, offset + i)
  {
    if OccursAt(piece, q, i) {
      forall k | 0 <= k < |q| ensures t[offset + i + k] == q[k] {
        assert t[offset + i + k] == piece[i + k];
        assert piece[i..i + |q|][k] == piece[i + k];
      }
      assert t[offset + i..offset + i + |q|] == q;
    }
  }

  /** Where each column sits in the search text. */
  lemma SearchTextPieces(s: Section)
    ensures var t, a, b := SearchText(s), |s.sectionTitle|, |s.lawText|;
      && t[0..a] == s.sectionTitle
      && t[a + 1..a + 1 + b] == s.lawText
      && t[a + b + 2..a + b + 2 + |s.keywords|] == s.keywords
  {
    var t, a, b := SearchText(s), |s.sectionTitle|, |s.lawText|;
    assert t == s.sectionTitle + " " + s.lawText + " " + s.keywords;
    assert t[0..a] == s.sectionTitle;
    assert t[a + 1..a + 1 + b] == s.lawText;
  }

  /** What `search_ipc` hands back: a list of rows, or the `IndexError`
      that `ranked[0]` raises when the slice `[:top_k]` keeps nothing. */
  datatype SearchResult = Hits(rows: seq<Row>) | IndexError

  /** The serialised rows at the given corpus indices, in that order. */
  function RowsAt(corpus: seq<Section>, idx: seq<nat>): (rows: seq<Row>)
    requires forall t :: 0 <= t < |idx| ==> idx[t] < |corpus|
    ensures |rows| == |idx|
    ensures forall t :: 0 <= t < |idx| ==> rows[t] == RowOf(corpus[idx[t]])
  {
    seq(|idx|, t requires 0 <= t < |idx| => RowOf(corpus[idx[t]]))
  }

  /** The ranked path of `search_ipc`, given one similarity score per row
      and the order `scores.argsort()` returned. It raises exactly when
      `[:top_k]` keeps no row; it returns nothing exactly when every score
      is below the floor; otherwise it returns the `TopK` rows, best first,
      and never more than `top_k` of them. */
  function RankedSearch(corpus: seq<Section>, scores: seq<real>, order: seq<nat>, topK: int)
    : (r: SearchResult)
    requires |scores| == |corpus| && IsArgsort(scores, order)
    ensures r.IndexError? <==> Bound(|corpus|, topK) == 0
    ensures r.Hits? ==> (r.rows == [] <==> forall j :: 0 <= j < |corpus| ==> scores[j] < MinScore)
    ensures r.Hits? && r.rows != [] ==> r.rows == RowsAt(corpus, TopK(scores, order, topK))
    ensures r.Hits? && r.rows != [] ==> |r.rows| == Bound(|corpus|, topK)
    ensures r.Hits? && topK >= 0 ==> |r.rows| <= topK
  {
    var ranked := TopK(scores, order, topK);
    if |ranked| == 0 then IndexError
    else if scores[ranked[0]] < MinScore then Hits([])
    else Hits(RowsAt(corpus, ranked))
  }

  /** `row` is the serialisation of some row of the corpus. */
  ghost predicate FromCorpus(corpus: seq<Section>, row: Row) {
    exists i :: 0 <= i < |corpus| && row == RowOf(corpus[i])
  }

  /** `search_ipc(query, top_k)`. The query is stripped first and an empty
      one gives no rows. An all-digit query returns the first row whose id
      starts with it, alone, whatever `top_k` is. Every other query takes
      the ranked path over `scores`, which holds the vectoriser's score of
      each row against the stripped query. Whatever comes back is rows of
      the corpus, at most one or at most `top_k` of them, and the only error
      is the one the ranked path raises. */
  function SearchIpc(corpus: seq<Section>, query: string, topK: int, scores: seq<real>, order: seq<nat>)
    : (r: SearchResult)
    requires |scores| == |corpus| && IsArgsort(scores, order)
    ensures Strip(query) == [] ==> r == Hits([])
    ensures r.IndexError? ==> Bound(|corpus|, topK) == 0
    ensures r.Hits? ==> |r.rows| <= |corpus|
    ensures r.Hits? ==> |r.rows| <= 1 || |r.rows| == Bound(|corpus|, topK)
    ensures r.Hits? && topK >= 0 ==> |r.rows| <= 1 || |r.rows| <= topK
    ensures r.Hits? ==> forall t :: 0 <= t < |r.rows| ==> FromCorpus(corpus, r.rows[t])
  {
    var q := Strip(query);
    if q == [] then Hits([])
    else
      var hit := if IsDigits(q) then FirstIndex(corpus, (s: Section) => StartsWith(s.sectionId, q)) else None;
      if hit.Some? then
        assert FromCorpus(corpus, RowOf(corpus[hit.value]));
        Hits([RowOf(corpus[hit.value])])
      else
        RankedRowsFromCorpus(corpus, scores, order, topK);
        RankedSearch(corpus, scores, order, topK)
  }

  /** The ranked path returns rows of the corpus only. */
  lemma RankedRowsFromCorpus(corpus: seq<Section>, scores: seq<real>, order: seq<nat>, topK: int)
    requires |scores| == |corpus| && IsArgsort(scores, order)
    ensures var r := RankedSearch(corpus, scores, order, topK);
      r.Hits? ==> forall t :: 0 <= t < |r.rows| ==> FromCorpus(corpus, r.rows[t])
  {
    var r := RankedSearch(corpus, scores, order, topK);
    if r.Hits? && r.rows != [] {
      var ranked := TopK(scores, order, topK);
      forall t | 0 <= t < |r.rows| ensures FromCorpus(corpus, r.rows[t]) {
        assert r.rows[t] == RowOf(corpus[ranked[t]]);
      }
    }
  }

  /** The numeric fast path: for an all-digit query, if row `i` is the
      first row whose id starts with the digits, the search returns that
      row alone, for any `top_k` and any scores. */
  lemma SearchNumericFastPath(
    corpus: seq<Section>, query: string, topK: int, scores: seq<real>, order: seq<nat>, i: nat)
    requires |scores| == |corpus| && IsArgsort(scores, order)
    requires IsDigits(Strip(query))
    requires i < |corpus| && StartsWith(corpus[i].sectionId, Strip(query))
    requires forall j :: 0 <= j < i ==> !StartsWith(corpus[j].sectionId, Strip(query))
    ensures SearchIpc(corpus, query, topK, scores, order) == Hits([RowOf(corpus[i])])
  {
    var q := Strip(query);
    var p := (s: Section) => StartsWith(s.sectionId, q);
    var hit := FirstIndex(corpus, p);
    assert p(corpus[i]);
  }

  /** Every query that is neither empty nor served by the fast path -- not
      all digits, or all digits with no id starting with them -- takes the
      ranked path: a numeric query without an id match is not answered with
      an empty list. */
  lemma SearchFallsThroughToRanking(
    corpus: seq<Section>, query: string, topK: int, scores: seq<real>, order: seq<nat>)
    requires |scores| == |corpus| && IsArgsort(scores, order)
    requires Strip(query) != []
    requires IsDigits(Strip(query)) ==>
      forall j :: 0 <= j < |corpus| ==> !StartsWith(corpus[j].sectionId, Strip(query))
    ensures SearchIpc(corpus, query, topK, scores, order) == RankedSearch(corpus, scores, order, topK)
  {
    var q := Strip(query);
    if IsDigits(q) {
      var p := (s: Section) => StartsWith(s.sectionId, q);
      forall j | 0 <= j < |corpus| ensures !p(corpus[j]) {
        assert !StartsWith(corpus[j].sectionId, q);
      }
    }
  }

  /** On the ranked path, the returned rows are those of the top-scored
      row indices: in non-increasing score order, each row once, and no row
      left out scores higher than one returned. */
  lemma RankedSearchOrder(
    corpus: seq<Section>, scores: seq<real>, order: seq<nat>, topK: int, t: nat, u: nat)
    requires |scores| == |corpus| && IsArgsort(scores, order)
    requires RankedSearch(corpus, scores, order, topK).Hits?
    requires t < u < |RankedSearch(corpus, scores, order, topK).rows|
    ensures var ranked := TopK(scores, order, topK);
      && RankedSearch(corpus, scores, order, topK).rows[t] == RowOf(corpus[ranked[t]])
      && RankedSearch(corpus, scores, order, topK).rows[u] == RowOf(corpus[ranked[u]])
      && scores[ranked[u]] <= scores[ranked[t]]
      && ranked[t] != ranked[u]
  {
  }

  /** A corpus with a row and a positive `top_k` never makes the search
      raise. */
  lemma SearchNeverRaises(
    corpus: seq<Section>, query: string, topK: int, scores: seq<real>, order: seq<nat>)
    requires |scores| == |corpus| && IsArgsort(scores, order)
    requires |corpus| > 0 && topK > 0
    ensures SearchIpc(corpus, query, topK, scores, order).Hits?
  {
    assert Bound(|corpus|, topK) > 0;
  }

  /** `get_section_by_id(section_id)`: the serialisation of the first row
      whose id equals `sectionId` exactly (case and all), or `None` when no
      row has that id. */
  function GetSectionById(corpus: seq<Section>, sectionId: string): (r: Option<Row>)
    ensures r.None? <==> forall i :: 0 <= i < |corpus| ==> corpus[i].sectionId != sectionId
    ensures r.Some? ==>
      exists i :: && 0 <= i < |corpus| && corpus[i].sectionId == sectionId
                  && r.value == RowOf(corpus[i])
                  && forall j :: 0 <= j < i ==> corpus[j].sectionId != sectionId
  {
    match FirstIndex(corpus, (s: Section) => s.sectionId == sectionId)
    case None => None
    case Some(i) => Some(RowOf(corpus[i]))
  }

  /** Looking a row up by its own id gives that row back whenever no earlier
      row shares the id; with unique ids, that is every row. */
  lemma GetSectionByIdFindsRow(corpus: seq<Section>, i: nat)
    requires i < |corpus|
    requires forall j :: 0 <= j < i ==> corpus[j].sectionId != corpus[i].sectionId
    ensures GetSectionById(corpus, corpus[i].sectionId) == Some(RowOf(corpus[i]))
    ensures SectionOf(GetSectionById(corpus, corpus[i].sectionId).value) == corpus[i]
  {
    var r := GetSectionById(corpus, corpus[i].sectionId);
    var k :| 0 <= k < |corpus| && corpus[k].sectionId == corpus[i].sectionId
      && r.value == RowOf(corpus[k])
      && forall j :: 0 <= j < k ==> corpus[j].sectionId != corpus[i].sectionId;
    RowOfReadsBack(corpus[i]);
  }

  /** An autocomplete suggestion: the row's id and title and nothing else. */
  function SuggestionOf(s: Section): (r: Row)
    ensures r.Keys == {"section", "title"}
    ensures r["section"] == s.sectionId && r["title"] == s.sectionTitle
  {
    map["section" := s.sectionId, "title" := s.sectionTitle]
  }

  /** The autocomplete filter: the id starts with the (lower-cased) query,
      or the lower-cased title contains it. */
  predicate Suggests(s: Section, q: string): (b: bool)
    ensures b <==> OccursAt(s.sectionId, q, 0) || exists i :: OccursAt(Lower(s.sectionTitle), q, i)
    ensures q == [] ==> b
  {
    StartsWith(s.sectionId, q) || Contains(Lower(s.sectionTitle), q)
  }

  /** The corpus indices the autocomplete filter keeps, in corpus order:
      each kept row matches, and every matching row is kept. */
  function MatchingRows(corpus: seq<Section>, q: string): (ps: seq<nat>)
    ensures forall t :: 0 <= t < |ps| ==> ps[t] < |corpus| && Suggests(corpus[ps[t]], q)
    ensures forall t, u :: 0 <= t < u < |ps| ==> ps[t] < ps[u]
    ensures forall j :: 0 <= j < |corpus| && Suggests(corpus[j], q) ==> j in ps
    ensures ps == [] <==> forall j :: 0 <= j < |corpus| ==> !Suggests(corpus[j], q)
  {
    var p := (s: Section) => Suggests(s, q);
    var ps := Positions(corpus, p);
    assert forall t :: 0 <= t < |ps| ==> p(corpus[ps[t]]);
    ps
  }

  /** The suggestions for the rows at `ps`, cut as `.head(limit)` cuts. */
  function SuggestionsAt(corpus: seq<Section>, ps: seq<nat>, limit: int): (r: seq<Row>)
    requires forall t :: 0 <= t < |ps| ==> ps[t] < |corpus|
    ensures |r| == Bound(|ps|, limit)
    ensures forall t :: 0 <= t < |r| ==> r[t] == SuggestionOf(corpus[ps[t]])
  {
    SuggestionsOf(corpus, Slice(ps, 0, limit))
  }

  /** The suggestions for the rows at `ps`, in that order. */
  function SuggestionsOf(corpus: seq<Section>, ps: seq<nat>): (r: seq<Row>)
    requires forall t :: 0 <= t < |ps| ==> ps[t] < |corpus|
    ensures |r| == |ps|
    ensures forall t :: 0 <= t < |r| ==> r[t] == SuggestionOf(corpus[ps[t]])
  {
    if ps == [] then [] else [SuggestionOf(corpus[ps[0]])] + SuggestionsOf(corpus, ps[1..])
  }

  /** `autocomplete_ipc(query, limit)`. The query is lower-cased and
      stripped; shorter than two characters, it gives nothing. Otherwise the
      result is the suggestions for the first matching rows in corpus order,
      as many as `.head(limit)` keeps: never more than `limit`, never more
      than the corpus. */
  function AutocompleteIpc(corpus: seq<Section>, query: string, limit: int): (r: seq<Row>)
    requires forall i :: 0 <= i < |query| ==> !IsRegexMeta(query[i])
    ensures |Strip(Lower(query))| < 2 ==> r == []
    ensures limit >= 0 ==> |r| <= limit
    ensures |r| <= |corpus|
    ensures |Strip(Lower(query))| >= 2 ==>
      var ps := MatchingRows(corpus, Strip(Lower(query)));
      && |r| == Bound(|ps|, limit)
      && forall t :: 0 <= t < |r| ==> r[t] == SuggestionOf(corpus[ps[t]])
  {
    var q := Strip(Lower(query));
    if |q| < 2 then []
    else
      MatchingRowsBounded(corpus, q);
      SuggestionsAt(corpus, MatchingRows(corpus, q), limit)
  }

  /** There are never more matching rows than rows. */
  lemma MatchingRowsBounded(corpus: seq<Section>, q: string)
    ensures |MatchingRows(corpus, q)| <= |corpus|
  {
    IncreasingBelowBound(MatchingRows(corpus, q), |corpus|);
  }

  /** A strictly increasing sequence of numbers below `n` has at most `n`
      elements. */
  lemma {:induction false} IncreasingBelowBound(ps: seq<nat>, n: nat)
    requires forall t :: 0 <= t < |ps| ==> ps[t] < n
    requires forall t, u :: 0 <= t < u < |ps| ==> ps[t] < ps[u]
    ensures |ps| <= n
    decreases n
  {
    if ps != [] {
      var init := ps[..|ps| - 1];
      forall t | 0 <= t < |init| ensures init[t] < ps[|ps| - 1] {
        assert init[t] == ps[t];
      }
      IncreasingBelowBound(init, ps[|ps| - 1]);
    }
  }

  /** Autocomplete returns the first matches: a matching row that is left
      out comes after every row that is returned. */
  lemma AutocompleteKeepsFirstMatches(corpus: seq<Section>, query: string, limit: int, t: nat, j: nat)
    requires forall i :: 0 <= i < |query| ==> !IsRegexMeta(query[i])
    requires |Strip(Lower(query))| >= 2
    requires j < |corpus| && Suggests(corpus[j], Strip(Lower(query)))
    requires t < |AutocompleteIpc(corpus, query, limit)|
    requires j !in MatchingRows(corpus, Strip(Lower(query)))[..|AutocompleteIpc(corpus, query, limit)|]
    ensures MatchingRows(corpus, Strip(Lower(query)))[t] < j
  {
    var ps := MatchingRows(corpus, Strip(Lower(query)));
    var k := |AutocompleteIpc(corpus, query, limit)|;
    var u :| 0 <= u < |ps| && ps[u] == j;
  }

  /** The autocomplete filter as evidently intended: the id, too, is
      compared without regard to case. */
  predicate SuggestsCorrected(s: Section, q: string): (b: bool)
    ensures b <==> OccursAt(Lower(s.sectionId), q, 0) || exists i :: OccursAt(Lower(s.sectionTitle), q, i)
    ensures Lower(s.sectionId) == s.sectionId ==> (b <==> Suggests(s, q))
  {
    StartsWith(Lower(s.sectionId), q) || Contains(Lower(s.sectionTitle), q)
  }

  /** The corpus indices the corrected filter keeps, in corpus order. */
  function MatchingRowsCorrected(corpus: seq<Section>, q: string): (ps: seq<nat>)
    ensures forall t :: 0 <= t < |ps| ==> ps[t] < |corpus| && SuggestsCorrected(corpus[ps[t]], q)
    ensures forall t, u :: 0 <= t < u < |ps| ==> ps[t] < ps[u]
    ensures forall j :: 0 <= j < |corpus| && SuggestsCorrected(corpus[j], q) ==> j in ps
  {
    var p := (s: Section) => SuggestsCorrected(s, q);
    var ps := Positions(corpus, p);
    assert forall t :: 0 <= t < |ps| ==> p(corpus[ps[t]]);
    ps
  }

  /** `autocomplete_ipc` with the id compared case-insensitively. A row
      whose id starts with the typed query, in any case, is among the rows
      the filter keeps. */
  function AutocompleteIpcCorrected(corpus: seq<Section>, query: string, limit: int): (r: seq<Row>)
    requires forall i :: 0 <= i < |query| ==> !IsRegexMeta(query[i])
    ensures |Strip(Lower(query))| < 2 ==> r == []
    ensures limit >= 0 ==> |r| <= limit
    ensures |Strip(Lower(query))| >= 2 ==>
      var ps := MatchingRowsCorrected(corpus, Strip(Lower(query)));
      && |r| == Bound(|ps|, limit)
      && (forall t :: 0 <= t < |r| ==> r[t] == SuggestionOf(corpus[ps[t]]))
      && forall j :: 0 <= j < |corpus| && StartsWith(Lower(corpus[j].sectionId), Strip(Lower(query)))
           ==> j in ps
  {
    var q := Strip(Lower(query));
    if |q| < 2 then []
    else SuggestionsAt(corpus, MatchingRowsCorrected(corpus, q), limit)
  }

  /** `query.lower().strip()` cleans the query the same way whichever of the
      two steps comes first, and the cleaned query holds no upper-case
      letter, so comparing it with the lower-cased title ignores case on
      both sides. */
  lemma CleanedQuery(query: string)
    ensures Strip(Lower(query)) == Lower(Strip(query))
    ensures Lower(Strip(Lower(query))) == Strip(Lower(query))
  {
    StripLowerCommute(query);
    LowerIdempotent(Strip(query));
  }

  /** Where no id holds an upper-case letter -- purely numeric ids, for
      one -- the correction changes nothing. */
  lemma AutocompleteCorrectionConservative(corpus: seq<Section>, query: string, limit: int)
    requires forall i :: 0 <= i < |query| ==> !IsRegexMeta(query[i])
    requires forall j :: 0 <= j < |corpus| ==> Lower(corpus[j].sectionId) == corpus[j].sectionId
    ensures AutocompleteIpcCorrected(corpus, query, limit) == AutocompleteIpc(corpus, query, limit)
  {
    var q := Strip(Lower(query));
    PositionsAgree(corpus, (s: Section) => Suggests(s, q), (s: Section) => SuggestsCorrected(s, q));
  }

  /** A section whose id carries a letter suffix, as many IPC sections do. */
  function Section498A(): Section {
    Section("498A", "Cruelty by husband", "Of Cruelty by Husband or Relatives of Husband",
      "", "", "", "", "", "", "", "")
  }

  /** Over a single row, autocomplete suggests that row exactly when the
      filter keeps it. */
  lemma AutocompleteOneRow(s: Section, query: string, limit: int)
    requires forall i :: 0 <= i < |query| ==> !IsRegexMeta(query[i])
    requires |Strip(Lower(query))| >= 2 && limit > 0
    ensures AutocompleteIpc([s], query, limit)
      == if Suggests(s, Strip(Lower(query))) then [SuggestionOf(s)] else []
  {
    SuggestionsOneRow(s, Strip(Lower(query)), limit);
  }

  /** The suggestions over a single row, for a cleaned query `q`. */
  lemma SuggestionsOneRow(s: Section, q: string, limit: int)
    requires limit > 0
    ensures SuggestionsAt([s], MatchingRows([s], q), limit)
      == if Suggests(s, q) then [SuggestionOf(s)] else []
  {
    MatchingOneRow(s, q);
    var r := SuggestionsAt([s], MatchingRows([s], q), limit);
    if Suggests(s, q) {
      assert r[0] == SuggestionOf(s);
    }
  }

  /** Over a single row, the filter keeps that row or nothing. */
  lemma MatchingOneRow(s: Section, q: string)
    ensures MatchingRows([s], q) == if Suggests(s, q) then [0] else []
  {
    var ps := MatchingRows([s], q);
    IncreasingBelowBound(ps, 1);
    if Suggests(s, q) {
      assert 0 in ps;
    }
  }

  /** The same for the corrected filter. */
  lemma MatchingCorrectedOneRow(s: Section, q: string)
    requires SuggestsCorrected(s, q)
    ensures MatchingRowsCorrected([s], q) == [0]
  {
    var ps := MatchingRowsCorrected([s], q);
    IncreasingBelowBound(ps, 1);
    assert 0 in ps;
  }

  /** The same for the corrected filter. */
  lemma AutocompleteCorrectedOneRow(s: Section, query: string, limit: int)
    requires forall i :: 0 <= i < |query| ==> !IsRegexMeta(query[i])
    requires |Strip(Lower(query))| >= 2 && limit > 0
    requires SuggestsCorrected(s, Strip(Lower(query)))
    ensures AutocompleteIpcCorrected([s], query, limit) == [SuggestionOf(s)]
  {
    MatchingCorrectedOneRow(s, Strip(Lower(query)));
  }

  /** As written, typing a suffixed id exactly as it is stored does not
      suggest that section: the query is lower-cased, the id is not. */
  lemma AutocompleteMissesSuffixedId()
    ensures StartsWith(Lower(Section498A().sectionId), Strip(Lower("498A")))
    ensures AutocompleteIpc([Section498A()], "498A", 5) == []
  {
    LowerLiteral498A();
    AlnumNotMeta("498A");
    AbsentCharNotContained(Lower(Section498A().sectionTitle), "498a");
    assert !StartsWith(Section498A().sectionId, "498a") by {
      assert Section498A().sectionId[3] != "498a"[3];
    }
    AutocompleteOneRow(Section498A(), "498A", 5);
  }

  /** The corrected filter suggests it. */
  lemma AutocompleteCorrectedFindsSuffixedId()
    ensures AutocompleteIpcCorrected([Section498A()], "498A", 5) == [SuggestionOf(Section498A())]
  {
    LowerLiteral498A();
    AlnumNotMeta("498A");
    assert Lower(Section498A().sectionId) == "498a";
    AutocompleteCorrectedOneRow(Section498A(), "498A", 5);
  }

  lemma LowerLiteral498A()
    ensures Strip(Lower("498A")) == "498a"
    ensures Lower("498A") == "498a"
  {
    assert Lower("498A") == "498a";
    StripNoSpace("498a");
  }

  /** A one-row dataset: section 302 of the Code. */
  function Section302(): Section {
    Section("302", "Murder", "Of Offences Affecting the Human Body",
      "", "", "", "", "", "", "Death, or imprisonment for life, and fine", "murder death")
  }

  /** Searching for the section number returns that section alone through
      the fast path, whatever the scores. */
  lemma ScenarioSearchById(score: real)
    ensures SearchIpc([Section302()], "302", 3, [score], [0]) == Hits([RowOf(Section302())])
  {
    StripNoSpace("302");
    SearchNumericFastPath([Section302()], "302", 3, [score], [0], 0);
  }

  /** A single row is ranked first by any positive `top_k`. */
  lemma TopKOneRow(score: real, topK: int)
    requires topK > 0
    ensures IsArgsort([score], [0])
    ensures TopK([score], [0], topK) == [0]
  {
    assert IsArgsort([score], [0]);
    var ranked := TopK([score], [0], topK);
    assert |ranked| == 1 && ranked[0] == 0;
  }

  /** A word query takes the ranked path: with a score above the floor the
      row is returned ... */
  lemma ScenarioSearchByWord()
    ensures SearchIpc([Section302()], "murder", 3, [0.7], [0]) == Hits([RowOf(Section302())])
  {
    StripNoSpace("murder");
    assert "murder"[0] == 'm';
    SearchFallsThroughToRanking([Section302()], "murder", 3, [0.7], [0]);
    RankedSearchOneRow(Section302(), 0.7, 3);
  }

  /** Over a single row that scores at least the floor, any positive
      `top_k` returns that row. */
  lemma RankedSearchOneRow(s: Section, score: real, topK: int)
    requires score >= MinScore && topK > 0
    ensures IsArgsort([score], [0])
    ensures RankedSearch([s], [score], [0], topK) == Hits([RowOf(s)])
  {
    TopKOneRow(score, topK);
    var rows := RowsAt([s], [0]);
    assert rows[0] == RowOf(s);
    assert RankedSearch([s], [score], [0], topK) == Hits(rows);
  }

  /** ... and a term that scores nothing against any row gives no rows. */
  lemma ScenarioSearchNoMatch()
    ensures SearchIpc([Section302()], "zzzz", 3, [0.0], [0]) == Hits([])
  {
    StripNoSpace("zzzz");
    SearchFallsThroughToRanking([Section302()], "zzzz", 3, [0.0], [0]);
  }

  /** Typing the start of the title suggests the section. */
  lemma ScenarioAutocomplete()
    ensures AutocompleteIpc([Section302()], "Mur", 5) == [SuggestionOf(Section302())]
  {
    assert Lower("Mur") == "mur";
    StripNoSpace("mur");
    AlnumNotMeta("Mur");
    assert Lower("Murder") == "murder";
    assert OccursAt("murder", "mur", 0);
    AutocompleteOneRow(Section302(), "Mur", 5);
  }
}
