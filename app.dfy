/** The string logic of the web layer: the snippet shown under each search
    result, and how the section page reads the fields of a serialised row. */
module App {
  import opened Strings
  import opened Select
  import opened Utils

  const Ellipsis: string := "..."

  /** How much of the text is shown when the query does not occur in it. */
  const FallbackLength: int := 300

  /** The default half-width of the window around a match. */
  const DefaultWindow: int := 150

  function Max(a: int, b: int): int { if a < b then b else a }

  function Min(a: int, b: int): int { if a < b then a else b }

  /** `make_snippet(text, query, window)`. The query is looked for in the
      text without regard to case. If it is absent, the snippet is the first
      300 characters of the text and an ellipsis. If it is found at `idx`,
      the snippet is the text from `max(0, idx - window)` up to
      `min(len(text), idx + window)` between two ellipses; for
      `window >= 0` that window lies inside the text and around the match,
      and the snippet is at most `2 * window + 6` characters long. Every
      snippet ends with an ellipsis. */
  function MakeSnippet(text: string, query: string, window: int): (r: string)
    ensures |r| >= 3 && r[|r| - 3..] == Ellipsis
    ensures Find(Lower(text), Lower(query)) == -1 ==>
      && r == text[..Min(|text|, FallbackLength)] + Ellipsis
      && |r| <= FallbackLength + 3
    ensures Find(Lower(text), Lower(query)) >= 0 && window >= 0 ==>
      var idx := Find(Lower(text), Lower(query));
      var start, end := Max(0, idx - window), Min(|text|, idx + window);
      && 0 <= start <= idx <= end <= |text|
      && r == Ellipsis + text[start..end] + Ellipsis
      && r[..3] == Ellipsis
      && |r| <= 2 * window + 6
  {
    var idx := Find(Lower(text), Lower(query));
    if idx == -1 then FallbackSnippet(text)
    else
      assert OccursAt(Lower(text), Lower(query), idx);
      WindowSnippet(text, idx, window)
  }

  /** `text[:300] + "..."`. */
  function FallbackSnippet(text: string): (r: string)
    ensures r == text[..Min(|text|, FallbackLength)] + Ellipsis
    ensures |r| <= FallbackLength + 3 && |r| >= 3 && r[|r| - 3..] == Ellipsis
  {
    SlicePrefix(text, FallbackLength);
    Slice(text, 0, FallbackLength) + Ellipsis
  }

  /** `"..." + text[start:end] + "..."` for a match at `idx`. */
  function WindowSnippet(text: string, idx: nat, window: int): (r: string)
    requires idx <= |text|
    ensures |r| >= 3 && r[|r| - 3..] == Ellipsis
    ensures window >= 0 ==>
      var start, end := Max(0, idx - window), Min(|text|, idx + window);
      && 0 <= start <= idx <= end <= |text|
      && r == Ellipsis + text[start..end] + Ellipsis
      && r[..3] == Ellipsis
      && |r| <= 2 * window + 6
  {
    var start := Max(0, idx - window);
    var end := Min(|text|, idx + window);
    SliceWithin(text, start, end);
    Ellipsis + Slice(text, start, end) + Ellipsis
  }

  /** When the query is no longer than the window, the snippet's window
      holds the whole match, and that stretch of the original text equals
      the query up to case. */
  lemma SnippetWindowHoldsMatch(text: string, query: string, window: int)
    requires Find(Lower(text), Lower(query)) >= 0
    requires |query| <= window
    ensures var idx := Find(Lower(text), Lower(query));
      && Max(0, idx - window) <= idx
      && idx + |query| <= Min(|text|, idx + window)
      && Lower(text[idx..idx + |query|]) == Lower(query)
  {
    var idx := Find(Lower(text), Lower(query));
    assert OccursAt(Lower(text), Lower(query), idx);
    LowerSlice(text, idx, idx + |query|);
  }

  /** ... and the snippet shows that stretch of the text, right after its
      opening ellipsis and `idx - start` characters in. */
  lemma SnippetShowsMatch(text: string, query: string, window: int, idx: nat)
    requires idx == Find(Lower(text), Lower(query))
    requires |query| <= window
    ensures idx + |query| <= |text|
    ensures var start := Max(0, idx - window);
      MakeSnippet(text, query, window)[3 + idx - start..3 + idx - start + |query|]
        == text[idx..idx + |query|]
  {
    SnippetIsWindow(text, query, window);
    var w := WindowSnippet(text, idx, window);
    assert MakeSnippet(text, query, window) == w;
    WindowShows(text, idx, |query|, window);
  }

  /** A query that is found makes the window snippet around its match. */
  lemma SnippetIsWindow(text: string, query: string, window: int)
    requires Find(Lower(text), Lower(query)) >= 0
    ensures Find(Lower(text), Lower(query)) + |query| <= |text|
    ensures MakeSnippet(text, query, window) == WindowSnippet(text, Find(Lower(text), Lower(query)), window)
  {
    assert OccursAt(Lower(text), Lower(query), Find(Lower(text), Lower(query)));
  }

  /** The window snippet shows a stretch of `len <= window` characters
      starting at `idx`, `idx - start` characters after its opening
      ellipsis. */
  lemma WindowShows(text: string, idx: nat, len: nat, window: int)
    requires idx + len <= |text| && len <= window
    ensures var start := Max(0, idx - window);
      WindowSnippet(text, idx, window)[3 + idx - start..3 + idx - start + len] == text[idx..idx + len]
  {
    var start, end := Max(0, idx - window), Min(|text|, idx + window);
    var w := WindowSnippet(text, idx, window);
    assert w == Ellipsis + text[start..end] + Ellipsis;
    FramedStretch(text, text[start..end], start, end, idx, idx + len);
  }

  /** A match found in the lower-cased text lies inside the text. */
  lemma MatchInText(text: string, query: string, idx: int)
    requires idx == Find(Lower(text), Lower(query)) && idx >= 0
    ensures idx + |query| <= |text|
  {
    assert OccursAt(Lower(text), Lower(query), idx);
  }

  /** A stretch of `text` inside `text[start..end]` reappears in the
      framed window, shifted by the opening ellipsis. */
  lemma FramedStretch(text: string, mid: string, start: nat, end: nat, a: nat, b: nat)
    requires start <= a <= b <= end <= |text| && mid == text[start..end]
    ensures (Ellipsis + mid + Ellipsis)[3 + a - start..3 + b - start] == text[a..b]
  {
    SliceOfSlice(text, start, end, a, b);
    Framed(mid, a - start, b - start);
  }

  /** A stretch of `text[start..end]` is the same stretch of `text`. */
  lemma SliceOfSlice(text: string, start: nat, end: nat, a: nat, b: nat)
    requires start <= a <= b <= end <= |text|
    ensures text[start..end][a - start..b - start] == text[a..b]
  {
    assert forall k :: 0 <= k < b - a ==> text[start..end][a - start..b - start][k] == text[a..b][k];
  }

  /** Framing a string in ellipses shifts every stretch of it by three. */
  lemma Framed(mid: string, a: nat, b: nat)
    requires a <= b <= |mid|
    ensures (Ellipsis + mid + Ellipsis)[3 + a..3 + b] == mid[a..b]
  {
  }

  /** The empty query is found at 0, so its snippet is the start of the
      text, up to `window` characters, between two ellipses. */
  lemma SnippetEmptyQuery(text: string, window: int)
    requires window >= 0
    ensures MakeSnippet(text, "", window) == Ellipsis + text[..Min(|text|, window)] + Ellipsis
  {
    assert OccursAt(Lower(text), Lower(""), 0);
  }

  /** The description the search route attaches to a hit: the snippet of
      the row's law text around the raw query, with the default window of
      150. It never exceeds 306 characters, and it is the row's own law text
      that is excerpted. */
  function HitDescription(s: Section, query: string): (d: string)
    ensures |d| <= 2 * DefaultWindow + 6
    ensures |d| >= 3 && d[|d| - 3..] == Ellipsis
    ensures Find(Lower(s.lawText), Lower(query)) == -1 ==> d == s.lawText[..Min(|s.lawText|, FallbackLength)] + Ellipsis
  {
    var r := RowOf(s);
    assert r["law_text"] == s.lawText;
    MakeSnippet(r["law_text"], query, DefaultWindow)
  }

  /** How the section page reads a field of the dictionary
      `get_section_by_id` returns: `d.get(key) or ""`. */
  function FieldOrEmpty(d: Row, key: string): (v: string)
    ensures key in d ==> v == d[key]
    ensures key !in d ==> v == ""
  {
    if key in d then d[key] else ""
  }

  /** What replaces each line feed in a field the section page shows. */
  const LineBreak: string := "<br><br>"

  /** `s.replace("\n", "<br><br>")`: every line feed becomes two HTML line
      breaks and every other character is kept. The result holds no line
      feed, is empty exactly when `s` is, and equals `s` when `s` holds no
      line feed. A lone line feed becomes `LineBreak`, any other lone
      character is kept, and with `HtmlBreaksAppend` this fixes the result
      for every string. */
  function HtmlBreaks(s: string): (r: string)
    ensures s == "\n" ==> r == LineBreak
    ensures |s| == 1 && s[0] != '\n' ==> r == s
    ensures forall i :: 0 <= i < |r| ==> r[i] != '\n'
    ensures (forall i :: 0 <= i < |s| ==> s[i] != '\n') ==> r == s
    ensures |r| >= |s|
    ensures r == [] <==> s == []
  {
    if s == [] then []
    else
      var head := if s[0] == '\n' then LineBreak else [s[0]];
      var tail := HtmlBreaks(s[1..]);
      assert forall i :: |head| <= i < |head| + |tail| ==> (head + tail)[i] == tail[i - |head|];
      head + tail
  }

  /** The replacement works piece by piece: the text of a concatenation is
      the concatenation of the texts, so each character is replaced on its
      own and the characters keep their order. */
  lemma {:induction false} HtmlBreaksAppend(a: string, b: string)
    ensures HtmlBreaks(a + b) == HtmlBreaks(a) + HtmlBreaks(b)
    decreases |a|
  {
    if a == [] {
      assert a + b == b;
    } else {
      var ab := a + b;
      assert ab[0] == a[0];
      assert ab[1..] == a[1..] + b;
      HtmlBreaksUnfold(ab);
      HtmlBreaksUnfold(a);
      HtmlBreaksAppend(a[1..], b);
    }
  }

  /** One step of the replacement: the first character, then the rest. */
  lemma HtmlBreaksUnfold(s: string)
    requires s != []
    ensures HtmlBreaks(s) == (if s[0] == '\n' then LineBreak else [s[0]]) + HtmlBreaks(s[1..])
  {
  }

  /** A field as the section page shows it: `(d.get(key) or "")` with its
      line feeds replaced. */
  function PageField(d: Row, key: string): (v: string)
    ensures key !in d ==> v == ""
    ensures key in d ==> v == HtmlBreaks(d[key])
    ensures v == "" <==> key !in d || d[key] == ""
  {
    HtmlBreaks(FieldOrEmpty(d, key))
  }

  /** The punishment text the section page shows, as written: it reads the
      key "punishment_text". */
  function PagePunishment(d: Row): (v: string)
    ensures "punishment_text" in d ==> v == HtmlBreaks(d["punishment_text"])
    ensures d.Keys == RowKeys ==> v == ""
  {
    PageField(d, "punishment_text")
  }

  /** The punishment text the section page is evidently meant to show: the
      one stored under the key "punishment", which `_row` emits. */
  function PagePunishmentCorrected(d: Row): (v: string)
    ensures "punishment" !in d ==> v == ""
    ensures d.Keys == RowKeys ==> v == HtmlBreaks(d["punishment"])
  {
    PageField(d, "punishment")
  }

  /** As written, the page never shows a punishment: for every row the
      field is empty, even when the row has a punishment text. */
  lemma PagePunishmentAlwaysEmpty(corpus: seq<Section>, sectionId: string)
    requires GetSectionById(corpus, sectionId).Some?
    ensures PagePunishment(GetSectionById(corpus, sectionId).value) == ""
  {
    var i :| 0 <= i < |corpus| && GetSectionById(corpus, sectionId).value == RowOf(corpus[i]);
  }

  /** A concrete row whose punishment the page loses. */
  lemma PagePunishmentLost()
    ensures Section302().punishmentText != ""
    ensures GetSectionById([Section302()], "302") == Some(RowOf(Section302()))
    ensures PagePunishment(RowOf(Section302())) == ""
  {
    GetSectionByIdFindsRow([Section302()], 0);
  }

  /** Reading the key `_row` emits, the page shows the punishment text of
      the row that was looked up, line feeds turned into HTML breaks, and
      builds the punishment block exactly when that text is not empty. */
  lemma PagePunishmentCorrectedShown(corpus: seq<Section>, i: nat)
    requires i < |corpus|
    requires forall j :: 0 <= j < i ==> corpus[j].sectionId != corpus[i].sectionId
    ensures PagePunishmentCorrected(GetSectionById(corpus, corpus[i].sectionId).value)
      == HtmlBreaks(corpus[i].punishmentText)
    ensures PagePunishmentCorrected(GetSectionById(corpus, corpus[i].sectionId).value) != ""
      <==> corpus[i].punishmentText != ""
  {
    GetSectionByIdFindsRow(corpus, i);
  }

  /** The other fields the page reads -- main text, explanation,
      illustration -- come through under the keys `_row` uses, line feeds
      turned into HTML breaks. */
  lemma PageFieldsShown(s: Section)
    ensures PageField(RowOf(s), "main_text") == HtmlBreaks(s.mainText)
    ensures PageField(RowOf(s), "explanation") == HtmlBreaks(s.explanation)
    ensures PageField(RowOf(s), "illustration") == HtmlBreaks(s.illustration)
  {
    RowOfReadsBack(s);
  }
}
