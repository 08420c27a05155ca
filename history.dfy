/**
 * The publication history: the records of earlier articles, the recent-title
 * and duplicate-title queries, adding a record for a newly published article,
 * and the choice of related earlier articles to link to.
 */
module History {
  import opened Text

  /** A generated article (the `ArticleData` dataclass); the two case variants may be absent. */
  datatype ArticleData = ArticleData(
    title: string,
    htmlContent: string,
    metaDescription: string,
    slug: string,
    tags: seq<string>,
    category: string,
    titleCase: Option<string>,
    sentenceCase: Option<string>)

  /**
   * One stored history entry. A missing `slug` key is `None`; the other keys
   * are read with an empty default, so a missing one is the empty value.
   */
  datatype Record = Record(title: string, slug: Option<string>, url: string, tags: seq<string>, category: string)

  /** A suggested internal link, `{"title": ..., "url": ...}`. */
  datatype Link = Link(title: string, url: string)

  // ---------------------------------------------------------------------------
  // Tokens
  // ---------------------------------------------------------------------------

  /** The characters of the pattern `[\w']`. */
  predicate IsTokenChar(c: char) { IsWordChar(c) || c == '\'' }

  /** `_tokenize`: the set of maximal `[\w']+` runs of the lower-cased text. */
  function Tokens(text: string): (r: set<string>)
    ensures "" !in r
    ensures forall t :: t in r ==> forall j :: 0 <= j < |t| ==> IsTokenChar(t[j])
  {
    var runs := Runs(Lower(text), IsTokenChar);
    set i | 0 <= i < |runs| :: runs[i]
  }

  /** Tokenising ignores case: the text is lower-cased first. */
  lemma TokensIgnoreCase(text: string)
    ensures Tokens(Lower(text)) == Tokens(text)
  {
    LowerIdempotent(text);
  }

  /** A text without any word character or apostrophe has no tokens. */
  lemma TokensOfSeparators(text: string)
    requires forall i :: 0 <= i < |text| ==> !IsTokenChar(ToLower(text[i]))
    ensures Tokens(text) == {}
  {
    RunsOfNone(Lower(text), IsTokenChar);
  }

  /** `set(t.lower() for t in tags)`. */
  function TagTokens(tags: seq<string>): (r: set<string>)
    ensures forall i :: 0 <= i < |tags| ==> Lower(tags[i]) in r
    ensures forall t :: t in r ==> exists i :: 0 <= i < |tags| && t == Lower(tags[i])
  {
    set i | 0 <= i < |tags| :: Lower(tags[i])
  }

  // ---------------------------------------------------------------------------
  // Recent titles and duplicate titles
  // ---------------------------------------------------------------------------

  /** `[rec.get("title", "") for rec in records]`. */
  function Titles(records: seq<Record>): (r: seq<string>)
    ensures |r| == |records|
    ensures forall i :: 0 <= i < |r| ==> r[i] == records[i].title
  {
    seq(|records|, i requires 0 <= i < |records| => records[i].title)
  }

  /**
   * `get_recent_titles`: the titles sliced with `[-limit:]`. The result is
   * always a suffix of the titles, in order; a positive limit keeps the
   * last `limit` of them, a zero limit keeps all of them (since `-0 == 0`),
   * and a negative limit drops the first `-limit` titles.
   */
  function RecentTitles(records: seq<Record>, limit: int): (r: seq<string>)
    ensures |r| <= |records|
    ensures forall i :: 0 <= i < |r| ==> r[i] == records[|records| - |r| + i].title
    ensures 0 < limit ==> |r| == (if limit <= |records| then limit else |records|)
    ensures limit == 0 ==> |r| == |records|
    ensures limit < 0 ==> |r| == (if |records| + limit >= 0 then |records| + limit else 0)
  {
    var titles := Titles(records);
    var start := Clamp(|titles|, -limit);
    var r := titles[start..];
    assert |records| - |r| == start;
    assert forall i :: 0 <= i < |r| ==> r[i] == records[start + i].title;
    SliceFrom(titles, -limit)
  }

  /**
   * `title.lower().strip()`: the lower-cased title from its first to its
   * last non-whitespace character; everything cut off on either side is
   * whitespace.
   */
  function Normalize(title: string): (r: string)
    ensures var l := Lower(title); var a := LeadRun(l, IsSpace);
            Occurs(l, r, a) &&
            (forall i :: 0 <= i < a ==> IsSpace(l[i])) &&
            (forall i :: a + |r| <= i < |l| ==> IsSpace(l[i]))
    ensures r != [] ==> !IsSpace(r[0]) && !IsSpace(r[|r| - 1])
    ensures r == [] <==> forall i :: 0 <= i < |title| ==> IsSpace(title[i])
    ensures Keep(r, Not(IsSpace)) == Keep(Lower(title), Not(IsSpace))
  {
    StripKeepsOthers(Lower(title), IsSpace);
    Strip(Lower(title), IsSpace)
  }

  /** `is_duplicate_title`: some record's title equals `title` up to case and surrounding whitespace. */
  predicate IsDuplicateTitle(title: string, records: seq<Record>)
  {
    exists i :: 0 <= i < |records| && Normalize(title) == Normalize(records[i].title)
  }

  /** Changing the case of a title does not change its normal form. */
  lemma NormalizeIgnoresCase(title: string)
    ensures Normalize(Lower(title)) == Normalize(title)
  {
    LowerIdempotent(title);
  }

  /** Adding whitespace around a title does not change its normal form. */
  lemma NormalizeIgnoresEdges(title: string)
    ensures Normalize([' '] + title + [' ']) == Normalize(title)
  {
    var padded := [' '] + title + [' '];
    var l := Lower(title);
    assert Lower(padded) == [' '] + l + [' '] by {
      forall i | 0 <= i < |padded| ensures Lower(padded)[i] == ([' '] + l + [' '])[i] {
        if 0 < i <= |title| {
          assert padded[i] == title[i - 1];
        }
      }
    }
    StripPadded(l, ' ', IsSpace);
  }

  /** The duplicate check is blind to case and to surrounding whitespace of the candidate title. */
  lemma DuplicateIgnoresCaseAndEdges(title: string, records: seq<Record>)
    ensures IsDuplicateTitle(Lower(title), records) <==> IsDuplicateTitle(title, records)
    ensures IsDuplicateTitle([' '] + title + [' '], records) <==> IsDuplicateTitle(title, records)
  {
    NormalizeIgnoresCase(title);
    NormalizeIgnoresEdges(title);
  }

  /** The title of a stored record is always a duplicate of itself. */
  lemma StoredTitleIsDuplicate(records: seq<Record>, i: nat)
    requires i < |records|
    ensures IsDuplicateTitle(records[i].title, records)
  {
  }

  // ---------------------------------------------------------------------------
  // Adding a record
  // ---------------------------------------------------------------------------

  /** `any(rec.get("slug") == slug for rec in records)`. */
  predicate HasSlug(records: seq<Record>, slug: string)
  {
    exists i :: 0 <= i < |records| && records[i].slug == Some(slug)
  }

  /** No two records carry the same (present) slug. */
  predicate UniqueSlugs(records: seq<Record>)
  {
    forall i, j :: 0 <= i < j < |records| && records[i].slug.Some? ==> records[i].slug != records[j].slug
  }

  /**
   * `f"{wp_url.rstrip('/')}/{slug.strip('/')}/"`: the site address without
   * its trailing slashes, then the slug without its surrounding slashes,
   * each followed by exactly one slash.
   */
  function RecordUrl(wpUrl: string, slug: string): (r: string)
    ensures var base := RStrip(wpUrl, IsSlash); var path := Strip(slug, IsSlash);
            |r| == |base| + |path| + 2 && r[..|base|] == base && r[|base|] == '/' &&
            r[|base| + 1..|r| - 1] == path && r[|r| - 1] == '/'
    ensures var base := RStrip(wpUrl, IsSlash);
            Occurs(wpUrl, base, 0) && forall i :: |base| <= i < |wpUrl| ==> wpUrl[i] == '/'
    ensures var path := Strip(slug, IsSlash);
            path != [] ==> r[|r| - 2] != '/' && r[|r| - 1 - |path|] != '/'
  {
    var base := RStrip(wpUrl, IsSlash);
    var path := Strip(slug, IsSlash);
    var r := base + "/" + path + "/";
    assert r[..|base|] == base;
    assert r[|base| + 1..|r| - 1] == path;
    assert wpUrl[..|base|] == base;
    r
  }

  /** Extra slashes at the end of the site address or around the slug give the same address. */
  lemma RecordUrlIgnoresSlashes(wpUrl: string, slug: string)
    ensures RecordUrl(wpUrl + "/", slug) == RecordUrl(wpUrl, slug)
    ensures RecordUrl(wpUrl, "/" + slug + "/") == RecordUrl(wpUrl, slug)
  {
    RStripAppend(wpUrl, '/', IsSlash);
    StripPadded(slug, '/', IsSlash);
  }

  /** The record `add_article_record` builds for `article`. */
  function NewRecord(article: ArticleData, wpUrl: string): (r: Record)
    ensures r.slug == Some(article.slug) && r.title == article.title
    ensures r.url == RecordUrl(wpUrl, article.slug)
    ensures r.tags == article.tags && r.category == article.category
  {
    Record(article.title, Some(article.slug), RecordUrl(wpUrl, article.slug), article.tags, article.category)
  }

  /** The history after `add_article_record`: unchanged when the slug is known, else one record longer. */
  function AddRecord(records: seq<Record>, article: ArticleData, wpUrl: string): seq<Record>
  {
    if HasSlug(records, article.slug) then records else records + [NewRecord(article, wpUrl)]
  }

  /** Adding never loses or reorders records, and adds at most one, carrying the slug. */
  lemma AddRecordExtends(records: seq<Record>, article: ArticleData, wpUrl: string)
    ensures |records| <= |AddRecord(records, article, wpUrl)| <= |records| + 1
    ensures AddRecord(records, article, wpUrl)[..|records|] == records
    ensures HasSlug(AddRecord(records, article, wpUrl), article.slug)
    ensures |AddRecord(records, article, wpUrl)| == |records| + 1 <==> !HasSlug(records, article.slug)
  {
    var r := AddRecord(records, article, wpUrl);
    if !HasSlug(records, article.slug) {
      assert r[|records|].slug == Some(article.slug);
    }
  }

  /** Publishing the same slug twice records it once. */
  lemma AddRecordIdempotent(records: seq<Record>, article: ArticleData, wpUrl: string, wpUrl2: string)
    ensures AddRecord(AddRecord(records, article, wpUrl), article, wpUrl2) == AddRecord(records, article, wpUrl)
  {
    AddRecordExtends(records, article, wpUrl);
  }

  /** Adding keeps slugs unique. */
  lemma AddRecordKeepsSlugsUnique(records: seq<Record>, article: ArticleData, wpUrl: string)
    ensures UniqueSlugs(records) ==> UniqueSlugs(AddRecord(records, article, wpUrl))
  {
  }

  /** After adding, the newest title heads the recent titles and is a duplicate. */
  lemma AddRecordThenQueries(records: seq<Record>, article: ArticleData, wpUrl: string, limit: int)
    requires !HasSlug(records, article.slug) && 0 < limit
    ensures var recent := RecentTitles(AddRecord(records, article, wpUrl), limit);
            recent != [] && recent[|recent| - 1] == article.title
    ensures IsDuplicateTitle(article.title, AddRecord(records, article, wpUrl))
  {
    var r := AddRecord(records, article, wpUrl);
    assert r[|records|].title == article.title;
    StoredTitleIsDuplicate(r, |records|);
  }

  /** The stored history, which `add_article_record` appends to in place. */
  class HistoryStore {
    var records: seq<Record>

    constructor (records: seq<Record>)
      ensures this.records == records
    {
      this.records := records;
    }

    /**
     * `add_article_record`: append the record for `article` unless a record
     * with its slug exists; the history list itself is returned.
     */
    method AddArticleRecord(article: ArticleData, wpUrl: string) returns (result: seq<Record>)
      modifies this
      ensures records == AddRecord(old(records), article, wpUrl)
      ensures result == records
      ensures old(UniqueSlugs(records)) ==> UniqueSlugs(records)
    {
      var url := RecordUrl(wpUrl, article.slug);
      if HasSlug(records, article.slug) {
        return records;
      }
      AddRecordKeepsSlugsUnique(records, article, wpUrl);
      var record := Record(article.title, Some(article.slug), url, article.tags, article.category);
      records := records + [record];
      result := records;
    }
  }

  // ---------------------------------------------------------------------------
  // Internal links
  // ---------------------------------------------------------------------------

  /** The tokens describing the new article: its tags, its title's tokens and its category. */
  function ArticleTokens(article: ArticleData): (r: set<string>)
    ensures Lower(article.category) in r
    ensures Tokens(article.title) <= r && TagTokens(article.tags) <= r
  {
    TagTokens(article.tags) + Tokens(article.title) + {Lower(article.category)}
  }

  /** The article's tokens are exactly its lower-cased tags, its title's tokens and its lower-cased category. */
  lemma ArticleTokensMembers(article: ArticleData, t: string)
    ensures t in ArticleTokens(article) <==>
              t in TagTokens(article.tags) || t in Tokens(article.title) || t == Lower(article.category)
  {
  }

  /** The tokens describing a stored record; an empty category adds nothing. */
  function RecordTokens(rec: Record): (r: set<string>)
    ensures rec.category != "" ==> Lower(rec.category) in r
    ensures Tokens(rec.title) <= r && TagTokens(rec.tags) <= r
  {
    TagTokens(rec.tags) + Tokens(rec.title) + (if rec.category != "" then {Lower(rec.category)} else {})
  }

  /** A record's tokens are exactly its lower-cased tags, its title's tokens and, when present, its lower-cased category. */
  lemma RecordTokensMembers(rec: Record, t: string)
    ensures t in RecordTokens(rec) <==>
              t in TagTokens(rec.tags) || t in Tokens(rec.title) || (rec.category != "" && t == Lower(rec.category))
  {
  }

  /** The article may link to `rec`: not the article itself, with an address, sharing a token. */
  predicate Linkable(article: ArticleData, rec: Record)
  {
    rec.slug != Some(article.slug) && rec.url != "" && ArticleTokens(article) * RecordTokens(rec) != {}
  }

  /** The relevance a record has for the article, or `None` when the loop skips it. */
  function Score(article: ArticleData, rec: Record): (r: Option<int>)
    ensures r.Some? <==> Linkable(article, rec)
    ensures r.Some? ==> r.value >= 1
    ensures r.Some? ==>
              var overlap := |ArticleTokens(article) * RecordTokens(rec)|;
              (r.value == overlap + 1 <==> Lower(rec.category) == Lower(article.category)) &&
              (r.value == overlap <==> Lower(rec.category) != Lower(article.category))
  {
    if rec.slug == Some(article.slug) || rec.url == "" then None
    else
      var shared := ArticleTokens(article) * RecordTokens(rec);
      var overlap := |shared|;
      if overlap == 0 then None
      else Some(overlap + (if Lower(rec.category) == Lower(article.category) then 1 else 0))
  }

  /** A linkable record in the article's (non-empty) category scores at least two: the shared token and the bonus. */
  lemma SameCategoryScoresTwo(article: ArticleData, rec: Record)
    requires rec.slug != Some(article.slug) && rec.url != ""
    requires rec.category != "" && Lower(rec.category) == Lower(article.category)
    ensures Linkable(article, rec) && Score(article, rec).value >= 2
  {
    assert Lower(rec.category) in ArticleTokens(article) * RecordTokens(rec);
  }

  /** An entry of `scored`. */
  datatype ScoredRecord = ScoredRecord(score: int, rec: Record)

  /** What the loop appends for one record: nothing, or its entry. */
  function Entry(article: ArticleData, rec: Record): seq<ScoredRecord>
  {
    match Score(article, rec)
    case None => []
    case Some(s) => [ScoredRecord(s, rec)]
  }

  /**
   * `scored` after the loop over `reversed(records)`: the entries of the
   * records that are kept, the most recent record first.
   */
  function Candidates(article: ArticleData, records: seq<Record>): (r: seq<ScoredRecord>)
    decreases |records|
  {
    if records == [] then [] else Candidates(article, records[1..]) + Entry(article, records[0])
  }

  /** Every entry belongs to a stored record and carries that record's score. */
  lemma {:induction false} CandidatesSound(article: ArticleData, records: seq<Record>)
    decreases |records|
    ensures forall e :: e in Candidates(article, records) ==>
              e.rec in records && Score(article, e.rec) == Some(e.score)
  {
    if records != [] {
      CandidatesSound(article, records[1..]);
      assert forall r :: r in records[1..] ==> r in records;
    }
  }

  /** Every stored record with a score has its entry. */
  lemma {:induction false} CandidatesComplete(article: ArticleData, records: seq<Record>)
    decreases |records|
    ensures forall i :: 0 <= i < |records| && Score(article, records[i]).Some? ==>
              ScoredRecord(Score(article, records[i]).value, records[i]) in Candidates(article, records)
  {
    if records != [] {
      CandidatesComplete(article, records[1..]);
      assert forall i :: 0 < i < |records| ==> records[i] == records[1..][i - 1];
    }
  }

  /** One step of the loop over `reversed(records)`: record `i` is visited after the later ones. */
  lemma CandidatesStep(article: ArticleData, records: seq<Record>, i: nat)
    requires i < |records|
    ensures Candidates(article, records[i..]) == Candidates(article, records[i + 1..]) + Entry(article, records[i])
  {
    assert records[i..][0] == records[i];
    assert records[i..][1..] == records[i + 1..];
  }

  /** A newly appended record is visited first. */
  lemma {:induction false} CandidatesAppend(article: ArticleData, records: seq<Record>, rec: Record)
    decreases |records|
    ensures Candidates(article, records + [rec]) == Entry(article, rec) + Candidates(article, records)
  {
    if records == [] {
      assert ([rec])[1..] == [];
    } else {
      var all := records + [rec];
      assert all != [];
      assert all[0] == records[0];
      assert all[1..] == records[1..] + [rec];
      CandidatesAppend(article, records[1..], rec);
      var e, first, rest := Entry(article, rec), Entry(article, records[0]), Candidates(article, records[1..]);
      calc {
        Candidates(article, all);
        Candidates(article, all[1..]) + first;
        (e + rest) + first;
        e + (rest + first);
        e + Candidates(article, records);
      }
    }
  }

  // ---------------------------------------------------------------------------
  // The stable sort by descending score
  // ---------------------------------------------------------------------------

  predicate SortedByScore(s: seq<ScoredRecord>)
  {
    forall i, j :: 0 <= i < j < |s| ==> s[i].score >= s[j].score
  }

  /** The entries of `s` with score `v`, in order. */
  function WithScore(s: seq<ScoredRecord>, v: int): (r: seq<ScoredRecord>)
    decreases |s|
  {
    if s == [] then [] else (if s[0].score == v then [s[0]] else []) + WithScore(s[1..], v)
  }

  lemma {:induction false} WithScoreConcat(a: seq<ScoredRecord>, b: seq<ScoredRecord>, v: int)
    decreases |a|
    ensures WithScore(a + b, v) == WithScore(a, v) + WithScore(b, v)
  {
    if a == [] {
      assert a + b == b;
    } else {
      var head := if a[0].score == v then [a[0]] else [];
      assert (a + b)[0] == a[0] && (a + b)[1..] == a[1..] + b;
      WithScoreConcat(a[1..], b, v);
      calc {
        WithScore(a + b, v);
        head + WithScore(a[1..] + b, v);
        head + (WithScore(a[1..], v) + WithScore(b, v));
        (head + WithScore(a[1..], v)) + WithScore(b, v);
      }
    }
  }

  lemma {:induction false} WithScoreNone(s: seq<ScoredRecord>, v: int)
    requires forall i :: 0 <= i < |s| ==> s[i].score != v
    decreases |s|
    ensures WithScore(s, v) == []
  {
    if s != [] {
      WithScoreNone(s[1..], v);
    }
  }

  /** Insert `x` into `t` after the leading entries scoring at least as much. */
  function Insert(x: ScoredRecord, t: seq<ScoredRecord>): (r: seq<ScoredRecord>)
    decreases |t|
    ensures |r| == |t| + 1
    ensures r[0] == x || (t != [] && r[0] == t[0])
  {
    if t == [] then [x]
    else if t[0].score >= x.score then [t[0]] + Insert(x, t[1..])
    else [x] + t
  }

  /** Inserting adds exactly `x`. */
  lemma {:induction false} InsertPermutes(x: ScoredRecord, t: seq<ScoredRecord>)
    decreases |t|
    ensures multiset(Insert(x, t)) == multiset(t) + multiset{x}
  {
    if t != [] && t[0].score >= x.score {
      InsertPermutes(x, t[1..]);
      assert t == [t[0]] + t[1..];
    }
  }

  /** Inserting into a sorted sequence keeps it sorted. */
  lemma {:induction false} InsertSorted(x: ScoredRecord, t: seq<ScoredRecord>)
    requires SortedByScore(t)
    decreases |t|
    ensures SortedByScore(Insert(x, t))
  {
    if t != [] && t[0].score >= x.score {
      var rest := Insert(x, t[1..]);
      InsertSorted(x, t[1..]);
      assert t[0].score >= rest[0].score;
      var r := [t[0]] + rest;
      forall i, j | 0 <= i < j < |r| ensures r[i].score >= r[j].score {
        if i == 0 {
          assert r[j] == rest[j - 1];
          assert rest[0].score >= rest[j - 1].score || j == 1;
        } else {
          assert r[i] == rest[i - 1] && r[j] == rest[j - 1];
        }
      }
    }
  }

  lemma {:induction false} InsertWithScore(x: ScoredRecord, t: seq<ScoredRecord>, v: int)
    requires SortedByScore(t)
    decreases |t|
    ensures WithScore(Insert(x, t), v) == WithScore(t, v) + (if x.score == v then [x] else [])
  {
    var own := if x.score == v then [x] else [];
    WithScoreSingle(x, v);
    if t == [] {
      assert Insert(x, t) == [x];
      assert WithScore(t, v) + own == own;
    } else if t[0].score >= x.score {
      var tail := t[1..];
      SortedTail(t);
      InsertWithScore(x, tail, v);
      WithScoreConcat([t[0]], Insert(x, tail), v);
      WithScoreConcat([t[0]], tail, v);
      assert t == [t[0]] + tail;
      calc {
        WithScore(Insert(x, t), v);
        WithScore([t[0]] + Insert(x, tail), v);
        WithScore([t[0]], v) + (WithScore(tail, v) + own);
        (WithScore([t[0]], v) + WithScore(tail, v)) + own;
        WithScore(t, v) + own;
      }
    } else {
      assert Insert(x, t) == [x] + t;
      WithScoreConcat([x], t, v);
      if x.score == v {
        SortedBelowHead(t, v);
        WithScoreNone(t, v);
        assert WithScore(t, v) + own == own + WithScore(t, v);
      }
    }
  }

  lemma WithScoreSingle(x: ScoredRecord, v: int)
    ensures WithScore([x], v) == if x.score == v then [x] else []
  {
    assert [x][1..] == [];
  }

  lemma SortedTail(t: seq<ScoredRecord>)
    requires t != [] && SortedByScore(t)
    ensures SortedByScore(t[1..])
  {
    assert forall i :: 0 <= i < |t| - 1 ==> t[1..][i] == t[i + 1];
  }

  /** In a sorted sequence whose head scores below `v`, no entry scores `v`. */
  lemma SortedBelowHead(t: seq<ScoredRecord>, v: int)
    requires t != [] && SortedByScore(t) && t[0].score < v
    ensures forall i :: 0 <= i < |t| ==> t[i].score != v
  {
    forall i | 0 <= i < |t|
      ensures t[i].score != v
    {
      if i > 0 {
        assert t[0].score >= t[i].score;
      }
    }
  }

  /** `scored.sort(key=score, reverse=True)`: Python's sort is stable, also in reverse. */
  function SortByScore(s: seq<ScoredRecord>): (r: seq<ScoredRecord>)
    decreases |s|
    ensures SortedByScore(r)
    ensures multiset(r) == multiset(s)
  {
    if s == [] then []
    else
      assert s == s[..|s| - 1] + [s[|s| - 1]];
      InsertSorted(s[|s| - 1], SortByScore(s[..|s| - 1]));
      InsertPermutes(s[|s| - 1], SortByScore(s[..|s| - 1]));
      Insert(s[|s| - 1], SortByScore(s[..|s| - 1]))
  }

  /** Stability: the entries of any one score keep their relative order. */
  lemma {:induction false} SortByScoreStable(s: seq<ScoredRecord>, v: int)
    decreases |s|
    ensures WithScore(SortByScore(s), v) == WithScore(s, v)
  {
    if s != [] {
      var init, last := s[..|s| - 1], s[|s| - 1];
      var sortedInit := SortByScore(init);
      SortByScoreStable(init, v);
      InsertSorted(last, sortedInit);
      InsertWithScore(last, sortedInit, v);
      SplitLast(s);
      WithScoreConcat(init, [last], v);
      calc {
        WithScore(SortByScore(s), v);
        WithScore(Insert(last, sortedInit), v);
        WithScore(sortedInit, v) + (if last.score == v then [last] else []);
        WithScore(init, v) + WithScore([last], v);
        WithScore(s, v);
      }
    }
  }

  // ---------------------------------------------------------------------------
  // find_internal_links
  // ---------------------------------------------------------------------------

  /** The stored records ranked for `article`, best first, ties most recent first. */
  function Ranked(article: ArticleData, records: seq<Record>): (r: seq<ScoredRecord>)
    ensures SortedByScore(r)
    ensures multiset(r) == multiset(Candidates(article, records))
  {
    SortByScore(Candidates(article, records))
  }

  function LinkOf(e: ScoredRecord): Link { Link(e.rec.title, e.rec.url) }

  function LinksOf(s: seq<ScoredRecord>): (r: seq<Link>)
    ensures |r| == |s|
    ensures forall i :: 0 <= i < |s| ==> r[i] == LinkOf(s[i])
  {
    seq(|s|, i requires 0 <= i < |s| => LinkOf(s[i]))
  }

  /** The links `find_internal_links` returns: the first `max_links` ranked records. */
  function InternalLinks(article: ArticleData, records: seq<Record>, maxLinks: int): (r: seq<Link>)
    ensures records == [] ==> r == []
    ensures 0 <= maxLinks ==> |r| <= maxLinks
    ensures 0 <= maxLinks ==>
      |r| == (if maxLinks <= |Candidates(article, records)| then maxLinks else |Candidates(article, records)|)
  {
    if records == [] then [] else LinksOf(SliceTo(Ranked(article, records), maxLinks))
  }

  /**
   * Every suggested link points at a stored record that is not the article
   * itself, has an address, and shares at least one token with the article.
   */
  lemma InternalLinksRelevant(article: ArticleData, records: seq<Record>, maxLinks: int)
    ensures forall i :: 0 <= i < |InternalLinks(article, records, maxLinks)| ==>
      (exists k :: 0 <= k < |records| && Linkable(article, records[k]) &&
         InternalLinks(article, records, maxLinks)[i] == Link(records[k].title, records[k].url))
  {
    var links := InternalLinks(article, records, maxLinks);
    if records != [] {
      var ranked := Ranked(article, records);
      var top := SliceTo(ranked, maxLinks);
      CandidatesSound(article, records);
      forall i | 0 <= i < |links|
        ensures (exists k :: 0 <= k < |records| && Linkable(article, records[k]) &&
                   links[i] == Link(records[k].title, records[k].url))
      {
        var e := top[i];
        assert e == ranked[i];
        assert e in multiset(ranked);
        assert e in Candidates(article, records);
        var k :| 0 <= k < |records| && records[k] == e.rec;
        assert links[i] == LinkOf(e);
      }
    }
  }

  /** In a sorted ranking, an entry whose link is not among the first `n` comes after them all. */
  lemma LeftOutRanksLower(ranked: seq<ScoredRecord>, n: nat, e: ScoredRecord)
    requires SortedByScore(ranked) && e in ranked
    requires LinkOf(e) !in LinksOf(SliceTo(ranked, n))
    ensures n < |ranked|
    ensures forall i :: 0 <= i < n ==> ranked[i].score >= e.score
  {
    var top := SliceTo(ranked, n);
    var links := LinksOf(top);
    var j :| 0 <= j < |ranked| && ranked[j] == e;
    forall i | 0 <= i < |top| ensures top[i] != e {
      assert links[i] == LinkOf(top[i]);
      assert links[i] in links;
    }
    assert |top| <= j;
  }

  /**
   * A linkable record that is left out loses only to better or equal
   * records: the list is full and every chosen entry scores at least as much.
   */
  lemma InternalLinksBest(article: ArticleData, records: seq<Record>, maxLinks: nat, k: nat)
    requires k < |records| && Linkable(article, records[k])
    requires Link(records[k].title, records[k].url) !in InternalLinks(article, records, maxLinks)
    ensures |InternalLinks(article, records, maxLinks)| == maxLinks
    ensures forall i :: 0 <= i < maxLinks ==>
              Ranked(article, records)[i].score >= Score(article, records[k]).value
  {
    var ranked := Ranked(article, records);
    var e := ScoredRecord(Score(article, records[k]).value, records[k]);
    CandidatesComplete(article, records);
    assert e in multiset(Candidates(article, records));
    assert e in ranked;
    LeftOutRanksLower(ranked, maxLinks, e);
    assert |multiset(ranked)| == |ranked|;
  }

  /**
   * Among records with the same score, the most recent comes first: the
   * entries scoring `v` are ranked in the order of `reversed(records)`.
   */
  lemma RankedTiesRecentFirst(article: ArticleData, records: seq<Record>, rec: Record, v: int)
    ensures WithScore(Ranked(article, records + [rec]), v)
         == WithScore(Entry(article, rec), v) + WithScore(Ranked(article, records), v)
  {
    SortByScoreStable(Candidates(article, records + [rec]), v);
    SortByScoreStable(Candidates(article, records), v);
    CandidatesAppend(article, records, rec);
    WithScoreConcat(Entry(article, rec), Candidates(article, records), v);
  }

  /**
   * The scoring loop of `find_internal_links`: visit the records from the
   * most recent one back, skipping the article itself, records without an
   * address and records sharing no token, and append `(score, rec)` for the rest.
   */
  method ScoreHistory(article: ArticleData, records: seq<Record>) returns (scored: seq<ScoredRecord>)
    ensures scored == Candidates(article, records)
  {
    var articleTokens := TagTokens(article.tags) + Tokens(article.title) + {Lower(article.category)};
    scored := [];
    for i := |records| downto 0
      invariant scored == Candidates(article, records[i..])
    {
      var entry := ScoreRecord(article, articleTokens, records[i]);
      CandidatesStep(article, records, i);
      scored := scored + entry;
    }
    assert records[0..] == records;
  }

  /** One pass of the scoring loop: the entry `scored` receives for `rec`, empty where the loop continues. */
  method ScoreRecord(article: ArticleData, articleTokens: set<string>, rec: Record) returns (entry: seq<ScoredRecord>)
    requires articleTokens == ArticleTokens(article)
    ensures entry == Entry(article, rec)
  {
    entry := [];
    if rec.slug == Some(article.slug) {
      return;
    }
    var url := rec.url;
    if url == "" {
      return;
    }
    var categoryToken: set<string> := {};
    if rec.category != "" {
      categoryToken := {Lower(rec.category)};
    }
    var recTokens := TagTokens(rec.tags) + Tokens(rec.title) + categoryToken;
    assert recTokens == RecordTokens(rec);
    var overlap := |articleTokens * recTokens|;
    if overlap == 0 {
      assert Score(article, rec) == None;
      return;
    }
    var score := overlap;
    if Lower(rec.category) == Lower(article.category) {
      score := score + 1;
    }
    assert Score(article, rec) == Some(score);
    entry := [ScoredRecord(score, rec)];
  }

  /** The selection loop of `find_internal_links`: one link per chosen entry, in order. */
  method SelectLinks(top: seq<ScoredRecord>) returns (selected: seq<Link>)
    ensures selected == LinksOf(top)
  {
    selected := [];
    for i := 0 to |top|
      invariant selected == LinksOf(top[..i])
    {
      var rec := top[i].rec;
      assert top[..i + 1] == top[..i] + [top[i]];
      selected := selected + [Link(rec.title, rec.url)];
    }
    assert top[..|top|] == top;
  }

  /**
   * `find_internal_links`: nothing for an empty history; otherwise score the
   * records, sort them by score, best first, and keep the first `max_links`.
   */
  method FindInternalLinks(article: ArticleData, records: seq<Record>, maxLinks: int) returns (selected: seq<Link>)
    ensures selected == InternalLinks(article, records, maxLinks)
  {
    if records == [] {
      return [];
    }
    var scored := ScoreHistory(article, records);
    var ranked := SortByScore(scored);
    selected := SelectLinks(SliceTo(ranked, maxLinks));
  }
}
