/**
 * The title optimizer: cleans a raw title, drops leading stop words,
 * builds a sentence-case and a title-case variant, truncates both to a
 * character budget at a word boundary and picks the one to publish.
 */
module TitleOptimizer {
  import opened Text

  /** Ukrainian function words that add nothing to a headline. */
  const STOP_WORDS: set<string> := {
    "і", "й", "та", "а", "але", "чи", "або", "у", "в", "з", "із", "зі", "за",
    "як", "що", "для", "про", "на", "до", "без", "при", "під", "над", "через", "після"
  }

  const FALLBACK_TITLE: string := "UkrFix: нова стаття"

  const ELLIPSIS: string := "..."

  /** Default `max_length` of `optimize_title`. */
  const DEFAULT_MAX_LENGTH: int := 60

  /** The characters `_clean_text` strips from both edges: `-–—:;,.` */
  predicate IsEdgePunct(c: char) {
    c == '-' || c == '–' || c == '—' || c == ':' || c == ';' || c == ',' || c == '.'
  }

  /** The characters `_truncate` strips before the ellipsis: `-–—:;,` (no full stop). */
  predicate IsTrailPunct(c: char) {
    c == '-' || c == '–' || c == '—' || c == ':' || c == ';' || c == ','
  }

  /**
   * `_clean_text`: a piece of the whitespace-collapsed text, so every
   * whitespace run is one plain space, and it neither starts nor ends with
   * one of `-–—:;,.` (it may still start or end with a space that stood
   * next to stripped punctuation).
   */
  function CleanText(text: string): (r: string)
    ensures SingleSpaced(r)
    ensures r != [] ==> !IsEdgePunct(r[0]) && !IsEdgePunct(r[|r| - 1])
    ensures exists k :: Occurs(CollapseSpaces(text), r, k)
  {
    var collapsed := CollapseSpaces(text);
    var trimmed := Strip(collapsed, IsSpace);
    var k1 := LeadRun(collapsed, IsSpace);
    SingleSpacedSub(collapsed, trimmed, k1);
    var r := Strip(trimmed, IsEdgePunct);
    var k2 := LeadRun(trimmed, IsEdgePunct);
    SingleSpacedSub(trimmed, r, k2);
    OccursTrans(collapsed, trimmed, r, k1, k2);
    r
  }

  /** `s.split()`: the maximal runs of non-whitespace characters. */
  function Words(s: string): seq<string> { Runs(s, Not(IsSpace)) }

  /** `" ".join(words)`. */
  function JoinSpace(words: seq<string>): string { JoinWith(words, " ") }

  /** Words split from a text contain no whitespace, so joining and splitting again gives them back. */
  lemma WordsOfJoin(words: seq<string>)
    requires forall i :: 0 <= i < |words| ==> words[i] != []
    requires forall i, j :: 0 <= i < |words| && 0 <= j < |words[i]| ==> !IsSpace(words[i][j])
    ensures Words(JoinSpace(words)) == words
  {
    RunsOfJoin(words, ' ', Not(IsSpace));
  }

  predicate IsStopWord(word: string) { Lower(word) in STOP_WORDS }

  /**
   * The longest run of leading stop words is dropped: what remains is a
   * suffix of `words` that does not start with a stop word, and everything
   * dropped was a stop word.
   */
  function DropLeadingStopWords(words: seq<string>): (r: seq<string>)
    decreases |words|
    ensures |r| <= |words| && r == words[|words| - |r|..]
    ensures forall i :: 0 <= i < |words| - |r| ==> IsStopWord(words[i])
    ensures r != [] ==> !IsStopWord(r[0])
  {
    if words != [] && IsStopWord(words[0]) then DropLeadingStopWords(words[1..]) else words
  }

  /** The text `_trim_stop_words` returns; splitting it again gives exactly the kept words. */
  function WithoutLeadingStopWords(text: string): (r: string)
    ensures Words(r) == DropLeadingStopWords(Words(text))
  {
    var kept := DropLeadingStopWords(Words(text));
    SuffixSpaceFree(Words(text), |Words(text)| - |kept|);
    WordsOfJoin(kept);
    JoinSpace(kept)
  }

  /** A suffix of a list of non-empty, whitespace-free words is one too. */
  lemma SuffixSpaceFree(words: seq<string>, n: nat)
    requires n <= |words|
    requires forall i :: 0 <= i < |words| ==> words[i] != []
    requires forall i, j :: 0 <= i < |words| && 0 <= j < |words[i]| ==> !IsSpace(words[i][j])
    ensures forall i :: 0 <= i < |words[n..]| ==> words[n..][i] != []
    ensures forall i, j :: 0 <= i < |words[n..]| && 0 <= j < |words[n..][i]| ==> !IsSpace(words[n..][i][j])
  {
    assert forall i :: 0 <= i < |words[n..]| ==> words[n..][i] == words[n + i];
  }

  /** `_trim_stop_words`: pops stop words off the front of the word list. */
  method TrimStopWords(text: string) returns (r: string)
    ensures r == WithoutLeadingStopWords(text)
  {
    var words := Words(text);
    while words != [] && Lower(words[0]) in STOP_WORDS
      invariant DropLeadingStopWords(words) == DropLeadingStopWords(Words(text))
      decreases |words|
    {
      words := words[1..];
    }
    r := JoinSpace(words);
  }

  /**
   * `_to_sentence_case`: empty exactly when the cleaned text is; otherwise
   * the cleaned text with its first character upper-cased and nothing else
   * changed.
   */
  function SentenceCase(text: string): (r: string)
    ensures r == [] <==> CleanText(text) == []
    ensures r != [] ==> |r| == |CleanText(text)| && r[0] == ToUpper(CleanText(text)[0])
    ensures r != [] ==> r[1..] == CleanText(text)[1..]
  {
    var cleaned := CleanText(text);
    if cleaned == [] then [] else [ToUpper(cleaned[0])] + cleaned[1..]
  }

  /** `word[:1].upper() + word[1:]`. */
  function Capitalize(word: string): (r: string)
    ensures |r| == |word|
    ensures forall j :: 0 < j < |word| ==> r[j] == word[j]
    ensures word != [] ==> r[0] == ToUpper(word[0])
  {
    if word == [] then [] else [ToUpper(word[0])] + word[1..]
  }

  /** The title-case form of the word at position `idx`. */
  function TitleWord(idx: nat, word: string): string {
    if idx != 0 && IsStopWord(word) then Lower(word) else Capitalize(word)
  }

  /** The words `_to_title_case` builds: each word title-cased for its position. */
  function TitleWords(words: seq<string>): (r: seq<string>)
    ensures |r| == |words|
  {
    seq(|words|, i requires 0 <= i < |words| => TitleWord(i, words[i]))
  }

  /**
   * Title casing keeps the number of words and their lengths; the first
   * word and every word that is not a stop word get an upper-case initial
   * and keep the rest as they are (the first word even when it is a stop
   * word); later stop words are lower-cased.
   */
  lemma TitleWordsCase(words: seq<string>)
    ensures var r := TitleWords(words);
      && (forall i :: 0 <= i < |words| ==> |r[i]| == |words[i]|)
      && (forall i :: 0 <= i < |words| && (i == 0 || !IsStopWord(words[i])) && words[i] != [] ==>
            r[i][0] == ToUpper(words[i][0]))
      && (forall i :: 0 < i < |words| && IsStopWord(words[i]) ==> r[i] == Lower(words[i]))
      && (forall i, j :: 0 <= i < |words| && (i == 0 || !IsStopWord(words[i])) && 0 < j < |words[i]| ==>
            r[i][j] == words[i][j])
  {
  }

  /** The text `_to_title_case` returns; it splits back into exactly the title-cased words. */
  function TitleCase(text: string): (r: string)
    ensures Words(r) == TitleWords(Words(CleanText(text)))
    ensures |Words(r)| == |Words(CleanText(text))|
  {
    var titled := TitleWords(Words(CleanText(text)));
    TitleWordsSpaceFree(Words(CleanText(text)));
    WordsOfJoin(titled);
    JoinSpace(titled)
  }

  /** Title casing keeps words non-empty and free of whitespace. */
  lemma TitleWordsSpaceFree(words: seq<string>)
    requires forall i :: 0 <= i < |words| ==> words[i] != []
    requires forall i, j :: 0 <= i < |words| && 0 <= j < |words[i]| ==> !IsSpace(words[i][j])
    ensures var titled := TitleWords(words);
      (forall i :: 0 <= i < |titled| ==> titled[i] != [])
      && (forall i, j :: 0 <= i < |titled| && 0 <= j < |titled[i]| ==> !IsSpace(titled[i][j]))
  {
    var titled := TitleWords(words);
    TitleWordsCase(words);
    forall i, j | 0 <= i < |titled| && 0 <= j < |titled[i]|
      ensures !IsSpace(titled[i][j])
    {
      assert !IsSpace(words[i][j]);
    }
  }

  /** The loop of `_to_title_case` over the enumerated words, appending to `title_words`. */
  method TitleCaseWords(words: seq<string>) returns (titleWords: seq<string>)
    ensures titleWords == TitleWords(words)
  {
    titleWords := [];
    for idx := 0 to |words|
      invariant |titleWords| == idx
      invariant forall k :: 0 <= k < idx ==> titleWords[k] == TitleWord(k, words[k])
    {
      var titled := TitleCaseWord(idx, words[idx]);
      titleWords := titleWords + [titled];
    }
  }

  /** The body of that loop for the word at position `idx`. */
  method TitleCaseWord(idx: nat, word: string) returns (titled: string)
    ensures titled == TitleWord(idx, word)
  {
    var lowerWord := Lower(word);
    if idx != 0 && lowerWord in STOP_WORDS {
      titled := lowerWord;
    } else {
      titled := Capitalize(word);
    }
  }

  /** `_to_title_case`: split the cleaned text, title-case the words, join them with single spaces. */
  method ToTitleCase(text: string) returns (r: string)
    ensures r == TitleCase(text)
  {
    var words := Words(CleanText(text));
    var titleWords := TitleCaseWords(words);
    r := JoinSpace(titleWords);
  }

  /**
   * `cut.rsplit(" ", 1)[0]` when `cut` holds a space: the prefix before its
   * last space (so the last word is dropped even when it is complete).
   */
  function WordCut(cut: string): (r: string)
    ensures |r| <= |cut| && r == cut[..|r|]
    ensures (exists j :: 0 <= j < |cut| && cut[j] == ' ') ==>
              |r| < |cut| && cut[|r|] == ' ' && forall j :: |r| < j < |cut| ==> cut[j] != ' '
    ensures (forall j :: 0 <= j < |cut| ==> cut[j] != ' ') ==> r == cut
  {
    // `" " in cut` holds exactly when `cut` has a last space.
    match LastIndexOfChar(cut, ' ')
    case Some(k) => cut[..k]
    case None => cut
  }

  /**
   * What `_truncate` keeps of a text over the budget: `text[:limit]` without
   * its last space-separated piece (when it holds a space) and without
   * trailing `-–—:;,`. For a budget of at least zero it is a prefix of the
   * text that ends at the last space of the cut, or at its end, less the
   * trailing punctuation just before that point.
   */
  function TruncationCut(text: string, limit: int): (cut: string)
    ensures cut <= text
    ensures 0 <= limit ==> |cut| <= limit
    ensures cut != [] ==> !IsTrailPunct(cut[|cut| - 1])
    ensures 0 <= limit <= |text| && (exists j :: 0 <= j < limit && text[j] == ' ') ==>
              exists sp :: |cut| <= sp < limit && text[sp] == ' '
                && (forall j :: sp < j < limit ==> text[j] != ' ')
                && (forall j :: |cut| <= j < sp ==> IsTrailPunct(text[j]))
    ensures 0 <= limit <= |text| && (forall j :: 0 <= j < limit ==> text[j] != ' ') ==>
              forall j :: |cut| <= j < limit ==> IsTrailPunct(text[j])
  {
    var head := SliceTo(text, limit);
    var word := WordCut(head);
    var cut := RStrip(word, IsTrailPunct);
    assert cut == word[..|cut|] && word == head[..|word|] && head == text[..|head|];
    assert forall j :: |cut| <= j < |word| ==> IsTrailPunct(word[j]);
    if 0 <= limit <= |text| && exists j :: 0 <= j < limit && text[j] == ' ' then
      var j :| 0 <= j < limit && text[j] == ' ';
      assert head[j] == ' ';
      var sp := |word|;
      assert forall i :: 0 <= i < limit ==> head[i] == text[i];
      assert sp < limit && text[sp] == ' ';
      assert forall i :: sp < i < limit ==> text[i] != ' ';
      assert forall i :: |cut| <= i < sp ==> IsTrailPunct(text[i]);
      cut
    else cut
  }

  /**
   * `_truncate`: unchanged within the budget; over it, the cut that
   * `TruncationCut` keeps followed by as much of `...` as the budget leaves
   * room for, so for a budget of at least zero the result always fits, and
   * it ends in the full `...` whenever the cut leaves three characters free.
   */
  function Truncate(text: string, limit: int): (r: string)
    ensures |text| <= limit ==> r == text
    ensures 0 <= limit ==> |r| <= limit
    ensures 0 <= limit < |text| ==>
              var cut := TruncationCut(text, limit);
              r == cut + ELLIPSIS[..if limit - |cut| < 3 then limit - |cut| else 3]
    ensures limit < |text| ==>
              exists n :: 0 <= n <= |r| && n <= |text| && r[..n] == text[..n] && r[n..] <= ELLIPSIS
  {
    if |text| <= limit then text
    else
      var cut := TruncationCut(text, limit);
      var trimmed := cut + ELLIPSIS;
      var r := if |trimmed| > limit then SliceTo(trimmed, limit) else trimmed;
      var n := if |cut| <= |r| then |cut| else |r|;
      assert r[..n] == text[..n] && r[n..] <= ELLIPSIS;
      r
  }

  /** Truncating twice is truncating once. */
  lemma TruncateIdempotent(text: string, limit: int)
    requires 0 <= limit
    ensures Truncate(Truncate(text, limit), limit) == Truncate(text, limit)
  {
  }

  /** The three titles `optimize_title` returns. */
  datatype Titles = Titles(chosen: string, titleCase: string, sentenceCase: string)

  /** The text both variants are built from: cleaned, without leading stop words. */
  function Base(rawTitle: string): string { WithoutLeadingStopWords(CleanText(rawTitle)) }

  /** `_truncate(_to_title_case(base), max_length)`. */
  function TitleVariant(rawTitle: string, maxLength: int): (r: string)
    ensures 0 <= maxLength ==> |r| <= maxLength
  {
    Truncate(TitleCase(Base(rawTitle)), maxLength)
  }

  /** `_truncate(_to_sentence_case(base), max_length)`. */
  function SentenceVariant(rawTitle: string, maxLength: int): (r: string)
    ensures 0 <= maxLength ==> |r| <= maxLength
  {
    Truncate(SentenceCase(Base(rawTitle)), maxLength)
  }

  /**
   * `optimize_title`. Both variants are already truncated, so for a budget
   * of at least zero the title-case variant always "fits" and is chosen
   * whenever it is not empty; when it is empty the fixed title is chosen,
   * whatever the sentence-case variant holds. An empty variant is replaced
   * by the chosen title; a non-empty one is within the budget.
   */
  function OptimizeTitle(rawTitle: string, maxLength: int): (r: Titles)
    ensures r.chosen != []
    ensures 0 <= maxLength ==>
              r.chosen == if TitleVariant(rawTitle, maxLength) != [] then TitleVariant(rawTitle, maxLength) else FALLBACK_TITLE
    ensures r.titleCase == if TitleVariant(rawTitle, maxLength) != [] then TitleVariant(rawTitle, maxLength) else r.chosen
    ensures r.sentenceCase == if SentenceVariant(rawTitle, maxLength) != [] then SentenceVariant(rawTitle, maxLength) else r.chosen
    ensures 0 <= maxLength ==> (|r.titleCase| <= maxLength || r.titleCase == FALLBACK_TITLE)
    ensures 0 <= maxLength ==> (|r.sentenceCase| <= maxLength || r.sentenceCase == FALLBACK_TITLE)
  {
    var sentenceCase := SentenceVariant(rawTitle, maxLength);
    var titleCase := TitleVariant(rawTitle, maxLength);
    var preferred := if |titleCase| <= maxLength then titleCase else sentenceCase;
    var preferred := if preferred == [] then FALLBACK_TITLE else preferred;
    Titles(preferred,
           if titleCase != [] then titleCase else preferred,
           if sentenceCase != [] then sentenceCase else preferred)
  }
}
