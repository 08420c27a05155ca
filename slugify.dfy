/**
 * The slug builder: Ukrainian-to-Latin transliteration with a fixed table,
 * tokenising, stop-word filtering, keyword trimming, hyphen collapsing,
 * length capping and the template/empty fallback, plus the extraction of
 * the first `<h1>` heading that seeds the slug.
 */
module Slugify {
  import opened Text

  /** The fallback Ukrainian-to-Latin table. */
  const UA_MAP: map<char, string> := map[
    'а' := "a", 'б' := "b", 'в' := "v", 'г' := "h", 'ґ' := "g", 'д' := "d",
    'е' := "e", 'є' := "ie", 'ж' := "zh", 'з' := "z", 'и' := "y", 'і' := "i",
    'ї' := "yi", 'й' := "i", 'к' := "k", 'л' := "l", 'м' := "m", 'н' := "n",
    'о' := "o", 'п' := "p", 'р' := "r", 'с' := "s", 'т' := "t", 'у' := "u",
    'ф' := "f", 'х' := "kh", 'ц' := "ts", 'ч' := "ch", 'ш' := "sh", 'щ' := "shch",
    'ю' := "yu", 'я' := "ya"
  ]

  /** Transliterated Ukrainian and English stop words dropped from slugs. */
  const STOP_WORDS: set<string> := {
    "i", "ta", "a", "y", "yi", "yiyi", "ale", "abo", "chi", "pro", "dlia", "dla",
    "dlya", "na", "u", "v", "za", "vid", "do", "po", "pid", "nad", "pere", "yak",
    "tse", "ce", "hto", "khto", "tylki", "tilky", "tilki", "te", "tsya", "tsyi",
    "tsye", "miz", "z", "iz",
    "the", "and", "or", "for", "of", "to", "in", "on", "with", "by", "from", "an",
    "how", "where", "what", "why", "when", "best", "top"
  }

  const FALLBACK_SLUG: string := "ukrfix-article"

  /** Default `max_words` of the keyword trimmer. */
  const MAX_KEYWORDS: nat := 5

  /** Default `max_length` of the slug. */
  const DEFAULT_MAX_LENGTH: int := 75

  // ---------------------------------------------------------------------------
  // Transliteration
  // ---------------------------------------------------------------------------

  predicate IsTranslitChar(c: char) { IsAsciiLowerAlnum(c) || c == ' ' }

  /** Every entry of the table is made of lower-case Latin letters. */
  lemma UaMapIsLatin(k: char)
    requires k in UA_MAP
    ensures forall i :: 0 <= i < |UA_MAP[k]| ==> 'a' <= UA_MAP[k][i] <= 'z'
  {
  }

  /** What the transliterator emits for one input character. */
  function CharOutput(c: char): (r: string)
    ensures forall i :: 0 <= i < |r| ==> IsTranslitChar(r[i])
  {
    var lower := ToLower(c);
    if lower in UA_MAP then UaMapIsLatin(lower); UA_MAP[lower]
    else if IsAsciiLowerAlnum(lower) then [lower]
    else if IsSpace(lower) || lower == '-' || lower == '_' then " "
    else ""
  }

  /** The fallback transliteration of `text`: the outputs of its characters, in order. */
  function Transliterate(text: string): (r: string)
    decreases |text|
    ensures forall i :: 0 <= i < |r| ==> IsTranslitChar(r[i])
  {
    if text == [] then []
    else Transliterate(text[..|text| - 1]) + CharOutput(text[|text| - 1])
  }

  /** Transliteration works character by character: it distributes over concatenation. */
  lemma {:induction false} TransliterateConcat(a: string, b: string)
    decreases |b|
    ensures Transliterate(a + b) == Transliterate(a) + Transliterate(b)
  {
    if b == [] {
      assert a + b == a;
    } else {
      var b' := b[..|b| - 1];
      assert (a + b)[..|a + b| - 1] == a + b';
      assert (a + b)[|a + b| - 1] == b[|b| - 1];
      TransliterateConcat(a, b');
    }
  }

  lemma TransliterateStep(text: string, i: nat)
    requires i < |text|
    ensures Transliterate(text[..i + 1]) == Transliterate(text[..i]) + CharOutput(text[i])
  {
    assert text[..i + 1][..i] == text[..i];
  }

  /** The body of the fallback loop for one character: the piece appended for it. */
  method FallbackPiece(ch: char) returns (piece: string)
    ensures piece == CharOutput(ch)
  {
    var lowerChar := ToLower(ch);
    if lowerChar in UA_MAP {
      piece := UA_MAP[lowerChar];
    } else if IsAsciiLowerAlnum(lowerChar) {
      piece := [lowerChar];
    } else if IsSpace(lowerChar) || lowerChar == '-' || lowerChar == '_' {
      piece := " ";
    } else {
      piece := "";
    }
  }

  /** `_fallback_transliterate`: one pass over the characters, appending to a list of pieces. */
  method FallbackTransliterate(text: string) returns (r: string)
    ensures r == Transliterate(text)
    ensures forall i :: 0 <= i < |r| ==> IsTranslitChar(r[i])
  {
    var transliterated: seq<string> := [];
    for i := 0 to |text|
      invariant Concat(transliterated) == Transliterate(text[..i])
    {
      var piece := FallbackPiece(text[i]);
      TransliterateStep(text, i);
      ConcatAppend(transliterated, [piece]);
      transliterated := transliterated + [piece];
    }
    assert text[..|text|] == text;
    r := Concat(transliterated);
  }

  /** `transliterate_uk` without the optional library: the fallback table. */
  function TransliterateUk(text: string): (r: string)
    ensures forall i :: 0 <= i < |r| ==> IsTranslitChar(r[i])
  {
    Transliterate(text)
  }

  // ---------------------------------------------------------------------------
  // Tokens and stop words
  // ---------------------------------------------------------------------------

  predicate IsSlugSeparator(c: char) { IsSpace(c) || c == '_' || c == '-' }

  /** `re.sub(r"[^a-zA-Z0-9\s_-]", " ", ...)` on one character. */
  function CleanSlugChar(c: char): char {
    if IsAsciiAlnum(c) || IsSlugSeparator(c) then c else ' '
  }

  /** `_tokenize`: non-empty tokens of lower-case ASCII letters and digits, in source order. */
  function Tokenize(text: string): (r: seq<string>)
    ensures forall i :: 0 <= i < |r| ==> r[i] != []
    ensures forall i, j :: 0 <= i < |r| && 0 <= j < |r[i]| ==> IsAsciiLowerAlnum(r[i][j])
  {
    var cleaned := seq(|text|, i requires 0 <= i < |text| => CleanSlugChar(text[i]));
    var lowered := Lower(cleaned);
    assert forall c :: c in lowered && !IsSlugSeparator(c) ==> IsAsciiLowerAlnum(c);
    Runs(lowered, Not(IsSlugSeparator))
  }

  /** Tokens are the maximal `[a-z0-9]` runs in order: tokenising space-joined words gives the words back. */
  lemma TokenizeOfJoin(words: seq<string>)
    requires forall i :: 0 <= i < |words| ==> words[i] != []
    requires forall i, j :: 0 <= i < |words| && 0 <= j < |words[i]| ==> IsAsciiLowerAlnum(words[i][j])
    ensures Tokenize(JoinWith(words, " ")) == words
  {
    var text := JoinWith(words, " ");
    var p := c => IsAsciiLowerAlnum(c) || c == ' ';
    JoinWithChars(words, " ", p);
    var cleaned := seq(|text|, i requires 0 <= i < |text| => CleanSlugChar(text[i]));
    assert cleaned == text;
    assert Lower(cleaned) == text;
    var keep := Not(IsSlugSeparator);
    assert IsSlugSeparator(' ');
    assert keep(' ') == !IsSlugSeparator(' ');
    assert forall c :: IsAsciiLowerAlnum(c) ==> !IsSpace(c);
    assert forall c :: keep(c) == !IsSlugSeparator(c);
    RunsOfJoin(words, ' ', keep);
  }

  /** `b` can be obtained from `a` by deleting elements. */
  ghost predicate IsSubsequence<T>(a: seq<T>, b: seq<T>)
    decreases |b|
  {
    if a == [] then true
    else if b == [] then false
    else (a[0] == b[0] && IsSubsequence(a[1..], b[1..])) || IsSubsequence(a, b[1..])
  }

  /** The words kept by the filter with stop words `stop` once `seen` is already taken. */
  function FilterFrom(words: seq<string>, stop: set<string>, seen: set<string>): (r: seq<string>)
    decreases |words|
  {
    if words == [] then []
    else if words[0] in stop || words[0] in seen then FilterFrom(words[1..], stop, seen)
    else [words[0]] + FilterFrom(words[1..], stop, seen + {words[0]})
  }

  /** What the filter keeps once `seen` is taken: no stop word, nothing seen, no repeat, every other word. */
  lemma {:induction false} FilterFromKeeps(words: seq<string>, stop: set<string>, seen: set<string>)
    decreases |words|
    ensures var r := FilterFrom(words, stop, seen);
      && (forall i :: 0 <= i < |r| ==> r[i] !in stop && r[i] !in seen)
      && (forall i, j :: 0 <= i < j < |r| ==> r[i] != r[j])
      && (forall w :: w in r <==> w in words && w !in stop && w !in seen)
      && IsSubsequence(r, words)
  {
    if words != [] {
      if words[0] in stop || words[0] in seen {
        FilterFromKeeps(words[1..], stop, seen);
      } else {
        FilterFromKeeps(words[1..], stop, seen + {words[0]});
        assert words == [words[0]] + words[1..];
      }
    }
  }

  /** The first position of `w` in `words`. */
  function FirstIndex(words: seq<string>, w: string): (k: nat)
    requires w in words
    decreases |words|
    ensures k < |words| && words[k] == w
    ensures forall j :: 0 <= j < k ==> words[j] != w
  {
    if words[0] == w then 0
    else
      assert words == [words[0]] + words[1..];
      1 + FirstIndex(words[1..], w)
  }

  /** Past a different first word, first positions shift by one. */
  lemma FirstIndexTail(words: seq<string>, e: string)
    requires words != [] && e in words[1..] && e != words[0]
    ensures e in words && FirstIndex(words, e) == 1 + FirstIndex(words[1..], e)
  {
    assert words == [words[0]] + words[1..];
  }

  /** Ordered by first position in `words[1..]`, and maybe led by `words[0]`: ordered by first position in `words`. */
  lemma OrderStep(words: seq<string>, tail: seq<string>, r: seq<string>)
    requires words != []
    requires forall e :: e in tail ==> e in words[1..] && e != words[0]
    requires forall i, j :: 0 <= i < j < |tail| ==>
               tail[i] in words[1..] && tail[j] in words[1..] && FirstIndex(words[1..], tail[i]) < FirstIndex(words[1..], tail[j])
    requires r == tail || r == [words[0]] + tail
    ensures forall i, j :: 0 <= i < j < |r| ==>
              r[i] in words && r[j] in words && FirstIndex(words, r[i]) < FirstIndex(words, r[j])
  {
    forall e | e in tail ensures e in words && FirstIndex(words, e) == 1 + FirstIndex(words[1..], e) {
      FirstIndexTail(words, e);
    }
    forall i, j | 0 <= i < j < |r|
      ensures r[i] in words && r[j] in words && FirstIndex(words, r[i]) < FirstIndex(words, r[j])
    {
      if r == tail {
        assert r[i] in tail && r[j] in tail;
      } else {
        assert r[j] == tail[j - 1] && r[j] in tail;
        if i > 0 {
          assert r[i] == tail[i - 1] && r[i] in tail;
        } else {
          assert r[i] == words[0];
        }
      }
    }
  }

  /** The kept words come in the order of their first occurrences in `words`. */
  lemma {:induction false} FilterFromOrder(words: seq<string>, stop: set<string>, seen: set<string>)
    decreases |words|
    ensures var r := FilterFrom(words, stop, seen);
      forall i, j :: 0 <= i < j < |r| ==>
        r[i] in words && r[j] in words && FirstIndex(words, r[i]) < FirstIndex(words, r[j])
  {
    if words != [] {
      var w, rest := words[0], words[1..];
      var seen' := if w in stop || w in seen then seen else seen + {w};
      FilterFromOrder(rest, stop, seen');
      FilterFromKeeps(rest, stop, seen');
      var tail := FilterFrom(rest, stop, seen');
      assert forall e :: e in tail ==> e in rest && e != w;
      var r := FilterFrom(words, stop, seen);
      assert r == tail || r == [w] + tail;
      OrderStep(words, tail, r);
    }
  }

  /**
   * The stop-word filter: a subsequence of `words` with no stop word and no
   * repetition that keeps every other word, each at its first occurrence:
   * the kept words come in the order in which they first appear.
   */
  function Filtered(words: seq<string>): (r: seq<string>)
    ensures forall i :: 0 <= i < |r| ==> r[i] !in STOP_WORDS
    ensures forall i, j :: 0 <= i < j < |r| ==> r[i] != r[j]
    ensures forall w :: w in r <==> w in words && w !in STOP_WORDS
    ensures IsSubsequence(r, words)
    ensures forall i, j :: 0 <= i < j < |r| ==>
              r[i] in words && r[j] in words && FirstIndex(words, r[i]) < FirstIndex(words, r[j])
  {
    FilterFromKeeps(words, STOP_WORDS, {});
    FilterFromOrder(words, STOP_WORDS, {});
    FilterFrom(words, STOP_WORDS, {})
  }

  /** The filter keeps nothing exactly when every word is a stop word. */
  lemma FilterFromEmptyIff(words: seq<string>, stop: set<string>)
    ensures FilterFrom(words, stop, {}) == [] <==> forall i :: 0 <= i < |words| ==> words[i] in stop
  {
    var r := FilterFrom(words, stop, {});
    FilterFromKeeps(words, stop, {});
    if r != [] {
      assert r[0] in r;
    }
    if i :| 0 <= i < |words| && words[i] !in stop {
      assert words[i] in words;
    }
  }

  /** One word of the filter loop: it is skipped, or kept and remembered. */
  lemma FilterFromStep(words: seq<string>, i: nat, stop: set<string>, seen: set<string>)
    requires i < |words|
    ensures FilterFrom(words[i..], stop, seen) ==
              if words[i] in stop || words[i] in seen then FilterFrom(words[i + 1..], stop, seen)
              else [words[i]] + FilterFrom(words[i + 1..], stop, seen + {words[i]})
  {
    assert words[i..][0] == words[i] && words[i..][1..] == words[i + 1..];
  }

  /** `_filter_stop_words`. */
  method FilterStopWords(words: seq<string>) returns (filtered: seq<string>)
    ensures filtered == Filtered(words)
  {
    filtered := FilterWords(words, STOP_WORDS);
  }

  /** The loop of `_filter_stop_words`, with a `seen` set and a list it appends to, for the stop words `stop`. */
  method FilterWords(words: seq<string>, stop: set<string>) returns (filtered: seq<string>)
    ensures filtered == FilterFrom(words, stop, {})
  {
    filtered := [];
    var seen: set<string> := {};
    for i := 0 to |words|
      invariant filtered + FilterFrom(words[i..], stop, seen) == FilterFrom(words, stop, {})
    {
      var word := words[i];
      FilterFromStep(words, i, stop, seen);
      if word in stop {
        continue;
      }
      if word in seen {
        continue;
      }
      ghost var tail := FilterFrom(words[i + 1..], stop, seen + {word});
      assert (filtered + [word]) + tail == filtered + ([word] + tail);
      seen := seen + {word};
      filtered := filtered + [word];
    }
    assert words[|words|..] == [];
  }

  /** `_trim_keywords`. */
  function TrimKeywords(words: seq<string>, maxWords: nat): (r: seq<string>)
    ensures |r| <= |words| && r == words[..|r|]
    ensures 3 <= maxWords ==> |r| == if |words| <= maxWords then |words| else maxWords
  {
    if |words| <= maxWords then words
    else
      var trimmed := words[..maxWords];
      if |trimmed| >= 3 then trimmed else SliceTo(words, 3)
  }

  // ---------------------------------------------------------------------------
  // Hyphens, templates and the slug itself
  // ---------------------------------------------------------------------------

  predicate NoDoubleHyphen(s: string) {
    forall i :: 0 <= i < |s| - 1 ==> !(s[i] == '-' && s[i + 1] == '-')
  }

  lemma SubstringChars(s: string, r: string, k: int)
    requires Occurs(s, r, k)
    ensures forall i :: 0 <= i < |r| ==> r[i] in s
    ensures NoDoubleHyphen(s) ==> NoDoubleHyphen(r)
  {
    assert forall i :: 0 <= i < |r| ==> r[i] == s[k + i];
  }

  lemma SubstringFrom(s: string, squeezed: string, r: string, k: int)
    requires Occurs(squeezed, r, k)
    requires forall i :: 0 <= i < |squeezed| ==> squeezed[i] in s || squeezed[i] == '-'
    ensures forall i :: 0 <= i < |r| ==> r[i] in s || r[i] == '-'
  {
    assert forall i :: 0 <= i < |r| ==> r[i] == squeezed[k + i];
  }

  lemma SqueezedHyphens(s: string)
    ensures var squeezed := Squeeze(s, IsHyphen, '-');
      NoDoubleHyphen(squeezed) && forall i :: 0 <= i < |squeezed| ==> squeezed[i] in s || squeezed[i] == '-'
  {
    var squeezed := Squeeze(s, IsHyphen, '-');
    assert forall i :: 0 <= i < |squeezed| - 1 ==> !(IsHyphen(squeezed[i]) && IsHyphen(squeezed[i + 1]));
  }

  /** `_collapse_hyphens`: runs of hyphens become one, then edge hyphens go. */
  function CollapseHyphens(s: string): (r: string)
    ensures |r| <= |s|
    ensures NoDoubleHyphen(r)
    ensures r != [] ==> r[0] != '-' && r[|r| - 1] != '-'
    ensures forall i :: 0 <= i < |r| ==> r[i] in s || r[i] == '-'
    ensures Keep(r, Not(IsHyphen)) == Keep(s, Not(IsHyphen))
  {
    var squeezed := Squeeze(s, IsHyphen, '-');
    SqueezedHyphens(s);
    var r := Strip(squeezed, IsHyphen);
    SubstringChars(squeezed, r, LeadRun(squeezed, IsHyphen));
    SubstringFrom(s, squeezed, r, LeadRun(squeezed, IsHyphen));

    SqueezeKeepsOthers(s, IsHyphen, '-');
    StripKeepsOthers(squeezed, IsHyphen);
    r
  }

  const TEMPLATE_WORDS: seq<string> := ["article", "post", "page", "blog"]

  /** `slug` is `word`, a hyphen and one or more digits. */
  predicate MatchesTemplate(slug: string, word: string) {
    |slug| > |word| + 1 && slug[..|word|] == word && slug[|word|] == '-'
    && forall i :: |word| + 1 <= i < |slug| ==> IsAsciiDigit(slug[i])
  }

  /** `_looks_like_template`: `^(article|post|page|blog)-\d+$`. */
  predicate LooksLikeTemplate(slug: string) {
    exists w | w in TEMPLATE_WORDS :: MatchesTemplate(slug, w)
  }

  /** Each of the four words, a hyphen and one or more digits is a template slug. */
  lemma TemplateSlugsMatch(word: string, digits: string)
    requires word in TEMPLATE_WORDS
    requires digits != [] && forall i :: 0 <= i < |digits| ==> IsAsciiDigit(digits[i])
    ensures LooksLikeTemplate(word + "-" + digits)
  {
    var slug := word + "-" + digits;
    assert slug[..|word|] == word && slug[|word|] == '-';
    assert forall i :: |word| + 1 <= i < |slug| ==> slug[i] == digits[i - |word| - 1];
    assert MatchesTemplate(slug, word);
  }

  /** The shape `^[a-z0-9]+(-[a-z0-9]+)*$`, or empty. */
  predicate IsSlugShaped(s: string) {
    (forall i :: 0 <= i < |s| ==> IsAsciiLowerAlnum(s[i]) || s[i] == '-')
    && (s != [] ==> s[0] != '-' && s[|s| - 1] != '-')
    && NoDoubleHyphen(s)
  }

  lemma FallbackSlugIsValid()
    ensures IsSlugShaped(FALLBACK_SLUG) && !LooksLikeTemplate(FALLBACK_SLUG)
  {
    assert !MatchesTemplate(FALLBACK_SLUG, "article");
    assert !MatchesTemplate(FALLBACK_SLUG, "post");
    assert !MatchesTemplate(FALLBACK_SLUG, "page");
    assert !MatchesTemplate(FALLBACK_SLUG, "blog");
  }

  /**
   * The keywords of a token list: the filtered tokens, or all of them when
   * filtering leaves nothing, so a heading of stop words still gives a slug.
   */
  function Keywords(tokens: seq<string>): (r: seq<string>)
    ensures forall w :: w in r ==> w in tokens
    ensures r == [] <==> tokens == []
    ensures Filtered(tokens) != [] ==> r == Filtered(tokens)
  {
    var meaningful := Filtered(tokens);
    FilterFromEmptyIff(tokens, STOP_WORDS);
    assert meaningful != [] ==> meaningful[0] in meaningful;
    if meaningful == [] then tokens else meaningful
  }

  /** When some token is not a stop word no keyword is one; when all are, the tokens are kept unfiltered. */
  lemma KeywordsDropStopWords(tokens: seq<string>)
    ensures (exists i :: 0 <= i < |tokens| && tokens[i] !in STOP_WORDS) ==>
              forall i :: 0 <= i < |Keywords(tokens)| ==> Keywords(tokens)[i] !in STOP_WORDS
    ensures (forall i :: 0 <= i < |tokens| ==> tokens[i] in STOP_WORDS) ==> Keywords(tokens) == tokens
  {
    var meaningful := Filtered(tokens);
    FilterFromEmptyIff(tokens, STOP_WORDS);
    assert meaningful != [] ==> meaningful[0] in meaningful;
  }

  /** The words of a slug are non-empty runs of lower-case ASCII letters and digits. */
  predicate AreSlugWords(words: seq<string>) {
    forall i, j :: 0 <= i < |words| && 0 <= j < |words[i]| ==> IsAsciiLowerAlnum(words[i][j])
  }

  lemma KeywordsAreSlugWords(tokens: seq<string>)
    requires AreSlugWords(tokens)
    ensures AreSlugWords(TrimKeywords(Keywords(tokens), MAX_KEYWORDS))
  {
    var kw := Keywords(tokens);
    forall i, j | 0 <= i < |kw| && 0 <= j < |kw[i]| ensures IsAsciiLowerAlnum(kw[i][j]) {
      assert kw[i] in kw;
      var k :| 0 <= k < |tokens| && tokens[k] == kw[i];
    }
  }

  /** Joining slug words with hyphens and collapsing gives a well-shaped slug. */
  lemma JoinedSlugShaped(words: seq<string>)
    requires AreSlugWords(words)
    ensures IsSlugShaped(CollapseHyphens(JoinWith(words, "-")))
  {
    var p := c => IsAsciiLowerAlnum(c) || c == '-';
    JoinWithChars(words, "-", p);
    var joined := JoinWith(words, "-");
    assert forall c :: c in joined ==> p(c);
  }

  /** Non-empty slug words joined by hyphens already have the slug shape, and the join starts with the first word. */
  lemma {:induction false} JoinShaped(words: seq<string>)
    requires AreSlugWords(words) && forall i :: 0 <= i < |words| ==> words[i] != []
    decreases |words|
    ensures var j := JoinWith(words, "-");
      IsSlugShaped(j) && (words != [] ==> |words[0]| <= |j| && j[..|words[0]|] == words[0])
  {
    if |words| == 1 {
      assert JoinWith(words, "-") == words[0];
    } else if |words| > 1 {
      var w, rest := words[0], words[1..];
      assert forall i :: 0 <= i < |rest| ==> rest[i] == words[i + 1];
      JoinShaped(rest);
      var tail := JoinWith(rest, "-");
      var j := JoinWith(words, "-");
      assert j == w + "-" + tail;
      assert tail[0] == rest[0][0];
      forall i | 0 <= i < |j| ensures IsAsciiLowerAlnum(j[i]) || j[i] == '-' {
        if i < |w| {
          assert j[i] == w[i];
        } else if i > |w| {
          assert j[i] == tail[i - |w| - 1];
        }
      }
      forall i | 0 <= i < |j| - 1 ensures !(j[i] == '-' && j[i + 1] == '-') {
        if i < |w| {
          assert j[i] == w[i];
        } else if i > |w| {
          assert j[i] == tail[i - |w| - 1] && j[i + 1] == tail[i - |w|];
        } else {
          assert j[i + 1] == tail[0];
        }
      }
      assert j[0] == w[0] && j[|j| - 1] == tail[|tail| - 1];
      assert j[..|w|] == w;
    }
  }

  lemma CollapseSteps(s: string)
    ensures CollapseHyphens(s) == RStrip(LStrip(Squeeze(s, IsHyphen, '-'), IsHyphen), IsHyphen)
  {
    StripBothEnds(Squeeze(s, IsHyphen, '-'), IsHyphen);
  }

  /** On a text without `--` and without a leading hyphen, `_collapse_hyphens` only trims the end. */
  lemma CollapseIsRStrip(t: string)
    requires NoDoubleHyphen(t) && (t != [] ==> t[0] != '-')
    ensures CollapseHyphens(t) == RStrip(t, IsHyphen)
  {
    SqueezeUnchanged(t, IsHyphen, '-');
    CollapseSteps(t);
    assert LeadRun(t, IsHyphen) == 0;
    assert LStrip(t, IsHyphen) == t;
  }

  /** A text without `--` and without a leading hyphen loses only a trailing hyphen, if any, to `_collapse_hyphens`. */
  lemma CollapseTrailing(t: string)
    requires NoDoubleHyphen(t) && (t != [] ==> t[0] != '-')
    ensures var r := CollapseHyphens(t);
      r == t[..|r|] && |t| - 1 <= |r| && (t != [] && t[|t| - 1] != '-' ==> r == t)
    ensures t != [] && t[|t| - 1] == '-' ==> CollapseHyphens(t) == t[..|t| - 1]
  {
    CollapseIsRStrip(t);
    var tr := TrailRun(t, IsHyphen);
    if |t| >= 2 && t[|t| - 1] == '-' {
      var u := t[..|t| - 1];
      assert u[|u| - 1] == t[|t| - 2] != '-';
      assert TrailRun(u, IsHyphen) == 0;
      assert tr == 1;
    } else {
      assert tr == 0;
    }
    assert RStrip(t, IsHyphen) == t[..|t| - tr];
  }

  /** `_collapse_hyphens` leaves a well-shaped slug as it is. */
  lemma CollapseShaped(s: string)
    requires IsSlugShaped(s)
    ensures CollapseHyphens(s) == s
  {
    CollapseTrailing(s);
  }

  lemma CutSlugShaped(slug: string, maxLength: int)
    requires IsSlugShaped(slug)
    ensures IsSlugShaped(CollapseHyphens(SliceTo(slug, maxLength)))
  {
    var cut := SliceTo(slug, maxLength);
    assert forall c :: c in cut ==> IsAsciiLowerAlnum(c) || c == '-';
  }

  /** Cutting a well-shaped slug and collapsing again drops at most one trailing hyphen: a prefix remains. */
  lemma CutPrefix(slug: string, maxLength: int)
    requires IsSlugShaped(slug)
    ensures var t := SliceTo(slug, maxLength);
      var r := CollapseHyphens(t);
      r <= slug && |t| - 1 <= |r|
    ensures 0 < maxLength < |slug| ==>
              CollapseHyphens(slug[..maxLength])
              == if slug[maxLength - 1] == '-' then slug[..maxLength - 1] else slug[..maxLength]
  {
    var t := SliceTo(slug, maxLength);
    assert NoDoubleHyphen(t) && (t != [] ==> t[0] != '-') by {
      assert forall i :: 0 <= i < |t| ==> t[i] == slug[i];
    }
    CollapseTrailing(t);
    var r := CollapseHyphens(t);
    assert r == slug[..|r|];
    if 0 < maxLength < |slug| {
      assert t == slug[..maxLength];
      assert t[..|t| - 1] == slug[..maxLength - 1];
    }
  }

  /**
   * The length cap of `generate_slug`: a slug over `maxLength` is cut to it
   * and its hyphens collapsed again. A well-shaped slug keeps a well-shaped
   * prefix that loses at most one character besides the cut.
   */
  function CutSlug(slug: string, maxLength: int): (r: string)
    ensures |slug| <= maxLength ==> r == slug
    ensures 0 <= maxLength ==> |r| <= maxLength
    ensures IsSlugShaped(slug) ==> IsSlugShaped(r) && r <= slug
    ensures IsSlugShaped(slug) && 0 <= maxLength < |slug| ==> maxLength - 1 <= |r|
    ensures IsSlugShaped(slug) && 0 < maxLength < |slug| ==>
              r == if slug[maxLength - 1] == '-' then slug[..maxLength - 1] else slug[..maxLength]
  {
    if |slug| > maxLength then
      var cut := SliceTo(slug, maxLength);
      if IsSlugShaped(slug) then
        CutSlugShaped(slug, maxLength);
        CutPrefix(slug, maxLength);
        CollapseHyphens(cut)
      else CollapseHyphens(cut)
    else slug
  }

  /**
   * The keywords of a heading: the stop-word-filtered tokens of its
   * transliteration (all tokens when every one is a stop word), trimmed to
   * at most five non-empty `[a-z0-9]` words, taken from the front.
   */
  function SlugWords(text: string): (r: seq<string>)
    ensures AreSlugWords(r) && forall i :: 0 <= i < |r| ==> r[i] != []
    ensures var kw := Keywords(Tokenize(TransliterateUk(text)));
      |r| == (if |kw| <= MAX_KEYWORDS then |kw| else MAX_KEYWORDS) && r == kw[..|r|]
    ensures r == [] <==> Tokenize(TransliterateUk(text)) == []
  {
    var tokens := Tokenize(TransliterateUk(text));
    TrimmedKeywords(tokens);
    TrimKeywords(Keywords(tokens), MAX_KEYWORDS)
  }

  lemma TrimmedKeywords(tokens: seq<string>)
    requires forall i :: 0 <= i < |tokens| ==> tokens[i] != []
    requires AreSlugWords(tokens)
    ensures var r := TrimKeywords(Keywords(tokens), MAX_KEYWORDS);
      AreSlugWords(r) && (forall i :: 0 <= i < |r| ==> r[i] != []) && (r == [] <==> tokens == [])
  {
    KeywordsAreSlugWords(tokens);
    var meaningful := Keywords(tokens);
    assert forall i :: 0 <= i < |meaningful| ==> meaningful[i] in tokens;
  }

  /**
   * `generate_slug`: never empty, lower-case ASCII words joined by single
   * hyphens, never a template slug, and within `maxLength` unless it is the
   * fixed fallback. Any other slug is the front of the heading's keywords
   * joined by hyphens: all of it when that fits, and otherwise cut to the
   * budget, losing at most a trailing hyphen. The fallback is taken exactly
   * when the cut is empty or a template slug (or is the fallback itself).
   */
  function GenerateSlug(text: string, maxLength: int): (slug: string)
    ensures slug != []
    ensures IsSlugShaped(slug)
    ensures !LooksLikeTemplate(slug)
    ensures 0 <= maxLength && slug != FALLBACK_SLUG ==> |slug| <= maxLength
    ensures slug != FALLBACK_SLUG ==> slug <= JoinWith(SlugWords(text), "-")
    ensures var joined := JoinWith(SlugWords(text), "-");
      0 <= maxLength < |joined| && slug != FALLBACK_SLUG ==> maxLength - 1 <= |slug|
    ensures var joined := JoinWith(SlugWords(text), "-");
      |joined| <= maxLength && joined != [] && !LooksLikeTemplate(joined) ==> slug == joined
    ensures var cut := CutSlug(JoinWith(SlugWords(text), "-"), maxLength);
      slug == FALLBACK_SLUG <==> cut == [] || LooksLikeTemplate(cut) || cut == FALLBACK_SLUG
    ensures slug != FALLBACK_SLUG ==> slug == CutSlug(JoinWith(SlugWords(text), "-"), maxLength)
  {
    var meaningful := SlugWords(text);
    var slug := CollapseHyphens(JoinWith(meaningful, "-"));
    JoinShaped(meaningful);
    CollapseShaped(JoinWith(meaningful, "-"));
    var cut := CutSlug(slug, maxLength);
    FallbackSlugIsValid();
    // The source's final `slug or "ukrfix-article"` can no longer see an empty slug.
    if LooksLikeTemplate(cut) || cut == [] then FALLBACK_SLUG else cut
  }

  /** A heading whose characters all transliterate to spaces or nothing. */
  predicate IsBlankHeading(text: string) {
    forall i :: 0 <= i < |text| ==> ToLower(text[i]) !in UA_MAP && !IsAsciiLowerAlnum(ToLower(text[i]))
  }

  lemma {:induction false} BlankTransliteration(text: string)
    requires IsBlankHeading(text)
    decreases |text|
    ensures forall i :: 0 <= i < |Transliterate(text)| ==> Transliterate(text)[i] == ' '
  {
    if text != [] {
      BlankTransliteration(text[..|text| - 1]);
    }
  }

  /** A heading with no letter and no digit (`""`, `"---"`, `"?!"`) gets the fallback slug. */
  lemma BlankHeadingGetsFallback(text: string, maxLength: int)
    requires IsBlankHeading(text)
    ensures GenerateSlug(text, maxLength) == FALLBACK_SLUG
  {
    var t := TransliterateUk(text);
    BlankTransliteration(text);
    var cleaned := seq(|t|, i requires 0 <= i < |t| => CleanSlugChar(t[i]));
    RunsOfNone(Lower(cleaned), Not(IsSlugSeparator));
    assert Tokenize(t) == [];
  }

  // ---------------------------------------------------------------------------
  // First <h1> of an HTML document
  // ---------------------------------------------------------------------------

  /**
   * The inner HTML of `<h1[^>]*>(.*?)</h1>` (case-insensitive, dot matches
   * newlines). The leftmost match starts at the first `<h1`: a later opener
   * can only find its `>` and its `</h1>` further right, so if the first one
   * fails every later one fails too.
   */
  function H1Inner(html: string): (r: Option<string>)
    ensures !Contains(Lower(html), "<h1") ==> r.None?
  {
    var lower := Lower(html);
    match IndexOf(lower, "<h1")
    case None => None
    case Some(p) =>
      match IndexFrom(html, ">", p + 3)
      case None => None
      case Some(q) =>
        match IndexFrom(lower, "</h1>", q + 1)
        case None => None
        case Some(c) => Some(html[q + 1..c])
  }

  /**
   * No match of `<[^>]+>` is left: every `<` is followed at once by `>`, or
   * by no `>` at all.
   */
  predicate NoTag(s: string) {
    forall i :: 0 <= i < |s| && s[i] == '<' ==> (i + 1 < |s| && s[i + 1] == '>') || NoCloseAfter(s, i)
  }

  /** No `>` follows position `i`. */
  predicate NoCloseAfter(s: string, i: nat) {
    forall j :: i < j < |s| ==> s[j] != '>'
  }

  /** `re.sub(r"<[^>]+>", " ", s)`: each tag becomes one space. */
  function StripTags(s: string): (r: string)
    decreases |s|
    ensures |r| <= |s|
    ensures forall i :: 0 <= i < |r| ==> r[i] in s || r[i] == ' '
    ensures (forall i :: 0 <= i < |s| ==> s[i] != '<') ==> r == s
    ensures s != [] && s[0] != '<' ==> r != [] && r[0] == s[0]
    ensures NoTag(r)
  {
    if s == [] then []
    else if s[0] == '<' then
      match IndexFrom(s, ">", 1)
      case Some(k) =>
        if k >= 2 then
          var rest := StripTags(s[k + 1..]);
          NoTagAfter(' ', rest);
          " " + rest
        else
          var rest := StripTags(s[1..]);
          assert s[1] == '>';
          NoTagAfterBareOpen(rest);
          [s[0]] + rest
      case None =>
        var rest := StripTags(s[1..]);
        NoCloseCopied(s, rest);
        NoTagAfterBareOpen(rest);
        [s[0]] + rest
    else
      var rest := StripTags(s[1..]);
      NoTagAfter(s[0], rest);
      [s[0]] + rest
  }

  /** Characters copied from after the first one, where no `>` occurs, hold no `>`. */
  lemma NoCloseCopied(s: string, rest: string)
    requires s != [] && forall j :: 1 <= j ==> !Occurs(s, ">", j)
    requires forall i :: 0 <= i < |rest| ==> rest[i] in s[1..] || rest[i] == ' '
    ensures forall j :: 0 <= j < |rest| ==> rest[j] != '>'
  {
    forall j | 0 <= j < |rest| ensures rest[j] != '>' {
      if rest[j] != ' ' {
        var k :| 0 <= k < |s[1..]| && s[1..][k] == rest[j];
        assert !Occurs(s, ">", k + 1);
        assert s[k + 1..k + 2] == [s[k + 1]];
      }
    }
  }

  lemma NoTagAfter(c: char, rest: string)
    requires c != '<' && NoTag(rest)
    ensures NoTag([c] + rest)
  {
    var t := [c] + rest;
    forall i | 0 <= i < |t| && t[i] == '<'
      ensures (i + 1 < |t| && t[i + 1] == '>') || NoCloseAfter(t, i)
    {
      assert t[i] == rest[i - 1];
      assert forall j :: i < j < |t| ==> t[j] == rest[j - 1];
    }
  }

  lemma NoTagAfterBareOpen(rest: string)
    requires NoTag(rest)
    requires (rest != [] && rest[0] == '>') || forall j :: 0 <= j < |rest| ==> rest[j] != '>'
    ensures NoTag("<" + rest)
  {
    var t := "<" + rest;
    forall i | 0 <= i < |t| && t[i] == '<'
      ensures (i + 1 < |t| && t[i + 1] == '>') || NoCloseAfter(t, i)
    {
      if i > 0 {
        assert t[i] == rest[i - 1];
        assert forall j :: i < j < |t| ==> t[j] == rest[j - 1];
      } else {
        assert forall j :: 0 < j < |t| ==> t[j] == rest[j - 1];
      }
    }
  }

  /** A tag `<x>` with a non-empty `x` free of `>` becomes one space. */
  lemma StripTagsReplacesTag(x: string, s: string)
    requires x != [] && forall i :: 0 <= i < |x| ==> x[i] != '>'
    ensures StripTags("<" + x + ">" + s) == " " + StripTags(s)
  {
    var t := "<" + x + ">" + s;
    assert Occurs(t, ">", |x| + 1);
    forall j | 1 <= j < |x| + 1 ensures !Occurs(t, ">", j) {
      assert t[j] == x[j - 1];
    }
    assert t[|x| + 2..] == s;
  }

  /** A character other than `<` is copied. */
  lemma StripTagsCopies(c: char, s: string)
    requires c != '<'
    ensures StripTags([c] + s) == [c] + StripTags(s)
  {
    assert ([c] + s)[1..] == s;
  }

  /** A `<` that opens no tag (`<>`, or no `>` after it) is copied. */
  lemma StripTagsKeepsBareOpen(s: string)
    requires (s != [] && s[0] == '>') || forall i :: 0 <= i < |s| ==> s[i] != '>'
    ensures StripTags("<" + s) == "<" + StripTags(s)
  {
    BareOpenCloses(s);
    assert ("<" + s)[1..] == s;
  }

  /** After a bare `<`, the first `>` is the next character or there is none. */
  lemma BareOpenCloses(s: string)
    requires (s != [] && s[0] == '>') || forall i :: 0 <= i < |s| ==> s[i] != '>'
    ensures match IndexFrom("<" + s, ">", 1) case Some(k) => k == 1 case None => true
  {
    var t := "<" + s;
    if s != [] && s[0] == '>' {
      assert Occurs(t, ">", 1);
    } else {
      forall j | 1 <= j < |t| ensures t[j] != '>' {
        assert t[j] == s[j - 1];
      }
    }
  }



  /**
   * `extract_h1_text`: nothing for an empty document or one without an
   * `<h1`; otherwise the first heading's text with tags replaced by spaces,
   * whitespace collapsed and trimmed, and never empty.
   */
  function ExtractH1Text(html: string): (r: Option<string>)
    ensures html == [] ==> r.None?
    ensures !Contains(Lower(html), "<h1") ==> r.None?
    ensures r.Some? ==> r.value != [] && SingleSpaced(r.value)
    ensures r.Some? ==> !IsSpace(r.value[0]) && !IsSpace(r.value[|r.value| - 1])
    ensures r.Some? ==>
              && H1Inner(html).Some?
              && Keep(r.value, Not(IsSpace)) == Keep(StripTags(H1Inner(html).value), Not(IsSpace))
    ensures r.Some? ==> r.value == JoinWith(Runs(StripTags(H1Inner(html).value), Not(IsSpace)), " ")
    ensures r.Some? <==>
              && H1Inner(html).Some?
              && exists i :: 0 <= i < |StripTags(H1Inner(html).value)| && !IsSpace(StripTags(H1Inner(html).value)[i])
  {
    if html == [] then None
    else
      match H1Inner(html)
      case None => None
      case Some(inner) =>
        var text := CleanedHeading(StripTags(inner));
        if text == [] then None else Some(text)
  }

  /**
   * `re.sub(r"\s+", " ", text).strip()`: single spaces, no whitespace at
   * either end, and the same other characters in order; empty exactly when
   * the heading holds nothing but whitespace.
   */
  function CleanedHeading(s: string): (text: string)
    ensures SingleSpaced(text)
    ensures text != [] ==> !IsSpace(text[0]) && !IsSpace(text[|text| - 1])
    ensures Keep(text, Not(IsSpace)) == Keep(s, Not(IsSpace))
    ensures text == [] <==> forall i :: 0 <= i < |s| ==> IsSpace(s[i])
    ensures Runs(text, Not(IsSpace)) == Runs(s, Not(IsSpace))
    ensures text == JoinWith(Runs(s, Not(IsSpace)), " ")
  {
    var text := Strip(CollapseSpaces(s), IsSpace);
    CleanedShape(s, text);
    CleanedKeeps(s);
    CleanedEmpty(s);
    CleanedWords(s, text);
    text
  }

  /** Collapsing and trimming keep the words of `s.split()`, so the result is their space-join. */
  lemma CleanedWords(s: string, text: string)
    requires text == Strip(CollapseSpaces(s), IsSpace)
    ensures Runs(text, Not(IsSpace)) == Runs(s, Not(IsSpace))
    ensures text == JoinWith(Runs(s, Not(IsSpace)), " ")
  {
    RunsSqueeze(s, IsSpace, ' ', Not(IsSpace));
    RunsStrip(CollapseSpaces(s), IsSpace, Not(IsSpace));
    CleanedShape(s, text);
    JoinOfWords(text);
  }

  lemma CleanedShape(s: string, text: string)
    requires text == Strip(CollapseSpaces(s), IsSpace)
    ensures SingleSpaced(text)
    ensures text != [] ==> !IsSpace(text[0]) && !IsSpace(text[|text| - 1])
  {
    var collapsed := CollapseSpaces(s);
    SingleSpacedSub(collapsed, text, LeadRun(collapsed, IsSpace));
  }

  lemma CleanedKeeps(s: string)
    ensures Keep(Strip(CollapseSpaces(s), IsSpace), Not(IsSpace)) == Keep(s, Not(IsSpace))
  {
    SqueezeKeepsOthers(s, IsSpace, ' ');
    StripKeepsOthers(CollapseSpaces(s), IsSpace);
  }

  lemma CleanedEmpty(s: string)
    ensures Strip(CollapseSpaces(s), IsSpace) == [] <==> forall i :: 0 <= i < |s| ==> IsSpace(s[i])
  {
    var text := Strip(CollapseSpaces(s), IsSpace);
    CleanedKeeps(s);
    KeepEmpty(text, Not(IsSpace));
    KeepEmpty(s, Not(IsSpace));
    assert forall i :: 0 <= i < |s| ==> (Not(IsSpace)(s[i]) <==> !IsSpace(s[i]));
    assert forall i :: 0 <= i < |text| ==> (Not(IsSpace)(text[i]) <==> !IsSpace(text[i]));
  }
}
