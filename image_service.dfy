/**
 * Choosing the stock photo for an article from an already fetched result
 * list: the relevance score of a photo, the first best-scoring photo, the
 * preferred image size, and the keywords taken from the search query.
 */
module ImageService {
  import opened Text

  /** The size variants of a photo; a missing key is `None`. */
  datatype Sources = Sources(large: Option<string>, medium: Option<string>, large2x: Option<string>, original: Option<string>)

  /** A search result; a missing `alt` reads as "", missing dimensions as 0, missing `src` as no sources. */
  datatype Photo = Photo(alt: string, width: int, height: int, src: Sources)

  // ---------------------------------------------------------------------------
  // _score_photo
  // ---------------------------------------------------------------------------

  /** How many entries of `keywords` (repeats included) occur in `alt`. */
  function MatchCount(alt: string, keywords: seq<string>): (n: nat)
    decreases |keywords|
    ensures n <= |keywords|
    ensures n == |keywords| <==> forall i :: 0 <= i < |keywords| ==> Contains(alt, keywords[i])
    ensures n == 0 <==> forall i :: 0 <= i < |keywords| ==> !Contains(alt, keywords[i])
  {
    if keywords == [] then 0
    else
      var init := keywords[..|keywords| - 1];
      assert forall i :: 0 <= i < |init| ==> init[i] == keywords[i];
      MatchCount(alt, init) + (if Contains(alt, keywords[|keywords| - 1]) then 1 else 0)
  }

  lemma {:induction false} MatchCountConcat(alt: string, a: seq<string>, b: seq<string>)
    decreases |b|
    ensures MatchCount(alt, a + b) == MatchCount(alt, a) + MatchCount(alt, b)
  {
    if b == [] {
      assert a + b == a;
    } else {
      assert (a + b)[..|a + b| - 1] == a + b[..|b| - 1];
      assert (a + b)[|a + b| - 1] == b[|b| - 1];
      MatchCountConcat(alt, a, b[..|b| - 1]);
    }
  }

  /**
   * The score `_score_photo` gives: two points per keyword found in the
   * lower-cased alt text, one more when the photo is at least as wide as
   * it is high. The score is odd exactly for such landscape (or square,
   * or dimensionless) photos.
   */
  function PhotoScore(photo: Photo, keywords: seq<string>): int
  {
    2 * MatchCount(Lower(photo.alt), keywords) + (if photo.width >= photo.height then 1 else 0)
  }

  /** The score lies between 0 and `2 * len(keywords) + 1`; its parity is the orientation bonus. */
  lemma PhotoScoreBounds(photo: Photo, keywords: seq<string>)
    ensures 0 <= PhotoScore(photo, keywords) <= 2 * |keywords| + 1
    ensures PhotoScore(photo, keywords) % 2 == 1 <==> photo.width >= photo.height
    ensures PhotoScore(photo, keywords) / 2 == MatchCount(Lower(photo.alt), keywords)
  {
    var m := MatchCount(Lower(photo.alt), keywords);
    var b := if photo.width >= photo.height then 1 else 0;
    HalfAndParity(PhotoScore(photo, keywords), m, b);
  }

  lemma HalfAndParity(x: int, m: int, b: int)
    requires b == 0 || b == 1
    requires x == 2 * m + b
    ensures x % 2 == b && x / 2 == m
  {
  }

  /** `_score_photo`: the loop over the keywords, then the orientation bonus. */
  method ScorePhoto(photo: Photo, keywords: seq<string>) returns (score: int)
    ensures score == PhotoScore(photo, keywords)
  {
    score := 0;
    var alt := Lower(photo.alt);
    for i := 0 to |keywords|
      invariant score == 2 * MatchCount(alt, keywords[..i])
    {
      MatchCountStep(alt, keywords, i);
      if Contains(alt, keywords[i]) {
        score := score + 2;
      }
    }
    assert keywords[..|keywords|] == keywords;
    if photo.width >= photo.height {
      score := score + 1;
    }
  }

  /** One more keyword of the loop adds one match exactly when the alt text contains it. */
  lemma MatchCountStep(alt: string, keywords: seq<string>, i: nat)
    requires i < |keywords|
    ensures MatchCount(alt, keywords[..i + 1]) == MatchCount(alt, keywords[..i]) + (if Contains(alt, keywords[i]) then 1 else 0)
  {
    assert keywords[..i + 1][..i] == keywords[..i];
  }

  /** A keyword listed twice scores twice. */
  lemma RepeatedKeywordCountsTwice(photo: Photo, keywords: seq<string>, word: string)
    requires Contains(Lower(photo.alt), word)
    ensures PhotoScore(photo, keywords + [word, word]) == PhotoScore(photo, keywords) + 4
  {
    MatchCountConcat(Lower(photo.alt), keywords, [word, word]);
    assert [word, word][..1] == [word];
  }

  /** One more matched keyword outweighs the orientation bonus. */
  lemma KeywordsOutweighOrientation(p: Photo, q: Photo, keywords: seq<string>)
    requires MatchCount(Lower(p.alt), keywords) > MatchCount(Lower(q.alt), keywords)
    ensures PhotoScore(p, keywords) > PhotoScore(q, keywords)
  {
  }

  /** With as many matches, a landscape photo beats a portrait one. */
  lemma OrientationBreaksTies(p: Photo, q: Photo, keywords: seq<string>)
    requires MatchCount(Lower(p.alt), keywords) == MatchCount(Lower(q.alt), keywords)
    requires p.width >= p.height && q.width < q.height
    ensures PhotoScore(p, keywords) == PhotoScore(q, keywords) + 1
  {
  }

  // ---------------------------------------------------------------------------
  // The best photo and its preferred size
  // ---------------------------------------------------------------------------

  /** The key `max` compares, for every photo. */
  function Scores(photos: seq<Photo>, keywords: seq<string>): (r: seq<int>)
    ensures |r| == |photos|
    ensures forall j :: 0 <= j < |photos| ==> r[j] == PhotoScore(photos[j], keywords)
  {
    seq(|photos|, j requires 0 <= j < |photos| => PhotoScore(photos[j], keywords))
  }

  /**
   * The index `max` picks: a position of the highest key, the first such
   * one, since a later element replaces the current best only when its key
   * is strictly greater.
   */
  function FirstMaxIndex(keys: seq<int>): (i: nat)
    requires keys != []
    decreases |keys|
    ensures i < |keys|
    ensures forall j :: 0 <= j < |keys| ==> keys[j] <= keys[i]
    ensures forall j :: 0 <= j < i ==> keys[j] < keys[i]
  {
    if |keys| == 1 then 0
    else
      var init := keys[..|keys| - 1];
      var k := FirstMaxIndex(init);
      assert forall j :: 0 <= j < |init| ==> init[j] == keys[j];
      if keys[|keys| - 1] > keys[k] then |keys| - 1 else k
  }

  /** The position of `max(photos, key=score)`. */
  function BestIndex(photos: seq<Photo>, keywords: seq<string>): (i: nat)
    requires photos != []
    ensures i < |photos|
    ensures forall j :: 0 <= j < |photos| ==> PhotoScore(photos[j], keywords) <= PhotoScore(photos[i], keywords)
    ensures forall j :: 0 <= j < i ==> PhotoScore(photos[j], keywords) < PhotoScore(photos[i], keywords)
  {
    FirstMaxIndex(Scores(photos, keywords))
  }

  /** The best photo, or `None` for an empty result list. */
  function BestPhoto(photos: seq<Photo>, keywords: seq<string>): (r: Option<Photo>)
    ensures r.None? <==> photos == []
    ensures r.Some? ==> r.value in photos
    ensures r.Some? ==> forall q :: q in photos ==> PhotoScore(q, keywords) <= PhotoScore(r.value, keywords)
    ensures r.Some? ==>
              exists k :: 0 <= k < |photos| && r.value == photos[k] &&
                forall j :: 0 <= j < k ==> PhotoScore(photos[j], keywords) < PhotoScore(photos[k], keywords)
  {
    if photos == [] then None
    else
      var k := BestIndex(photos, keywords);
      assert photos[k] in photos;
      Some(photos[k])
  }

  /** A photo that scores strictly more than all others is the one chosen. */
  lemma UniqueBestIsChosen(photos: seq<Photo>, keywords: seq<string>, k: nat)
    requires k < |photos|
    requires forall j :: 0 <= j < |photos| && j != k ==> PhotoScore(photos[j], keywords) < PhotoScore(photos[k], keywords)
    ensures BestPhoto(photos, keywords) == Some(photos[k])
  {
  }

  /** Python truthiness of an optional string: present and not empty. */
  predicate Truthy(o: Option<string>) { o.Some? && o.value != "" }

  /** The sizes in order of preference: optimised sizes before the huge ones. */
  function Preference(src: Sources): seq<Option<string>>
  {
    [src.large, src.medium, src.large2x, src.original]
  }

  /**
   * `large or medium or large2x or original`: the first truthy size in
   * order of preference; when none is truthy, `original` as it is (absent
   * or empty).
   */
  function PreferredSource(src: Sources): (r: Option<string>)
    ensures exists i :: 0 <= i < 4 && r == Preference(src)[i] && forall j :: 0 <= j < i ==> !Truthy(Preference(src)[j])
    ensures Truthy(r) <==> exists i :: 0 <= i < 4 && Truthy(Preference(src)[i])
    ensures !Truthy(r) ==> r == src.original
  {
    var order := Preference(src);
    if Truthy(src.large) then
      assert order[0] == src.large;
      src.large
    else if Truthy(src.medium) then
      assert order[1] == src.medium;
      src.medium
    else if Truthy(src.large2x) then
      assert order[2] == src.large2x;
      src.large2x
    else
      assert order[3] == src.original;
      src.original
  }

  /**
   * The selection steps of `get_pexels_image` after the fetch: nothing for
   * an empty result list; otherwise the preferred size of the first
   * best-scoring photo.
   */
  function SelectImage(photos: seq<Photo>, keywords: seq<string>): (r: Option<string>)
    ensures photos == [] ==> r.None?
    ensures photos != [] ==>
      exists k :: 0 <= k < |photos| && r == PreferredSource(photos[k].src)
        && (forall j :: 0 <= j < |photos| ==> PhotoScore(photos[j], keywords) <= PhotoScore(photos[k], keywords))
        && (forall j :: 0 <= j < k ==> PhotoScore(photos[j], keywords) < PhotoScore(photos[k], keywords))
  {
    if photos == [] then None
    else
      var k := BestIndex(photos, keywords);
      PreferredSource(photos[k].src)
  }

  // ---------------------------------------------------------------------------
  // Search keywords
  // ---------------------------------------------------------------------------

  /** `[word.lower() for word in words if len(word) > 2]`. */
  function LongLowered(words: seq<string>): (r: seq<string>)
    decreases |words|
    ensures |r| <= |words|
    ensures forall i :: 0 <= i < |r| ==> |r[i]| > 2
  {
    if words == [] then []
    else (if |words[0]| > 2 then [Lower(words[0])] else []) + LongLowered(words[1..])
  }

  /** Keywords taken from whitespace-free words are whitespace-free. */
  lemma {:induction false} LongLoweredSpaceFree(words: seq<string>)
    requires forall i, j :: 0 <= i < |words| && 0 <= j < |words[i]| ==> !IsSpace(words[i][j])
    decreases |words|
    ensures forall i, j :: 0 <= i < |LongLowered(words)| && 0 <= j < |LongLowered(words)[i]| ==>
              !IsSpace(LongLowered(words)[i][j])
  {
    if words != [] {
      var head := if |words[0]| > 2 then [Lower(words[0])] else [];
      assert forall k :: 0 <= k < |words| - 1 ==> words[1..][k] == words[k + 1];
      LongLoweredSpaceFree(words[1..]);
      var rest := LongLowered(words[1..]);
      assert LongLowered(words) == head + rest;
      forall i, j | 0 <= i < |head + rest| && 0 <= j < |(head + rest)[i]| ensures !IsSpace((head + rest)[i][j]) {
        if i < |head| {
          assert !IsSpace(words[0][j]);
          assert (head + rest)[i][j] == ToLower(words[0][j]);
        } else {
          assert (head + rest)[i] == rest[i - |head|];
          assert !IsSpace(rest[i - |head|][j]);
        }
      }
    }
  }

  /** The position of the word that keyword `i` comes from: a long word, lower-cased. */
  function SourceIndex(words: seq<string>, i: nat): (k: nat)
    requires i < |LongLowered(words)|
    decreases |words|
    ensures k < |words| && |words[k]| > 2 && LongLowered(words)[i] == Lower(words[k])
  {
    var head := if |words[0]| > 2 then [Lower(words[0])] else [];
    assert LongLowered(words) == head + LongLowered(words[1..]);
    if i < |head| then 0
    else
      var k := SourceIndex(words[1..], i - |head|);
      assert words[1..][k] == words[k + 1];
      k + 1
  }

  /** There are no keywords exactly when no word is longer than two characters. */
  lemma {:induction false} LongLoweredEmpty(words: seq<string>)
    decreases |words|
    ensures LongLowered(words) == [] <==> forall k :: 0 <= k < |words| ==> |words[k]| <= 2
  {
    if words != [] {
      LongLoweredEmpty(words[1..]);
      assert forall k :: 0 <= k < |words| - 1 ==> words[1..][k] == words[k + 1];
    } else {
      assert LongLowered(words) == [];
    }
  }

  /**
   * The keywords of a word list are those of each part, one after the other;
   * with the one-word case this fixes the result: every word longer than two
   * characters, lower-cased, in order, and no other.
   */
  lemma {:induction false} LongLoweredConcat(a: seq<string>, b: seq<string>)
    decreases |a|
    ensures LongLowered(a + b) == LongLowered(a) + LongLowered(b)
  {
    if a == [] {
      assert a + b == b;
    } else {
      var head := if |a[0]| > 2 then [Lower(a[0])] else [];
      assert (a + b)[0] == a[0] && (a + b)[1..] == a[1..] + b;
      assert LongLowered(a + b) == head + LongLowered(a[1..] + b);
      LongLoweredConcat(a[1..], b);
      assert LongLowered(a) == head + LongLowered(a[1..]);
    }
  }

  /** One word gives itself lower-cased when longer than two characters, else nothing. */
  lemma LongLoweredSingle(w: string)
    ensures LongLowered([w]) == if |w| > 2 then [Lower(w)] else []
  {
    assert [w][1..] == [];
  }

  /** The pieces of `s` between runs of a backslash followed by one or more `s` (`re.split(r"\\s+", s)`). */
  function SplitBackslashS(s: string, acc: string): (r: seq<string>)
    decreases |s|
    ensures r != []
  {
    if s == [] then [acc]
    else if |s| >= 2 && s[0] == '\\' && s[1] == 's' then
      [acc] + SplitBackslashS(s[1 + LeadRun(s[1..], IsLetterS)..], "")
    else SplitBackslashS(s[1..], acc + [s[0]])
  }

  predicate IsLetterS(c: char) { c == 's' }

  /** The keywords as the code computes them: the query split on the two-character text `\s`. */
  function KeywordsAsWritten(query: string): (r: seq<string>)
    ensures forall i :: 0 <= i < |r| ==> |r[i]| > 2
  {
    LongLowered(SplitBackslashS(query, ""))
  }

  lemma {:induction false} SplitWithoutBackslash(s: string, acc: string)
    requires forall i :: 0 <= i < |s| ==> s[i] != '\\'
    decreases |s|
    ensures SplitBackslashS(s, acc) == [acc + s]
  {
    if s != [] {
      assert s[0] != '\\';
      assert forall i :: 0 <= i < |s| - 1 ==> s[1..][i] == s[i + 1];
      SplitWithoutBackslash(s[1..], acc + [s[0]]);
      assert s == [s[0]] + s[1..];
      assert acc + [s[0]] + s[1..] == acc + s;
    } else {
      assert acc + s == acc;
    }
  }

  /** As written, a query without a backslash is one keyword when longer than two characters. */
  lemma KeywordsAsWrittenIgnoreSpaces(query: string)
    requires forall i :: 0 <= i < |query| ==> query[i] != '\\'
    ensures KeywordsAsWritten(query) == if |query| > 2 then [Lower(query)] else []
  {
    SplitWithoutBackslash(query, "");
    assert "" + query == query;
  }

  /** The keywords as intended: the whitespace-separated words longer than two characters, lower-cased. */
  function Keywords(query: string): (r: seq<string>)
    ensures forall i :: 0 <= i < |r| ==> |r[i]| > 2
    ensures forall i, j :: 0 <= i < |r| && 0 <= j < |r[i]| ==> !IsSpace(r[i][j])
  {
    var words := Runs(query, Not(IsSpace));
    forall i, j | 0 <= i < |words| && 0 <= j < |words[i]| ensures !IsSpace(words[i][j]) {
      assert Not(IsSpace)(words[i][j]) == !IsSpace(words[i][j]);
    }
    LongLoweredSpaceFree(words);
    LongLowered(words)
  }

  /** A query of non-empty, whitespace-free words joined by single spaces has the keywords of that word list. */
  lemma KeywordsOfWords(words: seq<string>)
    requires forall i :: 0 <= i < |words| ==> words[i] != []
    requires forall i, j :: 0 <= i < |words| && 0 <= j < |words[i]| ==> !IsSpace(words[i][j])
    ensures Keywords(JoinWith(words, " ")) == LongLowered(words)
  {
    assert !Not(IsSpace)(' ');
    assert forall i, j :: 0 <= i < |words| && 0 <= j < |words[i]| ==> Not(IsSpace)(words[i][j]);
    RunsOfJoin(words, ' ', Not(IsSpace));
  }

  lemma LongLoweredAllLong(words: seq<string>)
    requires forall i :: 0 <= i < |words| ==> |words[i]| > 2
    ensures |LongLowered(words)| == |words|
    ensures forall i :: 0 <= i < |words| ==> LongLowered(words)[i] == Lower(words[i])
  {
    if words != [] {
      LongLoweredAllLong(words[1..]);
    }
  }

  /**
   * Two words separated by a space give two intended keywords, while the
   * code as written keeps the whole query as one keyword, which an alt text
   * rarely contains verbatim.
   */
  lemma TwoWordQuery(w1: string, w2: string)
    requires |w1| > 2 && |w2| > 2
    requires forall j :: 0 <= j < |w1| ==> !IsSpace(w1[j]) && w1[j] != '\\'
    requires forall j :: 0 <= j < |w2| ==> !IsSpace(w2[j]) && w2[j] != '\\'
    ensures Keywords(w1 + " " + w2) == [Lower(w1), Lower(w2)]
    ensures KeywordsAsWritten(w1 + " " + w2) == [Lower(w1 + " " + w2)]
  {
    TwoWordKeywords(w1, w2);
    NoBackslashInJoin(w1, w2);
    KeywordsAsWrittenIgnoreSpaces(w1 + " " + w2);
  }

  lemma TwoWordKeywords(w1: string, w2: string)
    requires |w1| > 2 && |w2| > 2
    requires forall j :: 0 <= j < |w1| ==> !IsSpace(w1[j])
    requires forall j :: 0 <= j < |w2| ==> !IsSpace(w2[j])
    ensures Keywords(w1 + " " + w2) == [Lower(w1), Lower(w2)]
  {
    assert JoinWith([w1, w2], " ") == w1 + " " + w2 by {
      assert [w1, w2][1..] == [w2];
    }
    RunsOfJoin([w1, w2], ' ', Not(IsSpace));
    LongLoweredAllLong([w1, w2]);
  }

  lemma NoBackslashInJoin(w1: string, w2: string)
    requires forall j :: 0 <= j < |w1| ==> w1[j] != '\\'
    requires forall j :: 0 <= j < |w2| ==> w2[j] != '\\'
    ensures forall i :: 0 <= i < |w1 + " " + w2| ==> (w1 + " " + w2)[i] != '\\'
  {
    var q := w1 + " " + w2;
    forall i | 0 <= i < |q| ensures q[i] != '\\' {
      if i < |w1| {
        assert q[i] == w1[i];
      } else if i > |w1| {
        assert q[i] == w2[i - |w1| - 1];
      }
    }
  }

  /** The choice of image for a search query, with the intended keywords. */
  function ImageForQuery(photos: seq<Photo>, query: string): Option<string>
  {
    SelectImage(photos, Keywords(query))
  }
}
