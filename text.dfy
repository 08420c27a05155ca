/**
 * Character classes and the handful of Python `str` operations the bot's
 * content pipeline relies on: lower/upper casing, `isspace`, `\w`, `strip`,
 * `split`, `join`, `re.sub(r"X+", "x", ...)`, substring search and slicing
 * with possibly negative bounds.
 *
 * Unicode case mapping, `isspace` and `\w` are modelled for the characters
 * the bot deals with (ASCII and the Cyrillic block), one character to one
 * character.
 */
module Text {

  datatype Option<T> = None | Some(value: T)

  // ---------------------------------------------------------------------------
  // Character classes
  // ---------------------------------------------------------------------------

  /** `str.isspace()` for the ASCII controls and the Unicode space separators. */
  predicate IsSpace(c: char) {
    c == ' ' || c == '\t' || c == '\n' || c == '\r' || c == '\U{0B}' || c == '\U{0C}'
    || ('\U{1C}' <= c <= '\U{1F}') || c == '\U{85}' || c == '\U{A0}' || c == '\U{1680}'
    || ('\U{2000}' <= c <= '\U{200A}') || c == '\U{2028}' || c == '\U{2029}'
    || c == '\U{202F}' || c == '\U{205F}' || c == '\U{3000}'
  }

  /** The complement of a character class. */
  function Not(p: char -> bool): char -> bool { c => !p(c) }

  predicate IsAsciiDigit(c: char) { '0' <= c <= '9' }

  predicate IsAsciiLowerAlnum(c: char) { 'a' <= c <= 'z' || IsAsciiDigit(c) }

  predicate IsAsciiAlnum(c: char) { IsAsciiLowerAlnum(c) || 'A' <= c <= 'Z' }

  /** Cyrillic letters of the block U+0400..U+04FF (the sign U+0482 and the combining marks excluded). */
  predicate IsCyrillicLetter(c: char) {
    ('\U{400}' <= c <= '\U{481}') || ('\U{48A}' <= c <= '\U{4FF}')
  }

  /** Python's `\w`: letters, digits and the underscore. */
  predicate IsWordChar(c: char) { IsAsciiAlnum(c) || c == '_' || IsCyrillicLetter(c) }

  /** `str.lower()` on one character: ASCII and the Ukrainian/Russian alphabet. */
  function ToLower(c: char): (l: char)
    ensures IsSpace(c) ==> l == c
    ensures IsSpace(l) ==> IsSpace(c)
    ensures 'A' <= c <= 'Z' ==> l as int == c as int + 32
    ensures IsAsciiLowerAlnum(l) ==> IsAsciiAlnum(c)
  {
    if 'A' <= c <= 'Z' then (c as int + 32) as char
    else if '\U{410}' <= c <= '\U{42F}' then (c as int + 32) as char
    else if '\U{400}' <= c <= '\U{40F}' then (c as int + 80) as char
    else if c == '\U{490}' then '\U{491}'
    else c
  }

  /** `str.upper()` on one character, the inverse mapping of ToLower. */
  function ToUpper(c: char): (u: char)
    ensures IsSpace(c) <==> IsSpace(u)
  {
    if 'a' <= c <= 'z' then (c as int - 32) as char
    else if '\U{430}' <= c <= '\U{44F}' then (c as int - 32) as char
    else if '\U{450}' <= c <= '\U{45F}' then (c as int - 80) as char
    else if c == '\U{491}' then '\U{490}'
    else c
  }

  lemma ToLowerIdempotent(c: char)
    ensures ToLower(ToLower(c)) == ToLower(c)
  {
  }

  // ---------------------------------------------------------------------------
  // Whole-string maps and filters
  // ---------------------------------------------------------------------------

  /** `str.lower()`. */
  function Lower(s: string): (r: string)
    ensures |r| == |s|
    ensures forall i :: 0 <= i < |s| ==> r[i] == ToLower(s[i])
  {
    seq(|s|, i requires 0 <= i < |s| => ToLower(s[i]))
  }

  lemma LowerConcat(a: string, b: string)
    ensures Lower(a + b) == Lower(a) + Lower(b)
  {
    assert forall i :: 0 <= i < |a + b| ==> Lower(a + b)[i] == (Lower(a) + Lower(b))[i];
  }

  lemma LowerIdempotent(s: string)
    ensures Lower(Lower(s)) == Lower(s)
  {
    forall i | 0 <= i < |s| ensures Lower(Lower(s))[i] == Lower(s)[i] {
      ToLowerIdempotent(s[i]);
    }
  }

  /** The characters of `s` that satisfy `p`, in order. */
  function Keep(s: string, p: char -> bool): (r: string)
    decreases |s|
  {
    if s == [] then [] else (if p(s[0]) then [s[0]] else []) + Keep(s[1..], p)
  }

  lemma KeepConcat(a: string, b: string, p: char -> bool)
    ensures Keep(a + b, p) == Keep(a, p) + Keep(b, p)
  {
    if a != [] {
      assert (a + b)[0] == a[0] && (a + b)[1..] == a[1..] + b;
      KeepConcat(a[1..], b, p);
    } else {
      assert a + b == b;
    }
  }

  lemma {:induction false} KeepAllOrNone(s: string, p: char -> bool)
    decreases |s|
    ensures (forall i :: 0 <= i < |s| ==> p(s[i])) ==> Keep(s, p) == s
    ensures (forall i :: 0 <= i < |s| ==> !p(s[i])) ==> Keep(s, p) == []
  {
    if s != [] {
      KeepAllOrNone(s[1..], p);
      assert forall i :: 0 <= i < |s[1..]| ==> s[1..][i] == s[i + 1];
      assert s == [s[0]] + s[1..];
    }
  }

  /** Nothing is kept exactly when no character satisfies `p`. */
  lemma {:induction false} KeepEmpty(s: string, p: char -> bool)
    decreases |s|
    ensures Keep(s, p) == [] <==> forall i :: 0 <= i < |s| ==> !p(s[i])
  {
    if s != [] {
      KeepEmpty(s[1..], p);
      assert forall i :: 1 <= i < |s| ==> s[i] == s[1..][i - 1];
    }
  }

  /** Concatenation of a sequence of strings (`"".join(parts)`). */
  function Concat(parts: seq<string>): (r: string)
    decreases |parts|
  {
    if parts == [] then [] else parts[0] + Concat(parts[1..])
  }

  lemma ConcatAppend(a: seq<string>, b: seq<string>)
    ensures Concat(a + b) == Concat(a) + Concat(b)
  {
    if a != [] {
      assert (a + b)[0] == a[0] && (a + b)[1..] == a[1..] + b;
      ConcatAppend(a[1..], b);
    } else {
      assert a + b == b;
    }
  }

  // ---------------------------------------------------------------------------
  // Python slicing `s[:k]` and `s[k:]` with an arbitrary integer `k`
  // ---------------------------------------------------------------------------

  /** The index a Python slice bound `k` denotes in a sequence of length `n`. */
  function Clamp(n: nat, k: int): (r: nat)
    ensures r <= n
    ensures 0 <= k ==> r == (if k <= n then k else n)
    ensures k < 0 ==> r == (if n + k >= 0 then n + k else 0)
  {
    if k >= 0 then (if k <= n then k else n)
    else if n + k >= 0 then n + k
    else 0
  }

  function SliceTo<T>(s: seq<T>, k: int): seq<T> { s[..Clamp(|s|, k)] }

  function SliceFrom<T>(s: seq<T>, k: int): seq<T> { s[Clamp(|s|, k)..] }

  // ---------------------------------------------------------------------------
  // Substring search
  // ---------------------------------------------------------------------------

  /** `t` occurs in `s` at index `i`. */
  predicate Occurs(s: string, t: string, i: int) {
    0 <= i && i + |t| <= |s| && s[i..i + |t|] == t
  }

  /** The first index at or after `k` where `t` occurs in `s` (`s.find(t, k)`). */
  function IndexFrom(s: string, t: string, k: nat): (r: Option<nat>)
    decreases |s| - k
    ensures r.Some? ==> k <= r.value && Occurs(s, t, r.value)
    ensures r.Some? ==> forall j :: k <= j < r.value ==> !Occurs(s, t, j)
    ensures r.None? ==> forall j :: k <= j ==> !Occurs(s, t, j)
  {
    if k + |t| > |s| then None
    else if s[k..k + |t|] == t then Some(k)
    else IndexFrom(s, t, k + 1)
  }

  /** The first index where `t` occurs in `s`. */
  function IndexOf(s: string, t: string): Option<nat> { IndexFrom(s, t, 0) }

  /** Python's `t in s`. */
  predicate Contains(s: string, t: string)
    ensures Contains(s, t) <==> exists i :: Occurs(s, t, i)
  {
    IndexOf(s, t).Some?
  }

  /** `s.split(t, 1)` at an occurrence: what follows the index is `t` and the rest. */
  lemma SplitAtOccurrence(s: string, t: string, i: int)
    requires Occurs(s, t, i)
    ensures s[i..] == t + s[i + |t|..]
  {
    assert s[i..] == s[i..i + |t|] + s[i + |t|..];
  }

  /** A piece of a piece of `a` is a piece of `a`. */
  lemma OccursTrans(a: string, b: string, c: string, i: int, j: int)
    requires Occurs(a, b, i) && Occurs(b, c, j)
    ensures Occurs(a, c, i + j)
  {
    assert forall k :: 0 <= k < |c| ==> a[i + j + k] == b[j + k] == c[k];
  }

  lemma OccursWithin(a: string, b: string, c: string, t: string, i: int)
    requires Occurs(b, t, i)
    ensures Occurs(a + b + c, t, |a| + i)
  {
    assert (a + b + c)[|a| + i..|a| + i + |t|] == b[i..i + |t|];
  }

  lemma ContainsWithin(a: string, b: string, c: string, t: string)
    requires Contains(b, t)
    ensures Contains(a + b + c, t)
  {
    var i :| Occurs(b, t, i);
    OccursWithin(a, b, c, t, i);
  }

  lemma ContainsLower(s: string, t: string)
    requires Contains(s, t)
    ensures Contains(Lower(s), Lower(t))
  {
    var i :| Occurs(s, t, i);
    assert Lower(s)[i..i + |t|] == Lower(t);
    assert Occurs(Lower(s), Lower(t), i);
  }

  /** The last index of `c` in `s` (`s.rfind(c)`). */
  function LastIndexOfChar(s: string, c: char): (r: Option<nat>)
    decreases |s|
    ensures r.Some? ==> r.value < |s| && s[r.value] == c
    ensures r.Some? ==> forall j :: r.value < j < |s| ==> s[j] != c
    ensures r.None? ==> forall j :: 0 <= j < |s| ==> s[j] != c
  {
    if s == [] then None
    else if s[|s| - 1] == c then Some(|s| - 1)
    else LastIndexOfChar(s[..|s| - 1], c)
  }

  // ---------------------------------------------------------------------------
  // strip / lstrip / rstrip with a character class
  // ---------------------------------------------------------------------------

  /** Length of the longest prefix of `s` made of `p`-characters. */
  function LeadRun(s: string, p: char -> bool): (n: nat)
    decreases |s|
    ensures n <= |s|
    ensures forall i :: 0 <= i < n ==> p(s[i])
    ensures n < |s| ==> !p(s[n])
  {
    if s != [] && p(s[0]) then 1 + LeadRun(s[1..], p) else 0
  }

  /** Length of the longest suffix of `s` made of `p`-characters. */
  function TrailRun(s: string, p: char -> bool): (n: nat)
    decreases |s|
    ensures n <= |s|
    ensures forall i :: |s| - n <= i < |s| ==> p(s[i])
    ensures n < |s| ==> !p(s[|s| - 1 - n])
  {
    if s != [] && p(s[|s| - 1]) then 1 + TrailRun(s[..|s| - 1], p) else 0
  }

  lemma LeadRunConcat(a: string, b: string, p: char -> bool)
    requires forall i :: 0 <= i < |a| ==> p(a[i])
    ensures LeadRun(a + b, p) == |a| + LeadRun(b, p)
  {
    if a != [] {
      assert (a + b)[0] == a[0] && (a + b)[1..] == a[1..] + b;
      LeadRunConcat(a[1..], b, p);
    } else {
      assert a + b == b;
    }
  }

  /** `s.lstrip(chars)`. */
  function LStrip(s: string, p: char -> bool): (r: string)
    ensures r == s[LeadRun(s, p)..]
    ensures r != [] ==> !p(r[0])
  {
    s[LeadRun(s, p)..]
  }

  /** `s.rstrip(chars)`. */
  function RStrip(s: string, p: char -> bool): (r: string)
    ensures r == s[..|s| - TrailRun(s, p)]
    ensures r != [] ==> !p(r[|r| - 1])
  {
    s[..|s| - TrailRun(s, p)]
  }

  /** `s.strip(chars)`; the result is the substring of `s` that starts after its leading `p`-run. */
  function Strip(s: string, p: char -> bool): (r: string)
    ensures Occurs(s, r, LeadRun(s, p))
    ensures forall i :: LeadRun(s, p) + |r| <= i < |s| ==> p(s[i])
    ensures r != [] ==> !p(r[0]) && !p(r[|r| - 1])
    ensures r == [] <==> forall i :: 0 <= i < |s| ==> p(s[i])
  {
    var l := LStrip(s, p);
    var r := RStrip(l, p);
    assert s[LeadRun(s, p)..][..|r|] == r;
    assert forall i :: 0 <= i < |l| ==> l[i] == s[LeadRun(s, p) + i];
    r
  }

  /** `strip` is `lstrip` followed by `rstrip`. */
  lemma StripBothEnds(s: string, p: char -> bool)
    ensures Strip(s, p) == RStrip(LStrip(s, p), p)
  {
  }

  /** Once `s` holds a non-`p` character, what follows it does not change the leading run. */
  lemma {:induction false} LeadRunAppend(s: string, t: string, p: char -> bool)
    requires LeadRun(s, p) < |s|
    decreases |s|
    ensures LeadRun(s + t, p) == LeadRun(s, p)
  {
    assert (s + t)[0] == s[0];
    if p(s[0]) {
      assert (s + t)[1..] == s[1..] + t;
      LeadRunAppend(s[1..], t, p);
    }
  }

  lemma SplitLast<T>(s: seq<T>)
    requires s != []
    ensures s == s[..|s| - 1] + [s[|s| - 1]]
  {
  }

  lemma SliceFromAppend<T>(s: seq<T>, t: seq<T>, n: nat)
    requires n <= |s|
    ensures (s + t)[n..] == s[n..] + t
  {
  }

  lemma LStripAppend(s: string, t: string, p: char -> bool)
    requires LeadRun(s, p) < |s|
    ensures LStrip(s + t, p) == LStrip(s, p) + t
  {
    var n := LeadRun(s, p);
    LeadRunAppend(s, t, p);
    SliceFromAppend(s, t, n);
  }

  lemma LStripPrepend(c: char, s: string, p: char -> bool)
    requires p(c)
    ensures LStrip([c] + s, p) == LStrip(s, p)
  {
    assert ([c] + s)[1..] == s;
  }

  lemma RStripAppend(s: string, c: char, p: char -> bool)
    requires p(c)
    ensures RStrip(s + [c], p) == RStrip(s, p)
  {
    assert (s + [c])[..|s|] == s;
    assert TrailRun(s + [c], p) == 1 + TrailRun(s, p);
    assert (s + [c])[..|s| - TrailRun(s, p)] == s[..|s| - TrailRun(s, p)];
  }

  /** One more stripped character at each end does not change the stripped text. */
  lemma StripPadded(s: string, c: char, p: char -> bool)
    requires p(c)
    ensures Strip([c] + s + [c], p) == Strip(s, p)
  {
    assert [c] + s + [c] == [c] + (s + [c]);
    LStripPrepend(c, s + [c], p);
    if LeadRun(s, p) < |s| {
      LStripAppend(s, [c], p);
      RStripAppend(LStrip(s, p), c, p);
    } else {
      assert forall i :: 0 <= i < |[c] + s + [c]| ==> p(([c] + s + [c])[i]);
    }
  }

  lemma LStripKeepsOthers(s: string, p: char -> bool)
    ensures Keep(LStrip(s, p), Not(p)) == Keep(s, Not(p))
  {
    var a := LeadRun(s, p);
    assert s == s[..a] + s[a..];
    KeepConcat(s[..a], s[a..], Not(p));
    KeepAllOrNone(s[..a], Not(p));
  }

  lemma RStripKeepsOthers(s: string, p: char -> bool)
    ensures Keep(RStrip(s, p), Not(p)) == Keep(s, Not(p))
  {
    var b := |s| - TrailRun(s, p);
    assert s == s[..b] + s[b..];
    KeepConcat(s[..b], s[b..], Not(p));
    KeepAllOrNone(s[b..], Not(p));
  }

  /** Stripping removes only `p`-characters: every other character survives, in order. */
  lemma StripKeepsOthers(s: string, p: char -> bool)
    ensures Keep(Strip(s, p), Not(p)) == Keep(s, Not(p))
  {
    LStripKeepsOthers(s, p);
    RStripKeepsOthers(LStrip(s, p), p);
  }

  predicate IsSlash(c: char) { c == '/' }

  predicate IsHyphen(c: char) { c == '-' }

  // ---------------------------------------------------------------------------
  // re.sub(r"X+", x, s): every maximal run of p-characters becomes one `rep`
  // ---------------------------------------------------------------------------

  function Squeeze(s: string, p: char -> bool, rep: char): (r: string)
    requires p(rep)
    decreases |s|
    ensures |r| <= |s| && (r == [] <==> s == [])
    ensures s != [] ==> (p(r[0]) <==> p(s[0]))
    ensures forall i :: 0 <= i < |r| && p(r[i]) ==> r[i] == rep
    ensures forall i :: 0 <= i < |r| - 1 ==> !(p(r[i]) && p(r[i + 1]))
    ensures forall i :: 0 <= i < |r| ==> r[i] in s || r[i] == rep
  {
    if s == [] then []
    else if p(s[0]) then
      var n := LeadRun(s, p);
      var rest := Squeeze(s[n..], p, rep);
      assert forall i :: 0 <= i < |rest| ==> rest[i] in s[n..] || rest[i] == rep;
      [rep] + rest
    else
      var rest := Squeeze(s[1..], p, rep);
      assert forall i :: 0 <= i < |rest| ==> rest[i] in s[1..] || rest[i] == rep;
      [s[0]] + rest
  }

  /** Outside the runs, Squeeze keeps every character in order. */
  lemma {:induction false} SqueezeKeepsOthers(s: string, p: char -> bool, rep: char)
    requires p(rep)
    decreases |s|
    ensures Keep(Squeeze(s, p, rep), Not(p)) == Keep(s, Not(p))
  {
    var q := Not(p);
    if s != [] {
      if p(s[0]) {
        var n := LeadRun(s, p);
        SqueezeKeepsOthers(s[n..], p, rep);
        assert s == s[..n] + s[n..];
        KeepConcat(s[..n], s[n..], q);
        KeepAllOrNone(s[..n], q);
        KeepConcat([rep], Squeeze(s[n..], p, rep), q);
      } else {
        SqueezeKeepsOthers(s[1..], p, rep);
      }
    }
  }

  /** A text whose `p`-characters are single `rep`s is left as it is. */
  lemma {:induction false} SqueezeUnchanged(s: string, p: char -> bool, rep: char)
    requires p(rep)
    requires forall i :: 0 <= i < |s| && p(s[i]) ==> s[i] == rep
    requires forall i :: 0 <= i < |s| - 1 ==> !(p(s[i]) && p(s[i + 1]))
    decreases |s|
    ensures Squeeze(s, p, rep) == s
  {
    if s != [] {
      var t := s[1..];
      assert forall i :: 0 <= i < |t| ==> t[i] == s[i + 1];
      SqueezeUnchanged(t, p, rep);
      assert s == [s[0]] + t;
      if p(s[0]) {
        assert t != [] ==> !p(t[0]);
        SqueezeAfterSingle(t, p, rep);
      } else {
        SqueezeAfterOther(s[0], t, p, rep);
      }
    }
  }

  /** A lone `rep` followed by a non-`p` character or nothing stays as it is. */
  lemma SqueezeAfterSingle(t: string, p: char -> bool, rep: char)
    requires p(rep) && (t != [] ==> !p(t[0]))
    ensures Squeeze([rep] + t, p, rep) == [rep] + Squeeze(t, p, rep)
  {
    var s := [rep] + t;
    assert s[1..] == t;
    assert LeadRun(t, p) == 0;
    assert LeadRun(s, p) == 1;
  }

  /** A non-`p` character is copied as it is. */
  lemma SqueezeAfterOther(c: char, t: string, p: char -> bool, rep: char)
    requires p(rep) && !p(c)
    ensures Squeeze([c] + t, p, rep) == [c] + Squeeze(t, p, rep)
  {
    assert ([c] + t)[1..] == t;
  }

  /** Every whitespace character is a plain space and no two are adjacent. */
  predicate SingleSpaced(s: string) {
    (forall i :: 0 <= i < |s| && IsSpace(s[i]) ==> s[i] == ' ')
    && (forall i :: 0 <= i < |s| - 1 ==> !(IsSpace(s[i]) && IsSpace(s[i + 1])))
  }

  /** `re.sub(r"\s+", " ", s)`. */
  function CollapseSpaces(s: string): (r: string)
    ensures SingleSpaced(r)
    ensures |r| <= |s| && (r == [] <==> s == [])
  {
    Squeeze(s, IsSpace, ' ')
  }

  lemma SingleSpacedSub(s: string, r: string, k: int)
    requires SingleSpaced(s) && Occurs(s, r, k)
    ensures SingleSpaced(r)
  {
    assert forall i :: 0 <= i < |r| ==> r[i] == s[k + i];
  }

  // ---------------------------------------------------------------------------
  // Runs (split) and join
  // ---------------------------------------------------------------------------

  /**
   * The maximal runs of `keep`-characters of `s`, in order. With `keep` the
   * complement of a separator class this is `[p for p in re.split(sep+, s) if p]`;
   * with `Not(IsSpace)` it is `s.split()`; with a token class it is `re.findall(tok+, s)`.
   */
  function Runs(s: string, keep: char -> bool): (r: seq<string>)
    decreases |s|
    ensures forall i :: 0 <= i < |r| ==> r[i] != []
    ensures forall i, j :: 0 <= i < |r| && 0 <= j < |r[i]| ==> keep(r[i][j]) && r[i][j] in s
  {
    if s == [] then []
    else if !keep(s[0]) then
      var rest := Runs(s[1..], keep);
      assert forall i, j :: 0 <= i < |rest| && 0 <= j < |rest[i]| ==> rest[i][j] in s[1..];
      rest
    else
      var n := LeadRun(s, keep);
      var rest := Runs(s[n..], keep);
      assert forall i, j :: 0 <= i < |rest| && 0 <= j < |rest[i]| ==> rest[i][j] in s[n..];
      [s[..n]] + rest
  }

  /** The runs, put back together, are exactly the kept characters of `s` in order. */
  lemma {:induction false} RunsConcat(s: string, keep: char -> bool)
    decreases |s|
    ensures Concat(Runs(s, keep)) == Keep(s, keep)
  {
    if s != [] {
      if !keep(s[0]) {
        RunsConcat(s[1..], keep);
      } else {
        var n := LeadRun(s, keep);
        RunsConcat(s[n..], keep);
        assert s == s[..n] + s[n..];
        KeepConcat(s[..n], s[n..], keep);
        KeepAllOrNone(s[..n], keep);
      }
    }
  }

  /** `sep.join(parts)`. */
  function JoinWith(parts: seq<string>, sep: string): (r: string)
    decreases |parts|
  {
    if parts == [] then []
    else if |parts| == 1 then parts[0]
    else parts[0] + sep + JoinWith(parts[1..], sep)
  }

  /** Every character of a join comes from a part or from the separator. */
  lemma {:induction false} JoinWithChars(parts: seq<string>, sep: string, p: char -> bool)
    requires forall i, j :: 0 <= i < |parts| && 0 <= j < |parts[i]| ==> p(parts[i][j])
    requires forall j :: 0 <= j < |sep| ==> p(sep[j])
    decreases |parts|
    ensures forall k :: 0 <= k < |JoinWith(parts, sep)| ==> p(JoinWith(parts, sep)[k])
  {
    if |parts| > 1 {
      JoinWithChars(parts[1..], sep, p);
      var tail := JoinWith(parts[1..], sep);
      assert JoinWith(parts, sep) == parts[0] + sep + tail;
      forall k | 0 <= k < |JoinWith(parts, sep)| ensures p(JoinWith(parts, sep)[k]) {
        if k < |parts[0]| {
          assert JoinWith(parts, sep)[k] == parts[0][k];
        } else if k < |parts[0]| + |sep| {
          assert JoinWith(parts, sep)[k] == sep[k - |parts[0]|];
        } else {
          assert JoinWith(parts, sep)[k] == tail[k - |parts[0]| - |sep|];
        }
      }
    }
  }

  lemma RunsOfNone(s: string, keep: char -> bool)
    requires forall i :: 0 <= i < |s| ==> !keep(s[i])
    ensures Runs(s, keep) == []
  {
    if s != [] {
      RunsOfNone(s[1..], keep);
    }
  }

  /** Splitting a join on a separator that no part contains gives the parts back. */
  lemma {:induction false} RunsOfJoin(parts: seq<string>, sep: char, keep: char -> bool)
    requires !keep(sep)
    requires forall i :: 0 <= i < |parts| ==> parts[i] != []
    requires forall i, j :: 0 <= i < |parts| && 0 <= j < |parts[i]| ==> keep(parts[i][j])
    decreases |parts|
    ensures Runs(JoinWith(parts, [sep]), keep) == parts
  {
    if parts != [] {
      var w := parts[0];
      var tail := if |parts| == 1 then [] else [sep] + JoinWith(parts[1..], [sep]);
      assert JoinWith(parts, [sep]) == w + tail;
      RunsAfterRun(w, tail, keep);
      if |parts| > 1 {
        RunsOfJoin(parts[1..], sep, keep);
        assert tail[1..] == JoinWith(parts[1..], [sep]);
      }
    }
  }

  /** Characters that are not kept, in front of a text, do not change its runs. */
  lemma {:induction false} RunsSkipNone(a: string, s: string, keep: char -> bool)
    requires forall i :: 0 <= i < |a| ==> !keep(a[i])
    decreases |a|
    ensures Runs(a + s, keep) == Runs(s, keep)
  {
    if a != [] {
      assert (a + s)[0] == a[0] && (a + s)[1..] == a[1..] + s;
      RunsSkipNone(a[1..], s, keep);
    } else {
      assert a + s == s;
    }
  }

  /** Characters that are not kept, after a text, do not change its runs. */
  lemma {:induction false} RunsDropNone(s: string, c: string, keep: char -> bool)
    requires forall i :: 0 <= i < |c| ==> !keep(c[i])
    decreases |s|
    ensures Runs(s + c, keep) == Runs(s, keep)
  {
    if s == [] {
      assert s + c == c;
      RunsOfNone(c, keep);
    } else if !keep(s[0]) {
      assert (s + c)[0] == s[0] && (s + c)[1..] == s[1..] + c;
      RunsDropNone(s[1..], c, keep);
    } else {
      var n := LeadRun(s, keep);
      if n < |s| {
        RunsAfterRun(s[..n], s[n..], keep);
        assert s == s[..n] + s[n..];
        RunsAfterRun(s[..n], s[n..] + c, keep);
        assert s + c == s[..n] + (s[n..] + c);
        RunsDropNone(s[n..], c, keep);
      } else {
        assert forall i :: 0 <= i < |s| ==> keep(s[i]);
        RunsAfterRun(s, c, keep);
        RunsOfNone(c, keep);
        RunsAfterRun(s, [], keep);
        assert s + [] == s;
      }
    }
  }

  /** Stripping separators from the ends keeps the runs between them. */
  lemma RunsStrip(s: string, p: char -> bool, keep: char -> bool)
    requires forall c :: keep(c) == !p(c)
    ensures Runs(Strip(s, p), keep) == Runs(s, keep)
  {
    StripBothEnds(s, p);
    RunsLStrip(s, p, keep);
    RunsRStrip(LStrip(s, p), p, keep);
  }

  lemma RunsLStrip(s: string, p: char -> bool, keep: char -> bool)
    requires forall c :: keep(c) == !p(c)
    ensures Runs(LStrip(s, p), keep) == Runs(s, keep)
  {
    var a := LeadRun(s, p);
    assert s == s[..a] + s[a..];
    RunsSkipNone(s[..a], s[a..], keep);
  }

  lemma RunsRStrip(s: string, p: char -> bool, keep: char -> bool)
    requires forall c :: keep(c) == !p(c)
    ensures Runs(RStrip(s, p), keep) == Runs(s, keep)
  {
    var b := |s| - TrailRun(s, p);
    assert s == s[..b] + s[b..];
    RunsDropNone(s[..b], s[b..], keep);
  }

  /** A text without `p`-characters in front of another is copied by Squeeze as it is. */
  lemma {:induction false} SqueezeSkipOthers(a: string, s: string, p: char -> bool, rep: char)
    requires p(rep)
    requires forall i :: 0 <= i < |a| ==> !p(a[i])
    decreases |a|
    ensures Squeeze(a + s, p, rep) == a + Squeeze(s, p, rep)
  {
    if a != [] {
      var t, q := a[1..] + s, Squeeze(s, p, rep);
      assert Squeeze(t, p, rep) == a[1..] + q by {
        SqueezeSkipOthers(a[1..], s, p, rep);
      }
      assert Squeeze([a[0]] + t, p, rep) == [a[0]] + Squeeze(t, p, rep) by {
        SqueezeAfterOther(a[0], t, p, rep);
      }
      ConsSplit(a, s);
      ConsSplit(a, q);
    } else {
      assert a + s == s;
    }
  }

  lemma ConsSplit<T>(a: seq<T>, x: seq<T>)
    requires a != []
    ensures a + x == [a[0]] + (a[1..] + x)
  {
  }

  /** Squeezing the separator runs keeps the runs between them. */
  lemma {:induction false} RunsSqueeze(s: string, p: char -> bool, rep: char, keep: char -> bool)
    requires p(rep)
    requires forall c :: keep(c) == !p(c)
    decreases |s|
    ensures Runs(Squeeze(s, p, rep), keep) == Runs(s, keep)
  {
    if s != [] {
      if p(s[0]) {
        RunsSqueeze(s[LeadRun(s, p)..], p, rep, keep);
        RunsSqueezeSeparator(s, p, rep, keep);
      } else {
        RunsSqueeze(s[LeadRun(s, keep)..], p, rep, keep);
        RunsSqueezeWord(s, p, rep, keep);
      }
    }
  }

  /** A leading separator run becomes one `rep`, which no run contains. */
  lemma RunsSqueezeSeparator(s: string, p: char -> bool, rep: char, keep: char -> bool)
    requires p(rep)
    requires forall c :: keep(c) == !p(c)
    requires s != [] && p(s[0])
    requires Runs(Squeeze(s[LeadRun(s, p)..], p, rep), keep) == Runs(s[LeadRun(s, p)..], keep)
    ensures Runs(Squeeze(s, p, rep), keep) == Runs(s, keep)
  {
    var n := LeadRun(s, p);
    var rest := Squeeze(s[n..], p, rep);
    assert Runs(Squeeze(s, p, rep), keep) == Runs(rest, keep) by {
      assert Squeeze(s, p, rep) == [rep] + rest;
      RunsSkipNone([rep], rest, keep);
    }
    assert Runs(s, keep) == Runs(s[n..], keep) by {
      SplitAt(s, n);
      RunsSkipNone(s[..n], s[n..], keep);
    }
  }

  /** A leading word is copied by Squeeze and is the first run on both sides. */
  lemma RunsSqueezeWord(s: string, p: char -> bool, rep: char, keep: char -> bool)
    requires p(rep)
    requires forall c :: keep(c) == !p(c)
    requires s != [] && !p(s[0])
    requires Runs(Squeeze(s[LeadRun(s, keep)..], p, rep), keep) == Runs(s[LeadRun(s, keep)..], keep)
    ensures Runs(Squeeze(s, p, rep), keep) == Runs(s, keep)
  {
    var m := LeadRun(s, keep);
    var w, t := s[..m], s[m..];
    var q := Squeeze(t, p, rep);
    SplitAt(s, m);
    assert Squeeze(s, p, rep) == w + q by {
      SqueezeSkipOthers(w, t, p, rep);
    }
    assert Runs(s, keep) == [w] + Runs(t, keep) by {
      RunsAfterRun(w, t, keep);
    }
    assert Runs(w + q, keep) == [w] + Runs(q, keep) by {
      RunsAfterRun(w, q, keep);
    }
  }

  lemma SplitAt<T>(s: seq<T>, n: nat)
    requires n <= |s|
    ensures s == s[..n] + s[n..]
  {
  }

  /** A single-spaced text without edge whitespace is the space-join of its words. */
  lemma JoinOfWords(t: string)
    requires SingleSpaced(t)
    requires t != [] ==> !IsSpace(t[0]) && !IsSpace(t[|t| - 1])
    ensures t == JoinWith(Runs(t, Not(IsSpace)), " ")
  {
    JoinOfRuns(t, IsSpace, ' ', Not(IsSpace));
  }

  /** A text whose separators are single `rep`s, none at either end, is the `rep`-join of its runs. */
  lemma {:induction false} JoinOfRuns(t: string, p: char -> bool, rep: char, keep: char -> bool)
    requires forall c :: keep(c) == !p(c)
    requires forall i :: 0 <= i < |t| && p(t[i]) ==> t[i] == rep
    requires forall i :: 0 <= i < |t| - 1 ==> !(p(t[i]) && p(t[i + 1]))
    requires t != [] ==> !p(t[0]) && !p(t[|t| - 1])
    decreases |t|
    ensures t == JoinWith(Runs(t, keep), [rep])
  {
    if t != [] {
      var m := LeadRun(t, keep);
      if m == |t| {
        RunsAfterRun(t, [], keep);
        assert t + [] == t;
        assert Runs(t, keep) == [t];
      } else {
        var rest := t[m + 1..];
        RunsAfterSeparator(t, m, p, rep);
        JoinOfRuns(rest, p, rep, keep);
        JoinStep(t, m, rep, keep);
      }
    }
  }

  /** A first run, a separator, and a text that is the join of its runs make the join of all the runs. */
  lemma JoinStep(t: string, m: nat, rep: char, keep: char -> bool)
    requires 0 < m == LeadRun(t, keep) && m + 1 < |t| && t[m] == rep && keep(t[m + 1])
    requires t[m + 1..] == JoinWith(Runs(t[m + 1..], keep), [rep])
    ensures t == JoinWith(Runs(t, keep), [rep])
  {
    var w, rest := t[..m], t[m + 1..];
    var runs := Runs(rest, keep);
    assert Runs(t, keep) == [w] + runs by {
      RunsAtSeparator(t, m, keep);
    }
    assert runs != [] by {
      RunsNonEmpty(rest, keep);
    }
    assert JoinWith([w] + runs, [rep]) == w + [rep] + JoinWith(runs, [rep]) by {
      JoinCons(w, runs, [rep]);
    }
    assert w + [rep] + rest == t by {
      SplitAround(t, m);
    }
  }

  /** After a lone separator inside such a text comes another such text. */
  lemma RunsAfterSeparator(t: string, m: nat, p: char -> bool, rep: char)
    requires forall i :: 0 <= i < |t| && p(t[i]) ==> t[i] == rep
    requires forall i :: 0 <= i < |t| - 1 ==> !(p(t[i]) && p(t[i + 1]))
    requires t != [] && !p(t[|t| - 1])
    requires m < |t| && p(t[m])
    ensures t[m] == rep && m + 1 < |t|
    ensures var rest := t[m + 1..];
      && (forall i :: 0 <= i < |rest| && p(rest[i]) ==> rest[i] == rep)
      && (forall i :: 0 <= i < |rest| - 1 ==> !(p(rest[i]) && p(rest[i + 1])))
      && !p(rest[0]) && !p(rest[|rest| - 1])
  {
    var rest := t[m + 1..];
    assert forall i :: 0 <= i < |rest| ==> rest[i] == t[m + 1 + i];
  }

  /** The first run ends at the first separator; the runs of the rest follow. */
  lemma RunsAtSeparator(t: string, m: nat, keep: char -> bool)
    requires 0 < m == LeadRun(t, keep) && m < |t|
    ensures Runs(t, keep) == [t[..m]] + Runs(t[m + 1..], keep)
  {
    var rest := t[m + 1..];
    SplitAround(t, m);
    RunsAfterRun(t[..m], [t[m]] + rest, keep);
    RunsSkipNone([t[m]], rest, keep);
  }

  lemma RunsNonEmpty(s: string, keep: char -> bool)
    requires s != [] && keep(s[0])
    ensures Runs(s, keep) != []
  {
  }

  lemma SplitAround<T>(s: seq<T>, m: nat)
    requires m < |s|
    ensures s == s[..m] + ([s[m]] + s[m + 1..])
  {
  }

  /** Joining a part in front of a non-empty list puts one separator between them. */
  lemma JoinCons(w: string, parts: seq<string>, sep: string)
    requires parts != []
    ensures JoinWith([w] + parts, sep) == w + sep + JoinWith(parts, sep)
  {
    assert ([w] + parts)[1..] == parts;
  }

  /** A full run followed by a non-kept character (or nothing) is split off as the first run. */
  lemma RunsAfterRun(w: string, tail: string, keep: char -> bool)
    requires w != [] && forall i :: 0 <= i < |w| ==> keep(w[i])
    requires tail != [] ==> !keep(tail[0])
    ensures Runs(w + tail, keep) == [w] + Runs(tail, keep)
  {
    LeadRunConcat(w, tail, keep);
    assert LeadRun(tail, keep) == 0;
    var s := w + tail;
    assert s[0] == w[0];
    assert s[..|w|] == w && s[|w|..] == tail;
  }
}
