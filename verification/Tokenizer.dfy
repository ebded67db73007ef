/** The term scanner shared by the embedder, the FTS query builder and the lexical fallback. */
module Tokenizer {
  import opened Prelude
  import opened Text

  /** What is assumed of `str::to_lowercase`: it never empties a text. */
  ghost predicate KeepsInk(lower: string -> string) {
    forall s :: lower(s) == "" <==> s == ""
  }

  // ----- declarative form -----

  /** End of the word run that starts at `p`. */
  function RunEnd(s: string, p: nat): (e: nat)
    requires p <= |s|
    ensures p <= e <= |s|
    ensures forall k | p <= k < e :: IsWordChar(s[k])
    ensures e < |s| ==> !IsWordChar(s[e])
    decreases |s| - p
  {
    if p == |s| || !IsWordChar(s[p]) then p else RunEnd(s, p + 1)
  }

  datatype Span = Span(from: nat, to: nat)

  /** Term positions from `p` on: maximal word runs and single CJK characters, in text order. */
  function Spans(s: string, p: nat): seq<Span>
    requires p <= |s|
    decreases |s| - p
  {
    if p == |s| then []
    else if IsWordChar(s[p]) then var e := RunEnd(s, p + 1); [Span(p, e)] + Spans(s, e)
    else if IsCjk(s[p]) then [Span(p, p + 1)] + Spans(s, p + 1)
    else Spans(s, p + 1)
  }

  predicate Within(s: string, spans: seq<Span>) {
    forall k | 0 <= k < |spans| :: spans[k].from <= spans[k].to <= |s|
  }

  function Texts(s: string, spans: seq<Span>): (ts: seq<string>)
    requires Within(s, spans)
  {
    if spans == [] then []
    else [LowerWord(s[spans[0].from..spans[0].to])] + Texts(s, spans[1..])
  }

  function CjkChars(s: string): string {
    if s == "" then ""
    else CjkChars(s[..|s| - 1]) + if IsCjk(s[|s| - 1]) then [s[|s| - 1]] else ""
  }

  /** Adjacent pairs: `windows(2)`. */
  function Bigrams(c: string): seq<string> {
    if |c| < 2 then [] else Bigrams(c[..|c| - 1]) + [c[|c| - 2..]]
  }

  /** The texts of the term positions from `p` on; words lowered. */
  function Pieces(s: string, p: nat): seq<string>
    requires p <= |s|
    decreases |s| - p
  {
    if p == |s| then []
    else if IsWordChar(s[p]) then var e := RunEnd(s, p + 1); [LowerWord(s[p..e])] + Pieces(s, e)
    else if IsCjk(s[p]) then [[s[p]]] + Pieces(s, p + 1)
    else Pieces(s, p + 1)
  }

  /** Every term of a text, before duplicates are dropped. */
  function AllTokens(lower: string -> string, s: string): seq<string> {
    var scanned := Pieces(s, 0) + Bigrams(CjkChars(s));
    var fallback := lower(Trim(s));
    if scanned != [] then scanned else if fallback != "" then [fallback] else []
  }

  /** First occurrences of the non-empty tokens. */
  function Distinct(ts: seq<string>): seq<string> {
    if ts == [] then []
    else
      var d := Distinct(ts[..|ts| - 1]);
      var t := ts[|ts| - 1];
      if t == "" || t in d then d else d + [t]
  }

  /** The term list of a text: its first `maxTerms` distinct tokens. */
  function Terms(lower: string -> string, s: string, maxTerms: nat): seq<string> {
    Take(Distinct(AllTokens(lower, s)), maxTerms)
  }

  // ----- the scanner -----

  method TokenizeTerms(lower: string -> string, text: string, maxTerms: nat) returns (terms: seq<string>)
    ensures terms == Terms(lower, text, maxTerms)
  {
    if maxTerms == 0 {
      return [];
    }
    var tokens, cjkChars := ScanChars(text);
    var pairs := Windows(cjkChars);
    tokens := tokens + pairs;
    if tokens == [] {
      var fallback := lower(Trim(text));
      if fallback != "" {
        tokens := [fallback];
      }
    }
    terms := DedupePreserveOrder(tokens, maxTerms);
  }

  method Windows(cjkChars: string) returns (pairs: seq<string>)
    ensures pairs == Bigrams(cjkChars)
  {
    pairs := [];
    if |cjkChars| < 2 {
      return;
    }
    for w := 1 to |cjkChars|
      invariant pairs == Bigrams(cjkChars[..w])
    {
      var next := cjkChars[..w + 1];
      assert next[..w] == cjkChars[..w];
      assert next[w - 1..] == cjkChars[w - 1..w + 1];
      pairs := pairs + [cjkChars[w - 1..w + 1]];
    }
    assert cjkChars[..|cjkChars|] == cjkChars;
  }

  /** The character loop of `tokenize_terms`. */
  method ScanChars(text: string) returns (tokens: seq<string>, cjkChars: string)
    ensures tokens == Pieces(text, 0)
    ensures cjkChars == CjkChars(text)
  {
    tokens, cjkChars := [], "";
    var current: string := "";
    for i := 0 to |text|
      invariant Scanned(text, i, current, tokens)
      invariant cjkChars == CjkChars(text[..i])
    {
      CjkCharsStep(text, i);
      current, tokens := ScanChar(text, i, current, tokens);
      if IsCjk(text[i]) {
        cjkChars := cjkChars + [text[i]];
      }
    }
    if current != "" {
      FlushStep(text, |text|, current, tokens);
      tokens := tokens + [current];
    }
    assert text[..|text|] == text;
  }

  /** One round of the loop: extends the open word, or closes it and takes a CJK character as a token. */
  method ScanChar(text: string, i: nat, current: string, tokens: seq<string>)
    returns (current': string, tokens': seq<string>)
    requires i < |text| && Scanned(text, i, current, tokens)
    ensures Scanned(text, i + 1, current', tokens')
  {
    var ch := text[i];
    if IsWordChar(ch) {
      WordStep(text, i, current, tokens);
      return current + [AsciiLower(ch)], tokens;
    }
    current', tokens' := "", tokens;
    if current != "" {
      FlushStep(text, i, current, tokens);
      tokens' := tokens' + [current];
    }
    GapStep(text, i, tokens');
    if IsCjk(ch) {
      tokens' := tokens' + [[ch]];
    }
  }

  method DedupePreserveOrder(tokens: seq<string>, maxTerms: nat) returns (out: seq<string>)
    requires maxTerms > 0
    ensures out == Take(Distinct(tokens), maxTerms)
  {
    var seen: set<string> := {};
    out := [];
    for i := 0 to |tokens|
      invariant out == Distinct(tokens[..i]) && |out| < maxTerms
      invariant seen == set t | t in out
    {
      var token := tokens[i];
      assert tokens[..i + 1][..i] == tokens[..i];
      if token == "" {
        continue;
      }
      if token !in seen {
        seen := seen + {token};
        out := out + [token];
      }
      if |out| >= maxTerms {
        DistinctGrows(tokens, i + 1);
        return;
      }
    }
    assert tokens[..|tokens|] == tokens;
  }

  // ----- lemmas for the scanner -----

  lemma {:induction false} SpansWithin(s: string, p: nat)
    requires p <= |s|
    ensures Within(s, Spans(s, p))
    decreases |s| - p
  {
    if p < |s| {
      if IsWordChar(s[p]) {
        SpansWithin(s, RunEnd(s, p + 1));
      } else {
        SpansWithin(s, p + 1);
      }
    }
  }

  /** State of the scan before character `i`: `current` is the lowered open run, the rest is done. */
  ghost predicate Scanned(s: string, i: nat, current: string, tokens: seq<string>) {
    && |current| <= i <= |s|
    && current == LowerWord(s[i - |current|..i])
    && (forall k | i - |current| <= k < i :: IsWordChar(s[k]))
    && tokens + Pieces(s, i - |current|) == Pieces(s, 0)
  }

  lemma WordStep(s: string, i: nat, current: string, tokens: seq<string>)
    requires i < |s| && IsWordChar(s[i]) && Scanned(s, i, current, tokens)
    ensures Scanned(s, i + 1, current + [AsciiLower(s[i])], tokens)
  {
    var start := i - |current|;
    assert s[start..i + 1][..i - start] == s[start..i];
    assert i + 1 - |current + [AsciiLower(s[i])]| == start;
  }

  lemma Regroup(a: seq<string>, b: seq<string>, c: seq<string>)
    ensures a + b + c == a + (b + c)
  {
  }

  lemma FlushStep(s: string, i: nat, current: string, tokens: seq<string>)
    requires Scanned(s, i, current, tokens) && current != ""
    requires i == |s| || !IsWordChar(s[i])
    ensures Scanned(s, i, "", tokens + [current])
  {
    PiecesAtRun(s, i - |current|, i);
    Regroup(tokens, [current], Pieces(s, i));
    assert s[i..i] == "";
  }

  lemma GapStep(s: string, i: nat, tokens: seq<string>)
    requires i < |s| && !IsWordChar(s[i]) && Scanned(s, i, "", tokens)
    ensures Scanned(s, i + 1, "", tokens + if IsCjk(s[i]) then [[s[i]]] else [])
  {
    PiecesAtGap(s, i);
    Regroup(tokens, if IsCjk(s[i]) then [[s[i]]] else [], Pieces(s, i + 1));
  }

  lemma CjkCharsStep(s: string, i: nat)
    requires i < |s|
    ensures CjkChars(s[..i + 1]) == CjkChars(s[..i]) + if IsCjk(s[i]) then [s[i]] else ""
  {
    assert s[..i + 1][..i] == s[..i];
  }

  lemma PiecesAtRun(s: string, p: nat, e: nat)
    requires p < e <= |s|
    requires forall k | p <= k < e :: IsWordChar(s[k])
    requires e == |s| || !IsWordChar(s[e])
    ensures Pieces(s, p) == [LowerWord(s[p..e])] + Pieces(s, e)
  {
    assert RunEnd(s, p + 1) == e;
  }

  lemma PiecesAtGap(s: string, p: nat)
    requires p < |s| && !IsWordChar(s[p])
    ensures Pieces(s, p) == (if IsCjk(s[p]) then [[s[p]]] else []) + Pieces(s, p + 1)
  {
  }

  /** The pieces are the texts at the term positions. */
  lemma {:induction false} PiecesAreTexts(s: string, p: nat)
    requires p <= |s|
    ensures Within(s, Spans(s, p))
    ensures Pieces(s, p) == Texts(s, Spans(s, p))
    decreases |s| - p
  {
    SpansWithin(s, p);
    if p < |s| {
      var q := if IsWordChar(s[p]) then RunEnd(s, p + 1) else p + 1;
      PiecesAreTexts(s, q);
      if IsWordChar(s[p]) || IsCjk(s[p]) {
        assert Spans(s, p) == [Span(p, q)] + Spans(s, q);
        assert Spans(s, p)[1..] == Spans(s, q);
        LowerCjk(s[p]);
        assert s[p..p + 1] == [s[p]];
      }
    }
  }

  lemma LowerCjk(c: char)
    ensures IsCjk(c) ==> LowerWord([c]) == [c]
  {
    assert [c][..0] == "";
  }

  /** First occurrences in a prefix are a prefix of the first occurrences. */
  lemma {:induction false} DistinctGrows(ts: seq<string>, n: nat)
    requires n <= |ts|
    ensures Distinct(ts[..n]) <= Distinct(ts)
  {
    if n < |ts| {
      var t := ts[..|ts| - 1];
      assert t[..n] == ts[..n];
      DistinctGrows(t, n);
    } else {
      assert ts[..n] == ts;
    }
  }

  // ----- what the term list is -----

  /** A term position: a maximal run of word characters, or one CJK character. */
  ghost predicate IsTerm(s: string, i: nat, j: nat) {
    && i < j <= |s|
    && ((&& (forall k | i <= k < j :: IsWordChar(s[k]))
         && (i == 0 || !IsWordChar(s[i - 1]))
         && (j == |s| || !IsWordChar(s[j])))
        || (j == i + 1 && IsCjk(s[i])))
  }

  /** The scan meets every term position, no other, each once and in text order. */
  lemma {:induction false} SpansAreTheTerms(s: string, p: nat)
    requires p <= |s|
    requires p == 0 || !IsWordChar(s[p - 1]) || p == |s| || !IsWordChar(s[p])
    ensures forall k, m | 0 <= k < m < |Spans(s, p)| :: Spans(s, p)[k].to <= Spans(s, p)[m].from
    ensures forall k | 0 <= k < |Spans(s, p)| :: Spans(s, p)[k].from >= p
    ensures forall i, j :: Span(i, j) in Spans(s, p) <==> p <= i && IsTerm(s, i, j)
    decreases |s| - p
  {
    if p < |s| {
      var q := if IsWordChar(s[p]) then RunEnd(s, p + 1) else p + 1;
      SpansAreTheTerms(s, q);
      if IsWordChar(s[p]) {
        TermsInRun(s, p, q);
      } else {
        TermsAtGap(s, p);
      }
    }
  }

  lemma TermsInRun(s: string, p: nat, q: nat)
    requires p < q <= |s| && forall k | p <= k < q :: IsWordChar(s[k])
    requires p == 0 || !IsWordChar(s[p - 1])
    requires q == |s| || !IsWordChar(s[q])
    ensures forall i, j | p <= i < q :: IsTerm(s, i, j) <==> i == p && j == q
  {
    forall i, j | p <= i < q
      ensures IsTerm(s, i, j) <==> i == p && j == q
    {
      assert IsWordChar(s[i]) && !IsCjk(s[i]);
    }
  }

  lemma TermsAtGap(s: string, p: nat)
    requires p < |s| && !IsWordChar(s[p])
    ensures forall j :: IsTerm(s, p, j) <==> IsCjk(s[p]) && j == p + 1
  {
  }

  /** Duplicates and empty tokens are dropped, nothing else. */
  lemma {:induction false} DistinctIsExact(ts: seq<string>)
    ensures NoDuplicates(Distinct(ts))
    ensures forall t :: t in Distinct(ts) <==> t in ts && t != ""
  {
    if ts != [] {
      DistinctIsExact(ts[..|ts| - 1]);
      assert ts == ts[..|ts| - 1] + [ts[|ts| - 1]];
    }
  }

  /** A smaller bound gives a prefix. */
  lemma TermsPrefixMonotone(lower: string -> string, s: string, m: nat, n: nat)
    requires m <= n
    ensures Terms(lower, s, m) <= Terms(lower, s, n)
    ensures NoDuplicates(Terms(lower, s, n))
  {
    DistinctIsExact(AllTokens(lower, s));
  }

  lemma {:induction false} CjkCharsAreCjk(s: string)
    ensures forall c | c in CjkChars(s) :: c in s && IsCjk(c)
    ensures (forall c | c in s :: !IsCjk(c)) ==> CjkChars(s) == ""
  {
    if s != "" {
      CjkCharsAreCjk(s[..|s| - 1]);
    }
  }

  /** One bigram for each adjacent pair, in order. */
  lemma {:induction false} BigramsArePairs(c: string)
    ensures |Bigrams(c)| == if |c| < 2 then 0 else |c| - 1
    ensures forall i | 0 <= i < |Bigrams(c)| :: Bigrams(c)[i] == c[i..i + 2]
  {
    if |c| >= 2 {
      var front := c[..|c| - 1];
      BigramsArePairs(front);
      forall i | 0 <= i < |Bigrams(front)|
        ensures Bigrams(front)[i] == c[i..i + 2]
      {
        assert front[i..i + 2] == c[i..i + 2];
      }
    }
  }

  lemma {:induction false} TextsNonEmpty(s: string, spans: seq<Span>)
    requires Within(s, spans)
    requires forall k | 0 <= k < |spans| :: spans[k].from < spans[k].to
    ensures forall t | t in Texts(s, spans) :: t != ""
    ensures |Texts(s, spans)| == |spans|
  {
    if spans != [] {
      TextsNonEmpty(s, spans[1..]);
    }
  }

  lemma SpansNonEmpty(s: string)
    ensures Within(s, Spans(s, 0))
    ensures forall k | 0 <= k < |Spans(s, 0)| :: Spans(s, 0)[k].from < Spans(s, 0)[k].to
    ensures forall k | 0 <= k < |Spans(s, 0)| :: IsTerm(s, Spans(s, 0)[k].from, Spans(s, 0)[k].to)
  {
    SpansWithin(s, 0);
    SpansAreTheTerms(s, 0);
    forall k | 0 <= k < |Spans(s, 0)|
      ensures IsTerm(s, Spans(s, 0)[k].from, Spans(s, 0)[k].to)
    {
      var sp := Spans(s, 0)[k];
      assert Span(sp.from, sp.to) == sp && sp in Spans(s, 0);
    }
  }

  /** Scanning yields a piece exactly when the text holds a word character or a CJK character. */
  lemma PiecesExistIff(s: string)
    ensures Pieces(s, 0) != [] <==> exists c | c in s :: IsWordChar(c) || IsCjk(c)
  {
    SpansNonEmpty(s);
    PiecesAreTexts(s, 0);
    TextsNonEmpty(s, Spans(s, 0));
    if c :| c in s && (IsWordChar(c) || IsCjk(c)) {
      SomeSpan(s, c);
    }
    if Spans(s, 0) != [] {
      var sp := Spans(s, 0)[0];
      assert IsTerm(s, sp.from, sp.to);
      assert s[sp.from] in s;
    }
  }

  /** No token is ever empty, so `Distinct` only drops repetitions. */
  lemma TokensNonEmpty(lower: string -> string, s: string)
    ensures forall t | t in AllTokens(lower, s) :: t != ""
  {
    SpansNonEmpty(s);
    PiecesAreTexts(s, 0);
    TextsNonEmpty(s, Spans(s, 0));
    BigramsArePairs(CjkChars(s));
  }

  lemma SomeSpan(s: string, c: char)
    requires c in s && (IsWordChar(c) || IsCjk(c))
    ensures Spans(s, 0) != []
  {
    var i :| 0 <= i < |s| && s[i] == c;
    SpansAreTheTerms(s, 0);
    if IsCjk(c) {
      assert IsTerm(s, i, i + 1);
      assert Span(i, i + 1) in Spans(s, 0);
    } else {
      var a := i;
      while a > 0 && IsWordChar(s[a - 1])
        invariant 0 <= a <= i
        invariant forall k | a <= k <= i :: IsWordChar(s[k])
      {
        a := a - 1;
      }
      var e := RunEnd(s, i);
      assert IsTerm(s, a, e);
      assert Span(a, e) in Spans(s, 0);
    }
  }

  lemma AllTokensEmptyIff(lower: string -> string, s: string)
    requires KeepsInk(lower)
    ensures AllTokens(lower, s) == [] <==> Trim(s) == ""
  {
    TrimEmptyIff(s);
    PiecesExistIff(s);
    if Trim(s) == "" {
      CjkCharsAreCjk(s);
      BigramsArePairs(CjkChars(s));
    }
  }

  /** With room for a term, the list is empty exactly when the text trims to nothing. */
  lemma TermsEmptyIff(lower: string -> string, s: string, maxTerms: nat)
    requires KeepsInk(lower) && maxTerms > 0
    ensures Terms(lower, s, maxTerms) == [] <==> Trim(s) == ""
  {
    AllTokensEmptyIff(lower, s);
    TokensNonEmpty(lower, s);
    var all := AllTokens(lower, s);
    DistinctIsExact(all);
    assert all != [] ==> all[0] in all;
  }

  // ----- the term list over positions of the text -----

  /** Two CJK characters with no CJK character between them, other text aside. */
  ghost predicate IsPair(s: string, i: nat, j: nat) {
    i < j < |s| && IsCjk(s[i]) && IsCjk(s[j]) && forall k | i < k < j :: !IsCjk(s[k])
  }

  /** Every term position, in text order. */
  ghost predicate TermPositions(s: string, spans: seq<Span>) {
    && (forall k, m | 0 <= k < m < |spans| :: spans[k].to <= spans[m].from)
    && (forall i: nat, j: nat :: Span(i, j) in spans <==> IsTerm(s, i, j))
    && (forall k | 0 <= k < |spans| :: spans[k].from < spans[k].to <= |s|)
  }

  /** Every pair of neighbouring CJK characters, in text order. */
  ghost predicate PairPositions(s: string, pairs: seq<Span>) {
    && (forall k, m | 0 <= k < m < |pairs| :: pairs[k].from < pairs[m].from)
    && (forall i: nat, j: nat :: Span(i, j) in pairs <==> IsPair(s, i, j))
    && (forall k | 0 <= k < |pairs| :: pairs[k].from < pairs[k].to < |s|)
  }

  /** The lowered texts at term positions. */
  ghost predicate TextsOf(s: string, spans: seq<Span>, texts: seq<string>) {
    && |texts| == |spans|
    && forall k | 0 <= k < |spans| ::
         spans[k].from <= spans[k].to <= |s| && texts[k] == LowerWord(s[spans[k].from..spans[k].to])
  }

  /** The two characters of each pair. */
  ghost predicate TwosOf(s: string, pairs: seq<Span>, twos: seq<string>) {
    && |twos| == |pairs|
    && forall k | 0 <= k < |pairs| ::
         pairs[k].from < pairs[k].to < |s| && twos[k] == [s[pairs[k].from], s[pairs[k].to]]
  }

  /** What a text lists: the texts at its term positions, then its pairs; without both, its trimmed lower-case form. */
  ghost predicate Listed(lower: string -> string, s: string, tokens: seq<string>) {
    exists spans: seq<Span>, texts: seq<string>, pairs: seq<Span>, twos: seq<string> ::
      && TermPositions(s, spans) && TextsOf(s, spans, texts)
      && PairPositions(s, pairs) && TwosOf(s, pairs, twos)
      && tokens == if texts + twos != [] then texts + twos else if lower(Trim(s)) != "" then [lower(Trim(s))] else []
  }

  /** The places of the CJK characters of a text, in order. */
  ghost predicate CjkPlaces(s: string, c: string, at: seq<nat>) {
    && |at| == |c| && (forall k | 0 <= k < |at| :: at[k] < |s| && c[k] == s[at[k]])
    && (forall k, m | 0 <= k < m < |at| :: at[k] < at[m])
    && (forall i: nat :: i in at <==> i < |s| && IsCjk(s[i]))
  }

  lemma {:induction false} CjkPositions(s: string) returns (at: seq<nat>)
    ensures CjkPlaces(s, CjkChars(s), at)
  {
    at := [];
    if s != "" {
      at := CjkPositions(s[..|s| - 1]);
      CjkPlacesGrow(s, CjkChars(s[..|s| - 1]), at);
      if IsCjk(s[|s| - 1]) {
        at := at + [|s| - 1];
      }
    }
  }

  lemma CjkPlacesGrow(s: string, c: string, at: seq<nat>)
    requires s != "" && CjkPlaces(s[..|s| - 1], c, at)
    ensures CjkPlaces(s, c + if IsCjk(s[|s| - 1]) then [s[|s| - 1]] else "",
                      at + if IsCjk(s[|s| - 1]) then [|s| - 1] else [])
  {
    var n := |s| - 1;
    var after := at + if IsCjk(s[n]) then [n] else [];
    forall i: nat
      ensures i in after <==> i < |s| && IsCjk(s[i])
    {
      assert i in after <==> i in at || (i == n && IsCjk(s[n]));
    }
  }

  /** `i` and `j` stand next to each other in a list of positions. */
  ghost predicate Adjacent(at: seq<nat>, k: nat, i: nat, j: nat) {
    k + 1 < |at| && at[k] == i && at[k + 1] == j
  }

  lemma PairsOf(s: string) returns (pairs: seq<Span>)
    ensures PairPositions(s, pairs) && TwosOf(s, pairs, Bigrams(CjkChars(s)))
  {
    var at := CjkPositions(s);
    BigramsArePairs(CjkChars(s));
    pairs := AdjacentSpans(at);
    AdjacentArePairs(s, at, pairs);
    TwosAt(s, CjkChars(s), at, pairs, Bigrams(CjkChars(s)));
  }

  lemma {:induction false} AdjacentSpans(at: seq<nat>) returns (pairs: seq<Span>)
    ensures |pairs| == if |at| < 2 then 0 else |at| - 1
    ensures forall k | 0 <= k < |pairs| :: Adjacent(at, k, pairs[k].from, pairs[k].to)
  {
    pairs := [];
    if |at| >= 2 {
      var front := at[..|at| - 1];
      pairs := AdjacentSpans(front);
      assert forall k | 0 <= k < |pairs| :: Adjacent(front, k, pairs[k].from, pairs[k].to);
      pairs := pairs + [Span(at[|at| - 2], at[|at| - 1])];
    }
  }

  lemma TwosAt(s: string, c: string, at: seq<nat>, pairs: seq<Span>, twos: seq<string>)
    requires |at| == |c| && forall k | 0 <= k < |at| :: at[k] < |s| && c[k] == s[at[k]]
    requires |pairs| == |twos| == if |at| < 2 then 0 else |at| - 1
    requires forall k | 0 <= k < |pairs| :: Adjacent(at, k, pairs[k].from, pairs[k].to)
    requires forall k | 0 <= k < |twos| :: twos[k] == c[k..k + 2]
    requires PairPositions(s, pairs)
    ensures TwosOf(s, pairs, twos)
  {
    forall k | 0 <= k < |pairs|
      ensures pairs[k].from < pairs[k].to < |s| && twos[k] == [s[pairs[k].from], s[pairs[k].to]]
    {
      assert Adjacent(at, k, pairs[k].from, pairs[k].to);
      assert c[k + 1] == s[at[k + 1]];
      assert c[k..k + 2] == [c[k], c[k + 1]];
    }
  }

  /** Neighbours in the list of CJK positions are the pairs. */
  lemma AdjacentArePairs(s: string, at: seq<nat>, pairs: seq<Span>)
    requires forall k, m | 0 <= k < m < |at| :: at[k] < at[m]
    requires forall p: nat :: p in at <==> p < |s| && IsCjk(s[p])
    requires |pairs| == if |at| < 2 then 0 else |at| - 1
    requires forall k | 0 <= k < |pairs| :: Adjacent(at, k, pairs[k].from, pairs[k].to)
    ensures PairPositions(s, pairs)
  {
    forall i: nat, j: nat
      ensures Span(i, j) in pairs <==> IsPair(s, i, j)
    {
      AdjacentIsPair(s, at, i, j);
      if Span(i, j) in pairs {
        var k :| 0 <= k < |pairs| && pairs[k] == Span(i, j);
        assert Adjacent(at, k, i, j);
      }
      if k: nat :| Adjacent(at, k, i, j) {
        assert pairs[k] == Span(i, j);
      }
    }
    forall k | 0 <= k < |pairs|
      ensures pairs[k].from < pairs[k].to < |s|
    {
      assert Adjacent(at, k, pairs[k].from, pairs[k].to);
      assert at[k + 1] in at;
    }
    forall k, m | 0 <= k < m < |pairs|
      ensures pairs[k].from < pairs[m].from
    {
      assert Adjacent(at, k, pairs[k].from, pairs[k].to) && Adjacent(at, m, pairs[m].from, pairs[m].to);
    }
  }

  lemma AdjacentIsPair(s: string, at: seq<nat>, i: nat, j: nat)
    requires forall k, m | 0 <= k < m < |at| :: at[k] < at[m]
    requires forall p: nat :: p in at <==> p < |s| && IsCjk(s[p])
    ensures IsPair(s, i, j) <==> exists k: nat :: Adjacent(at, k, i, j)
  {
    if IsPair(s, i, j) {
      assert i in at && j in at;
      var k :| 0 <= k < |at| && at[k] == i;
      var m :| 0 <= m < |at| && at[m] == j;
      assert k < m;
      assert at[k + 1] in at;
      assert Adjacent(at, k, i, j);
    }
    if k: nat :| Adjacent(at, k, i, j) {
      assert i in at && j in at;
      forall p: nat | i < p < j
        ensures p !in at
      {
        assert forall q | 0 <= q < |at| :: at[q] <= i || j <= at[q];
      }
    }
  }

  lemma {:induction false} TextsAt(s: string, spans: seq<Span>)
    requires Within(s, spans)
    ensures TextsOf(s, spans, Texts(s, spans))
  {
    if spans != [] {
      TextsAt(s, spans[1..]);
    }
  }

  lemma SpansArePositions(s: string)
    ensures TermPositions(s, Spans(s, 0)) && TextsOf(s, Spans(s, 0), Pieces(s, 0))
  {
    SpansNonEmpty(s);
    SpansAreTheTerms(s, 0);
    PiecesAreTexts(s, 0);
    TextsAt(s, Spans(s, 0));
  }

  /** The tokens are what the positions of the text give, in the order of positions. */
  lemma TokensAreListed(lower: string -> string, s: string)
    ensures Listed(lower, s, AllTokens(lower, s))
  {
    var pairs := PairsOf(s);
    SpansArePositions(s);
  }

  /** The token at `j` stands nowhere before. */
  ghost predicate IsNew(ts: seq<string>, j: nat) { j < |ts| && ts[j] !in ts[..j] }

  /** The first `max` places at which a new token stands. */
  ghost predicate FirstPlaces(tokens: seq<string>, at: seq<nat>, max: nat) {
    && |at| <= max
    && (forall a, b | 0 <= a < b < |at| :: at[a] < at[b])
    && (forall b | 0 <= b < |at| :: IsNew(tokens, at[b]))
    && (forall j: nat | IsNew(tokens, j) && j !in at :: |at| == max && forall b | 0 <= b < |at| :: at[b] < j)
  }

  lemma {:induction false} DistinctPlaces(ts: seq<string>) returns (at: seq<nat>)
    requires "" !in ts
    ensures AllPlaces(ts, at) && ReadsAt(ts, at, Distinct(ts))
  {
    at := [];
    if ts != [] {
      var n := |ts| - 1;
      at := DistinctPlaces(ts[..n]);
      PlacesGrow(ts, at);
      DistinctIsExact(ts[..n]);
      ReadsMore(ts, at, Distinct(ts[..n]));
      assert ts[n] in ts;
      if ts[n] !in ts[..n] {
        at := at + [n];
      }
    }
  }

  ghost predicate ReadsAt(ts: seq<string>, at: seq<nat>, d: seq<string>) {
    |d| == |at| && forall b | 0 <= b < |at| :: at[b] < |ts| && d[b] == ts[at[b]]
  }

  lemma ReadsMore(ts: seq<string>, at: seq<nat>, d: seq<string>)
    requires ts != [] && ReadsAt(ts[..|ts| - 1], at, d)
    ensures ReadsAt(ts, at, d) && ReadsAt(ts, at + [|ts| - 1], d + [ts[|ts| - 1]])
  {
  }

  ghost predicate AllPlaces(ts: seq<string>, at: seq<nat>) {
    && (forall a, b | 0 <= a < b < |at| :: at[a] < at[b])
    && (forall j: nat :: j in at <==> IsNew(ts, j))
  }

  lemma NewInPrefix(ts: seq<string>, n: nat, j: nat)
    requires n + 1 == |ts|
    ensures IsNew(ts, j) <==> IsNew(ts[..n], j) || (j == n && ts[n] !in ts[..n])
  {
    assert j <= n ==> ts[..n][..j] == ts[..j];
  }

  lemma PlacesGrow(ts: seq<string>, at: seq<nat>)
    requires ts != [] && AllPlaces(ts[..|ts| - 1], at)
    ensures AllPlaces(ts, if ts[|ts| - 1] in ts[..|ts| - 1] then at else at + [|ts| - 1])
  {
    var n := |ts| - 1;
    forall j: nat
      ensures IsNew(ts, j) <==> IsNew(ts[..n], j) || (j == n && ts[n] !in ts[..n])
    {
      NewInPrefix(ts, n, j);
    }
    assert forall b | 0 <= b < |at| :: at[b] in at;
    if ts[n] !in ts[..n] {
      assert forall j: nat :: j in at + [n] <==> j in at || j == n;
    }
  }

  lemma TakePlaces(ts: seq<string>, at: seq<nat>, max: nat)
    requires AllPlaces(ts, at)
    ensures FirstPlaces(ts, Take(at, max), max)
  {
    var cut := Take(at, max);
    assert forall b | 0 <= b < |cut| :: cut[b] == at[b] && cut[b] in cut && at[b] in at;
    forall j: nat | IsNew(ts, j) && j !in cut
      ensures |cut| == max && forall b | 0 <= b < |cut| :: cut[b] < j
    {
      var q :| 0 <= q < |at| && at[q] == j;
      assert q >= |cut|;
    }
  }

  /**
   * What the term list of a text is, over its positions: among the lowered texts at the term positions, in text order,
   * followed by the pairs of neighbouring CJK characters, in text order, the first `max` that have not stood before;
   * for a text without positions, its trimmed lower-case form unless that is empty.
   */
  lemma TermsAreListed(lower: string -> string, s: string, max: nat) returns (tokens: seq<string>, at: seq<nat>)
    ensures Listed(lower, s, tokens) && FirstPlaces(tokens, at, max)
    ensures ReadsAt(tokens, at, Terms(lower, s, max))
  {
    tokens := AllTokens(lower, s);
    TokensAreListed(lower, s);
    TokensNonEmpty(lower, s);
    at := DistinctPlaces(tokens);
    TakePlaces(tokens, at, max);
    at := Take(at, max);
  }

  /**
   * Membership alone: with room for another term, `t` is a term exactly when it is the lowered text of a term position,
   * or the two characters of a pair, or the trimmed lower-case text when there is no term position.
   */
  lemma TermIff(lower: string -> string, s: string, max: nat, t: string)
    requires |Terms(lower, s, max)| < max
    ensures t in Terms(lower, s, max) <==>
              || (exists i: nat, j: nat :: IsTerm(s, i, j) && t == LowerWord(s[i..j]))
              || (exists i: nat, j: nat :: IsPair(s, i, j) && t == [s[i], s[j]])
              || ((forall i: nat, j: nat :: !IsTerm(s, i, j)) && t == lower(Trim(s)) && t != "")
  {
    TokensAreListed(lower, s);
    RoomForAll(lower, s, max, t);
    ListedMembers(lower, s, AllTokens(lower, s), t);
  }

  lemma RoomForAll(lower: string -> string, s: string, max: nat, t: string)
    requires |Terms(lower, s, max)| < max
    ensures t in Terms(lower, s, max) <==> t in AllTokens(lower, s)
  {
    TokensNonEmpty(lower, s);
    DistinctIsExact(AllTokens(lower, s));
  }

  lemma ListedMembers(lower: string -> string, s: string, tokens: seq<string>, t: string)
    requires Listed(lower, s, tokens)
    ensures t in tokens <==>
              || (exists i: nat, j: nat :: IsTerm(s, i, j) && t == LowerWord(s[i..j]))
              || (exists i: nat, j: nat :: IsPair(s, i, j) && t == [s[i], s[j]])
              || ((forall i: nat, j: nat :: !IsTerm(s, i, j)) && t == lower(Trim(s)) && t != "")
  {
    var spans: seq<Span>, texts: seq<string>, pairs: seq<Span>, twos: seq<string> :|
      && TermPositions(s, spans) && TextsOf(s, spans, texts)
      && PairPositions(s, pairs) && TwosOf(s, pairs, twos)
      && tokens == if texts + twos != [] then texts + twos else if lower(Trim(s)) != "" then [lower(Trim(s))] else [];
    TextMembers(s, spans, texts, t);
    PairMembers(s, pairs, twos, t);
    PositionsExistIff(s, spans, pairs);
  }

  /** A pair consists of two term positions, so that without term positions there are no pairs. */
  lemma PositionsExistIff(s: string, spans: seq<Span>, pairs: seq<Span>)
    requires TermPositions(s, spans) && PairPositions(s, pairs)
    ensures spans == [] <==> forall i: nat, j: nat :: !IsTerm(s, i, j)
    ensures spans == [] ==> pairs == []
    ensures spans == [] ==> forall i: nat, j: nat :: !IsPair(s, i, j)
  {
    if spans != [] {
      assert Span(spans[0].from, spans[0].to) in spans;
    }
    forall i: nat, j: nat
      ensures IsPair(s, i, j) ==> spans != []
    {
      assert IsPair(s, i, j) ==> IsTerm(s, i, i + 1) && Span(i, i + 1) in spans;
    }
    if pairs != [] {
      assert Span(pairs[0].from, pairs[0].to) in pairs && IsPair(s, pairs[0].from, pairs[0].to);
    }
  }

  lemma TextMembers(s: string, spans: seq<Span>, texts: seq<string>, t: string)
    requires TermPositions(s, spans) && TextsOf(s, spans, texts)
    ensures t in texts <==> exists i: nat, j: nat :: IsTerm(s, i, j) && t == LowerWord(s[i..j])
  {
    if t in texts {
      var k :| 0 <= k < |texts| && texts[k] == t;
      assert Span(spans[k].from, spans[k].to) in spans && IsTerm(s, spans[k].from, spans[k].to);
    }
    if i: nat, j: nat :| IsTerm(s, i, j) && t == LowerWord(s[i..j]) {
      assert Span(i, j) in spans;
      var k :| 0 <= k < |spans| && spans[k] == Span(i, j);
      assert texts[k] == t;
    }
  }

  lemma PairMembers(s: string, pairs: seq<Span>, twos: seq<string>, t: string)
    requires PairPositions(s, pairs) && TwosOf(s, pairs, twos)
    ensures t in twos <==> exists i: nat, j: nat :: IsPair(s, i, j) && t == [s[i], s[j]]
  {
    if t in twos {
      var k :| 0 <= k < |twos| && twos[k] == t;
      assert Span(pairs[k].from, pairs[k].to) in pairs && IsPair(s, pairs[k].from, pairs[k].to);
    }
    if i: nat, j: nat :| IsPair(s, i, j) && t == [s[i], s[j]] {
      assert Span(i, j) in pairs;
      var k :| 0 <= k < |pairs| && pairs[k] == Span(i, j);
      assert twos[k] == t;
    }
  }
}
