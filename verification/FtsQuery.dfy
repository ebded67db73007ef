/** Building an FTS5 MATCH string from a query, and reading one back. */
module FtsQuery {
  import opened Prelude
  import opened Text
  import opened Tokenizer

  const QUERY_TERMS: nat := 24

  /** `token.replace('"', "\"\"")` */
  function Escape(t: string): string {
    if t == "" then ""
    else (if t[0] == '\"' then "\"\"" else [t[0]]) + Escape(t[1..])
  }

  function Quote(t: string): string { "\"" + Escape(t) + "\"" }

  function Quoted(ts: seq<string>): seq<string> {
    seq(|ts|, i requires 0 <= i < |ts| => Quote(ts[i]))
  }

  /** `parts.join(" OR ")` */
  function Join(parts: seq<string>): string {
    if parts == [] then ""
    else if |parts| == 1 then parts[0]
    else parts[0] + " OR " + Join(parts[1..])
  }

  /** What `build_fts_query` returns for a query. */
  function FtsQueryOf(lower: string -> string, query: string): Option<string> {
    var ts := Terms(lower, query, QUERY_TERMS);
    if ts == [] then None else Some(Join(Quoted(ts)))
  }

  method BuildFtsQuery(lower: string -> string, query: string) returns (r: Option<string>)
    ensures r == FtsQueryOf(lower, query)
  {
    var tokens := TokenizeTerms(lower, query, QUERY_TERMS);
    var terms: seq<string> := [];
    for i := 0 to |tokens|
      invariant terms == Quoted(tokens[..i])
    {
      terms := terms + ["\"" + Escape(tokens[i]) + "\""];
    }
    assert tokens[..|tokens|] == tokens;
    r := if terms == [] then None else Some(Join(terms));
  }

  // ----- reading the string back -----

  datatype Literal = Literal(text: string, rest: string)

  /** Reads a string literal whose opening quote is already consumed; a doubled quote is one quote. FTS5 reads a
      C string, so a U+0000 ends the text and leaves the literal unterminated. */
  function ReadLiteral(s: string): Option<Literal> {
    if s == "" || s[0] == '\0' then None
    else if s[0] != '\"' then
      match ReadLiteral(s[1..])
      case None => None
      case Some(l) => Some(Literal([s[0]] + l.text, l.rest))
    else if |s| > 1 && s[1] == '\"' then
      match ReadLiteral(s[2..])
      case None => None
      case Some(l) => Some(Literal("\"" + l.text, l.rest))
    else Some(Literal("", s[1..]))
  }

  lemma {:induction false} LiteralShrinks(s: string)
    ensures ReadLiteral(s).Some? ==> |ReadLiteral(s).value.rest| < |s|
  {
    if s != "" && s[0] != '\0' {
      if s[0] != '\"' {
        LiteralShrinks(s[1..]);
      } else if |s| > 1 && s[1] == '\"' {
        LiteralShrinks(s[2..]);
      }
    }
  }

  /** Reads `"..." OR "..." OR ...` to the end of the string. */
  function ReadQuery(s: string): Option<seq<string>>
    decreases |s|
  {
    if s == "" || s[0] != '\"' then None
    else
      match ReadLiteral(s[1..])
      case None => None
      case Some(l) =>
        LiteralShrinks(s[1..]);
        if l.rest == "" then Some([l.text])
        else if |l.rest| > 4 && l.rest[..4] == " OR " then
          match ReadQuery(l.rest[4..])
          case None => None
          case Some(ts) => Some([l.text] + ts)
        else None
  }

  /** A quoted literal reads back as the token exactly when the token does not hold U+0000. */
  lemma {:induction false} LiteralRoundTrip(t: string, rest: string)
    requires rest == "" || rest[0] != '\"'
    ensures ReadLiteral(Escape(t) + "\"" + rest) == if '\0' in t then None else Some(Literal(t, rest))
  {
    var s := Escape(t) + "\"" + rest;
    if t == "" {
      assert s[1..] == rest;
    } else {
      var tail := Escape(t[1..]) + "\"" + rest;
      LiteralRoundTrip(t[1..], rest);
      assert [t[0]] + t[1..] == t;
      LiteralStep(t[0], tail);
      assert s == (if t[0] == '\"' then "\"\"" else [t[0]]) + tail;
    }
  }

  /** Reading one escaped character and then the rest of the literal. */
  lemma LiteralStep(c: char, tail: string)
    ensures ReadLiteral((if c == '\"' then "\"\"" else [c]) + tail) ==
            if c == '\0' || ReadLiteral(tail).None? then None
            else Some(Literal([c] + ReadLiteral(tail).value.text, ReadLiteral(tail).value.rest))
  {
    if c == '\"' {
      assert ("\"\"" + tail)[2..] == tail;
    } else {
      assert ([c] + tail)[1..] == tail;
    }
  }

  ghost predicate SomeNul(ts: seq<string>) { exists t :: t in ts && '\0' in t }

  /** Reading the last literal of a query. */
  lemma LastLiteral(t: string)
    ensures ReadQuery(Quote(t)) == if '\0' in t then None else Some([t])
  {
    LiteralRoundTrip(t, "");
    assert Quote(t)[1..] == Escape(t) + "\"" + "";
  }

  /** Reading the first literal of a query and then the rest. */
  lemma FirstLiteral(t: string, more: string)
    requires more != ""
    ensures ReadQuery(Quote(t) + " OR " + more) ==
            if '\0' in t || ReadQuery(more).None? then None else Some([t] + ReadQuery(more).value)
  {
    var s, tail := Quote(t) + " OR " + more, " OR " + more;
    LiteralRoundTrip(t, tail);
    assert s[0] == '\"' && s[1..] == Escape(t) + "\"" + tail;
    assert tail[..4] == " OR " && tail[4..] == more;
    AfterLiteral(s, t, more);
  }

  lemma AfterLiteral(s: string, t: string, more: string)
    requires more != "" && s != "" && s[0] == '\"'
    requires ReadLiteral(s[1..]) == if '\0' in t then None else Some(Literal(t, " OR " + more))
    requires (" OR " + more)[..4] == " OR " && (" OR " + more)[4..] == more
    ensures ReadQuery(s) == if '\0' in t || ReadQuery(more).None? then None else Some([t] + ReadQuery(more).value)
  {
  }

  lemma {:induction false} JoinRoundTrip(ts: seq<string>)
    requires ts != []
    ensures ReadQuery(Join(Quoted(ts))) == if SomeNul(ts) then None else Some(ts)
    ensures Join(Quoted(ts)) != ""
  {
    assert ts == [ts[0]] + ts[1..];
    if |ts| == 1 {
      LastLiteral(ts[0]);
      assert ts == [ts[0]];
      assert SomeNul([ts[0]]) <==> '\0' in ts[0];
    } else {
      assert Quoted(ts)[1..] == Quoted(ts[1..]);
      JoinRoundTrip(ts[1..]);
      FirstLiteral(ts[0], Join(Quoted(ts[1..])));
    }
  }

  /** FTS5 rejects the MATCH string of a query with a syntax error. */
  predicate MatchFails(lower: string -> string, query: string) {
    FtsQueryOf(lower, query).Some? && ReadQuery(FtsQueryOf(lower, query).value).None?
  }

  /**
   * An accepted query always gives a MATCH string, and reading it gives back exactly its first 24 terms, unless one
   * of them holds U+0000: then the string cannot be read.
   */
  lemma QueryRoundTrip(lower: string -> string, query: string)
    requires KeepsInk(lower)
    ensures FtsQueryOf(lower, query).None? <==> Trim(query) == ""
    ensures Trim(query) != "" ==>
              var ts := Terms(lower, query, 24);
              ReadQuery(FtsQueryOf(lower, query).value) == if SomeNul(ts) then None else Some(ts)
  {
    TermsEmptyIff(lower, query, QUERY_TERMS);
    if Trim(query) != "" {
      JoinRoundTrip(Terms(lower, query, QUERY_TERMS));
    }
  }

  // ----- which queries FTS5 cannot read -----

  lemma {:induction false} LowerWordMembers(s: string)
    ensures forall c | c in LowerWord(s) :: exists d | d in s :: c == AsciiLower(d)
  {
    if s != "" {
      LowerWordMembers(s[..|s| - 1]);
    }
  }

  /** A scanned piece is never the fallback text: it has no U+0000, whatever the text holds around it. */
  lemma {:induction false} TextsHaveNoNul(s: string, spans: seq<Span>)
    requires Within(s, spans)
    requires forall k | 0 <= k < |spans| :: IsTerm(s, spans[k].from, spans[k].to)
    ensures !SomeNul(Texts(s, spans))
  {
    if spans != [] {
      var word := s[spans[0].from..spans[0].to];
      LowerWordMembers(word);
      TextsHaveNoNul(s, spans[1..]);
      assert forall k | spans[0].from <= k < spans[0].to :: s[k] != '\0';
    }
  }

  lemma BigramsHaveNoNul(s: string)
    requires forall c | c in s :: c != '\0'
    ensures !SomeNul(Bigrams(s))
  {
    BigramsArePairs(s);
    forall t | t in Bigrams(s)
      ensures '\0' !in t
    {
      var i :| 0 <= i < |Bigrams(s)| && Bigrams(s)[i] == t;
      assert t == s[i..i + 2];
      assert forall k | 0 <= k < |t| :: t[k] == s[i + k] && s[i + k] in s;
    }
  }

  lemma PiecesHaveNoNul(s: string)
    ensures !SomeNul(Pieces(s, 0))
  {
    SpansNonEmpty(s);
    PiecesAreTexts(s, 0);
    TextsHaveNoNul(s, Spans(s, 0));
  }

  lemma ScannedHaveNoNul(s: string)
    ensures !SomeNul(Pieces(s, 0) + Bigrams(CjkChars(s)))
  {
    PiecesHaveNoNul(s);
    CjkCharsAreCjk(s);
    BigramsHaveNoNul(CjkChars(s));
  }

  /**
   * FTS5 rejects exactly the queries without a word character or CJK character whose trimmed lower-case form holds
   * U+0000: only such a query becomes a term as it stands.
   */
  lemma MatchFailsIff(lower: string -> string, query: string)
    requires KeepsInk(lower)
    ensures MatchFails(lower, query) <==>
              (forall c | c in query :: !IsWordChar(c) && !IsCjk(c)) && '\0' in lower(Trim(query))
  {
    var scanned, fallback := Pieces(query, 0) + Bigrams(CjkChars(query)), lower(Trim(query));
    var ts := Terms(lower, query, QUERY_TERMS);
    QueryRoundTrip(lower, query);
    PiecesExistIff(query);
    ScannedHaveNoNul(query);
    if forall c | c in query :: !IsWordChar(c) && !IsCjk(c) {
      CjkCharsAreCjk(query);
      BigramsArePairs(CjkChars(query));
      assert scanned == [];
      if fallback != "" {
        DistinctOne(fallback);
        assert ts == [fallback];
        assert SomeNul(ts) <==> '\0' in fallback;
      }
    } else {
      DistinctIsExact(scanned);
      TakeMembers(Distinct(scanned), QUERY_TERMS);
      assert !SomeNul(ts);
    }
  }

  lemma DistinctOne(t: string)
    requires t != ""
    ensures Distinct([t]) == [t]
  {
    assert [t][..0] == [];
  }
}
