/** Characters as the tokenizer and the trimming checks see them. A `char` is a Unicode scalar value. */
module Text {

  /** Unicode White_Space, the class that `str::trim` strips. */
  predicate IsWhitespace(c: char) {
    var u := c as int;
    0x09 <= u <= 0x0D || u == 0x20 || u == 0x85 || u == 0xA0 || u == 0x1680 || 0x2000 <= u <= 0x200A ||
    u == 0x2028 || u == 0x2029 || u == 0x202F || u == 0x205F || u == 0x3000
  }

  predicate IsWordChar(c: char) {
    'a' <= c <= 'z' || 'A' <= c <= 'Z' || '0' <= c <= '9' || c == '_' || c == '-'
  }

  predicate IsCjk(c: char) {
    var u := c as int;
    0x3400 <= u <= 0x4DBF || 0x4E00 <= u <= 0x9FFF || 0xF900 <= u <= 0xFAFF || 0x20000 <= u <= 0x2A6DF ||
    0x2A700 <= u <= 0x2B73F || 0x2B740 <= u <= 0x2B81F || 0x2B820 <= u <= 0x2CEAF || 0x2F800 <= u <= 0x2FA1F
  }

  function AsciiLower(c: char): char {
    if 'A' <= c <= 'Z' then (c as int + 32) as char else c
  }

  function LowerWord(s: string): (w: string)
    ensures |w| == |s|
  {
    if s == "" then "" else LowerWord(s[..|s| - 1]) + [AsciiLower(s[|s| - 1])]
  }

  function TrimStart(s: string): string {
    if s != "" && IsWhitespace(s[0]) then TrimStart(s[1..]) else s
  }

  function TrimEnd(s: string): string {
    if s != "" && IsWhitespace(s[|s| - 1]) then TrimEnd(s[..|s| - 1]) else s
  }

  function Trim(s: string): string { TrimEnd(TrimStart(s)) }

  /** Number of bytes of one character in UTF-8, and of a text: what `str::len` counts. */
  function Utf8Width(c: char): nat {
    var u := c as int;
    if u < 0x80 then 1 else if u < 0x800 then 2 else if u < 0x1_0000 then 3 else 4
  }

  function Utf8Len(s: string): nat {
    if s == "" then 0 else Utf8Width(s[0]) + Utf8Len(s[1..])
  }

  /** A text trims to nothing exactly when every character of it is white space. */
  lemma {:induction false} TrimEmptyIff(s: string)
    ensures Trim(s) == "" <==> forall c | c in s :: IsWhitespace(c)
  {
    TrimStartKeepsInk(s);
    TrimEndKeepsInk(TrimStart(s));
  }

  lemma {:induction false} TrimStartKeepsInk(s: string)
    ensures (forall c | c in s :: IsWhitespace(c)) <==> (forall c | c in TrimStart(s) :: IsWhitespace(c))
    ensures TrimStart(s) != "" ==> !IsWhitespace(TrimStart(s)[0])
  {
    if s != "" && IsWhitespace(s[0]) {
      TrimStartKeepsInk(s[1..]);
      assert s == [s[0]] + s[1..];
    }
  }

  lemma {:induction false} TrimEndKeepsInk(s: string)
    ensures TrimEnd(s) == "" <==> forall c | c in s :: IsWhitespace(c)
  {
    if s != "" && IsWhitespace(s[|s| - 1]) {
      TrimEndKeepsInk(s[..|s| - 1]);
      assert s == s[..|s| - 1] + [s[|s| - 1]];
    }
  }

  lemma {:induction false} TrimStartCuts(s: string) returns (n: nat)
    ensures n <= |s| && TrimStart(s) == s[n..] && forall k | 0 <= k < n :: IsWhitespace(s[k])
  {
    n := 0;
    if s != "" && IsWhitespace(s[0]) {
      var m := TrimStartCuts(s[1..]);
      n := m + 1;
      assert s[1..][m..] == s[n..];
      assert forall k | 1 <= k < n :: s[k] == s[1..][k - 1];
    }
  }

  lemma {:induction false} TrimEndCuts(s: string) returns (n: nat)
    ensures n <= |s| && TrimEnd(s) == s[..n] && forall k | n <= k < |s| :: IsWhitespace(s[k])
    ensures n > 0 ==> !IsWhitespace(s[n - 1])
  {
    n := |s|;
    if s != "" && IsWhitespace(s[|s| - 1]) {
      n := TrimEndCuts(s[..|s| - 1]);
      assert s[..|s| - 1][..n] == s[..n];
      assert forall k | n <= k < |s| - 1 :: s[k] == s[..|s| - 1][k];
    }
  }

  /** Trimming cuts white space at both ends, and all of it. */
  lemma TrimCuts(s: string) returns (i: nat, j: nat)
    ensures i <= j <= |s| && Trim(s) == s[i..j]
    ensures forall k | 0 <= k < |s| && !(i <= k < j) :: IsWhitespace(s[k])
    ensures i < j ==> !IsWhitespace(s[i]) && !IsWhitespace(s[j - 1])
  {
    TrimStartKeepsInk(s);
    i := TrimStartCuts(s);
    var n := TrimEndCuts(s[i..]);
    j := i + n;
    assert s[i..][..n] == s[i..j];
    assert forall k | j <= k < |s| :: s[k] == s[i..][k - i];
    if n > 0 {
      assert s[i..][n - 1] == s[j - 1];
    }
  }

  /** Lowering a word changes its ASCII capitals and nothing else. */
  lemma {:induction false} LowerWordChars(s: string)
    ensures forall k | 0 <= k < |s| ::
              LowerWord(s)[k] as int == if 'A' <= s[k] <= 'Z' then s[k] as int + 32 else s[k] as int
  {
    if s != "" {
      LowerWordChars(s[..|s| - 1]);
    }
  }

  /** The byte length adds up, counts an ASCII character once, and no character more than four times. */
  lemma {:induction false} Utf8LenAdds(a: string, b: string)
    ensures Utf8Len(a + b) == Utf8Len(a) + Utf8Len(b)
    ensures |a| <= Utf8Len(a) <= 4 * |a|
    ensures (forall c | c in a :: c as int < 0x80) <==> Utf8Len(a) == |a|
  {
    if a == "" {
      assert a + b == b;
    } else {
      Utf8LenAdds(a[1..], b);
      assert (a + b)[1..] == a[1..] + b;
      assert forall c | c in a :: c == a[0] || c in a[1..];
      assert a[0] in a && forall c | c in a[1..] :: c in a;
    }
  }
}
