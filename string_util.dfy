/**
 * The two string predicates of StringUtil: whole-word, case-insensitive
 * search in a sentence, and recognition of unsigned integers.
 *
 * Java's String.trim, String.split("\\s+") and String.equalsIgnoreCase are
 * written out here; case folding covers the ASCII letters only.
 */
module StringUtil {
  import opened Wrappers

  /** The characters of the regular-expression class \s: space, \t, \n, \x0B, \f, \r. */
  predicate IsWhitespace(c: char) {
    c == ' ' || c == '\t' || c == '\n' || c == '\U{B}' || c == '\U{C}' || c == '\r'
  }

  /** String.trim removes every character up to and including U+0020 at either end. */
  predicate IsTrimmed(c: char) {
    c <= ' '
  }

  function TrimStart(s: string): (r: string)
    ensures |r| <= |s| && r == s[|s| - |r|..]
    ensures r == [] || !IsTrimmed(r[0])
    ensures forall j :: 0 <= j < |s| - |r| ==> IsTrimmed(s[j])
  {
    if s != [] && IsTrimmed(s[0]) then TrimStart(s[1..]) else s
  }

  function TrimEnd(s: string): (r: string)
    ensures |r| <= |s| && r == s[..|r|]
    ensures r == [] || !IsTrimmed(r[|r| - 1])
    ensures forall j :: |r| <= j < |s| ==> IsTrimmed(s[j])
  {
    if s != [] && IsTrimmed(s[|s| - 1]) then TrimEnd(s[..|s| - 1]) else s
  }

  /** r is s[i..i + |r|], and every character of s outside that slice is one trim removes. */
  predicate TrimmedSlice(s: string, r: string, i: int)
  {
    && 0 <= i && i + |r| <= |s|
    && r == s[i..i + |r|]
    && (forall j :: 0 <= j < i ==> IsTrimmed(s[j]))
    && (forall j :: i + |r| <= j < |s| ==> IsTrimmed(s[j]))
  }

  /** String.trim. */
  function Trim(s: string): (r: string)
    ensures r == [] || (!IsTrimmed(r[0]) && !IsTrimmed(r[|r| - 1]))
  {
    TrimStart(TrimEnd(s))
  }

  /** Trim keeps one slice of s and removes only characters up to U+0020 around it. */
  lemma TrimIsSlice(s: string)
    ensures exists i :: TrimmedSlice(s, Trim(s), i)
  {
    var e := TrimEnd(s);
    var r := TrimStart(e);
    var i := |e| - |r|;
    assert r == s[i..i + |r|] by {
      assert r == e[i..] && e == s[..|e|];
    }
    assert forall j :: 0 <= j < i ==> s[j] == e[j];
    assert r == Trim(s);
    assert TrimmedSlice(s, r, i);
  }

  /** Length of the run of non-whitespace characters that starts s. */
  function WordLen(s: string): (n: nat)
    ensures n <= |s|
    ensures forall j :: 0 <= j < n ==> !IsWhitespace(s[j])
    ensures n == |s| || IsWhitespace(s[n])
  {
    if s == [] || IsWhitespace(s[0]) then 0 else 1 + WordLen(s[1..])
  }

  predicate NoWhitespace(s: string) {
    forall j :: 0 <= j < |s| ==> !IsWhitespace(s[j])
  }

  /** The characters of s that are not whitespace, in order. */
  function NonWhitespace(s: string): string
    decreases |s|
  {
    if s == [] then [] else (if IsWhitespace(s[0]) then [] else [s[0]]) + NonWhitespace(s[1..])
  }

  /** The pieces of ts, concatenated in order. */
  function Join(ts: seq<string>): string
  {
    if ts == [] then [] else ts[0] + Join(ts[1..])
  }

  /** Dropping whitespace distributes over concatenation. */
  lemma {:induction false} NonWhitespaceAppend(a: string, b: string)
    ensures NonWhitespace(a + b) == NonWhitespace(a) + NonWhitespace(b)
    decreases |a|
  {
    if a == [] {
      assert a + b == b;
    } else {
      assert (a + b)[0] == a[0];
      assert (a + b)[1..] == a[1..] + b;
      NonWhitespaceAppend(a[1..], b);
    }
  }

  /** A whitespace-free string keeps all its characters. */
  lemma {:induction false} NonWhitespaceOfWord(s: string)
    requires NoWhitespace(s)
    ensures NonWhitespace(s) == s
    decreases |s|
  {
    if s != [] {
      NonWhitespaceOfWord(s[1..]);
    }
  }

  /** The maximal runs of non-whitespace characters of s, left to right. */
  function Tokens(s: string): (ts: seq<string>)
    ensures forall k :: 0 <= k < |ts| ==> ts[k] != [] && NoWhitespace(ts[k])
    decreases |s|
  {
    if s == [] then []
    else if IsWhitespace(s[0]) then Tokens(s[1..])
    else
      var n := WordLen(s);
      [s[..n]] + Tokens(s[n..])
  }

  /** Every non-whitespace character of s lands in a piece: the pieces joined are s without its whitespace. */
  lemma {:induction false} TokensKeepNonWhitespace(s: string)
    ensures Join(Tokens(s)) == NonWhitespace(s)
    decreases |s|
  {
    if s != [] {
      if IsWhitespace(s[0]) {
        TokensKeepNonWhitespace(s[1..]);
      } else {
        var n := WordLen(s);
        var ts := Tokens(s);
        assert s == s[..n] + s[n..];
        NonWhitespaceAppend(s[..n], s[n..]);
        NonWhitespaceOfWord(s[..n]);
        assert ts[1..] == Tokens(s[n..]);
        TokensKeepNonWhitespace(s[n..]);
      }
    }
  }

  /**
   * String.split("\\s+"): the whole string when no whitespace occurs in it;
   * otherwise the pieces between whitespace runs, with an empty first piece
   * when s starts with whitespace, and the empty trailing pieces dropped.
   */
  function Split(s: string): (r: seq<string>)
  {
    if NoWhitespace(s) then [s]
    else if IsWhitespace(s[0]) && Tokens(s) != [] then [""] + Tokens(s)
    else Tokens(s)
  }

  /** Character.toLowerCase on the ASCII letters. */
  function ToLower(c: char): char {
    if 'A' <= c <= 'Z' then (c as int - 'A' as int + 'a' as int) as char else c
  }

  /** String.equalsIgnoreCase, with ASCII case folding. */
  predicate EqualsIgnoreCase(a: string, b: string) {
    |a| == |b| && forall j :: 0 <= j < |a| ==> ToLower(a[j]) == ToLower(b[j])
  }

  /**
   * Reference definition: w appears in sentence at position i, ignoring
   * case, with whitespace or the end of sentence on both sides.
   */
  predicate WordAt(sentence: string, w: string, i: int) {
    0 <= i && i + |w| <= |sentence|
    && EqualsIgnoreCase(sentence[i..i + |w|], w)
    && (i == 0 || IsWhitespace(sentence[i - 1]))
    && (i + |w| == |sentence| || IsWhitespace(sentence[i + |w|]))
  }

  /** Some piece of ps equals w, ignoring case. */
  predicate AnyMatch(ps: seq<string>, w: string) {
    exists k | 0 <= k < |ps| :: EqualsIgnoreCase(ps[k], w)
  }

  ghost predicate OccursAsWord(sentence: string, w: string) {
    exists i :: WordAt(sentence, w, i)
  }

  /**
   * containsWordIgnoreCase: some piece of sentence.split("\\s+") equals the
   * trimmed word, ignoring case. The caller must pass a word that is
   * non-empty after trimming and splits into a single piece.
   */
  function ContainsWordIgnoreCase(sentence: string, word: string): (r: bool)
    requires Trim(word) != [] && |Split(Trim(word))| == 1
    ensures r <==> OccursAsWord(sentence, Trim(word))
  {
    var w := Trim(word);
    TrimmedSingleWord(w);
    var r := AnyMatch(Split(sentence), w);
    SplitMatchesTokens(sentence, w);
    TokensMatchIffWordAt(sentence, w);
    r
  }

  // ----- Lemmas -----

  /** A trimmed, non-empty string splits into one piece exactly when it holds no whitespace. */
  lemma TrimmedSingleWord(w: string)
    requires w != [] && !IsTrimmed(w[0]) && !IsTrimmed(w[|w| - 1])
    ensures |Split(w)| == 1 <==> NoWhitespace(w)
  {
    if !NoWhitespace(w) {
      var n := WordLen(w);
      assert !IsWhitespace(w[0]);
      assert n < |w|;
      assert |w| - 1 >= n && !IsWhitespace(w[|w| - 1]);
      TokensNonEmpty(w[n..], |w| - 1 - n);
      assert Tokens(w) == [w[..n]] + Tokens(w[n..]);
      assert |Split(w)| >= 2;
    }
  }

  /** A string with a non-whitespace character has at least one token. */
  lemma {:induction false} TokensNonEmpty(s: string, p: int)
    requires 0 <= p < |s| && !IsWhitespace(s[p])
    ensures Tokens(s) != []
    decreases |s|
  {
    if IsWhitespace(s[0]) {
      TokensNonEmpty(s[1..], p - 1);
    }
  }

  /** A whitespace-free, non-empty string is its own only token. */
  lemma SingleToken(s: string)
    requires s != [] && NoWhitespace(s)
    ensures Tokens(s) == [s]
  {
    var n := WordLen(s);
    assert !IsWhitespace(s[0]);
    assert n == |s|;
    assert s[..n] == s;
    assert s[n..] == [];
    assert Tokens(s) == [s[..n]] + Tokens(s[n..]);
  }

  /** Letters fold to letters, so folding never turns whitespace into a letter or back. */
  lemma FoldKeepsWhitespace(a: char, b: char)
    requires ToLower(a) == ToLower(b) && !IsWhitespace(b)
    ensures !IsWhitespace(a)
  {
  }

  /** The empty first piece of split never matches a non-empty word. */
  lemma SplitMatchesTokens(s: string, w: string)
    requires w != [] && NoWhitespace(w)
    ensures AnyMatch(Split(s), w) <==> AnyMatch(Tokens(s), w)
  {
    if NoWhitespace(s) {
      if s != [] {
        SingleToken(s);
      } else {
        assert Tokens(s) == [];
        assert !EqualsIgnoreCase(Split(s)[0], w);
      }
    } else if IsWhitespace(s[0]) && Tokens(s) != [] {
      LeadingEmptyPieceIgnored(Tokens(s), w);
    } else {
      assert Split(s) == Tokens(s);
    }
  }

  lemma LeadingEmptyPieceIgnored(ts: seq<string>, w: string)
    requires w != []
    ensures AnyMatch([""] + ts, w) <==> AnyMatch(ts, w)
  {
    var ps := [""] + ts;
    if k :| 0 <= k < |ps| && EqualsIgnoreCase(ps[k], w) {
      assert ts[k - 1] == ps[k];
    }
    if k :| 0 <= k < |ts| && EqualsIgnoreCase(ts[k], w) {
      assert ps[k + 1] == ts[k];
    }
  }

  /** tok sits at position i of s, with whitespace or an end of s on both sides. */
  predicate TokenAt(s: string, tok: string, i: int)
  {
    && 0 <= i && i + |tok| <= |s|
    && s[i..i + |tok|] == tok
    && (i == 0 || IsWhitespace(s[i - 1]))
    && (i + |tok| == |s| || IsWhitespace(s[i + |tok|]))
  }

  /** Where the k-th token sits in s, with the whitespace that bounds it. */
  lemma {:induction false} TokenPosition(s: string, k: int) returns (i: int)
    requires 0 <= k < |Tokens(s)|
    ensures TokenAt(s, Tokens(s)[k], i)
    decreases |s|
  {
    var tok := Tokens(s)[k];
    if IsWhitespace(s[0]) {
      assert Tokens(s) == Tokens(s[1..]);
      var j := TokenPosition(s[1..], k);
      TokenShift(s, 1, tok, j);
      i := j + 1;
    } else {
      var n := WordLen(s);
      assert Tokens(s) == [s[..n]] + Tokens(s[n..]);
      if k == 0 {
        i := 0;
      } else {
        assert tok == Tokens(s[n..])[k - 1];
        var j := TokenPosition(s[n..], k - 1);
        assert j != 0 by {
          assert s[n..][j] == tok[0];
        }
        TokenShift(s, n, tok, j);
        i := n + j;
      }
    }
  }

  /** A token found at position j of s[d..] sits at position d + j of s. */
  lemma TokenShift(s: string, d: int, tok: string, j: int)
    requires 0 <= d <= |s| && TokenAt(s[d..], tok, j)
    requires j == 0 ==> 0 < d && IsWhitespace(s[d - 1])
    ensures TokenAt(s, tok, d + j)
  {
    assert s[d + j..d + j + |tok|] == s[d..][j..j + |tok|];
    if j != 0 {
      assert s[d + j - 1] == s[d..][j - 1];
    }
    if d + j + |tok| < |s| {
      assert s[d + j + |tok|] == s[d..][j + |tok|];
    }
  }

  /** A matching token is an occurrence of the word. */
  lemma TokenMatchIsWordAt(s: string, w: string, k: int)
    requires 0 <= k < |Tokens(s)| && EqualsIgnoreCase(Tokens(s)[k], w)
    ensures OccursAsWord(s, w)
  {
    var i := TokenPosition(s, k);
    assert WordAt(s, w, i);
  }

  /** An occurrence of a non-empty, whitespace-free word is one of the tokens. */
  lemma {:induction false} WordAtIsTokenMatch(s: string, w: string, i: int) returns (k: int)
    requires w != [] && NoWhitespace(w) && WordAt(s, w, i)
    ensures 0 <= k < |Tokens(s)| && EqualsIgnoreCase(Tokens(s)[k], w)
    decreases |s|
  {
    MatchHasNoWhitespace(s, w, i);
    if IsWhitespace(s[0]) {
      assert i != 0 by { assert !IsWhitespace(s[i]); }
      WordAtShift(s, w, i, 1);
      k := WordAtIsTokenMatch(s[1..], w, i - 1);
    } else {
      var n := WordLen(s);
      assert Tokens(s) == [s[..n]] + Tokens(s[n..]);
      if i == 0 {
        assert n == |w|;
        assert Tokens(s)[0] == s[i..i + |w|];
        k := 0;
      } else {
        assert IsWhitespace(s[i - 1]);
        assert i - 1 >= n;
        WordAtShift(s, w, i, n);
        var k' := WordAtIsTokenMatch(s[n..], w, i - n);
        k := k' + 1;
      }
    }
  }

  /** An occurrence away from the start of s is an occurrence in every suffix of s that contains it. */
  lemma WordAtShift(s: string, w: string, i: int, d: int)
    requires WordAt(s, w, i) && 0 < i && 0 <= d <= i
    ensures WordAt(s[d..], w, i - d)
  {
    assert s[d..][i - d..i - d + |w|] == s[i..i + |w|];
    if i - d > 0 {
      assert s[d..][i - d - 1] == s[i - 1];
    }
    if i + |w| < |s| {
      assert s[d..][i - d + |w|] == s[i + |w|];
    }
  }

  /** The characters of an occurrence of a whitespace-free word are not whitespace. */
  lemma MatchHasNoWhitespace(s: string, w: string, i: int)
    requires NoWhitespace(w) && WordAt(s, w, i)
    ensures forall p :: i <= p < i + |w| ==> !IsWhitespace(s[p])
  {
    var sub := s[i..i + |w|];
    forall p | i <= p < i + |w|
      ensures !IsWhitespace(s[p])
    {
      assert sub[p - i] == s[p];
      FoldKeepsWhitespace(sub[p - i], w[p - i]);
    }
  }

  lemma TokensMatchIffWordAt(s: string, w: string)
    requires w != [] && NoWhitespace(w)
    ensures AnyMatch(Tokens(s), w) <==> OccursAsWord(s, w)
  {
    if k :| 0 <= k < |Tokens(s)| && EqualsIgnoreCase(Tokens(s)[k], w) {
      TokenMatchIsWordAt(s, w, k);
    }
    if i :| WordAt(s, w, i) {
      var k := WordAtIsTokenMatch(s, w, i);
    }
  }

  /** Characters that trim removes, added before or after the word, change nothing. */
  lemma PaddingIgnored(sentence: string, word: string, before: string, after: string)
    requires Trim(word) != [] && |Split(Trim(word))| == 1
    requires forall j :: 0 <= j < |before| ==> IsTrimmed(before[j])
    requires forall j :: 0 <= j < |after| ==> IsTrimmed(after[j])
    ensures Trim(before + word + after) == Trim(word)
    ensures ContainsWordIgnoreCase(sentence, before + word + after)
         == ContainsWordIgnoreCase(sentence, word)
  {
    assert TrimEnd(word) != [];
    assert before + word + after == (before + word) + after;
    TrimEndDropsPadding(before + word, after);
    TrimEndKeepsPrefix(before, word);
    TrimStartDropsPadding(before, TrimEnd(word));
  }

  lemma {:induction false} TrimEndDropsPadding(s: string, after: string)
    requires forall j :: 0 <= j < |after| ==> IsTrimmed(after[j])
    ensures TrimEnd(s + after) == TrimEnd(s)
    decreases |after|
  {
    if after == [] {
      assert s + after == s;
    } else {
      var shorter := after[..|after| - 1];
      assert (s + after)[..|s + after| - 1] == s + shorter;
      TrimEndDropsPadding(s, shorter);
    }
  }

  lemma {:induction false} TrimEndKeepsPrefix(before: string, s: string)
    requires TrimEnd(s) != []
    ensures TrimEnd(before + s) == before + TrimEnd(s)
    decreases |s|
  {
    var t := before + s;
    assert t[|t| - 1] == s[|s| - 1];
    if IsTrimmed(s[|s| - 1]) {
      var shorter := s[..|s| - 1];
      assert TrimEnd(s) == TrimEnd(shorter);
      assert t[..|t| - 1] == before + shorter;
      assert TrimEnd(t) == TrimEnd(before + shorter);
      TrimEndKeepsPrefix(before, shorter);
    }
  }

  lemma {:induction false} TrimStartDropsPadding(before: string, s: string)
    requires forall j :: 0 <= j < |before| ==> IsTrimmed(before[j])
    ensures TrimStart(before + s) == TrimStart(s)
    decreases |before|
  {
    if before == [] {
      assert before + s == s;
    } else {
      assert (before + s)[1..] == before[1..] + s;
      TrimStartDropsPadding(before[1..], s);
    }
  }

  /** A word that trim leaves alone and that holds no whitespace meets the precondition. */
  lemma PlainWord(w: string)
    requires w != [] && !IsTrimmed(w[0]) && !IsTrimmed(w[|w| - 1]) && NoWhitespace(w)
    ensures Trim(w) == w && Split(w) == [w]
  {
  }

  /** An occurrence of such a word is found by containsWordIgnoreCase. */
  lemma PlainWordFound(s: string, w: string, i: int)
    requires w != [] && !IsTrimmed(w[0]) && !IsTrimmed(w[|w| - 1]) && NoWhitespace(w)
    requires WordAt(s, w, i)
    ensures Trim(w) == w && |Split(Trim(w))| == 1 && ContainsWordIgnoreCase(s, w)
  {
    PlainWord(w);
  }

  /** First example of the containsWordIgnoreCase documentation: a match in another case. */
  lemma ContainsWordExampleLower()
    ensures Trim("abc") == "abc" && |Split("abc")| == 1 && ContainsWordIgnoreCase("ABc def", "abc")
  {
    var s, w := "ABc def", "abc";
    assert EqualsIgnoreCase(s[0..3], w) by {
      assert s[0..3] == ['A', 'B', 'c'];
    }
    assert IsWhitespace(s[3]);
    PlainWordFound(s, w, 0);
  }

  /** Second example: the last word of the sentence. */
  lemma ContainsWordExampleUpper()
    ensures Trim("DEF") == "DEF" && |Split("DEF")| == 1 && ContainsWordIgnoreCase("ABc def", "DEF")
  {
    var s, w := "ABc def", "DEF";
    assert EqualsIgnoreCase(s[4..7], w) by {
      assert s[4..7] == ['d', 'e', 'f'];
    }
    assert IsWhitespace(s[3]);
    PlainWordFound(s, w, 4);
  }

  /** Third example: a prefix of a word is not a match. */
  lemma ContainsWordExamplePartial()
    ensures Trim("AB") == "AB" && |Split("AB")| == 1 && !ContainsWordIgnoreCase("ABc def", "AB")
  {
    var s, w := "ABc def", "AB";
    PlainWord(w);
    forall i | 0 <= i <= |s| - |w|
      ensures !WordAt(s, w, i)
    {
      if i == 0 {
        assert s[2] == 'c';
      } else if i == 4 {
        assert s[4] == 'd';
      } else {
        assert !IsWhitespace(s[i - 1]);
      }
    }
  }

  // ----- isUnsignedInteger -----

  predicate IsDigit(c: char) {
    '0' <= c <= '9'
  }

  /** The regular expression ^0*[1-9]\d*$ matched against the whole of s. */
  function MatchesUnsigned(s: string): (r: bool)
    ensures r <==> (forall j :: 0 <= j < |s| ==> IsDigit(s[j]))
                   && (exists j :: 0 <= j < |s| && s[j] != '0')
  {
    if s == [] then false
    else if s[0] == '0' then
      var r := MatchesUnsigned(s[1..]);
      assert forall j :: 0 < j < |s| ==> s[j] == s[1..][j - 1];
      r
    else
      var r := '1' <= s[0] <= '9' && forall j :: 1 <= j < |s| ==> IsDigit(s[j]);
      r
  }

  /** isUnsignedInteger: null, or not made of digits with one of them non-zero, is false. */
  function IsUnsignedInteger(s: Option<string>): (r: bool)
    ensures r <==> s.Some? && (forall j :: 0 <= j < |s.value| ==> IsDigit(s.value[j]))
                   && (exists j :: 0 <= j < |s.value| && s.value[j] != '0')
  {
    s.Some? && MatchesUnsigned(s.value)
  }

  /** The inputs the isUnsignedInteger documentation lists as rejected, and some accepted ones. */
  lemma UnsignedIntegerExamples()
    ensures !IsUnsignedInteger(None)
    ensures !IsUnsignedInteger(Some(""))
    ensures !IsUnsignedInteger(Some("-1"))
    ensures !IsUnsignedInteger(Some("0"))
    ensures !IsUnsignedInteger(Some("+1"))
    ensures !IsUnsignedInteger(Some(" 2 "))
    ensures !IsUnsignedInteger(Some("3 0"))
    ensures IsUnsignedInteger(Some("1")) && IsUnsignedInteger(Some("007"))
    ensures IsUnsignedInteger(Some("10"))
  {
    assert "-1"[0] == '-';
    assert "+1"[0] == '+';
    assert " 2 "[0] == ' ';
    assert "3 0"[1] == ' ';
    assert "1"[0] != '0';
    assert "007"[2] != '0';
    assert "10"[0] != '0';
  }
}
