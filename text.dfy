/**
 * The character classes and string operations of Python's `re` module and
 * `in` operator that utils.py relies on, over ASCII: `\s`, `\w`, substring
 * search, and the first two pieces of `re.split(r"\s*" + op + r"\s*", s)`.
 */
module Text {
  import opened Wrappers

  /** `\s` restricted to ASCII: tab, line feed, vertical tab, form feed,
      carriage return, the four separators 0x1C-0x1F, and space. */
  predicate IsWhitespace(c: char) {
    ('\t' <= c <= '\r') || ('\U{001C}' <= c <= ' ')
  }

  /** `\w` restricted to ASCII: letters, digits and underscore. */
  predicate IsWordChar(c: char) {
    ('a' <= c <= 'z') || ('A' <= c <= 'Z') || ('0' <= c <= '9') || c == '_'
  }

  /** has_special_chars_and_spaces: whether the class `[\W\s]` matches
      somewhere in s. Whitespace is never a word character, so this is
      "some character of s is not a word character". */
  function HasSpecialCharsAndSpaces(s: string): (r: bool)
    ensures r <==> exists i :: 0 <= i < |s| && !IsWordChar(s[i])
  {
    if s == [] then false
    else if !IsWordChar(s[0]) then true
    else
      var rest := HasSpecialCharsAndSpaces(s[1..]);
      assert forall i :: 1 <= i < |s| ==> s[i] == s[1..][i - 1];
      rest
  }

  /** token occurs in s starting at index k. */
  predicate OccursAt(s: string, token: string, k: int) {
    0 <= k && k + |token| <= |s| && s[k..k + |token|] == token
  }

  /** The first index at or after `from` where token occurs in s. */
  function FindFrom(s: string, token: string, from: nat): (r: Option<nat>)
    requires from <= |s|
    decreases |s| - from
    ensures r.Some? ==> from <= r.value && OccursAt(s, token, r.value)
    ensures r.Some? ==> forall k :: from <= k < r.value ==> !OccursAt(s, token, k)
    ensures r.None? ==> forall k :: from <= k ==> !OccursAt(s, token, k)
  {
    if from + |token| > |s| then None
    else if s[from..from + |token|] == token then Some(from)
    else
      assert |token| > 0;
      FindFrom(s, token, from + 1)
  }

  /** Python's `token in s` for two strings. */
  function Contains(s: string, token: string): (r: bool)
    ensures r <==> exists k :: OccursAt(s, token, k)
  {
    FindFrom(s, token, 0).Some?
  }

  /** s without its trailing whitespace. */
  function TrimRight(s: string): (r: string)
    ensures |r| <= |s| && r == s[..|r|]
    ensures r == [] || !IsWhitespace(r[|r| - 1])
    ensures forall k :: |r| <= k < |s| ==> IsWhitespace(s[k])
  {
    if s != [] && IsWhitespace(s[|s| - 1]) then TrimRight(s[..|s| - 1]) else s
  }

  /** The first index at or after i that does not hold whitespace. */
  function SkipSpaces(s: string, i: nat): (j: nat)
    requires i <= |s|
    decreases |s| - i
    ensures i <= j <= |s|
    ensures forall k :: i <= k < j ==> IsWhitespace(s[k])
    ensures j == |s| || !IsWhitespace(s[j])
  {
    if i < |s| && IsWhitespace(s[i]) then SkipSpaces(s, i + 1) else i
  }

  /** A separator token as utils.py uses them: non-empty, and its first
      character is not whitespace, so `\s*token\s*` matches first at the
      whitespace run that precedes the first occurrence of token. */
  predicate IsToken(token: string) {
    token != [] && !IsWhitespace(token[0])
  }

  /** piece is s[i..j] with its trailing whitespace cut off: a prefix of
      s[i..j] that does not end in whitespace, followed in s[i..j] only by
      whitespace. */
  predicate Trimmed(s: string, i: int, j: int, piece: string) {
    && 0 <= i && i + |piece| <= j <= |s| && piece == s[i..i + |piece|]
    && (piece == [] || !IsWhitespace(piece[|piece| - 1]))
    && forall k :: i + |piece| <= k < j ==> IsWhitespace(s[k])
  }

  /** TrimRight of a slice cuts exactly its trailing whitespace. */
  lemma TrimRightSlice(s: string, i: int, j: int)
    requires 0 <= i <= j <= |s|
    ensures Trimmed(s, i, j, TrimRight(s[i..j]))
  {
    var t := TrimRight(s[i..j]);
    assert s[i..j][..|t|] == s[i..i + |t|];
    forall k | i + |t| <= k < j ensures IsWhitespace(s[k]) {
      assert s[k] == s[i..j][k - i];
    }
  }

  /** At most one piece is s[i..j] with its trailing whitespace cut off. */
  lemma TrimmedUnique(s: string, i: int, j: int, a: string, b: string)
    requires Trimmed(s, i, j, a) && Trimmed(s, i, j, b)
    ensures a == b
  {
  }

  /** Pieces 0 and 1 of `re.split(r"\s*" + re.escape(token) + r"\s*", s)`
      when token occurs in s: piece 0 ends where the leftmost match starts,
      piece 1 runs from the end of that match (which swallows all the
      whitespace after token) to the start of the next match, or to the end
      of s. Any further pieces are dropped, as utils.py:62-63 do. */
  function SplitPieces(s: string, token: string): (r: (string, string))
    requires IsToken(token) && Contains(s, token)
    ensures var p := FindFrom(s, token, 0).value;
            |r.0| <= p && r.0 == s[..|r.0|] && (r.0 == [] || !IsWhitespace(r.0[|r.0| - 1]))
    ensures |r.1| <= |s| - FindFrom(s, token, 0).value - |token|
    ensures r.1 == [] || !IsWhitespace(r.1[0])
  {
    PiecesAt(s, token, FindFrom(s, token, 0).value)
  }

  /** The two pieces around an occurrence of token at p. */
  function PiecesAt(s: string, token: string, p: nat): (string, string)
    requires p + |token| <= |s|
  {
    (TrimRight(s[..p]), PieceFrom(s, token, SkipSpaces(s, p + |token|)))
  }

  /** The piece that starts at e: up to the whitespace before the next
      occurrence of token, or to the end of s. */
  function PieceFrom(s: string, token: string, e: nat): (r: string)
    requires e <= |s| && (e == |s| || !IsWhitespace(s[e]))
    ensures |r| <= |s| - e
    ensures r == [] || !IsWhitespace(r[0])
  {
    match FindFrom(s, token, e)
    case None => s[e..]
    case Some(q) => TrimRight(s[e..q])
  }

  // ---------------------------------------------------------------------
  // Properties of the split
  // ---------------------------------------------------------------------

  /** An occurrence of a non-empty token starts with the token's first character. */
  lemma OccurrenceStart(s: string, token: string, k: int)
    requires OccursAt(s, token, k) && token != []
    ensures s[k] == token[0]
  {
    assert s[k..k + |token|][0] == s[k];
  }

  /** The piece from e runs to the end of s when token does not occur
      again, and otherwise is s up to the next occurrence with its trailing
      whitespace cut off. */
  lemma PieceFromMeaning(s: string, token: string, e: nat)
    requires e <= |s| && (e == |s| || !IsWhitespace(s[e]))
    ensures FindFrom(s, token, e).None? ==> PieceFrom(s, token, e) == s[e..]
    ensures FindFrom(s, token, e).Some? ==> Trimmed(s, e, FindFrom(s, token, e).value, PieceFrom(s, token, e))
  {
    if FindFrom(s, token, e).Some? {
      TrimRightSlice(s, e, FindFrom(s, token, e).value);
    }
  }

  /** The split is cut at the first occurrence p of token. */
  lemma {:induction false} SplitPiecesCut(s: string, token: string, p: nat)
    requires IsToken(token) && Contains(s, token) && FindFrom(s, token, 0).value == p
    ensures p + |token| <= |s| && SplitPieces(s, token) == PiecesAt(s, token, p)
  {
    assert OccursAt(s, token, p);
  }

  /** What the two pieces are: piece 0 is s up to the first occurrence of
      token with its trailing whitespace cut off; piece 1 starts after the
      whitespace that follows that occurrence and is the rest of s when
      token does not occur again, and otherwise the text up to the next
      occurrence with its trailing whitespace cut off. Since Trimmed pins
      its piece (TrimmedUnique), this determines both pieces. */
  lemma SplitPiecesMeaning(s: string, token: string)
    requires IsToken(token) && Contains(s, token)
    ensures var r := SplitPieces(s, token);
            var p := FindFrom(s, token, 0).value;
            var e := SkipSpaces(s, p + |token|);
            && Trimmed(s, 0, p, r.0)
            && (FindFrom(s, token, e).None? ==> r.1 == s[e..])
            && (FindFrom(s, token, e).Some? ==> Trimmed(s, e, FindFrom(s, token, e).value, r.1))
  {
    var p := FindFrom(s, token, 0).value;
    SplitPiecesCut(s, token, p);
    var e := SkipSpaces(s, p + |token|);
    TrimRightSlice(s, 0, p);
    assert s[0..p] == s[..p];
    PieceFromMeaning(s, token, e);
  }

  /** Piece 0 is s up to the first occurrence p of token with the
      whitespace before p dropped: it is a prefix of s no longer than p, and
      it reaches past every non-whitespace character before p. */
  lemma SplitFieldIsPrefix(s: string, token: string, k: int)
    requires IsToken(token) && Contains(s, token)
    requires 0 <= k < FindFrom(s, token, 0).value && !IsWhitespace(s[k])
    ensures var f := SplitPieces(s, token).0;
            |f| <= FindFrom(s, token, 0).value && s[..|f|] == f && k < |f|
  {
    var p := FindFrom(s, token, 0).value;
    var f := TrimRight(s[..p]);
    assert s[..p][..|f|] == s[..|f|];
    assert s[..p][k] == s[k];
  }

  /** Piece 0 never reaches the first occurrence of token. */
  lemma SplitFieldBeforeToken(s: string, token: string)
    requires IsToken(token) && Contains(s, token)
    ensures |SplitPieces(s, token).0| <= FindFrom(s, token, 0).value
  {
  }

  /** Two tokens that begin with different characters never give the same
      piece 0: their first occurrences start at different indices, and the
      piece for the later one keeps the non-whitespace first character of
      the earlier one. */
  lemma SplitFieldsDiffer(s: string, t1: string, t2: string)
    requires IsToken(t1) && IsToken(t2) && t1[0] != t2[0]
    requires Contains(s, t1) && Contains(s, t2)
    ensures SplitPieces(s, t1).0 != SplitPieces(s, t2).0
  {
    var p1 := FindFrom(s, t1, 0).value;
    var p2 := FindFrom(s, t2, 0).value;
    OccurrenceStart(s, t1, p1);
    OccurrenceStart(s, t2, p2);
    SplitFieldBeforeToken(s, t1);
    SplitFieldBeforeToken(s, t2);
    assert p1 != p2;
    if p1 < p2 {
      SplitFieldIsPrefix(s, t2, p1);
      assert |SplitPieces(s, t1).0| < |SplitPieces(s, t2).0|;
    } else {
      SplitFieldIsPrefix(s, t1, p2);
      assert |SplitPieces(s, t2).0| < |SplitPieces(s, t1).0|;
    }
  }

  /** No character of w is whitespace or a word character. */
  predicate IsSymbolic(w: string) {
    forall i :: 0 <= i < |w| ==> !IsWhitespace(w[i]) && !IsWordChar(w[i])
  }

  predicate AllWord(w: string) {
    forall i :: 0 <= i < |w| ==> IsWordChar(w[i])
  }

  predicate AllWhitespace(w: string) {
    forall i :: 0 <= i < |w| ==> IsWhitespace(w[i])
  }

  /** TrimRight of a word followed by whitespace gives the word back. */
  lemma TrimRightOfWordThenSpaces(f: string, w: string)
    requires AllWord(f) && AllWhitespace(w)
    ensures TrimRight(f + w) == f
  {
    var s := f + w;
    var r := TrimRight(s);
    assert forall k :: |f| <= k < |s| ==> IsWhitespace(s[k]) by {
      forall k | |f| <= k < |s| ensures IsWhitespace(s[k]) { assert s[k] == w[k - |f|]; }
    }
    assert r != [] ==> s[|r| - 1] == r[|r| - 1];
    assert |r| <= |f|;
    assert f != [] ==> s[|f| - 1] == f[|f| - 1] && !IsWhitespace(s[|f| - 1]);
    assert |r| >= |f|;
    assert s[..|f|] == f;
  }

  /** In `field w1 token w2 literal` the first occurrence of token is the
      one between w1 and w2. */
  lemma RoundTripFirstOccurrence(field: string, w1: string, token: string, w2: string, literal: string)
    requires AllWord(field) && AllWhitespace(w1)
    requires token != [] && IsSymbolic(token)
    ensures FindFrom(field + w1 + token + w2 + literal, token, 0) == Some(|field| + |w1|)
  {
    var s := field + w1 + token + w2 + literal;
    var p := |field| + |w1|;
    assert s[p..p + |token|] == token;
    assert OccursAt(s, token, p);
    // before p every character is a word character or whitespace, unlike token[0]
    forall k | 0 <= k < p ensures !OccursAt(s, token, k) {
      assert s[k] == (field + w1)[k];
      assert IsWordChar(s[k]) || IsWhitespace(s[k]);
      if OccursAt(s, token, k) { OccurrenceStart(s, token, k); }
    }
  }

  /** After that occurrence, the whitespace ends where the literal starts. */
  lemma RoundTripSkip(head: string, w2: string, literal: string)
    requires AllWhitespace(w2) && (literal == [] || !IsWhitespace(literal[0]))
    ensures SkipSpaces(head + w2 + literal, |head|) == |head| + |w2|
  {
    var s := head + w2 + literal;
    var e := |head| + |w2|;
    forall k | |head| <= k < e ensures IsWhitespace(s[k]) {
      assert s[k] == w2[k - |head|];
    }
    assert e < |s| ==> s[e] == literal[0];
  }

  /** A symbolic token does not occur at or after the start of a word-only tail. */
  lemma NoOccurrenceInWord(prefix: string, literal: string, token: string)
    requires AllWord(literal) && token != [] && IsSymbolic(token)
    ensures FindFrom(prefix + literal, token, |prefix|).None?
  {
    var s := prefix + literal;
    forall k | |prefix| <= k ensures !OccursAt(s, token, k) {
      if k < |s| {
        assert s[k] == literal[k - |prefix|];
        if OccursAt(s, token, k) { OccurrenceStart(s, token, k); }
      }
    }
  }

  /** After that occurrence, the whitespace ends where the literal starts
      and token does not occur again. */
  lemma RoundTripRest(field: string, w1: string, token: string, w2: string, literal: string)
    requires AllWord(literal) && AllWhitespace(w2)
    requires token != [] && IsSymbolic(token)
    ensures var s := field + w1 + token + w2 + literal;
            var e := |field| + |w1| + |token| + |w2|;
            SkipSpaces(s, |field| + |w1| + |token|) == e && FindFrom(s, token, e).None?
  {
    var head := field + w1 + token;
    assert literal == [] || !IsWhitespace(literal[0]);
    RoundTripSkip(head, w2, literal);
    NoOccurrenceInWord(head + w2, literal, token);
    assert field + w1 + token + w2 + literal == head + w2 + literal;
  }

  /** Round trip: splitting `field + w1 + token + w2 + literal` on token,
      with word-only field and literal and a symbolic token, gives back
      field and literal. */
  lemma SplitRoundTrip(field: string, w1: string, token: string, w2: string, literal: string)
    requires AllWord(field) && AllWord(literal)
    requires AllWhitespace(w1) && AllWhitespace(w2)
    requires token != [] && IsSymbolic(token)
    ensures var s := field + w1 + token + w2 + literal;
            IsToken(token) && Contains(s, token) && SplitPieces(s, token) == (field, literal)
  {
    var s := field + w1 + token + w2 + literal;
    var p := |field| + |w1|;
    var e := p + |token| + |w2|;
    RoundTripFirstOccurrence(field, w1, token, w2, literal);
    RoundTripRest(field, w1, token, w2, literal);
    assert IsToken(token) by { assert !IsWhitespace(token[0]); }
    assert FindFrom(s, token, 0).value == p;
    assert s[e..] == literal;
    assert s[..p] == field + w1;
    TrimRightOfWordThenSpaces(field, w1);
    assert SplitPieces(s, token).0 == TrimRight(s[..p]) == field;
    assert SplitPieces(s, token).1 == s[e..];
  }

  /** A symbolic token that occurs at q, with only word characters and
      whitespace between from and q, occurs first at q. */
  lemma FirstOccurrenceAt(s: string, token: string, from: nat, q: nat)
    requires from <= q && OccursAt(s, token, q) && token != [] && IsSymbolic(token)
    requires forall k :: from <= k < q ==> IsWordChar(s[k]) || IsWhitespace(s[k])
    ensures FindFrom(s, token, from) == Some(q)
  {
    forall k | from <= k < q ensures !OccursAt(s, token, k) {
      if OccursAt(s, token, k) { OccurrenceStart(s, token, k); }
    }
  }

  /** Every character of s[i..j] is whitespace. */
  predicate WhitespaceIn(s: string, i: int, j: int) {
    0 <= i <= j <= |s| && forall k :: i <= k < j ==> IsWhitespace(s[k])
  }

  /** Every character of s[i..j] is a word character. */
  predicate WordIn(s: string, i: int, j: int) {
    0 <= i <= j <= |s| && forall k :: i <= k < j ==> IsWordChar(s[k])
  }

  /** Facts about a range of a or of b carry over to a + b. */
  lemma AppendRanges(a: string, b: string, i: int, j: int)
    ensures WhitespaceIn(a, i, j) ==> WhitespaceIn(a + b, i, j)
    ensures WordIn(a, i, j) ==> WordIn(a + b, i, j)
    ensures WhitespaceIn(b, i, j) ==> WhitespaceIn(a + b, |a| + i, |a| + j)
    ensures WordIn(b, i, j) ==> WordIn(a + b, |a| + i, |a| + j)
  {
    var s := a + b;
    if WhitespaceIn(a, i, j) {
      forall k | i <= k < j ensures IsWhitespace(s[k]) { assert s[k] == a[k]; }
    }
    if WordIn(a, i, j) {
      forall k | i <= k < j ensures IsWordChar(s[k]) { assert s[k] == a[k]; }
    }
    if WhitespaceIn(b, i, j) {
      forall k | |a| + i <= k < |a| + j ensures IsWhitespace(s[k]) { assert s[k] == b[k - |a|]; }
    }
    if WordIn(b, i, j) {
      forall k | |a| + i <= k < |a| + j ensures IsWordChar(s[k]) { assert s[k] == b[k - |a|]; }
    }
  }

  /** An occurrence in a is one in a + b; token occurs in a + token right
      after a. */
  lemma AppendOccurs(a: string, b: string, token: string, i: int)
    ensures OccursAt(a, token, i) ==> OccursAt(a + b, token, i)
    ensures OccursAt(a + token, token, |a|)
  {
    if OccursAt(a, token, i) {
      assert (a + b)[i..i + |token|] == a[i..i + |token|];
    }
    assert (a + token)[|a|..|a| + |token|] == token;
  }

  /** s[..f] is a word, s[f..p] whitespace, and token occurs at p. */
  predicate FieldPart(s: string, token: string, f: int, p: int) {
    WordIn(s, 0, f) && WhitespaceIn(s, f, p) && OccursAt(s, token, p)
  }

  /** s[i..e] is whitespace, s[e..m] a word, s[m..q] whitespace, and token
      occurs at q. */
  predicate LiteralPart(s: string, token: string, i: int, e: int, m: int, q: int) {
    WhitespaceIn(s, i, e) && WordIn(s, e, m) && WhitespaceIn(s, m, q) && OccursAt(s, token, q)
  }

  lemma FieldPartAppend(a: string, b: string, token: string, f: int, p: int)
    requires FieldPart(a, token, f, p)
    ensures FieldPart(a + b, token, f, p)
  {
    AppendRanges(a, b, 0, f);
    AppendRanges(a, b, f, p);
    AppendOccurs(a, b, token, p);
  }

  lemma LiteralPartAppend(a: string, b: string, token: string, i: int, e: int, m: int, q: int)
    requires LiteralPart(a, token, i, e, m, q)
    ensures LiteralPart(a + b, token, i, e, m, q)
  {
    AppendRanges(a, b, i, e);
    AppendRanges(a, b, e, m);
    AppendRanges(a, b, m, q);
    AppendOccurs(a, b, token, q);
  }

  lemma FieldLayout(field: string, w1: string, token: string)
    requires AllWord(field) && AllWhitespace(w1)
    ensures FieldPart(field + w1 + token, token, |field|, |field| + |w1|)
  {
    var s1 := field + w1;
    AppendRanges(field, w1, 0, |field|);
    AppendRanges(field, w1, 0, |w1|);
    AppendRanges(s1, token, 0, |field|);
    AppendRanges(s1, token, |field|, |s1|);
    AppendOccurs(s1, [], token, 0);
  }

  lemma LiteralLayout(a: string, w2: string, literal: string, w3: string, token: string)
    requires AllWhitespace(w2) && AllWord(literal) && AllWhitespace(w3)
    ensures var e := |a| + |w2|;
            LiteralPart(a + w2 + literal + w3 + token, token, |a|, e, e + |literal|, e + |literal| + |w3|)
  {
    var s3 := a + w2;
    var e := |s3|;
    AppendRanges(a, w2, 0, |w2|);
    var s4 := s3 + literal;
    AppendRanges(s3, literal, |a|, e);
    AppendRanges(s3, literal, 0, |literal|);
    var m := |s4|;
    var s5 := s4 + w3;
    AppendRanges(s4, w3, |a|, e);
    AppendRanges(s4, w3, e, m);
    AppendRanges(s4, w3, 0, |w3|);
    var q := |s5|;
    AppendRanges(s5, token, |a|, e);
    AppendRanges(s5, token, e, m);
    AppendRanges(s5, token, m, q);
    AppendOccurs(s5, [], token, 0);
  }

  /** A word followed by whitespace is s[i..j] with its trailing
      whitespace cut off. */
  lemma TrimmedWord(s: string, i: int, m: int, j: int)
    requires WordIn(s, i, m) && WhitespaceIn(s, m, j)
    ensures Trimmed(s, i, j, s[i..m])
  {
    assert m > i ==> s[i..m][m - i - 1] == s[m - 1];
  }

  /** Piece 0, from the layout of s: a field s[..f], then whitespace up
      to the first occurrence of token at p. */
  lemma FieldPieceAt(s: string, token: string, f: int, p: int)
    requires token != [] && IsSymbolic(token) && FieldPart(s, token, f, p)
    ensures IsToken(token) && Contains(s, token) && FindFrom(s, token, 0) == Some(p)
    ensures TrimRight(s[..p]) == s[..f]
  {
    assert IsToken(token) by { assert !IsWhitespace(token[0]); }
    FirstOccurrenceAt(s, token, 0, p);
    TrimmedWord(s, 0, f, p);
    TrimRightSlice(s, 0, p);
    assert s[0..f] == s[..f] && s[0..p] == s[..p];
    TrimmedUnique(s, 0, p, TrimRight(s[..p]), s[..f]);
  }

  /** From i, the whitespace ends at the literal s[e..m], or at the
      occurrence of token at q when the literal is empty; from there the
      next occurrence is at q, and s[start..q] without its trailing
      whitespace is the literal. */
  lemma LiteralStart(s: string, token: string, i: int, e: int, m: int, q: int)
    requires token != [] && IsSymbolic(token) && LiteralPart(s, token, i, e, m, q)
    ensures var start := if e < m then e else q;
            && SkipSpaces(s, i) == start && FindFrom(s, token, start) == Some(q)
            && Trimmed(s, start, q, s[e..m])
  {
    OccurrenceStart(s, token, q);
    var start := if e < m then e else q;
    assert forall k :: i <= k < start ==> IsWhitespace(s[k]);
    assert !IsWhitespace(s[start]);
    FirstOccurrenceAt(s, token, start, q);
    if e < m {
      TrimmedWord(s, e, m, q);
    } else {
      assert Trimmed(s, q, q, []);
    }
  }

  /** The piece that starts after the whitespace from i is the literal. */
  lemma LiteralPieceFrom(s: string, token: string, i: int, e: int, m: int, q: int)
    requires token != [] && IsSymbolic(token) && LiteralPart(s, token, i, e, m, q)
    ensures PieceFrom(s, token, SkipSpaces(s, i)) == s[e..m]
  {
    LiteralStart(s, token, i, e, m, q);
    var start := if e < m then e else q;
    PieceFromMeaning(s, token, start);
    TrimmedUnique(s, start, q, PieceFrom(s, token, start), s[e..m]);
  }

  /** The split is (a, b) once piece 0 is known to be a and piece 1 to be b. */
  lemma {:induction false} SplitPiecesAre(s: string, token: string, p: nat, a: string, b: string)
    requires IsToken(token) && Contains(s, token) && FindFrom(s, token, 0).value == p
    requires p + |token| <= |s| && TrimRight(s[..p]) == a && PieceFrom(s, token, SkipSpaces(s, p + |token|)) == b
    ensures SplitPieces(s, token).0 == a && SplitPieces(s, token).1 == b
  {
    SplitPiecesCut(s, token, p);
  }

  /** The piece after the whitespace from i, for i just past token at p. */
  lemma {:induction false} PieceAfterToken(s: string, token: string, p: nat, i: nat, b: string)
    requires i == p + |token| <= |s| && PieceFrom(s, token, SkipSpaces(s, i)) == b
    ensures PieceFrom(s, token, SkipSpaces(s, p + |token|)) == b
  {
    assert SkipSpaces(s, p + |token|) == SkipSpaces(s, i);
  }

  /** Both pieces, from the layout of s. */
  lemma SplitPiecesAt(s: string, token: string, f: int, p: int, e: int, m: int, q: int)
    requires token != [] && IsSymbolic(token)
    requires FieldPart(s, token, f, p) && LiteralPart(s, token, p + |token|, e, m, q)
    ensures IsToken(token) && Contains(s, token)
    ensures SplitPieces(s, token).0 == s[..f] && SplitPieces(s, token).1 == s[e..m]
  {
    FieldPieceAt(s, token, f, p);
    var i := p + |token|;
    LiteralPieceFrom(s, token, i, e, m, q);
    PieceAfterToken(s, token, p, i, s[e..m]);
    SplitPiecesAre(s, token, p, s[..f], s[e..m]);
  }

  /** A slice inside x is the same slice of x + z, and z is what follows x. */
  lemma AppendSlice(x: string, z: string, i: int, j: int)
    requires 0 <= i <= j <= |x|
    ensures (x + z)[i..j] == x[i..j] && (x + z)[|x|..] == z
  {
  }

  /** Pieces after the second are ignored: splitting
      `field w1 token w2 literal w3 token rest` on token gives field and
      literal whatever rest holds. */
  lemma SplitIgnoresLaterPieces(field: string, w1: string, token: string, w2: string, literal: string,
                                w3: string, rest: string)
    requires AllWord(field) && AllWord(literal)
    requires AllWhitespace(w1) && AllWhitespace(w2) && AllWhitespace(w3)
    requires token != [] && IsSymbolic(token)
    ensures var s := field + w1 + token + w2 + literal + w3 + token + rest;
            && IsToken(token) && Contains(s, token)
            && SplitPieces(s, token).0 == field && SplitPieces(s, token).1 == literal
  {
    var f := |field|;
    var p := f + |w1|;
    var a := field + w1 + token;
    var e := |a| + |w2|;
    var m := e + |literal|;
    var q := m + |w3|;
    var s := a + w2 + literal + w3 + token + rest;
    // the field part holds in every longer string
    FieldLayout(field, w1, token);
    FieldPartAppend(a, w2, token, f, p);
    FieldPartAppend(a + w2, literal, token, f, p);
    FieldPartAppend(a + w2 + literal, w3, token, f, p);
    FieldPartAppend(a + w2 + literal + w3, token, token, f, p);
    FieldPartAppend(a + w2 + literal + w3 + token, rest, token, f, p);
    LiteralLayout(a, w2, literal, w3, token);
    LiteralPartAppend(a + w2 + literal + w3 + token, rest, token, |a|, e, m, q);
    SplitPiecesAt(s, token, f, p, e, m, q);
    assert s[..f] == field;
    AppendSlice(a + w2 + literal + w3 + token, rest, e, m);
    AppendSlice(a + w2 + literal + w3, token, e, m);
    AppendSlice(a + w2 + literal, w3, e, m);
    AppendSlice(a + w2, literal, e, e);
    assert s[e..m] == literal;
  }

}
