/**
 * The word side of ps6.py: `str.lower`, `str.strip`, `is_word`, `str.split()` and
 * the tokenising step of `load_words`.
 */
module Words {
  import opened Chars

  /** `str.lower`: every character replaced by its lower case. */
  function Lower(s: Text): (r: Text)
    ensures |r| == |s|
  {
    if s == [] then [] else [LowerChar(s[0])] + Lower(s[1..])
  }

  /** Each character of `str.lower` is the lower case of the character at the same place. */
  lemma {:induction false} LowerSpec(s: Text)
    ensures forall i | 0 <= i < |s| :: Lower(s)[i] == LowerChar(s[i])
  {
    if s != [] {
      LowerSpec(s[1..]);
      assert forall i | 1 <= i < |s| :: s[i] == s[1..][i - 1];
    }
  }

  /** Lowering twice is lowering once. */
  lemma LowerIdempotent(s: Text)
    ensures Lower(Lower(s)) == Lower(s)
  {
    var once := Lower(s);
    LowerSpec(s);
    LowerSpec(once);
    forall i | 0 <= i < |s| ensures Lower(once)[i] == once[i] {
      assert !IsCapital(once[i]);
    }
  }

  /** Every character of `s` is one of `chars`. */
  predicate AllIn(chars: Text, s: Text) {
    forall i | 0 <= i < |s| :: s[i] in chars
  }

  /** How many characters of `chars` the text `s` starts with: what `s.lstrip(chars)` removes. */
  function LeadingIn(chars: Text, s: Text): (n: nat)
    ensures n <= |s|
  {
    if s != [] && s[0] in chars then 1 + LeadingIn(chars, s[1..]) else 0
  }

  /** `lstrip` removes a run of characters of `chars` and stops at the first character that is not one. */
  lemma {:induction false} LeadingInSpec(chars: Text, s: Text)
    ensures AllIn(chars, s[..LeadingIn(chars, s)])
    ensures LeadingIn(chars, s) < |s| ==> s[LeadingIn(chars, s)] !in chars
  {
    if s != [] && s[0] in chars {
      LeadingInSpec(chars, s[1..]);
      assert forall i | 1 <= i < |s| :: s[i] == s[1..][i - 1];
    }
  }

  /** How many characters of `chars` the text `s` ends with: what `s.rstrip(chars)` removes. */
  function TrailingIn(chars: Text, s: Text): (n: nat)
    ensures n <= |s|
  {
    if s != [] && s[|s| - 1] in chars then 1 + TrailingIn(chars, s[..|s| - 1]) else 0
  }

  /** `rstrip` removes a run of characters of `chars` and stops at the last character that is not one. */
  lemma {:induction false} TrailingInSpec(chars: Text, s: Text)
    ensures AllIn(chars, s[|s| - TrailingIn(chars, s)..])
    ensures TrailingIn(chars, s) < |s| ==> s[|s| - 1 - TrailingIn(chars, s)] !in chars
  {
    if s != [] && s[|s| - 1] in chars {
      TrailingInSpec(chars, s[..|s| - 1]);
    }
  }

  /** `s.lstrip(chars)`. */
  function StripLeft(chars: Text, s: Text): (r: Text)
    ensures |r| <= |s|
  {
    s[LeadingIn(chars, s)..]
  }

  /** `s.rstrip(chars)`. */
  function StripRight(chars: Text, s: Text): (r: Text)
    ensures |r| <= |s|
  {
    s[..|s| - TrailingIn(chars, s)]
  }

  /** `s.strip(chars)`. */
  function Strip(chars: Text, s: Text): (r: Text)
    ensures |r| <= |s|
  {
    StripRight(chars, StripLeft(chars, s))
  }

  /** `strip` keeps the piece `s[a..b]` between what `lstrip` and then `rstrip` remove. */
  lemma StripIsSlice(chars: Text, s: Text)
    ensures var a := LeadingIn(chars, s);
      var b := |s| - TrailingIn(chars, s[a..]);
      a <= b <= |s| && Strip(chars, s) == s[a..b]
  {
  }

  /** What `strip` removes, `s[..a]` in front and `s[b..]` behind, are runs of characters of `chars`. */
  lemma StripRemovesRuns(chars: Text, s: Text)
    ensures var a := LeadingIn(chars, s);
      var b := |s| - TrailingIn(chars, s[a..]);
      AllIn(chars, s[..a]) && AllIn(chars, s[b..])
  {
    var a := LeadingIn(chars, s);
    var t := s[a..];
    LeadingInSpec(chars, s);
    TrailingInSpec(chars, t);
    assert s[|s| - TrailingIn(chars, t)..] == t[|t| - TrailingIn(chars, t)..];
  }

  /** What `strip` keeps is empty or begins and ends with a character not in `chars`. */
  lemma StripEnds(chars: Text, s: Text)
    ensures var r := Strip(chars, s);
      r != [] ==> r[0] !in chars && r[|r| - 1] !in chars
  {
    var t := StripLeft(chars, s);
    LeadingInSpec(chars, s);
    TrailingInSpec(chars, t);
  }

  /** A leading run of characters of `chars`, then one that is not, is exactly what `lstrip` removes. */
  lemma {:induction false} LeadingInExact(chars: Text, p: Text, t: Text)
    requires AllIn(chars, p)
    requires t != [] ==> t[0] !in chars
    ensures LeadingIn(chars, p + t) == |p|
  {
    if p == [] {
      assert p + t == t;
    } else {
      assert (p + t)[1..] == p[1..] + t;
      LeadingInExact(chars, p[1..], t);
    }
  }

  /** A character not in `chars`, then a trailing run of them, is cut exactly there by `rstrip`. */
  lemma {:induction false} TrailingInExact(chars: Text, t: Text, q: Text)
    requires AllIn(chars, q)
    requires t != [] ==> t[|t| - 1] !in chars
    ensures TrailingIn(chars, t + q) == |q|
  {
    if q == [] {
      assert t + q == t;
    } else {
      assert (t + q)[..|t + q| - 1] == t + q[..|q| - 1];
      TrailingInExact(chars, t, q[..|q| - 1]);
    }
  }

  /**
   * `strip` removes characters of `chars` at the ends only: a run of them, a core
   * that neither begins nor ends with one, and another run, strip to exactly that
   * core -- characters of `chars` inside it stay.
   */
  lemma StripExact(chars: Text, p: Text, m: Text, q: Text)
    requires AllIn(chars, p) && AllIn(chars, q)
    requires m != [] ==> m[0] !in chars && m[|m| - 1] !in chars
    ensures Strip(chars, p + m + q) == m
  {
    var s := p + m + q;
    if m == [] {
      assert s + [] == s && AllIn(chars, s);
      LeadingInExact(chars, s, []);
    } else {
      assert s == p + (m + q);
      LeadingInExact(chars, p, m + q);
      assert StripLeft(chars, s) == m + q;
      TrailingInExact(chars, m, q);
    }
  }

  /** Stripping twice is stripping once. */
  lemma StripIdempotent(chars: Text, s: Text)
    ensures Strip(chars, Strip(chars, s)) == Strip(chars, s)
  {
    var r := Strip(chars, s);
    StripEnds(chars, s);
    assert [] + r + [] == r;
    StripExact(chars, [], r, []);
  }

  /** Stripping a lower-case text leaves a lower-case text. */
  lemma StripKeepsLower(chars: Text, low: Text)
    requires Lower(low) == low
    ensures Lower(Strip(chars, low)) == Strip(chars, low)
  {
    var r := Strip(chars, low);
    var a := LeadingIn(chars, low);
    StripIsSlice(chars, low);
    LowerSpec(low);
    LowerSpec(r);
    forall i | 0 <= i < |r| ensures Lower(r)[i] == r[i] {
      assert r[i] == low[a + i];
      assert Lower(low)[a + i] == low[a + i];
    }
  }

  /** The characters `is_word` strips from both ends of a token (the backslash included). */
  const STRIP_CHARS: Text := " !@#$%^&*()-_+={}[]|\\:;'<>?,./\""

  /** `c` is one of the characters `is_word` strips. */
  predicate IsStripped(c: Latin1) {
    c in STRIP_CHARS
  }

  /** The stripped characters are four runs of ASCII punctuation, the space first. */
  lemma StrippedRuns(c: Latin1)
    ensures IsStripped(c) <==> ' ' <= c <= '/' || ':' <= c <= '@' || '[' <= c <= '_' || '{' <= c <= '}'
  {
  }

  /** Every character of `s` is one that `is_word` strips. */
  predicate AllStripped(s: Text) {
    AllIn(STRIP_CHARS, s)
  }

  /** What `is_word` looks up: the token lowered, then stripped at both ends. */
  function Normalize(word: Text): (r: Text)
    ensures |r| <= |word|
  {
    Strip(STRIP_CHARS, Lower(word))
  }

  /** `is_word(word_list, word)`: the normalised token is one of the listed words. */
  predicate IsWord(wordList: seq<Text>, word: Text) {
    Normalize(word) in wordList
  }

  /** Lowering and stripping a token without letters leaves a token without letters. */
  lemma NormalizeLetterless(word: Text)
    requires Letterless(word)
    ensures Letterless(Normalize(word))
  {
    var low := Lower(word);
    LowerSpec(word);
    assert Letterless(low);
    StripIsSlice(STRIP_CHARS, low);
  }

  /** When every listed word has a letter, a token without letters is not a word. */
  lemma IsWordLetterless(wordList: seq<Text>, word: Text)
    requires forall k | 0 <= k < |wordList| :: !Letterless(wordList[k])
    requires Letterless(word)
    ensures !IsWord(wordList, word)
  {
    NormalizeLetterless(word);
  }

  /** Every stripped character is ASCII punctuation or the space: none is a letter. */
  lemma StrippedIsNotLetter(c: Latin1)
    requires IsStripped(c)
    ensures !IsAlpha(c)
  {
    StrippedRuns(c);
  }

  /** Lowering keeps every stripped character and makes no new one. */
  lemma LowerKeepsStripped(s: Text)
    ensures forall i | 0 <= i < |s| :: IsStripped(Lower(s)[i]) == IsStripped(s[i])
  {
    LowerSpec(s);
    forall i | 0 <= i < |s| ensures IsStripped(Lower(s)[i]) == IsStripped(s[i]) {
      var c := s[i];
      if IsStripped(c) {
        StrippedIsNotLetter(c);
      }
      if IsStripped(LowerChar(c)) {
        StrippedIsNotLetter(LowerChar(c));
      }
    }
  }

  /** Lowering a concatenation lowers each part. */
  lemma LowerAppend(a: Text, b: Text)
    ensures Lower(a + b) == Lower(a) + Lower(b)
  {
    LowerSpec(a + b);
    LowerSpec(a);
    LowerSpec(b);
    assert forall i | 0 <= i < |a + b| :: Lower(a + b)[i] == (Lower(a) + Lower(b))[i];
  }

  /** `is_word` ignores case: a token and its lower-cased form are both words or both not. */
  lemma IsWordIgnoresCase(wordList: seq<Text>, word: Text)
    ensures Normalize(Lower(word)) == Normalize(word)
    ensures IsWord(wordList, Lower(word)) == IsWord(wordList, word)
  {
    LowerIdempotent(word);
  }

  /** Normalising is idempotent, so `is_word` of a normalised token agrees with `is_word` of the token. */
  lemma NormalizeIdempotent(wordList: seq<Text>, word: Text)
    ensures Normalize(Normalize(word)) == Normalize(word)
    ensures IsWord(wordList, Normalize(word)) == IsWord(wordList, word)
  {
    var low := Lower(word);
    LowerIdempotent(word);
    StripKeepsLower(STRIP_CHARS, low);
    StripIdempotent(STRIP_CHARS, low);
  }

  /**
   * `is_word` strips only at the ends: for a token made of a run of stripped
   * characters, a core that neither begins nor ends with one, and another run, it
   * answers whether the lower-cased core is listed.
   */
  lemma IsWordStripsEnds(wordList: seq<Text>, p: Text, m: Text, q: Text)
    requires AllStripped(p) && AllStripped(q)
    requires m != [] ==> !IsStripped(m[0]) && !IsStripped(m[|m| - 1])
    ensures IsWord(wordList, p + m + q) == (Lower(m) in wordList)
  {
    var lp, lm, lq := Lower(p), Lower(m), Lower(q);
    assert Lower(p + m + q) == lp + lm + lq by {
      LowerAppend(p + m, q);
      LowerAppend(p, m);
    }
    assert AllStripped(lp) && AllStripped(lq) by {
      LowerKeepsStripped(p);
      LowerKeepsStripped(q);
    }
    assert lm != [] ==> !IsStripped(lm[0]) && !IsStripped(lm[|lm| - 1]) by {
      LowerKeepsStripped(m);
    }
    StripExact(STRIP_CHARS, lp, lm, lq);
  }

  /** A token made only of stripped characters normalises to "", a word exactly when "" is listed. */
  lemma IsWordAllStripped(wordList: seq<Text>, word: Text)
    requires AllStripped(word)
    ensures Normalize(word) == []
    ensures IsWord(wordList, word) == ([] in wordList)
  {
    LowerKeepsStripped(word);
    assert Lower(word) + [] + [] == Lower(word);
    StripExact(STRIP_CHARS, Lower(word), [], []);
  }

  /** How many whitespace characters `s` starts with. */
  function LeadingSpace(s: Text): (n: nat)
    ensures n <= |s|
  {
    if s != [] && IsSpace(s[0]) then 1 + LeadingSpace(s[1..]) else 0
  }

  /** The leading whitespace is a run of whitespace that stops at the first other character. */
  lemma {:induction false} LeadingSpaceSpec(s: Text)
    ensures forall i | 0 <= i < LeadingSpace(s) :: IsSpace(s[i])
    ensures LeadingSpace(s) < |s| ==> !IsSpace(s[LeadingSpace(s)])
  {
    if s != [] && IsSpace(s[0]) {
      LeadingSpaceSpec(s[1..]);
      assert forall i | 1 <= i < |s| :: s[i] == s[1..][i - 1];
    }
  }

  /** How many characters `s` starts with before its first whitespace. */
  function WordLength(s: Text): (n: nat)
    ensures n <= |s|
  {
    if s != [] && !IsSpace(s[0]) then 1 + WordLength(s[1..]) else 0
  }

  /** The first word is a run of non-whitespace that stops at whitespace or at the end. */
  lemma {:induction false} WordLengthSpec(s: Text)
    ensures forall i | 0 <= i < WordLength(s) :: !IsSpace(s[i])
    ensures WordLength(s) < |s| ==> IsSpace(s[WordLength(s)])
  {
    if s != [] && !IsSpace(s[0]) {
      WordLengthSpec(s[1..]);
      assert forall i | 1 <= i < |s| :: s[i] == s[1..][i - 1];
    }
  }

  /** What `str.split()` can produce: a non-empty run of non-whitespace characters. */
  predicate IsToken(w: Text) {
    w != [] && forall i | 0 <= i < |w| :: !IsSpace(w[i])
  }

  /** `str.split()` with no separator: the maximal runs of non-whitespace, in order. */
  function Split(s: Text): (ws: seq<Text>)
    ensures forall k | 0 <= k < |ws| :: IsToken(ws[k])
    decreases |s|
  {
    var t := s[LeadingSpace(s)..];
    if t == [] then
      []
    else
      LeadingSpaceSpec(s);
      WordLengthSpec(t);
      var n := WordLength(t);
      [t[..n]] + Split(t[n..])
  }

  /** `s` has no character that `str.isalpha` accepts. */
  predicate Letterless(s: Text) {
    forall i | 0 <= i < |s| :: !IsAlpha(s[i])
  }

  /** The tokens of a text without letters have no letters either. */
  lemma {:induction false} SplitLetterless(s: Text)
    requires Letterless(s)
    ensures forall k | 0 <= k < |Split(s)| :: Letterless(Split(s)[k])
    decreases |s|
  {
    var t := s[LeadingSpace(s)..];
    if t != [] {
      LeadingSpaceSpec(s);
      WordLengthSpec(t);
      var n := WordLength(t);
      assert Split(s) == [t[..n]] + Split(t[n..]);
      SplitLetterless(t[n..]);
    }
  }

  /** `" ".join(ws)`: the tokens separated by single spaces. */
  function Join(ws: seq<Text>): Text {
    if ws == [] then [] else if |ws| == 1 then ws[0] else ws[0] + [' '] + Join(ws[1..])
  }

  /** A whitespace-free prefix followed by whitespace or nothing is the first word. */
  lemma {:induction false} WordLengthExact(w: Text, x: Text)
    requires forall i | 0 <= i < |w| :: !IsSpace(w[i])
    requires x != [] ==> IsSpace(x[0])
    ensures WordLength(w + x) == |w|
  {
    if w == [] {
      assert w + x == x;
    } else {
      assert (w + x)[1..] == w[1..] + x;
      WordLengthExact(w[1..], x);
    }
  }

  /** A whitespace character in front changes nothing for `split`. */
  lemma SplitSkipsSpace(c: Latin1, x: Text)
    requires IsSpace(c)
    ensures Split([c] + x) == Split(x)
  {
    assert ([c] + x)[1..] == x;
    assert ([c] + x)[1 + LeadingSpace(x)..] == x[LeadingSpace(x)..];
  }

  /** A lone token splits to itself. */
  lemma SplitToken(w: Text)
    requires IsToken(w)
    ensures Split(w) == [w]
  {
    assert w + [] == w;
    WordLengthExact(w, []);
    assert w[0..] == w && w[..|w|] == w && w[|w|..] == [];
  }

  /**
   * A token followed by any whitespace character (a space, a tab, a newline, ...) and
   * more text splits to the token, then the rest's tokens.
   */
  lemma SplitTokenThen(w: Text, c: Latin1, rest: Text)
    requires IsToken(w) && IsSpace(c)
    ensures Split(w + [c] + rest) == [w] + Split(rest)
  {
    var s := w + [c] + rest;
    assert s == w + ([c] + rest);
    WordLengthExact(w, [c] + rest);
    assert s[0..] == s && s[..|w|] == w && s[|w|..] == [c] + rest;
    SplitSkipsSpace(c, rest);
  }

  /** Round trip: splitting tokens joined by spaces gives back the tokens. */
  lemma {:induction false} SplitJoin(ws: seq<Text>)
    requires forall k | 0 <= k < |ws| :: IsToken(ws[k])
    ensures Split(Join(ws)) == ws
  {
    if ws == [] {
    } else if |ws| == 1 {
      SplitToken(ws[0]);
    } else {
      assert ws == [ws[0]] + ws[1..];
      SplitTokenThen(ws[0], ' ', Join(ws[1..]));
      SplitJoin(ws[1..]);
    }
  }

  /** The characters of `s` that are not whitespace, in order. */
  function NonSpace(s: Text): Text {
    if s == [] then [] else (if IsSpace(s[0]) then [] else [s[0]]) + NonSpace(s[1..])
  }

  /** All tokens laid end to end. */
  function Concat(ws: seq<Text>): Text {
    if ws == [] then [] else ws[0] + Concat(ws[1..])
  }

  lemma {:induction false} NonSpaceAppend(a: Text, b: Text)
    ensures NonSpace(a + b) == NonSpace(a) + NonSpace(b)
  {
    if a == [] {
      assert a + b == b;
    } else {
      assert (a + b)[1..] == a[1..] + b;
      NonSpaceAppend(a[1..], b);
    }
  }

  /** Whitespace-free text is its own non-whitespace part; all-whitespace text has none. */
  lemma {:induction false} NonSpaceOfRun(s: Text, spaces: bool)
    requires forall i | 0 <= i < |s| :: IsSpace(s[i]) == spaces
    ensures NonSpace(s) == if spaces then [] else s
  {
    if s != [] {
      NonSpaceOfRun(s[1..], spaces);
    }
  }

  lemma ConcatCons(w: Text, ws: seq<Text>)
    ensures Concat([w] + ws) == w + Concat(ws)
  {
    assert ([w] + ws)[1..] == ws;
  }

  /** Splitting `s` at `k` splits its non-whitespace characters there. */
  lemma NonSpaceAt(s: Text, k: nat, spaces: bool)
    requires k <= |s|
    requires forall i | 0 <= i < k :: IsSpace(s[i]) == spaces
    ensures NonSpace(s) == (if spaces then [] else s[..k]) + NonSpace(s[k..])
  {
    assert s == s[..k] + s[k..];
    NonSpaceAppend(s[..k], s[k..]);
    NonSpaceOfRun(s[..k], spaces);
  }

  /** `split` drops whitespace only: its tokens together hold every other character, in order. */
  lemma {:induction false} SplitKeepsNonSpace(s: Text)
    ensures Concat(Split(s)) == NonSpace(s)
    decreases |s|
  {
    var a := LeadingSpace(s);
    var t := s[a..];
    LeadingSpaceSpec(s);
    NonSpaceAt(s, a, true);
    if t != [] {
      var n := WordLength(t);
      WordLengthSpec(t);
      NonSpaceAt(t, n, false);
      SplitKeepsNonSpace(t[n..]);
      ConcatCons(t[..n], Split(t[n..]));
    }
  }

  /** Leading whitespace of non-blank text is the same with a character appended. */
  lemma {:induction false} LeadingSpaceAppend(s: Text, c: Latin1)
    requires LeadingSpace(s) < |s|
    ensures LeadingSpace(s + [c]) == LeadingSpace(s)
  {
    assert (s + [c])[1..] == s[1..] + [c];
    if IsSpace(s[0]) {
      LeadingSpaceAppend(s[1..], c);
    }
  }

  /** Whitespace at the end changes nothing for `split`. */
  lemma {:induction false} SplitTrailingSpace(s: Text, c: Latin1)
    requires IsSpace(c)
    ensures Split(s + [c]) == Split(s)
    decreases |s|
  {
    var a := LeadingSpace(s);
    LeadingSpaceSpec(s);
    if a == |s| {
      AllSpaceAppend(s, c);
    } else {
      var t := s[a..];
      LeadingSpaceAppend(s, c);
      assert (s + [c])[a..] == t + [c];
      var n := WordLength(t);
      WordLengthSpec(t);
      assert t + [c] == t[..n] + (t[n..] + [c]);
      WordLengthExact(t[..n], t[n..] + [c]);
      assert (t + [c])[..n] == t[..n] && (t + [c])[n..] == t[n..] + [c];
      SplitTrailingSpace(t[n..], c);
    }
  }

  /** All-whitespace text, with whitespace appended, still splits to nothing. */
  lemma {:induction false} AllSpaceAppend(s: Text, c: Latin1)
    requires IsSpace(c) && LeadingSpace(s) == |s|
    ensures LeadingSpace(s + [c]) == |s| + 1
  {
    if s == [] {
      assert s + [c] == [c];
    } else {
      assert (s + [c])[1..] == s[1..] + [c];
      AllSpaceAppend(s[1..], c);
    }
  }

  /** `in_file.readline()`: the characters up to and including the first newline, or all of them. */
  function FirstLine(contents: Text): (line: Text)
    ensures |line| <= |contents| && line == contents[..|line|]
    ensures forall i | 0 <= i < |line| - 1 :: line[i] != '\n'
    ensures |line| < |contents| ==> line != [] && line[|line| - 1] == '\n'
  {
    if contents == [] then []
    else if contents[0] == '\n' then ['\n']
    else [contents[0]] + FirstLine(contents[1..])
  }

  /**
   * The tokenising step of `load_words`: `readline()` then `split()`. Every word it
   * yields is non-empty and free of whitespace, so "" is never among them.
   */
  function LoadWords(contents: Text): (words: seq<Text>)
    ensures forall k | 0 <= k < |words| :: IsToken(words[k])
    ensures [] !in words
  {
    Split(FirstLine(contents))
  }

  /** Only the first line is read: whatever follows its newline is ignored. */
  lemma {:induction false} LoadWordsFirstLine(line: Text, rest: Text)
    requires forall i | 0 <= i < |line| :: line[i] != '\n'
    ensures FirstLine(line + ['\n'] + rest) == line + ['\n']
    ensures LoadWords(line + ['\n'] + rest) == Split(line)
  {
    if line != [] {
      assert (line + ['\n'] + rest)[1..] == line[1..] + ['\n'] + rest;
      LoadWordsFirstLine(line[1..], rest);
      assert line == [line[0]] + line[1..];
    }
    SplitTrailingSpace(line, '\n');
  }

  /** How many of `tokens` satisfy `p`. */
  function CountWhere(p: Text -> bool, tokens: seq<Text>): (n: nat)
    ensures n <= |tokens|
  {
    if tokens == [] then 0
    else (if p(tokens[0]) then 1 else 0) + CountWhere(p, tokens[1..])
  }

  /** The count is 0 exactly when no token satisfies `p`, and `|tokens|` exactly when every token does. */
  lemma {:induction false} CountWhereExtremes(p: Text -> bool, tokens: seq<Text>)
    ensures CountWhere(p, tokens) == 0 <==> forall k | 0 <= k < |tokens| :: !p(tokens[k])
    ensures CountWhere(p, tokens) == |tokens| <==> forall k | 0 <= k < |tokens| :: p(tokens[k])
  {
    if tokens != [] {
      var rest := tokens[1..];
      CountWhereExtremes(p, rest);
      assert forall k | 0 <= k < |rest| :: rest[k] == tokens[k + 1];
      assert forall k | 1 <= k < |tokens| :: tokens[k] == rest[k - 1];
    }
  }

  /** Counting is additive: the tokens of `a + b` that satisfy `p` are those of `a` and those of `b`. */
  lemma {:induction false} CountWhereAppend(p: Text -> bool, a: seq<Text>, b: seq<Text>)
    ensures CountWhere(p, a + b) == CountWhere(p, a) + CountWhere(p, b)
  {
    if a != [] {
      assert (a + b)[1..] == a[1..] + b;
      CountWhereAppend(p, a[1..], b);
    } else {
      assert a + b == b;
    }
  }

  /** A single token counts once if it satisfies `p`, else not at all. */
  lemma CountSingle(p: Text -> bool, w: Text)
    ensures CountWhere(p, [w]) == if p(w) then 1 else 0
  {
    assert [w][1..] == [];
  }

  /** The score of a candidate: how many whitespace-separated tokens are valid words. */
  function CountValidWords(wordList: seq<Text>, words: seq<Text>): (n: nat)
    ensures n <= |words|
  {
    CountWhere(w => IsWord(wordList, w), words)
  }

  /** The score is 0 exactly when no token is a word, and `|words|` exactly when every token is. */
  lemma CountValidWordsExtremes(wordList: seq<Text>, words: seq<Text>)
    ensures CountValidWords(wordList, words) == 0 <==> forall k | 0 <= k < |words| :: !IsWord(wordList, words[k])
    ensures CountValidWords(wordList, words) == |words| <==> forall k | 0 <= k < |words| :: IsWord(wordList, words[k])
  {
    CountWhereExtremes(w => IsWord(wordList, w), words);
  }

  /**
   * The score of a token sequence is the sum of the scores of its parts; with
   * `CountValidWordsSingle` this fixes it as the number of tokens that are words.
   */
  lemma CountValidWordsAppend(wordList: seq<Text>, a: seq<Text>, b: seq<Text>)
    ensures CountValidWords(wordList, a + b) == CountValidWords(wordList, a) + CountValidWords(wordList, b)
  {
    CountWhereAppend(w => IsWord(wordList, w), a, b);
  }

  /** A single token scores 1 if it is a word and 0 otherwise. */
  lemma CountValidWordsSingle(wordList: seq<Text>, w: Text)
    ensures CountValidWords(wordList, [w]) == if IsWord(wordList, w) then 1 else 0
  {
    CountSingle(x => IsWord(wordList, x), w);
  }

}
