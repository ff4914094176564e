/**
 * The message classes of ps6.py: `Message`, `PlaintextMessage` (encryption with a
 * shift that can be changed) and `CiphertextMessage` (brute-force decryption).
 */
module Messages {
  import opened Wrappers
  import opened Chars
  import opened Cipher
  import opened Words

  /**
   * `Message`: the text and the word list, both fixed once constructed. The word
   * list is passed in rather than read from `words.txt`.
   */
  class Message {
    const messageText: Text
    const validWords: seq<Text>

    constructor (text: Text, words: seq<Text>)
      ensures messageText == text && validWords == words
    {
      messageText := text;
      validWords := words;
    }

    method GetMessageText() returns (text: Text)
      ensures text == messageText
    {
      text := messageText;
    }

    /** A sequence is a value: the caller gets a copy it cannot use to change the list. */
    method GetValidWords() returns (words: seq<Text>)
      ensures words == validWords
    {
      words := validWords;
    }

    /** `build_shift_dict`: fills the table one alphabet position at a time. */
    method BuildShiftDict(shift: int) returns (shiftDict: map<Latin1, Latin1>)
      ensures shiftDict == ShiftTable(shift)
    {
      shiftDict := map[];
      var lowercase, uppercase := LOWERCASE, UPPERCASE;
      assert shiftDict == PartialTable(shift, 0);
      for i := 0 to 26
        invariant shiftDict == PartialTable(shift, i)
      {
        PartialTableStep(shift, i);
        shiftDict := shiftDict[lowercase[i] := lowercase[(i + shift) % 26]];
        shiftDict := shiftDict[uppercase[i] := uppercase[(i + shift) % 26]];
      }
      assert PartialTable(shift, 26) == ShiftTable(shift);
    }

    /**
     * `apply_shift`: builds the table, then copies the text character by
     * character, replacing each letter by its entry.
     */
    method ApplyShift(shift: int) returns (r: Result<Text>)
      ensures r == Cipher.ApplyShift(messageText, shift)
    {
      var shiftDict := BuildShiftDict(shift);
      var encryptedMessage: Text := [];
      for i := 0 to |messageText|
        invariant Translatable(shiftDict, messageText[..i])
        invariant |encryptedMessage| == i
        invariant forall j | 0 <= j < i :: encryptedMessage[j] == Substitute(shiftDict, messageText[j])
      {
        var c := messageText[i];
        assert messageText[..i + 1] == messageText[..i] + [c];
        if IsAlpha(c) {
          if c !in shiftDict {
            var expected := Translate(shiftDict, messageText);
            assert !Translatable(shiftDict, messageText);
            var j :| FirstMissingAt(shiftDict, messageText, j) && messageText[j] == expected.key;
            assert i == j;
            ApplyShiftTranslates(messageText, shift);
            return KeyError(c);
          }
          encryptedMessage := encryptedMessage + [shiftDict[c]];
        } else {
          encryptedMessage := encryptedMessage + [c];
        }
      }
      assert messageText[..|messageText|] == messageText;
      var expected := Translate(shiftDict, messageText);
      assert expected.Ok? && expected.value == encryptedMessage;
      ApplyShiftTranslates(messageText, shift);
      r := Ok(encryptedMessage);
    }
  }

  /**
   * `PlaintextMessage`: a message with a shift and two fields derived from it,
   * the shift table and the encrypted text.
   */
  class PlaintextMessage {
    const message: Message
    var shift: int
    var encryptingDict: map<Latin1, Latin1>
    var messageTextEncrypted: Text

    /** The derived fields agree with the text and the current shift. */
    ghost predicate Valid()
      reads this
    {
      && encryptingDict == ShiftTable(shift)
      && Cipher.ApplyShift(message.messageText, shift) == Ok(messageTextEncrypted)
    }

    /**
     * `PlaintextMessage.__init__`. The text must have no letter outside ASCII:
     * for any other text `apply_shift` raises KeyError and no object is made.
     */
    constructor (text: Text, words: seq<Text>, shift: int)
      requires Shiftable(text)
      ensures Valid() && this.shift == shift
      ensures message.messageText == text && message.validWords == words
    {
      var m := new Message(text, words);
      var d := m.BuildShiftDict(shift);
      var e := m.ApplyShift(shift);
      message := m;
      this.shift := shift;
      encryptingDict := d;
      messageTextEncrypted := e.value;
    }

    method GetShift() returns (k: int)
      ensures k == shift
    {
      k := shift;
    }

    /** A map is a value: the caller gets a copy, and it is the table of the current shift. */
    method GetEncryptingDict() returns (d: map<Latin1, Latin1>)
      requires Valid()
      ensures d == encryptingDict && d == ShiftTable(shift)
    {
      d := encryptingDict;
    }

    /** The message text encrypted with the current shift. */
    method GetMessageTextEncrypted() returns (t: Text)
      requires Valid()
      ensures Cipher.ApplyShift(message.messageText, shift) == Ok(t)
    {
      t := messageTextEncrypted;
    }

    /** `change_shift`: stores the new shift and recomputes both derived fields. */
    method ChangeShift(shift: int)
      requires Valid()
      modifies this
      ensures Valid() && this.shift == shift
      ensures encryptingDict == ShiftTable(shift)
      ensures Cipher.ApplyShift(message.messageText, shift) == Ok(messageTextEncrypted)
    {
      this.shift := shift;
      encryptingDict := message.BuildShiftDict(shift);
      var e := message.ApplyShift(shift);
      messageTextEncrypted := e.value;
    }
  }

  /** The text `decrypt_message` tries for loop value `shift`: `apply_shift(26 - shift)`. */
  function Candidate(text: Text, shift: int): (c: Text)
    requires Shiftable(text)
    ensures |c| == |text|
  {
    Cipher.ApplyShift(text, 26 - shift).value
  }

  /** How many whitespace-separated tokens of that candidate are words. */
  function CandidateScore(wordList: seq<Text>, text: Text, shift: int): nat
    requires Shiftable(text)
  {
    CountValidWords(wordList, Split(Candidate(text, shift)))
  }

  /** The score of every candidate, indexed by the loop value. */
  function Scores(wordList: seq<Text>, text: Text): (scores: seq<nat>)
    requires Shiftable(text)
    ensures |scores| == 26
  {
    seq(26, s requires 0 <= s < 26 => CandidateScore(wordList, text, s))
  }

  /** `b` is the first position of a positive maximum of `scores`. */
  ghost predicate IsFirstMax(scores: seq<nat>, b: int) {
    && 0 <= b < |scores|
    && scores[b] > 0
    && (forall s | 0 <= s < |scores| :: scores[s] <= scores[b])
    && (forall s | 0 <= s < b :: scores[s] < scores[b])
  }

  /**
   * `b` is what `decrypt_message` reports: some token of its candidate is a word,
   * no candidate scores more, and every smaller shift scores less.
   */
  ghost predicate IsFirstBest(wordList: seq<Text>, text: Text, b: int)
    requires Shiftable(text)
  {
    IsFirstMax(Scores(wordList, text), b)
  }

  /** No candidate has a single word. */
  ghost predicate NoCandidateScores(wordList: seq<Text>, text: Text)
    requires Shiftable(text)
  {
    forall s | 0 <= s < 26 :: Scores(wordList, text)[s] == 0
  }

  /** After looking at `scores[..n]`, the running best and maximum of `decrypt_message` are these. */
  ghost predicate SearchedUpTo(scores: seq<nat>, n: int, best: Option<int>, maxCount: nat) {
    && 0 <= n <= |scores|
    && (best.None? ==> maxCount == 0 && forall s | 0 <= s < n :: scores[s] == 0)
    && (best.Some? ==> IsFirstMax(scores[..n], best.value) && maxCount == scores[best.value])
  }

  /** After all the rounds the running values are the result `decrypt_message` promises. */
  lemma SearchDone(scores: seq<nat>, best: Option<int>, maxCount: nat)
    requires SearchedUpTo(scores, |scores|, best, maxCount)
    ensures best.None? <==> forall s | 0 <= s < |scores| :: scores[s] == 0
    ensures best.Some? ==> IsFirstMax(scores, best.value)
  {
    assert scores[..|scores|] == scores;
  }

  /** The score `decrypt_message` computes for loop value `s`. */
  lemma ScoresAt(wordList: seq<Text>, text: Text, s: int)
    requires Shiftable(text) && 0 <= s < 26
    ensures Scores(wordList, text)[s] == CountValidWords(wordList, Split(Cipher.ApplyShift(text, 26 - s).value))
  {
  }

  /** One round of the search: a strictly higher count replaces the best so far. */
  lemma SearchStep(scores: seq<nat>, n: int, best: Option<int>, maxCount: nat)
    requires n < |scores| && SearchedUpTo(scores, n, best, maxCount)
    ensures if scores[n] > maxCount then SearchedUpTo(scores, n + 1, Some(n), scores[n])
            else SearchedUpTo(scores, n + 1, best, maxCount)
  {
    var before, after := scores[..n], scores[..n + 1];
    assert forall s | 0 <= s < n :: after[s] == before[s] == scores[s];
    if scores[n] > maxCount {
      assert IsFirstMax(after, n);
    } else if best.Some? {
      assert IsFirstMax(after, best.value);
    }
  }

  /**
   * The running best and maximum of `decrypt_message` after looking at `scores[..n]`:
   * a count replaces the maximum only when it is strictly larger.
   */
  function RunningBest(scores: seq<nat>, n: nat): (r: (Option<int>, nat))
    requires n <= |scores|
  {
    if n == 0 then (None, 0)
    else
      var previous := RunningBest(scores, n - 1);
      if scores[n - 1] > previous.1 then (Some(n - 1), scores[n - 1]) else previous
  }

  /** The running values describe the prefix they were computed from. */
  lemma {:induction false} RunningBestSearched(scores: seq<nat>, n: nat)
    requires n <= |scores|
    ensures SearchedUpTo(scores, n, RunningBest(scores, n).0, RunningBest(scores, n).1)
  {
    if n > 0 {
      var previous := RunningBest(scores, n - 1);
      RunningBestSearched(scores, n - 1);
      SearchStep(scores, n - 1, previous.0, previous.1);
    }
  }

  /** One round of `decrypt_message`: the count of candidate `shift` updates the best so far. */
  lemma DecryptStep(wordList: seq<Text>, text: Text, shift: int, decrypted: Text, count: nat)
    requires 0 <= shift < 26 && Cipher.ApplyShift(text, 26 - shift) == Ok(decrypted)
    requires count == CountValidWords(wordList, Split(decrypted))
    ensures Shiftable(text)
    ensures Scores(wordList, text)[shift] == count
  {
    ScoresAt(wordList, text, shift);
  }

  /** After the 26 rounds the running best is the result `decrypt_message` promises. */
  lemma DecryptDone(wordList: seq<Text>, text: Text)
    requires Shiftable(text)
    ensures RunningBest(Scores(wordList, text), 26).0.None? <==> NoCandidateScores(wordList, text)
    ensures RunningBest(Scores(wordList, text), 26).0.Some? ==>
      IsFirstBest(wordList, text, RunningBest(Scores(wordList, text), 26).0.value)
  {
    var scores := Scores(wordList, text);
    RunningBestSearched(scores, 26);
    SearchDone(scores, RunningBest(scores, 26).0, RunningBest(scores, 26).1);
  }

  /** `CiphertextMessage`: a message that is decrypted by trying every shift. */
  class CiphertextMessage {
    const message: Message

    constructor (text: Text, words: seq<Text>)
      ensures message.messageText == text && message.validWords == words
    {
      message := new Message(text, words);
    }

    /**
     * `decrypt_message`. It raises the KeyError of `apply_shift` if the text has a
     * letter outside ASCII. Otherwise it returns `(None, None)` when no candidate
     * has a word, and else `(b, candidate b)` for the first shift `b` whose
     * candidate has the most words -- `b` is the loop value, the shift that
     * encrypted the text, not the `26 - b` that decrypts it.
     */
    method DecryptMessage() returns (r: Result<(Option<int>, Option<Text>)>)
      ensures r.KeyError? <==> !Shiftable(message.messageText)
      ensures r.KeyError? ==> Cipher.ApplyShift(message.messageText, 26) == KeyError(r.key)
      ensures r.Ok? ==> (r.value.0.None? <==> NoCandidateScores(message.validWords, message.messageText))
      ensures r.Ok? && r.value.0.None? ==> r.value.1.None?
      ensures r.Ok? && r.value.0.Some? ==>
        && IsFirstBest(message.validWords, message.messageText, r.value.0.value)
        && r.value.1 == Some(Candidate(message.messageText, r.value.0.value))
    {
      var text, validWords := message.messageText, message.validWords;
      var bestShift: Option<int> := None;
      var bestDecryptedText: Option<Text> := None;
      var maxValidWords: nat := 0;
      for shift := 0 to 26
        invariant shift > 0 ==> Shiftable(text)
        invariant shift == 0 ==> bestShift.None? && maxValidWords == 0
        invariant shift > 0 ==> (bestShift, maxValidWords) == RunningBest(Scores(validWords, text), shift)
        invariant bestDecryptedText == if bestShift.Some? then Some(Candidate(text, bestShift.value)) else None
      {
        var decryptedText := message.ApplyShift(26 - shift);
        if decryptedText.KeyError? {
          return KeyError(decryptedText.key);
        }
        var words := Split(decryptedText.value);
        var validWordCount := CountValidWords(validWords, words);
        DecryptStep(validWords, text, shift, decryptedText.value, validWordCount);
        if validWordCount > maxValidWords {
          maxValidWords := validWordCount;
          bestShift := Some(shift);
          bestDecryptedText := Some(decryptedText.value);
        }
      }
      DecryptDone(validWords, text);
      r := Ok((bestShift, bestDecryptedText));
    }
  }

  /**
   * Decrypting undoes encrypting: if `cipher` is the text shifted by `k`, the
   * candidate `decrypt_message` tries for loop value `k` is the original text.
   */
  lemma CandidateUndoesEncryption(plain: Text, k: int)
    requires Shiftable(plain)
    ensures Shiftable(Cipher.ApplyShift(plain, k).value)
    ensures Candidate(Cipher.ApplyShift(plain, k).value, k) == plain
  {
    ApplyShiftRoundTrip(plain, k);
  }

  /** Ties go to the lowest shift, so at most one shift is reported. */
  lemma FirstBestUnique(wordList: seq<Text>, text: Text, a: int, b: int)
    requires Shiftable(text)
    requires IsFirstBest(wordList, text, a) && IsFirstBest(wordList, text, b)
    ensures a == b
  {
  }

  /** A text without letters is its own candidate for every shift. */
  lemma LetterlessCandidate(text: Text, s: int)
    requires forall i | 0 <= i < |text| :: !IsAlpha(text[i])
    ensures Shiftable(text)
    ensures Candidate(text, s) == text
  {
    var c := Candidate(text, s);
    assert forall i | 0 <= i < |text| :: c[i] == text[i];
  }

  /** Among equal scores only the first can be the first maximum. */
  lemma EqualScoresFirstMax(scores: seq<nat>, b: int)
    requires forall s | 0 <= s < |scores| :: scores[s] == scores[0]
    requires IsFirstMax(scores, b)
    ensures b == 0
  {
  }

  /**
   * A text without letters scores 0 for every shift when every listed word has a
   * letter (as the words of `load_words` do), so `decrypt_message` returns
   * `(None, None)` for it.
   */
  lemma LetterlessNoScore(wordList: seq<Text>, text: Text)
    requires forall k | 0 <= k < |wordList| :: !Letterless(wordList[k])
    requires Letterless(text)
    ensures Shiftable(text)
    ensures NoCandidateScores(wordList, text)
  {
    LetterlessCandidate(text, 0);
    var ws := Split(text);
    SplitLetterless(text);
    forall k | 0 <= k < |ws| ensures !IsWord(wordList, ws[k]) {
      IsWordLetterless(wordList, ws[k]);
    }
    CountValidWordsExtremes(wordList, ws);
    forall s | 0 <= s < 26 ensures Scores(wordList, text)[s] == 0 {
      LetterlessCandidate(text, s);
    }
  }

  /**
   * A text without letters is its own candidate for every shift, so all the
   * candidates score alike and only shift 0 can be reported.
   */
  lemma LetterlessText(wordList: seq<Text>, text: Text, b: int)
    requires forall i | 0 <= i < |text| :: !IsAlpha(text[i])
    ensures Shiftable(text)
    ensures forall s | 0 <= s < 26 :: Candidate(text, s) == text
    ensures IsFirstBest(wordList, text, b) ==> b == 0
  {
    LetterlessCandidate(text, 0);
    forall s | 0 <= s < 26 ensures Candidate(text, s) == text {
      LetterlessCandidate(text, s);
    }
    if IsFirstBest(wordList, text, b) {
      var scores := Scores(wordList, text);
      forall s | 0 <= s < 26 ensures scores[s] == scores[0] {
        LetterlessCandidate(text, s);
      }
      EqualScoresFirstMax(scores, b);
    }
  }

  /** A non-empty run of small ASCII letters. */
  predicate IsLowerWord(w: Text) {
    w != [] && forall i | 0 <= i < |w| :: IsAsciiLower(w[i])
  }

  /** A word of small letters is its own lower case. */
  lemma LowerOfLowerWord(w: Text)
    requires IsLowerWord(w)
    ensures Lower(w) == w
  {
    LowerSpec(w);
    forall i | 0 <= i < |w| ensures Lower(w)[i] == w[i] {
      assert IsAsciiLetter(w[i]);
    }
  }

  /** No end of a word of small letters is stripped. */
  lemma StripLowerWord(w: Text)
    requires IsLowerWord(w)
    ensures Strip(STRIP_CHARS, w) == w
  {
    if IsStripped(w[0]) { StrippedIsNotLetter(w[0]); }
    if IsStripped(w[|w| - 1]) { StrippedIsNotLetter(w[|w| - 1]); }
    StripExact(STRIP_CHARS, [], w, []);
    assert [] + w + [] == w;
  }

  /** `is_word` compares a word of small letters unchanged. */
  lemma NormalizeLowerWord(w: Text)
    requires IsLowerWord(w)
    ensures Normalize(w) == w
  {
    LowerOfLowerWord(w);
    StripLowerWord(w);
  }

  /** Shifting a word of small letters gives one, which is the same word exactly for multiples of 26. */
  lemma ShiftLowerWord(w: Text, d: int)
    requires IsLowerWord(w)
    ensures Shiftable(w)
    ensures IsLowerWord(Cipher.ApplyShift(w, d).value)
    ensures Cipher.ApplyShift(w, d).value == w <==> d % 26 == 0
  {
    assert Shiftable(w) by {
      forall i | 0 <= i < |w| ensures !IsForeignLetter(w[i]) {
        assert IsAsciiLetter(w[i]);
      }
    }
    var x := Cipher.ApplyShift(w, d).value;
    if d % 26 == 0 {
      ApplyShiftIdentity(w, d);
    } else {
      assert Index(x[0]) == (Index(w[0]) + d) % 26;
    }
  }

  /** The candidate for loop value `s` of a text shifted by `k` is the text shifted by `k + 26 - s`. */
  lemma CandidateOfShifted(plain: Text, k: int, s: int)
    requires Shiftable(plain)
    ensures Shiftable(Cipher.ApplyShift(plain, k).value)
    ensures Candidate(Cipher.ApplyShift(plain, k).value, s) == Cipher.ApplyShift(plain, k + 26 - s).value
  {
    ApplyShiftCompose(plain, k, 26 - s);
    var c := Cipher.ApplyShift(plain, k).value;
    assert Cipher.ApplyShift(c, 26 - s).Ok?;
  }

  /** Shifting by `k` and back by `26 - s` is a whole turn exactly when `s == k`. */
  lemma ShiftBackIsWhole(k: int, s: int)
    requires 0 <= k < 26 && 0 <= s < 26
    ensures (k + 26 - s) % 26 == 0 <==> s == k
  {
    var d := k + 26 - s;
    if d < 26 {
      assert d % 26 == d;
    } else {
      assert d % 26 == d - 26;
    }
  }

  /**
   * The candidate for loop value `s` of a word of small letters shifted by `k` is
   * again such a word, and it is the original word exactly when `s == k`.
   */
  lemma OneWordCandidate(plain: Text, k: int, s: int)
    requires IsLowerWord(plain) && 0 <= k < 26 && 0 <= s < 26
    ensures Shiftable(Cipher.ApplyShift(plain, k).value)
    ensures Candidate(Cipher.ApplyShift(plain, k).value, s) == Cipher.ApplyShift(plain, k + 26 - s).value
    ensures IsLowerWord(Cipher.ApplyShift(plain, k + 26 - s).value)
    ensures Cipher.ApplyShift(plain, k + 26 - s).value == plain <==> s == k
  {
    ShiftLowerWord(plain, k + 26 - s);
    CandidateOfShifted(plain, k, s);
    ShiftBackIsWhole(k, s);
  }

  /**
   * The score of each candidate when the word list holds just the plain word
   * that was encrypted with `k`: 1 for the loop value `k`, 0 for every other.
   */
  lemma OneWordScore(plain: Text, k: int, s: int)
    requires IsLowerWord(plain) && 0 <= k < 26 && 0 <= s < 26
    ensures Shiftable(Cipher.ApplyShift(plain, k).value)
    ensures CandidateScore([plain], Cipher.ApplyShift(plain, k).value, s) == if s == k then 1 else 0
  {
    OneWordCandidate(plain, k, s);
    var c, x := Cipher.ApplyShift(plain, k).value, Cipher.ApplyShift(plain, k + 26 - s).value;
    CandidateScoreOfLowerWord(plain, c, s, x, s == k);
  }

  /**
   * A candidate that is a word of small letters scores 1 if it is the one valid
   * word (`isPlain`), else 0.
   */
  lemma CandidateScoreOfLowerWord(plain: Text, c: Text, s: int, x: Text, isPlain: bool)
    requires Shiftable(c) && Candidate(c, s) == x && IsLowerWord(x) && (x == plain <==> isPlain)
    ensures CandidateScore([plain], c, s) == if isPlain then 1 else 0
  {
    SplitToken(x);
    SingleTokenScore([plain], c, s, x);
    LowerWordIsPlain(plain, x, isPlain);
  }

  /** With only `plain` listed, a word of small letters is valid exactly when it is `plain`. */
  lemma LowerWordIsPlain(plain: Text, x: Text, isPlain: bool)
    requires IsLowerWord(x) && (x == plain <==> isPlain)
    ensures IsWord([plain], x) == isPlain
  {
    NormalizeLowerWord(x);
  }

  /** A candidate that is a single token scores 1 if that token is a word, else 0. */
  lemma SingleTokenScore(wordList: seq<Text>, c: Text, s: int, x: Text)
    requires Shiftable(c) && Split(Candidate(c, s)) == [x]
    ensures CandidateScore(wordList, c, s) == if IsWord(wordList, x) then 1 else 0
  {
    CountValidWordsSingle(wordList, x);
  }

  /**
   * With the plain word as the only valid word, `decrypt_message` reports the
   * shift that encrypted it: the loop value `k`, not the `26 - k` that decrypts.
   */
  lemma OneWordDecrypt(plain: Text, k: int)
    requires IsLowerWord(plain) && 0 <= k < 26
    ensures Shiftable(Cipher.ApplyShift(plain, k).value)
    ensures IsFirstBest([plain], Cipher.ApplyShift(plain, k).value, k)
  {
    var c := Cipher.ApplyShift(plain, k).value;
    OneWordScore(plain, k, 0);
    var scores := Scores([plain], c);
    forall s | 0 <= s < 26 ensures scores[s] == if s == k then 1 else 0 {
      OneWordScore(plain, k, s);
    }
    IndicatorFirstMax(scores, k);
  }

  /** A score of 1 at `k` and 0 everywhere else has its first maximum at `k`. */
  lemma IndicatorFirstMax(scores: seq<nat>, k: int)
    requires 0 <= k < |scores|
    requires forall s | 0 <= s < |scores| :: scores[s] == if s == k then 1 else 0
    ensures IsFirstMax(scores, k)
  {
  }

  /** Shifting `'hello'` by 2 gives `'jgnnq'`. */
  lemma EncryptHelloText()
    ensures Cipher.ApplyShift("hello", 2) == Ok("jgnnq")
  {
    var plain: Text := "hello";
    assert Shiftable(plain);
    var x := Cipher.ApplyShift(plain, 2).value;
    RotateHello();
    assert x[0] == 'j' && x[1] == 'g' && x[2] == 'n' && x[3] == 'n' && x[4] == 'q';
    assert x == "jgnnq";
  }

  /** The letters of `'hello'` two places on. */
  lemma RotateHello()
    ensures Rotate('h', 2) == 'j' && Rotate('e', 2) == 'g' && Rotate('l', 2) == 'n' && Rotate('o', 2) == 'q'
  {
  }

  /** `PlaintextMessage('hello', 2)` encrypts to `'jgnnq'`. */
  method EncryptHello(words: seq<Text>) returns (encrypted: Text)
    ensures encrypted == "jgnnq"
  {
    EncryptHelloText();
    var plaintext := new PlaintextMessage("hello", words, 2);
    encrypted := plaintext.GetMessageTextEncrypted();
  }

  /**
   * `CiphertextMessage('jgnnq')` with `'hello'` in the word list decrypts to
   * `(2, 'hello')`: the loop value, not the `24` that undoes the shift.
   */
  method DecryptJgnnq() returns (r: Result<(Option<int>, Option<Text>)>)
    ensures r == Ok((Some(2), Some("hello")))
  {
    EncryptHelloText();
    OneWordDecrypt("hello", 2);
    CandidateUndoesEncryption("hello", 2);
    var ciphertext := new CiphertextMessage("jgnnq", ["hello"]);
    r := ciphertext.DecryptMessage();
    FirstBestUnique(["hello"], "jgnnq", r.value.0.value, 2);
  }
}
