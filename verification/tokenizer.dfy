/** The character scanner inside checkText: the text is read one character at
    a time, non-letters are skipped until a letter appears, and then letters
    and apostrophes are collected into a word until some other character (or
    the end of the text) is reached. */
module Tokenizer {
  import opened Chars

  /** The words in order, joined with nothing between them. */
  function Concat(words: seq<string>): string {
    if |words| == 0 then [] else Concat(words[..|words| - 1]) + words[|words| - 1]
  }

  /** Appending a word appends its letters. */
  lemma ConcatAppend(words: seq<string>, word: string)
    ensures Letters(Concat(words + [word])) == Letters(Concat(words)) + Letters(word)
  {
    assert (words + [word])[..|words|] == words;
    LettersAppend(Concat(words), word);
  }

  /** A word the scanner can produce: non-empty, letters and apostrophes only. */
  predicate IsWord(w: string) {
    |w| > 0 && forall i :: 0 <= i < |w| ==> IsWordChar(w[i])
  }

  /** The index of the first letter at or after `pos`, or |text| if none. */
  function NextLetter(text: string, pos: nat): (k: nat)
    requires pos <= |text|
    decreases |text| - pos
    ensures pos <= k <= |text|
    ensures k < |text| ==> IsLetter(text[k])
  {
    if pos == |text| || IsLetter(text[pos]) then pos else NextLetter(text, pos + 1)
  }

  /** The end of the run of letters and apostrophes starting at `k`: the
      index of the first other character, or |text| if none. */
  function RunEnd(text: string, k: nat): (e: nat)
    requires k <= |text|
    decreases |text| - k
    ensures k <= e <= |text|
    ensures e < |text| ==> !IsWordChar(text[e])
  {
    if k == |text| || !IsWordChar(text[k]) then k else RunEnd(text, k + 1)
  }

  /** One pass of the scanner from `pos`, defined by where the word lies in
      the text: the word is the maximal run of letters and apostrophes at
      the next letter, and the pass resumes past the character that ends
      the run. When no letter is left, the scanner still collects the
      text's last character if it is an apostrophe. */
  function Scan(text: string, pos: nat): (r: (string, nat))
    requires pos < |text|
    ensures pos < r.1 <= |text|
  {
    var k := NextLetter(text, pos);
    if k == |text| then (if text[|text| - 1] == '\'' then ("'", |text|) else ("", |text|))
    else
      var e := RunEnd(text, k);
      (text[k..e], if e == |text| then |text| else e + 1)
  }

  /** The words the scanner yields from `pos` on: each pass's word, the
      empty ones left out. */
  function WordsFrom(text: string, pos: nat): seq<string>
    requires pos <= |text|
    decreases |text| - pos
  {
    if pos == |text| then []
    else
      var (word, next) := Scan(text, pos);
      (if word == [] then [] else [word]) + WordsFrom(text, next)
  }

  /** The words checkText hands to checkWord, in order. */
  function Words(text: string): seq<string> {
    WordsFrom(text, 0)
  }

  /** NextLetter is the first letter after a stretch with none. */
  lemma {:induction false} NextLetterIs(text: string, pos: nat, k: nat)
    requires pos <= k <= |text|
    requires forall j :: pos <= j < k ==> !IsLetter(text[j])
    requires k == |text| || IsLetter(text[k])
    ensures NextLetter(text, pos) == k
    decreases k - pos
  {
    if pos < k {
      NextLetterIs(text, pos + 1, k);
    }
  }

  /** RunEnd is the first character past a stretch of letters and
      apostrophes that is not one of them. */
  lemma {:induction false} RunEndIs(text: string, k: nat, e: nat)
    requires k <= e <= |text|
    requires forall j :: k <= j < e ==> IsWordChar(text[j])
    requires e == |text| || !IsWordChar(text[e])
    ensures RunEnd(text, k) == e
    decreases e - k
  {
    if k < e {
      RunEndIs(text, k + 1, e);
    }
  }

  /** The first loop of the scanner: reads characters from `start` on until
      one is a letter or the text ends. `current` is the last character read,
      and everything skipped before it holds no letter. */
  method SkipToLetter(text: string, start: nat) returns (current: char, pos: nat)
    requires start < |text|
    ensures start < pos <= |text| && current == text[pos - 1]
    ensures IsLetter(current) || pos == |text|
    ensures forall k :: start <= k < pos - 1 ==> !IsLetter(text[k])
  {
    current := text[start];
    pos := start + 1;
    while !IsLetter(current) && pos < |text|
      invariant start < pos <= |text| && current == text[pos - 1]
      invariant forall k :: start <= k < pos - 1 ==> !IsLetter(text[k])
    {
      current := text[pos];
      pos := pos + 1;
    }
  }

  /** The second loop of the scanner: `current` (the character at pos - 1) and
      the characters after it are collected while they are letters or
      apostrophes. The word is the run of the text starting at pos - 1, and the
      scanner has also consumed the character that ended the run, if any. */
  method CollectWord(text: string, current: char, pos: nat) returns (word: string, next: nat)
    requires 0 < pos <= |text| && current == text[pos - 1]
    ensures pos <= next <= |text|
    ensures pos - 1 + |word| <= next && text[pos - 1 .. pos - 1 + |word|] == word
    ensures forall i :: 0 <= i < |word| ==> IsWordChar(word[i])
    ensures next == pos - 1 + |word| + 1 ==> !IsWordChar(text[next - 1])
    ensures next == pos - 1 + |word| + 1 || (next == |text| && next == pos - 1 + |word|)
  {
    var c := current;
    word := "";
    next := pos;
    while IsWordChar(c)
      invariant pos <= next <= |text| && c == text[next - 1]
      invariant next == pos + |word| && text[pos - 1 .. pos - 1 + |word|] == word
      invariant forall i :: 0 <= i < |word| ==> IsWordChar(word[i])
      decreases |text| - next
    {
      word := word + [c];
      if next == |text| {
        return;
      }
      c := text[next];
      next := next + 1;
    }
  }

  /** The letters of the characters the word loop consumed are the letters
      of the word. */
  lemma ConsumedLetters(text: string, start: nat, word: string, next: nat)
    requires start + |word| <= next <= |text| && text[start .. start + |word|] == word
    requires next == start + |word| + 1 ==> !IsWordChar(text[next - 1])
    requires next == start + |word| + 1 || next == start + |word|
    ensures Letters(text[..next]) == Letters(text[..start]) + Letters(word)
  {
    RunLetters(text, start, word);
    if next == start + |word| + 1 {
      NonLetterAddsNothing(text, next);
    }
  }

  /** A run of the text read at `start` contributes its own letters. */
  lemma RunLetters(text: string, start: nat, word: string)
    requires start + |word| <= |text| && text[start .. start + |word|] == word
    ensures Letters(text[..start + |word|]) == Letters(text[..start]) + Letters(word)
  {
    assert text[..start + |word|] == text[..start] + word;
    LettersAppend(text[..start], word);
  }

  /** Reading one more character that is not a letter adds no letter. */
  lemma NonLetterAddsNothing(text: string, n: nat)
    requires 0 < n <= |text| && !IsLetter(text[n - 1])
    ensures Letters(text[..n]) == Letters(text[..n - 1])
  {
    assert text[..n][..n - 1] == text[..n - 1];
  }

  /** Skipped characters that are not letters add no letters. */
  lemma SkippedLetters(text: string, start: nat, pos: nat)
    requires start <= pos <= |text|
    requires forall k :: start <= k < pos ==> !IsLetter(text[k])
    ensures Letters(text[..pos]) == Letters(text[..start])
    decreases pos - start
  {
    if pos > start {
      assert text[..pos][..pos - 1] == text[..pos - 1];
      SkippedLetters(text, start, pos - 1);
    }
  }

  /** One pass of the scanner's outer loop: skip to a letter, then collect a
      word (possibly empty, when the text ends first). The word and the place
      the pass resumes are exactly those Scan describes; the
      letters consumed are the word's letters; a non-empty word starts with
      a letter unless it is a lone apostrophe that ends the text. */
  method NextWord(text: string, pos: nat) returns (word: string, next: nat)
    requires pos < |text|
    ensures pos < next <= |text|
    ensures (word, next) == Scan(text, pos)
    ensures Letters(text[..next]) == Letters(text[..pos]) + Letters(word)
    ensures forall i :: 0 <= i < |word| ==> IsWordChar(word[i])
    ensures |word| > 0 ==> IsLetter(word[0]) || (word == "'" && next == |text| && text[|text| - 1] == '\'')
  {
    var current, p := SkipToLetter(text, pos);
    SkippedLetters(text, pos, p - 1);
    word, next := CollectWord(text, current, p);
    ConsumedLetters(text, p - 1, word, next);
    if |word| != 0 {
      assert text[p - 1 .. p - 1 + |word|][0] == text[p - 1];
    }
    ScanMatches(text, pos, p, word, next);
  }

  /** What the two loops found is what Scan describes. */
  lemma ScanMatches(text: string, pos: nat, p: nat, word: string, next: nat)
    requires pos < p <= |text| && p <= next <= |text|
    requires IsLetter(text[p - 1]) || p == |text|
    requires forall k :: pos <= k < p - 1 ==> !IsLetter(text[k])
    requires p - 1 + |word| <= next && text[p - 1 .. p - 1 + |word|] == word
    requires forall i :: 0 <= i < |word| ==> IsWordChar(word[i])
    requires next == p - 1 + |word| + 1 ==> !IsWordChar(text[next - 1])
    requires next == p - 1 + |word| + 1 || (next == |text| && next == p - 1 + |word|)
    ensures (word, next) == Scan(text, pos)
  {
    if IsLetter(text[p - 1]) {
      NextLetterIs(text, pos, p - 1);
      RunOfWord(text, p - 1, word);
      RunEndIs(text, p - 1, p - 1 + |word|);
    } else {
      NextLetterIs(text, pos, |text|);
      if text[p - 1] == '\'' {
        assert |word| == 1 && next == |text|;
        assert word == text[p - 1 .. p] == "'";
      } else {
        assert |word| == 0;
      }
    }
  }

  /** A word copied from the text at k makes every character of its span a
      letter or apostrophe. */
  lemma RunOfWord(text: string, k: nat, word: string)
    requires k + |word| <= |text| && text[k .. k + |word|] == word
    requires forall i :: 0 <= i < |word| ==> IsWordChar(word[i])
    ensures forall j :: k <= j < k + |word| ==> IsWordChar(text[j])
  {
    forall j | k <= j < k + |word|
      ensures IsWordChar(text[j])
    {
      assert text[j] == word[j - k];
    }
  }

  /** The bookkeeping of one pass of Tokenize against Words. */
  lemma WordsStep(text: string, words: seq<string>, pos: nat, word: string, next: nat)
    requires pos < next <= |text|
    requires words + WordsFrom(text, pos) == Words(text)
    requires pos < |text| && (word, next) == Scan(text, pos)
    ensures (if word == [] then words else words + [word]) + WordsFrom(text, next) == Words(text)
  {
    if word != [] {
      assert words + ([word] + WordsFrom(text, next)) == (words + [word]) + WordsFrom(text, next);
    }
  }

  /** A word the scanner may produce at the given place: one that starts
      with a letter, or the lone apostrophe "'" that ends the text. */
  predicate StartsRight(w: string, text: string, last: bool) {
    || (|w| > 0 && IsLetter(w[0]))
    || (last && w == "'" && |text| > 0 && text[|text| - 1] == '\'')
  }

  /** Splits a text into the words the source passes to checkWord, in order:
      exactly the words of Words(text). Every word is non-empty and made of letters and apostrophes; the letters
      of the words, read in order, are exactly the letters of the text; and
      every word starts with a letter except possibly a last word "'" taken
      from an apostrophe that ends the text. */
  method Tokenize(text: string) returns (words: seq<string>)
    ensures forall i :: 0 <= i < |words| ==> IsWord(words[i])
    ensures Letters(Concat(words)) == Letters(text)
    ensures forall i :: 0 <= i < |words| ==> StartsRight(words[i], text, i == |words| - 1)
    ensures words == Words(text)
  {
    words := [];
    var pos := 0;
    while pos < |text|
      invariant 0 <= pos <= |text|
      invariant forall i :: 0 <= i < |words| ==> IsWord(words[i])
      invariant Letters(Concat(words)) == Letters(text[..pos])
      invariant forall i :: 0 <= i < |words| ==> StartsRight(words[i], text, i == |words| - 1)
      invariant |words| > 0 && !StartsRight(words[|words| - 1], text, false) ==> pos == |text|
      invariant words + WordsFrom(text, pos) == Words(text)
    {
      var word, next := NextWord(text, pos);
      WordsStep(text, words, pos, word, next);
      TokenizeStep(text, words, pos, word, next);
      if |word| != 0 {
        words := words + [word];
      }
      pos := next;
    }
    assert text[..pos] == text;
  }

  /** One pass of Tokenize keeps its loop invariants about the words' shape
      and letters. */
  lemma TokenizeStep(text: string, words: seq<string>, pos: nat, word: string, next: nat)
    requires pos < next <= |text|
    requires forall i :: 0 <= i < |words| ==> IsWord(words[i])
    requires Letters(Concat(words)) == Letters(text[..pos])
    requires forall i :: 0 <= i < |words| ==> StartsRight(words[i], text, i == |words| - 1)
    requires |words| > 0 && !StartsRight(words[|words| - 1], text, false) ==> pos == |text|
    requires Letters(text[..next]) == Letters(text[..pos]) + Letters(word)
    requires forall i :: 0 <= i < |word| ==> IsWordChar(word[i])
    requires |word| > 0 ==> IsLetter(word[0]) || (word == "'" && next == |text| && text[|text| - 1] == '\'')
    ensures var ws := if |word| != 0 then words + [word] else words;
            && (forall i :: 0 <= i < |ws| ==> IsWord(ws[i]))
            && Letters(Concat(ws)) == Letters(text[..next])
            && (forall i :: 0 <= i < |ws| ==> StartsRight(ws[i], text, i == |ws| - 1))
            && (|ws| > 0 && !StartsRight(ws[|ws| - 1], text, false) ==> next == |text|)
  {
    if |word| != 0 {
      assert IsWord(word);
      ConcatAppend(words, word);
    }
  }

  /** A space ends a word: "cat dog" is two words. */
  lemma TwoWordsScenario()
    ensures Words("cat dog") == ["cat", "dog"]
  {
    var t := "cat dog";
    assert RunEnd(t, 3) == 3 && RunEnd(t, 2) == 3 && RunEnd(t, 1) == 3 && RunEnd(t, 0) == 3;
    assert t[0..3] == "cat" && Scan(t, 0) == ("cat", 4);
    assert RunEnd(t, 7) == 7 && RunEnd(t, 6) == 7 && RunEnd(t, 5) == 7 && RunEnd(t, 4) == 7;
    assert t[4..7] == "dog" && Scan(t, 4) == ("dog", 7);
    assert WordsFrom(t, 4) == ["dog"];
  }

  /** An apostrophe inside a word is kept: "don't" is one word. */
  lemma ContractionScenario()
    ensures Words("don't") == ["don't"]
  {
    var t := "don't";
    assert RunEnd(t, 5) == 5 && RunEnd(t, 4) == 5 && RunEnd(t, 3) == 5;
    assert RunEnd(t, 2) == 5 && RunEnd(t, 1) == 5 && RunEnd(t, 0) == 5;
    assert t[0..5] == "don't" && Scan(t, 0) == ("don't", 5);
  }

  /** A leading apostrophe is skipped with the other non-letters. */
  lemma LeadingApostropheScenario()
    ensures Words("'tis") == ["tis"]
  {
    var t := "'tis";
    assert NextLetter(t, 0) == 1;
    assert RunEnd(t, 4) == 4 && RunEnd(t, 3) == 4 && RunEnd(t, 2) == 4 && RunEnd(t, 1) == 4;
    assert t[1..4] == "tis" && Scan(t, 0) == ("tis", 4);
  }

  /** An apostrophe that ends the text after a non-letter is checked as a
      word of its own. */
  lemma TrailingApostropheScenario()
    ensures Words("a '") == ["a", "'"]
  {
    var t := "a '";
    assert RunEnd(t, 1) == 1 && RunEnd(t, 0) == 1;
    assert t[0..1] == "a" && Scan(t, 0) == ("a", 2);
    assert NextLetter(t, 3) == 3 && NextLetter(t, 2) == 3;
    assert Scan(t, 2) == ("'", 3);
    assert WordsFrom(t, 2) == ["'"];
  }
}
