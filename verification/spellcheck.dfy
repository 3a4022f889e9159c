/** The driver (Spellcheck.checkText and the dictionary load in main): the
    dictionary words are added to a fresh table, then every word the scanner
    finds in the text is checked, and the number of words checked is
    returned. */
module Spellcheck {
  import opened Chars
  import opened Table
  import opened Morphology
  import opened Tokenizer

  /** How many of `words` the table rejects (neither the word nor any rule
      rewrite of it is present). */
  ghost function Rejected(t: HashTable, words: seq<string>): nat
    requires WellSized(t)
    requires forall i :: 0 <= i < |words| ==> |words[i]| > 0
  {
    if |words| == 0 then 0
    else Rejected(t, words[..|words| - 1]) + (if Accepted(t, words[|words| - 1]) then 0 else 1)
  }

  /** checkWord applied to every word in order. The keys are untouched; each
      word costs between one and three lookups; the misspelled tally grows by
      exactly the number of rejected words. */
  function CheckAll(s: Session, words: seq<string>): (r: Session)
    requires WellSized(s.table)
    requires forall i :: 0 <= i < |words| ==> |words[i]| > 0
    ensures SameKeys(s.table, r.table)
    ensures |words| <= LookupsBetween(s.table, r.table) <= 3 * |words|
    ensures r.misspelled == s.misspelled + Rejected(s.table, words)
  {
    if |words| == 0 then s
    else
      var front := words[..|words| - 1];
      var w := words[|words| - 1];
      var mid := CheckAll(s, front);
      CheckWordEffect(mid, w);
      AcceptedSameKeys(s.table, mid.table, w);
      CheckWord(mid, w)
  }

  /** Acceptance depends only on the keys of the table, not on its counters. */
  lemma AcceptedSameKeys(t: HashTable, t': HashTable, w: string)
    requires WellSized(t) && SameKeys(t, t') && |w| > 0
    ensures WellSized(t')
    ensures Accepted(t', w) == Accepted(t, w)
  {
    assert forall x :: Contains(t', x) == Contains(t, x);
  }

  /** checkText: scans the text and checks each word found, returning the
      number of words checked. The words checked are Words(text), in order,
      and the resulting session is that of checking them one after another;
      each costs one to three lookups and adds at most one misspelled word,
      and the dictionary is untouched. */
  method CheckText(s: Session, text: string) returns (r: Session, wordCount: nat)
    requires WellSized(s.table)
    ensures forall i :: 0 <= i < |Words(text)| ==> |Words(text)[i]| > 0 && IsWord(Words(text)[i])
    ensures wordCount == |Words(text)|
    ensures r == CheckAll(s, Words(text))
    ensures SameKeys(s.table, r.table)
    ensures wordCount <= LookupsBetween(s.table, r.table) <= 3 * wordCount
    ensures s.misspelled <= r.misspelled <= s.misspelled + wordCount
    ensures Letters(text) != [] ==> wordCount > 0
  {
    var words := Tokenize(text);
    r := CheckAll(s, words);
    wordCount := |words|;
    RejectedAtMost(s.table, words);
  }

  /** No more words are rejected than were checked. */
  lemma {:induction false} RejectedAtMost(t: HashTable, words: seq<string>)
    requires WellSized(t)
    requires forall i :: 0 <= i < |words| ==> |words[i]| > 0
    ensures Rejected(t, words) <= |words|
  {
    if |words| > 0 {
      RejectedAtMost(t, words[..|words| - 1]);
    }
  }

  /** Loading a dictionary into a fresh table: the table is valid, counts
      every word read, and holds exactly those words. */
  lemma LoadDictionary(compress: int -> int, words: seq<string>)
    requires IsCompression(compress)
    ensures var t := ReadWords(Empty(compress), words);
            && Valid(t)
            && t.dictLength == |words|
            && forall x :: Contains(t, x) <==> x in words
  {
    ReadWordsValid(Empty(compress), words);
  }

  /** A table that holds exactly the given dictionary words. */
  ghost predicate Holds(t: HashTable, dict: seq<string>) {
    WellSized(t) && forall x :: Contains(t, x) <==> x in dict
  }

  /** A fresh table loaded with a dictionary holds exactly that dictionary. */
  lemma LoadedTableHolds(compress: int -> int, dict: seq<string>)
    requires IsCompression(compress)
    ensures Holds(ReadWords(Empty(compress), dict), dict)
  {
  }

  /** With the dictionary {"cat", "dog"}, "cats" misses, then "cat" is found:
      two lookups and no misspelling. */
  lemma CatsScenario(t: HashTable, word: string)
    requires Holds(t, ["cat", "dog"]) && word == "cats"
    ensures var r := CheckWord(Session(t, 0), word);
            && r.misspelled == 0
            && LookupsBetween(t, r.table) == 2
  {
    CatsFacts(t, word);
    PluralTriesWithoutS(Session(t, 0), word);
  }

  /** What the dictionary {"cat", "dog"} says about "cats" and its stem. */
  lemma CatsFacts(t: HashTable, word: string)
    requires Holds(t, ["cat", "dog"]) && word == "cats"
    ensures !Contains(t, word) && Contains(t, ToLower(word)[..3])
  {
    LowerPrefix(word, 3, "cat");
  }

  /** A word without capitals keeps its prefixes when lower-cased. */
  lemma LowerPrefix(word: string, n: nat, prefix: string)
    requires n <= |word| && word[..n] == prefix
    requires forall i :: 0 <= i < |word| ==> !IsUpper(word[i])
    ensures ToLower(word)[..n] == prefix
  {
    ToLowerNoUpper(word);
  }

  /** With the dictionary {"bake"}, "baked" misses, "bak" misses and "bake"
      is found: three lookups and no misspelling. */
  lemma BakedScenario(t: HashTable, word: string)
    requires Holds(t, ["bake"]) && word == "baked"
    ensures var r := CheckWord(Session(t, 0), word);
            && r.misspelled == 0
            && LookupsBetween(t, r.table) == 3
  {
    BakedFacts(t, word);
    EdErTriesTwoThenOne(Session(t, 0), word);
  }

  /** What the dictionary {"bake"} says about "baked", "bak" and "bake". */
  lemma BakedFacts(t: HashTable, word: string)
    requires Holds(t, ["bake"]) && word == "baked"
    ensures !Contains(t, word) && !Contains(t, ToLower(word)[..3]) && Contains(t, ToLower(word)[..4])
  {
    BakedStem(word, 3);
    BakedStem(word, 4);
  }

  /** The lower-cased prefixes of "baked" are not in {"baked"} below length 4
      and are "bake" at length 4. */
  lemma BakedStem(word: string, n: nat)
    requires word == "baked" && 3 <= n <= 4
    ensures ToLower(word)[..n] in ["bake"] <==> n == 4
  {
    ToLowerNoUpper(word);
    assert |ToLower(word)[..n]| == n;
    if n == 4 {
      assert word[..4] == "bake";
    }
  }

  /** With the dictionary {"dog"}, "Dog" misses and "dog" is found. */
  lemma CapitalisedScenario(t: HashTable, word: string)
    requires Holds(t, ["dog"]) && word == "Dog"
    ensures var r := CheckWord(Session(t, 0), word);
            && r.misspelled == 0
            && LookupsBetween(t, r.table) == 2
  {
    DogFacts(t, word);
    CapitalisedWordTriesOnlyLowerCase(Session(t, 0), word);
  }

  /** What the dictionary {"dog"} says about "Dog" and its lower-case form. */
  lemma DogFacts(t: HashTable, word: string)
    requires Holds(t, ["dog"]) && word == "Dog"
    ensures !Contains(t, word) && Contains(t, ToLower(word))
  {
    ToLowerCapitalised(word);
    assert LowerChar('D') == 'd';
    assert [LowerChar(word[0])] + word[1..] == "dog";
  }

  /** With the dictionary {"cat"}, "Cats" is reported: its only second try is
      "cats", never "cat". */
  lemma CapitalisedPluralScenario(t: HashTable, word: string)
    requires Holds(t, ["cat"]) && word == "Cats"
    ensures var r := CheckWord(Session(t, 0), word);
            && r.misspelled == 1
            && LookupsBetween(t, r.table) == 2
  {
    CapitalisedCatsFacts(t, word);
    CapitalisedWordTriesOnlyLowerCase(Session(t, 0), word);
  }

  /** What the dictionary {"cat"} says about "Cats" and its lower-case form. */
  lemma CapitalisedCatsFacts(t: HashTable, word: string)
    requires Holds(t, ["cat"]) && word == "Cats"
    ensures !Contains(t, word) && !Contains(t, ToLower(word))
  {
    ToLowerCapitalised(word);
    assert LowerChar('C') == 'c';
    assert [LowerChar(word[0])] + word[1..] == "cats";
  }

  /** "xyzzy" matches no rule: with a dictionary that lacks it, one lookup and
      one misspelled word. */
  lemma UnknownWordScenario(t: HashTable, dict: seq<string>, word: string)
    requires Holds(t, dict) && word == "xyzzy" && word !in dict
    ensures var r := CheckWord(Session(t, 0), word);
            && r.misspelled == 1
            && LookupsBetween(t, r.table) == 1
  {
    assert FollowUps(word) == [];
    CheckWordEffect(Session(t, 0), word);
  }
}
