/** The morphology matcher (Spellcheck.checkWord): an exact lookup, then at
    most one family of case or suffix rewrites chosen by the word's surface
    form, each rewrite looked up in turn until one is found. A word no lookup
    finds is counted as misspelled. */
module Morphology {
  import opened Chars
  import opened Table

  /** The checker's state: the dictionary with its counters, and the running
      tally of misspelled words. */
  datatype Session = Session(table: HashTable, misspelled: nat)

  /** The lookup counter spent by one step. */
  function LookupsBetween(before: HashTable, after: HashTable): int {
    after.totalLookups - before.totalLookups
  }

  /** Only the counters may change: the keys, dictLength and the compression
      function stay as they were. */
  ghost predicate SameKeys(before: HashTable, after: HashTable) {
    && after.dictionary == before.dictionary
    && after.compress == before.compress
    && after.dictLength == before.dictLength
  }

  /** checkWord: an exact lookup first; when it misses, the fallback
      cascade, and a miss there too counts one misspelled word. */
  function CheckWord(s: Session, word: string): (r: Session)
    requires WellSized(s.table)
    requires |word| > 0
    ensures SameKeys(s.table, r.table)
    ensures 1 <= LookupsBetween(s.table, r.table) <= 3
    ensures r.misspelled == s.misspelled || r.misspelled == s.misspelled + 1
  {
    var exact := Lookup(s.table, word);
    if exact.found then Session(exact.table, s.misspelled)
    else
      var tried := Fallback(exact.table, word);
      FallbackFollowsRules(exact.table, word);
      Session(tried.table, if tried.found then s.misspelled else s.misspelled + 1)
  }

  /** The else-if cascade of checkWord after a failed exact lookup, branch for
      branch as the source writes it: one rule family, chosen by the word's
      surface form, and within it at most two lookups. */
  function Fallback(t: HashTable, word: string): (r: LookupResult)
    requires WellSized(t)
    requires |word| > 0
    ensures SameKeys(t, r.table)
    ensures 0 <= LookupsBetween(t, r.table) <= 2
  {
    var len := |word|;
    var lower := ToLower(word);
    if IsUpper(word[0]) then
      Lookup(t, lower)
    else if word[len - 1] == 's' then
      if len >= 2 && word[len - 2] == '\'' then Lookup(t, lower[..len - 2])
      else if len >= 2 && word[len - 2] == 'e' then Lookup(t, lower[..len - 2])
      else Lookup(t, lower[..len - 1])
    else if len >= 2 && word[len - 2] == 'e' then
      if word[len - 1] == 'd' || word[len - 1] == 'r' then
        var noEd := Lookup(t, lower[..len - 2]);
        if noEd.found then noEd else Lookup(noEd.table, lower[..len - 1])
      else LookupResult(t, false)
    else if len >= 3 && word[len - 3..] == "ing" then
      var noIng := Lookup(t, lower[..len - 3]);
      if noIng.found then noIng else Lookup(noIng.table, lower[..len - 3] + "e")
    else if len >= 2 && word[len - 2..] == "ly" then
      Lookup(t, lower[..len - 2])
    else LookupResult(t, false)
  }

  /** The rule table: the rewrites the source tries after a failed exact
      lookup, in the order it tries them. Only one rule family applies. */
  function FollowUps(word: string): (r: seq<string>)
    requires |word| > 0
    ensures |r| <= 2
  {
    var len := |word|;
    var lower := ToLower(word);
    if IsUpper(word[0]) then [lower]
    else if word[len - 1] == 's' then
      if len >= 2 && (word[len - 2] == '\'' || word[len - 2] == 'e') then [lower[..len - 2]]
      else [lower[..len - 1]]
    else if len >= 2 && word[len - 2] == 'e' then
      if word[len - 1] == 'd' || word[len - 1] == 'r' then [lower[..len - 2], lower[..len - 1]]
      else []
    else if len >= 3 && word[len - 3..] == "ing" then [lower[..len - 3], lower[..len - 3] + "e"]
    else if len >= 2 && word[len - 2..] == "ly" then [lower[..len - 2]]
    else []
  }

  /** None of the first n candidates is in the table. */
  ghost predicate MissesBefore(t: HashTable, candidates: seq<string>, n: nat)
    requires WellSized(t) && n <= |candidates|
  {
    forall k :: 0 <= k < n ==> !Contains(t, candidates[k])
  }

  /** Looks the candidates up one after another and stops at the first one
      found. The answer is whether any candidate is in the table; a hit on the
      n-th candidate costs n lookups and means none before it is present, and
      a miss costs one lookup per candidate. */
  function TryInOrder(t: HashTable, candidates: seq<string>): (r: LookupResult)
    requires WellSized(t)
    decreases |candidates|
    ensures SameKeys(t, r.table)
    ensures r.found <==> exists k :: 0 <= k < |candidates| && Contains(t, candidates[k])
    ensures r.found ==> var n := LookupsBetween(t, r.table);
                        && 1 <= n <= |candidates|
                        && Contains(t, candidates[n - 1])
                        && MissesBefore(t, candidates, n - 1)
    ensures !r.found ==> LookupsBetween(t, r.table) == |candidates|
  {
    if |candidates| == 0 then LookupResult(t, false)
    else
      var first := Lookup(t, candidates[0]);
      if first.found then
        FirstHit(t, candidates, first);
        first
      else
        var rest := TryInOrder(first.table, candidates[1..]);
        TryInOrderStep(t, first.table, candidates, rest);
        rest
  }

  /** TryInOrder when the first candidate is found: one lookup, on it, and
      nothing before it. */
  lemma FirstHit(t: HashTable, candidates: seq<string>, r: LookupResult)
    requires WellSized(t) && |candidates| > 0
    requires r == Lookup(t, candidates[0]) && r.found
    ensures SameKeys(t, r.table)
    ensures exists k :: 0 <= k < |candidates| && Contains(t, candidates[k])
    ensures var n := LookupsBetween(t, r.table);
            && 1 <= n <= |candidates|
            && Contains(t, candidates[n - 1])
            && MissesBefore(t, candidates, n - 1)
  {
    assert Contains(t, candidates[0]);
    assert LookupsBetween(t, r.table) == 1;
  }

  /** The inductive step of TryInOrder: the first candidate missed and the
      rest were tried on the table the first lookup left behind. */
  lemma TryInOrderStep(t: HashTable, t1: HashTable, candidates: seq<string>, rest: LookupResult)
    requires WellSized(t) && SameKeys(t, t1) && |candidates| > 0
    requires !Contains(t, candidates[0])
    requires LookupsBetween(t, t1) == 1
    requires SameKeys(t1, rest.table)
    requires rest.found <==> exists k :: 0 <= k < |candidates| - 1 && Contains(t1, candidates[1..][k])
    requires rest.found ==> var n := LookupsBetween(t1, rest.table);
                            && 1 <= n <= |candidates| - 1
                            && Contains(t1, candidates[1..][n - 1])
                            && MissesBefore(t1, candidates[1..], n - 1)
    requires !rest.found ==> LookupsBetween(t1, rest.table) == |candidates| - 1
    ensures SameKeys(t, rest.table)
    ensures rest.found <==> exists k :: 0 <= k < |candidates| && Contains(t, candidates[k])
    ensures rest.found ==> var n := LookupsBetween(t, rest.table);
                           && 1 <= n <= |candidates|
                           && Contains(t, candidates[n - 1])
                           && MissesBefore(t, candidates, n - 1)
    ensures !rest.found ==> LookupsBetween(t, rest.table) == |candidates|
  {
    HitShift(t, t1, candidates);
    if rest.found {
      var n := LookupsBetween(t1, rest.table);
      MissesSameKeys(t1, t, candidates[1..], n - 1);
      ShiftedMisses(t, candidates, n);
      assert candidates[n] == candidates[1..][n - 1];
      SameKeysContains(t, t1, candidates[n]);
    }
  }

  /** Tables with the same keys hold the same words. */
  lemma SameKeysContains(t: HashTable, t1: HashTable, w: string)
    requires WellSized(t) && SameKeys(t, t1)
    ensures WellSized(t1) && (Contains(t, w) <==> Contains(t1, w))
  {
    assert Slot(t, w) == Slot(t1, w);
  }

  /** MissesBefore depends only on the keys. */
  lemma MissesSameKeys(t: HashTable, t1: HashTable, candidates: seq<string>, n: nat)
    requires WellSized(t) && SameKeys(t, t1) && n <= |candidates|
    requires MissesBefore(t, candidates, n)
    ensures WellSized(t1) && MissesBefore(t1, candidates, n)
  {
    forall k | 0 <= k < n
      ensures !Contains(t1, candidates[k])
    {
      SameKeysContains(t, t1, candidates[k]);
    }
  }

  /** When the first candidate misses, some candidate is present exactly when
      some candidate of the tail is present in a table with the same keys. */
  lemma HitShift(t: HashTable, t1: HashTable, candidates: seq<string>)
    requires WellSized(t) && SameKeys(t, t1) && |candidates| > 0
    requires !Contains(t, candidates[0])
    ensures WellSized(t1)
    ensures (exists k :: 0 <= k < |candidates| - 1 && Contains(t1, candidates[1..][k]))
        <==> (exists k :: 0 <= k < |candidates| && Contains(t, candidates[k]))
  {
    SameKeysContains(t, t1, candidates[0]);
    if k :| 0 <= k < |candidates| - 1 && Contains(t1, candidates[1..][k]) {
      SameKeysContains(t, t1, candidates[k + 1]);
      assert Contains(t, candidates[k + 1]);
    }
    if k :| 0 <= k < |candidates| && Contains(t, candidates[k]) {
      SameKeysContains(t, t1, candidates[k]);
      assert k != 0;
      assert Contains(t1, candidates[1..][k - 1]);
    }
  }

  /** When the first candidate misses and so do the next n - 1 (counted in the
      tail), the first n - 1 candidates all miss. */
  lemma ShiftedMisses(t: HashTable, candidates: seq<string>, n: nat)
    requires WellSized(t) && 1 <= n <= |candidates|
    requires !Contains(t, candidates[0])
    requires MissesBefore(t, candidates[1..], n - 1)
    ensures MissesBefore(t, candidates, n)
  {
    forall k | 0 <= k < n
      ensures !Contains(t, candidates[k])
    {
      if k > 0 {
        assert candidates[k] == candidates[1..][k - 1];
      }
    }
  }

  /** A word is accepted when it, or one of its rule rewrites, is in the table. */
  ghost predicate Accepted(t: HashTable, word: string)
    requires WellSized(t)
    requires |word| > 0
  {
    Contains(t, word) || exists k :: 0 <= k < |FollowUps(word)| && Contains(t, FollowUps(word)[k])
  }

  /** checkWord is the exact lookup followed by the rule table tried in order,
      and a miss on all of them adds one misspelled word. */
  lemma CheckWordFollowsRules(s: Session, word: string)
    requires WellSized(s.table)
    requires |word| > 0
    ensures var exact := Lookup(s.table, word);
            var rest := TryInOrder(exact.table, FollowUps(word));
            CheckWord(s, word) ==
              if exact.found then Session(exact.table, s.misspelled)
              else Session(rest.table, if rest.found then s.misspelled else s.misspelled + 1)
  {
    FallbackFollowsRules(Lookup(s.table, word).table, word);
  }

  /** The source's cascade and the rule table agree: the fallback makes the
      same lookups, in the same order, as trying the rule's rewrites in turn. */
  lemma FallbackFollowsRules(t: HashTable, word: string)
    requires WellSized(t)
    requires |word| > 0
    ensures Fallback(t, word) == TryInOrder(t, FollowUps(word))
  {
    var len := |word|;
    if IsUpper(word[0]) {
      TryOne(t, ToLower(word));
    } else if word[len - 1] == 's' {
      PluralFollowsRules(t, word);
    } else if len >= 2 && word[len - 2] == 'e' {
      ETailFollowsRules(t, word);
    } else {
      SuffixFollowsRules(t, word);
    }
  }

  /** The cascade and the rule table agree on a lower-case word ending in 's'. */
  lemma PluralFollowsRules(t: HashTable, word: string)
    requires WellSized(t)
    requires |word| > 0 && !IsUpper(word[0]) && word[|word| - 1] == 's'
    ensures Fallback(t, word) == TryInOrder(t, FollowUps(word))
  {
    var len := |word|;
    var lower := ToLower(word);
    if len >= 2 && (word[len - 2] == '\'' || word[len - 2] == 'e') {
      TryOne(t, lower[..len - 2]);
    } else {
      TryOne(t, lower[..len - 1]);
    }
  }

  /** The cascade and the rule table agree on a lower-case word whose
      second-to-last letter is 'e' and whose last is not 's'. */
  lemma ETailFollowsRules(t: HashTable, word: string)
    requires WellSized(t)
    requires |word| >= 2 && !IsUpper(word[0]) && word[|word| - 1] != 's' && word[|word| - 2] == 'e'
    ensures Fallback(t, word) == TryInOrder(t, FollowUps(word))
  {
    var len := |word|;
    if word[len - 1] == 'd' || word[len - 1] == 'r' {
      EdErFollowsRules(t, word);
    } else {
      assert FollowUps(word) == [];
    }
  }

  /** The cascade and the rule table agree on a lower-case word ending in
      "ed" or "er". */
  lemma EdErFollowsRules(t: HashTable, word: string)
    requires WellSized(t)
    requires |word| >= 2 && !IsUpper(word[0]) && word[|word| - 2] == 'e' && word[|word| - 1] in {'d', 'r'}
    ensures Fallback(t, word) == TryInOrder(t, FollowUps(word))
  {
    var len := |word|;
    var lower := ToLower(word);
    TryTwo(t, lower[..len - 2], lower[..len - 1]);
  }

  /** The cascade and the rule table agree on the remaining lower-case words:
      the "ing" and "ly" rules, and words no rule matches. */
  lemma SuffixFollowsRules(t: HashTable, word: string)
    requires WellSized(t)
    requires |word| > 0 && !IsUpper(word[0]) && word[|word| - 1] != 's'
    requires !(|word| >= 2 && word[|word| - 2] == 'e')
    ensures Fallback(t, word) == TryInOrder(t, FollowUps(word))
  {
    var len := |word|;
    var lower := ToLower(word);
    if len >= 3 && word[len - 3..] == "ing" {
      TryTwo(t, lower[..len - 3], lower[..len - 3] + "e");
    } else if len >= 2 && word[len - 2..] == "ly" {
      TryOne(t, lower[..len - 2]);
    }
  }

  /** Trying a single candidate is one lookup. */
  lemma TryOne(t: HashTable, a: string)
    requires WellSized(t)
    ensures TryInOrder(t, [a]) == Lookup(t, a)
  {
  }

  /** Trying two candidates looks up the second only when the first misses. */
  lemma TryTwo(t: HashTable, a: string, b: string)
    requires WellSized(t)
    ensures TryInOrder(t, [a, b]) == (var p := Lookup(t, a); if p.found then p else Lookup(p.table, b))
  {
    var p := Lookup(t, a);
    assert [a, b][1..] == [b];
    if !p.found {
      TryOne(p.table, b);
    }
  }

  /** What one checkWord call does: the keys are untouched, a word the table
      holds costs one lookup and no misspelling, at most three lookups are
      made, and the misspelled tally grows by exactly one when neither the
      word nor any of its rule rewrites is found. */
  lemma CheckWordEffect(s: Session, word: string)
    requires WellSized(s.table)
    requires |word| > 0
    ensures var r := CheckWord(s, word);
            && SameKeys(s.table, r.table)
            && (Contains(s.table, word) ==> r.misspelled == s.misspelled && LookupsBetween(s.table, r.table) == 1)
            && LookupsBetween(s.table, r.table) <= 1 + |FollowUps(word)|
            && r.misspelled == (if Accepted(s.table, word) then s.misspelled else s.misspelled + 1)
  {
    CheckWordFollowsRules(s, word);
  }

  /** A capitalised word gets only its lower-case form as a second try, so
      "Cats" is never tried as "cat". */
  lemma CapitalisedWordTriesOnlyLowerCase(s: Session, word: string)
    requires WellSized(s.table)
    requires |word| > 0 && IsUpper(word[0])
    ensures var r := CheckWord(s, word);
            && r.misspelled == (if Contains(s.table, word) || Contains(s.table, ToLower(word)) then s.misspelled else s.misspelled + 1)
            && LookupsBetween(s.table, r.table) == (if Contains(s.table, word) then 1 else 2)
  {
    CheckWordEffect(s, word);
  }

  /** An unknown plural in 's' (not "'s", not "es") without a capital first
      letter tries the lower-cased word minus its last letter: "cats" tries
      "cat". */
  lemma PluralTriesWithoutS(s: Session, word: string)
    requires WellSized(s.table)
    requires |word| >= 1 && !IsUpper(word[0]) && word[|word| - 1] == 's'
    requires |word| >= 2 ==> word[|word| - 2] !in {'\'', 'e'}
    ensures var r := CheckWord(s, word);
            var stem := ToLower(word)[..|word| - 1];
            && r.misspelled == (if Contains(s.table, word) || Contains(s.table, stem) then s.misspelled else s.misspelled + 1)
            && LookupsBetween(s.table, r.table) == (if Contains(s.table, word) then 1 else 2)
  {
    CheckWordEffect(s, word);
  }

  /** A lower-case word whose second-to-last letter is 'e' and whose last
      letter is neither 's', 'd' nor 'r' gets no second try at all. */
  lemma ETailWithoutDOrRTriesNothingElse(s: Session, word: string)
    requires WellSized(s.table)
    requires |word| >= 2 && !IsUpper(word[0])
    requires word[|word| - 2] == 'e' && word[|word| - 1] !in {'s', 'd', 'r'}
    ensures var r := CheckWord(s, word);
            && r.misspelled == (if Contains(s.table, word) then s.misspelled else s.misspelled + 1)
            && LookupsBetween(s.table, r.table) == 1
  {
    CheckWordEffect(s, word);
  }

  /** An unknown lower-case "-ed" or "-er" word tries the word minus two
      letters, then minus one letter: "baked" tries "bak", then "bake". */
  lemma EdErTriesTwoThenOne(s: Session, word: string)
    requires WellSized(s.table)
    requires |word| >= 2 && !IsUpper(word[0])
    requires word[|word| - 2] == 'e' && word[|word| - 1] in {'d', 'r'}
    requires !Contains(s.table, word)
    ensures var r := CheckWord(s, word);
            var stem := ToLower(word)[..|word| - 2];
            var noD := ToLower(word)[..|word| - 1];
            && LookupsBetween(s.table, r.table) == (if Contains(s.table, stem) then 2 else 3)
            && r.misspelled == (if Contains(s.table, stem) || Contains(s.table, noD) then s.misspelled else s.misspelled + 1)
  {
    CheckWordEffect(s, word);
    CheckWordFollowsRules(s, word);
  }

  /** An unknown lower-case "-ing" word tries the stem, then the stem plus "e":
      "baking" tries "bak", then "bake". */
  lemma IngTriesStemThenStemE(s: Session, word: string)
    requires WellSized(s.table)
    requires |word| >= 3 && !IsUpper(word[0])
    requires word[|word| - 3..] == "ing"
    requires !Contains(s.table, word)
    ensures var r := CheckWord(s, word);
            var stem := ToLower(word)[..|word| - 3];
            && LookupsBetween(s.table, r.table) == (if Contains(s.table, stem) then 2 else 3)
            && r.misspelled == (if Contains(s.table, stem) || Contains(s.table, stem + "e") then s.misspelled else s.misspelled + 1)
  {
    CheckWordEffect(s, word);
    CheckWordFollowsRules(s, word);
  }
}
