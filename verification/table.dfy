/** The dictionary: a separate-chaining hash table with M slots and three
    instrumentation counters (Spellcheck.HashTable). Each linked chain of Word
    nodes is a sequence of keys in append order, because nodes are only ever
    appended and never removed or changed. */
module Table {
  import opened Hashing

  /** Number of slots. */
  const M: nat := 28669

  /** A compression function maps an uncompressed hash value to a slot. The
      source computes it with the golden ratio in double precision
      (compressHash); the model keeps it as a parameter of the table and
      relies only on its range. */
  ghost predicate IsCompression(f: int -> int) {
    forall h :: 0 <= f(h) < M
  }

  /** The keys of one slot, head first. */
  type Chain = seq<string>

  /** The table and its counters. */
  datatype HashTable = HashTable(
    compress: int -> int,
    dictionary: seq<Chain>,
    totalProbes: nat,
    totalLookups: nat,
    dictLength: nat)

  /** The result of a lookup: the table with updated counters, and whether the
      word was found. */
  datatype LookupResult = LookupResult(table: HashTable, found: bool)

  /** The slot array has its fixed length M, as the constructor allocates it,
      and the compression function stays within it. */
  ghost predicate WellSized(t: HashTable) {
    |t.dictionary| == M && IsCompression(t.compress)
  }

  /** compressHash: the slot of a word. */
  function Slot(t: HashTable, w: string): (r: nat)
    requires IsCompression(t.compress)
    ensures r < M
  {
    t.compress(HashVal(w))
  }

  /** w is one of the keys stored in its own slot. */
  ghost predicate Contains(t: HashTable, w: string)
    requires WellSized(t)
  {
    w in t.dictionary[Slot(t, w)]
  }

  /** The number of keys across all chains. */
  function TotalEntries(d: seq<Chain>): nat {
    if |d| == 0 then 0 else TotalEntries(d[..|d| - 1]) + |d[|d| - 1]|
  }

  /** The table invariant: every key sits in the slot its word compresses to,
      and dictLength counts every key of every chain. */
  ghost predicate Valid(t: HashTable) {
    && WellSized(t)
    && (forall i, j :: 0 <= i < M && 0 <= j < |t.dictionary[i]| ==> Slot(t, t.dictionary[i][j]) == i)
    && t.dictLength == TotalEntries(t.dictionary)
  }

  /** The table as the constructor builds it: M empty slots, counters at 0. */
  function Empty(compress: int -> int): (r: HashTable)
    requires IsCompression(compress)
    ensures Valid(r)
    ensures forall i :: 0 <= i < M ==> r.dictionary[i] == []
    ensures forall w :: !Contains(r, w)
    ensures r.compress == compress
    ensures r.dictLength == 0 && r.totalProbes == 0 && r.totalLookups == 0
  {
    var d := seq(M, i => []);
    EmptyChainsHoldNothing(d);
    HashTable(compress, d, 0, 0, 0)
  }

  /** A slot array whose chains are all empty holds no key. */
  lemma {:induction false} EmptyChainsHoldNothing(d: seq<Chain>)
    requires forall i :: 0 <= i < |d| ==> d[i] == []
    ensures TotalEntries(d) == 0
  {
    if |d| > 0 {
      EmptyChainsHoldNothing(d[..|d| - 1]);
    }
  }

  /** Appending one key to one chain adds exactly one to the total. */
  lemma {:induction false} TotalEntriesAppend(d: seq<Chain>, i: nat, w: string)
    requires i < |d|
    ensures TotalEntries(d[i := d[i] + [w]]) == TotalEntries(d) + 1
  {
    var d' := d[i := d[i] + [w]];
    var n := |d|;
    if i == n - 1 {
      assert d'[..n - 1] == d[..n - 1];
    } else {
      assert d'[..n - 1] == d[..n - 1][i := d[i] + [w]];
      TotalEntriesAppend(d[..n - 1], i, w);
    }
  }

  /** addWord: appends w at the tail of the chain of its slot. A word already
      present is appended again; nothing is deduplicated. */
  function AddWord(t: HashTable, w: string): (r: HashTable)
    requires WellSized(t)
    ensures WellSized(r)
    ensures r.dictionary[Slot(t, w)] == t.dictionary[Slot(t, w)] + [w]
    ensures forall i :: 0 <= i < M && i != Slot(t, w) ==> r.dictionary[i] == t.dictionary[i]
    ensures r.dictLength == t.dictLength + 1
    ensures r.compress == t.compress && r.totalProbes == t.totalProbes && r.totalLookups == t.totalLookups
  {
    var i := Slot(t, w);
    t.(dictionary := t.dictionary[i := t.dictionary[i] + [w]], dictLength := t.dictLength + 1)
  }

  /** addWord keeps the table invariant. */
  lemma AddWordValid(t: HashTable, w: string)
    requires Valid(t)
    ensures Valid(AddWord(t, w))
  {
    TotalEntriesAppend(t.dictionary, Slot(t, w), w);
  }

  /** After addWord(w) the table holds exactly the words it held before, and w. */
  lemma AddWordContains(t: HashTable, w: string, x: string)
    requires WellSized(t)
    ensures Contains(AddWord(t, w), x) <==> Contains(t, x) || x == w
  {
    var r := AddWord(t, w);
    if Slot(t, x) == Slot(t, w) {
      assert r.dictionary[Slot(t, x)] == t.dictionary[Slot(t, x)] + [w];
    }
  }

  /** The keys of `words` that compress to slot i, in their order. */
  function InSlot(t: HashTable, words: seq<string>, i: nat): seq<string>
    requires IsCompression(t.compress)
  {
    if |words| == 0 then []
    else InSlot(t, words[..|words| - 1], i) + (if Slot(t, words[|words| - 1]) == i then [words[|words| - 1]] else [])
  }

  /** readWords: addWord applied to every dictionary word in order. Each chain
      grows by the new words of its slot in reading order, the table holds
      exactly the old words and the new ones, and the invariant is kept. */
  function ReadWords(t: HashTable, words: seq<string>): (r: HashTable)
    requires WellSized(t)
    ensures WellSized(r)
    ensures forall i :: 0 <= i < M ==> r.dictionary[i] == t.dictionary[i] + InSlot(t, words, i)
    ensures r.dictLength == t.dictLength + |words|
    ensures r.compress == t.compress && r.totalProbes == t.totalProbes && r.totalLookups == t.totalLookups
    ensures forall x :: Contains(r, x) <==> Contains(t, x) || x in words
  {
    if |words| == 0 then t
    else
      var front := words[..|words| - 1];
      var w := words[|words| - 1];
      var t' := ReadWords(t, front);
      assert words == front + [w];
      ReadWordsStep(t, t', front, w);
      AddWord(t', w)
  }

  /** The inductive step of ReadWords: adding one more word to a table that
      holds the first words keeps every promise of ReadWords. */
  lemma ReadWordsStep(t: HashTable, t': HashTable, front: seq<string>, w: string)
    requires WellSized(t) && WellSized(t')
    requires forall i :: 0 <= i < M ==> t'.dictionary[i] == t.dictionary[i] + InSlot(t, front, i)
    requires t'.dictLength == t.dictLength + |front|
    requires t'.compress == t.compress && t'.totalProbes == t.totalProbes && t'.totalLookups == t.totalLookups
    requires forall x :: Contains(t', x) <==> Contains(t, x) || x in front
    ensures var r := AddWord(t', w);
            && WellSized(r)
            && (forall i :: 0 <= i < M ==> r.dictionary[i] == t.dictionary[i] + InSlot(t, front + [w], i))
            && r.dictLength == t.dictLength + |front + [w]|
            && r.compress == t.compress && r.totalProbes == t.totalProbes && r.totalLookups == t.totalLookups
            && (forall x :: Contains(r, x) <==> Contains(t, x) || x in front + [w])
  {
    AddWordSlots(t, t', front, w);
    AddWordMembers(t, t', front, w);
  }

  /** Loading a dictionary keeps the table invariant. */
  lemma {:induction false} ReadWordsValid(t: HashTable, words: seq<string>)
    requires Valid(t)
    ensures Valid(ReadWords(t, words))
  {
    if |words| > 0 {
      ReadWordsValid(t, words[..|words| - 1]);
      AddWordValid(ReadWords(t, words[..|words| - 1]), words[|words| - 1]);
    }
  }

  /** The inductive step of ReadWords for chain contents. */
  lemma AddWordSlots(t: HashTable, t': HashTable, front: seq<string>, w: string)
    requires WellSized(t) && WellSized(t')
    requires t'.compress == t.compress
    requires forall i :: 0 <= i < M ==> t'.dictionary[i] == t.dictionary[i] + InSlot(t, front, i)
    ensures forall i :: 0 <= i < M ==> AddWord(t', w).dictionary[i] == t.dictionary[i] + InSlot(t, front + [w], i)
  {
    forall i | 0 <= i < M
      ensures AddWord(t', w).dictionary[i] == t.dictionary[i] + InSlot(t, front + [w], i)
    {
      AddWordSlot(t, t', front, w, i);
    }
  }

  /** One slot of AddWordSlots. */
  lemma AddWordSlot(t: HashTable, t': HashTable, front: seq<string>, w: string, i: nat)
    requires WellSized(t) && WellSized(t') && i < M
    requires t'.compress == t.compress
    requires t'.dictionary[i] == t.dictionary[i] + InSlot(t, front, i)
    ensures AddWord(t', w).dictionary[i] == t.dictionary[i] + InSlot(t, front + [w], i)
  {
    var words := front + [w];
    assert words[..|words| - 1] == front;
    assert InSlot(t, words, i) == InSlot(t, front, i) + (if Slot(t, w) == i then [w] else []);
  }

  /** The inductive step of ReadWords for membership. */
  lemma AddWordMembers(t: HashTable, t': HashTable, front: seq<string>, w: string)
    requires WellSized(t) && WellSized(t')
    requires forall x :: Contains(t', x) <==> Contains(t, x) || x in front
    ensures forall x :: Contains(AddWord(t', w), x) <==> Contains(t, x) || x in front + [w]
  {
    forall x
      ensures Contains(AddWord(t', w), x) <==> Contains(t, x) || x in front + [w]
    {
      AddWordContains(t', w, x);
    }
  }

  /** The probes spent walking a chain past its head (the while loop of
      lookup): i nodes have been compared so far, each further node visited
      costs one probe, and the walk stops at the first match. */
  function WalkChain(chain: Chain, w: string, i: nat): (r: (bool, nat))
    requires 1 <= i <= |chain|
    decreases |chain| - i
    ensures r.0 <==> w in chain[i..]
    ensures r.0 ==> 1 <= r.1 <= |chain| - i && chain[i + r.1 - 1] == w && w !in chain[i .. i + r.1 - 1]
    ensures !r.0 ==> r.1 == |chain| - i
  {
    if i == |chain| then (false, 0)
    else if chain[i] == w then (true, 1)
    else
      var (found, probes) := WalkChain(chain, w, i + 1);
      assert chain[i..] == [chain[i]] + chain[i + 1..];
      assert found ==> chain[i .. i + probes + 1] == [chain[i]] + chain[i + 1 .. i + 1 + probes];
      (found, probes + 1)
  }

  /** lookup: one more lookup is counted; an empty slot costs one probe and
      misses; otherwise every chain node compared costs one probe, the search
      stops at the first occurrence of w, and a miss costs the chain's length.
      The result is exact membership of w in its slot; the keys and
      dictLength are untouched. */
  function Lookup(t: HashTable, w: string): (r: LookupResult)
    requires WellSized(t)
    ensures r.table == t.(totalProbes := r.table.totalProbes, totalLookups := t.totalLookups + 1)
    ensures r.found <==> Contains(t, w)
    ensures var chain := t.dictionary[Slot(t, w)];
            var probes := r.table.totalProbes - t.totalProbes;
            && (|chain| == 0 ==> probes == 1)
            && (r.found ==> 1 <= probes <= |chain| && chain[probes - 1] == w && w !in chain[..probes - 1])
            && (!r.found && |chain| > 0 ==> probes == |chain|)
  {
    var chain := t.dictionary[Slot(t, w)];
    var counted := t.(totalLookups := t.totalLookups + 1);
    if |chain| == 0 then
      LookupResult(counted.(totalProbes := t.totalProbes + 1), false)
    else if w == chain[0] then
      LookupResult(counted.(totalProbes := t.totalProbes + 1), true)
    else
      var (found, probes) := WalkChain(chain, w, 1);
      assert chain == [chain[0]] + chain[1..];
      assert found ==> chain[..probes] == [chain[0]] + chain[1 .. 1 + probes - 1];
      LookupResult(counted.(totalProbes := t.totalProbes + 1 + probes), found)
  }

  /** A word added to the table is found by every later lookup. */
  lemma LookupAfterAddWord(t: HashTable, w: string)
    requires WellSized(t)
    ensures Lookup(AddWord(t, w), w).found
  {
    AddWordContains(t, w, w);
  }

  /** lookup is repeatable: a second lookup of the same word returns the same
      answer and costs exactly the same number of probes as the first. */
  lemma LookupRepeatable(t: HashTable, w: string)
    requires WellSized(t)
    ensures var first := Lookup(t, w);
            var second := Lookup(first.table, w);
            && second.found == first.found
            && second.table.totalProbes - first.table.totalProbes == first.table.totalProbes - t.totalProbes
            && second.table.totalLookups == t.totalLookups + 2
  {
    var first := Lookup(t, w);
    var second := Lookup(first.table, w);
  }
}
