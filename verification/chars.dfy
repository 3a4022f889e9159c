/** Character classes and case mapping used by the spell checker.
    The source relies on Character.isLetter, Character.isUpperCase and
    String.toLowerCase; this model restricts all three to ASCII letters. */
module Chars {

  /** An ASCII upper-case letter. */
  predicate IsUpper(c: char) {
    'A' <= c <= 'Z'
  }

  /** An ASCII lower-case letter. */
  predicate IsLower(c: char) {
    'a' <= c <= 'z'
  }

  /** An ASCII letter. */
  predicate IsLetter(c: char) {
    IsUpper(c) || IsLower(c)
  }

  /** A character the tokenizer keeps inside a word: a letter or an apostrophe. */
  predicate IsWordChar(c: char) {
    IsLetter(c) || c == '\''
  }

  /** Lower-cases one character: upper-case letters move to their lower-case
      partner, every other character is left alone. */
  function LowerChar(c: char): (r: char)
    ensures IsUpper(c) ==> IsLower(r) && r as int - c as int == 'a' as int - 'A' as int
    ensures !IsUpper(c) ==> r == c
    ensures IsLetter(r) <==> IsLetter(c)
  {
    if IsUpper(c) then (c as int - 'A' as int + 'a' as int) as char else c
  }

  /** Lower-cases a word character by character; the length never changes. */
  function ToLower(s: string): (r: string)
    ensures |r| == |s|
  {
    seq(|s|, i requires 0 <= i < |s| => LowerChar(s[i]))
  }

  /** Each character of the lower-cased word is the lower-cased character. */
  lemma ToLowerAt(s: string)
    ensures forall i :: 0 <= i < |s| ==> ToLower(s)[i] == LowerChar(s[i])
  {
  }

  /** A word without upper-case letters is its own lower-case form. */
  lemma ToLowerNoUpper(s: string)
    requires forall i :: 0 <= i < |s| ==> !IsUpper(s[i])
    ensures ToLower(s) == s
  {
    ToLowerAt(s);
  }

  /** Lower-casing a word with a capital first letter and no other capitals
      changes only that letter. */
  lemma ToLowerCapitalised(s: string)
    requires |s| > 0 && forall i :: 1 <= i < |s| ==> !IsUpper(s[i])
    ensures ToLower(s) == [LowerChar(s[0])] + s[1..]
  {
    ToLowerAt(s);
  }

  /** The letters of a string, in order, with every other character dropped. */
  function Letters(s: string): string
  {
    if |s| == 0 then []
    else Letters(s[..|s| - 1]) + (if IsLetter(s[|s| - 1]) then [s[|s| - 1]] else [])
  }

  /** Letters distributes over concatenation. */
  lemma {:induction false} LettersAppend(a: string, b: string)
    ensures Letters(a + b) == Letters(a) + Letters(b)
    decreases |b|
  {
    if |b| == 0 {
      assert a + b == a;
    } else {
      var b' := b[..|b| - 1];
      assert (a + b)[..|a + b| - 1] == a + b';
      LettersAppend(a, b');
    }
  }
}
