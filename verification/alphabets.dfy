/** Alphabets: sets of letters, built only from alphabetic strings. */
module Alphabets {
  import opened Results

  datatype Alphabet = Alphabet(letters: set<string>)

  /** An alphabetic character (ASCII letters only in this model). */
  predicate IsAlphaChar(c: char) {
    'a' <= c <= 'z' || 'A' <= c <= 'Z'
  }

  /** A non-empty string of alphabetic characters. */
  predicate IsAlpha(s: string) {
    |s| > 0 && forall i :: 0 <= i < |s| ==> IsAlphaChar(s[i])
  }

  /** Every letter of the alphabet is alphabetic, as construction ensures. */
  predicate Valid(a: Alphabet) {
    forall x :: x in a.letters ==> IsAlpha(x)
  }

  /** True when `letter` is one of the alphabet's letters; a valid alphabet
      has only alphabetic letters. */
  function HasLetter(a: Alphabet, letter: string): (r: bool)
    ensures r <==> letter in a.letters
    ensures r && Valid(a) ==> IsAlpha(letter)
  {
    letter in a.letters
  }

  /** Builds an alphabet, checking the given letters one by one and failing
      with `TypeError` at the first one that is not alphabetic. The letters
      are kept as a set, so their order and repetition do not matter, and
      the alphabet has exactly the given letters. */
  method New(items: seq<string>) returns (r: Result<Alphabet>)
    ensures r.Ok? <==> forall i :: 0 <= i < |items| ==> IsAlpha(items[i])
    ensures r.Err? ==> r.error == TypeError
    ensures r.Ok? ==> Valid(r.value)
    ensures r.Ok? ==> forall x :: HasLetter(r.value, x) <==> x in items
  {
    var i := 0;
    while i < |items|
      invariant 0 <= i <= |items|
      invariant forall j :: 0 <= j < i ==> IsAlpha(items[j])
    {
      if !IsAlpha(items[i]) {
        return Err(TypeError);
      }
      i := i + 1;
    }
    var letters := set x | x in items;
    return Ok(Alphabet(letters));
  }
}
