/** The alphabet of encodable symbols: a mapping between symbols and the
    indices 0 .. size-1 (Alphabet.java). */
module Alphabets {
  import opened Errors

  /** The two symbols that the duplicate check of an alphabet skips. */
  predicate IsParen(c: char) {
    c == '(' || c == ')'
  }

  /** What building an alphabet checks: no symbol other than a parenthesis
      occurs twice. */
  predicate NoRepeats(s: string) {
    forall i, j :: 0 <= i < j < |s| && !IsParen(s[i]) && !IsParen(s[j]) ==> s[i] != s[j]
  }

  /** No symbol at all occurs twice. */
  predicate Distinct(s: string) {
    forall i, j :: 0 <= i < j < |s| ==> s[i] != s[j]
  }

  /** The first position at or after `i` where `ch` occurs, or -1 (Java's `indexOf`). */
  function IndexFrom(s: string, ch: char, i: nat): (r: int)
    requires i <= |s|
    ensures r == -1 || (i <= r < |s| && s[r] == ch)
    decreases |s| - i
  {
    if i == |s| then -1
    else if s[i] == ch then i
    else IndexFrom(s, ch, i + 1)
  }

  /** `IndexFrom` finds the first occurrence: nothing between `i` and the result is `ch`. */
  lemma {:induction false} IndexFromFirst(s: string, ch: char, i: nat)
    requires i <= |s|
    ensures forall j :: i <= j < |s| && (IndexFrom(s, ch, i) == -1 || j < IndexFrom(s, ch, i)) ==> s[j] != ch
    decreases |s| - i
  {
    if i < |s| && s[i] != ch {
      IndexFromFirst(s, ch, i + 1);
    }
  }

  /** An alphabet: its symbols in index order. Immutable once built. */
  datatype Alphabet = Alphabet(chars: string) {

    /** The invariant that construction establishes. */
    predicate Valid() {
      NoRepeats(chars)
    }

    function Size(): nat {
      |chars|
    }

    predicate Contains(ch: char) {
      ch in chars
    }

    /** Symbol number `index`, which the alphabet contains. */
    function ToChar(index: int): (r: char)
      requires 0 <= index < Size()
      ensures Contains(r)
    {
      chars[index]
    }

    /** The index of the first occurrence of `ch`; -1 when `ch` is absent. */
    function ToInt(ch: char): (r: int)
      ensures Contains(ch) ==> 0 <= r < Size() && chars[r] == ch
      ensures !Contains(ch) <==> r == -1
    {
      IndexFromFirst(chars, ch, 0);
      IndexFrom(chars, ch, 0)
    }
  }

  /** The 26 upper-case letters in order. */
  const UpperLetters: string := "ABCDEFGHIJKLMNOPQRSTUVWXYZ"

  /** Builds an alphabet from `chars`, failing when a symbol other than a
      parenthesis is repeated. */
  method NewAlphabet(chars: string) returns (r: Result<Alphabet>)
    ensures r.Ok? <==> NoRepeats(chars)
    ensures r.Ok? ==> r.value == Alphabet(chars) && r.value.Valid()
    ensures r.Err? ==> r.error.ConfigError?
  {
    var i := 0;
    while i < |chars|
      invariant 0 <= i <= |chars|
      invariant forall a, b :: 0 <= a < i && a < b < |chars| && !IsParen(chars[a]) && !IsParen(chars[b]) ==> chars[a] != chars[b]
    {
      if !IsParen(chars[i]) {
        var j := i + 1;
        while j < |chars|
          invariant i + 1 <= j <= |chars|
          invariant forall b :: i < b < j && !IsParen(chars[b]) ==> chars[i] != chars[b]
        {
          if !IsParen(chars[j]) && chars[i] == chars[j] {
            return Err(ConfigError("No duplicates in the Alphabet"));
          }
          j := j + 1;
        }
      }
      i := i + 1;
    }
    return Ok(Alphabet(chars));
  }

  /** Helper for DefaultAlphabet: letter number `i` of the default string is the
      `i`-th letter after 'A', so no letter repeats. */
  lemma UpperLettersInOrder()
    ensures |UpperLetters| == 26
    ensures forall i :: 0 <= i < 26 ==> UpperLetters[i] as int == 'A' as int + i
  {
  }

  /** The no-argument constructor: the 26 upper-case letters, which it accepts. */
  method DefaultAlphabet() returns (a: Alphabet)
    ensures a.Valid() && a.Size() == 26
    ensures forall i :: 0 <= i < 26 ==> a.ToChar(i) as int == 'A' as int + i
  {
    UpperLettersInOrder();
    var r := NewAlphabet(UpperLetters);
    a := r.value;
  }

  /** For a valid alphabet, `ToInt` undoes `ToChar` at every index that does not hold a parenthesis. */
  lemma ToIntToChar(a: Alphabet, i: int)
    requires a.Valid() && 0 <= i < a.Size() && !IsParen(a.ToChar(i))
    ensures a.ToInt(a.ToChar(i)) == i
  {
    IndexFromFirst(a.chars, a.ToChar(i), 0);
  }

  /** `ToInt` gives the first occurrence: no earlier index holds the symbol. */
  lemma ToIntFirst(a: Alphabet, ch: char)
    ensures forall j :: 0 <= j < a.Size() && (a.ToInt(ch) == -1 || j < a.ToInt(ch)) ==> a.ToChar(j) != ch
  {
    IndexFromFirst(a.chars, ch, 0);
  }

  /** `ToChar` undoes `ToInt` for every symbol of the alphabet. */
  lemma ToCharToInt(a: Alphabet, ch: char)
    requires a.Contains(ch)
    ensures 0 <= a.ToInt(ch) < a.Size() && a.ToChar(a.ToInt(ch)) == ch
  {
  }
  /** For an alphabet without any repeated symbol, parentheses included,
      `ToInt` undoes `ToChar` at every index. */
  lemma DistinctToIntToChar(a: Alphabet, i: int)
    requires Distinct(a.chars) && 0 <= i < a.Size()
    ensures a.ToInt(a.ToChar(i)) == i
  {
    IndexFromFirst(a.chars, a.ToChar(i), 0);
  }

  /** Construction rejects a repeated letter: "ABCC" is refused. */
  lemma RepeatedLetterRejected()
    ensures !NoRepeats("ABCC")
  {
    assert "ABCC"[2] == "ABCC"[3];
  }

  /** The duplicate check lets a repeated parenthesis through, and then
      `ToInt` does not undo `ToChar`: in "((" symbol 1 maps back to index 0. */
  lemma RepeatedParenAccepted()
    ensures NoRepeats("((")
    ensures Alphabet("((").ToInt(Alphabet("((").ToChar(1)) == 0
  {
    assert Alphabet("((").ToChar(1) == '(';
  }

  /** Construction with the check the documentation describes: no symbol
      at all may occur twice. `ToInt` then undoes `ToChar` everywhere. */
  method NewDistinctAlphabet(chars: string) returns (r: Result<Alphabet>)
    ensures r.Ok? <==> Distinct(chars)
    ensures r.Ok? ==> r.value == Alphabet(chars) && r.value.Valid()
    ensures r.Ok? ==> forall i :: 0 <= i < |chars| ==> r.value.ToInt(r.value.ToChar(i)) == i
    ensures r.Err? ==> r.error.ConfigError?
  {
    var i := 0;
    while i < |chars|
      invariant 0 <= i <= |chars|
      invariant forall a, b :: 0 <= a < i && a < b < |chars| ==> chars[a] != chars[b]
    {
      var j := i + 1;
      while j < |chars|
        invariant i + 1 <= j <= |chars|
        invariant forall b :: i < b < j ==> chars[i] != chars[b]
      {
        if chars[i] == chars[j] {
          return Err(ConfigError("No duplicates in the Alphabet"));
        }
        j := j + 1;
      }
      i := i + 1;
    }
    r := Ok(Alphabet(chars));
    forall k | 0 <= k < |chars|
      ensures r.value.ToInt(r.value.ToChar(k)) == k
    {
      DistinctToIntToChar(r.value, k);
    }
  }
}
