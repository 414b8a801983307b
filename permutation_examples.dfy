/** Concrete permutations: the lookups, the derangement test and the
    duplicate checks on the cycle strings used as examples in
    PermutationTest.java. */
module PermutationExamples {
  import opened Errors
  import opened Alphabets
  import opened Permutations

  /** The four-cycle `(BACD)` over `ABCD`. */
  ghost function FourCycle(): Permutation {
    FromCycles("(BACD)", Alphabet("ABCD"))
  }

  /** The maps construction builds for `(BACD)`: each symbol to the next
      in the cycle, and back. */
  lemma FourCycleMaps()
    ensures FourCycle().pcycles == map['B' := 'A', 'A' := 'C', 'C' := 'D', 'D' := 'B']
    ensures FourCycle().icycles == map['A' := 'B', 'C' := 'A', 'D' := 'C', 'B' := 'D']
  {
    var s := "(BACD)";
    assert ForwardMap(s, 5) == map[] && InverseMap(s, 5) == map[];
    assert GroupStart(s, 5) == 1;
    assert s[1..5] == "BACD";
    assert PutBackward(map[], "BACD", 2) == map['A' := 'B', 'B' := 'D'];
  }

  /** `(BACD)` takes B to A, A to C, C to D and D to B, and an index is
      first reduced modulo the size: 4 behaves as 0. */
  lemma FourCyclePermute()
    ensures FourCycle().Permute(1) == 0 && FourCycle().Permute(0) == 2
    ensures FourCycle().Permute(2) == 3 && FourCycle().Permute(3) == 1
    ensures FourCycle().Permute(4) == 2
  {
    FourCycleMaps();
    var a := FourCycle().alphabet;
    assert a.ToInt('A') == 0 && a.ToInt('B') == 1 && a.ToInt('C') == 2 && a.ToInt('D') == 3;
  }

  /** The inverse lookups of `(BACD)`, again with 4 behaving as 0. */
  lemma FourCycleInvert()
    ensures FourCycle().Invert(0) == 1 && FourCycle().Invert(2) == 0
    ensures FourCycle().Invert(3) == 2 && FourCycle().Invert(1) == 3
    ensures FourCycle().Invert(4) == 1
  {
    FourCycleMaps();
    var a := FourCycle().alphabet;
    assert a.ToInt('A') == 0 && a.ToInt('B') == 1 && a.ToInt('C') == 2 && a.ToInt('D') == 3;
  }

  /** The forward symbol lookups of `(BACD)`. */
  lemma FourCyclePermuteChar()
    ensures FourCycle().MapsIntoAlphabet()
    ensures FourCycle().PermuteChar('A') == Ok('C') && FourCycle().PermuteChar('B') == Ok('A')
    ensures FourCycle().PermuteChar('C') == Ok('D') && FourCycle().PermuteChar('D') == Ok('B')
  {
    FourCycleMaps();
    FourCyclePermute();
    var a := FourCycle().alphabet;
    assert a.ToInt('A') == 0 && a.ToInt('B') == 1 && a.ToInt('C') == 2 && a.ToInt('D') == 3;
  }

  /** The inverse symbol lookups of `(BACD)`, and the failure for a symbol
      outside the alphabet. */
  lemma FourCycleInvertChar()
    ensures FourCycle().MapsIntoAlphabet()
    ensures FourCycle().InvertChar('A') == Ok('B') && FourCycle().InvertChar('B') == Ok('D')
    ensures FourCycle().InvertChar('C') == Ok('A') && FourCycle().InvertChar('D') == Ok('C')
    ensures FourCycle().InvertChar('F') == Err(NotInAlphabet('F'))
  {
    FourCycleMaps();
    FourCycleInvert();
    var a := FourCycle().alphabet;
    assert a.ToInt('A') == 0 && a.ToInt('B') == 1 && a.ToInt('C') == 2 && a.ToInt('D') == 3;
  }

  /** `(BACD)` has no fixed point, so it is a derangement. */
  lemma FourCycleDerangement()
    ensures forall i :: 0 <= i < FourCycle().Size() ==> FourCycle().Permute(i) != i
  {
    FourCyclePermute();
  }

  /** The maps construction builds for `(DA)(T)`: D and A swap, T maps to itself. */
  lemma SwapAndFixedMaps()
    ensures FromCycles("(DA)(T)", Alphabet("DAT")).pcycles == map['D' := 'A', 'A' := 'D', 'T' := 'T']
    ensures FromCycles("(DA)(T)", Alphabet("DAT")).icycles == map['A' := 'D', 'D' := 'A', 'T' := 'T']
  {
    var s := "(DA)(T)";
    assert ForwardMap(s, 3) == map[] && InverseMap(s, 3) == map[];
    assert GroupStart(s, 3) == 1 && s[1..3] == "DA";
    assert ForwardMap(s, 6) == ForwardMap(s, 4) == map['D' := 'A', 'A' := 'D'];
    assert InverseMap(s, 6) == InverseMap(s, 4) == map['A' := 'D', 'D' := 'A'];
    assert GroupStart(s, 6) == 5 && s[5..6] == "T";
    assert InverseMap(s, 7) == PutBackward(InverseMap(s, 6), "T", 1);
  }

  /** `(DA)(T)` over `DAT`: D and A swap, T is fixed, so it is no derangement. */
  lemma SwapAndFixed()
    ensures var p := FromCycles("(DA)(T)", Alphabet("DAT"));
      p.Permute(0) == 1 && p.Permute(1) == 0 && p.Permute(2) == 2 &&
      p.Invert(0) == 1 && p.Invert(1) == 0 && p.Invert(2) == 2
  {
    SwapAndFixedMaps();
  }

  /** Text outside parentheses forms no cycle: `K` over `K` is the identity,
      and so is the empty cycle string over `CAT`. */
  lemma NoCyclesIdentity()
    ensures FromCycles("K", Alphabet("K")).Permute(0) == 0
    ensures forall i :: 0 <= i < 3 ==> FromCycles("", Alphabet("CAT")).Permute(i) == i
    ensures forall i :: 0 <= i < 3 ==> FromCycles("", Alphabet("CAT")).Invert(i) == i
  {
  }

  /** A symbol repeated in the cycle string is refused: `(ACBC)`. */
  lemma RepeatedCycleSymbolRejected()
    ensures !CyclesDistinct("(ACBC)")
  {
    assert "(ACBC)"[2] == "(ACBC)"[4];
  }

  /** The permutation of the empty alphabet has size 0; that of `ABCD` size 4. */
  lemma Sizes()
    ensures FromCycles("", Alphabet("")).Size() == 0
    ensures FromCycles("(BCDA)", Alphabet("ABCD")).Size() == 4
  {
  }
}
