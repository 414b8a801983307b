/** What a permutation built from cycle notation does: the cycle structure
    of its two maps, the bijection laws, fixed points, and reciprocity of
    permutations made of transpositions. */
module PermutationLaws {
  import opened Errors
  import opened Alphabets
  import opened Permutations
  import opened Modular

  // ---------------------------------------------------------------------------
  // Cycles as positions in the cycle string.

  /** Position `p` lies inside the cycle that the `)` at position `k` closes. */
  ghost predicate InCycle(s: string, k: int, p: int) {
    0 <= k < |s| && s[k] == ')' && GroupStart(s, k) <= p < k
  }

  /** Every cycle that a `)` closes holds symbols only: no `)` and no space
      (the well-formed "(cccc) (cc) ..." form; text outside parentheses is free). */
  ghost predicate Segmented(s: string) {
    forall k, p :: InCycle(s, k, p) ==> s[p] != ')' && s[p] != ' '
  }

  /** Every symbol of every cycle belongs to `alphabet`. */
  ghost predicate Within(s: string, alphabet: Alphabet) {
    forall k, p :: InCycle(s, k, p) ==> alphabet.Contains(s[p])
  }

  /** The position of the successor of position `p` in its cycle. */
  ghost function Succ(s: string, k: int, p: int): int
    requires InCycle(s, k, p)
  {
    if p + 1 == k then GroupStart(s, k) else p + 1
  }

  /** The position of the predecessor of position `p` in its cycle. */
  ghost function Pred(s: string, k: int, p: int): int
    requires InCycle(s, k, p)
  {
    if p == GroupStart(s, k) then k - 1 else p - 1
  }

  /** Symbol `x` occurs in a cycle closed before position `n`. */
  ghost predicate Member(s: string, n: int, x: char) {
    exists k, p :: k < n && InCycle(s, k, p) && s[p] == x
  }

  /** A cycle never holds a `(`: it starts after the last one. */
  lemma {:induction false} NoOpenInCycle(s: string, i: nat, p: int)
    requires i <= |s| && GroupStart(s, i) <= p < i
    ensures s[p] != '('
  {
    if s[i - 1] != '(' && p < i - 1 {
      NoOpenInCycle(s, i - 1, p);
    }
  }

  // ---------------------------------------------------------------------------
  // Putting one cycle into a map.

  /** Entering a cycle from position `j` on adds exactly its symbols from `j` on as keys. */
  lemma {:induction false} PutForwardKeys(m: map<char, char>, c: string, j: nat)
    requires j <= |c|
    ensures forall x :: x in PutForward(m, c, j) <==> x in m || x in c[j..]
    decreases |c| - j
  {
    if j < |c| {
      PutForwardKeys(m[c[j] := c[if j == |c| - 1 then 0 else j + 1]], c, j + 1);
      assert c[j..] == [c[j]] + c[j + 1..];
    }
  }

  /** Entering a cycle of distinct symbols maps each to the next, the last to the first. */
  lemma {:induction false} PutForwardEntries(m: map<char, char>, c: string, j: nat)
    requires j <= |c| && Distinct(c)
    ensures forall t :: j <= t < |c| ==> c[t] in PutForward(m, c, j) && PutForward(m, c, j)[c[t]] == c[if t == |c| - 1 then 0 else t + 1]
    decreases |c| - j
  {
    if j < |c| {
      var m' := m[c[j] := c[if j == |c| - 1 then 0 else j + 1]];
      PutForwardEntries(m', c, j + 1);
      PutForwardOthers(m', c, j + 1);
      assert c[j] !in c[j + 1..];
    }
  }

  /** Entering a cycle leaves the entries of other symbols alone. */
  lemma {:induction false} PutForwardOthers(m: map<char, char>, c: string, j: nat)
    requires j <= |c|
    ensures forall x :: x in m && x !in c[j..] ==> x in PutForward(m, c, j) && PutForward(m, c, j)[x] == m[x]
    decreases |c| - j
  {
    if j < |c| {
      PutForwardOthers(m[c[j] := c[if j == |c| - 1 then 0 else j + 1]], c, j + 1);
      assert c[j..] == [c[j]] + c[j + 1..];
    }
  }

  /** Entering a cycle backward from position `t - 1` down adds exactly its first `t` symbols as keys. */
  lemma {:induction false} PutBackwardKeys(m: map<char, char>, c: string, t: nat)
    requires t <= |c|
    ensures forall x :: x in PutBackward(m, c, t) <==> x in m || x in c[..t]
    decreases t
  {
    if t > 0 {
      PutBackwardKeys(m[c[t - 1] := c[if t - 1 == 0 then |c| - 1 else t - 2]], c, t - 1);
      assert c[..t] == c[..t - 1] + [c[t - 1]];
    }
  }

  /** Entering a cycle of distinct symbols backward maps each to the previous, the first to the last. */
  lemma {:induction false} PutBackwardEntries(m: map<char, char>, c: string, t: nat)
    requires t <= |c| && Distinct(c)
    ensures forall u :: 0 <= u < t ==> c[u] in PutBackward(m, c, t) && PutBackward(m, c, t)[c[u]] == c[if u == 0 then |c| - 1 else u - 1]
    decreases t
  {
    if t > 0 {
      var m' := m[c[t - 1] := c[if t - 1 == 0 then |c| - 1 else t - 2]];
      PutBackwardEntries(m', c, t - 1);
      PutBackwardOthers(m', c, t - 1);
      assert c[t - 1] !in c[..t - 1];
    }
  }

  /** Entering a cycle backward leaves the entries of other symbols alone. */
  lemma {:induction false} PutBackwardOthers(m: map<char, char>, c: string, t: nat)
    requires t <= |c|
    ensures forall x :: x in m && x !in c[..t] ==> x in PutBackward(m, c, t) && PutBackward(m, c, t)[x] == m[x]
    decreases t
  {
    if t > 0 {
      PutBackwardOthers(m[c[t - 1] := c[if t - 1 == 0 then |c| - 1 else t - 2]], c, t - 1);
      assert c[..t] == c[..t - 1] + [c[t - 1]];
    }
  }

  // ---------------------------------------------------------------------------
  // The maps a scan builds.

  /** The symbols of the cycle that the `)` at `n - 1` closes are distinct. */
  lemma NewCycleDistinct(s: string, n: nat)
    requires 0 < n <= |s| && s[n - 1] == ')' && CyclesDistinct(s) && Segmented(s)
    ensures Distinct(s[GroupStart(s, n - 1)..n - 1])
  {
    var g := GroupStart(s, n - 1);
    var c := s[g..n - 1];
    forall u, v | 0 <= u < v < |c| ensures c[u] != c[v] {
      assert InCycle(s, n - 1, g + u) && InCycle(s, n - 1, g + v);
      NoOpenInCycle(s, n - 1, g + u);
    }
  }

  /** A symbol of a cycle closed earlier does not occur in the cycle closed at `n - 1`. */
  lemma EarlierNotInNew(s: string, n: nat, k: int, p: int)
    requires 0 < n <= |s| && s[n - 1] == ')' && CyclesDistinct(s) && Segmented(s)
    requires k < n - 1 && InCycle(s, k, p)
    ensures s[p] !in s[GroupStart(s, n - 1)..n - 1]
  {
    var g := GroupStart(s, n - 1);
    assert !InCycle(s, n - 1, k);
    NoOpenInCycle(s, k, p);
    forall q | g <= q < n - 1 ensures s[p] != s[q] {
      assert InCycle(s, n - 1, q);
      NoOpenInCycle(s, n - 1, q);
    }
  }

  /** The members after reading one more position. */
  lemma MemberStep(s: string, n: nat, x: char)
    requires 0 < n <= |s|
    ensures s[n - 1] != ')' ==> (Member(s, n, x) <==> Member(s, n - 1, x))
    ensures s[n - 1] == ')' ==> (Member(s, n, x) <==> Member(s, n - 1, x) || x in s[GroupStart(s, n - 1)..n - 1])
  {
    var g := GroupStart(s, n - 1);
    if Member(s, n, x) {
      var k, p :| k < n && InCycle(s, k, p) && s[p] == x;
      if k == n - 1 {
        assert s[g..n - 1][p - g] == x;
      } else {
        assert Member(s, n - 1, x);
      }
    }
    if s[n - 1] == ')' && x in s[g..n - 1] {
      var u :| 0 <= u < n - 1 - g && s[g..n - 1][u] == x;
      assert InCycle(s, n - 1, g + u);
    }
  }

  /** The entry the `)` at `n - 1` puts for a position of its own cycle. */
  lemma ForwardNewEntry(s: string, n: nat, p: int)
    requires 0 < n <= |s| && CyclesDistinct(s) && Segmented(s) && InCycle(s, n - 1, p)
    ensures s[p] in ForwardMap(s, n) && ForwardMap(s, n)[s[p]] == s[Succ(s, n - 1, p)]
  {
    var g := GroupStart(s, n - 1);
    var c := s[g..n - 1];
    NewCycleDistinct(s, n);
    PutForwardEntries(ForwardMap(s, n - 1), c, 0);
    var t := p - g;
    assert c[t] == s[p];
    if t == |c| - 1 {
      assert c[0] == s[g] == s[Succ(s, n - 1, p)];
    } else {
      assert c[t + 1] == s[p + 1] == s[Succ(s, n - 1, p)];
    }
  }

  /** The entry the `)` at `n - 1` puts for a position of its own cycle. */
  lemma InverseNewEntry(s: string, n: nat, p: int)
    requires 0 < n <= |s| && CyclesDistinct(s) && Segmented(s) && InCycle(s, n - 1, p)
    ensures s[p] in InverseMap(s, n) && InverseMap(s, n)[s[p]] == s[Pred(s, n - 1, p)]
  {
    var g := GroupStart(s, n - 1);
    var c := s[g..n - 1];
    NewCycleDistinct(s, n);
    PutBackwardEntries(InverseMap(s, n - 1), c, |c|);
    var t := p - g;
    assert c[t] == s[p];
    if t == 0 {
      assert c[|c| - 1] == s[n - 2] == s[Pred(s, n - 1, p)];
    } else {
      assert c[t - 1] == s[p - 1] == s[Pred(s, n - 1, p)];
    }
  }

  /** Forward entries for earlier cycles survive the `)` at `n - 1`. */
  lemma OldForwardEntry(s: string, n: nat, k: int, p: int)
    requires 0 < n <= |s| && CyclesDistinct(s) && Segmented(s)
    requires k < n - 1 && InCycle(s, k, p) && s[p] in ForwardMap(s, n - 1)
    ensures s[p] in ForwardMap(s, n) && ForwardMap(s, n)[s[p]] == ForwardMap(s, n - 1)[s[p]]
  {
    if s[n - 1] == ')' {
      var g := GroupStart(s, n - 1);
      var c := s[g..n - 1];
      PutForwardOthers(ForwardMap(s, n - 1), c, 0);
      assert c[0..] == c;
      EarlierNotInNew(s, n, k, p);
    }
  }

  /** Inverse entries for earlier cycles survive the `)` at `n - 1`. */
  lemma OldInverseEntry(s: string, n: nat, k: int, p: int)
    requires 0 < n <= |s| && CyclesDistinct(s) && Segmented(s)
    requires k < n - 1 && InCycle(s, k, p) && s[p] in InverseMap(s, n - 1)
    ensures s[p] in InverseMap(s, n) && InverseMap(s, n)[s[p]] == InverseMap(s, n - 1)[s[p]]
  {
    if s[n - 1] == ')' {
      var g := GroupStart(s, n - 1);
      var c := s[g..n - 1];
      PutBackwardOthers(InverseMap(s, n - 1), c, |c|);
      assert c[..|c|] == c;
      EarlierNotInNew(s, n, k, p);
    }
  }

  /** After reading `s[..n]`, the forward map holds exactly the symbols of the cycles closed so far. */
  lemma {:induction false} ForwardKeys(s: string, n: nat)
    requires n <= |s|
    ensures forall x :: x in ForwardMap(s, n) <==> Member(s, n, x)
  {
    if n == 0 {
      return;
    }
    ForwardKeys(s, n - 1);
    forall x {
      MemberStep(s, n, x);
    }
    if s[n - 1] == ')' {
      var c := s[GroupStart(s, n - 1)..n - 1];
      PutForwardKeys(ForwardMap(s, n - 1), c, 0);
      assert c[0..] == c;
    }
  }

  /** After reading `s[..n]`, the inverse map holds exactly the symbols of the cycles closed so far. */
  lemma {:induction false} InverseKeys(s: string, n: nat)
    requires n <= |s|
    ensures forall x :: x in InverseMap(s, n) <==> Member(s, n, x)
  {
    if n == 0 {
      return;
    }
    InverseKeys(s, n - 1);
    forall x {
      MemberStep(s, n, x);
    }
    if s[n - 1] == ')' {
      var c := s[GroupStart(s, n - 1)..n - 1];
      PutBackwardKeys(InverseMap(s, n - 1), c, |c|);
      assert c[..|c|] == c;
    }
  }

  /** After reading `s[..n]`, the forward map sends each symbol of a cycle
      closed so far to its successor in that cycle. */
  lemma {:induction false} ForwardCycles(s: string, n: nat)
    requires n <= |s| && CyclesDistinct(s) && Segmented(s)
    ensures forall k, p :: k < n && InCycle(s, k, p) ==>
      s[p] in ForwardMap(s, n) && ForwardMap(s, n)[s[p]] == s[Succ(s, k, p)]
  {
    if n == 0 {
      return;
    }
    ForwardCycles(s, n - 1);
    forall k, p | k < n && InCycle(s, k, p)
      ensures s[p] in ForwardMap(s, n) && ForwardMap(s, n)[s[p]] == s[Succ(s, k, p)]
    {
      if k == n - 1 {
        ForwardNewEntry(s, n, p);
      } else {
        OldForwardEntry(s, n, k, p);
      }
    }
  }

  /** After reading `s[..n]`, the inverse map sends each symbol of a cycle
      closed so far to its predecessor in that cycle. */
  lemma {:induction false} InverseCycles(s: string, n: nat)
    requires n <= |s| && CyclesDistinct(s) && Segmented(s)
    ensures forall k, p :: k < n && InCycle(s, k, p) ==>
      s[p] in InverseMap(s, n) && InverseMap(s, n)[s[p]] == s[Pred(s, k, p)]
  {
    if n == 0 {
      return;
    }
    InverseCycles(s, n - 1);
    forall k, p | k < n && InCycle(s, k, p)
      ensures s[p] in InverseMap(s, n) && InverseMap(s, n)[s[p]] == s[Pred(s, k, p)]
    {
      if k == n - 1 {
        InverseNewEntry(s, n, p);
      } else {
        OldInverseEntry(s, n, k, p);
      }
    }
  }

  /** The maps of a whole cycle string: exactly the symbols of its cycles
      are keys, the forward map sends each to its successor in its cycle and
      the inverse map to its predecessor. */
  lemma CycleMaps(s: string)
    requires CyclesDistinct(s) && Segmented(s)
    ensures forall k, p :: InCycle(s, k, p) ==>
      s[p] in ForwardMap(s, |s|) && ForwardMap(s, |s|)[s[p]] == s[Succ(s, k, p)]
    ensures forall k, p :: InCycle(s, k, p) ==>
      s[p] in InverseMap(s, |s|) && InverseMap(s, |s|)[s[p]] == s[Pred(s, k, p)]
    ensures forall x :: x in ForwardMap(s, |s|) <==> Member(s, |s|, x)
    ensures forall x :: x in InverseMap(s, |s|) <==> Member(s, |s|, x)
  {
    ForwardKeys(s, |s|);
    InverseKeys(s, |s|);
    ForwardCycles(s, |s|);
    InverseCycles(s, |s|);
  }

  /** A coherent permutation over a non-empty alphabet is a bijection of its indices. */
  lemma CoherentBijective(p: Permutation)
    requires p.Coherent() && p.Size() > 0
    ensures p.Bijective()
  {
    forall a | 0 <= a < p.Size()
      ensures 0 <= p.Permute(a) < p.Size() && p.Invert(p.Permute(a)) == a
    {
      PermuteInRange(p, a);
      InvertAfterPermute(p, a);
    }
    forall a | 0 <= a < p.Size()
      ensures 0 <= p.Invert(a) < p.Size() && p.Permute(p.Invert(a)) == a
    {
      InvertInRange(p, a);
      PermuteAfterInvert(p, a);
    }
  }

  /** A coherent reciprocal permutation is its own inverse on indices. */
  lemma ReciprocalSelfInverse(p: Permutation)
    requires p.Coherent() && p.Reciprocal() && p.Size() > 0
    ensures p.SelfInverse()
  {
    forall a | 0 <= a < p.Size()
      ensures p.Permute(p.Permute(a)) == a
    {
      ReciprocalInvolution(p, a);
    }
  }

  // ---------------------------------------------------------------------------
  // The permutation built from a cycle string.

  lemma SuccPred(s: string, k: int, p: int)
    requires InCycle(s, k, p)
    ensures InCycle(s, k, Succ(s, k, p)) && Pred(s, k, Succ(s, k, p)) == p
    ensures InCycle(s, k, Pred(s, k, p)) && Succ(s, k, Pred(s, k, p)) == p
  {
  }

  /** Both maps of a cycle string have the symbols of its cycles as keys. */
  lemma SameKeys(s: string, alphabet: Alphabet)
    requires CyclesDistinct(s) && Segmented(s) && Within(s, alphabet)
    ensures ForwardMap(s, |s|).Keys == InverseMap(s, |s|).Keys
    ensures forall x :: x in ForwardMap(s, |s|) ==> alphabet.Contains(x)
  {
    ForwardKeys(s, |s|);
    InverseKeys(s, |s|);
  }

  /** The inverse map undoes the forward map of a cycle string. */
  lemma InverseUndoesForward(s: string)
    requires CyclesDistinct(s) && Segmented(s)
    ensures forall x :: x in ForwardMap(s, |s|) ==>
      ForwardMap(s, |s|)[x] in InverseMap(s, |s|) && InverseMap(s, |s|)[ForwardMap(s, |s|)[x]] == x
  {
    CycleMaps(s);
    var f, i := ForwardMap(s, |s|), InverseMap(s, |s|);
    forall x | x in f ensures f[x] in i && i[f[x]] == x {
      var k, p :| k < |s| && InCycle(s, k, p) && s[p] == x;
      SuccPred(s, k, p);
    }
  }

  /** The forward map undoes the inverse map of a cycle string. */
  lemma ForwardUndoesInverse(s: string)
    requires CyclesDistinct(s) && Segmented(s)
    ensures forall y :: y in InverseMap(s, |s|) ==>
      InverseMap(s, |s|)[y] in ForwardMap(s, |s|) && ForwardMap(s, |s|)[InverseMap(s, |s|)[y]] == y
  {
    CycleMaps(s);
    var f, i := ForwardMap(s, |s|), InverseMap(s, |s|);
    forall y | y in i ensures i[y] in f && f[i[y]] == y {
      var k, p :| k < |s| && InCycle(s, k, p) && s[p] == y;
      SuccPred(s, k, p);
    }
  }

  /** In a valid alphabet, each symbol of a cycle sits at exactly one index. */
  lemma KeysAtOneIndex(s: string, alphabet: Alphabet)
    requires alphabet.Valid() && Segmented(s)
    ensures forall j :: 0 <= j < alphabet.Size() && alphabet.ToChar(j) in ForwardMap(s, |s|) ==>
      alphabet.ToInt(alphabet.ToChar(j)) == j
  {
    ForwardKeys(s, |s|);
    forall j | 0 <= j < alphabet.Size() && alphabet.ToChar(j) in ForwardMap(s, |s|)
      ensures alphabet.ToInt(alphabet.ToChar(j)) == j
    {
      var k, p :| k < |s| && InCycle(s, k, p) && s[p] == alphabet.ToChar(j);
      NoOpenInCycle(s, k, p);
      ToIntToChar(alphabet, j);
    }
  }

  /** A well-formed, duplicate-free cycle string over a valid alphabet gives coherent maps. */
  lemma FromCyclesCoherent(s: string, alphabet: Alphabet)
    requires alphabet.Valid() && CyclesDistinct(s) && Segmented(s) && Within(s, alphabet)
    ensures FromCycles(s, alphabet).Coherent()
  {
    SameKeys(s, alphabet);
    InverseUndoesForward(s);
    ForwardUndoesInverse(s);
    KeysAtOneIndex(s, alphabet);
  }

  // ---------------------------------------------------------------------------
  // Wrapping.

  /** `wrap(p)` is the non-negative remainder of `p` modulo the size, so it
      is congruent to `p`. */
  lemma WrapIsMod(perm: Permutation, p: int)
    requires perm.Size() > 0
    ensures perm.Wrap(p) == p % perm.Size()
    ensures (p - perm.Wrap(p)) % perm.Size() == 0
  {
    var n := perm.Size();
    TruncRemCorrected(p, n);
    DivModUnique(p - p % n, n, p / n, 0);
  }

  /** Wrapping one summand first does not change the wrapped sum. */
  lemma WrapAdd(perm: Permutation, x: int, y: int)
    requires perm.Size() > 0
    ensures perm.Wrap(perm.Wrap(x) + y) == perm.Wrap(x + y)
  {
    WrapIsMod(perm, x);
    WrapIsMod(perm, perm.Wrap(x) + y);
    WrapIsMod(perm, x + y);
    ModAddLeft(x, y, perm.Size());
  }

  // ---------------------------------------------------------------------------
  // Laws of a coherent permutation.

  /** A symbol that is a key of a coherent permutation sits at exactly one index. */
  lemma KeyIndex(p: Permutation, x: char, j: int)
    requires p.Coherent() && x in p.pcycles && 0 <= j < p.Size() && p.alphabet.ToChar(j) == x
    ensures p.alphabet.ToInt(x) == j
  {
  }

  /** The maps of a coherent permutation produce symbols of its alphabet. */
  lemma CoherentMapsIntoAlphabet(p: Permutation)
    requires p.Coherent()
    ensures p.MapsIntoAlphabet()
  {
    forall x | x in p.pcycles ensures p.alphabet.Contains(p.pcycles[x]) {
      assert p.pcycles[x] in p.icycles;
    }
    forall x | x in p.icycles ensures p.alphabet.Contains(p.icycles[x]) {
      assert p.icycles[x] in p.pcycles;
    }
  }

  /** Forward index lookups of a coherent permutation land in the alphabet. */
  lemma PermuteInRange(p: Permutation, i: int)
    requires p.Coherent() && p.Size() > 0
    ensures 0 <= p.Permute(i) < p.Size()
  {
    CoherentMapsIntoAlphabet(p);
  }

  /** Inverse index lookups of a coherent permutation land in the alphabet. */
  lemma InvertInRange(p: Permutation, i: int)
    requires p.Coherent() && p.Size() > 0
    ensures 0 <= p.Invert(i) < p.Size()
  {
    CoherentMapsIntoAlphabet(p);
  }

  /** For a coherent permutation, `invert` undoes `permute` for every index after wrapping. */
  lemma InvertAfterPermute(p: Permutation, i: int)
    requires p.Coherent() && p.Size() > 0
    ensures p.Invert(p.Permute(i)) == p.Wrap(i)
  {
    var a := p.Wrap(i);
    var x := p.alphabet.ToChar(a);
    if x in p.pcycles {
      var y := p.pcycles[x];
      var b := p.alphabet.ToInt(y);
      assert p.Permute(i) == b;
      assert y in p.icycles && p.icycles[y] == x;
      assert p.Invert(b) == p.alphabet.ToInt(x);
    } else {
      assert x !in p.icycles;
    }
  }

  /** For a coherent permutation, `permute` undoes `invert` for every index after wrapping. */
  lemma PermuteAfterInvert(p: Permutation, i: int)
    requires p.Coherent() && p.Size() > 0
    ensures p.Permute(p.Invert(i)) == p.Wrap(i)
  {
    var a := p.Wrap(i);
    var x := p.alphabet.ToChar(a);
    if x in p.icycles {
      var y := p.icycles[x];
      var b := p.alphabet.ToInt(y);
      assert p.Invert(i) == b;
      assert y in p.pcycles && p.pcycles[y] == x;
      assert p.Permute(b) == p.alphabet.ToInt(x);
    } else {
      assert x !in p.pcycles;
    }
  }

  /** The index lookups of a coherent permutation at the index of a symbol follow its maps. */
  lemma IndexLookups(p: Permutation, x: char)
    requires p.Coherent() && p.alphabet.Contains(x)
    ensures p.Permute(p.alphabet.ToInt(x)) == p.alphabet.ToInt(if x in p.pcycles then p.pcycles[x] else x)
    ensures p.Invert(p.alphabet.ToInt(x)) == p.alphabet.ToInt(if x in p.icycles then p.icycles[x] else x)
  {
    var i := p.alphabet.ToInt(x);
    assert p.Wrap(i) == i && p.alphabet.ToChar(i) == x;
  }

  /** Forward symbol lookup in a coherent permutation follows its forward
      map; a symbol of the alphabet that is no key is a fixed point. */
  lemma PermuteCharLookup(p: Permutation, x: char)
    requires p.Coherent() && p.alphabet.Contains(x)
    ensures p.MapsIntoAlphabet()
    ensures p.PermuteChar(x) == Ok(if x in p.pcycles then p.pcycles[x] else x)
  {
    CoherentMapsIntoAlphabet(p);
    IndexLookups(p, x);
    if x in p.pcycles {
      ToCharToInt(p.alphabet, p.pcycles[x]);
    }
  }

  /** Inverse symbol lookup in a coherent permutation follows its inverse map. */
  lemma InvertCharLookup(p: Permutation, x: char)
    requires p.Coherent() && p.alphabet.Contains(x)
    ensures p.MapsIntoAlphabet()
    ensures p.InvertChar(x) == Ok(if x in p.icycles then p.icycles[x] else x)
  {
    CoherentMapsIntoAlphabet(p);
    IndexLookups(p, x);
    if x in p.icycles {
      ToCharToInt(p.alphabet, p.icycles[x]);
    }
  }

  /** For a coherent permutation, `invert` undoes `permute` on symbols and
      the other way round. */
  lemma CharInverseLaws(p: Permutation, x: char)
    requires p.Coherent() && p.alphabet.Contains(x)
    ensures p.MapsIntoAlphabet()
    ensures p.PermuteChar(x).Ok? && p.InvertChar(p.PermuteChar(x).value) == Ok(x)
    ensures p.InvertChar(x).Ok? && p.PermuteChar(p.InvertChar(x).value) == Ok(x)
  {
    PermuteCharLookup(p, x);
    InvertCharLookup(p, x);
    var y := p.PermuteChar(x).value;
    InvertCharLookup(p, y);
    var z := p.InvertChar(x).value;
    PermuteCharLookup(p, z);
  }

  /** For a coherent reciprocal permutation, `permute` is its own inverse. */
  lemma ReciprocalInvolution(p: Permutation, i: int)
    requires p.Coherent() && p.Reciprocal() && p.Size() > 0
    ensures p.Permute(p.Permute(i)) == p.Wrap(i)
  {
    var a := p.Wrap(i);
    var x := p.alphabet.ToChar(a);
    if x in p.pcycles {
      KeyIndex(p, x, a);
      var b := p.alphabet.ToInt(p.pcycles[x]);
      KeyIndex(p, p.pcycles[x], b);
    }
  }

  // ---------------------------------------------------------------------------
  // The permutation built from a cycle string.

  /** Within a cycle `(c0 c1 ... cm)`: `permute` takes each symbol to the next
      and `cm` to `c0`; `invert` takes each to the previous and `c0` to `cm`;
      by symbol and by index. */
  lemma PermuteAlongCycle(s: string, alphabet: Alphabet, k: int, p: int)
    requires alphabet.Valid() && CyclesDistinct(s) && Segmented(s) && Within(s, alphabet)
    requires InCycle(s, k, p)
    ensures FromCycles(s, alphabet).MapsIntoAlphabet()
    ensures FromCycles(s, alphabet).PermuteChar(s[p]) == Ok(s[Succ(s, k, p)])
    ensures FromCycles(s, alphabet).InvertChar(s[p]) == Ok(s[Pred(s, k, p)])
    ensures FromCycles(s, alphabet).Permute(alphabet.ToInt(s[p])) == alphabet.ToInt(s[Succ(s, k, p)])
    ensures FromCycles(s, alphabet).Invert(alphabet.ToInt(s[p])) == alphabet.ToInt(s[Pred(s, k, p)])
  {
    var perm := FromCycles(s, alphabet);
    FromCyclesCoherent(s, alphabet);
    CycleMaps(s);
    PermuteCharLookup(perm, s[p]);
    InvertCharLookup(perm, s[p]);
    IndexLookups(perm, s[p]);
  }

  /** A symbol of the alphabet in no cycle, such as text outside the
      parentheses, is a fixed point of `permute` and `invert`. */
  lemma FixedOutsideCycles(s: string, alphabet: Alphabet, x: char)
    requires alphabet.Valid() && CyclesDistinct(s) && Segmented(s) && Within(s, alphabet)
    requires alphabet.Contains(x) && !Member(s, |s|, x)
    ensures FromCycles(s, alphabet).MapsIntoAlphabet()
    ensures FromCycles(s, alphabet).PermuteChar(x) == Ok(x)
    ensures FromCycles(s, alphabet).InvertChar(x) == Ok(x)
  {
    FromCyclesCoherent(s, alphabet);
    CycleMaps(s);
    PermuteCharLookup(FromCycles(s, alphabet), x);
    InvertCharLookup(FromCycles(s, alphabet), x);
  }

  /** The empty cycle string gives the identity. */
  lemma EmptyIsIdentity(alphabet: Alphabet, i: int)
    requires alphabet.Size() > 0
    ensures FromCycles("", alphabet).Permute(i) == FromCycles("", alphabet).Wrap(i)
    ensures FromCycles("", alphabet).Invert(i) == FromCycles("", alphabet).Wrap(i)
  {
  }

  /** A cycle string whose cycles hold at most two symbols each gives a reciprocal permutation. */
  lemma PairsAreReciprocal(s: string, alphabet: Alphabet)
    requires CyclesDistinct(s) && Segmented(s)
    requires forall k :: 0 <= k < |s| && s[k] == ')' ==> k - GroupStart(s, k) <= 2
    ensures FromCycles(s, alphabet).Reciprocal()
  {
    CycleMaps(s);
    var f := ForwardMap(s, |s|);
    forall x | x in f ensures f[x] in f && f[f[x]] == x {
      var k, p :| k < |s| && InCycle(s, k, p) && s[p] == x;
      SuccPred(s, k, p);
      var q := Succ(s, k, p);
      assert Succ(s, k, q) == p;
    }
  }
}
