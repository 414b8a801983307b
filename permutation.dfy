/** A permutation of the indices of an alphabet, given in cycle notation
    (Permutation.java). */
module Permutations {
  import opened Errors
  import opened Alphabets
  import opened Modular

  /** A permutation: its alphabet and the two symbol maps that construction
      fills, `pcycles` (each symbol to its successor in its cycle) and
      `icycles` (each symbol to its predecessor). Symbols in neither map are
      fixed points. Immutable once built. */
  datatype Permutation = Permutation(alphabet: Alphabet, pcycles: map<char, char>, icycles: map<char, char>) {

    /** The size of the alphabet permuted. */
    function Size(): nat {
      alphabet.Size()
    }

    /** `p` modulo the size: the truncating remainder, moved up by the size
        when negative. It lies in range and leaves indices in range alone;
        WrapIsMod shows it is the Euclidean remainder. */
    function Wrap(p: int): (r: int)
      requires Size() > 0
      ensures 0 <= r < Size()
      ensures 0 <= p < Size() ==> r == p
    {
      var r := TruncRem(p, Size());
      if 0 <= p < Size() then
        DivModUnique(p, Size(), 0, p);
        r
      else if r < 0 then r + Size() else r
    }

    /** Forward lookup by index: the index of the successor of the symbol at
        `Wrap(p)`, or `Wrap(p)` itself when that symbol is in no cycle. The
        result is -1 only when the successor lies outside the alphabet. */
    function Permute(p: int): (r: int)
      requires Size() > 0
      ensures -1 <= r < Size()
      ensures MapsIntoAlphabet() ==> 0 <= r
      ensures alphabet.ToChar(Wrap(p)) !in pcycles ==> r == Wrap(p)
      ensures alphabet.ToChar(Wrap(p)) in pcycles && 0 <= r ==> alphabet.ToChar(r) == pcycles[alphabet.ToChar(Wrap(p))]
    {
      var a := Wrap(p);
      var letter := alphabet.ToChar(a);
      if letter in pcycles then alphabet.ToInt(pcycles[alphabet.ToChar(a)]) else a
    }

    /** Inverse lookup by index: the index of the predecessor of the symbol
        at `Wrap(c)`, or `Wrap(c)` itself when that symbol is in no cycle. */
    function Invert(c: int): (r: int)
      requires Size() > 0
      ensures -1 <= r < Size()
      ensures MapsIntoAlphabet() ==> 0 <= r
      ensures alphabet.ToChar(Wrap(c)) !in icycles ==> r == Wrap(c)
      ensures alphabet.ToChar(Wrap(c)) in icycles && 0 <= r ==> alphabet.ToChar(r) == icycles[alphabet.ToChar(Wrap(c))]
    {
      var a := Wrap(c);
      var letter := alphabet.ToChar(a);
      if letter in icycles then alphabet.ToInt(icycles[alphabet.ToChar(a)]) else a
    }

    /** Every symbol the maps produce is in the alphabet, so that the index
        lookups land on a symbol again. */
    predicate MapsIntoAlphabet() {
      (forall x :: x in pcycles ==> alphabet.Contains(pcycles[x])) &&
      (forall x :: x in icycles ==> alphabet.Contains(icycles[x]))
    }

    /** Forward lookup by symbol; fails for a symbol outside the alphabet. */
    function PermuteChar(p: char): (r: Result<char>)
      requires MapsIntoAlphabet()
      ensures r.Ok? <==> alphabet.Contains(p)
      ensures r.Err? ==> r.error == NotInAlphabet(p)
      ensures r.Ok? ==> alphabet.Contains(r.value)
    {
      if alphabet.Contains(p) then
        var i := Permute(alphabet.ToInt(p));
        Ok(alphabet.ToChar(i))
      else
        Err(NotInAlphabet(p))
    }

    /** Inverse lookup by symbol; fails for a symbol outside the alphabet. */
    function InvertChar(c: char): (r: Result<char>)
      requires MapsIntoAlphabet()
      ensures r.Ok? <==> alphabet.Contains(c)
      ensures r.Err? ==> r.error == NotInAlphabet(c)
      ensures r.Ok? ==> alphabet.Contains(r.value)
    {
      if alphabet.Contains(c) then
        var i := Invert(alphabet.ToInt(c));
        Ok(alphabet.ToChar(i))
      else
        Err(NotInAlphabet(c))
    }

    /** What a well-formed cycle string over a valid alphabet gives: both
        maps have the same keys, every key is a symbol of the alphabet found
        at exactly one index, and each map undoes the other. */
    predicate Coherent() {
      pcycles.Keys == icycles.Keys &&
      (forall x :: x in pcycles ==> alphabet.Contains(x)) &&
      (forall j :: 0 <= j < alphabet.Size() && alphabet.ToChar(j) in pcycles ==> alphabet.ToInt(alphabet.ToChar(j)) == j) &&
      (forall x :: x in pcycles ==> pcycles[x] in icycles && icycles[pcycles[x]] == x) &&
      (forall y :: y in icycles ==> icycles[y] in pcycles && pcycles[icycles[y]] == y)
    }

    /** On indices: `permute` and `invert` map the alphabet's positions into
        themselves and undo each other. */
    predicate Bijective() {
      Size() > 0 &&
      (forall a :: 0 <= a < Size() ==> 0 <= Permute(a) < Size()) &&
      (forall a :: 0 <= a < Size() ==> 0 <= Invert(a) < Size()) &&
      (forall a {:trigger Invert(Permute(a))} :: 0 <= a < Size() ==> Invert(Permute(a)) == a) &&
      (forall a {:trigger Permute(Invert(a))} :: 0 <= a < Size() ==> Permute(Invert(a)) == a)
    }

    /** On indices: `permute` undoes itself. */
    predicate SelfInverse() {
      Size() > 0 && forall a {:trigger Permute(Permute(a))} :: 0 <= a < Size() ==> Permute(Permute(a)) == a
    }

    /** Every cycle has at most two symbols, so the forward map is its own inverse. */
    predicate Reciprocal() {
      forall x :: x in pcycles ==> pcycles[x] in pcycles && pcycles[pcycles[x]] == x
    }

    /** True iff no index of the alphabet is a fixed point; searches and stops at the first one. */
    method Derangement() returns (d: bool)
      ensures d <==> forall i :: 0 <= i < Size() ==> Permute(i) != i
    {
      var i := 0;
      while i < Size()
        invariant 0 <= i <= Size()
        invariant forall k :: 0 <= k < i ==> Permute(k) != k
      {
        if Permute(i) == i {
          return false;
        }
        i := i + 1;
      }
      return true;
    }
  }

  // ---------------------------------------------------------------------------
  // What construction computes from a cycle string, following its scan.

  /** What the duplicate check of construction accepts: two equal symbols
      are allowed only if the first is a parenthesis or the second is a
      parenthesis or a space. */
  predicate CyclesDistinct(s: string) {
    forall i, j :: 0 <= i < j < |s| && !IsParen(s[i]) && !IsParen(s[j]) && s[j] != ' ' ==> s[i] != s[j]
  }

  /** Where the scan's current cycle starts after reading `s[..i]`: just
      after the last `(`, or 0 when there is none. */
  ghost function GroupStart(s: string, i: nat): (a: nat)
    requires i <= |s|
    ensures a <= i
  {
    if i == 0 then 0
    else if s[i - 1] == '(' then i
    else GroupStart(s, i - 1)
  }

  /** Forward entries `c[j] -> c[j+1]`, and `c[last] -> c[0]`, put in order from `j` on. */
  ghost function PutForward(m: map<char, char>, c: string, j: nat): map<char, char>
    requires j <= |c|
    decreases |c| - j
  {
    if j == |c| then m
    else PutForward(m[c[j] := c[if j == |c| - 1 then 0 else j + 1]], c, j + 1)
  }

  /** Inverse entries `c[u] -> c[u-1]`, and `c[0] -> c[last]`, put for `u` from `t - 1` down to 0. */
  ghost function PutBackward(m: map<char, char>, c: string, t: nat): map<char, char>
    requires t <= |c|
    decreases t
  {
    if t == 0 then m
    else PutBackward(m[c[t - 1] := c[if t - 1 == 0 then |c| - 1 else t - 2]], c, t - 1)
  }

  /** The forward map after the scan has read `s[..n]`: each `)` adds the
      cycle between it and the current cycle start. */
  ghost function ForwardMap(s: string, n: nat): map<char, char>
    requires n <= |s|
  {
    if n == 0 then map[]
    else if s[n - 1] == ')' then PutForward(ForwardMap(s, n - 1), s[GroupStart(s, n - 1)..n - 1], 0)
    else ForwardMap(s, n - 1)
  }

  /** The inverse map after the scan has read `s[..n]`. */
  ghost function InverseMap(s: string, n: nat): map<char, char>
    requires n <= |s|
  {
    if n == 0 then map[]
    else if s[n - 1] == ')' then
      var c := s[GroupStart(s, n - 1)..n - 1];
      PutBackward(InverseMap(s, n - 1), c, |c|)
    else InverseMap(s, n - 1)
  }

  /** The permutation that construction builds from `cycles` once the duplicate check passes. */
  ghost function FromCycles(cycles: string, alphabet: Alphabet): Permutation {
    Permutation(alphabet, ForwardMap(cycles, |cycles|), InverseMap(cycles, |cycles|))
  }

  /** Construction from a cycle string: the duplicate check, then one scan
      filling the forward map and one filling the inverse map. */
  method NewPermutation(cycles: string, alphabet: Alphabet) returns (r: Result<Permutation>)
    ensures r.Ok? <==> CyclesDistinct(cycles)
    ensures r.Ok? ==> r.value == FromCycles(cycles, alphabet)
    ensures r.Err? ==> r.error.ConfigError?
  {
    var distinct := CheckCycles(cycles);
    if !distinct {
      return Err(ConfigError("No duplicates allowed cycle"));
    }
    var pcycles := ScanForward(cycles);
    var icycles := ScanBackward(cycles);
    return Ok(Permutation(alphabet, pcycles, icycles));
  }

  /** The duplicate check of construction: compares every non-parenthesis
      symbol with each later one that is neither a parenthesis nor a blank. */
  method CheckCycles(cycles: string) returns (distinct: bool)
    ensures distinct <==> CyclesDistinct(cycles)
  {
    var i := 0;
    while i < |cycles|
      invariant 0 <= i <= |cycles|
      invariant forall x, y :: 0 <= x < i && x < y < |cycles| && !IsParen(cycles[x]) && !IsParen(cycles[y]) && cycles[y] != ' ' ==> cycles[x] != cycles[y]
    {
      if !IsParen(cycles[i]) {
        var j := i + 1;
        while j < |cycles|
          invariant i + 1 <= j <= |cycles|
          invariant forall y :: i < y < j && !IsParen(cycles[y]) && cycles[y] != ' ' ==> cycles[i] != cycles[y]
        {
          if !IsParen(cycles[j]) && cycles[j] != ' ' && cycles[i] == cycles[j] {
            return false;
          }
          j := j + 1;
        }
      }
      i := i + 1;
    }
    return true;
  }

  /** The forward scan of construction: at each ')' the symbols since the
      last '(' are entered into the map, each to its successor. */
  method ScanForward(cycles: string) returns (pcycles: map<char, char>)
    ensures pcycles == ForwardMap(cycles, |cycles|)
  {
    pcycles := map[];
    var a := 0;
    var i := 0;
    while i < |cycles|
      invariant 0 <= i <= |cycles|
      invariant a == GroupStart(cycles, i)
      invariant pcycles == ForwardMap(cycles, i)
    {
      if cycles[i] == '(' {
        a := i + 1;
      }
      if cycles[i] == ')' {
        pcycles := EnterForward(pcycles, cycles[a..i]);
      }
      i := i + 1;
    }
  }

  /** Enters one cycle forward: each symbol maps to the next, the last to the first. */
  method EnterForward(m: map<char, char>, cpermute: string) returns (pcycles: map<char, char>)
    ensures pcycles == PutForward(m, cpermute, 0)
  {
    pcycles := m;
    var j := 0;
    while j <= |cpermute| - 1
      invariant 0 <= j <= |cpermute|
      invariant PutForward(pcycles, cpermute, j) == PutForward(m, cpermute, 0)
    {
      if j == |cpermute| - 1 {
        pcycles := pcycles[cpermute[j] := cpermute[0]];
      } else {
        pcycles := pcycles[cpermute[j] := cpermute[j + 1]];
      }
      j := j + 1;
    }
  }

  /** The inverse scan of construction: at each ')' the symbols since the
      last '(' are entered into the map, each to its predecessor. */
  method ScanBackward(cycles: string) returns (icycles: map<char, char>)
    ensures icycles == InverseMap(cycles, |cycles|)
  {
    icycles := map[];
    var c := 0;
    var i := 0;
    while i < |cycles|
      invariant 0 <= i <= |cycles|
      invariant c == GroupStart(cycles, i)
      invariant icycles == InverseMap(cycles, i)
    {
      if cycles[i] == '(' {
        c := i + 1;
      }
      if cycles[i] == ')' {
        icycles := EnterBackward(icycles, cycles[c..i]);
      }
      i := i + 1;
    }
  }

  /** Enters one cycle backward, last symbol first: each symbol maps to the
      previous, the first to the last. */
  method EnterBackward(m: map<char, char>, cinvert: string) returns (icycles: map<char, char>)
    ensures icycles == PutBackward(m, cinvert, |cinvert|)
  {
    icycles := m;
    var j := |cinvert| - 1;
    while j >= 0
      invariant -1 <= j < |cinvert|
      invariant PutBackward(icycles, cinvert, j + 1) == PutBackward(m, cinvert, |cinvert|)
    {
      if j == 0 {
        icycles := icycles[cinvert[j] := cinvert[|cinvert| - 1]];
      } else {
        icycles := icycles[cinvert[j] := cinvert[j - 1]];
      }
      j := j - 1;
    }
  }
}
