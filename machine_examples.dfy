/** A concrete machine: a rotor name that matches no catalogue rotor is let
    through by `insertRotors` once the slots have been filled, and refused
    by the checked insertion. */
module MachineExamples {
  import opened Errors
  import opened Alphabets
  import opened Permutations
  import opened Rotors
  import opened Machines

  /** A machine with five slots and three pawls whose catalogue holds the
      reflector B, the fixed rotor Beta and the moving rotors III, IV and I,
      all over `AB` with identity wiring. */
  method SampleMachine() returns (m: Machine)
    ensures fresh(m) && fresh(m.rotors) && m.Valid()
    ensures m.numRotors == 5 && m.numPawls == 3 && |m.allRotors| == 5
    ensures m.allRotors[0].name == "B" && m.allRotors[0].Reflecting()
    ensures m.allRotors[1].name == "Beta" && !m.allRotors[1].Rotates() && !m.allRotors[1].Reflecting()
    ensures m.allRotors[2].name == "III" && m.allRotors[2].Rotates()
    ensures m.allRotors[3].name == "IV" && m.allRotors[3].Rotates()
    ensures m.allRotors[4].name == "I" && m.allRotors[4].Rotates()
    ensures forall k :: 0 <= k < 5 ==> m.rotors[k] == null
  {
    var alpha := Alphabet("AB");
    var id := Permutation(alpha, map[], map[]);
    var b := new Rotor("B", id, Reflector);
    var beta := new Rotor("Beta", id, Fixed);
    var iii := new Rotor("III", id, Moving("A"));
    var iv := new Rotor("IV", id, Moving("A"));
    var one := new Rotor("I", id, Moving("A"));
    m := new Machine(alpha, 5, 3, [b, beta, iii, iv, one]);
  }

  /** A name held by exactly one catalogue rotor fills the slot with it. */
  lemma {:induction false} LastNamedOnly(cat: seq<Rotor>, name: string, j: int, dflt: Rotor?)
    requires 0 <= j < |cat| && cat[j].name == name
    requires forall k :: 0 <= k < |cat| && k != j ==> cat[k].name != name
    ensures LastNamed(cat, name, dflt) == cat[j]
    decreases |cat|
  {
    var n := |cat| - 1;
    if j < n {
      var front := cat[..n];
      assert forall k :: 0 <= k < |front| ==> front[k] == cat[k];
      LastNamedOnly(front, name, j, dflt);
    }
  }

  /** The number of rotating rotors among five slots. */
  lemma RotatingFive(s: seq<Rotor?>)
    requires |s| == 5 && forall k :: 0 <= k < 5 ==> s[k] != null
    ensures Rotating(s) ==
      (if s[0].Rotates() then 1 else 0) + (if s[1].Rotates() then 1 else 0) + (if s[2].Rotates() then 1 else 0) +
      (if s[3].Rotates() then 1 else 0) + (if s[4].Rotates() then 1 else 0)
  {
    assert s[..1][..0] == [];
    assert Rotating(s[..1]) == (if s[0].Rotates() then 1 else 0);
    assert s[..2][..1] == s[..1];
    assert Rotating(s[..2]) == Rotating(s[..1]) + (if s[1].Rotates() then 1 else 0);
    assert s[..3][..2] == s[..2];
    assert Rotating(s[..3]) == Rotating(s[..2]) + (if s[2].Rotates() then 1 else 0);
    assert s[..4][..3] == s[..3];
    assert Rotating(s[..4]) == Rotating(s[..3]) + (if s[3].Rotates() then 1 else 0);
    assert s[..4] == s[..|s| - 1];
  }

  /** What each name of the sample catalogue fills a slot with. */
  lemma SampleSlots(cat: seq<Rotor>)
    requires |cat| == 5 && cat[0].name == "B" && cat[1].name == "Beta" && cat[2].name == "III"
    requires cat[3].name == "IV" && cat[4].name == "I"
    ensures forall d :: LastNamed(cat, "B", d) == cat[0] && LastNamed(cat, "Beta", d) == cat[1]
    ensures forall d :: LastNamed(cat, "III", d) == cat[2] && LastNamed(cat, "IV", d) == cat[3]
    ensures forall d :: LastNamed(cat, "I", d) == cat[4]
    ensures !Named(cat, "X") && forall d :: LastNamed(cat, "X", d) == d
  {
    forall d: Rotor?
      ensures LastNamed(cat, "B", d) == cat[0] && LastNamed(cat, "Beta", d) == cat[1]
      ensures LastNamed(cat, "III", d) == cat[2] && LastNamed(cat, "IV", d) == cat[3]
      ensures LastNamed(cat, "I", d) == cat[4] && LastNamed(cat, "X", d) == d
    {
      LastNamedOnly(cat, "B", 0, d);
      LastNamedOnly(cat, "Beta", 1, d);
      LastNamedOnly(cat, "III", 2, d);
      LastNamedOnly(cat, "IV", 3, d);
      LastNamedOnly(cat, "I", 4, d);
      LastNamedNone(cat, "X", d);
    }
  }

  /** The names `B Beta III IV I`: one per slot, all different. */
  function FullNames(): (names: seq<string>)
    ensures |names| == 5 && names[0] == "B" && names[1] == "Beta" && names[2] == "III"
    ensures names[3] == "IV" && names[4] == "I"
    ensures forall i, j :: 0 <= i < j < 5 ==> names[i] != names[j]
  {
    ["B", "Beta", "III", "IV", "I"]
  }

  /** The names `B Beta III X IV`, whose `X` names no rotor. */
  function AgainNames(): (names: seq<string>)
    ensures |names| == 5 && names[0] == "B" && names[1] == "Beta" && names[2] == "III"
    ensures names[3] == "X" && names[4] == "IV"
  {
    ["B", "Beta", "III", "X", "IV"]
  }

  /** The sample machine with `B Beta III IV I` inserted, which it accepts:
      each slot holds the catalogue rotor of the same position. */
  method LoadedSample() returns (m: Machine, first: Outcome)
    ensures fresh(m) && fresh(m.rotors) && m.Valid()
    ensures m.numRotors == 5 && m.numPawls == 3 && |m.allRotors| == 5
    ensures m.allRotors[0].name == "B" && m.allRotors[1].name == "Beta" && m.allRotors[2].name == "III"
    ensures m.allRotors[3].name == "IV" && m.allRotors[4].name == "I"
    ensures m.allRotors[0].Reflecting() && m.allRotors[3].Rotates() && m.allRotors[4].Rotates()
    ensures m.rotors[..] == m.allRotors && m.Loaded()
    ensures first == Pass
  {
    m := SampleMachine();
    var c := m.allRotors;
    SampleSlots(c);
    first := m.InsertRotors(FullNames());
    assert m.rotors[0] == c[0] && m.rotors[1] == c[1] && m.rotors[2] == c[2] && m.rotors[3] == c[3] && m.rotors[4] == c[4];
    assert m.rotors[..] == c;
    RotatingFive(m.rotors[..]);
    assert forall i, j :: 0 <= i < j < 5 ==> c[i].name != c[j].name;
  }

  /** `B Beta III IV I` is accepted; then `B Beta III X IV`, whose `X`
      names no rotor, is accepted too, and slots 3 and 4 hold the same
      rotor IV. */
  method UnmatchedNameKeepsRotor() returns (m: Machine, first: Outcome, second: Outcome)
    ensures first == Pass && second == Pass
    ensures !Named(m.allRotors, "X")
    ensures m.rotors.Length == 5 && m.rotors[3] == m.rotors[4] && m.rotors[4] != null && m.rotors[4].name == "IV"
    ensures !m.Loaded()
  {
    m := SampleMachine();
    var c := m.allRotors;
    SampleSlots(c);
    var full, again := FullNames(), AgainNames();
    first := m.InsertRotors(full);
    assert m.rotors[0] == c[0] && m.rotors[1] == c[1] && m.rotors[2] == c[2] && m.rotors[3] == c[3] && m.rotors[4] == c[4];
    assert m.rotors[..] == [c[0], c[1], c[2], c[3], c[4]];
    RotatingFive(m.rotors[..]);
    second := m.InsertRotors(again);
    assert m.rotors[0] == c[0] && m.rotors[1] == c[1] && m.rotors[2] == c[2] && m.rotors[3] == c[3] && m.rotors[4] == c[3];
    assert m.rotors[..] == [c[0], c[1], c[2], c[3], c[3]];
    RotatingFive(m.rotors[..]);
  }

  /** On the machine loaded with `B Beta III IV I`, the checked insertion
      refuses `B Beta III X IV` and leaves every rotor in its own slot. */
  method UnmatchedNameRejected() returns (m: Machine, first: Outcome, second: Outcome)
    ensures first == Pass && second == Fail(ConfigError("Rotors do not match"))
    ensures m.Loaded()
  {
    m, first := LoadedSample();
    var c := m.allRotors;
    SampleSlots(c);
    var again := AgainNames();
    assert !Named(c, again[3]);
    ghost var slots := m.rotors[..];
    second := m.InsertRotorsChecked(again);
    assert m.rotors[..] == slots;
  }
}
