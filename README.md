# Enigma rotor machine: a verified model of the cipher engine

This project models the cipher engine of a Java simulator of an
Enigma-style rotor machine. It covers four parts and proves properties of
the model.

- **Alphabet**: maps symbols to indices and the reverse. Construction
  rejects repeated symbols, but parentheses are exempt.
- **Permutation**: built from cycle notation such as `(BACD)(EF)` into a
  forward map and an inverse map. It looks up by index (with wrap-around)
  and by symbol (failing outside the alphabet), and has a derangement test.
- **Rotor**: a moving rotor with a mutable setting. It advances modulo the
  alphabet size, reports when it is at a notch, and passes a contact
  through its permutation in its rotated frame.
- **Machine**: an array of rotor slots, a catalogue of rotors and a
  plugboard. Inserting rotors and setting their positions are checked.
  `convert` steps the rotors, then sends a contact through the plugboard,
  the rotors right to left, the rotors left to right (reflector excluded)
  and the plugboard again.

How the model is shaped:

- The source's exceptions become `Result`/`Outcome` failure values. A
  configuration error carries the source's message; a symbol outside the
  alphabet fails with `NotInAlphabet`, which carries the offending symbol.
- Alphabets and permutations never change after construction, so they are
  datatypes. Their constructors are methods that run the source's
  validation and map-building loops and are proved against ghost functions
  that follow the same scan.
- Rotors and the machine change in place, so they are classes.
  - The rotor's setting and the machine's slot array and plugboard are
    fields.
  - `Rotor.Set`, `Rotor.SetPosition`, `Machine.InsertRotors`,
    `Machine.SetRotors` and `Machine.SetPlugboard` state their new state
    through these fields (`setting`, `rotors[i]`, `plugboard`).
  - `Rotor.Advance`, `Machine.StepRotors` and the `convert` methods state
    it through a value view: `Rotor.View()` for a rotor and
    `Machine.Wheels()` for the machine's rack.
- Stepping is modelled as written, with slots 2, 3 and 4 hard-coded, so
  the model requires at least five slots. When slots 3 and 4 are both at a
  notch, slot 3 advances twice.
- One rotor object can sit in several slots: `insertRotors` leaves a slot
  whose name matches no catalogue rotor with its old occupant, so a later
  set-up line can repeat a rotor that an earlier one put elsewhere.
  - `Machine.Owners()` names, for each slot, the first slot holding the
    same rotor.
  - The value functions take this sharing as an argument: `Move` advances
    every slot holding the moved rotor, and `WriteOne` sets every slot
    holding the written rotor.
  - With no rotor in two slots (`Loaded`), the owners are the slots
    themselves (`LoadedUnshared`), and the step in order is the step by
    advance counts (`StepInOrderIsStep`).

Main results:

- **Cycle notation.** The maps that construction builds follow
  the cycles. The forward and inverse lookups undo each other, by index and
  by symbol.
- **Rotors.** A rotor's backward pass undoes its forward pass.
- **Stepping.** The step performed one move at a time equals the
  per-slot advance counts (`StepCount`).
- **Involution.** With a plugboard and a reflector made of pairs, the
  machine is its own inverse (`EncipherInvolution`). Typing a transcript
  into a machine set up the same way gives the message back
  (`TranscriptRoundTrip`).

The `Rotor` base class, `FixedRotor`, `Reflector` and `EnigmaException`
are outside this model; the model assumes this contract for them:

- A rotor has a name, a permutation, a kind and a setting in `[0, size)`,
  and `set` changes the setting.
- `advance` does nothing unless the rotor moves.
- `rotates` and `reflecting` are kind flags.
- `convertForward` / `convertBackward` shift the contact by the setting,
  apply `permute` / `invert`, shift back, and reduce modulo the size.

Behaviour worth knowing, and where the code and its documentation
disagree, the model follows the code:

- `derangement` on an empty alphabet answers true, because its loop finds
  no fixed point; no value maps to itself, as documented.
- `toInt` of an absent symbol returns -1 (`indexOf`). `convert(String)`
  passes that on, and `wrap` turns it into the last index.
- The alphabet's duplicate check skips parentheses, although the
  documentation says no symbol may repeat (see Findings).
- The driver refuses a rotor name repeated within one set-up line
  (Main.java:161-167). That does not keep a rotor out of two slots. A name
  that matches no catalogue rotor leaves the slot's previous occupant
  (Machine.java:41-49), and the driver sets the machine up again for every
  set-up line (Main.java:86-91). The model follows such a rotor through
  every slot that holds it (see Findings).

## Model

| member | source | states |
|---|---|---|
| Alphabets.IndexFrom | Alphabet.java:52-55 | the result is -1 or a position at or after the start that holds the symbol |
| Alphabets.IndexFromFirst | Alphabet.java:52-55 | no position between the start and the result holds the symbol (first occurrence, as `indexOf`) |
| Alphabets.Alphabet.ToInt | Alphabet.java:50-55 | for a symbol of the alphabet, an index in range holding it; -1 exactly when the symbol is absent |
| Alphabets.Alphabet.Size | Alphabet.java:35-38 | no contract of its own: the number of symbols, on which `ToInt`'s range and `DefaultAlphabet`'s 26 rest |
| Alphabets.Alphabet.Contains | Alphabet.java:40-43 | no contract of its own: membership of the symbol; `ToInt`'s contract ties it to `toInt` returning -1 exactly for an absent symbol |
| Alphabets.Alphabet.ToChar | Alphabet.java:45-49 | the symbol at an index in `[0, size)` is one the alphabet contains; `ToCharToInt`/`DistinctToIntToChar` relate it to `toInt` |
| Alphabets.NewAlphabet | Alphabet.java:12-27 | construction succeeds iff no symbol other than a parenthesis occurs twice; failure is a configuration error |
| Alphabets.DefaultAlphabet | Alphabet.java:29-32 | the no-argument constructor accepts the 26 upper-case letters, in order |
| Alphabets.ToIntToChar | Alphabet.java:44-55 | in an accepted alphabet, `toInt(toChar(i)) == i` at every index not holding a parenthesis |
| Alphabets.ToIntFirst | Alphabet.java:50-55 | `toInt` gives the first occurrence of the symbol |
| Alphabets.ToCharToInt | Alphabet.java:44-55 | `toChar(toInt(ch)) == ch` for every symbol the alphabet contains, with the index in range |
| Alphabets.DistinctToIntToChar | Alphabet.java:10-11 | with no repeated symbol at all, `toInt(toChar(i)) == i` at every index |
| Alphabets.RepeatedLetterRejected | Alphabet.java:14-26 | the string `ABCC` fails the duplicate check |
| Alphabets.RepeatedParenAccepted | Alphabet.java:14-26 | `((` passes the duplicate check, yet `toInt(toChar(1))` is 0 |
| Alphabets.NewDistinctAlphabet | Alphabet.java:10-27 | construction with every repetition refused succeeds iff no symbol repeats, and then `toInt` undoes `toChar` at every index |
| Modular.TruncRem | Permutation.java:88 | Java's `%` with a positive divisor: magnitude below the divisor, sign of the dividend |
| Modular.TruncRemCorrected | Permutation.java:87-93 | the truncating remainder raised by the size when negative is the Euclidean remainder |
| Permutations.Permutation.Wrap | Permutation.java:86-93 | `wrap` lies in `[0, size)` and leaves an index in range unchanged |
| Permutations.Permutation.Size | Permutation.java:95-99 | no contract of its own: the size of the alphabet permuted; `PermutationExamples.Sizes` checks it is 0 and 4 on the test's alphabets |
| Permutations.Permutation.Permute | Permutation.java:101-115 | the result is in `[0, size)`, or -1 (`toInt` of a successor outside the alphabet), which cannot happen when every map entry is in the alphabet; a symbol in no cycle is fixed (`wrap(p)`), and otherwise the result indexes the symbol's successor |
| Permutations.Permutation.Invert | Permutation.java:117-128 | the result is in `[0, size)`, or -1, which cannot happen when every map entry is in the alphabet; a symbol in no cycle is fixed, and otherwise the result indexes the symbol's predecessor |
| Permutations.Permutation.PermuteChar | Permutation.java:130-138 | succeeds iff the symbol is in the alphabet, with a symbol of the alphabet; otherwise fails naming the symbol |
| Permutations.Permutation.InvertChar | Permutation.java:140-147 | succeeds iff the symbol is in the alphabet, with a symbol of the alphabet; otherwise fails naming the symbol |
| Permutations.Permutation.Derangement | Permutation.java:154-163 | true iff no index in `[0, size)` is a fixed point of `permute` |
| Permutations.NewPermutation | Permutation.java:20-79 | construction succeeds iff the duplicate check passes, and then holds exactly the maps the two scans of the cycle string build |
| Permutations.CheckCycles | Permutation.java:31-44 | true iff no non-parenthesis symbol is repeated later by a symbol that is neither a parenthesis nor a blank |
| Permutations.ScanForward | Permutation.java:45-61 | the forward scan's map: each `)` enters the symbols since the last `(` |
| Permutations.EnterForward | Permutation.java:51-59 | one cycle entered forward: each symbol to the next, the last to the first |
| Permutations.ScanBackward | Permutation.java:62-78 | the inverse scan's map, built the same way |
| Permutations.EnterBackward | Permutation.java:68-76 | one cycle entered backward, last symbol first: each symbol to the previous, the first to the last |
| PermutationLaws.NoOpenInCycle | Permutation.java:46-48 | a cycle never contains a `(`: it starts after the last one |
| PermutationLaws.PutForwardKeys | Permutation.java:52-59 | entering a cycle forward adds exactly its symbols as keys |
| PermutationLaws.PutForwardEntries | Permutation.java:52-59 | after entering a cycle without repeats forward, each symbol maps to its successor |
| PermutationLaws.PutForwardOthers | Permutation.java:52-59 | entering a cycle forward leaves the entries of other symbols alone |
| PermutationLaws.PutBackwardKeys | Permutation.java:69-76 | entering a cycle backward adds exactly its symbols as keys |
| PermutationLaws.PutBackwardEntries | Permutation.java:69-76 | after entering a cycle without repeats backward, each symbol maps to its predecessor |
| PermutationLaws.PutBackwardOthers | Permutation.java:69-76 | entering a cycle backward leaves the entries of other symbols alone |
| PermutationLaws.NewCycleDistinct | Permutation.java:31-44 | a cycle of an accepted, well-formed cycle string has no repeated symbol |
| PermutationLaws.EarlierNotInNew | Permutation.java:31-44 | a symbol of an earlier cycle does not occur in a later cycle |
| PermutationLaws.MemberStep | Permutation.java:45-61 | the symbols in cycles grow only at a `)`, by the cycle it closes |
| PermutationLaws.ForwardNewEntry | Permutation.java:49-59 | the cycle a `)` closes gives each of its symbols its successor |
| PermutationLaws.InverseNewEntry | Permutation.java:66-76 | the cycle a `)` closes gives each of its symbols its predecessor |
| PermutationLaws.OldForwardEntry | Permutation.java:49-59 | a later cycle does not overwrite the forward entry of an earlier cycle's symbol |
| PermutationLaws.OldInverseEntry | Permutation.java:66-76 | a later cycle does not overwrite the inverse entry of an earlier cycle's symbol |
| PermutationLaws.ForwardKeys | Permutation.java:45-61 | the forward map's keys are exactly the symbols in cycles |
| PermutationLaws.InverseKeys | Permutation.java:62-78 | the inverse map's keys are exactly the symbols in cycles |
| PermutationLaws.ForwardCycles | Permutation.java:45-61 | in each cycle `(c0 ... cm)` the forward map sends `cj` to `c(j+1)` and `cm` to `c0` |
| PermutationLaws.InverseCycles | Permutation.java:62-78 | in each cycle the inverse map sends `cj` to `c(j-1)` and `c0` to `cm` |
| PermutationLaws.CycleMaps | Permutation.java:45-78 | both maps of the whole string: successor and predecessor in each cycle, keys exactly the cycle symbols |
| PermutationLaws.CoherentBijective | Permutation.java:101-128 | a coherent permutation's `permute` and `invert` map `[0, size)` into itself and undo each other |
| PermutationLaws.ReciprocalSelfInverse | Permutation.java:101-114 | a coherent permutation made of pairs has `permute(permute(i)) == i` on `[0, size)` |
| PermutationLaws.SuccPred | Permutation.java:52-76 | successor and predecessor positions in a cycle undo each other |
| PermutationLaws.SameKeys | Permutation.java:45-78 | both maps have the same keys, all symbols of the alphabet |
| PermutationLaws.InverseUndoesForward | Permutation.java:45-78 | the inverse map undoes the forward map |
| PermutationLaws.ForwardUndoesInverse | Permutation.java:45-78 | the forward map undoes the inverse map |
| PermutationLaws.KeysAtOneIndex | Permutation.java:105-110 | `toInt` finds a cycle symbol back at the index it was read from |
| PermutationLaws.FromCyclesCoherent | Permutation.java:20-79 | a well-formed, accepted cycle string over a valid alphabet builds a coherent permutation |
| PermutationLaws.WrapIsMod | Permutation.java:86-93 | `wrap(p)` is `p` modulo the size, and `p - wrap(p)` is a multiple of the size |
| PermutationLaws.WrapAdd | Permutation.java:86-93 | wrapping one summand first does not change the wrapped sum |
| PermutationLaws.KeyIndex | Permutation.java:105-110 | a map key is found by `toInt` at the index that holds it |
| PermutationLaws.CoherentMapsIntoAlphabet | Permutation.java:109-111 | a coherent permutation's maps yield symbols of the alphabet |
| PermutationLaws.PermuteInRange | Permutation.java:103-114 | `permute` of a coherent permutation lies in `[0, size)` |
| PermutationLaws.InvertInRange | Permutation.java:118-128 | `invert` of a coherent permutation lies in `[0, size)` |
| PermutationLaws.InvertAfterPermute | Permutation.java:103-128 | `invert(permute(i)) == wrap(i)` |
| PermutationLaws.PermuteAfterInvert | Permutation.java:103-128 | `permute(invert(i)) == wrap(i)` |
| PermutationLaws.IndexLookups | Permutation.java:103-128 | index lookups of a symbol's index give the index of its map entry, or of itself when it has none |
| PermutationLaws.PermuteCharLookup | Permutation.java:130-138 | `permute(char)` gives the map entry, or the symbol itself when it has none |
| PermutationLaws.InvertCharLookup | Permutation.java:140-147 | `invert(char)` gives the map entry, or the symbol itself when it has none |
| PermutationLaws.CharInverseLaws | Permutation.java:130-147 | `invert(permute(x)) == x` and `permute(invert(x)) == x` for symbols of the alphabet |
| PermutationLaws.ReciprocalInvolution | Permutation.java:103-114 | for a permutation made of pairs, `permute(permute(i)) == wrap(i)` |
| PermutationLaws.PermuteAlongCycle | Permutation.java:45-147 | in a cycle, `permute` takes each symbol to the next and the last to the first, `invert` the reverse, by symbol and by index |
| PermutationLaws.FixedOutsideCycles | Permutation.java:109-127 | a symbol in no cycle, including text outside parentheses, is fixed by `permute` and `invert` |
| PermutationLaws.EmptyIsIdentity | Permutation.java:103-128 | the empty cycle string gives the identity modulo the size |
| PermutationLaws.PairsAreReciprocal | Permutation.java:45-61 | cycles of at most two symbols give a forward map that is its own inverse |
| PermutationExamples.FourCycleMaps | Permutation.java:45-78 | `(BACD)` builds B→A, A→C, C→D, D→B and the reverse maps |
| PermutationExamples.FourCyclePermute | PermutationTest.java:103-109 | over `ABCD`, `permute` of 1, 0, 2, 3, 4 gives 0, 2, 3, 1, 2 |
| PermutationExamples.FourCycleInvert | PermutationTest.java:124-130 | over `ABCD`, `invert` of 0, 2, 3, 1, 4 gives 1, 0, 2, 3, 1 |
| PermutationExamples.FourCyclePermuteChar | PermutationTest.java:71-76 | `permute` of `A`, `B`, `C`, `D` gives `C`, `A`, `D`, `B` |
| PermutationExamples.FourCycleInvertChar | PermutationTest.java:47-52 | `invert` of `A`, `B`, `C`, `D` gives `B`, `D`, `A`, `C`, and `invert('F')` fails as not in the alphabet |
| PermutationExamples.FourCycleDerangement | PermutationTest.java:143-145 | `(BACD)` has no fixed point |
| PermutationExamples.SwapAndFixedMaps | Permutation.java:45-78 | `(DA)(T)` builds D↔A and T→T in both maps |
| PermutationExamples.SwapAndFixed | PermutationTest.java:111-114 | over `DAT` the lookups swap 0 and 1 and fix 2, so it is no derangement |
| PermutationExamples.NoCyclesIdentity | PermutationTest.java:150-154 | `K` over `K`, and the empty string over `CAT`, give the identity |
| PermutationExamples.RepeatedCycleSymbolRejected | PermutationTest.java:166-170 | `(ACBC)` fails the duplicate check |
| PermutationExamples.Sizes | PermutationTest.java:94-101 | the size is the alphabet's: 0 for the empty alphabet, 4 for `ABCD` |
| Rotors.Wheel.AtNotch | MovingRotor.java:23-32 | only a moving wheel with at least one notch can be at a notch; `Rotor.AtNotch`'s loop is proved equal to it |
| Rotors.Wheel.Advanced | MovingRotor.java:34-37 | one advance keeps the setting in range and changes neither permutation nor kind; a rotor that does not move stays |
| Rotors.Wheel.AdvancedBy | MovingRotor.java:34-37 | any number of advances keeps the setting in range and the permutation and kind |
| Rotors.Wheel.Forward | Machine.java:109-111 | `convertForward` lands in `[0, size)` |
| Rotors.Wheel.Backward | Machine.java:112-114 | `convertBackward` lands in `[0, size)` |
| Rotors.Rotor.constructor | MovingRotor.java:10-18 | a new rotor has the given name, permutation and kind, and setting 0 |
| Rotors.Rotor.Rotates | MovingRotor.java:19-22 | no contract of its own: true for the moving kind, as `rotates()` returns true for a moving rotor; counted by `Rotating` |
| Rotors.Rotor.Reflecting | Machine.java:50-52 | no contract of its own: true for the reflector kind (assumed base contract), the test `insertRotors` applies to slot 0 |
| Rotors.Rotor.AtNotch | MovingRotor.java:23-32 | true iff the rotor moves and the symbol at its setting is one of its notches |
| Rotors.Rotor.SetPosition | MovingRotor.java:36 | the setting becomes the given position in range |
| Rotors.Rotor.Set | Machine.java:81 | the setting becomes the index of the given symbol |
| Rotors.Rotor.Advance | MovingRotor.java:34-37 | the rotor becomes its advanced value; name, permutation and notches stay |
| Rotors.AdvancedBySetting | MovingRotor.java:35-37 | `k` advances add `k` to a moving rotor's setting modulo the size; other rotors keep theirs |
| Rotors.FullTurn | MovingRotor.java:35-37 | after `size` advances a rotor is back where it started |
| Rotors.ShiftCancel | Machine.java:109-114 | shifting an index in range down by the setting and up again gives it back |
| Rotors.ShiftBack | Machine.java:109-114 | shifting up by the setting and down again wraps the index |
| Rotors.LookupsWrap | Permutation.java:103-128 | `permute` and `invert` depend only on the index modulo the size |
| Rotors.InvertRecovers | Machine.java:109-114 | the inverse lookup in the rotated frame recovers the shifted entering contact |
| Rotors.BackwardAfterForward | Machine.java:109-114 | `convertBackward(convertForward(p)) == wrap(p)` for a bijective permutation |
| Rotors.PermuteRecovers | Machine.java:109-114 | the forward lookup in the rotated frame recovers the shifted contact `convertBackward` left |
| Rotors.ForwardAfterBackward | Machine.java:109-114 | `convertForward(convertBackward(p)) == wrap(p)` |
| Rotors.PermuteRecoversTwice | Machine.java:109-111 | for a self-inverse permutation the forward lookup in the rotated frame is undone by itself |
| Rotors.ForwardTwice | Machine.java:109-111 | a rotor whose permutation undoes itself (a reflector of pairs) undoes its own `convertForward` |
| Machines.StepCount | Machine.java:100-107 | each slot advances at most twice, and only slot 3 twice; the last slot exactly once; slots other than 2, 3 and the last not at all; slot 2 once exactly when slot 3 is at a notch |
| Machines.Step | Machine.java:100-107 | one step, each wheel advanced by its count, keeps every setting in range and no permutation or kind changes |
| Machines.StepN | Machine.java:121-129 | any number of steps in `convert`'s order keeps every setting in range and the alphabet size of every wheel |
| Machines.StepInOrder | Machine.java:100-107 | the moves in `convert`'s order, shared slots moving together, keep the rack's length, settings in range and wheel sizes |
| Machines.CarryThree | Machine.java:100-103 | the first move of a step keeps the rack's length, settings in range and wheel sizes |
| Machines.CarryFour | Machine.java:104-106 | the second move of a step keeps the rack's length, settings in range and wheel sizes |
| Machines.Move | Machine.java:107 | advancing the rotor in slot `k` shows it advanced in every slot holding that rotor, and changes no other slot |
| Machines.StepInOrderIsStep | Machine.java:100-107 | with no rotor in two slots, the moves done in order (slot 4's notch read after slots 2 and 3 moved) give the step that counts advances from the notches before anything moves |
| Machines.ForwardPass | Machine.java:109-111 | the right-to-left pass ends in range of the reflector |
| Machines.BackwardPass | Machine.java:112-114 | the left-to-right pass ends in range of the last wheel |
| Machines.ForwardPassFrom | Machine.java:109-111 | the pass from slot `i` on is wheel `i` after the pass from `i + 1` on |
| Machines.BackwardPassFrom | Machine.java:112-114 | the pass from slot `j` on is the pass from `j + 1` on after wheel `j` |
| Machines.Encipher | Machine.java:108-116 | the converted contact lies in `[0, size)` of the plugboard, or is -1, which cannot happen when the plugboard's map entries are all in its alphabet |
| Machines.EncipherInRange | Machine.java:108-116 | with a bijective plugboard and one alphabet size, the converted contact is in range |
| Machines.Symbol | Machine.java:124-126 | the symbol a stepped rack turns a symbol into is one the alphabet contains |
| Machines.Transcript | Machine.java:121-129 | a message converts to a string of the same length, the rack stepping before each symbol |
| Machines.StepNSucc | Machine.java:121-129 | `k + 1` steps are one step after `k` steps |
| Machines.TranscriptAt | Machine.java:121-129 | symbol `i` of the output is symbol `i` of the message converted after `i + 1` steps |
| Machines.TextStep | Machine.java:123-126 | one pass of the loop: one more step gives the rack after `i + 1` steps, and the output with the converted symbol appended is the first `i + 1` symbols of the transcript |
| Machines.SignalPath | Machine.java:108-116 | the plugboard, the two rotor loops and the plugboard compute the signal path `Encipher` |
| Machines.RightToLeft | Machine.java:109-111 | the loop from the last slot down to slot 0 computes the right-to-left pass |
| Machines.LeftToRight | Machine.java:112-114 | the loop from slot 1 up to the last slot computes the left-to-right pass without the reflector |
| Machines.LastNamed | Machine.java:41-49 | the slot keeps its occupant or receives a catalogue rotor with the name; `LastNamedSpec` adds which of the two, and that the last match wins |
| Machines.LastNamedSpec | Machine.java:41-49 | with no match the slot keeps its rotor; otherwise it gets a rotor with the name after which no catalogue rotor has it |
| Machines.LastNamedNone | Machine.java:41-49 | a name no catalogue rotor has leaves the slot's old occupant |
| Machines.LastNamedAt | Machine.java:41-49 | a name some catalogue rotor has fills the slot with the catalogue rotor at some index `w` that has the name, and no rotor after `w` has it |
| Machines.Rotating | Machine.java:59-64 | the count of rotating rotors is at most the number of slots |
| Machines.RotatingCounts | Machine.java:59-64 | the count is exactly the number of occupied slots whose rotor rotates |
| Machines.FirstOutside | Machine.java:77-80 | the index of the first setting symbol outside the alphabet: all before it are inside, the one at it is not |
| Machines.Targets | Machine.java:77-81 | the position slot `k` is set to is the index of setting symbol `k - 1` |
| Machines.Reached | Machine.java:74-82 | a setting of the wrong length writes no slot; otherwise writing stops at the first symbol outside the alphabet, with every symbol before it inside |
| Machines.ReachedAll | Machine.java:74-87 | with a setting of the right length, every slot is written exactly when every setting symbol is in the alphabet |
| Machines.Written | Machine.java:77-82 | no contract beyond the length: the settings after slots `1 .. n - 1` have been written in order; `WrittenSpec` states what each slot shows |
| Machines.WriteOne | Machine.java:81 | writing a position through a slot shows it in every slot holding that slot's rotor; the others keep theirs |
| Machines.WrittenSpec | Machine.java:77-82 | after the writes, a slot shows the target of the last written slot sharing its rotor, or its old setting when no written slot shares it |
| Machines.WrittenUnshared | Machine.java:77-82 | with every rotor in one slot, slots `1 .. n - 1` show their targets and the others keep their settings |
| Machines.OwnersOf | Machine.java:46 | one owner per slot |
| Machines.OwnersOfSpec | Machine.java:46 | each slot's owner is a slot at or before it holding the same rotor, and two slots have one owner exactly when they hold one rotor |
| Machines.Machine.Owners | Machine.java:46 | one owner per slot of the machine |
| Machines.Machine.OwnersSpec | Machine.java:46 | two slots of the machine have one owner exactly when they hold the same rotor object, and an owner holds the slot's rotor |
| Machines.Machine.RackShares | Machine.java:46 | slots holding one rotor show one wheel |
| Machines.Machine.LoadedUnshared | Machine.java:46 | with no rotor in two slots, every slot is its own owner |
| Machines.Machine.Positions | Machine.java:81 | the setting of the rotor in each slot |
| Machines.Machine.constructor | Machine.java:17-25 | a new machine has the given alphabet, counts and catalogue, fresh empty slots and no plugboard |
| Machines.Machine.InsertRotors | Machine.java:40-68 | slot `i` gets the last catalogue rotor named `names[i]`, or keeps its rotor when none matches; success iff slot 0 reflects, no slot is empty, one name per slot and as many rotating rotors as pawls; a non-reflecting slot 0 fails with its own message |
| Machines.Machine.HasRotor | Machine.java:42-47 | true iff some catalogue rotor has the name |
| Machines.Machine.InsertRotorsChecked | Machine.java:40-68 | a name that matches no catalogue rotor fails with "Rotors do not match" and leaves every slot; otherwise as `InsertRotors`; on success each slot holds a rotor with its name, and distinct names leave no rotor in two slots |
| Machines.Machine.SetRotors | Machine.java:73-88 | success iff the setting has `numRotors - 1` symbols all in the alphabet; the settings become the writes of slots `1 .. Reached - 1` in order, each through its slot's rotor, so a rotor in several slots ends at the last symbol written to it |
| Machines.Machine.WriteSlot | Machine.java:81 | `set` on the rotor in slot `k`: every slot holding that rotor shows the new setting, no other slot changes, and the sharing stays |
| Machines.Machine.SetPlugboard | Machine.java:92-94 | the plugboard becomes the given permutation; nothing else is modified |
| Machines.Machine.StepRotors | Machine.java:100-107 | the rack becomes the moves of a step done in order; the sharing and the plugboard stay |
| Machines.Machine.StepFromThree | Machine.java:100-103 | slots 2 and 3 advance when slot 3 is at a notch; the sharing and the plugboard stay |
| Machines.Machine.StepFromFour | Machine.java:104-106 | slot 3 advances when slot 4 is at a notch; the sharing and the plugboard stay |
| Machines.Machine.AdvanceSlot | Machine.java:107 | only the rotor in the given slot advances, shown in every slot that holds it |
| Machines.Machine.Transit | Machine.java:108-116 | the rack is unchanged and the result is the signal path through it |
| Machines.Machine.Convert | Machine.java:99-117 | the rack takes one step in `convert`'s order, which is the `StepCount` step when no rotor is in two slots, then the result is the signal path through the stepped rack |
| Machines.Machine.ConvertSymbol | Machine.java:124-126 | one symbol: the rack takes one step and the symbol's index, converted on the stepped rack, is turned back into a symbol |
| Machines.Machine.ConvertText | Machine.java:121-129 | the output is the transcript of the message and the rack has taken one step per symbol |
| MachineLaws.LastSlotAdvances | Machine.java:107 | the last slot advances once on every step |
| MachineLaws.NotchThreeDoubleSteps | Machine.java:100-106 | slot 3 at a notch advances slots 2 and 3, slot 3 twice when slot 4 is at a notch too |
| MachineLaws.NotchFourCarries | Machine.java:100-106 | slot 4 alone at a notch advances slot 3 once and leaves slot 2 |
| MachineLaws.OtherSlotsStay | Machine.java:100-107 | slots other than 2, 3 and the last never move on a step |
| MachineLaws.NoNotchOnlyLast | Machine.java:100-107 | with neither slot 3 nor slot 4 at a notch only the last slot moves |
| MachineLaws.StepSettings | Machine.java:100-107 | each moving wheel's setting goes up by its advance count modulo the size; other wheels keep theirs |
| MachineLaws.BackwardUndoesForward | Machine.java:109-114 | over bijective wheels the left-to-right pass undoes the right-to-left pass |
| MachineLaws.ForwardUndoesBackward | Machine.java:109-114 | the right-to-left pass undoes the left-to-right pass |
| MachineLaws.ReflectorTurnsBack | Machine.java:109-114 | through a self-inverse reflector and back, the rotors return the contact to where it entered the reflector |
| MachineLaws.PlugTwice | Machine.java:108-115 | a self-inverse plugboard maps into range and twice gives the contact back modulo the size |
| MachineLaws.EncipherInvolution | Machine.java:108-116 | with a plugboard and reflector that undo themselves, converting twice on the same rack gives the contact back |
| MachineLaws.PairsMakeReciprocal | Permutation.java:20-79 | a plugboard and a reflector built from accepted, well-formed cycle strings of pairs, with bijective rotors between them, meet the involution's precondition `Reciprocal` |
| MachineLaws.MoveShares | Machine.java:101-107 | advancing a rotor keeps slots that share a rotor showing one wheel, and changes no slot's permutation or kind |
| MachineLaws.StepShares | Machine.java:100-107 | a step in `convert`'s order keeps the sharing and every permutation and kind |
| MachineLaws.StepKeepsReciprocal | Machine.java:100-107 | stepping keeps a machine reciprocal and its sharing: no permutation changes |
| MachineLaws.SymbolTwice | Machine.java:124-126 | over an alphabet without repeats, a symbol converted twice on the same rack comes back |
| MachineLaws.TranscriptCons | Machine.java:121-129 | the output for a symbol followed by text: the symbol converted after one step, then the rest from the stepped rack |
| MachineLaws.RoundTripHead | Machine.java:121-129 | on one stepped rack, the symbol heading the transcript converts back to the message's first symbol, and the rest follows from the round trip for the rest |
| MachineLaws.RoundTripStep | Machine.java:121-129 | the round trip for the rest of a message gives it for the whole message |
| MachineLaws.TranscriptRoundTrip | Machine.java:121-129 | a reciprocal machine given its own output, from the same starting rack and with the same sharing of slots, gives back the message |
| MachineExamples.SampleMachine | Machine.java:17-25 | a machine of five slots and three pawls over `AB` with the catalogue B, Beta, III, IV, I, every slot empty |
| MachineExamples.LastNamedOnly | Machine.java:41-49 | a name held by exactly one catalogue rotor fills the slot with that rotor |
| MachineExamples.RotatingFive | Machine.java:59-64 | the count over five filled slots is the sum of their rotating flags |
| MachineExamples.SampleSlots | Machine.java:41-49 | in the sample catalogue each name fills a slot with its own rotor, and `X` leaves the occupant |
| MachineExamples.LoadedSample | Machine.java:40-68 | `B Beta III IV I` is accepted and puts each catalogue rotor in its own slot, no rotor in two slots |
| MachineExamples.UnmatchedNameKeepsRotor | Machine.java:40-68 | after `B Beta III IV I`, the names `B Beta III X IV` are accepted although `X` names no rotor, and slots 3 and 4 then hold the one rotor IV |
| MachineExamples.UnmatchedNameRejected | Machine.java:56 | the checked insertion refuses `B Beta III X IV` on the loaded machine with "Rotors do not match" and keeps every rotor in its own slot |

## Left out

- Main.java is not part of this model: command-line handling, reading the configuration and the input, printing, output grouping and exit codes are input and output glue.
- The `Rotor` base class, `FixedRotor`, `Reflector` and `EnigmaException` are not part of this model. The assumed contract above stands in for them, with one rotor class distinguished by a kind.
- The JUnit harness of PermutationTest.java: its assertions appear as the example lemmas only.
- Java `HashMap` internals: the maps are Dafny maps.
- The discarded `cycles.replaceAll(...)` has no effect and is not modelled. The laws of cycle notation assume well-formed, non-nested cycles whose symbols are in the alphabet (`Segmented`, `Within`), which construction does not check.
- Permutations.Permutation.Wrap, Permute, Invert: require a non-empty alphabet, because the source's `%` by zero throws.
- Alphabets.ToIntToChar: states `toInt(toChar(i)) == i` only at indices not holding a parenthesis, because a repeated parenthesis is accepted by construction (see Findings).
- Machines.Machine.InsertRotors: requires at most `numRotors` names, because the command-line driver (Main.java:157-168) always passes exactly `numRotors` names. With more names the source differs by case: an extra name that matches a catalogue rotor writes past the slot array, and one that matches nothing ends in "Wrong number of Rotors" (Machine.java:65-66). A null slot 0 fails with "Rotors do not match" in place of the source's null dereference.
- Machines.Machine.Convert: requires at least five slots and a plugboard that has been set. Stepping reads slots 3 and 4 and the last slot, and the signal path dereferences the plugboard.
- Rotors.Rotor.constructor: requires a permutation of a non-empty alphabet, where MovingRotor.java:15-18 accepts any permutation. A rotor over an empty alphabet has no setting in `[0, size)`, and every rotor the model handles keeps its setting there.
- Machines.Machine.ConvertSymbol, ConvertText: require a bijective plugboard over the machine's alphabet, so that the converted index is in range for `toChar`.
- Machines.Machine.constructor: requires a non-empty alphabet and catalogue rotors over the machine's alphabet.
- `Reflector.set` refusing to move a reflector is not modelled; every rotor accepts `set`.
- Permutations.Permutation.PermuteChar, InvertChar: require `MapsIntoAlphabet()`, that every cycle symbol is in the alphabet. A cycle symbol outside the alphabet makes `toInt` return -1 and the source's `toChar(-1)` throw; the model does not reproduce that failure. The index lookups `Permute` and `Invert` have no such requirement and return -1 there, as the source does.
- `numRotors()` and `numPawls()` are plain field reads (constant fields of the class).
- Stepping is not generalised beyond the hard-coded slots 2, 3 and 4.

## Findings

| source | as written | input that shows it | evidently intended | confidence | as-written member | corrected member |
|---|---|---|---|---|---|---|
| Alphabet.java:10-27 | the duplicate check skips every parenthesis, so a repeated `(` or `)` is accepted | the alphabet `((`: accepted, and `toInt(toChar(1))` is 0, not 1 | "no character may be duplicated", with `toInt` the inverse of `toChar` | medium, not executed | Alphabets.RepeatedParenAccepted | Alphabets.NewDistinctAlphabet |
| Machine.java:40-58 | a name that matches no catalogue rotor leaves the slot's previous rotor, so the emptiness check ("Rotors do not match") passes once the slots were filled by an earlier call | on a five-slot machine, `B Beta III IV I` then `B Beta III X IV`: both accepted, and slots 3 and 4 hold the one rotor IV | a name matching no rotor is refused with "Rotors do not match" | medium, not executed | MachineExamples.UnmatchedNameKeepsRotor | Machines.Machine.InsertRotorsChecked |
