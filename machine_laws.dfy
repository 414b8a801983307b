/** Laws of the machine model: which wheels a step moves, and the
    reciprocity of the signal path. */
module MachineLaws {
  import opened Alphabets
  import opened Permutations
  import opened PermutationLaws
  import opened Rotors
  import opened Machines

  // ---------------------------------------------------------------------------
  // Which wheels one step moves.

  /** The last slot advances once on every step. */
  lemma LastSlotAdvances(ws: seq<Wheel>)
    requires 5 <= |ws| && AllValid(ws)
    ensures Step(ws)[|ws| - 1] == ws[|ws| - 1].Advanced()
  {
    var w := ws[|ws| - 1];
    assert w.AdvancedBy(1) == w.Advanced().AdvancedBy(0);
  }

  /** When slot 3 is at a notch, slots 2 and 3 both advance; slot 3 advances
      a second time when slot 4 is at a notch too. */
  lemma NotchThreeDoubleSteps(ws: seq<Wheel>)
    requires 5 <= |ws| && AllValid(ws) && ws[3].AtNotch()
    ensures Step(ws)[2] == ws[2].Advanced()
    ensures Step(ws)[3] == if ws[4].AtNotch() then ws[3].Advanced().Advanced() else ws[3].Advanced()
  {
    assert ws[2].AdvancedBy(1) == ws[2].Advanced().AdvancedBy(0);
    assert ws[3].AdvancedBy(1) == ws[3].Advanced().AdvancedBy(0);
    assert ws[3].AdvancedBy(2) == ws[3].Advanced().Advanced().AdvancedBy(0);
  }

  /** When only slot 4 is at a notch, slot 3 advances once and slot 2 stays. */
  lemma NotchFourCarries(ws: seq<Wheel>)
    requires 5 <= |ws| && AllValid(ws) && ws[4].AtNotch() && !ws[3].AtNotch()
    ensures Step(ws)[3] == ws[3].Advanced()
    ensures Step(ws)[2] == ws[2]
  {
    assert ws[3].AdvancedBy(1) == ws[3].Advanced().AdvancedBy(0);
  }

  /** Slots 0, 1 and those between slot 4 and the last never move on a step
      (slot 4 itself only when it is the last). */
  lemma OtherSlotsStay(ws: seq<Wheel>)
    requires 5 <= |ws| && AllValid(ws)
    ensures forall k :: 0 <= k < |ws| - 1 && k != 2 && k != 3 ==> Step(ws)[k] == ws[k]
  {
  }

  /** With neither slot 3 nor slot 4 at a notch, only the last slot moves. */
  lemma NoNotchOnlyLast(ws: seq<Wheel>)
    requires 5 <= |ws| && AllValid(ws) && !ws[3].AtNotch() && !ws[4].AtNotch()
    ensures forall k :: 0 <= k < |ws| - 1 ==> Step(ws)[k] == ws[k]
    ensures Step(ws)[|ws| - 1] == ws[|ws| - 1].Advanced()
  {
    LastSlotAdvances(ws);
  }

  /** On a step the setting of each moving wheel goes up by its advance
      count modulo the size, and every other wheel keeps its setting. */
  lemma StepSettings(ws: seq<Wheel>, k: int)
    requires 5 <= |ws| && AllValid(ws) && 0 <= k < |ws|
    ensures Step(ws)[k].setting ==
      if ws[k].kind.Moving? then (ws[k].setting + StepCount(ws, k)) % ws[k].perm.Size() else ws[k].setting
  {
    AdvancedBySetting(ws[k], StepCount(ws, k));
  }

  // ---------------------------------------------------------------------------
  // The signal path undone.

  /** Every wheel of the rack permutes its contacts bijectively. */
  predicate AllBijective(ws: seq<Wheel>) {
    forall i :: 0 <= i < |ws| ==> ws[i].perm.Bijective()
  }

  /** The left-to-right pass undoes the right-to-left pass. */
  lemma {:induction false} BackwardUndoesForward(ws: seq<Wheel>, n: int, p: int)
    requires Sized(ws, n) && AllBijective(ws) && 0 <= p < n
    ensures BackwardPass(ws, ForwardPass(ws, p)) == p
    decreases |ws|
  {
    if |ws| > 0 {
      var t := ws[1..];
      assert forall i :: 0 <= i < |t| ==> t[i] == ws[i + 1];
      var y := ForwardPass(t, p);
      BackwardAfterForward(ws[0], y);
      BackwardUndoesForward(t, n, p);
    }
  }

  /** The right-to-left pass undoes the left-to-right pass. */
  lemma {:induction false} ForwardUndoesBackward(ws: seq<Wheel>, n: int, p: int)
    requires Sized(ws, n) && AllBijective(ws) && 0 <= p < n
    ensures ForwardPass(ws, BackwardPass(ws, p)) == p
    decreases |ws|
  {
    if |ws| > 0 {
      var t := ws[1..];
      assert forall i :: 0 <= i < |t| ==> t[i] == ws[i + 1];
      var q := ws[0].Backward(p);
      ForwardUndoesBackward(t, n, q);
      ForwardAfterBackward(ws[0], p);
    }
  }

  /** What makes the machine reciprocal: a plugboard and a reflector that
      undo themselves, and bijective wheels over one alphabet. Cycle strings
      made of pairs give such permutations (PairsMakeReciprocal). */
  predicate Reciprocal(plug: Permutation, ws: seq<Wheel>) {
    plug.Bijective() && plug.SelfInverse() && 2 <= |ws| && Sized(ws, plug.Size()) &&
    AllBijective(ws) && ws[0].perm.SelfInverse()
  }

  /** The reflector in the middle: the pass back from the reflector's exit,
      fed through the rotors right to left and the reflector again, returns
      to where the reflector was entered. */
  lemma ReflectorTurnsBack(plug: Permutation, ws: seq<Wheel>, y: int)
    requires Reciprocal(plug, ws) && 0 <= y < plug.Size()
    ensures ForwardPass(ws, BackwardPass(ws[1..], ws[0].Forward(y))) == y
  {
    var t := ws[1..];
    assert forall i :: 0 <= i < |t| ==> t[i] == ws[i + 1];
    var z := ws[0].Forward(y);
    ForwardUndoesBackward(t, plug.Size(), z);
    ForwardTwice(ws[0], y);
  }

  /** A plugboard that undoes itself maps every contact into range, and
      twice gives the contact back modulo the size. */
  lemma PlugTwice(plug: Permutation, c: int)
    requires plug.Bijective() && plug.SelfInverse()
    ensures 0 <= plug.Permute(c) < plug.Size()
    ensures plug.Permute(plug.Permute(c)) == plug.Wrap(c)
  {
    LookupsWrap(plug, c, plug.Wrap(c));
  }

  /** Enciphering twice on the same rack gives the contact back: the
      machine is its own inverse. */
  lemma EncipherInvolution(plug: Permutation, ws: seq<Wheel>, c: int)
    requires Reciprocal(plug, ws)
    ensures Encipher(plug, ws, Encipher(plug, ws, c)) == plug.Wrap(c)
  {
    var n := plug.Size();
    var t := ws[1..];
    PlugTwice(plug, c);
    var x := plug.Permute(c);
    var y := ForwardPass(t, x);
    var e := BackwardPass(t, ws[0].Forward(y));
    assert Encipher(plug, ws, c) == plug.Permute(e) by {
      assert ForwardPass(ws, x) == ws[0].Forward(y);
    }
    assert Sized(t, n) && AllBijective(t) by {
      assert forall i :: 0 <= i < |t| ==> t[i] == ws[i + 1];
    }
    // The plugboard undoes itself at the inner contact `e`.
    PlugTwice(plug, e);
    // Through the rotors, the reflector and the rotors again back to `y`.
    ReflectorTurnsBack(plug, ws, y);
    // Back through the rotors to `x`.
    BackwardUndoesForward(t, n, x);
  }

  /** A cycle string that construction accepts, that is well formed over
      `alphabet`, and whose cycles have at most two symbols. */
  ghost predicate PairCycles(s: string, alphabet: Alphabet) {
    CyclesDistinct(s) && Segmented(s) && Within(s, alphabet) &&
    forall k :: 0 <= k < |s| && s[k] == ')' ==> k - GroupStart(s, k) <= 2
  }

  /** A plugboard and a reflector built from cycle strings of pairs over one
      alphabet, with bijective rotors between them, make the machine
      reciprocal. */
  lemma PairsMakeReciprocal(alphabet: Alphabet, plugCycles: string, reflCycles: string, ws: seq<Wheel>)
    requires alphabet.Valid() && alphabet.Size() > 0
    requires PairCycles(plugCycles, alphabet) && PairCycles(reflCycles, alphabet)
    requires 2 <= |ws| && Sized(ws, alphabet.Size()) && AllBijective(ws[1..])
    requires ws[0].perm == FromCycles(reflCycles, alphabet)
    ensures Reciprocal(FromCycles(plugCycles, alphabet), ws)
  {
    var plug := FromCycles(plugCycles, alphabet);
    var refl := FromCycles(reflCycles, alphabet);
    FromCyclesCoherent(plugCycles, alphabet);
    FromCyclesCoherent(reflCycles, alphabet);
    PairsAreReciprocal(plugCycles, alphabet);
    PairsAreReciprocal(reflCycles, alphabet);
    CoherentBijective(plug);
    CoherentBijective(refl);
    ReciprocalSelfInverse(plug);
    ReciprocalSelfInverse(refl);
    assert forall i :: 1 <= i < |ws| ==> ws[i].perm.Bijective() by {
      forall i | 1 <= i < |ws| ensures ws[i].perm.Bijective() {
        assert ws[1..][i - 1] == ws[i];
      }
    }
  }

  /** Advancing a rotor keeps which slots share a rotor, and every slot
      keeps its permutation and kind: a slot that shows the moved rotor
      showed it before. */
  lemma MoveShares(ws: seq<Wheel>, own: seq<int>, k: int)
    requires 0 <= k < |ws| && AllValid(ws) && Shares(ws, own)
    ensures Shares(Move(ws, own, k), own)
    ensures forall i :: 0 <= i < |ws| ==> Move(ws, own, k)[i].perm == ws[i].perm && Move(ws, own, k)[i].kind == ws[i].kind
  {
  }

  /** A step in `convert`'s order keeps the sharing, every permutation
      and every kind. */
  lemma StepShares(ws: seq<Wheel>, own: seq<int>)
    requires 5 <= |ws| && AllValid(ws) && Shares(ws, own)
    ensures Shares(StepInOrder(ws, own), own)
    ensures forall i :: 0 <= i < |ws| ==> StepInOrder(ws, own)[i].perm == ws[i].perm && StepInOrder(ws, own)[i].kind == ws[i].kind
  {
    var c3 := CarryThree(ws, own);
    if ws[3].AtNotch() {
      MoveShares(ws, own, 2);
      MoveShares(Move(ws, own, 2), own, 3);
    }
    var c4 := CarryFour(c3, own);
    if c3[4].AtNotch() {
      MoveShares(c3, own, 3);
    }
    MoveShares(c4, own, |ws| - 1);
  }

  /** A step changes no slot's permutation, so it keeps the machine reciprocal. */
  lemma StepKeepsReciprocal(plug: Permutation, ws: seq<Wheel>, own: seq<int>)
    requires 5 <= |ws| && AllValid(ws) && Shares(ws, own) && Reciprocal(plug, ws)
    ensures Shares(StepInOrder(ws, own), own) && Reciprocal(plug, StepInOrder(ws, own))
  {
    StepShares(ws, own);
  }

  /** One symbol of an alphabet without repeated symbols, typed twice on
      the same reciprocal rack, comes back. */
  lemma SymbolTwice(alphabet: Alphabet, plug: Permutation, ws: seq<Wheel>, ch: char)
    requires Distinct(alphabet.chars) && plug.Size() == alphabet.Size() && alphabet.Contains(ch)
    requires Reciprocal(plug, ws)
    ensures Symbol(alphabet, plug, ws, Symbol(alphabet, plug, ws, ch)) == ch
  {
    var c := alphabet.ToInt(ch);
    EncipherInRange(plug, ws, c);
    var e := Encipher(plug, ws, c);
    DistinctToIntToChar(alphabet, e);
    EncipherInvolution(plug, ws, c);
  }

  /** A non-empty string is its first symbol followed by the rest. */
  lemma HeadTail(msg: string)
    requires |msg| > 0
    ensures [msg[0]] + msg[1..] == msg
  {
  }

  /** The transcript of a non-empty text: the first symbol on the stepped
      rack, then the rest from there. */
  lemma TranscriptCons(alphabet: Alphabet, plug: Permutation, ws: seq<Wheel>, own: seq<int>, msg: string)
    requires plug.Bijective() && plug.Size() == alphabet.Size()
    requires 5 <= |ws| && AllValid(ws) && |own| == |ws| && Sized(ws, plug.Size()) && 0 < |msg|
    ensures Transcript(alphabet, plug, ws, own, msg) ==
      [Symbol(alphabet, plug, StepInOrder(ws, own), msg[0])] + Transcript(alphabet, plug, StepInOrder(ws, own), own, msg[1..])
  {
  }

  /** The round trip on one stepped rack: the symbol heading a transcript
      turns back into the message's first symbol, and the rest of the
      transcript, given the round trip for the rest, into the rest. */
  lemma RoundTripHead(alphabet: Alphabet, plug: Permutation, s: seq<Wheel>, own: seq<int>, msg: string, t: string)
    requires Distinct(alphabet.chars) && plug.Size() == alphabet.Size()
    requires 5 <= |s| && AllValid(s) && |own| == |s| && Reciprocal(plug, s)
    requires 0 < |msg| && alphabet.Contains(msg[0])
    requires Transcript(alphabet, plug, s, own, Transcript(alphabet, plug, s, own, msg[1..])) == msg[1..]
    requires t == [Symbol(alphabet, plug, s, msg[0])] + Transcript(alphabet, plug, s, own, msg[1..])
    ensures [Symbol(alphabet, plug, s, t[0])] + Transcript(alphabet, plug, s, own, t[1..]) == msg
  {
    SymbolTwice(alphabet, plug, s, msg[0]);
    assert t[1..] == Transcript(alphabet, plug, s, own, msg[1..]);
    HeadTail(msg);
  }

  /** The step of the round trip: given it for the rest of the message on
      the stepped rack, it holds for the whole message. */
  lemma RoundTripStep(alphabet: Alphabet, plug: Permutation, ws: seq<Wheel>, own: seq<int>, msg: string)
    requires Distinct(alphabet.chars) && plug.Size() == alphabet.Size()
    requires 5 <= |ws| && AllValid(ws) && |own| == |ws|
    requires Reciprocal(plug, ws) && Reciprocal(plug, StepInOrder(ws, own))
    requires 0 < |msg| && alphabet.Contains(msg[0])
    requires Transcript(alphabet, plug, StepInOrder(ws, own), own,
      Transcript(alphabet, plug, StepInOrder(ws, own), own, msg[1..])) == msg[1..]
    ensures Transcript(alphabet, plug, ws, own, Transcript(alphabet, plug, ws, own, msg)) == msg
  {
    var t := Transcript(alphabet, plug, ws, own, msg);
    TranscriptCons(alphabet, plug, ws, own, msg);
    TranscriptCons(alphabet, plug, ws, own, t);
    RoundTripHead(alphabet, plug, StepInOrder(ws, own), own, msg, t);
  }

  /** Typing the transcript of a message into a machine set up the same way
      gives the message back, for a message over an alphabet without
      repeated symbols. */
  lemma {:induction false} TranscriptRoundTrip(alphabet: Alphabet, plug: Permutation, ws: seq<Wheel>, own: seq<int>, msg: string)
    requires Distinct(alphabet.chars) && plug.Size() == alphabet.Size()
    requires 5 <= |ws| && AllValid(ws) && Shares(ws, own) && Reciprocal(plug, ws)
    requires forall k :: 0 <= k < |msg| ==> alphabet.Contains(msg[k])
    ensures Transcript(alphabet, plug, ws, own, Transcript(alphabet, plug, ws, own, msg)) == msg
    decreases |msg|
  {
    if |msg| > 0 {
      StepKeepsReciprocal(plug, ws, own);
      TranscriptRoundTrip(alphabet, plug, StepInOrder(ws, own), own, msg[1..]);
      RoundTripStep(alphabet, plug, ws, own, msg);
    }
  }
}
