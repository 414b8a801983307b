/** The machine: rotor slots, a plugboard, the stepping of the rotors and
    the path of a signal through them (Machine.java). */
module Machines {
  import opened Errors
  import opened Alphabets
  import opened Permutations
  import opened Rotors

  /** A plugboard that may not have been set yet. */
  datatype Option<T> = None | Some(value: T)

  // ---------------------------------------------------------------------------
  // The machine as values: a rack of wheels, slot 0 the reflector.

  /** Every wheel of the rack has a setting in range. */
  predicate AllValid(ws: seq<Wheel>) {
    forall i :: 0 <= i < |ws| ==> ws[i].Valid()
  }

  /** Every wheel of the rack permutes an alphabet of size `n > 0`. */
  predicate Sized(ws: seq<Wheel>, n: int) {
    0 < n && forall i :: 0 <= i < |ws| ==> ws[i].perm.Size() == n
  }

  /** How many times slot `k` advances in one step of `convert`: slots 2
      and 3 once each when slot 3 is at a notch, slot 3 once more when slot 4
      is at a notch, and the last slot once. Both notches are read before
      anything moves. */
  function StepCount(ws: seq<Wheel>, k: int): (r: nat)
    requires 5 <= |ws| && AllValid(ws)
    ensures r <= 2 && (r == 2 ==> k == 3)
    ensures k == |ws| - 1 ==> r == 1
    ensures k != 2 && k != 3 && k != |ws| - 1 ==> r == 0
    ensures k == 2 ==> (r == 1 <==> ws[3].AtNotch())
  {
    (if k == 2 && ws[3].AtNotch() then 1 else 0) +
    (if k == 3 && ws[3].AtNotch() then 1 else 0) +
    (if k == 3 && ws[4].AtNotch() then 1 else 0) +
    (if k == |ws| - 1 then 1 else 0)
  }

  /** The rack after one step: each wheel advanced as often as StepCount says. */
  function Step(ws: seq<Wheel>): (r: seq<Wheel>)
    requires 5 <= |ws| && AllValid(ws)
    ensures |r| == |ws| && AllValid(r)
    ensures forall i :: 0 <= i < |ws| ==> r[i].perm == ws[i].perm && r[i].kind == ws[i].kind
  {
    seq(|ws|, k requires 0 <= k < |ws| => ws[k].AdvancedBy(StepCount(ws, k)))
  }

  /** Which slots hold the same rotor: slots `i` and `j` hold one rotor
      when `own[i] == own[j]`, and then they show the same wheel. */
  predicate Shares(ws: seq<Wheel>, own: seq<int>) {
    |own| == |ws| &&
    forall i, j :: 0 <= i < |ws| && 0 <= j < |ws| && own[i] == own[j] ==> ws[i] == ws[j]
  }

  /** The sharing of a rack where every slot holds its own rotor. */
  function Unshared(n: nat): (own: seq<int>)
    ensures |own| == n && forall i :: 0 <= i < n ==> own[i] == i
  {
    seq(n, i => i)
  }

  /** The rack after `k` steps in the order `convert` performs them. */
  function StepN(ws: seq<Wheel>, own: seq<int>, k: nat): (r: seq<Wheel>)
    requires 5 <= |ws| && AllValid(ws) && |own| == |ws|
    ensures |r| == |ws| && AllValid(r)
    ensures forall n :: Sized(ws, n) ==> Sized(r, n)
    decreases k
  {
    if k == 0 then ws else StepN(StepInOrder(ws, own), own, k - 1)
  }

  /** One step in the order `convert` performs it: slots 2 and 3 when slot 3
      is at a notch, then slot 3 when slot 4 is at a notch (read after the
      first moves), then the last slot. */
  function StepInOrder(ws: seq<Wheel>, own: seq<int>): (r: seq<Wheel>)
    requires 5 <= |ws| && AllValid(ws) && |own| == |ws|
    ensures |r| == |ws| && AllValid(r)
    ensures forall n :: Sized(ws, n) ==> Sized(r, n)
  {
    Move(CarryFour(CarryThree(ws, own), own), own, |ws| - 1)
  }

  /** Slots 2 and 3 advanced when slot 3 is at a notch. */
  function CarryThree(ws: seq<Wheel>, own: seq<int>): (r: seq<Wheel>)
    requires 5 <= |ws| && AllValid(ws) && |own| == |ws|
    ensures |r| == |ws| && AllValid(r)
    ensures forall n :: Sized(ws, n) ==> Sized(r, n)
  {
    if ws[3].AtNotch() then Move(Move(ws, own, 2), own, 3) else ws
  }

  /** Slot 3 advanced when slot 4 is at a notch. */
  function CarryFour(ws: seq<Wheel>, own: seq<int>): (r: seq<Wheel>)
    requires 5 <= |ws| && AllValid(ws) && |own| == |ws|
    ensures |r| == |ws| && AllValid(r)
    ensures forall n :: Sized(ws, n) ==> Sized(r, n)
  {
    if ws[4].AtNotch() then Move(ws, own, 3) else ws
  }

  /** The rack with the rotor in slot `k` advanced once: every slot holding
      that rotor (the slots `i` with `own[i] == own[k]`) shows it advanced,
      and no other slot changes. */
  function Move(ws: seq<Wheel>, own: seq<int>, k: int): (r: seq<Wheel>)
    requires 0 <= k < |ws| && AllValid(ws) && |own| == |ws|
    ensures |r| == |ws| && AllValid(r)
    ensures forall n :: Sized(ws, n) ==> Sized(r, n)
    ensures forall i :: 0 <= i < |ws| ==> r[i] == if own[i] == own[k] then ws[k].Advanced() else ws[i]
  {
    seq(|ws|, i requires 0 <= i < |ws| => if own[i] == own[k] then ws[k].Advanced() else ws[i])
  }

  /** Without shared rotors, performing the moves one after another gives
      the step StepCount describes: slot 4 has not moved when its notch is
      read. */
  lemma StepInOrderIsStep(ws: seq<Wheel>)
    requires 5 <= |ws| && AllValid(ws)
    ensures StepInOrder(ws, Unshared(|ws|)) == Step(ws)
  {
    var own := Unshared(|ws|);
    var r, t := StepInOrder(ws, own), Step(ws);
    forall k | 0 <= k < |ws|
      ensures r[k] == t[k]
    {
      var w := ws[k];
      assert w.AdvancedBy(1) == w.Advanced().AdvancedBy(0);
      assert w.AdvancedBy(2) == w.Advanced().Advanced().AdvancedBy(0);
    }
  }

  /** Right to left through the wheels: the last one first, slot 0 last. */
  function ForwardPass(ws: seq<Wheel>, p: int): (r: int)
    requires forall i :: 0 <= i < |ws| ==> ws[i].perm.Size() > 0
    ensures 0 < |ws| ==> 0 <= r < ws[0].perm.Size()
    decreases |ws|
  {
    if |ws| == 0 then p else ws[0].Forward(ForwardPass(ws[1..], p))
  }

  /** Left to right through the wheels: slot 0 of `ws` first. */
  function BackwardPass(ws: seq<Wheel>, p: int): (r: int)
    requires forall i :: 0 <= i < |ws| ==> ws[i].perm.Size() > 0
    ensures 0 < |ws| ==> 0 <= r < ws[|ws| - 1].perm.Size()
    decreases |ws|
  {
    if |ws| == 0 then p
    else
      assert forall i :: 0 <= i < |ws| - 1 ==> ws[1..][i] == ws[i + 1];
      BackwardPass(ws[1..], ws[0].Backward(p))
  }

  /** The forward pass from slot `i` on is wheel `i` after the pass from `i + 1` on. */
  lemma ForwardPassFrom(ws: seq<Wheel>, i: int, p: int)
    requires 0 <= i < |ws| && forall k :: 0 <= k < |ws| ==> ws[k].perm.Size() > 0
    ensures ForwardPass(ws[i..], p) == ws[i].Forward(ForwardPass(ws[i + 1..], p))
  {
    assert ws[i..][1..] == ws[i + 1..];
  }

  /** The backward pass from slot `j` on is the pass from `j + 1` on after wheel `j`. */
  lemma BackwardPassFrom(ws: seq<Wheel>, j: int, p: int)
    requires 0 <= j < |ws| && forall k :: 0 <= k < |ws| ==> ws[k].perm.Size() > 0
    ensures BackwardPass(ws[j..], p) == BackwardPass(ws[j + 1..], ws[j].Backward(p))
  {
    assert ws[j..][1..] == ws[j + 1..];
  }

  /** One symbol through a stepped rack: the plugboard, every wheel right to
      left, every wheel but the reflector left to right, and the plugboard again. */
  function Encipher(plug: Permutation, ws: seq<Wheel>, c: int): (r: int)
    requires plug.Size() > 0 && 1 <= |ws| && forall i :: 0 <= i < |ws| ==> ws[i].perm.Size() > 0
    ensures -1 <= r < plug.Size()
    ensures plug.MapsIntoAlphabet() ==> 0 <= r
  {
    plug.Permute(BackwardPass(ws[1..], ForwardPass(ws, plug.Permute(c))))
  }

  /** A bijective plugboard over a rack of one size gives a contact in range. */
  lemma EncipherInRange(plug: Permutation, ws: seq<Wheel>, c: int)
    requires plug.Bijective() && 2 <= |ws| && Sized(ws, plug.Size())
    ensures 0 <= Encipher(plug, ws, c) < plug.Size()
  {
    var y := BackwardPass(ws[1..], ForwardPass(ws, plug.Permute(c)));
    assert 0 <= y < plug.Size();
  }

  /** A message typed on a machine whose rack starts as `ws`: the rack
      steps before each symbol is enciphered. */
  function Transcript(alphabet: Alphabet, plug: Permutation, ws: seq<Wheel>, own: seq<int>, msg: string): (out: string)
    requires plug.Bijective() && plug.Size() == alphabet.Size()
    requires 5 <= |ws| && AllValid(ws) && |own| == |ws| && Sized(ws, plug.Size())
    ensures |out| == |msg|
    decreases |msg|
  {
    if |msg| == 0 then []
    else
      var s := StepInOrder(ws, own);
      [Symbol(alphabet, plug, s, msg[0])] + Transcript(alphabet, plug, s, own, msg[1..])
  }

  /** `k + 1` steps are one step after `k` steps. */
  lemma {:induction false} StepNSucc(ws: seq<Wheel>, own: seq<int>, k: nat)
    requires 5 <= |ws| && AllValid(ws) && |own| == |ws|
    ensures StepN(ws, own, k + 1) == StepInOrder(StepN(ws, own, k), own)
    decreases k
  {
    if k > 0 {
      var s := StepInOrder(ws, own);
      StepNSucc(s, own, k - 1);
      assert StepN(ws, own, k + 1) == StepN(s, own, k);
      assert StepN(ws, own, k) == StepN(s, own, k - 1);
    }
  }

  /** Symbol `i` of a transcript is symbol `msg[i]` enciphered after `i + 1` steps. */
  lemma {:induction false} TranscriptAt(alphabet: Alphabet, plug: Permutation, ws: seq<Wheel>, own: seq<int>, msg: string, i: nat)
    requires plug.Bijective() && plug.Size() == alphabet.Size()
    requires 5 <= |ws| && AllValid(ws) && |own| == |ws| && Sized(ws, plug.Size())
    requires i < |msg|
    ensures Sized(StepN(ws, own, i + 1), plug.Size())
    ensures Transcript(alphabet, plug, ws, own, msg)[i] == Symbol(alphabet, plug, StepN(ws, own, i + 1), msg[i])
    decreases i
  {
    if i > 0 {
      TranscriptAt(alphabet, plug, StepInOrder(ws, own), own, msg[1..], i - 1);
    }
  }

  /** One more symbol typed: the rack has taken `j = i + 1` steps and the
      output has grown by symbol `i` of the transcript. */
  lemma TextStep(alphabet: Alphabet, plug: Permutation, ws: seq<Wheel>, own: seq<int>, msg: string,
                 i: nat, j: nat, after: seq<Wheel>, out: string, d: char)
    requires plug.Bijective() && plug.Size() == alphabet.Size()
    requires 5 <= |ws| && AllValid(ws) && |own| == |ws| && Sized(ws, plug.Size())
    requires i < |msg| && j == i + 1 && after == StepInOrder(StepN(ws, own, i), own)
    requires out == Transcript(alphabet, plug, ws, own, msg)[..i]
    requires Sized(after, plug.Size()) && d == Symbol(alphabet, plug, after, msg[i])
    ensures after == StepN(ws, own, j)
    ensures out + [d] == Transcript(alphabet, plug, ws, own, msg)[..j]
  {
    var t := Transcript(alphabet, plug, ws, own, msg);
    StepNSucc(ws, own, i);
    TranscriptAt(alphabet, plug, ws, own, msg, i);
    TakeNext(t, i, j);
  }

  /** A prefix one longer is the shorter prefix and the next element. */
  lemma TakeNext<T>(t: seq<T>, i: nat, j: nat)
    requires i < |t| && j == i + 1
    ensures t[..j] == t[..i] + [t[i]]
  {
  }

  /** The prefix as long as the whole is the whole. */
  lemma TakeAll<T>(t: seq<T>, i: nat)
    requires i == |t|
    ensures t[..i] == t
  {
  }

  /** The symbol a stepped rack turns `ch` into. */
  function Symbol(alphabet: Alphabet, plug: Permutation, ws: seq<Wheel>, ch: char): (r: char)
    requires plug.Bijective() && plug.Size() == alphabet.Size()
    requires 2 <= |ws| && Sized(ws, plug.Size())
    ensures alphabet.Contains(r)
  {
    EncipherInRange(plug, ws, alphabet.ToInt(ch));
    alphabet.ToChar(Encipher(plug, ws, alphabet.ToInt(ch)))
  }

  /** The signal path of `convert`: the plugboard, the rotors right to
      left and back, and the plugboard again. */
  method SignalPath(plug: Permutation, ws: seq<Wheel>, c: int) returns (r: int)
    requires plug.Size() > 0 && 2 <= |ws| && forall k :: 0 <= k < |ws| ==> ws[k].perm.Size() > 0
    ensures r == Encipher(plug, ws, c)
  {
    var x := plug.Permute(c);
    x := RightToLeft(ws, x);
    x := LeftToRight(ws, x);
    r := plug.Permute(x);
  }

  /** `convertForward` from the last slot down to slot 0. */
  method RightToLeft(ws: seq<Wheel>, p: int) returns (r: int)
    requires forall k :: 0 <= k < |ws| ==> ws[k].perm.Size() > 0
    ensures r == ForwardPass(ws, p)
  {
    r := p;
    var i := |ws| - 1;
    while i >= 0
      invariant -1 <= i < |ws|
      invariant r == ForwardPass(ws[i + 1..], p)
    {
      ForwardPassFrom(ws, i, p);
      r := ws[i].Forward(r);
      i := i - 1;
    }
    assert ws[0..] == ws;
  }

  /** `convertBackward` from slot 1 up to the last slot. */
  method LeftToRight(ws: seq<Wheel>, p: int) returns (r: int)
    requires 1 <= |ws| && forall k :: 0 <= k < |ws| ==> ws[k].perm.Size() > 0
    ensures r == BackwardPass(ws[1..], p)
  {
    r := p;
    var j := 1;
    while j < |ws|
      invariant 1 <= j <= |ws|
      invariant BackwardPass(ws[j..], r) == BackwardPass(ws[1..], p)
    {
      BackwardPassFrom(ws, j, r);
      r := ws[j].Backward(r);
      j := j + 1;
    }
    assert ws[j..] == [];
  }

  /** The rotor that filling a slot by `name` leaves there: the last rotor
      of the catalogue with that name, or the old occupant `dflt` when none
      has it. */
  function LastNamed(cat: seq<Rotor>, name: string, dflt: Rotor?): (r: Rotor?)
    ensures r == dflt || (r != null && r in cat && r.name == name)
    decreases |cat|
  {
    if |cat| == 0 then dflt
    else if cat[|cat| - 1].name == name then cat[|cat| - 1]
    else LastNamed(cat[..|cat| - 1], name, dflt)
  }

  /** The slot keeps its old occupant when no catalogue rotor has the name;
      otherwise it receives a rotor with that name, and no later rotor of
      the catalogue has it (the last match wins). */
  lemma {:induction false} LastNamedSpec(cat: seq<Rotor>, name: string, dflt: Rotor?)
    ensures (forall j :: 0 <= j < |cat| ==> cat[j].name != name) ==> LastNamed(cat, name, dflt) == dflt
    ensures (exists j :: 0 <= j < |cat| && cat[j].name == name) ==>
      exists j :: 0 <= j < |cat| && cat[j].name == name && LastNamed(cat, name, dflt) == cat[j] &&
        forall k :: j < k < |cat| ==> cat[k].name != name
  {
    if forall j :: 0 <= j < |cat| ==> cat[j].name != name {
      LastNamedNone(cat, name, dflt);
    } else {
      var w := LastNamedAt(cat, name, dflt);
    }
  }

  /** A name no catalogue rotor has leaves the slot's occupant. */
  lemma {:induction false} LastNamedNone(cat: seq<Rotor>, name: string, dflt: Rotor?)
    requires forall k :: 0 <= k < |cat| ==> cat[k].name != name
    ensures LastNamed(cat, name, dflt) == dflt
    decreases |cat|
  {
    if |cat| > 0 {
      var front := cat[..|cat| - 1];
      assert forall k :: 0 <= k < |front| ==> front[k] == cat[k];
      LastNamedNone(front, name, dflt);
    }
  }

  /** A name some catalogue rotor has fills the slot with the last such
      rotor, at index `w`. */
  lemma {:induction false} LastNamedAt(cat: seq<Rotor>, name: string, dflt: Rotor?) returns (w: int)
    requires exists j :: 0 <= j < |cat| && cat[j].name == name
    ensures 0 <= w < |cat| && cat[w].name == name && LastNamed(cat, name, dflt) == cat[w]
    ensures forall k :: w < k < |cat| ==> cat[k].name != name
    decreases |cat|
  {
    var last := |cat| - 1;
    if cat[last].name == name {
      w := last;
    } else {
      var front := cat[..last];
      var j :| 0 <= j < |cat| && cat[j].name == name;
      assert j < last && front[j] == cat[j];
      w := LastNamedAt(front, name, dflt);
      assert forall k :: 0 <= k < last ==> front[k] == cat[k];
    }
  }

  /** Whether some catalogue rotor has the name. */
  predicate Named(cat: seq<Rotor>, name: string) {
    exists j :: 0 <= j < |cat| && cat[j].name == name
  }

  /** The number of occupied slots whose rotor rotates. */
  function Rotating(slots: seq<Rotor?>): (n: nat)
    ensures n <= |slots|
    decreases |slots|
  {
    if |slots| == 0 then 0
    else Rotating(slots[..|slots| - 1]) + (if slots[|slots| - 1] != null && slots[|slots| - 1].Rotates() then 1 else 0)
  }

  /** The occupied slots whose rotor rotates. */
  ghost function RotatingSlots(slots: seq<Rotor?>): set<int> {
    set i | 0 <= i < |slots| && slots[i] != null && slots[i].Rotates()
  }

  /** `Rotating` counts exactly the occupied slots whose rotor rotates. */
  lemma {:induction false} RotatingCounts(slots: seq<Rotor?>)
    ensures Rotating(slots) == |RotatingSlots(slots)|
    decreases |slots|
  {
    if |slots| > 0 {
      var n := |slots| - 1;
      var front := slots[..n];
      RotatingCounts(front);
      var last := if slots[n] != null && slots[n].Rotates() then {n} else {};
      assert RotatingSlots(slots) == RotatingSlots(front) + last;
      assert n !in RotatingSlots(front);
    }
  }

  /** The index of the first symbol of `s` outside the alphabet, or `|s|`. */
  function FirstOutside(alphabet: Alphabet, s: string): (r: nat)
    ensures r <= |s|
    ensures forall k :: 0 <= k < r ==> alphabet.Contains(s[k])
    ensures r < |s| ==> !alphabet.Contains(s[r])
    decreases |s|
  {
    if |s| == 0 then 0
    else if !alphabet.Contains(s[0]) then 0
    else 1 + FirstOutside(alphabet, s[1..])
  }

  /** A symbol of the alphabet at position `k`, with none outside it
      before, moves the first symbol outside the alphabet past `k`. */
  lemma FirstOutsidePast(alphabet: Alphabet, s: string, k: nat)
    requires k < |s| && k <= FirstOutside(alphabet, s) && alphabet.Contains(s[k])
    ensures k < FirstOutside(alphabet, s)
  {
  }

  /** The position `setRotors` sends slot `k` to: the index of setting
      symbol `k - 1`; slot 0 is never written. */
  function Targets(alphabet: Alphabet, setting: string, n: nat): (tgt: seq<int>)
    ensures |tgt| == n
    ensures forall k :: 1 <= k < n && k - 1 < |setting| ==> tgt[k] == alphabet.ToInt(setting[k - 1])
  {
    seq(n, k => if 1 <= k && k - 1 < |setting| then alphabet.ToInt(setting[k - 1]) else 0)
  }

  /** How far `setRotors` writes: slots `1 .. Reached - 1` get their
      symbol; a setting of the wrong length writes none. */
  function Reached(alphabet: Alphabet, setting: string, n: nat): (m: nat)
    requires 1 <= n
    ensures 1 <= m <= n
    ensures |setting| != n - 1 ==> m == 1
    ensures m < n ==> |setting| != n - 1 || !alphabet.Contains(setting[m - 1])
    ensures forall k :: 0 <= k < m - 1 ==> alphabet.Contains(setting[k])
  {
    if |setting| != n - 1 then 1 else 1 + FirstOutside(alphabet, setting)
  }

  /** With a setting of the right length, `setRotors` writes every slot
      exactly when every setting symbol is in the alphabet. */
  lemma ReachedAll(alphabet: Alphabet, setting: string, n: nat)
    requires 1 <= n && |setting| == n - 1
    ensures Reached(alphabet, setting, n) == n <==> forall k :: 0 <= k < |setting| ==> alphabet.Contains(setting[k])
  {
  }

  /** The settings after slots `1 .. n - 1` have been written in order,
      with `own` saying which slots hold the same rotor: writing a slot
      sets every slot that holds its rotor. */
  function Written(own: seq<int>, olds: seq<int>, tgt: seq<int>, n: nat): (r: seq<int>)
    requires |own| == |olds| == |tgt| && n <= |olds|
    ensures |r| == |olds|
    decreases n
  {
    if n <= 1 then olds
    else WriteOne(Written(own, olds, tgt, n - 1), own, n - 1, tgt[n - 1])
  }

  /** The settings after writing `v` through slot `k`: every slot holding
      the rotor of slot `k` shows `v`, the others keep theirs. */
  function WriteOne(olds: seq<int>, own: seq<int>, k: int, v: int): (r: seq<int>)
    requires |own| == |olds| && 0 <= k < |olds|
    ensures |r| == |olds|
    ensures forall i :: 0 <= i < |olds| ==> r[i] == if own[i] == own[k] then v else olds[i]
  {
    seq(|olds|, i requires 0 <= i < |olds| => if own[i] == own[k] then v else olds[i])
  }

  /** One more write extends the writes done so far. */
  lemma WrittenNext(own: seq<int>, olds: seq<int>, tgt: seq<int>, n: nat, before: seq<int>, after: seq<int>)
    requires |own| == |olds| == |tgt| && 1 <= n < |olds|
    requires before == Written(own, olds, tgt, n) && after == WriteOne(before, own, n, tgt[n])
    ensures after == Written(own, olds, tgt, n + 1)
  {
  }

  /** A slot shows the target of the last written slot that shares its
      rotor, and its old setting when no written slot shares it. */
  lemma {:induction false} WrittenSpec(own: seq<int>, olds: seq<int>, tgt: seq<int>, n: nat, i: int)
    requires |own| == |olds| == |tgt| && n <= |olds| && 0 <= i < |olds|
    ensures (forall k :: 1 <= k < n ==> own[k] != own[i]) ==> Written(own, olds, tgt, n)[i] == olds[i]
    ensures forall k :: 1 <= k < n && own[k] == own[i] && (forall l :: k < l < n ==> own[l] != own[i]) ==>
      Written(own, olds, tgt, n)[i] == tgt[k]
    decreases n
  {
    if n > 1 {
      WrittenSpec(own, olds, tgt, n - 1, i);
    }
  }

  /** With every slot holding its own rotor, slots `1 .. n - 1` take their
      targets and the others keep their settings. */
  lemma WrittenUnshared(olds: seq<int>, tgt: seq<int>, n: nat)
    requires |olds| == |tgt| && n <= |olds|
    ensures forall i :: 0 <= i < |olds| ==>
      Written(Unshared(|olds|), olds, tgt, n)[i] == if 1 <= i < n then tgt[i] else olds[i]
  {
    var own := Unshared(|olds|);
    forall i | 0 <= i < |olds|
      ensures Written(own, olds, tgt, n)[i] == if 1 <= i < n then tgt[i] else olds[i]
    {
      WrittenSpec(own, olds, tgt, n, i);
    }
  }

  /** The first position of `x` in `s`. */
  function FirstIndex<T(==)>(s: seq<T>, x: T): (r: nat)
    requires x in s
    ensures r < |s| && s[r] == x
    ensures forall j :: 0 <= j < r ==> s[j] != x
  {
    if s[0] == x then 0 else 1 + FirstIndex(s[1..], x)
  }

  /** For each slot, the first slot holding the same rotor. */
  function OwnersOf<T(==)>(slots: seq<T>): (own: seq<int>)
    ensures |own| == |slots|
  {
    seq(|slots|, i requires 0 <= i < |slots| => FirstIndex(slots, slots[i]))
  }

  /** Each slot's owner is a slot at or before it holding the same value,
      and two slots have one owner exactly when they hold one value. */
  lemma OwnersOfSpec<T>(slots: seq<T>)
    ensures forall i {:trigger OwnersOf(slots)[i]} :: 0 <= i < |slots| ==>
      0 <= OwnersOf(slots)[i] <= i && slots[OwnersOf(slots)[i]] == slots[i]
    ensures forall i, j {:trigger OwnersOf(slots)[i], OwnersOf(slots)[j]} :: 0 <= i < |slots| && 0 <= j < |slots| ==>
      (OwnersOf(slots)[i] == OwnersOf(slots)[j] <==> slots[i] == slots[j])
  {
  }

  // ---------------------------------------------------------------------------
  // The machine object.

  /** A machine: its alphabet, slot and pawl counts, the catalogue of
      available rotors, the slots, and the plugboard. */
  class Machine {
    const alphabet: Alphabet
    const numRotors: int
    const numPawls: int
    const allRotors: seq<Rotor>
    const rotors: array<Rotor?>
    var plugboard: Option<Permutation>

    /** The rotors in the slots. */
    ghost function Slots(): set<Rotor>
      reads rotors
    {
      set r: Rotor | r in rotors[..]
    }

    /** What construction establishes and every operation keeps: one slot
        per rotor position, every catalogue rotor over the machine's
        alphabet with its setting in range, every slot empty or holding a
        catalogue rotor. */
    ghost predicate Valid()
      reads rotors, allRotors
    {
      rotors.Length == numRotors && 0 <= numPawls < numRotors && alphabet.Size() > 0 &&
      (forall r :: r in allRotors ==> r.Valid() && r.perm.alphabet == alphabet) &&
      (forall i :: 0 <= i < rotors.Length && rotors[i] != null ==> rotors[i] in allRotors)
    }

    /** Every slot holds a rotor, and no rotor sits in two slots. */
    ghost predicate Loaded()
      reads rotors
    {
      Filled() && forall i, j :: 0 <= i < j < rotors.Length ==> rotors[i] != rotors[j]
    }

    /** Every slot holds a rotor. */
    ghost predicate Filled()
      reads rotors
    {
      forall i :: 0 <= i < rotors.Length ==> rotors[i] != null
    }

    /** Every slot holds a rotor over a non-empty alphabet: what the signal
        path needs. */
    ghost predicate Wired()
      reads rotors, rotors[..]
    {
      Filled() && forall i :: 0 <= i < rotors.Length ==> rotors[i].perm.Size() > 0
    }

    /** For each slot, the first slot holding the same rotor. */
    ghost function Owners(): (own: seq<int>)
      reads rotors
      ensures |own| == rotors.Length
    {
      OwnersOf(rotors[..])
    }

    /** The rack: the value of the rotor in each slot. */
    function Wheels(): (ws: seq<Wheel>)
      reads rotors, rotors[..]
      requires Filled()
      ensures |ws| == rotors.Length
    {
      seq(rotors.Length, i requires 0 <= i < rotors.Length && rotors[i] != null reads rotors, rotors[..] =>
        rotors[i].View())
    }

    /** The setting of the rotor in each slot. */
    ghost function Positions(): (ps: seq<int>)
      reads rotors, rotors[..]
      requires Filled()
      ensures |ps| == rotors.Length
      ensures forall i :: 0 <= i < rotors.Length ==> ps[i] == rotors[i].setting
    {
      seq(rotors.Length, i requires 0 <= i < rotors.Length && rotors[i] != null reads rotors, rotors[..] =>
        rotors[i].setting)
    }

    /** The rack of a filled machine is a rack over the machine's alphabet. */
    lemma RackOf()
      requires Valid() && Filled()
      ensures |Wheels()| == numRotors && AllValid(Wheels()) && Sized(Wheels(), alphabet.Size())
    {
    }

    /** Each slot's owner is a slot at or before it holding the same
        rotor, and two slots have one owner exactly when they hold one
        rotor. */
    lemma OwnersSpec()
      ensures forall i {:trigger Owners()[i]} :: 0 <= i < rotors.Length ==>
        0 <= Owners()[i] <= i && rotors[Owners()[i]] == rotors[i]
      ensures forall i, j {:trigger Owners()[i], Owners()[j]} :: 0 <= i < rotors.Length && 0 <= j < rotors.Length ==>
        (Owners()[i] == Owners()[j] <==> rotors[i] == rotors[j])
    {
      OwnersOfSpec(rotors[..]);
    }

    /** Slots holding one rotor show one wheel. */
    lemma RackShares()
      requires Filled()
      ensures Shares(Wheels(), Owners())
    {
      OwnersSpec();
    }

    /** With no rotor in two slots, every slot is its own owner. */
    lemma LoadedUnshared()
      requires Loaded()
      ensures Owners() == Unshared(rotors.Length)
    {
      OwnersSpec();
    }

    /** A machine with empty slots and no plugboard. */
    constructor (alpha: Alphabet, numRotors: int, pawls: int, allRotors: seq<Rotor>)
      requires 1 < numRotors && 0 <= pawls < numRotors
      requires alpha.Size() > 0 && forall r :: r in allRotors ==> r.Valid() && r.perm.alphabet == alpha
      ensures Valid()
      ensures alphabet == alpha && this.numRotors == numRotors && numPawls == pawls && this.allRotors == allRotors
      ensures fresh(rotors) && forall i :: 0 <= i < rotors.Length ==> rotors[i] == null
      ensures plugboard == None
    {
      alphabet := alpha;
      numPawls := pawls;
      this.numRotors := numRotors;
      this.allRotors := allRotors;
      rotors := new Rotor?[numRotors](_ => null);
      plugboard := None;
    }

    /** Fills slot `i` with the last catalogue rotor named `names[i]`, then
        checks the slots: slot 0 must hold a reflector, no slot may be
        empty, there must be one name per slot and as many rotating rotors
        as pawls. */
    method InsertRotors(names: seq<string>) returns (r: Outcome)
      requires Valid() && |names| <= numRotors
      modifies rotors
      ensures Valid()
      ensures forall i :: 0 <= i < rotors.Length ==>
        rotors[i] == if i < |names| then LastNamed(allRotors, names[i], old(rotors[i])) else old(rotors[i])
      ensures r.Pass? <==>
        rotors[0] != null && rotors[0].Reflecting() && null !in rotors[..] &&
        |names| == numRotors && Rotating(rotors[..]) == numPawls
      ensures r.Fail? ==> r.error.ConfigError?
      ensures rotors[0] != null && !rotors[0].Reflecting() ==> r == Fail(ConfigError("First rotor is not reflector"))
    {
      var i := 0;
      while i < |names|
        invariant 0 <= i <= |names|
        invariant Valid()
        invariant forall k :: 0 <= k < rotors.Length ==>
          rotors[k] == if k < i then LastNamed(allRotors, names[k], old(rotors[k])) else old(rotors[k])
      {
        var j := 0;
        while j < |allRotors|
          invariant 0 <= j <= |allRotors|
          invariant Valid()
          invariant rotors[i] == LastNamed(allRotors[..j], names[i], old(rotors[i]))
          invariant forall k :: 0 <= k < rotors.Length && k != i ==>
            rotors[k] == if k < i then LastNamed(allRotors, names[k], old(rotors[k])) else old(rotors[k])
        {
          assert allRotors[..j + 1][..j] == allRotors[..j];
          if names[i] == allRotors[j].name {
            rotors[i] := allRotors[j];
          }
          j := j + 1;
        }
        assert allRotors[..j] == allRotors;
        i := i + 1;
      }
      // A null slot 0 is dereferenced before the emptiness check in the source.
      if rotors[0] == null {
        return Fail(ConfigError("Rotors do not match"));
      }
      if !rotors[0].Reflecting() {
        return Fail(ConfigError("First rotor is not reflector"));
      }
      i := 0;
      while i < rotors.Length
        invariant 0 <= i <= rotors.Length
        invariant null !in rotors[..i]
      {
        if rotors[i] == null {
          assert rotors[..][i] == null;
          return Fail(ConfigError("Rotors do not match"));
        }
        assert rotors[..i + 1] == rotors[..i] + [rotors[i]];
        i := i + 1;
      }
      assert rotors[..i] == rotors[..];
      var counter := 0;
      i := 0;
      while i < rotors.Length
        invariant 0 <= i <= rotors.Length
        invariant counter == Rotating(rotors[..i])
      {
        assert rotors[..i + 1][..i] == rotors[..i];
        if rotors[i].Rotates() {
          counter := counter + 1;
        }
        i := i + 1;
      }
      assert rotors[..i] == rotors[..];
      if |names| != numRotors || counter != numPawls {
        return Fail(ConfigError("Wrong number of Rotors"));
      }
      return Pass;
    }

    /** Whether some catalogue rotor has the name: a scan of the catalogue. */
    method HasRotor(name: string) returns (b: bool)
      ensures b <==> Named(allRotors, name)
    {
      var j := 0;
      while j < |allRotors|
        invariant 0 <= j <= |allRotors|
        invariant forall k :: 0 <= k < j ==> allRotors[k].name != name
      {
        if allRotors[j].name == name {
          return true;
        }
        j := j + 1;
      }
      return false;
    }

    /** `insertRotors` with the check its "Rotors do not match" message
        intends: a name that matches no catalogue rotor fails before any
        slot is written, so no slot keeps a rotor from an earlier insertion.
        Otherwise the names are inserted as by `InsertRotors`. */
    method InsertRotorsChecked(names: seq<string>) returns (r: Outcome)
      requires Valid() && |names| <= numRotors
      modifies rotors
      ensures Valid()
      ensures (exists i :: 0 <= i < |names| && !Named(allRotors, names[i])) ==>
        r == Fail(ConfigError("Rotors do not match")) && forall k :: 0 <= k < rotors.Length ==> rotors[k] == old(rotors[k])
      ensures (forall i :: 0 <= i < |names| ==> Named(allRotors, names[i])) ==> forall k :: 0 <= k < rotors.Length ==>
        rotors[k] == if k < |names| then LastNamed(allRotors, names[k], old(rotors[k])) else old(rotors[k])
      ensures r.Pass? <==>
        (forall i :: 0 <= i < |names| ==> Named(allRotors, names[i])) &&
        rotors[0] != null && rotors[0].Reflecting() && |names| == numRotors && Rotating(rotors[..]) == numPawls
      ensures r.Fail? ==> r.error.ConfigError?
      ensures r.Pass? ==> forall k :: 0 <= k < rotors.Length ==> rotors[k] != null && rotors[k].name == names[k]
      ensures r.Pass? && (forall i, j :: 0 <= i < j < |names| ==> names[i] != names[j]) ==> Loaded()
    {
      var i := 0;
      while i < |names|
        invariant 0 <= i <= |names|
        invariant forall k :: 0 <= k < i ==> Named(allRotors, names[k])
        invariant unchanged(rotors)
      {
        var found := HasRotor(names[i]);
        if !found {
          return Fail(ConfigError("Rotors do not match"));
        }
        i := i + 1;
      }
      ghost var before := rotors[..];
      r := InsertRotors(names);
      forall k | 0 <= k < |names|
        ensures rotors[k] != null && rotors[k] in allRotors && rotors[k].name == names[k]
      {
        LastNamedSpec(allRotors, names[k], before[k]);
      }
    }

    /** Sets slot `i` to the symbol `setting[i - 1]` for every slot but the
        reflector's, stopping at the first symbol outside the alphabet. A
        rotor in several slots ends at the last symbol written to it. */
    method SetRotors(setting: string) returns (r: Outcome)
      requires Valid() && Filled()
      modifies Slots()
      ensures Valid() && Filled()
      ensures r.Pass? <==> |setting| == numRotors - 1 && forall k :: 0 <= k < |setting| ==> alphabet.Contains(setting[k])
      ensures r.Fail? ==> r.error.ConfigError?
      ensures Positions() ==
        Written(Owners(), old(Positions()), Targets(alphabet, setting, numRotors), Reached(alphabet, setting, numRotors))
    {
      ghost var own, s0 := Owners(), Positions();
      ghost var tgt := Targets(alphabet, setting, numRotors);
      if |setting| != numRotors - 1 {
        return Fail(ConfigError("Wrong Setting Lengths"));
      }
      var i := 1;
      while i < numRotors
        invariant 1 <= i <= numRotors
        invariant Valid() && Filled() && Owners() == own
        invariant i - 1 <= FirstOutside(alphabet, setting)
        invariant Positions() == Written(own, s0, tgt, i)
      {
        if !alphabet.Contains(setting[i - 1]) {
          assert Reached(alphabet, setting, numRotors) == i;
          ReachedAll(alphabet, setting, numRotors);
          return Fail(ConfigError("Mistyped setting string"));
        }
        FirstOutsidePast(alphabet, setting, i - 1);
        ghost var before := Positions();
        assert tgt[i] == alphabet.ToInt(setting[i - 1]);
        WriteSlot(i, setting[i - 1]);
        assert Owners() == own;
        WrittenNext(own, s0, tgt, i, before, Positions());
        var next := i + 1;
        i := next;
      }
      assert Reached(alphabet, setting, numRotors) == i;
      ReachedAll(alphabet, setting, numRotors);
      var j := 1;
      while j < numRotors
        invariant 1 <= j <= numRotors
      {
        // The second scan of the source repeats the check the first one passed.
        assert alphabet.Contains(setting[j - 1]);
        j := j + 1;
      }
      return Pass;
    }

    /** Sets the rotor in slot `k` to the position of `c`: every slot
        holding that rotor shows the new setting, no other slot changes. */
    method WriteSlot(k: int, c: char)
      requires Valid() && Filled() && 0 <= k < numRotors && alphabet.Contains(c)
      modifies rotors[k]
      ensures Valid() && Filled() && Owners() == old(Owners())
      ensures Positions() == WriteOne(old(Positions()), Owners(), k, alphabet.ToInt(c))
    {
      OwnersSpec();
      ghost var own := Owners();
      rotors[k].Set(c);
      assert Owners() == own;
    }

    /** Replaces the plugboard. */
    method SetPlugboard(p: Permutation)
      requires Valid()
      modifies this
      ensures Valid() && plugboard == Some(p)
    {
      plugboard := Some(p);
    }

    /** The stepping part of `convert`: slots 2 and 3 advance when slot 3 is
        at a notch, slot 3 when slot 4 is, and the last slot always. */
    method StepRotors()
      requires Valid() && Filled() && 5 <= numRotors
      modifies Slots()
      ensures Valid() && Filled() && Owners() == old(Owners()) && plugboard == old(plugboard)
      ensures Wheels() == StepInOrder(old(Wheels()), Owners())
    {
      ghost var own, w0 := Owners(), Wheels();
      StepFromThree();
      assert Owners() == own && Wheels() == CarryThree(w0, own);
      StepFromFour();
      assert Owners() == own && Wheels() == CarryFour(CarryThree(w0, own), own);
      AdvanceSlot(numRotors - 1);
      assert Owners() == own;
    }

    /** Slots 2 and 3 advance when the rotor in slot 3 is at a notch. */
    method StepFromThree()
      requires Valid() && Filled() && 5 <= numRotors
      modifies Slots()
      ensures Valid() && Filled() && Owners() == old(Owners()) && plugboard == old(plugboard)
      ensures Wheels() == CarryThree(old(Wheels()), Owners())
    {
      ghost var own, w0 := Owners(), Wheels();
      var notch3 := rotors[3].AtNotch();
      assert Owners() == own && Wheels() == w0;
      if notch3 {
        AdvanceSlot(2);
        assert Owners() == own && Wheels() == Move(w0, own, 2);
        AdvanceSlot(3);
        assert Owners() == own;
      }
    }

    /** Slot 3 advances when the rotor in slot 4 is at a notch. */
    method StepFromFour()
      requires Valid() && Filled() && 5 <= numRotors
      modifies Slots()
      ensures Valid() && Filled() && Owners() == old(Owners()) && plugboard == old(plugboard)
      ensures Wheels() == CarryFour(old(Wheels()), Owners())
    {
      ghost var own, w0 := Owners(), Wheels();
      var notch4 := rotors[4].AtNotch();
      assert Owners() == own && Wheels() == w0;
      if notch4 {
        AdvanceSlot(3);
        assert Owners() == own;
      }
    }

    /** `advance` on the rotor in slot `k`: every slot holding that rotor
        shows it moved, no other slot changes. */
    method AdvanceSlot(k: int)
      requires Valid() && Filled() && 0 <= k < numRotors
      modifies rotors[k]
      ensures Valid() && Filled() && Owners() == old(Owners()) && plugboard == old(plugboard)
      ensures Wheels() == Move(old(Wheels()), Owners(), k)
    {
      OwnersSpec();
      rotors[k].Advance();
    }

    /** The signal path of `convert` on the rotors as they stand. */
    method Transit(c: int) returns (r: int)
      requires Wired() && 2 <= rotors.Length
      requires plugboard.Some? && plugboard.value.Size() > 0
      ensures Wheels() == old(Wheels())
      ensures r == Encipher(plugboard.value, Wheels(), c)
    {
      r := SignalPath(plugboard.value, Wheels(), c);
    }

    /** Converts one contact: steps the rotors, then sends the contact
        through plugboard and rotors. */
    method Convert(c: int) returns (r: int)
      requires Valid() && Filled() && 5 <= numRotors
      requires plugboard.Some? && plugboard.value.Size() > 0
      modifies Slots()
      ensures Valid() && Filled() && Owners() == old(Owners()) && plugboard == old(plugboard)
      ensures AllValid(Wheels()) && Sized(Wheels(), alphabet.Size())
      ensures Wheels() == StepInOrder(old(Wheels()), Owners())
      ensures Loaded() ==> Wheels() == Step(old(Wheels()))
      ensures r == Encipher(plugboard.value, Wheels(), c)
    {
      ghost var own, w0 := Owners(), Wheels();
      StepRotors();
      assert Owners() == own;
      ghost var w1 := Wheels();
      if Loaded() {
        LoadedUnshared();
        StepInOrderIsStep(w0);
      }
      r := Transit(c);
      assert Owners() == own && Wheels() == w1;
      RackOf();
    }

    /** Converts one symbol of a message: its index, converted, as a symbol. */
    method ConvertSymbol(ch: char) returns (d: char)
      requires Valid() && Filled() && 5 <= numRotors
      requires plugboard.Some? && plugboard.value.Bijective() && plugboard.value.Size() == alphabet.Size()
      modifies Slots()
      ensures Valid() && Filled() && Owners() == old(Owners()) && plugboard == old(plugboard)
      ensures AllValid(Wheels()) && Sized(Wheels(), alphabet.Size())
      ensures Wheels() == StepInOrder(old(Wheels()), Owners())
      ensures d == Symbol(alphabet, plugboard.value, Wheels(), ch)
    {
      var r := Convert(alphabet.ToInt(ch));
      RackOf();
      EncipherInRange(plugboard.value, Wheels(), alphabet.ToInt(ch));
      d := alphabet.ToChar(r);
    }

    /** Converts a message symbol by symbol, the rotors moving on from one
        symbol to the next. */
    method ConvertText(msg: string) returns (out: string)
      requires Valid() && Filled() && 5 <= numRotors
      requires plugboard.Some? && plugboard.value.Bijective() && plugboard.value.Size() == alphabet.Size()
      modifies Slots()
      ensures Valid() && Filled()
      ensures Wheels() == StepN(old(Wheels()), Owners(), |msg|)
      ensures out == Transcript(alphabet, plugboard.value, old(Wheels()), Owners(), msg)
    {
      RackOf();
      ghost var ws0 := Wheels();
      ghost var own := Owners();
      ghost var plug := plugboard.value;
      ghost var t := Transcript(alphabet, plug, ws0, own, msg);
      out := "";
      var i := 0;
      while i < |msg|
        invariant 0 <= i <= |msg|
        invariant Valid() && Filled() && Owners() == own && plugboard == Some(plug)
        invariant Wheels() == StepN(ws0, own, i)
        invariant out == t[..i]
      {
        var d := ConvertSymbol(msg[i]);
        var j := i + 1;
        TextStep(alphabet, plug, ws0, own, msg, i, j, Wheels(), out, d);
        out := out + [d];
        i := j;
      }
      TakeAll(t, i);
    }
  }
}
