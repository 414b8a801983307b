/** Rotors: a permutation with a rotational setting (MovingRotor.java and
    the Rotor base class it extends). */
module Rotors {
  import opened Alphabets
  import opened Permutations
  import opened PermutationLaws
  import opened Modular

  /** The rotor variants: a moving rotor with its notch symbols, a fixed
      rotor and a reflector. */
  datatype RotorKind = Moving(notches: string) | Fixed | Reflector

  /** A rotor at one moment: its permutation, its kind and its setting. */
  datatype Wheel = Wheel(perm: Permutation, kind: RotorKind, setting: int) {

    /** The setting names a position of a non-empty alphabet. */
    predicate Valid() {
      perm.Size() > 0 && 0 <= setting < perm.Size()
    }

    /** The moving rotor sits where the symbol at its setting is one of its notches. */
    predicate AtNotch()
      requires Valid()
      ensures AtNotch() ==> kind.Moving? && kind.notches != []
    {
      kind.Moving? && perm.alphabet.ToChar(setting) in kind.notches
    }

    /** One step: a moving rotor's setting goes up by one, modulo the size;
        other rotors do not move. */
    function Advanced(): (w: Wheel)
      requires Valid()
      ensures w.Valid() && w.perm == perm && w.kind == kind
      ensures !kind.Moving? ==> w == this
    {
      if kind.Moving? then Wheel(perm, kind, perm.Wrap(setting + 1)) else this
    }

    /** `k` steps. */
    function AdvancedBy(k: nat): (w: Wheel)
      requires Valid()
      ensures w.Valid() && w.perm == perm && w.kind == kind
      decreases k
    {
      if k == 0 then this else Advanced().AdvancedBy(k - 1)
    }

    /** Right-to-left through the rotor: the contact shifted by the setting,
        permuted, and shifted back, modulo the size (`permute` reduces its
        argument modulo the size itself; LookupsWrap). */
    function Forward(p: int): (r: int)
      requires perm.Size() > 0
      ensures 0 <= r < perm.Size()
    {
      perm.Wrap(perm.Permute(p + setting) - setting)
    }

    /** Left-to-right through the rotor: the same shift around `invert`. */
    function Backward(p: int): (r: int)
      requires perm.Size() > 0
      ensures 0 <= r < perm.Size()
    {
      perm.Wrap(perm.Invert(p + setting) - setting)
    }
  }

  /** A rotor of the catalogue. Its name, permutation and kind never change;
      its setting is updated in place. */
  class Rotor {
    const name: string
    const perm: Permutation
    const kind: RotorKind
    var setting: int

    /** The current value of the rotor. */
    function View(): Wheel
      reads this
    {
      Wheel(perm, kind, setting)
    }

    ghost predicate Valid()
      reads this
    {
      View().Valid()
    }

    /** A rotor at setting 0. */
    constructor (name: string, perm: Permutation, kind: RotorKind)
      requires perm.Size() > 0
      ensures Valid()
      ensures this.name == name && this.perm == perm && this.kind == kind && setting == 0
    {
      this.name := name;
      this.perm := perm;
      this.kind := kind;
      setting := 0;
    }

    predicate Rotates() {
      kind.Moving?
    }

    predicate Reflecting() {
      kind.Reflector?
    }

    /** Whether the symbol at the current setting is a notch; searches the
        notch symbols of a moving rotor, false for the other kinds. */
    method AtNotch() returns (b: bool)
      requires Valid()
      ensures b <==> kind.Moving? && perm.alphabet.ToChar(setting) in kind.notches
      ensures b == View().AtNotch()
    {
      if !kind.Moving? {
        return false;
      }
      var notches := kind.notches;
      var i := 0;
      while i < |notches|
        invariant 0 <= i <= |notches|
        invariant perm.alphabet.ToChar(setting) !in notches[..i]
      {
        if notches[i] == perm.alphabet.ToChar(setting) {
          return true;
        }
        assert notches[..i + 1] == notches[..i] + [notches[i]];
        i := i + 1;
      }
      assert notches[..i] == notches;
      return false;
    }

    /** Sets the rotor to position `posn`. */
    method SetPosition(posn: int)
      requires Valid() && 0 <= posn < perm.Size()
      modifies this
      ensures Valid() && setting == posn
    {
      setting := posn;
    }

    /** Sets the rotor to the position of symbol `c`. */
    method Set(c: char)
      requires Valid() && perm.alphabet.Contains(c)
      modifies this
      ensures Valid() && setting == perm.alphabet.ToInt(c)
    {
      SetPosition(perm.alphabet.ToInt(c));
    }

    /** A moving rotor goes to the next position, wrapping around; the other
        kinds stay where they are. */
    method Advance()
      requires Valid()
      modifies this
      ensures Valid() && View() == old(View()).Advanced()
    {
      if kind.Moving? {
        SetPosition(perm.Wrap(setting + 1));
      }
    }
  }

  // ---------------------------------------------------------------------------
  // Laws of wheels.

  /** `k` steps of a moving rotor add `k` to its setting, modulo the size;
      other rotors stay. */
  lemma {:induction false} AdvancedBySetting(w: Wheel, k: nat)
    requires w.Valid()
    ensures w.AdvancedBy(k).setting == if w.kind.Moving? then (w.setting + k) % w.perm.Size() else w.setting
    decreases k
  {
    var n := w.perm.Size();
    if k == 0 {
      DivModUnique(w.setting, n, 0, w.setting);
    } else {
      AdvancedBySetting(w.Advanced(), k - 1);
      if w.kind.Moving? {
        WrapIsMod(w.perm, w.setting + 1);
        ModAddLeft(w.setting + 1, k - 1, n);
      }
    }
  }

  /** After as many steps as the alphabet has symbols, a rotor is back where it started. */
  lemma FullTurn(w: Wheel)
    requires w.Valid()
    ensures w.AdvancedBy(w.perm.Size()) == w
  {
    AdvancedBySetting(w, w.perm.Size());
    DivModUnique(w.setting + w.perm.Size(), w.perm.Size(), 1, w.setting);
  }

  /** Shifting an index in range down by the setting and up again gives it back. */
  lemma ShiftCancel(perm: Permutation, b: int, st: int)
    requires perm.Size() > 0 && 0 <= b < perm.Size()
    ensures perm.Wrap(perm.Wrap(b - st) + st) == b
  {
    WrapAdd(perm, b - st, st);
    assert b - st + st == b;
  }

  /** Shifting up by the setting and down again wraps the index. */
  lemma ShiftBack(perm: Permutation, p: int, st: int)
    requires perm.Size() > 0
    ensures perm.Wrap(perm.Wrap(p + st) - st) == perm.Wrap(p)
  {
    WrapAdd(perm, p + st, -st);
    assert p + st + -st == p;
  }

  /** The index lookups depend only on the index modulo the size. */
  lemma LookupsWrap(perm: Permutation, c: int, b: int)
    requires perm.Size() > 0 && perm.Wrap(c) == b
    ensures perm.Permute(c) == perm.Permute(b)
    ensures perm.Invert(c) == perm.Invert(b)
  {
  }

  /** The backward lookup at the contact `Forward` leaves, shifted by the
      setting, gives back the shifted entering contact. */
  lemma InvertRecovers(w: Wheel, p: int)
    requires w.perm.Bijective()
    ensures w.perm.Invert(w.Forward(p) + w.setting) == w.perm.Wrap(p + w.setting)
  {
    var perm, st := w.perm, w.setting;
    var a := perm.Wrap(p + st);
    var b := perm.Permute(p + st);
    LookupsWrap(perm, p + st, a);
    var x := w.Forward(p);
    assert x == perm.Wrap(b - st);
    ShiftCancel(perm, b, st);
    LookupsWrap(perm, x + st, b);
  }

  /** Through a rotor and back again: `Backward` undoes `Forward`. */
  lemma BackwardAfterForward(w: Wheel, p: int)
    requires w.perm.Bijective()
    ensures w.Backward(w.Forward(p)) == w.perm.Wrap(p)
  {
    InvertRecovers(w, p);
    ShiftBack(w.perm, p, w.setting);
  }

  /** The forward lookup at the contact `Backward` leaves, shifted by the
      setting, gives back the shifted entering contact. */
  lemma PermuteRecovers(w: Wheel, p: int)
    requires w.perm.Bijective()
    ensures w.perm.Permute(w.Backward(p) + w.setting) == w.perm.Wrap(p + w.setting)
  {
    var perm, st := w.perm, w.setting;
    var a := perm.Wrap(p + st);
    var b := perm.Invert(p + st);
    LookupsWrap(perm, p + st, a);
    var x := w.Backward(p);
    assert x == perm.Wrap(b - st);
    ShiftCancel(perm, b, st);
    LookupsWrap(perm, x + st, b);
  }

  /** `Forward` undoes `Backward`. */
  lemma ForwardAfterBackward(w: Wheel, p: int)
    requires w.perm.Bijective()
    ensures w.Forward(w.Backward(p)) == w.perm.Wrap(p)
  {
    PermuteRecovers(w, p);
    ShiftBack(w.perm, p, w.setting);
  }

  /** For a permutation that undoes itself, the forward lookup at the contact
      `Forward` leaves, shifted by the setting, gives back the shifted
      entering contact. */
  lemma PermuteRecoversTwice(w: Wheel, p: int)
    requires w.perm.Bijective() && w.perm.SelfInverse()
    ensures w.perm.Permute(w.Forward(p) + w.setting) == w.perm.Wrap(p + w.setting)
  {
    var perm, st := w.perm, w.setting;
    var a := perm.Wrap(p + st);
    var b := perm.Permute(p + st);
    LookupsWrap(perm, p + st, a);
    var x := w.Forward(p);
    assert x == perm.Wrap(b - st);
    ShiftCancel(perm, b, st);
    LookupsWrap(perm, x + st, b);
  }

  /** A rotor whose permutation undoes itself, such as a reflector made of
      pairs, undoes itself too. */
  lemma ForwardTwice(w: Wheel, p: int)
    requires w.perm.Bijective() && w.perm.SelfInverse()
    ensures w.Forward(w.Forward(p)) == w.perm.Wrap(p)
  {
    PermuteRecoversTwice(w, p);
    ShiftBack(w.perm, p, w.setting);
  }
}
