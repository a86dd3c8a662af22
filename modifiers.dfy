/** The user-facing modifier names and the X11 KEYBUTMASK they translate to,
    and the single "ignored modifiers" mask built from the user's selection.
    A KEYBUTMASK is a set of flags; it is modelled as the set of its bits. */
module Modifiers {

  /** The thirteen KEYBUTMASK bits of the X11 core protocol, from bit 0
      (Shift, 0x0001) to bit 12 (Button5, 0x1000). */
  datatype KeyButBit =
    | ShiftBit | LockBit | ControlBit | Mod1Bit | Mod2Bit | Mod3Bit | Mod4Bit | Mod5Bit
    | Button1Bit | Button2Bit | Button3Bit | Button4Bit | Button5Bit

  type KeyButMask = set<KeyButBit>

  /** Every mouse-button bit of a KEYBUTMASK. */
  const BUTTONS: KeyButMask := {Button1Bit, Button2Bit, Button3Bit, Button4Bit, Button5Bit}

  /** The key-modifier bits a user can name: everything but Mod5 and the buttons. */
  const NAMED_MODIFIERS: KeyButMask := {ShiftBit, LockBit, ControlBit, Mod1Bit, Mod2Bit, Mod3Bit, Mod4Bit}

  /** `KeyButMask::intersects`: the two masks share a bit. */
  predicate Intersects(a: KeyButMask, b: KeyButMask) {
    a * b != {}
  }

  /** The values of the repeatable `--ignore-mod` option. */
  datatype Mod = Shift | Caps | Ctrl | Mod1 | Mod2 | Mod3 | Mod4 | All

  /** `From<Mod> for KeyButMask`: a named modifier is its own bit; `All` is
      every named key-modifier bit and no mouse-button bit. */
  function ToMask(m: Mod): (r: KeyButMask)
    ensures r <= NAMED_MODIFIERS
    ensures r * BUTTONS == {} && Mod5Bit !in r
    ensures m != All <==> |r| == 1
  {
    match m
    case Shift => {ShiftBit}
    case Caps => {LockBit}
    case Ctrl => {ControlBit}
    case Mod1 => {Mod1Bit}
    case Mod2 => {Mod2Bit}
    case Mod3 => {Mod3Bit}
    case Mod4 => {Mod4Bit}
    case All => {ShiftBit, LockBit, ControlBit, Mod1Bit, Mod2Bit, Mod3Bit, Mod4Bit}
  }

  /** `All` is exactly the union of the images of the seven other variants,
      and every variant's image lies within it. */
  lemma AllIsUnionOfOthers()
    ensures ToMask(All) == ToMask(Shift) + ToMask(Caps) + ToMask(Ctrl)
                           + ToMask(Mod1) + ToMask(Mod2) + ToMask(Mod3) + ToMask(Mod4)
    ensures ToMask(All) == NAMED_MODIFIERS
    ensures forall m: Mod :: ToMask(m) <= ToMask(All)
  {
  }

  /** Distinct named modifiers have disjoint bits, so the translation loses nothing. */
  lemma NamedModifiersDisjoint(m: Mod, n: Mod)
    requires m != All && n != All && m != n
    ensures ToMask(m) * ToMask(n) == {}
  {
  }

  /** The fold in `main`: start from the empty mask and OR in each selected
      modifier, left to right. */
  function IgnoreMask(mods: seq<Mod>): (r: KeyButMask)
    ensures r <= NAMED_MODIFIERS
    ensures r * BUTTONS == {}
  {
    if mods == [] then {}
    else IgnoreMask(mods[..|mods| - 1]) + ToMask(mods[|mods| - 1])
  }

  /** The fold holds a bit exactly when some selected modifier's mask holds
      it; in particular an empty selection gives the empty mask. */
  lemma {:induction false} IgnoreMaskBits(mods: seq<Mod>)
    ensures forall b :: b in IgnoreMask(mods) <==> exists m :: m in mods && b in ToMask(m)
  {
    if mods != [] {
      var init, last := mods[..|mods| - 1], mods[|mods| - 1];
      IgnoreMaskBits(init);
      assert mods == init + [last];
      forall b | b in IgnoreMask(mods)
        ensures exists m :: m in mods && b in ToMask(m)
      {
        if b in IgnoreMask(init) {
          var m :| m in init && b in ToMask(m);
          assert m in mods;
        } else {
          assert last in mods;
        }
      }
    }
  }

  /** Neither the order nor the repetition of `--ignore-mod` options changes the mask. */
  lemma IgnoreMaskOrderIndependent(mods: seq<Mod>, mods': seq<Mod>)
    requires forall m :: m in mods <==> m in mods'
    ensures IgnoreMask(mods) == IgnoreMask(mods')
  {
    IgnoreMaskBits(mods);
    IgnoreMaskBits(mods');
  }

  /** Selecting `all` anywhere in the list ignores every named key modifier. */
  lemma IgnoreMaskWithAll(mods: seq<Mod>)
    requires All in mods
    ensures IgnoreMask(mods) == NAMED_MODIFIERS
  {
    IgnoreMaskBits(mods);
    AllIsUnionOfOthers();
  }

  /** A modifier state intersects the folded mask exactly when it intersects
      the mask of at least one selected modifier. */
  lemma IntersectsIgnoreMask(mods: seq<Mod>, state: KeyButMask)
    ensures Intersects(state, IgnoreMask(mods))
            <==> exists m :: m in mods && Intersects(state, ToMask(m))
  {
    IgnoreMaskBits(mods);
    if Intersects(state, IgnoreMask(mods)) {
      var b :| b in state * IgnoreMask(mods);
      var m :| m in mods && b in ToMask(m);
      assert b in state * ToMask(m);
    }
    if exists m :: m in mods && Intersects(state, ToMask(m)) {
      var m :| m in mods && Intersects(state, ToMask(m));
      var b :| b in state * ToMask(m);
      assert b in state * IgnoreMask(mods);
    }
  }
}
