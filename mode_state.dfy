/** The four `volatile bool` globals, updated in place by the handlers. */
module SharedFlags {
  import Modes

  class ModeState {
    var fade: bool
    var flicker: bool
    var tricolore: bool
    var rainbow: bool

    /** The flags as one value of the state machine. */
    function Snapshot(): Modes.Flags
      reads this
    {
      Modes.Flags(fade, flicker, tricolore, rainbow)
    }

    ghost predicate Valid()
      reads this
    {
      Modes.Exclusive(Snapshot())
    }

    /** The globals' initialisers: fade on, everything else off. */
    constructor ()
      ensures fade && !flicker && !tricolore && !rainbow
      ensures Snapshot() == Modes.InitialFlags && Valid()
    {
      fade, flicker, tricolore, rainbow := true, false, false, false;
    }

    method PressR()
      modifies this
      ensures tricolore && !rainbow && !fade && flicker == old(flicker)
      ensures Snapshot() == Modes.PressR(old(Snapshot())) && Valid()
    {
      tricolore := true;
      rainbow := false;
      fade := false;
    }

    method ReleaseR()
      modifies this
      ensures !tricolore && fade && rainbow == old(rainbow) && flicker == old(flicker)
      ensures Snapshot() == Modes.ReleaseR(old(Snapshot())) && Valid()
    {
      tricolore := false;
      fade := true;
    }

    method PressL()
      modifies this
      ensures rainbow && !tricolore && !fade && flicker == old(flicker)
      ensures Snapshot() == Modes.PressL(old(Snapshot())) && Valid()
    {
      rainbow := true;
      tricolore := false;
      fade := false;
    }

    method ReleaseL()
      modifies this
      ensures !rainbow && fade && tricolore == old(tricolore) && flicker == old(flicker)
      ensures Snapshot() == Modes.ReleaseL(old(Snapshot())) && Valid()
    {
      rainbow := false;
      fade := true;
    }

    /** `buttonChangedR`, called from the polling loop with the debounced level. */
    method ButtonChangedR(level: int)
      modifies this
      ensures Snapshot() == Modes.ButtonChangedR(old(Snapshot()), level)
      ensures old(Valid()) ==> Valid()
    {
      if level == Modes.ButtonPressed {
        PressR();
      }
      if level == Modes.ButtonReleased {
        ReleaseR();
      }
    }

    /** `buttonChangedL`. */
    method ButtonChangedL(level: int)
      modifies this
      ensures Snapshot() == Modes.ButtonChangedL(old(Snapshot()), level)
      ensures old(Valid()) ==> Valid()
    {
      if level == Modes.ButtonPressed {
        PressL();
      }
      if level == Modes.ButtonReleased {
        ReleaseL();
      }
    }

    /** The motion sampler's write when some axis moved past the threshold. */
    method Motion(exceeded: bool)
      modifies this
      ensures exceeded ==> !fade && flicker
      ensures !exceeded ==> Snapshot() == old(Snapshot())
      ensures tricolore == old(tricolore) && rainbow == old(rainbow)
      ensures Snapshot() == Modes.MotionFlags(old(Snapshot()), exceeded)
      ensures old(Valid()) ==> Valid()
    {
      if exceeded {
        fade := false;
        flicker := true;
      }
    }

    /** The flicker task's own end of the alert. */
    method FlickerTimeout()
      modifies this
      ensures !flicker && fade && tricolore == old(tricolore) && rainbow == old(rainbow)
      ensures Snapshot() == Modes.FlickerTimeout(old(Snapshot()))
      ensures old(Valid()) ==> Valid()
    {
      flicker := false;
      fade := true;
    }
  }
}
