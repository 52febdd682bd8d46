/**
 * One attached racing wheel (src/wheel.cpp): the handle it was created for,
 * its `active` latch and its polling thread, plus the static renderer of a
 * racing-wheel button mask.
 *
 * The polling thread is represented by ghost bookkeeping: whether the
 * `std::thread` member is joinable, and how many threads were spawned and
 * joined over the wheel's lifetime.
 */
module WheelDevice {
  import opened ButtonText
  import RacingWheelButtons

  /** The rows `parseButtons` tests, in the order it tests them, with the names it prints. */
  const ButtonNames: seq<Flag> := [
    Flag(RacingWheelButtons.DPadUp, "DPadUp"),
    Flag(RacingWheelButtons.DPadDown, "DPadDown"),
    Flag(RacingWheelButtons.DPadLeft, "DPadLeft"),
    Flag(RacingWheelButtons.DPadRight, "DPadRight"),
    Flag(RacingWheelButtons.PreviousGear, "LB"),
    Flag(RacingWheelButtons.NextGear, "RB"),
    Flag(RacingWheelButtons.Button1, "Start"),
    Flag(RacingWheelButtons.Button2, "Back"),
    Flag(RacingWheelButtons.Button3, "A"),
    Flag(RacingWheelButtons.Button4, "B"),
    Flag(RacingWheelButtons.Button5, "X"),
    Flag(RacingWheelButtons.Button6, "Y")
  ]

  lemma ButtonNamesWellFormed()
    ensures WellFormed(ButtonNames)
  {
    var t := ButtonNames;
    forall i, j | 0 <= i < j < |t|
      ensures t[i].bit != t[j].bit && t[i].token != t[j].token
    {
      assert i == 0 || i == 1 || i == 2 || i == 3 || i == 4 || i == 5 || i == 6 || i == 7 || i == 8 || i == 9 || i == 10;
      assert j == 1 || j == 2 || j == 3 || j == 4 || j == 5 || j == 6 || j == 7 || j == 8 || j == 9 || j == 10 || j == 11;
    }
    forall i | 0 <= i < |t|
      ensures SingleBit(t[i].bit) && PrintableToken(t[i].token)
    {
      assert i == 0 || i == 1 || i == 2 || i == 3 || i == 4 || i == 5 || i == 6 || i == 7 || i == 8 || i == 9 || i == 10 || i == 11;
    }
  }

  /**
   * Renders a racing-wheel button mask: the twelve flags are tested in table
   * order, each set one appends its name and ", ", and the trailing ", " is
   * removed when anything was appended.
   */
  method ParseButtons(wheelButtons: bv32) returns (buttons: string)
    ensures buttons == Render(wheelButtons, ButtonNames)
  {
    buttons := "";
    buttons := AppendIfSet(buttons, wheelButtons, ButtonNames, 0);
    buttons := AppendIfSet(buttons, wheelButtons, ButtonNames, 1);
    buttons := AppendIfSet(buttons, wheelButtons, ButtonNames, 2);
    buttons := AppendIfSet(buttons, wheelButtons, ButtonNames, 3);
    buttons := AppendIfSet(buttons, wheelButtons, ButtonNames, 4);
    buttons := AppendIfSet(buttons, wheelButtons, ButtonNames, 5);
    buttons := AppendIfSet(buttons, wheelButtons, ButtonNames, 6);
    buttons := AppendIfSet(buttons, wheelButtons, ButtonNames, 7);
    buttons := AppendIfSet(buttons, wheelButtons, ButtonNames, 8);
    buttons := AppendIfSet(buttons, wheelButtons, ButtonNames, 9);
    buttons := AppendIfSet(buttons, wheelButtons, ButtonNames, 10);
    buttons := AppendIfSet(buttons, wheelButtons, ButtonNames, 11);

    // remove the last separator
    buttons := DropTrailingSeparator(buttons, wheelButtons, ButtonNames);
  }

  /** The twelve racing-wheel flags `parseButtons` tests. */
  const HandledButtons: bv32 := 0xFFF

  lemma HandledButtonsCoverTable()
    ensures Covers(HandledButtons, ButtonNames)
  {
    var t := ButtonNames;
    forall i | 0 <= i < |t|
      ensures (t[i].bit & HandledButtons) == t[i].bit
    {
      assert i == 0 || i == 1 || i == 2 || i == 3 || i == 4 || i == 5 || i == 6 || i == 7 || i == 8 || i == 9 || i == 10 || i == 11;
    }
  }

  /** `parseButtons` returns "" exactly when none of the twelve handled flags is set. */
  lemma ParseButtonsEmptyIff(wheelButtons: bv32)
    ensures Render(wheelButtons, ButtonNames) == "" <==> (wheelButtons & HandledButtons) == 0
  {
    ButtonNamesWellFormed();
    RenderEmptyIff(wheelButtons, ButtonNames);
    var t := ButtonNames;
    if (wheelButtons & HandledButtons) == 0 {
      forall i | 0 <= i < |t|
        ensures !Has(wheelButtons, t[i].bit)
      {
        assert i == 0 || i == 1 || i == 2 || i == 3 || i == 4 || i == 5 || i == 6 || i == 7 || i == 8 || i == 9 || i == 10 || i == 11;
      }
    } else {
      LowBitsSetHasFlag(wheelButtons);
    }
  }

  /** Some flag of the table is set whenever some of the twelve low bits is. */
  lemma LowBitsSetHasFlag(m: bv32)
    requires (m & HandledButtons) != 0
    ensures exists i :: 0 <= i < |ButtonNames| && Has(m, ButtonNames[i].bit)
  {
    var t := ButtonNames;
    if Has(m, t[0].bit) {
    } else if Has(m, t[1].bit) {
    } else if Has(m, t[2].bit) {
    } else if Has(m, t[3].bit) {
    } else if Has(m, t[4].bit) {
    } else if Has(m, t[5].bit) {
    } else if Has(m, t[6].bit) {
    } else if Has(m, t[7].bit) {
    } else if Has(m, t[8].bit) {
    } else if Has(m, t[9].bit) {
    } else if Has(m, t[10].bit) {
    } else {
      assert Has(m, t[11].bit);
    }
  }

  /** Each of the twelve names appears in the output of `parseButtons` exactly when its flag is set. */
  lemma ParseButtonsNames(wheelButtons: bv32, i: nat)
    requires i < |ButtonNames|
    ensures ButtonNames[i].token in Selected(wheelButtons, ButtonNames, |ButtonNames|) <==> Has(wheelButtons, ButtonNames[i].bit)
  {
    ButtonNamesWellFormed();
    TokenPresentIff(wheelButtons, ButtonNames, i);
  }

  /** The output of `parseButtons` never ends with ", ". */
  lemma ParseButtonsNoTrailingSeparator(wheelButtons: bv32)
    ensures !EndsWithSeparator(Render(wheelButtons, ButtonNames))
  {
    ButtonNamesWellFormed();
    RenderNoTrailingSeparator(wheelButtons, ButtonNames);
  }

  /** Bits other than the twelve handled flags do not affect `parseButtons`. */
  lemma ParseButtonsIgnoresOtherBits(wheelButtons: bv32)
    ensures Render(wheelButtons & HandledButtons, ButtonNames) == Render(wheelButtons, ButtonNames)
  {
    HandledButtonsCoverTable();
    RenderIgnoresUncovered(wheelButtons, HandledButtons, ButtonNames);
  }

  /** The wheel `parseButtons` renders for a press of the third face button together with the previous-gear paddle. */
  lemma ParseButtonsExample()
    ensures Render(RacingWheelButtons.PreviousGear | RacingWheelButtons.Button3, ButtonNames) == "LB, A"
  {
    var m := RacingWheelButtons.PreviousGear | RacingWheelButtons.Button3;
    assert Selected(m, ButtonNames, 1) == [];
    assert Selected(m, ButtonNames, 2) == [];
    assert Selected(m, ButtonNames, 3) == [];
    assert Selected(m, ButtonNames, 4) == [];
    assert Selected(m, ButtonNames, 5) == ["LB"];
    assert Selected(m, ButtonNames, 6) == ["LB"];
    assert Selected(m, ButtonNames, 7) == ["LB"];
    assert Selected(m, ButtonNames, 8) == ["LB"];
    assert Selected(m, ButtonNames, 9) == ["LB", "A"];
    assert Selected(m, ButtonNames, 10) == ["LB", "A"];
    assert Selected(m, ButtonNames, 11) == ["LB", "A"];
    assert Selected(m, ButtonNames, 12) == ["LB", "A"];
    assert Join(["LB", "A"]) == "LB" + ", " + "A";
  }

  /**
   * A racing wheel the service owns. `racingWheel` is the platform handle it
   * was created for; `active` is the latch that the polling thread watches.
   * The thread itself is represented by `threadJoinable` (what
   * `thread.joinable()` would answer) and the counts of threads spawned and
   * joined so far.
   */
  class Wheel<H> {
    const racingWheel: H
    var active: bool
    ghost var threadJoinable: bool
    ghost var spawned: nat
    ghost var joined: nat

    /** A thread is outstanding exactly while the latch is set, and it is the only one not yet joined. */
    ghost predicate Valid()
      reads this
    {
      threadJoinable == active && spawned == joined + (if active then 1 else 0)
    }

    /** `getRacingWheel()` reads the constant `racingWheel`: the handle given here, for the wheel's whole life. */
    constructor (racingWheel: H)
      ensures Valid()
      ensures this.racingWheel == racingWheel
      ensures !active && spawned == 0 && joined == 0
    {
      this.racingWheel := racingWheel;
      active := false;
      threadJoinable := false;
      spawned := 0;
      joined := 0;
    }

    /** Since the enclosing operation began, the wheel was stopped: its thread joined exactly once, none spawned. */
    twostate predicate JoinedOnce()
      reads this
    {
      Valid() && !active && spawned == old(spawned) && joined == old(joined) + 1
    }

    /** Since the enclosing operation began, the wheel kept running: no thread was spawned or joined. */
    twostate predicate KeptRunning()
      reads this
    {
      Valid() && active && spawned == old(spawned) && joined == old(joined)
    }

    /**
     * `running()`: the latch. A wheel reports running exactly while its
     * polling thread is outstanding (spawned and not yet joined), which is
     * when `Stop` has a thread to join.
     */
    predicate Running(): (r: bool)
      reads this
      ensures Valid() ==> (r <==> threadJoinable && spawned == joined + 1)
    {
      active
    }

    /** Sets the latch and spawns the polling thread, unless the wheel is already active. */
    method Start()
      requires Valid()
      modifies this
      ensures Valid()
      ensures old(active) ==> unchanged(this)
      ensures !old(active) ==> active && spawned == old(spawned) + 1 && joined == old(joined)
    {
      // prevent re-running the thread if already started
      if active {
        return;
      }
      active := true;
      // assigning over a joinable std::thread would terminate the process
      assert !threadJoinable;
      threadJoinable := true;
      spawned := spawned + 1;
    }

    /** Clears the latch and joins the polling thread, if the wheel is active; otherwise does nothing. */
    method Stop()
      requires Valid()
      modifies this
      ensures Valid() && !active
      ensures !old(active) ==> unchanged(this)
      ensures old(active) ==> joined == old(joined) + 1 && spawned == old(spawned)
    {
      if active {
        active := false;
        if threadJoinable {
          threadJoinable := false;
          joined := joined + 1;
        }
      }
    }

    /**
     * The destructor, which calls `stop()`. Destroying a wheel that was
     * stopped already joins nothing, so stop-then-destroy joins exactly once.
     */
    method Destroy()
      requires Valid()
      modifies this
      ensures Valid() && !active
      ensures joined == old(joined) + (if old(active) then 1 else 0) && spawned == old(spawned)
      ensures !old(active) ==> unchanged(this)
    {
      Stop();
    }
  }
}
