/**
 * The wheel manager (src/wheel_manager.cpp): the registry of attached
 * wheels, one iteration of its scanning loop, the latches of the scanning
 * and telemetry threads, and the renderer of a gamepad button mask used by
 * the telemetry printout.
 *
 * The platform's enumeration of racing wheels is a parameter of a tick (a
 * sequence of handles); handle equality is `==` on the handle type. Threads
 * are represented, as for a wheel, by ghost bookkeeping of whether the
 * `std::thread` member is joinable and how many threads were spawned and
 * joined.
 */
module WheelManagement {
  import opened ButtonText
  import GamepadButtons
  import opened WheelDevice
  import opened Reconciliation

  /** Slots of the per-tick map from registry position to enumeration index. */
  const MAX_WHEELS: int := 8
  /** Marks a registry position that no enumerated handle matched. */
  const WHEEL_NOT_FOUND: int := -1

  // ---------------------------------------------------------------------
  // Gamepad button text
  // ---------------------------------------------------------------------

  /** The rows the telemetry printout tests, in the order it tests them, with the names it prints. */
  const GamepadButtonNames: seq<Flag> := [
    Flag(GamepadButtons.DPadUp, "DPadUp"),
    Flag(GamepadButtons.DPadDown, "DPadDown"),
    Flag(GamepadButtons.DPadLeft, "DPadLeft"),
    Flag(GamepadButtons.DPadRight, "DPadRight"),
    Flag(GamepadButtons.LeftShoulder, "LB"),
    Flag(GamepadButtons.RightShoulder, "RB"),
    Flag(GamepadButtons.Menu, "Menu"),
    Flag(GamepadButtons.View, "View"),
    Flag(GamepadButtons.A, "A"),
    Flag(GamepadButtons.B, "B"),
    Flag(GamepadButtons.X, "X"),
    Flag(GamepadButtons.Y, "Y")
  ]

  lemma GamepadButtonNamesWellFormed()
    ensures WellFormed(GamepadButtonNames)
  {
    var t := GamepadButtonNames;
    forall i, j | 0 <= i < j < |t|
      ensures t[i].bit != t[j].bit && t[i].token != t[j].token
    {
      assert i == 0 || i == 1 || i == 2 || i == 3 || i == 4 || i == 5 || i == 6 || i == 7 || i == 8 || i == 9 || i == 10;
      assert j == 1 || j == 2 || j == 3 || j == 4 || j == 5 || j == 6 || j == 7 || j == 8 || j == 9 || j == 10 || j == 11;
    }
    forall i | 0 <= i < |t|
      ensures SingleBit(t[i].bit) && PrintableToken(t[i].token)
    {
      assert i == 0 || i == 1 || i == 2 || i == 3 || i == 4 || i == 5 || i == 6 || i == 7 || i == 8 || i == 9 || i == 10 || i == 11;
    }
  }

  /**
   * Renders a gamepad button mask, as the telemetry printout does for the
   * gamepad reading of each wheel: the twelve flags are tested in table
   * order, each set one appends its name and ", ", and the trailing ", " is
   * removed when anything was appended.
   */
  method GamepadButtonsText(buttons: bv32) returns (buttonsStr: string)
    ensures buttonsStr == Render(buttons, GamepadButtonNames)
  {
    buttonsStr := "";
    buttonsStr := AppendIfSet(buttonsStr, buttons, GamepadButtonNames, 0);
    buttonsStr := AppendIfSet(buttonsStr, buttons, GamepadButtonNames, 1);
    buttonsStr := AppendIfSet(buttonsStr, buttons, GamepadButtonNames, 2);
    buttonsStr := AppendIfSet(buttonsStr, buttons, GamepadButtonNames, 3);
    buttonsStr := AppendIfSet(buttonsStr, buttons, GamepadButtonNames, 4);
    buttonsStr := AppendIfSet(buttonsStr, buttons, GamepadButtonNames, 5);
    buttonsStr := AppendIfSet(buttonsStr, buttons, GamepadButtonNames, 6);
    buttonsStr := AppendIfSet(buttonsStr, buttons, GamepadButtonNames, 7);
    buttonsStr := AppendIfSet(buttonsStr, buttons, GamepadButtonNames, 8);
    buttonsStr := AppendIfSet(buttonsStr, buttons, GamepadButtonNames, 9);
    buttonsStr := AppendIfSet(buttonsStr, buttons, GamepadButtonNames, 10);
    buttonsStr := AppendIfSet(buttonsStr, buttons, GamepadButtonNames, 11);

    // remove the last separator
    buttonsStr := DropTrailingSeparator(buttonsStr, buttons, GamepadButtonNames);
  }

  /** The twelve gamepad flags the telemetry printout tests. */
  const HandledGamepadButtons: bv32 := 0xFFF

  lemma HandledGamepadButtonsCoverTable()
    ensures Covers(HandledGamepadButtons, GamepadButtonNames)
  {
    var t := GamepadButtonNames;
    forall i | 0 <= i < |t|
      ensures (t[i].bit & HandledGamepadButtons) == t[i].bit
    {
      assert i == 0 || i == 1 || i == 2 || i == 3 || i == 4 || i == 5 || i == 6 || i == 7 || i == 8 || i == 9 || i == 10 || i == 11;
    }
  }

  /** Some flag of the table is set whenever some of the twelve low bits is. */
  lemma LowGamepadBitsSetHasFlag(m: bv32)
    requires (m & HandledGamepadButtons) != 0
    ensures exists i :: 0 <= i < |GamepadButtonNames| && Has(m, GamepadButtonNames[i].bit)
  {
    var t := GamepadButtonNames;
    if Has(m, t[0].bit) {
    } else if Has(m, t[1].bit) {
    } else if Has(m, t[2].bit) {
    } else if Has(m, t[3].bit) {
    } else if Has(m, t[4].bit) {
    } else if Has(m, t[5].bit) {
    } else if Has(m, t[6].bit) {
    } else if Has(m, t[7].bit) {
    } else if Has(m, t[8].bit) {
    } else if Has(m, t[9].bit) {
    } else if Has(m, t[10].bit) {
    } else {
      assert Has(m, t[11].bit);
    }
  }

  /** The gamepad button text is "" exactly when none of the twelve handled flags is set. */
  lemma GamepadButtonsTextEmptyIff(buttons: bv32)
    ensures Render(buttons, GamepadButtonNames) == "" <==> (buttons & HandledGamepadButtons) == 0
  {
    GamepadButtonNamesWellFormed();
    RenderEmptyIff(buttons, GamepadButtonNames);
    var t := GamepadButtonNames;
    if (buttons & HandledGamepadButtons) == 0 {
      forall i | 0 <= i < |t|
        ensures !Has(buttons, t[i].bit)
      {
        assert i == 0 || i == 1 || i == 2 || i == 3 || i == 4 || i == 5 || i == 6 || i == 7 || i == 8 || i == 9 || i == 10 || i == 11;
      }
    } else {
      LowGamepadBitsSetHasFlag(buttons);
    }
  }

  /** Each of the twelve names appears in the gamepad button text exactly when its flag is set. */
  lemma GamepadButtonsTextNames(buttons: bv32, i: nat)
    requires i < |GamepadButtonNames|
    ensures GamepadButtonNames[i].token in Selected(buttons, GamepadButtonNames, |GamepadButtonNames|)
      <==> Has(buttons, GamepadButtonNames[i].bit)
  {
    GamepadButtonNamesWellFormed();
    TokenPresentIff(buttons, GamepadButtonNames, i);
  }

  /** The gamepad button text never ends with ", ". */
  lemma GamepadButtonsTextNoTrailingSeparator(buttons: bv32)
    ensures !EndsWithSeparator(Render(buttons, GamepadButtonNames))
  {
    GamepadButtonNamesWellFormed();
    RenderNoTrailingSeparator(buttons, GamepadButtonNames);
  }

  /** Bits other than the twelve handled flags (the paddles and thumbstick presses) do not affect the gamepad button text. */
  lemma GamepadButtonsTextIgnoresOtherBits(buttons: bv32)
    ensures Render(buttons & HandledGamepadButtons, GamepadButtonNames) == Render(buttons, GamepadButtonNames)
  {
    HandledGamepadButtonsCoverTable();
    RenderIgnoresUncovered(buttons, HandledGamepadButtons, GamepadButtonNames);
  }

  /** The left shoulder together with A prints "LB, A": the shoulder is tested first. */
  lemma GamepadButtonsTextExample()
    ensures Render(GamepadButtons.LeftShoulder | GamepadButtons.A, GamepadButtonNames) == "LB, A"
  {
    var m := GamepadButtons.LeftShoulder | GamepadButtons.A;
    assert Selected(m, GamepadButtonNames, 1) == [];
    assert Selected(m, GamepadButtonNames, 2) == [];
    assert Selected(m, GamepadButtonNames, 3) == [];
    assert Selected(m, GamepadButtonNames, 4) == [];
    assert Selected(m, GamepadButtonNames, 5) == ["LB"];
    assert Selected(m, GamepadButtonNames, 6) == ["LB"];
    assert Selected(m, GamepadButtonNames, 7) == ["LB"];
    assert Selected(m, GamepadButtonNames, 8) == ["LB"];
    assert Selected(m, GamepadButtonNames, 9) == ["LB", "A"];
    assert Selected(m, GamepadButtonNames, 10) == ["LB", "A"];
    assert Selected(m, GamepadButtonNames, 11) == ["LB", "A"];
    assert Selected(m, GamepadButtonNames, 12) == ["LB", "A"];
    assert Join(["LB", "A"]) == "LB" + ", " + "A";
  }

  // ---------------------------------------------------------------------
  // The registry
  // ---------------------------------------------------------------------

  /** The handles the wheels were created for, in registry order. */
  ghost function HandlesOf<H>(ws: seq<Wheel<H>>): seq<H> {
    seq(|ws|, i requires 0 <= i < |ws| => ws[i].racingWheel)
  }

  /** Whether each wheel of the registry reports itself running, in registry order. */
  ghost function AliveOf<H>(ws: seq<Wheel<H>>): seq<bool>
    reads ws
  {
    seq(|ws|, i requires 0 <= i < |ws| reads ws => ws[i].active)
  }

  /**
   * The first `numWheels` slots of the map after the first `i` enumerated
   * handles were matched: a slot is filled exactly when its entry is the
   * first to carry a handle among those `i`, and it then records an index of
   * that handle below `i`.
   */
  ghost predicate MapRecords<H>(wheelMap: array<int>, numWheels: nat, hs: seq<H>, enum: seq<H>, i: nat)
    reads wheelMap
    requires numWheels <= |hs| && numWheels <= wheelMap.Length && i <= |enum|
  {
    && (forall j :: 0 <= j < numWheels ==> (wheelMap[j] != WHEEL_NOT_FOUND <==> Matched(hs, j, enum[..i])))
    && (forall j :: 0 <= j < numWheels && wheelMap[j] != WHEEL_NOT_FOUND ==>
          0 <= wheelMap[j] < i && enum[wheelMap[j]] == hs[j])
  }

  /** Appending one wheel to a registry leaves its first `n` entries and appends the wheel's handle to the later ones. */
  lemma AppendedWheel<H>(before: seq<Wheel<H>>, after: seq<Wheel<H>>, n: nat)
    requires n <= |before| && |after| == |before| + 1 && after[..|before|] == before
    ensures after[..n] == before[..n]
    ensures forall k :: n <= k < |before| ==> after[k] == before[k]
    ensures HandlesOf(after[n..]) == HandlesOf(before[n..]) + [after[|before|].racingWheel]
  {
    assert after[n..] == before[n..] + [after[|before|]];
    HandlesOfConcat(before[n..], [after[|before|]]);
  }

  lemma HandlesOfConcat<H>(a: seq<Wheel<H>>, b: seq<Wheel<H>>)
    ensures HandlesOf(a + b) == HandlesOf(a) + HandlesOf(b)
  {
  }

  /** Taking the handles of the selected wheels is selecting among the wheels' handles. */
  lemma {:induction false} HandlesOfSelectFrom<H>(ws: seq<Wheel<H>>, mask: seq<bool>, i: nat)
    requires |mask| == |ws| && i <= |ws|
    ensures HandlesOf(SelectFrom(ws, mask, i)) == SelectFrom(HandlesOf(ws), mask, i)
    decreases |ws| - i
  {
    if i < |ws| {
      HandlesOfSelectFrom(ws, mask, i + 1);
      HandlesOfConcat(if mask[i] then [ws[i]] else [], SelectFrom(ws, mask, i + 1));
    }
  }

  /** Taking the handles of the selected wheels is selecting among the wheels' handles. */
  lemma HandlesOfSelect<H>(ws: seq<Wheel<H>>, mask: seq<bool>)
    requires |mask| == |ws|
    ensures HandlesOf(Select(ws, mask)) == Select(HandlesOf(ws), mask)
  {
    HandlesOfSelectFrom(ws, mask, 0);
  }

  /** Selection from a sequence without repetitions, followed by the rest of it, has no repetitions. */
  lemma SelectThenRestNoDup<T>(s: seq<T>, mask: seq<bool>, t: seq<T>)
    requires |mask| == |s| && NoDup(s + t)
    ensures NoDup(Select(s, mask) + t)
  {
    forall i, j | 0 <= i < j < |s| && mask[i] && mask[j]
      ensures s[i] != s[j]
    {
      assert s[i] == (s + t)[i] && s[j] == (s + t)[j];
    }
    SelectNoDup(s, mask);
    var r := Select(s, mask) + t;
    forall i, j | 0 <= i < |Select(s, mask)| <= j < |r|
      ensures r[i] != r[j]
    {
      SelectMembership(s, mask, r[i]);
      var k :| 0 <= k < |s| && mask[k] && s[k] == r[i];
      assert r[j] == (s + t)[|s| + j - |Select(s, mask)|];
      assert s[k] == (s + t)[k];
    }
    forall i, j | |Select(s, mask)| <= i < j < |r|
      ensures r[i] != r[j]
    {
      assert r[i] == (s + t)[|s| + i - |Select(s, mask)|];
      assert r[j] == (s + t)[|s| + j - |Select(s, mask)|];
    }
  }

  /**
   * One step of the descending removal loop, on values: with the entries
   * above `i` already filtered, the entry at `i` is either kept in place or
   * erased, and either way the entries from `i` on are then filtered.
   */
  lemma RemovalStep<T>(W: seq<T>, n: nat, keep: seq<bool>, i: nat)
    requires i < n <= |W| && |keep| == n
    ensures var cur := W[..i + 1] + SelectFrom(W[..n], keep, i + 1) + W[n..];
      && i < |cur| && cur[i] == W[i]
      && (keep[i] ==> cur == W[..i] + SelectFrom(W[..n], keep, i) + W[n..])
      && (!keep[i] ==> cur[..i] + cur[i + 1..] == W[..i] + SelectFrom(W[..n], keep, i) + W[n..])
  {
    var Wn := W[..n];
    var after := SelectFrom(Wn, keep, i + 1);
    assert W[..i + 1] == W[..i] + [W[i]];
    assert Wn[i] == W[i];
    Splice(W[..i], W[i], after, W[n..]);
    if keep[i] {
      assert SelectFrom(Wn, keep, i) == [W[i]] + after;
    } else {
      var cur := W[..i + 1] + after + W[n..];
      assert cur == W[..i] + [W[i]] + after + W[n..];
      assert cur[..i] + cur[i + 1..] == W[..i] + after + W[n..];
      assert SelectFrom(Wn, keep, i) == [] + after == after;
    }
  }

  /** Keeping or erasing the element between `a` and `b`, in `a + [x] + b + c`. */
  lemma Splice<T>(a: seq<T>, x: T, b: seq<T>, c: seq<T>)
    ensures var cur := a + [x] + b + c;
      && |a| < |cur| && cur[|a|] == x
      && cur == a + ([x] + b) + c
      && cur[..|a|] + cur[|a| + 1..] == a + b + c
  {
    var cur := a + [x] + b + c;
    assert cur[..|a|] == a;
    assert cur[|a| + 1..] == b + c;
  }

  /** Dropping entries from a registry of distinct, valid, running wheels leaves one. */
  lemma KeptWheelsValid<H>(W: seq<Wheel<H>>, n: nat, keep: seq<bool>)
    requires n <= |W| && |keep| == n && NoDup(W)
    requires forall j :: 0 <= j < |W| && (n <= j || keep[j]) ==> W[j].Valid() && W[j].active
    ensures var ws := Select(W[..n], keep) + W[n..];
      NoDup(ws) && forall k :: 0 <= k < |ws| ==> ws[k].Valid() && ws[k].active
  {
    assert W == W[..n] + W[n..];
    SelectThenRestNoDup(W[..n], keep, W[n..]);
    var ws := Select(W[..n], keep) + W[n..];
    forall k | 0 <= k < |ws|
      ensures ws[k].Valid() && ws[k].active
    {
      if k < |Select(W[..n], keep)| {
        SelectMembership(W[..n], keep, ws[k]);
      } else {
        assert ws[k] == W[n + k - |Select(W[..n], keep)|];
      }
    }
  }

  /**
   * The service's registry of wheels and its two background threads.
   *
   * `active` is the latch the scanning thread watches and `telemetryActive`
   * the one the telemetry thread watches; `wheels` is the registry, in the
   * order the wheels were created.
   */
  class WheelManager<H(==)> {
    var active: bool
    var wheels: seq<Wheel<H>>
    var telemetryActive: bool
    ghost var scanJoinable: bool
    ghost var scanSpawned: nat
    ghost var scanJoined: nat
    ghost var telemetryJoinable: bool
    ghost var telemetrySpawned: nat
    ghost var telemetryJoined: nat

    /**
     * Each wheel is registered once and is running; the registry is empty
     * while the manager is stopped; each thread is outstanding exactly while
     * its latch is set, and it is the only one not yet joined.
     */
    ghost predicate Valid()
      reads this, wheels
    {
      && NoDup(wheels)
      && (forall i :: 0 <= i < |wheels| ==> wheels[i].Valid() && wheels[i].active)
      && (!active ==> wheels == [])
      && scanJoinable == active && scanSpawned == scanJoined + (if active then 1 else 0)
      && telemetryJoinable == telemetryActive && telemetrySpawned == telemetryJoined + (if telemetryActive then 1 else 0)
    }

    /** A new manager: both latches clear, no wheels, no threads. */
    constructor ()
      ensures Valid()
      ensures !active && !telemetryActive && wheels == []
      ensures scanSpawned == 0 && telemetrySpawned == 0
    {
      active := false;
      wheels := [];
      telemetryActive := false;
      scanJoinable := false;
      scanSpawned := 0;
      scanJoined := 0;
      telemetryJoinable := false;
      telemetrySpawned := 0;
      telemetryJoined := 0;
    }

    /**
     * `running()`: the scanning latch. A manager reports running exactly
     * while its scanning thread is outstanding (spawned and not yet joined),
     * and one that does not run holds no wheels.
     */
    predicate Running(): (r: bool)
      reads this, wheels
      ensures Valid() ==> (r <==> scanJoinable && scanSpawned == scanJoined + 1)
      ensures Valid() && !r ==> wheels == []
    {
      active
    }

    /** Sets the scanning latch and spawns the scanning thread, unless the manager is already active. */
    method Start()
      requires Valid()
      modifies this`active, this`scanJoinable, this`scanSpawned
      ensures Valid() && active
      ensures old(active) ==> unchanged(this)
      ensures !old(active) ==> scanSpawned == old(scanSpawned) + 1 && wheels == []
    {
      // prevent running if already active
      if active {
        return;
      }
      active := true;
      // assigning over a joinable std::thread would terminate the process
      assert !scanJoinable;
      scanJoinable := true;
      scanSpawned := scanSpawned + 1;
    }

    /** Sets the telemetry latch and spawns the telemetry thread, unless telemetry is already on. */
    method StartTelemetry()
      requires Valid()
      modifies this`telemetryActive, this`telemetryJoinable, this`telemetrySpawned
      ensures Valid() && telemetryActive
      ensures old(telemetryActive) ==> unchanged(this)
      ensures !old(telemetryActive) ==> telemetrySpawned == old(telemetrySpawned) + 1
    {
      if telemetryActive {
        return;
      }
      telemetryActive := true;
      assert !telemetryJoinable;
      telemetryJoinable := true;
      telemetrySpawned := telemetrySpawned + 1;
    }

    /** Clears the telemetry latch and joins the telemetry thread if there is one; safe to call at any time. */
    method StopTelemetry()
      requires Valid()
      modifies this`telemetryActive, this`telemetryJoinable, this`telemetryJoined
      ensures Valid() && !telemetryActive
      ensures telemetryJoined == old(telemetryJoined) + (if old(telemetryActive) then 1 else 0)
    {
      telemetryActive := false;
      if telemetryJoinable {
        telemetryJoinable := false;
        telemetryJoined := telemetryJoined + 1;
      }
    }

    /** Turns telemetry off if it is on, and on if it is off. */
    method ToggleTelemetry()
      requires Valid()
      modifies this`telemetryActive, this`telemetryJoinable, this`telemetrySpawned, this`telemetryJoined
      ensures Valid() && telemetryActive == !old(telemetryActive)
      ensures old(telemetryActive) ==> telemetryJoined == old(telemetryJoined) + 1 && telemetrySpawned == old(telemetrySpawned)
      ensures !old(telemetryActive) ==> telemetrySpawned == old(telemetrySpawned) + 1 && telemetryJoined == old(telemetryJoined)
    {
      if telemetryActive {
        StopTelemetry();
      } else {
        StartTelemetry();
      }
    }

    /**
     * Stops telemetry, then, if the manager is active, clears the latch,
     * stops every running wheel, joins the scanning thread and empties the
     * registry. Every thread that was outstanding is joined exactly once.
     */
    method Stop()
      requires Valid()
      modifies this`active, this`wheels, this`scanJoinable, this`scanJoined
      modifies this`telemetryActive, this`telemetryJoinable, this`telemetryJoined
      modifies wheels
      ensures Valid() && !active && !telemetryActive && wheels == []
      ensures scanJoined == old(scanJoined) + (if old(active) then 1 else 0)
      ensures telemetryJoined == old(telemetryJoined) + (if old(telemetryActive) then 1 else 0)
      ensures forall w :: w in old(wheels) ==> w.JoinedOnce()
    {
      StopTelemetry();
      if active {
        active := false;
        var i := 0;
        while i < |wheels|
          modifies wheels
          invariant 0 <= i <= |wheels| && wheels == old(wheels)
          invariant forall j :: 0 <= j < i ==> wheels[j].JoinedOnce()
          invariant forall j :: i <= j < |wheels| ==> unchanged(wheels[j])
        {
          if wheels[i].Running() {
            wheels[i].Stop();
          }
          i := i + 1;
        }
        if scanJoinable {
          scanJoinable := false;
          scanJoined := scanJoined + 1;
        }
        // destroying the stopped wheels joins nothing more (see Wheel.Destroy)
        wheels := [];
      }
    }

    /** The destructor, which calls `stop()`. */
    method Destroy()
      requires Valid()
      modifies this`active, this`wheels, this`scanJoinable, this`scanJoined
      modifies this`telemetryActive, this`telemetryJoinable, this`telemetryJoined
      modifies wheels
      ensures Valid() && !active && !telemetryActive && wheels == []
      ensures scanJoined == old(scanJoined) + (if old(active) then 1 else 0)
      ensures telemetryJoined == old(telemetryJoined) + (if old(telemetryActive) then 1 else 0)
      ensures forall w :: w in old(wheels) ==> w.JoinedOnce()
    {
      Stop();
    }

    /**
     * The matching half of a tick: for each enumerated handle, in order,
     * search the `numWheels` pre-tick entries for the first one with that
     * handle and record its enumeration index in `wheelMap`; if there is
     * none, create and start a new wheel for the handle.
     */
    method MatchEnumeration(enum: seq<H>, numWheels: nat, wheelMap: array<int>)
      requires Valid() && active
      requires numWheels == |wheels| <= wheelMap.Length
      requires forall j :: 0 <= j < wheelMap.Length ==> wheelMap[j] == WHEEL_NOT_FOUND
      modifies this`wheels, wheelMap
      ensures Valid()
      ensures numWheels <= |wheels| && wheels[..numWheels] == old(wheels)
      ensures HandlesOf(wheels[numWheels..]) == Arrivals(HandlesOf(old(wheels)), enum)
      ensures forall k :: numWheels <= k < |wheels| ==> fresh(wheels[k]) && wheels[k].spawned == 1 && wheels[k].joined == 0
      ensures MapRecords(wheelMap, numWheels, HandlesOf(old(wheels)), enum, |enum|)
    {
      ghost var hs := HandlesOf(wheels);
      var i := 0;
      while i < |enum|
        invariant 0 <= i <= |enum|
        invariant Valid() && active
        invariant numWheels <= |wheels| && wheels[..numWheels] == old(wheels)
        invariant HandlesOf(wheels[numWheels..]) == ArrivalsUpTo(hs, enum, i)
        invariant forall k :: numWheels <= k < |wheels| ==> fresh(wheels[k]) && wheels[k].spawned == 1 && wheels[k].joined == 0
        invariant MapRecords(wheelMap, numWheels, hs, enum, i)
      {
        ghost var before := wheels;
        MatchOne(enum, i, numWheels, wheelMap, hs);
        if enum[i] !in hs {
          AppendedWheel(before, wheels, numWheels);
        } else {
          assert ArrivalsUpTo(hs, enum, i + 1) == ArrivalsUpTo(hs, enum, i) + [];
        }
        i := i + 1;
      }
    }

    /**
     * One pass of the matching loop, for the enumerated handle at index `i`:
     * the first pre-tick entry carrying that handle has `i` recorded for it;
     * if no pre-tick entry carries it, a new started wheel for it is appended.
     */
    method MatchOne(enum: seq<H>, i: nat, numWheels: nat, wheelMap: array<int>, ghost hs: seq<H>)
      requires i < |enum| && Valid() && active
      requires numWheels <= |wheels| && numWheels <= wheelMap.Length && hs == HandlesOf(wheels[..numWheels])
      requires MapRecords(wheelMap, numWheels, hs, enum, i)
      modifies this`wheels, wheelMap
      ensures Valid() && active
      ensures enum[i] in hs ==> wheels == old(wheels)
      ensures enum[i] !in hs ==>
        && |wheels| == |old(wheels)| + 1 && wheels[..|old(wheels)|] == old(wheels)
        && var w := wheels[|old(wheels)|]; fresh(w) && w.racingWheel == enum[i] && w.spawned == 1 && w.joined == 0
      ensures MapRecords(wheelMap, numWheels, hs, enum, i + 1)
    {
      var wheelFound, j := FindWheel(enum[i], numWheels);
      forall j' | 0 <= j' < numWheels
        ensures Matched(hs, j', enum[..i + 1]) <==> Matched(hs, j', enum[..i]) || (wheelFound && j' == j)
      {
        MatchedExtend(hs, enum, i, j');
        if wheelFound && hs[j'] == enum[i] && FirstOccurrence(hs, j') {
          FirstOccurrenceUnique(hs, j, j');
        }
      }
      if wheelFound {
        assert hs[j] == enum[i];
        wheelMap[j] := i;
      } else {
        assert enum[i] !in hs;
        // handle a new wheel
        var w := AddWheel(enum[i]);
      }
    }

    /** Handles a new wheel: appends a wheel created for `h` to the registry and starts it. */
    method AddWheel(h: H) returns (w: Wheel<H>)
      requires Valid() && active
      modifies this`wheels
      ensures Valid() && active
      ensures fresh(w) && wheels == old(wheels) + [w]
      ensures w.racingWheel == h && w.spawned == 1 && w.joined == 0
    {
      w := new Wheel(h);
      wheels := wheels + [w];
      w.Start();
    }

    /**
     * The search of the pre-tick entries for an enumerated handle: the first
     * of the first `numWheels` entries whose wheel was created for `x`, if
     * there is one.
     */
    method FindWheel(x: H, numWheels: nat) returns (wheelFound: bool, j: nat)
      requires numWheels <= |wheels|
      ensures wheelFound ==> j < numWheels && wheels[j].racingWheel == x
      ensures wheelFound ==> forall k :: 0 <= k < j ==> wheels[k].racingWheel != x
      ensures !wheelFound ==> forall k :: 0 <= k < numWheels ==> wheels[k].racingWheel != x
    {
      wheelFound := false;
      j := 0;
      while j < numWheels
        invariant 0 <= j <= numWheels && !wheelFound
        invariant forall k :: 0 <= k < j ==> wheels[k].racingWheel != x
      {
        if wheels[j].racingWheel == x {
          wheelFound := true;
          return;
        }
        j := j + 1;
      }
    }

    /**
     * The removal half of a tick: from the last pre-tick entry down to the
     * first, stop and erase each entry that was not matched or whose wheel no
     * longer runs. `keep` names, for the reader and the proof, the entries
     * that stay.
     */
    method RemoveStale(numWheels: nat, wheelMap: array<int>, ghost keep: seq<bool>)
      requires NoDup(wheels) && forall j :: 0 <= j < |wheels| ==> wheels[j].Valid() && wheels[j].active
      requires numWheels <= |wheels| && numWheels <= wheelMap.Length && |keep| == numWheels
      requires forall j :: 0 <= j < numWheels ==> keep[j] == (wheelMap[j] != WHEEL_NOT_FOUND)
      modifies this`wheels, wheels
      ensures wheels == Select(old(wheels)[..numWheels], keep) + old(wheels)[numWheels..]
      ensures forall j :: 0 <= j < |old(wheels)| && (numWheels <= j || keep[j]) ==> old(wheels)[j].KeptRunning()
      ensures forall j :: 0 <= j < numWheels && !keep[j] ==> old(wheels)[j].JoinedOnce()
    {
      ghost var W := wheels;
      ghost var Wn := W[..numWheels];
      var i: int := numWheels - 1;
      assert W[..i + 1] == Wn && SelectFrom(Wn, keep, i + 1) == [];
      while i >= 0
        invariant -1 <= i < numWheels
        invariant wheels == W[..i + 1] + SelectFrom(Wn, keep, i + 1) + W[numWheels..]
        invariant forall j :: 0 <= j < |W| ==>
          if j <= i || numWheels <= j || keep[j] then W[j].KeptRunning() else W[j].JoinedOnce()
      {
        assert W[i].KeptRunning();
        var erased := EraseIfStale(i, wheelMap, W, numWheels, keep);
        forall j | 0 <= j < |W|
          ensures if j < i || numWheels <= j || keep[j] then W[j].KeptRunning() else W[j].JoinedOnce()
        {
          if j != i {
            assert W[j] != W[i];
          }
        }
        i := i - 1;
      }
      assert W[..0] == [];
      assert wheels == Select(Wn, keep) + W[numWheels..];
    }

    /**
     * One pass of the removal loop, for registry position `i`: if the entry
     * was not matched or its wheel no longer runs, stop the wheel and erase
     * the entry; otherwise leave the registry as it is.
     */
    method EraseIfStale(i: nat, wheelMap: array<int>, ghost W: seq<Wheel<H>>, ghost numWheels: nat, ghost keep: seq<bool>)
      returns (erased: bool)
      requires i < numWheels <= |W| && |keep| == numWheels && i < wheelMap.Length
      requires wheels == W[..i + 1] + SelectFrom(W[..numWheels], keep, i + 1) + W[numWheels..]
      requires W[i].Valid() && keep[i] == (wheelMap[i] != WHEEL_NOT_FOUND && W[i].active)
      modifies this`wheels, W[i]
      ensures wheels == W[..i] + SelectFrom(W[..numWheels], keep, i) + W[numWheels..]
      ensures erased == !keep[i]
      ensures erased ==>
        && W[i].Valid() && !W[i].active && W[i].spawned == old(W[i].spawned)
        && W[i].joined == old(W[i].joined) + (if old(W[i].active) then 1 else 0)
      ensures !erased ==> unchanged(W[i])
    {
      RemovalStep(W, numWheels, keep, i);
      // handle a disconnected wheel
      if wheelMap[i] == WHEEL_NOT_FOUND || !wheels[i].Running() {
        wheels[i].Stop();
        wheels := wheels[..i] + wheels[i + 1..];
        erased := true;
      } else {
        erased := false;
      }
    }

    /**
     * One iteration of the scanning loop, with the map from registry
     * position to enumeration index sized to the registry.
     *
     * The registry becomes the pre-tick entries that were matched and still
     * running, in their order and as the same wheel objects, followed by one
     * new started wheel per enumerated handle that matched no pre-tick
     * entry. Every removed wheel has been stopped and its thread joined.
     */
    method Tick(enum: seq<H>)
      requires Valid() && active
      modifies this`wheels, wheels
      ensures Valid() && active
      ensures HandlesOf(wheels) == Reconciled(HandlesOf(old(wheels)), old(AliveOf(wheels)), enum)
      ensures var kept := Select(old(wheels), KeepMask(HandlesOf(old(wheels)), old(AliveOf(wheels)), enum));
        |kept| <= |wheels| && wheels[..|kept|] == kept
        && forall k :: |kept| <= k < |wheels| ==> fresh(wheels[k]) && wheels[k].spawned == 1 && wheels[k].joined == 0
      ensures var keep := KeepMask(HandlesOf(old(wheels)), old(AliveOf(wheels)), enum);
        forall j :: 0 <= j < |old(wheels)| ==> if keep[j] then old(wheels)[j].KeptRunning() else old(wheels)[j].JoinedOnce()
    {
      var numWheels := |wheels|;
      var wheelMap := new int[numWheels](_ => WHEEL_NOT_FOUND);
      Reconcile(enum, numWheels, wheelMap);
    }

    /**
     * One iteration of the scanning loop as the source writes it: the map
     * from registry position to enumeration index has MAX_WHEELS slots, so
     * the tick is only defined while the registry holds at most MAX_WHEELS
     * entries.
     */
    method TickAsWritten(enum: seq<H>)
      requires Valid() && active
      requires |wheels| <= MAX_WHEELS
      modifies this`wheels, wheels
      ensures Valid() && active
      ensures HandlesOf(wheels) == Reconciled(HandlesOf(old(wheels)), old(AliveOf(wheels)), enum)
      ensures var kept := Select(old(wheels), KeepMask(HandlesOf(old(wheels)), old(AliveOf(wheels)), enum));
        |kept| <= |wheels| && wheels[..|kept|] == kept
        && forall k :: |kept| <= k < |wheels| ==> fresh(wheels[k]) && wheels[k].spawned == 1 && wheels[k].joined == 0
      ensures var keep := KeepMask(HandlesOf(old(wheels)), old(AliveOf(wheels)), enum);
        forall j :: 0 <= j < |old(wheels)| ==> if keep[j] then old(wheels)[j].KeptRunning() else old(wheels)[j].JoinedOnce()
    {
      var numWheels := |wheels|;
      var wheelMap := new int[MAX_WHEELS](_ => WHEEL_NOT_FOUND);
      Reconcile(enum, numWheels, wheelMap);
    }

    /** The body shared by both ticks, given the freshly filled map. */
    method Reconcile(enum: seq<H>, numWheels: nat, wheelMap: array<int>)
      requires Valid() && active
      requires numWheels == |wheels| <= wheelMap.Length
      requires forall j :: 0 <= j < wheelMap.Length ==> wheelMap[j] == WHEEL_NOT_FOUND
      modifies this`wheels, wheelMap, wheels
      ensures Valid() && active
      ensures HandlesOf(wheels) == Reconciled(HandlesOf(old(wheels)), old(AliveOf(wheels)), enum)
      ensures var kept := Select(old(wheels), KeepMask(HandlesOf(old(wheels)), old(AliveOf(wheels)), enum));
        |kept| <= |wheels| && wheels[..|kept|] == kept
        && forall k :: |kept| <= k < |wheels| ==> fresh(wheels[k]) && wheels[k].spawned == 1 && wheels[k].joined == 0
      ensures var keep := KeepMask(HandlesOf(old(wheels)), old(AliveOf(wheels)), enum);
        forall j :: 0 <= j < |old(wheels)| ==> if keep[j] then old(wheels)[j].KeptRunning() else old(wheels)[j].JoinedOnce()
    {
      ghost var W0 := wheels;
      ghost var hs := HandlesOf(wheels);
      ghost var alive := AliveOf(wheels);
      ghost var keep := KeepMask(hs, alive, enum);
      MatchEnumeration(enum, numWheels, wheelMap);
      ghost var W1 := wheels;
      assert enum[..|enum|] == enum;
      forall j | 0 <= j < numWheels
        ensures keep[j] == (wheelMap[j] != WHEEL_NOT_FOUND)
      {
        assert W0[j].active;
      }
      RemoveStale(numWheels, wheelMap, keep);
      assert W1[..numWheels] == W0;
      KeptWheelsValid(W1, numWheels, keep);
      HandlesOfSelect(W0, keep);
      HandlesOfConcat(Select(W0, keep), W1[numWheels..]);
    }
  }

  /**
   * While every enumeration lists at most MAX_WHEELS distinct handles, the
   * registry never outgrows the map of MAX_WHEELS slots.
   */
  lemma RegistryWithinWheelMap<H>(hs: seq<H>, alive: seq<bool>, enum: seq<H>)
    requires |alive| == |hs| && NoDup(enum) && |enum| <= MAX_WHEELS
    ensures |Reconciled(hs, alive, enum)| <= MAX_WHEELS
  {
    ReconciledBound(hs, alive, enum);
  }

  /** From an empty registry, every enumerated handle arrives. */
  lemma {:induction false} ArrivalsIntoEmpty<H>(enum: seq<H>, i: nat)
    requires i <= |enum|
    ensures ArrivalsUpTo([], enum, i) == enum[..i]
  {
    if i > 0 {
      ArrivalsIntoEmpty(enum, i - 1);
      assert enum[..i] == enum[..i - 1] + [enum[i - 1]];
    }
  }

  /**
   * Nine distinct wheels enumerated on the first tick give a registry of
   * nine entries, one more than the map has slots: the next tick would
   * record a match for position MAX_WHEELS, outside the map.
   */
  lemma RegistryOutgrowsWheelMap()
    ensures |Reconciled([], [], [0, 1, 2, 3, 4, 5, 6, 7, 8])| == MAX_WHEELS + 1
  {
    var none: seq<int> := [];
    var enum := [0, 1, 2, 3, 4, 5, 6, 7, 8];
    ArrivalsIntoEmpty(enum, |enum|);
    assert enum[..|enum|] == enum;
    SelectNone(none, KeepMask(none, [], enum));
  }
}
