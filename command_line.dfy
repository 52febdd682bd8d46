/**
 * The command line of the service (src/main.cpp:41-67): `-t` switches on the
 * telemetry output; the first argument that is not `-t` makes the program
 * print its usage text and exit, successfully if that argument is `-h` and
 * with a failure status otherwise. The usage text itself is output and is
 * not modelled; an `Exit` outcome stands for "usage printed, then exit".
 */
module CommandLine {

  const EXIT_SUCCESS: int := 0
  const EXIT_FAILURE: int := 1

  const TelemetryOption: string := "-t"
  const HelpOption: string := "-h"

  /** What the argument loop decides: carry on with the telemetry flag, or leave `main` with an exit code. */
  datatype Outcome = Proceed(telemetry: bool) | Exit(code: int)

  /** The arguments after the program name; there are none when the program name itself is missing. */
  function Options(argv: seq<string>): seq<string> {
    if |argv| == 0 then [] else argv[1..]
  }

  /** The arguments from position `i` on, or none once `i` passes the end. */
  function From(argv: seq<string>, i: nat): seq<string> {
    if i <= |argv| then argv[i..] else []
  }

  /** Earlier `-t` options, seen before the outcome `o` of the remaining arguments. */
  function AfterTelemetry(sawTelemetry: bool, o: Outcome): Outcome {
    if o.Proceed? then Proceed(sawTelemetry || o.telemetry) else o
  }

  /** The exit code for a first argument other than `-t`. */
  function ExitCode(arg: string): int {
    if arg == HelpOption then EXIT_SUCCESS else EXIT_FAILURE
  }

  /** The decision the argument loop takes, one argument at a time from the left. */
  function Parse(args: seq<string>): Outcome {
    if args == [] then Proceed(false)
    else if args[0] == TelemetryOption then AfterTelemetry(true, Parse(args[1..]))
    else Exit(ExitCode(args[0]))
  }

  /**
   * The argument loop of `main`: walks the arguments after the program name,
   * sets the telemetry flag on `-t`, and returns at the first other argument.
   */
  method ParseArguments(argv: seq<string>) returns (outcome: Outcome)
    ensures outcome == Parse(Options(argv))
  {
    var telemetry := false;
    // parse command line arguments
    var i := 1;
    while i < |argv|
      invariant 1 <= i
      invariant Parse(Options(argv)) == AfterTelemetry(telemetry, Parse(From(argv, i)))
    {
      var arg := argv[i];
      assert From(argv, i)[1..] == From(argv, i + 1);
      if arg == TelemetryOption {
        telemetry := true;
      } else {
        // the usage text is printed here
        if arg == HelpOption {
          return Exit(EXIT_SUCCESS);
        } else {
          return Exit(EXIT_FAILURE);
        }
      }
      i := i + 1;
    }
    assert From(argv, i) == [];
    outcome := Proceed(telemetry);
  }

  /** With no arguments the program goes on, telemetry off. */
  lemma NoArguments(argv: seq<string>)
    requires |argv| <= 1
    ensures Parse(Options(argv)) == Proceed(false)
  {
    assert Options(argv) == [];
  }

  /** When every argument is `-t`, the program goes on, with telemetry on exactly when there was one. */
  lemma {:induction false} OnlyTelemetryOptions(args: seq<string>)
    requires forall k :: 0 <= k < |args| ==> args[k] == TelemetryOption
    ensures Parse(args) == Proceed(|args| > 0)
  {
    if args != [] {
      OnlyTelemetryOptions(args[1..]);
    }
  }

  /**
   * The first argument other than `-t` decides the exit: success for `-h`,
   * failure for anything else, whatever `-t` options came before it.
   */
  lemma {:induction false} FirstOtherDecides(args: seq<string>, k: nat)
    requires k < |args| && args[k] != TelemetryOption
    requires forall j :: 0 <= j < k ==> args[j] == TelemetryOption
    ensures Parse(args) == Exit(if args[k] == HelpOption then EXIT_SUCCESS else EXIT_FAILURE)
  {
    if k > 0 {
      FirstOtherDecides(args[1..], k - 1);
    }
  }

  /** The program goes on exactly when every argument is `-t`. */
  lemma ProceedsIff(args: seq<string>)
    ensures Parse(args).Proceed? <==> forall k :: 0 <= k < |args| ==> args[k] == TelemetryOption
  {
    if forall k :: 0 <= k < |args| ==> args[k] == TelemetryOption {
      OnlyTelemetryOptions(args);
    } else {
      var k := FirstOther(args);
      FirstOtherDecides(args, k);
    }
  }

  /** The position of the first argument other than `-t`, when there is one. */
  lemma FirstOther(args: seq<string>) returns (k: nat)
    requires exists k :: 0 <= k < |args| && args[k] != TelemetryOption
    ensures k < |args| && args[k] != TelemetryOption
    ensures forall j :: 0 <= j < k ==> args[j] == TelemetryOption
  {
    k := 0;
    while args[k] == TelemetryOption
      invariant k < |args|
      invariant forall j :: 0 <= j < k ==> args[j] == TelemetryOption
      decreases |args| - k
    {
      k := k + 1;
    }
  }

  /** Arguments after the first one other than `-t` are never examined. */
  lemma LaterArgumentsIgnored(args: seq<string>, k: nat, rest: seq<string>)
    requires k < |args| && args[k] != TelemetryOption
    requires forall j :: 0 <= j < k ==> args[j] == TelemetryOption
    ensures Parse(args[..k + 1] + rest) == Parse(args)
  {
    var cut := args[..k + 1] + rest;
    assert forall j :: 0 <= j <= k ==> cut[j] == args[j];
    FirstOtherDecides(cut, k);
    FirstOtherDecides(args, k);
  }

  /** A repeated `-t` has the effect of a single one. */
  lemma RepeatedTelemetryOption(args: seq<string>)
    ensures Parse([TelemetryOption, TelemetryOption] + args) == Parse([TelemetryOption] + args)
  {
    var one := [TelemetryOption] + args;
    var two := [TelemetryOption] + one;
    assert [TelemetryOption, TelemetryOption] + args == two;
    assert two[1..] == one;
    assert one[1..] == args;
  }

  /** A `-t` placed before arguments that end in an exit does not change that exit. */
  lemma TelemetryBeforeExit(args: seq<string>)
    requires Parse(args).Exit?
    ensures Parse([TelemetryOption] + args) == Parse(args)
  {
    assert ([TelemetryOption] + args)[1..] == args;
  }
}
