/** `parse_args` of the command-line front end (cli/src/main.rs, and the
    identical function of the prototype src/main.rs): a state machine over
    the arguments after the program name. A positional argument is the ISO
    path, `--config X` sets the config path, any other `--flag` is recorded
    as unexpected and swallows the argument after it, and an argument with
    a single leading `-` is ignored. Paths are kept as strings. */
module ArgParsing {
  import opened Common

  datatype ArgParseState = NoState | ExpectingFilepath | ExpectingConfigpath | UnexpectedArg

  datatype XbPatchArgs = XbPatchArgs(
    isoPath: Option<string>,
    configPath: Option<string>,
    unexpectedArgs: seq<string>)

  datatype ArgError = InvalidArgState | IsoSpecifiedMultipleTimes

  /** `XBPatchArgs::default()`. */
  const DEFAULT_ARGS := XbPatchArgs(None, None, [])

  predicate StartsWith(s: string, prefix: string)
  {
    |prefix| <= |s| && s[..|prefix|] == prefix
  }

  /** A `--flag` other than `--config`. */
  predicate IsUnknownFlag(arg: string)
  {
    StartsWith(arg, "--") && arg != "--config"
  }

  /** One iteration of the loop: the new state and arguments, or the error
      that returns at once. */
  function Step(state: ArgParseState, acc: XbPatchArgs, arg: string): Result<(ArgParseState, XbPatchArgs), ArgError>
  {
    match state
    case NoState =>
      if StartsWith(arg, "-") then
        if StartsWith(arg, "--") then
          if arg == "--config" then Ok((ExpectingConfigpath, acc))
          else Ok((UnexpectedArg, acc.(unexpectedArgs := acc.unexpectedArgs + [arg])))
        else Ok((NoState, acc))
      else if acc.isoPath.Some? then Err(IsoSpecifiedMultipleTimes)
      else Ok((NoState, acc.(isoPath := Some(arg))))
    case ExpectingFilepath => Ok((NoState, acc.(isoPath := Some(arg))))
    case ExpectingConfigpath => Ok((NoState, acc.(configPath := Some(arg))))
    case UnexpectedArg => Ok((NoState, acc))
  }

  /** The loop run over `xs` from the initial state; the first error stops it. */
  function Run(xs: seq<string>): Result<(ArgParseState, XbPatchArgs), ArgError>
  {
    if |xs| == 0 then Ok((NoState, DEFAULT_ARGS))
    else
      match Run(xs[..|xs| - 1])
      case Err(e) => Err(e)
      case Ok(sa) => Step(sa.0, sa.1, xs[|xs| - 1])
  }

  /** `args.skip(1)`. */
  function SkipProgramName(args: seq<string>): seq<string>
  {
    if |args| == 0 then [] else args[1..]
  }

  /** What `parse_args` returns: the arguments when the loop ends in
      `NoState`, `InvalidArgState` when it ends waiting for a value. */
  function ParseSpec(args: seq<string>): Result<XbPatchArgs, ArgError>
  {
    match Run(SkipProgramName(args))
    case Err(e) => Err(e)
    case Ok(sa) => if sa.0 == NoState then Ok(sa.1) else Err(InvalidArgState)
  }

  /** `parse_args`: the loop over the arguments, updating `state` and the
      fields of the result in place. */
  method ParseArgs(args: seq<string>) returns (r: Result<XbPatchArgs, ArgError>)
    ensures r == ParseSpec(args)
  {
    var state := NoState;
    var retArgs := DEFAULT_ARGS;
    var rest := SkipProgramName(args);
    for i := 0 to |rest|
      invariant Run(rest[..i]) == Ok((state, retArgs))
    {
      var arg := rest[i];
      assert rest[..i + 1][..i] == rest[..i];
      match state {
        case NoState =>
          if StartsWith(arg, "-") {
            if StartsWith(arg, "--") {
              if arg == "--config" {
                state := ExpectingConfigpath;
              } else {
                state := UnexpectedArg;
                retArgs := retArgs.(unexpectedArgs := retArgs.unexpectedArgs + [arg]);
              }
            }
          } else {
            if retArgs.isoPath.Some? {
              assert Run(rest[..i + 1]) == Err(IsoSpecifiedMultipleTimes);
              FailedSticks(rest[..i + 1], rest[i + 1..]);
              assert rest[..i + 1] + rest[i + 1..] == rest;
              return Err(IsoSpecifiedMultipleTimes);
            }
            retArgs := retArgs.(isoPath := Some(arg));
          }
        case ExpectingFilepath =>
          retArgs := retArgs.(isoPath := Some(arg));
          state := NoState;
        case ExpectingConfigpath =>
          retArgs := retArgs.(configPath := Some(arg));
          state := NoState;
        case UnexpectedArg =>
          state := NoState;
      }
    }
    assert rest[..|rest|] == rest;
    if state == NoState {
      r := Ok(retArgs);
    } else {
      r := Err(InvalidArgState);
    }
  }

  /** The first argument, the program name, plays no part. */
  lemma FirstArgSkipped(prog1: string, prog2: string, rest: seq<string>)
    ensures ParseSpec([prog1] + rest) == ParseSpec([prog2] + rest)
  {
    assert ([prog1] + rest)[1..] == rest;
    assert ([prog2] + rest)[1..] == rest;
  }

  /** Once the loop has returned an error, further arguments change nothing. */
  lemma {:induction false} FailedSticks(xs: seq<string>, ys: seq<string>)
    requires Run(xs).Err?
    ensures Run(xs + ys) == Run(xs)
  {
    if |ys| > 0 {
      var init := ys[..|ys| - 1];
      assert |xs + ys| > 0;
      assert (xs + ys)[..|xs + ys| - 1] == xs + init;
      FailedSticks(xs, init);
      assert Run(xs + init) == Run(xs);
    } else {
      assert xs + ys == xs;
    }
  }

  /** No transition enters `ExpectingFilepath`. */
  lemma {:induction false} NeverExpectingFilepath(xs: seq<string>)
    requires Run(xs).Ok?
    ensures Run(xs).value.0 != ExpectingFilepath
  {
    if |xs| > 0 {
      NeverExpectingFilepath(xs[..|xs| - 1]);
    }
  }

  /** Once set, the ISO path never changes: the loop never enters the one
      state that would overwrite it, and a second positional argument is
      an error. */
  lemma {:induction false} IsoPathKept(xs: seq<string>, ys: seq<string>)
    requires Run(xs).Ok? && Run(xs).value.1.isoPath.Some?
    requires Run(xs + ys).Ok?
    ensures Run(xs + ys).value.1.isoPath == Run(xs).value.1.isoPath
  {
    if |ys| > 0 {
      var init := ys[..|ys| - 1];
      assert (xs + ys)[..|xs + ys| - 1] == xs + init;
      IsoPathKept(xs, init);
      NeverExpectingFilepath(xs + init);
    } else {
      assert xs + ys == xs;
    }
  }

  /** A second positional argument, when the loop is ready for one, is
      `IsoSpecifiedMultipleTimes`, whatever follows. */
  lemma SecondIsoFails(xs: seq<string>, arg: string, ys: seq<string>)
    requires Run(xs).Ok? && Run(xs).value.0 == NoState && Run(xs).value.1.isoPath.Some?
    requires !StartsWith(arg, "-")
    ensures Run(xs + [arg] + ys) == Err(IsoSpecifiedMultipleTimes)
  {
    assert (xs + [arg])[..|xs|] == xs;
    FailedSticks(xs + [arg], ys);
  }

  /** `--config X` sets the config path to X, and a later `--config` wins. */
  lemma ConfigSets(xs: seq<string>, c: string)
    requires Run(xs).Ok? && Run(xs).value.0 == NoState
    ensures Run(xs + ["--config", c]) ==
      Ok((NoState, Run(xs).value.1.(configPath := Some(c))))
  {
    assert (xs + ["--config", c])[..|xs| + 1] == xs + ["--config"];
    assert (xs + ["--config"])[..|xs|] == xs;
  }

  /** An unknown `--flag` is recorded and the argument after it is dropped,
      whatever it is. */
  lemma UnexpectedRecorded(xs: seq<string>, flag: string, next: string)
    requires Run(xs).Ok? && Run(xs).value.0 == NoState
    requires IsUnknownFlag(flag)
    ensures Run(xs + [flag, next]) ==
      Ok((NoState, Run(xs).value.1.(unexpectedArgs := Run(xs).value.1.unexpectedArgs + [flag])))
  {
    var a := Run(xs).value.1;
    assert (xs + [flag])[..|xs|] == xs;
    assert Run(xs + [flag]) == Ok((UnexpectedArg, a.(unexpectedArgs := a.unexpectedArgs + [flag])));
    assert (xs + [flag, next])[..|xs| + 1] == xs + [flag];
  }

  /** An argument with one leading dash (and not two) is ignored. */
  lemma SingleDashIgnored(xs: seq<string>, arg: string)
    requires Run(xs).Ok? && Run(xs).value.0 == NoState
    requires StartsWith(arg, "-") && !StartsWith(arg, "--")
    ensures Run(xs + [arg]) == Run(xs)
  {
    assert (xs + [arg])[..|xs|] == xs;
  }

  /** A trailing `--config` or unknown `--flag` leaves the loop waiting for
      a value, which is `InvalidArgState`. */
  lemma TrailingFlagInvalid(prog: string, xs: seq<string>, flag: string)
    requires Run(xs).Ok? && Run(xs).value.0 == NoState
    requires StartsWith(flag, "--")
    ensures ParseSpec([prog] + xs + [flag]) == Err(InvalidArgState)
  {
    assert ([prog] + xs + [flag])[1..] == xs + [flag];
    assert (xs + [flag])[..|xs|] == xs;
  }

  /** Nothing is invented: the paths are arguments that were given, and the
      unexpected arguments are exactly unknown `--flag`s that were given. */
  lemma {:induction false} ResultFromArgs(xs: seq<string>)
    requires Run(xs).Ok?
    ensures Run(xs).value.1.isoPath.Some? ==> Run(xs).value.1.isoPath.value in xs
    ensures Run(xs).value.1.configPath.Some? ==> Run(xs).value.1.configPath.value in xs
    ensures forall u :: u in Run(xs).value.1.unexpectedArgs ==> u in xs && IsUnknownFlag(u)
  {
    if |xs| > 0 {
      var init := xs[..|xs| - 1];
      ResultFromArgs(init);
      assert forall u :: u in init ==> u in xs;
    }
  }

  /** The two-argument usage `xbpatch game.iso --config game.json`. */
  lemma UsageExample()
    ensures ParseSpec(["xbpatch", "game.iso", "--config", "game.json"]) ==
      Ok(XbPatchArgs(Some("game.iso"), Some("game.json"), []))
  {
    var rest := ["game.iso", "--config", "game.json"];
    assert SkipProgramName(["xbpatch", "game.iso", "--config", "game.json"]) == rest;
    assert rest[..2] == ["game.iso", "--config"];
    assert rest[..2][..1] == ["game.iso"];
    assert rest[..2][..1][..0] == [];
    assert "game.iso"[..1] == "g";
    var a := XbPatchArgs(Some("game.iso"), None, []);
    assert Run(["game.iso"]) == Ok((NoState, a));
    assert "--config"[..1] == "-" && "--config"[..2] == "--";
    assert Run(["game.iso", "--config"]) == Ok((ExpectingConfigpath, a));
  }
}
