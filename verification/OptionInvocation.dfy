/** Recognising an option in recorded command lines, and the driver that injects options. */
module OptionInvocation {
  import opened Options
  import opened Text
  import opened Surfaces

  /** One recorded command; absent fields are empty. */
  datatype Record = Record(interface: string, argv: seq<string>, cliArgv: seq<string>,
                           apiCalls: seq<string>, signals: seq<string>)

  predicate IsOption(a: string) { a != "--" && StartsWith(a, "-") }

  /** The argument is the option, bare or with a value. */
  predicate Gives(a: string, option: string) { a == option || StartsWith(a, option + "=") }

  /** The option is given before the first argument that is not an option. */
  predicate Leading(args: seq<string>, option: string) {
    args != [] && IsOption(args[0]) && (Gives(args[0], option) || Leading(args[1..], option))
  }

  /** The last `n` arguments, or all of them if there are fewer. */
  function Tail(argv: seq<string>, n: nat): seq<string> { if n <= |argv| then argv[|argv| - n..] else argv }

  /** The command line of the selected program, bare or below a wrapper. */
  function CliLine(r: Record, cli: string): Option<seq<string>> {
    if r.interface != "cli" || r.argv == [] then None
    else if r.argv[0] == cli then Some(r.argv)
    else if r.cliArgv != [] && r.cliArgv[0] == cli && Tail(r.argv, |r.cliArgv|) == r.cliArgv then Some(r.cliArgv)
    else None
  }

  predicate Invoked(r: Record, cli: string, command: string, option: string) {
    match CliLine(r, cli)
    case None => false
    case Some(line) => |line| >= 2 && line[1] == command && Leading(line[2..], option)
  }

  method InvokedOption(r: Record, cli: string, command: string, option: string) returns (b: bool)
    ensures b == Invoked(r, cli, command, option)
  {
    var argv := r.argv;
    if r.interface != "cli" || argv == [] {
      return false;
    }
    if argv[0] != cli {
      var inner := r.cliArgv;
      if inner == [] || inner[0] != cli || Tail(argv, |inner|) != inner {
        return false;
      }
      argv := inner;
    }
    if |argv| < 2 || argv[1] != command {
      return false;
    }
    var arguments := argv[2..];
    for i := 0 to |arguments|
      invariant Leading(arguments, option) == Leading(arguments[i..], option)
    {
      assert arguments[i..][0] == arguments[i] && arguments[i..][1..] == arguments[i + 1..];
      if arguments[i] == "--" || !StartsWith(arguments[i], "-") {
        return false;
      }
      if arguments[i] == option || StartsWith(arguments[i], option + "=") {
        return true;
      }
    }
    return false;
  }

  // ---------------------------------------------------------------------------
  // The driver

  /** The first offset at which the program is called with the command. */
  function CallOffset(argv: seq<string>, cli: string, command: string, offset: nat): (r: Option<nat>)
    ensures r.Some? ==> offset <= r.value < |argv| - 1 && argv[r.value] == cli && argv[r.value + 1] == command
    ensures forall k :: offset <= k < (if r.Some? then r.value else |argv| - 1) ==>
              !(argv[k] == cli && argv[k + 1] == command)
    decreases |argv| - offset
  {
    if offset + 1 >= |argv| then None
    else if argv[offset] == cli && argv[offset + 1] == command then Some(offset)
    else CallOffset(argv, cli, command, offset + 1)
  }

  function Inject(argv: seq<string>, offset: nat, options: seq<string>): seq<string>
    requires offset + 2 <= |argv|
  {
    argv[..offset + 2] + options + argv[offset + 2..]
  }

  /** What is recorded of an external call. */
  function Recorded(argv: seq<string>, interface: string, cli: string, command: string, options: seq<string>): Record {
    var call := if interface == "cli" then CallOffset(argv, cli, command, 0) else None;
    match call
    case None => Record(if interface == "setup" then "" else interface, argv, [], [], [])
    case Some(offset) =>
      var injected := Inject(argv, offset, options);
      Record("cli", injected, injected[offset..], [], [])
  }

  class EquivalentDriver {
    const cli: string
    const command: string
    const options: seq<string>
    var calls: nat
    var evidence: seq<Record>

    constructor (cli: string, command: string, options: seq<string>, evidence: seq<Record>)
      ensures this.cli == cli && this.command == command && this.options == options
      ensures calls == 0 && this.evidence == evidence
    {
      this.cli, this.command, this.options := cli, command, options;
      calls, this.evidence := 0, evidence;
    }

    /** Runs the command and records it. */
    method Execute(argv: seq<string>, interface: string)
      modifies this`evidence
      ensures evidence == old(evidence) + [Record(if interface == "setup" then "" else interface, argv, [], [], [])]
    {
      evidence := evidence + [Record(if interface == "setup" then "" else interface, argv, [], [], [])];
    }

    method ExternalCall(arguments: seq<string>, interface: string)
      modifies this
      ensures evidence == old(evidence) + [Recorded(arguments, interface, cli, command, options)]
      ensures calls == old(calls)
                    + (if interface == "cli" && CallOffset(arguments, cli, command, 0).Some? then 1 else 0)
    {
      var argv := arguments;
      var inner: Option<seq<string>> := None;
      if interface == "cli" {
        var offset := 0;
        while offset + 1 < |argv|
          invariant inner.None? && argv == arguments && calls == old(calls) && evidence == old(evidence)
          invariant CallOffset(arguments, cli, command, 0) == CallOffset(arguments, cli, command, offset)
        {
          if argv[offset] == cli && argv[offset + 1] == command {
            argv := argv[..offset + 2] + options + argv[offset + 2..];
            inner := Some(argv[offset..]);
            calls := calls + 1;
            break;
          }
          offset := offset + 1;
        }
      }
      Execute(argv, interface);
      if inner.Some? {
        var last := evidence[|evidence| - 1].(cliArgv := inner.value);
        evidence := evidence[|evidence| - 1 := last];
      }
    }
  }

  // ---------------------------------------------------------------------------
  // Laws

  /** What comes after the first argument that is not an option never changes the verdict. */
  lemma {:induction false} PayloadDoesNotCount(args: seq<string>, stop: string, a: seq<string>, b: seq<string>,
                                               option: string)
    requires !IsOption(stop)
    ensures Leading(args + [stop] + a, option) <==> Leading(args + [stop] + b, option)
  {
    if args == [] {
      assert (args + [stop] + a)[0] == stop && (args + [stop] + b)[0] == stop;
    } else {
      assert (args + [stop] + a)[1..] == args[1..] + [stop] + a;
      assert (args + [stop] + b)[1..] == args[1..] + [stop] + b;
      PayloadDoesNotCount(args[1..], stop, a, b, option);
    }
  }

  lemma {:induction false} GivenOptionLeads(options: seq<string>, rest: seq<string>, i: nat, option: string)
    requires i < |options| && Gives(options[i], option) && forall k :: 0 <= k < |options| ==> IsOption(options[k])
    ensures Leading(options + rest, option)
  {
    assert (options + rest)[1..] == options[1..] + rest;
    if i > 0 {
      GivenOptionLeads(options[1..], rest, i - 1, option);
    }
  }

  /** What is recorded, by the text of the command line: the options stand behind the first call of
      the program with the command, and the inner command line begins there.  Without such a call,
      and on any other interface, the command line is recorded as it is. */
  lemma {:induction false} RecordedByText(front: seq<string>, rest: seq<string>, interface: string, cli: string,
                                          command: string, options: seq<string>)
    ensures FirstCall(front, rest, cli, command) ==>
              Recorded(front + [cli, command] + rest, "cli", cli, command, options)
              == Record("cli", front + [cli, command] + options + rest, [cli, command] + options + rest, [], [])
    ensures (forall k :: 0 <= k < |rest| - 1 ==> !(rest[k] == cli && rest[k + 1] == command)) ==>
              Recorded(rest, "cli", cli, command, options) == Record("cli", rest, [], [], [])
    ensures interface !in {"cli", "setup"} ==>
              Recorded(rest, interface, cli, command, options) == Record(interface, rest, [], [], [])
    ensures Recorded(rest, "setup", cli, command, options) == Record("", rest, [], [], [])
  {
    if FirstCall(front, rest, cli, command) {
      var argv := front + [cli, command] + rest;
      assert argv[|front|] == cli && argv[|front| + 1] == command;
      assert CallOffset(argv, cli, command, 0) == Some(|front|);
      assert argv[..|front| + 2] == front + [cli, command] && argv[|front| + 2..] == rest;
      var injected := front + [cli, command] + options + rest;
      assert injected[|front|..] == [cli, command] + options + rest;
    }
  }

  /** The command line calls the program with the command behind `front`, and not before. */
  predicate FirstCall(front: seq<string>, rest: seq<string>, cli: string, command: string) {
    var argv := front + [cli, command] + rest;
    forall k :: 0 <= k < |front| ==> !(argv[k] == cli && argv[k + 1] == command)
  }

  /** An injected option is recognised in the recorded command exactly if the call is at
      the start of the command line or below a wrapper that is another program. */
  lemma {:induction false} InjectedOptionIsRecognised(argv: seq<string>, cli: string, command: string,
                                                      options: seq<string>, i: nat, option: string)
    requires CallOffset(argv, cli, command, 0).Some?
    requires i < |options| && Gives(options[i], option) && forall k :: 0 <= k < |options| ==> IsOption(options[k])
    ensures Invoked(Recorded(argv, "cli", cli, command, options), cli, command, option) <==>
            CallOffset(argv, cli, command, 0) == Some(0) || argv[0] != cli
  {
    var offset := CallOffset(argv, cli, command, 0).value;
    var injected := Inject(argv, offset, options);
    var inner := injected[offset..];
    GivenOptionLeads(options, argv[offset + 2..], i, option);
    hide Leading, Gives, IsOption;
    assert inner == [cli, command] + (options + argv[offset + 2..]);
    assert inner[2..] == options + argv[offset + 2..];
    assert injected[0] == argv[0];
    assert Tail(injected, |inner|) == inner;
    if offset > 0 && argv[0] == cli {
      assert injected[1] == argv[1] != command;
    }
  }

  /** Removes the fixed prefix and splits at the first dot. */
  function SplitId(id: string): Option<(string, string)> {
    SplitDot(if StartsWith(id, "cli.option.") then id[|"cli.option."|..] else id)
  }

  function SplitDot(s: string): Option<(string, string)> {
    if s == "" then None
    else if s[0] == '.' then Some(("", s[1..]))
    else match SplitDot(s[1..]) case None => None case Some((a, b)) => Some(([s[0]] + a, b))
  }

  lemma {:induction false} SplitAtFirstDot(a: string, b: string)
    ensures '.' !in a ==> SplitDot(a + "." + b) == Some((a, b))
    ensures '.' in a ==> SplitDot(a + "." + b).Some? && SplitDot(a + "." + b).value.0 != a
  {
    var s := a + "." + b;
    if a != "" {
      assert s[0] == a[0] && s[1..] == a[1..] + "." + b;
      assert a == [a[0]] + a[1..];
      SplitAtFirstDot(a[1..], b);
    } else {
      assert s[1..] == b;
    }
  }

  /** The identifier of an option splits back exactly if its command has no dot. */
  lemma {:induction false} OptionIdSplitsBack(command: string, name: string)
    ensures SplitId(OptionId(command, name)) == Some((command, name)) <==> '.' !in command
  {
    var id := OptionId(command, name);
    assert id == "cli.option." + (command + "." + name);
    assert id[..|"cli.option."|] == "cli.option." && id[|"cli.option."|..] == command + "." + name;
    SplitAtFirstDot(command, name);
  }

  /** So every identifier the generator builds splits back: its command is a registered name, or
      the word for the global options. */
  lemma GeneratedIdSplitsBack(command: string, name: string)
    requires command == "global" || exists value :: StringLiteral(value) == Some(command)
    ensures SplitId(OptionId(command, name)) == Some((command, name))
  {
    hide SplitId, OptionId;
    assert IsInterfaceName(command);
    forall k | 0 <= k < |command| ensures command[k] != '.' {
      assert IsNameChar(command[k]);
    }
    OptionIdSplitsBack(command, name);
  }

  /** The other case occurs: below a wrapper call of the program itself, the scan looks at the
      wrapper's command. */
  lemma SomeInjectionIsMissed(cli: string, command: string, wrapper: string, option: string)
    requires wrapper != command && wrapper != cli && IsOption(option)
    ensures var argv := [cli, wrapper, cli, command];
            CallOffset(argv, cli, command, 0) == Some(2)
            && !Invoked(Recorded(argv, "cli", cli, command, [option]), cli, command, option)
  {
    hide Invoked, Recorded;
    var argv := [cli, wrapper, cli, command];
    assert argv[0] == cli && argv[1] == wrapper && argv[2] == cli && argv[3] == command;
    assert CallOffset(argv, cli, command, 2) == Some(2);
    assert CallOffset(argv, cli, command, 1) == CallOffset(argv, cli, command, 2);
    InjectedOptionIsRecognised(argv, cli, command, [option], 0, option);
  }
}
