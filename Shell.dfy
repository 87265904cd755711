/**
 * Terminal.java: the dispatcher.  It keeps the registered commands, the
 * registered listeners and the stop flag, reads lines until a line
 * resolves to an exit command, and hands each resolved invocation to its
 * command.  Each method here is proved to compute what the functions of
 * LineParser define.  What a command does when it runs is a parameter
 * `body`; what a listener does with an event is a parameter `consumes`.
 */
module Shell {
  import opened Wrappers
  import opened Errors
  import opened Strings
  import opened Arguments
  import opened Commands
  import opened ExitCommand
  import opened LineParser
  import opened Invocations
  import opened Events

  /** A CommandListener; only its identity matters to the terminal. */
  class Listener {
    constructor () {}
  }

  // ----- propagateCommand -----

  /**
   * The listeners an event reaches: each in turn, stopping after the
   * first one that leaves the event consumed.
   */
  function Notified(ls: seq<Listener>, consumed: bool, consumes: Listener -> bool): (r: seq<Listener>)
    ensures |r| <= |ls| && r == ls[..|r|]
    ensures ls != [] ==> r != []
  {
    if ls == [] then []
    else if consumed || consumes(ls[0]) then [ls[0]]
    else
      var rest := Notified(ls[1..], false, consumes);
      assert ls[1..][..|rest|] == ls[1..|rest| + 1];
      [ls[0]] + rest
  }

  /** Only the last listener notified may consume the event, and no consumer is skipped. */
  lemma {:induction false} NotifiedStopsAtConsumer(ls: seq<Listener>, consumed: bool, consumes: Listener -> bool)
    ensures var r := Notified(ls, consumed, consumes);
      && (forall i :: 0 <= i < |r| - 1 ==> !consumes(r[i]))
      && (consumed ==> |r| <= 1)
      && (|r| < |ls| ==> consumed || consumes(r[|r| - 1]))
  {
    if ls != [] && !consumed && !consumes(ls[0]) {
      NotifiedStopsAtConsumer(ls[1..], false, consumes);
      var rest := Notified(ls[1..], false, consumes);
      assert Notified(ls, consumed, consumes) == [ls[0]] + rest;
    }
  }

  /** When no listener consumes, every listener is notified. */
  lemma {:induction false} NotifiedAllWhenNoneConsumes(ls: seq<Listener>, consumes: Listener -> bool)
    requires forall i :: 0 <= i < |ls| ==> !consumes(ls[i])
    ensures Notified(ls, false, consumes) == ls
  {
    if ls != [] {
      assert forall i :: 0 <= i < |ls[1..]| ==> ls[1..][i] == ls[i + 1];
      NotifiedAllWhenNoneConsumes(ls[1..], consumes);
    }
  }

  /** Notification stops at the first listener that consumes the event (the first one, if it came consumed). */
  lemma {:induction false} NotifiedUpTo(ls: seq<Listener>, i: nat, consumed: bool, consumes: Listener -> bool)
    requires i < |ls|
    requires forall j :: 0 <= j < i ==> !consumes(ls[j])
    requires 0 < i ==> !consumed
    requires (i == 0 && consumed) || consumes(ls[i])
    ensures Notified(ls, consumed, consumes) == ls[..i + 1]
  {
    if 0 < i {
      NotifiedUpTo(ls[1..], i - 1, false, consumes);
      assert ls[..i + 1] == [ls[0]] + ls[1..][..i];
    }
  }

  /** `xs` without `x`, the rest in order. */
  function Without<T(==)>(xs: seq<T>, x: T): (r: seq<T>)
    ensures x !in r
    ensures forall i :: 0 <= i < |r| ==> r[i] in xs && r[i] != x
    ensures forall i :: 0 <= i < |xs| && xs[i] != x ==> xs[i] in r
    ensures |r| <= |xs|
    ensures x !in xs ==> r == xs
  {
    if xs == [] then []
    else if xs[0] == x then Without(xs[1..], x)
    else [xs[0]] + Without(xs[1..], x)
  }

  predicate Distinct<T(==)>(xs: seq<T>) {
    forall i, j :: 0 <= i < j < |xs| ==> xs[i] != xs[j]
  }

  /** Removing an element keeps the others distinct, and one occurrence goes. */
  lemma {:induction false} WithoutDistinct<T>(xs: seq<T>, x: T)
    requires Distinct(xs)
    ensures Distinct(Without(xs, x))
    ensures x in xs ==> |Without(xs, x)| == |xs| - 1
  {
    if xs != [] {
      assert Distinct(xs[1..]);
      WithoutDistinct(xs[1..], x);
      if xs[0] == x {
        assert x !in xs[1..];
        assert Without(xs[1..], x) == xs[1..];
      } else {
        var r := Without(xs[1..], x);
        assert xs[0] !in r;
        assert [xs[0]] + r == Without(xs, x);
        forall i, j | 0 <= i < j < |[xs[0]] + r| ensures ([xs[0]] + r)[i] != ([xs[0]] + r)[j] {
          if i == 0 {
            assert ([xs[0]] + r)[j] == r[j - 1];
            assert r[j - 1] in r;
          }
        }
      }
    }
  }

  // ----- parseLine and run -----

  /** What a line of input led to. */
  datatype LineOutcome =
    | Blank
    | NoSuchCommand
    | Rejected(error: LineError)
    | Ran(command: string, kind: CommandKind, arguments: map<string, Option<Value>>, result: ExecOutcome)
  {
    /** parseLine raises the stop flag exactly when the command it ran is an exit command. */
    predicate Stops() {
      Ran? && kind == Exit
    }
  }

  /** runCommand: the exit command does nothing; any other runs its body. */
  function Execute(cv: CommandView, bound: map<string, Option<Value>>,
                   body: (string, map<string, Option<Value>>) -> ExecOutcome): (r: ExecOutcome)
    ensures cv.kind == Exit ==> r == Completed
  {
    if cv.kind == Exit then Completed else body(cv.name, bound)
  }

  /** The outcomes one line read by run may have; a refused line may report any admissible error. */
  predicate OutcomeAllowed(registry: map<string, CommandView>, exit: CommandView, line: string,
                           body: (string, map<string, Option<Value>>) -> ExecOutcome, o: LineOutcome)
  {
    if |line| < 1 then o == Blank
    else
      match Judge(registry, exit, Trim(line))
      case Unresolved => o == NoSuchCommand
      case Refused => o.Rejected? && AdmissibleLineError(registry, exit, Trim(line), o.error)
      case Accepted(cv, bound) => o == Ran(cv.name, cv.kind, bound, Execute(cv, bound, body))
  }

  /** A line that sets the stop flag: it resolves, with its arguments, to an exit command. */
  predicate StopsOn(registry: map<string, CommandView>, exit: CommandView, line: string)
  {
    |line| >= 1 && Judge(registry, exit, Trim(line)).Accepted? && Judge(registry, exit, Trim(line)).command.kind == Exit
  }

  /**
   * run reads exactly the first n lines: it stops at none before the n-th,
   * and it reads them all unless the n-th stops it.
   */
  predicate ReadsExactly(registry: map<string, CommandView>, exit: CommandView, lines: seq<string>, n: nat) {
    && n <= |lines|
    && (forall j :: 0 <= j < n - 1 ==> !StopsOn(registry, exit, lines[j]))
    && (n < |lines| ==> 0 < n && StopsOn(registry, exit, lines[n - 1]))
  }

  /** Only one number of lines read meets ReadsExactly, so it fixes how long run goes on. */
  lemma ReadsExactlyUnique(registry: map<string, CommandView>, exit: CommandView, lines: seq<string>, n: nat, m: nat)
    requires ReadsExactly(registry, exit, lines, n) && ReadsExactly(registry, exit, lines, m)
    ensures n == m
  {
  }

  /** An allowed outcome stops the terminal exactly when its line does. */
  lemma OutcomeStops(registry: map<string, CommandView>, exit: CommandView, line: string,
                     body: (string, map<string, Option<Value>>) -> ExecOutcome, o: LineOutcome)
    requires OutcomeAllowed(registry, exit, line, body, o)
    ensures o.Stops() <==> StopsOn(registry, exit, line)
  {
  }

  /** The last outcome of the log stopped the terminal. */
  predicate LastStops(log: seq<LineOutcome>) {
    0 < |log| && log[|log| - 1].Stops()
  }

  /**
   * The log of a run over lineCount lines: no outcome but the last stopped
   * the terminal, and the log is shorter than the input only if the last did.
   */
  predicate EndsAtStop(lineCount: nat, log: seq<LineOutcome>) {
    && |log| <= lineCount
    && (forall j :: 0 <= j < |log| - 1 ==> !log[j].Stops())
    && (|log| < lineCount ==> LastStops(log))
  }

  /** A log that ends at its first stop, each of whose outcomes is allowed, has read exactly the lines up to the first that stops. */
  lemma {:induction false} LogReadsExactly(registry: map<string, CommandView>, exit: CommandView, lines: seq<string>,
                                           body: (string, map<string, Option<Value>>) -> ExecOutcome, log: seq<LineOutcome>)
    requires EndsAtStop(|lines|, log)
    requires forall i :: 0 <= i < |log| ==> OutcomeAllowed(registry, exit, lines[i], body, log[i])
    ensures ReadsExactly(registry, exit, lines, |log|)
  {
    forall j | 0 <= j < |log| ensures log[j].Stops() <==> StopsOn(registry, exit, lines[j]) {
      OutcomeStops(registry, exit, lines[j], body, log[j]);
    }
  }

  /** What run's loop keeps: every outcome so far is allowed, and the log ends at its first stop, if any. */
  predicate RunSoFar(registry: map<string, CommandView>, exit: CommandView, lines: seq<string>,
                     body: (string, map<string, Option<Value>>) -> ExecOutcome, log: seq<LineOutcome>, stop: bool)
  {
    && |log| <= |lines|
    && (forall j :: 0 <= j < |log| ==> OutcomeAllowed(registry, exit, lines[j], body, log[j]))
    && (forall j :: 0 <= j < |log| - 1 ==> !log[j].Stops())
    && stop == LastStops(log)
  }

  /** Reading the next line, while the terminal has not stopped, keeps RunSoFar. */
  lemma RunSoFarStep(registry: map<string, CommandView>, exit: CommandView, lines: seq<string>,
                     body: (string, map<string, Option<Value>>) -> ExecOutcome, log: seq<LineOutcome>, o: LineOutcome)
    requires RunSoFar(registry, exit, lines, body, log, false) && |log| < |lines|
    requires OutcomeAllowed(registry, exit, lines[|log|], body, o)
    ensures RunSoFar(registry, exit, lines, body, log + [o], o.Stops())
  {
    AllowedExtend(registry, exit, lines, body, log, o);
    StopsExtend(log, o);
  }

  /** Appending an outcome to a log that has not stopped leaves the new one as the only possible stop. */
  lemma StopsExtend(log: seq<LineOutcome>, o: LineOutcome)
    requires forall j :: 0 <= j < |log| - 1 ==> !log[j].Stops()
    requires !LastStops(log)
    ensures LastStops(log + [o]) == o.Stops()
    ensures forall j :: 0 <= j < |log + [o]| - 1 ==> !(log + [o])[j].Stops()
  {
  }

  /** One more allowed outcome, for the next line, keeps every outcome of the log allowed. */
  lemma AllowedExtend(registry: map<string, CommandView>, exit: CommandView, lines: seq<string>,
                      body: (string, map<string, Option<Value>>) -> ExecOutcome, log: seq<LineOutcome>, o: LineOutcome)
    requires |log| < |lines|
    requires forall j :: 0 <= j < |log| ==> OutcomeAllowed(registry, exit, lines[j], body, log[j])
    requires OutcomeAllowed(registry, exit, lines[|log|], body, o)
    ensures forall j :: 0 <= j < |log| + 1 ==> OutcomeAllowed(registry, exit, lines[j], body, (log + [o])[j])
  {
  }

  class Terminal {
    var listeners: seq<Listener>
    var commands: map<string, CommandDescription>
    var stop: bool
    const exitCommand: CommandDescription

    /** The exit command is one; every command is stored under its name; no listener twice. */
    predicate Valid()
      reads this`listeners, this`commands, exitCommand`arguments, exitCommand`mandatoryArguments
      reads commands.Values`arguments, commands.Values`mandatoryArguments
    {
      && exitCommand.kind == Exit && exitCommand.Valid()
      && (forall k :: k in commands ==> commands[k].name == k && commands[k].Valid())
      && Distinct(listeners)
    }

    /** The registered commands as values. */
    function Registry(): (r: map<string, CommandView>)
      reads this`commands, commands.Values`arguments, commands.Values`mandatoryArguments
      ensures r.Keys == commands.Keys
    {
      map k | k in commands :: commands[k].View()
    }

    /** The registry and the exit command's view depend on the argument fields of the descriptions only. */
    twostate lemma RegistryKept()
      requires unchanged(this`commands)
      requires forall c: CommandDescription | c in commands.Values :: unchanged(c`arguments, c`mandatoryArguments)
      requires unchanged(exitCommand`arguments, exitCommand`mandatoryArguments)
      ensures Registry() == old(Registry()) && exitCommand.View() == old(exitCommand.View())
    {
    }

    /** new Terminal(input, output, ecd), once ecd is known not to be null. */
    constructor (ecd: CommandDescription)
      requires ecd.kind == Exit && ecd.Valid()
      ensures Valid() && exitCommand == ecd
      ensures listeners == [] && commands == map[] && !stop
    {
      listeners := [];
      commands := map[];
      stop := false;
      exitCommand := ecd;
    }

    /** The public constructor: a missing exit command is refused. */
    static method Create(ecd: CommandDescription?) returns (r: Result<Terminal, SetupError>)
      requires ecd != null ==> ecd.kind == Exit && ecd.Valid()
      ensures ecd == null <==> r.Failure?
      ensures r.Failure? ==> r.error == NullReference
      ensures r.Success? ==> fresh(r.value) && r.value.Valid() && r.value.exitCommand == ecd
      ensures r.Success? ==> r.value.listeners == [] && r.value.commands == map[] && !r.value.stop
    {
      if ecd == null {
        return Failure(NullReference);
      }
      var t := new Terminal(ecd);
      return Success(t);
    }

    /** new Terminal(): the default exit command, named "exit". */
    static method NewDefault() returns (t: Terminal)
      ensures fresh(t) && t.Valid() && fresh(t.exitCommand)
      ensures t.exitCommand.View() == CommandView("exit", Exit, map[], [])
      ensures t.listeners == [] && t.commands == map[] && !t.stop
    {
      var e := Default();
      t := new Terminal(e);
    }

    /** addListener: null is refused; a listener already registered is not added again. */
    method AddListener(cl: Listener?) returns (r: Outcome<SetupError>)
      requires Valid()
      modifies this`listeners
      ensures Valid()
      ensures cl == null <==> r == Fail(NullReference)
      ensures r.Pass? <==> cl != null
      ensures cl == null || cl in old(listeners) ==> listeners == old(listeners)
      ensures cl != null && cl !in old(listeners) ==> listeners == old(listeners) + [cl]
    {
      if cl == null {
        return Fail(NullReference);
      }
      if cl !in listeners {
        listeners := listeners + [cl];
      }
      return Pass;
    }

    /** removeListener: null and unregistered listeners are refused. */
    method RemoveListener(cl: Listener?) returns (r: Outcome<SetupError>)
      requires Valid()
      modifies this`listeners
      ensures Valid()
      ensures cl == null ==> r == Fail(NullReference)
      ensures cl != null && cl !in old(listeners) ==> r == Fail(ListenerNotRegistered)
      ensures cl != null && cl in old(listeners) ==> r == Pass
      ensures r.Fail? ==> listeners == old(listeners)
      ensures r.Pass? ==> listeners == Without(old(listeners), cl) && |listeners| == |old(listeners)| - 1
    {
      if cl == null {
        return Fail(NullReference);
      }
      if cl !in listeners {
        return Fail(ListenerNotRegistered);
      }
      WithoutDistinct(listeners, cl);
      listeners := Without(listeners, cl);
      return Pass;
    }

    /** addCommand: null and a second command of the same name are refused. */
    method AddCommand(cd: CommandDescription?) returns (r: Outcome<SetupError>)
      requires Valid()
      requires cd != null ==> cd.Valid()
      modifies this`commands
      ensures Valid()
      ensures cd == null ==> r == Fail(NullReference)
      ensures cd != null && cd.name in old(commands) ==> r == Fail(DuplicateCommand)
      ensures cd != null && cd.name !in old(commands) ==> r == Pass && commands == old(commands)[cd.name := cd]
      ensures r.Fail? ==> commands == old(commands)
    {
      if cd == null {
        return Fail(NullReference);
      }
      if cd.name in commands {
        return Fail(DuplicateCommand);
      }
      commands := commands[cd.name := cd];
      return Pass;
    }

    /** extractCommand: scans for the first space. */
    method ExtractCommand(line: string) returns (command: string)
      ensures command == CommandName(line)
    {
      command := line;
      var extracted := false;
      var i := 0;
      while i < |line| && !extracted
        invariant 0 <= i <= |line|
        invariant !extracted ==> command == line && forall j :: 0 <= j < i ==> line[j] != ' '
        invariant extracted ==> 0 < i && line[i - 1] == ' ' && command == line[..i - 1]
        invariant extracted ==> forall j :: 0 <= j < i - 1 ==> line[j] != ' '
      {
        if line[i] == ' ' {
          extracted := true;
          command := line[..i];
        }
        i := i + 1;
      }
      if !extracted {
        assert line[..|line|] == line;
      }
    }

    /** extractArguments: tokenizes the pieces of the split one by one. */
    method ExtractArguments(argumentString: string) returns (r: Result<map<string, Option<string>>, LineError>)
      ensures r == ArgumentTokens(argumentString)
    {
      if |argumentString| < 1 {
        return Success(map[]);
      }
      var pieces := Split(argumentString);
      var m: map<string, Option<string>> := map[];
      var i := 0;
      while i < |pieces|
        invariant 0 <= i <= |pieces|
        invariant Tokenize(pieces[..i]) == Success(m)
      {
        var cs := pieces[i];
        assert pieces[..i + 1][..i] == pieces[..i];
        if |cs| == 0 {
          i := i + 1;
          continue;
        }
        match Classify(cs)
        case None =>
          assert IsMalformed(pieces[i]);
          TokenizeFailure(pieces);
          return Failure(TooManyCharacters);
        case Some(t) =>
          m := m[t.name := t.value];
        i := i + 1;
      }
      assert pieces[..|pieces|] == pieces;
      return Success(m);
    }

    /**
     * parseArguments: binds every token, in the iteration order of a
     * HashMap (any order), then checks the mandatory arguments in list order.
     */
    method ParseArguments(tokens: map<string, Option<string>>, inv: CommandInvocation) returns (r: Outcome<LineError>)
      requires inv.command.Valid() && |inv.command.arguments| > 0
      requires inv.arguments == map[]
      modifies inv`arguments
      ensures r.Pass? <==> BindsCleanly(tokens, inv.command.arguments, inv.command.mandatoryArguments)
      ensures r.Pass? ==> inv.arguments == Bound(tokens, inv.command.arguments)
      ensures r.Fail? ==> AdmissibleBindError(tokens, inv.command.arguments, inv.command.mandatoryArguments, r.error)
    {
      r := BindArguments(tokens, inv);
      if r.Pass? {
        r := CheckMandatory(inv);
      }
    }

    /** The first loop of parseArguments: each token is bound, or its error is thrown. */
    method BindArguments(tokens: map<string, Option<string>>, inv: CommandInvocation) returns (r: Outcome<LineError>)
      requires inv.arguments == map[]
      modifies inv`arguments
      ensures r.Pass? <==> AllTokensBind(tokens, inv.command.arguments)
      ensures r.Pass? ==> inv.arguments == Bound(tokens, inv.command.arguments)
      ensures r.Fail? ==> exists k :: k in tokens && BindToken(inv.command.arguments, k, tokens[k]) == Failure(r.error)
    {
      var args := inv.command.arguments;
      var remaining := tokens.Keys;
      while remaining != {}
        invariant remaining <= tokens.Keys
        invariant forall k :: k in tokens && k !in remaining ==> BindToken(args, k, tokens[k]).Success?
        invariant inv.arguments.Keys == tokens.Keys - remaining
        invariant forall k :: k in inv.arguments ==> inv.arguments[k] == BindToken(args, k, tokens[k]).value
        decreases |remaining|
      {
        var argName :| argName in remaining;
        match BindToken(args, argName, tokens[argName])
        case Failure(e) =>
          return Fail(e);
        case Success(parsedValue) =>
          inv.Put(argName, parsedValue);
        remaining := remaining - {argName};
      }
      BoundIsWhatWasPut(tokens, args, inv.arguments);
      return Pass;
    }

    /** The second loop of parseArguments: the first mandatory argument not bound is reported. */
    method CheckMandatory(inv: CommandInvocation) returns (r: Outcome<LineError>)
      requires inv.command.Valid()
      ensures r.Pass? <==> FirstMissing(inv.command.mandatoryArguments, inv.arguments.Keys).None?
      ensures r.Fail? ==> r.error.MissingMandatory? &&
                          FirstMissing(inv.command.mandatoryArguments, inv.arguments.Keys) == Some(r.error.name)
    {
      var mandatory := inv.command.GetMandatoryArguments();
      var j := 0;
      while j < |mandatory|
        invariant 0 <= j <= |mandatory|
        invariant forall i :: 0 <= i < j ==> mandatory[i].name in inv.arguments.Keys
      {
        if mandatory[j].name !in inv.arguments {
          FirstMissingIsFirst(mandatory, inv.arguments.Keys, j);
          return Fail(MissingMandatory(mandatory[j].name));
        }
        j := j + 1;
      }
      return Pass;
    }

    /** detectCommand on a trimmed line: null (None) when no command has its name. */
    method DetectCommand(line: string) returns (r: Result<Option<CommandInvocation>, LineError>)
      requires Valid()
      ensures Registry() == old(Registry()) && exitCommand.View() == old(exitCommand.View())
      ensures r == Success(None) <==> Judge(old(Registry()), old(exitCommand.View()), line).Unresolved?
      ensures r.Failure? <==> Judge(old(Registry()), old(exitCommand.View()), line).Refused?
      ensures r.Failure? ==> AdmissibleLineError(old(Registry()), old(exitCommand.View()), line, r.error)
      ensures r.Success? && r.value.Some? ==>
        && fresh(r.value.value)
        && Judge(old(Registry()), old(exitCommand.View()), line)
           == Accepted(r.value.value.command.View(), r.value.value.arguments)
    {
      var command := ExtractCommand(line);
      RegistryKept();
      var found := Lookup(line, command);
      if found.None? {
        return Success(None);
      }
      var invocation := Invoke(found.value, line[|command|..]);
      match invocation
      case Failure(e) =>
        return Failure(e);
      case Success(commandInvocation) =>
        return Success(Some(commandInvocation));
    }

    /** The lookup in detectCommand: the exit command on its whole name, else the map entry, else null. */
    method Lookup(line: string, command: string) returns (found: Option<CommandDescription>)
      requires Valid() && command == CommandName(line)
      ensures Registry() == old(Registry()) && exitCommand.View() == old(exitCommand.View())
      ensures found.None? <==> Resolve(Registry(), exitCommand.View(), line).None?
      ensures found.Some? ==> found.value.Valid() &&
                              Resolve(Registry(), exitCommand.View(), line) == Some(found.value.View())
    {
      if exitCommand.IsCalled(line) {
        found := Some(exitCommand);
      } else if command in commands {
        found := Some(commands[command]);
      } else {
        found := None;
      }
    }

    /** The rest of detectCommand: a new invocation, its argument text tokenized and bound. */
    method Invoke(commandDescription: CommandDescription, argumentString: string) returns (r: Result<CommandInvocation, LineError>)
      requires commandDescription.Valid()
      ensures Registry() == old(Registry()) && exitCommand.View() == old(exitCommand.View())
      ensures r.Failure? <==> Check(commandDescription.View(), argumentString).Refused?
      ensures r.Failure? ==> AdmissibleArgumentError(commandDescription.View(), argumentString, r.error)
      ensures r.Success? ==> fresh(r.value) && r.value.command == commandDescription
      ensures r.Success? ==> Check(commandDescription.View(), argumentString) == Accepted(commandDescription.View(), r.value.arguments)
    {
      var commandInvocation := new CommandInvocation(commandDescription);
      var argumentMap := ExtractArguments(argumentString);
      if argumentMap.Failure? {
        r := Failure(argumentMap.error);
      } else if |commandDescription.arguments| > 0 {
        var o := ParseArguments(argumentMap.value, commandInvocation);
        r := if o.Fail? then Failure(o.error) else Success(commandInvocation);
      } else if |argumentMap.value| > 0 {
        r := Failure(NoArgumentsAccepted);
      } else {
        r := Success(commandInvocation);
      }
      RegistryKept();
    }

    /** `stop = true`, which leaves the commands and the exit command as they were. */
    method RaiseStop()
      requires Valid()
      modifies this`stop
      ensures Valid() && stop
      ensures Registry() == old(Registry()) && exitCommand.View() == old(exitCommand.View())
    {
      stop := true;
      RegistryKept();
    }

    /** `stop = false`, which leaves the commands and the exit command as they were. */
    method LowerStop()
      requires Valid()
      modifies this`stop
      ensures Valid() && !stop
      ensures Registry() == old(Registry()) && exitCommand.View() == old(exitCommand.View())
    {
      stop := false;
      RegistryKept();
    }

    /** parseLine: trims, detects, raises the stop flag for an exit command, runs the command. */
    method ParseLine(line: string, body: (string, map<string, Option<Value>>) -> ExecOutcome) returns (o: LineOutcome)
      requires Valid() && |line| > 0
      modifies this`stop
      ensures Valid() && Registry() == old(Registry()) && exitCommand.View() == old(exitCommand.View())
      ensures OutcomeAllowed(old(Registry()), old(exitCommand.View()), line, body, o)
      ensures stop == (old(stop) || o.Stops())
    {
      var trimmed := Trim(line);
      var d := DetectCommand(trimmed);
      match d
      case Failure(e) =>
        o := Rejected(e);
        RejectedAllowed(old(Registry()), old(exitCommand.View()), line, body, e);
      case Success(None) =>
        o := NoSuchCommand;
        UnresolvedAllowed(old(Registry()), old(exitCommand.View()), line, body);
      case Success(Some(commandInvocation)) =>
        var cv := commandInvocation.command.View();
        AcceptedAllowed(old(Registry()), old(exitCommand.View()), line, body, cv, commandInvocation.arguments);
        if cv.kind == Exit {
          RaiseStop();
        }
        var result := Execute(cv, commandInvocation.arguments, body);
        o := Ran(cv.name, cv.kind, commandInvocation.arguments, result);
    }

    /** One iteration of run: a blank line is skipped, any other is parsed. */
    method ReadLine(line: string, body: (string, map<string, Option<Value>>) -> ExecOutcome) returns (o: LineOutcome)
      requires Valid()
      modifies this`stop
      ensures Valid() && Registry() == old(Registry()) && exitCommand.View() == old(exitCommand.View())
      ensures OutcomeAllowed(old(Registry()), old(exitCommand.View()), line, body, o)
      ensures stop == (old(stop) || o.Stops())
    {
      if |line| < 1 {
        o := Blank;
      } else {
        o := ParseLine(line, body);
      }
    }

    /** run: reads lines until one stops the terminal or the input ends; blank lines are skipped. */
    method Run(lines: seq<string>, body: (string, map<string, Option<Value>>) -> ExecOutcome) returns (log: seq<LineOutcome>)
      requires Valid()
      modifies this`stop
      ensures EndsAtStop(|lines|, log)
      ensures forall i :: 0 <= i < |log| ==> OutcomeAllowed(Registry(), exitCommand.View(), lines[i], body, log[i])
      ensures stop == LastStops(log)
    {
      ghost var registry, exit := Registry(), exitCommand.View();
      LowerStop();
      log := [];
      while |log| < |lines| && !stop
        invariant Valid() && registry == Registry() && exit == exitCommand.View()
        invariant RunSoFar(registry, exit, lines, body, log, stop)
        decreases |lines| - |log|
      {
        var o := ReadLine(lines[|log|], body);
        RunSoFarStep(registry, exit, lines, body, log, o);
        log := log + [o];
      }
    }

    /** propagateCommand: offers the event to each listener in turn until one consumes it. */
    method PropagateCommand(commandEvent: CommandEvent, consumes: Listener -> bool) returns (notified: seq<Listener>)
      modifies commandEvent`consumed
      ensures notified == Notified(listeners, old(commandEvent.consumed), consumes)
      ensures commandEvent.consumed <==>
        old(commandEvent.consumed) || exists i :: 0 <= i < |notified| && consumes(notified[i])
    {
      var ls := listeners;
      ghost var consumed0 := commandEvent.consumed;
      notified := [];
      var i := 0;
      while i < |ls|
        invariant 0 <= i <= |ls| && notified == ls[..i]
        invariant commandEvent.consumed == (i == 0 && consumed0)
        invariant 0 < i ==> !consumed0
        invariant forall j :: 0 <= j < i ==> !consumes(ls[j])
      {
        var cl := ls[i];
        notified := notified + [cl];
        if consumes(cl) {
          commandEvent.Consume();
        }
        if commandEvent.consumed {
          NotifiedUpTo(ls, i, consumed0, consumes);
          assert notified == ls[..i + 1];
          return;
        }
        i := i + 1;
      }
      if 0 < i {
        NotifiedAllWhenNoneConsumes(ls, consumes);
      }
    }

    /** ExecutionEnvironment.sendCommandToHandlers: a new event carrying `data`, propagated. */
    method SendCommandToHandlers(ci: CommandInvocation, data: Option<string>, consumes: Listener -> bool)
      returns (event: CommandEvent, notified: seq<Listener>)
      ensures fresh(event) && event.commandInvocation == ci && event.data == data
      ensures notified == Notified(listeners, false, consumes)
      ensures event.consumed <==> exists i :: 0 <= i < |notified| && consumes(notified[i])
    {
      event := new CommandEvent(ci);
      event.data := data;
      notified := PropagateCommand(event, consumes);
    }
  }

  /** A map holding the bound value of every token, and nothing else, is the Bound map. */
  lemma BoundIsWhatWasPut(tokens: map<string, Option<string>>, args: map<string, ArgumentDescription>,
                          m: map<string, Option<Value>>)
    requires forall k :: k in tokens ==> BindToken(args, k, tokens[k]).Success?
    requires m.Keys == tokens.Keys
    requires forall k :: k in m ==> m[k] == BindToken(args, k, tokens[k]).value
    ensures AllTokensBind(tokens, args) && m == Bound(tokens, args)
  {
  }

  /** The first missing mandatory argument is the one the loop stops at. */
  lemma FirstMissingIsFirst(mandatory: seq<ArgumentDescription>, present: set<string>, j: nat)
    requires j < |mandatory| && mandatory[j].name !in present
    requires forall i :: 0 <= i < j ==> mandatory[i].name in present
    ensures FirstMissing(mandatory, present) == Some(mandatory[j].name)
  {
    var r := FirstMissing(mandatory, present);
    var i :| 0 <= i < |mandatory| && mandatory[i].name == r.value && r.value !in present &&
             forall k :: 0 <= k < i ==> mandatory[k].name in present;
    assert i == j;
  }

  /** The three cases of parseLine against OutcomeAllowed. */
  lemma RejectedAllowed(registry: map<string, CommandView>, exit: CommandView, line: string,
                        body: (string, map<string, Option<Value>>) -> ExecOutcome, e: LineError)
    requires |line| > 0 && AdmissibleLineError(registry, exit, Trim(line), e)
    requires Judge(registry, exit, Trim(line)).Refused?
    ensures OutcomeAllowed(registry, exit, line, body, Rejected(e))
  {
  }

  lemma UnresolvedAllowed(registry: map<string, CommandView>, exit: CommandView, line: string,
                          body: (string, map<string, Option<Value>>) -> ExecOutcome)
    requires |line| > 0 && Judge(registry, exit, Trim(line)).Unresolved?
    ensures OutcomeAllowed(registry, exit, line, body, NoSuchCommand)
  {
  }

  lemma AcceptedAllowed(registry: map<string, CommandView>, exit: CommandView, line: string,
                        body: (string, map<string, Option<Value>>) -> ExecOutcome,
                        cv: CommandView, bound: map<string, Option<Value>>)
    requires |line| > 0 && Judge(registry, exit, Trim(line)) == Accepted(cv, bound)
    ensures OutcomeAllowed(registry, exit, line, body, Ran(cv.name, cv.kind, bound, Execute(cv, bound, body)))
  {
  }

  /**
   * On a terminal with no other command, a line that is exactly the exit
   * command's name, and that the shell accepts, runs that command ...
   */
  lemma ExitLine(line: string, body: (string, map<string, Option<Value>>) -> ExecOutcome, o: LineOutcome)
    requires |line| > 0
    requires Judge(map[], ExitView(line), Trim(line)) == Accepted(ExitView(line), map[])
    requires OutcomeAllowed(map[], ExitView(line), line, body, o)
    ensures o == Ran(line, Exit, map[], Completed)
  {
  }

  /**
   * What run promises on a terminal with no command but its exit command,
   * fed first a line that is that command's name and that the shell accepts
   * (ExitLineAccepted shows "exit" is one): that line runs the exit command
   * and no line after it is read.
   */
  lemma ExitFirstEndsRun(name: string, lines: seq<string>, body: (string, map<string, Option<Value>>) -> ExecOutcome,
                         log: seq<LineOutcome>)
    requires |name| > 0 && Judge(map[], ExitView(name), Trim(name)) == Accepted(ExitView(name), map[])
    requires 0 < |lines| && lines[0] == name
    requires EndsAtStop(|lines|, log)
    requires forall i :: 0 <= i < |log| ==> OutcomeAllowed(map[], ExitView(name), lines[i], body, log[i])
    ensures log == [Ran(name, Exit, map[], Completed)]
  {
    ExitFirstOutcome(name, lines, body, log);
    FirstStopEndsLog(|lines|, log);
  }

  /** The first outcome of such a run is the exit command's. */
  lemma ExitFirstOutcome(name: string, lines: seq<string>, body: (string, map<string, Option<Value>>) -> ExecOutcome,
                         log: seq<LineOutcome>)
    requires |name| > 0 && Judge(map[], ExitView(name), Trim(name)) == Accepted(ExitView(name), map[])
    requires 0 < |lines| && lines[0] == name
    requires EndsAtStop(|lines|, log)
    requires forall i :: 0 <= i < |log| ==> OutcomeAllowed(map[], ExitView(name), lines[i], body, log[i])
    ensures 0 < |log| && log[0] == Ran(name, Exit, map[], Completed)
  {
    assert 0 < |log|;
    ExitLine(name, body, log[0]);
  }

  /** A log that ends at its first stop, and whose first outcome stops, has just that outcome. */
  lemma FirstStopEndsLog(lineCount: nat, log: seq<LineOutcome>)
    requires 0 < lineCount && EndsAtStop(lineCount, log)
    requires 0 < |log| ==> log[0].Stops()
    ensures log == [log[0]]
  {
  }

  /** "exit", trimmed, is accepted by a terminal with no other command. */
  lemma ExitLineAccepted()
    ensures Judge(map[], ExitView("exit"), Trim("exit")) == Accepted(ExitView("exit"), map[])
  {
    TrimKeeps("exit");
    ExitAccepted();
  }
}
