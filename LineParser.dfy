/**
 * The grammar and the binding rules of Terminal.java, as functions on
 * values.  The imperative methods of Shell.Terminal are proved to compute
 * exactly what these functions define.  A line, once trimmed, is
 *   <command-name> [<remainder>]
 * where the command name ends at the first ' ', and the remainder is cut
 * at each "whitespace followed by --" into pieces; every non-empty piece
 * is `name=value` or a bare `name`, with none of ; : , = inside either.
 */
module LineParser {
  import opened Wrappers
  import opened Errors
  import opened Strings
  import opened Arguments
  import opened Commands

  // ----- extractCommand -----

  /** The command name of a line: everything before its first space. */
  function CommandName(line: string): (name: string)
    ensures StartsWith(line, name) && ' ' !in name
    ensures |name| < |line| ==> line[|name|] == ' '
  {
    line[..FirstIndexOf(line, ' ')]
  }

  /** What `line.replaceFirst(command, "")` leaves: the text after the command name. */
  function Remainder(line: string): string {
    line[FirstIndexOf(line, ' ')..]
  }

  /** The line is its command name followed by the remainder, and a non-empty remainder starts at the space. */
  lemma RemainderMeaning(line: string)
    ensures line == CommandName(line) + Remainder(line)
    ensures Remainder(line) == [] || Remainder(line)[0] == ' '
  {
  }

  /** On a trimmed, non-empty line the command name is non-empty and has no space. */
  lemma CommandNameOfTrimmedLine(line: string)
    requires line != [] && !IsTrimmable(line[0])
    ensures CommandName(line) != [] && ' ' !in CommandName(line)
    ensures line == CommandName(line) + Remainder(line)
  {
  }

  // ----- split("\\s--") -----

  /** The characters `\s` stands for in a Java regular expression. */
  predicate IsRegexSpace(c: char) {
    c == ' ' || c == '\t' || c == '\n' || c == '\r' || c as int == 0x0B || c as int == 0x0C
  }

  /** A separator (whitespace, then "--") starts at index i. */
  predicate SeparatorAt(s: string, i: int) {
    0 <= i && i + 3 <= |s| && IsRegexSpace(s[i]) && s[i + 1] == '-' && s[i + 2] == '-'
  }

  predicate HasSeparator(s: string) {
    exists i :: 0 <= i <= |s| && SeparatorAt(s, i)
  }

  /**
   * String.split("\\s--"): the pieces between the separators that a scan
   * from the left finds.  Java also drops trailing empty pieces; empty
   * pieces are skipped by the tokenizer either way.
   */
  function Split(s: string): (pieces: seq<string>)
    ensures |pieces| > 0
    ensures StartsWith(s, pieces[0])
    ensures |pieces| > 1 ==> SeparatorAt(s, |pieces[0]|)
    decreases |s|
  {
    if |s| < 3 then [s]
    else if SeparatorAt(s, 0) then [""] + Split(s[3..])
    else
      var rest := Split(s[1..]);
      assert SeparatorAt(s[1..], |rest[0]|) ==> SeparatorAt(s, |rest[0]| + 1);
      [[s[0]] + rest[0]] + rest[1..]
  }

  /**
   * The pieces after the first are the split of the text after the first
   * separator, and a single piece is the whole text: with
   * SplitPiecesHaveNoSeparator, the pieces are exactly the texts between
   * consecutive separators.
   */
  lemma {:induction false} SplitSteps(s: string)
    ensures |Split(s)| == 1 ==> Split(s)[0] == s
    ensures |Split(s)| > 1 ==> Split(s)[1..] == Split(s[|Split(s)[0]| + 3..])
    decreases |s|
  {
    if |s| >= 3 && !SeparatorAt(s, 0) {
      var rest := Split(s[1..]);
      SplitSteps(s[1..]);
      if |rest| == 1 {
        assert [s[0]] + s[1..] == s;
      } else {
        assert s[1..][|rest[0]| + 3..] == s[|rest[0]| + 1 + 3..];
      }
    }
  }

  /** No piece of a split contains a separator. */
  lemma {:induction false} SplitPiecesHaveNoSeparator(s: string)
    ensures forall p :: p in Split(s) ==> !HasSeparator(p)
    decreases |s|
  {
    if |s| < 3 {
      assert !SeparatorAt(s, 0);
    } else if SeparatorAt(s, 0) {
      SplitPiecesHaveNoSeparator(s[3..]);
    } else {
      var rest := Split(s[1..]);
      SplitPiecesHaveNoSeparator(s[1..]);
      var first := [s[0]] + rest[0];
      assert StartsWith(s, first);
      assert !HasSeparator(rest[0]) by { assert rest[0] in Split(s[1..]); }
      forall i | 0 <= i <= |first| ensures !SeparatorAt(first, i) {
        if i == 0 && |first| >= 3 {
          assert first[0] == s[0] && first[1] == s[1] && first[2] == s[2];
        } else if 0 < i && i + 3 <= |first| {
          assert first[i] == rest[0][i - 1] && first[i + 1] == rest[0][i] && first[i + 2] == rest[0][i + 1];
          assert !SeparatorAt(rest[0], i - 1);
        }
      }
      assert !HasSeparator(first);
      assert Split(s) == [first] + rest[1..];
      forall p | p in rest[1..] ensures !HasSeparator(p) {
        assert p in Split(s[1..]);
      }
    }
  }

  /** A text without separators is a single piece. */
  lemma {:induction false} SplitWithoutSeparator(s: string)
    requires !HasSeparator(s)
    ensures Split(s) == [s]
    decreases |s|
  {
    if |s| >= 3 {
      assert !SeparatorAt(s, 0);
      forall i | 0 <= i <= |s[1..]| && SeparatorAt(s[1..], i) ensures false {
        assert SeparatorAt(s, i + 1);
      }
      SplitWithoutSeparator(s[1..]);
      assert [s[0]] + s[1..] == s;
    }
  }

  // ----- one token -----

  predicate IsReserved(c: char) {
    c == ';' || c == ':' || c == ',' || c == '='
  }

  /** A full match of the character class `[^;:,=]+`. */
  predicate IsPlain(s: string) {
    |s| > 0 && forall i :: 0 <= i < |s| ==> !IsReserved(s[i])
  }

  /** A token: the argument name, and its value text when one was written. */
  datatype Token = Token(name: string, value: Option<string>)

  /** The two regular expressions tried on a piece, valued first; None is a syntax error. */
  function Classify(piece: string): (r: Option<Token>)
    ensures r.Some? ==> IsPlain(r.value.name)
    ensures r.Some? && r.value.value.None? ==> piece == r.value.name
    ensures r.Some? && r.value.value.Some? ==> IsPlain(r.value.value.value) && piece == r.value.name + "=" + r.value.value.value
  {
    var k := FirstIndexOf(piece, '=');
    if k == |piece| then
      if IsPlain(piece) then Some(Token(piece, None)) else None
    else if IsPlain(piece[..k]) && IsPlain(piece[k + 1..]) then
      Some(Token(piece[..k], Some(piece[k + 1..])))
    else
      None
  }

  /** Classify accepts exactly the two token forms of the grammar. */
  lemma ClassifyMeaning(piece: string, t: Token)
    ensures Classify(piece) == Some(t) <==>
      || (t.value.None? && IsPlain(piece) && piece == t.name)
      || (t.value.Some? && IsPlain(t.name) && IsPlain(t.value.value) && piece == t.name + "=" + t.value.value)
  {
    if t.value.Some? && IsPlain(t.name) && IsPlain(t.value.value) && piece == t.name + "=" + t.value.value {
      var n := |t.name|;
      assert piece[n] == '=';
      assert forall i :: 0 <= i < n ==> piece[i] == t.name[i];
      assert piece[..n] == t.name && piece[n + 1..] == t.value.value;
    }
    if Classify(piece) == Some(t) && t.value.Some? {
      var k := FirstIndexOf(piece, '=');
      assert piece == piece[..k] + "=" + piece[k + 1..];
    }
  }

  // ----- extractArguments -----

  predicate IsMalformed(piece: string) {
    piece != [] && Classify(piece).None?
  }

  /** The loop of extractArguments over the pieces: empty ones skipped, later tokens overwrite earlier ones. */
  function Tokenize(pieces: seq<string>): (r: Result<map<string, Option<string>>, LineError>)
    ensures r.Failure? ==> r.error == TooManyCharacters
  {
    if pieces == [] then Success(map[])
    else
      var last := pieces[|pieces| - 1];
      match Tokenize(pieces[..|pieces| - 1])
      case Failure(e) => Failure(e)
      case Success(m) =>
        if last == [] then Success(m)
        else
          match Classify(last)
          case None => Failure(TooManyCharacters)
          case Some(t) => Success(m[t.name := t.value])
  }

  /** extractArguments: an empty remainder has no tokens; otherwise its pieces are tokenized. */
  function ArgumentTokens(argumentString: string): (r: Result<map<string, Option<string>>, LineError>)
    ensures |argumentString| < 1 ==> r == Success(map[])
    ensures r.Failure? ==> r.error == TooManyCharacters
    ensures r.Failure? <==> |argumentString| > 0 && HasMalformedPiece(Split(argumentString))
  {
    if |argumentString| < 1 then Success(map[])
    else
      TokenizeFailure(Split(argumentString));
      Tokenize(Split(argumentString))
  }

  /** Some non-empty piece is neither token form. */
  predicate HasMalformedPiece(pieces: seq<string>) {
    exists i :: 0 <= i < |pieces| && IsMalformed(pieces[i])
  }

  /** Tokenizing fails exactly when some non-empty piece is malformed. */
  lemma {:induction false} TokenizeFailure(pieces: seq<string>)
    ensures Tokenize(pieces).Failure? <==> exists i :: 0 <= i < |pieces| && IsMalformed(pieces[i])
  {
    if pieces != [] {
      var init := pieces[..|pieces| - 1];
      TokenizeFailure(init);
      assert forall i :: 0 <= i < |init| ==> init[i] == pieces[i];
    }
  }

  /** Piece i is a token for argument k. */
  predicate NamesAt(pieces: seq<string>, i: int, k: string) {
    0 <= i < |pieces| && pieces[i] != [] && Classify(pieces[i]).Some? && Classify(pieces[i]).value.name == k
  }

  /** Piece i is the last token for argument k. */
  predicate LastNamesAt(pieces: seq<string>, i: int, k: string) {
    NamesAt(pieces, i, k) && forall j :: i < j < |pieces| ==> !NamesAt(pieces, j, k)
  }

  /** The token map holds each name some piece gives, bound as the last such piece says. */
  lemma {:induction false} TokenizeContents(pieces: seq<string>)
    requires Tokenize(pieces).Success?
    ensures forall k :: k in Tokenize(pieces).value <==> exists i :: NamesAt(pieces, i, k)
    ensures forall i, k :: LastNamesAt(pieces, i, k) ==> Tokenize(pieces).value[k] == Classify(pieces[i]).value.value
  {
    if pieces != [] {
      var n := |pieces| - 1;
      var init := pieces[..n];
      TokenizeContents(init);
      var m := Tokenize(init).value;
      assert forall i, k :: 0 <= i < n ==> (NamesAt(init, i, k) <==> NamesAt(pieces, i, k));
      var last := pieces[n];
      if last != [] {
        var t := Classify(last).value;
        assert NamesAt(pieces, n, t.name);
        forall i, k | LastNamesAt(pieces, i, k)
          ensures Tokenize(pieces).value[k] == Classify(pieces[i]).value.value
        {
          if i < n {
            assert k != t.name;
            assert LastNamesAt(init, i, k);
          }
        }
      } else {
        forall i, k | LastNamesAt(pieces, i, k)
          ensures Tokenize(pieces).value[k] == Classify(pieces[i]).value.value
        {
          assert i < n;
          assert LastNamesAt(init, i, k);
        }
      }
    }
  }

  // ----- parseArguments -----

  /** What parseArguments does with one token: look the name up, check the form, coerce the value. */
  function BindToken(args: map<string, ArgumentDescription>, name: string, raw: Option<string>): (r: Result<Option<Value>, LineError>)
    ensures r == Failure(UnknownParameter(name)) <==> name !in args
    ensures r == Failure(ValueNotAccepted(name)) <==> name in args && args[name].single && raw.Some?
    ensures r == Failure(ValueRequired(name)) <==> name in args && !args[name].single && raw.None?
    ensures r.Success? ==> name in args && (r.value.None? <==> raw.None?)
    ensures r.Success? && r.value.Some? ==> args[name].ParseValue(raw.value) == Success(r.value.value)
    ensures r.Failure? && r.error.ArgumentParse? ==> raw == Some(r.error.input) && args[name].ParseValue(raw.value).Failure?
  {
    if name !in args then Failure(UnknownParameter(name))
    else
      var d := args[name];
      match raw
      case Some(text) =>
        if d.single then Failure(ValueNotAccepted(name))
        else (match d.ParseValue(text)
              case Success(v) => Success(Some(v))
              case Failure(_) => Failure(ArgumentParse(text)))
      case None =>
        if d.single then Success(None) else Failure(ValueRequired(name))
  }

  predicate AllTokensBind(tokens: map<string, Option<string>>, args: map<string, ArgumentDescription>)
  {
    forall k :: k in tokens ==> BindToken(args, k, tokens[k]).Success?
  }

  /** The invocation's argument map once every token is bound. */
  function Bound(tokens: map<string, Option<string>>, args: map<string, ArgumentDescription>): (r: map<string, Option<Value>>)
    requires AllTokensBind(tokens, args)
    ensures r.Keys == tokens.Keys
    ensures forall k :: k in r ==> (r[k].None? <==> tokens[k].None?)
    ensures forall k :: k in r && r[k].Some? ==> args[k].ParseValue(tokens[k].value) == Success(r[k].value)
  {
    map k | k in tokens :: BindToken(args, k, tokens[k]).value
  }

  /** The first mandatory argument, in list order, whose name is not present. */
  function FirstMissing(mandatory: seq<ArgumentDescription>, present: set<string>): (r: Option<string>)
    ensures r.None? <==> forall i :: 0 <= i < |mandatory| ==> mandatory[i].name in present
    ensures r.Some? ==> exists i :: 0 <= i < |mandatory| && mandatory[i].name == r.value && r.value !in present &&
                                   forall j :: 0 <= j < i ==> mandatory[j].name in present
  {
    if mandatory == [] then None
    else if mandatory[0].name !in present then Some(mandatory[0].name)
    else
      var r := FirstMissing(mandatory[1..], present);
      assert forall i :: 1 <= i < |mandatory| ==> mandatory[i] == mandatory[1..][i - 1];
      if r.Some? then
        assert exists i :: 0 <= i < |mandatory| && mandatory[i].name == r.value && r.value !in present &&
                           forall j :: 0 <= j < i ==> mandatory[j].name in present by {
          var i :| 0 <= i < |mandatory[1..]| && mandatory[1..][i].name == r.value && r.value !in present &&
                   forall j :: 0 <= j < i ==> mandatory[1..][j].name in present;
          assert mandatory[i + 1].name == r.value;
          assert forall j :: 0 <= j < i + 1 ==> mandatory[j].name in present by {
            forall j | 0 <= j < i + 1 ensures mandatory[j].name in present {
              if j > 0 { assert mandatory[j] == mandatory[1..][j - 1]; }
            }
          }
        }
        r
      else r
  }

  /** parseArguments succeeds: every token binds and no mandatory argument is missing. */
  predicate BindsCleanly(tokens: map<string, Option<string>>, args: map<string, ArgumentDescription>, mandatory: seq<ArgumentDescription>)
  {
    AllTokensBind(tokens, args) && FirstMissing(mandatory, tokens.Keys).None?
  }

  /**
   * The errors parseArguments may throw.  Tokens are visited in the order of
   * a HashMap, so when several are wrong any of their errors may come out;
   * the mandatory check runs only when all of them bind.
   */
  predicate AdmissibleBindError(tokens: map<string, Option<string>>, args: map<string, ArgumentDescription>,
                                mandatory: seq<ArgumentDescription>, e: LineError)
  {
    if AllTokensBind(tokens, args) then
      e.MissingMandatory? && FirstMissing(mandatory, tokens.Keys) == Some(e.name)
    else
      exists k :: k in tokens && BindToken(args, k, tokens[k]) == Failure(e)
  }

  /** What a successful parseArguments binds: declared names only, flags to None, values to their parse. */
  lemma BindingSound(tokens: map<string, Option<string>>, args: map<string, ArgumentDescription>,
                     mandatory: seq<ArgumentDescription>, k: string)
    requires KeyedByName(args) && ListsMandatory(args, mandatory)
    requires BindsCleanly(tokens, args, mandatory)
    ensures Bound(tokens, args).Keys == tokens.Keys && tokens.Keys <= args.Keys
    ensures k in tokens && tokens[k].None? ==> args[k].single && Bound(tokens, args)[k].None?
    ensures k in tokens && tokens[k].Some? ==>
      !args[k].single && args[k].ParseValue(tokens[k].value) == Success(Bound(tokens, args)[k].value)
    ensures k in args && args[k].mandatory ==> k in Bound(tokens, args)
  {
    forall j | j in tokens ensures j in args {
      assert BindToken(args, j, tokens[j]).Success?;
    }
    if k in args && args[k].mandatory {
      assert args[k] in mandatory;
      var i :| 0 <= i < |mandatory| && mandatory[i] == args[k];
      assert mandatory[i].name in tokens.Keys;
    }
  }

  /** Each error is a syntax error except a failed coercion of a written value. */
  lemma BindErrorKinds(tokens: map<string, Option<string>>, args: map<string, ArgumentDescription>,
                       mandatory: seq<ArgumentDescription>, e: LineError)
    requires AdmissibleBindError(tokens, args, mandatory, e)
    ensures !BindsCleanly(tokens, args, mandatory)
    ensures e.ArgumentParse? ==> exists k :: k in tokens && k in args && tokens[k] == Some(e.input) &&
                                             !args[k].single && args[k].ParseValue(e.input).Failure?
    ensures e.UnknownParameter? ==> e.name in tokens && e.name !in args
    ensures e.ValueNotAccepted? ==> e.name in tokens && tokens[e.name].Some? && args[e.name].single
    ensures e.ValueRequired? ==> e.name in tokens && tokens[e.name].None? && !args[e.name].single
    ensures e.MissingMandatory? ==> e.name !in tokens && exists i :: 0 <= i < |mandatory| && mandatory[i].name == e.name
    ensures !e.TooManyCharacters? && !e.NoArgumentsAccepted?
  {
    if !AllTokensBind(tokens, args) {
      var k :| k in tokens && BindToken(args, k, tokens[k]) == Failure(e);
    }
  }

  // ----- detectCommand -----

  /** The exit command when the whole line is its name, else a lookup of the command name. */
  function Resolve(registry: map<string, CommandView>, exit: CommandView, line: string): Option<CommandView> {
    if line == exit.name then Some(exit)
    else if CommandName(line) in registry then Some(registry[CommandName(line)])
    else None
  }

  /**
   * A line resolves iff it is the exit command's whole name or its command
   * name is registered; the exit command wins over a registered command of
   * the same name.
   */
  lemma ResolveMeaning(registry: map<string, CommandView>, exit: CommandView, line: string)
    ensures Resolve(registry, exit, line).Some? <==> line == exit.name || CommandName(line) in registry
    ensures line == exit.name ==> Resolve(registry, exit, line) == Some(exit)
    ensures line != exit.name && CommandName(line) in registry ==> Resolve(registry, exit, line) == Some(registry[CommandName(line)])
  {
  }

  /** The three outcomes of detectCommand on a trimmed line. */
  datatype Verdict = Unresolved | Accepted(command: CommandView, bound: map<string, Option<Value>>) | Refused

  function Judge(registry: map<string, CommandView>, exit: CommandView, line: string): Verdict
  {
    match Resolve(registry, exit, line)
    case None => Unresolved
    case Some(cv) => Check(cv, Remainder(line))
  }

  /** A line names no command iff it resolves to none; an accepted line runs the command it resolves to. */
  lemma JudgeFollowsResolve(registry: map<string, CommandView>, exit: CommandView, line: string)
    ensures Judge(registry, exit, line).Unresolved? <==> Resolve(registry, exit, line).None?
    ensures Judge(registry, exit, line).Accepted? ==> Resolve(registry, exit, line) == Some(Judge(registry, exit, line).command)
  {
  }

  /** The argument phase of detectCommand, for a resolved command and the text after its name. */
  function Check(cv: CommandView, argumentString: string): (v: Verdict)
    ensures !v.Unresolved?
    ensures v.Accepted? ==> v.command == cv
  {
    match ArgumentTokens(argumentString)
    case Failure(_) => Refused
    case Success(tokens) =>
      if |cv.arguments| > 0 then
        if BindsCleanly(tokens, cv.arguments, cv.mandatory) then Accepted(cv, Bound(tokens, cv.arguments)) else Refused
      else if |tokens| > 0 then Refused
      else Accepted(cv, map[])
  }

  /** The errors detectCommand may throw on a trimmed line. */
  predicate AdmissibleLineError(registry: map<string, CommandView>, exit: CommandView, line: string, e: LineError)
  {
    match Resolve(registry, exit, line)
    case None => false
    case Some(cv) => AdmissibleArgumentError(cv, Remainder(line), e)
  }

  /** The errors of the argument phase. */
  predicate AdmissibleArgumentError(cv: CommandView, argumentString: string, e: LineError)
  {
    match ArgumentTokens(argumentString)
    case Failure(err) => e == err
    case Success(tokens) =>
      if |cv.arguments| > 0 then AdmissibleBindError(tokens, cv.arguments, cv.mandatory, e)
      else |tokens| > 0 && e == NoArgumentsAccepted
  }

  /** Every error detectCommand may throw comes with a refused line, and a refused line has one. */
  lemma RefusedIffError(registry: map<string, CommandView>, exit: CommandView, line: string)
    ensures Judge(registry, exit, line).Refused? <==> exists e :: AdmissibleLineError(registry, exit, line, e)
  {
    if Judge(registry, exit, line).Refused? {
      var cv := Resolve(registry, exit, line).value;
      match ArgumentTokens(Remainder(line))
      case Failure(err) =>
        assert AdmissibleLineError(registry, exit, line, err);
      case Success(tokens) =>
        if |cv.arguments| > 0 {
          if AllTokensBind(tokens, cv.arguments) {
            var name := FirstMissing(cv.mandatory, tokens.Keys).value;
            assert AdmissibleLineError(registry, exit, line, MissingMandatory(name));
          } else {
            var k :| k in tokens && BindToken(cv.arguments, k, tokens[k]).Failure?;
            assert AdmissibleLineError(registry, exit, line, BindToken(cv.arguments, k, tokens[k]).error);
          }
        } else {
          assert AdmissibleLineError(registry, exit, line, NoArgumentsAccepted);
        }
    }
    forall e | AdmissibleLineError(registry, exit, line, e) ensures Judge(registry, exit, line).Refused? {
      var cv := Resolve(registry, exit, line).value;
      if ArgumentTokens(Remainder(line)).Success? && |cv.arguments| > 0 {
        BindErrorKinds(ArgumentTokens(Remainder(line)).value, cv.arguments, cv.mandatory, e);
      }
    }
  }

  // ----- sample lines -----

  /** A command "greet" with one mandatory STRING argument "name". */
  function GreetView(): CommandView {
    var d := ArgumentDescription(false, "name", Some(StringType), true);
    CommandView("greet", Custom, map["name" := d], [d])
  }

  function ExitView(name: string): CommandView {
    CommandView(name, Exit, map[], [])
  }

  predicate NoRegexSpace(s: string) {
    forall i :: 0 <= i < |s| ==> !IsRegexSpace(s[i])
  }

  /** A text without whitespace has no separator. */
  lemma NoSpaceNoSeparator(s: string)
    requires NoRegexSpace(s)
    ensures !HasSeparator(s)
  {
  }

  /** A name with no space, then text that is empty or starts with one. */
  lemma NameThenRest(name: string, rest: string)
    requires forall i :: 0 <= i < |name| ==> name[i] != ' '
    requires rest == [] || rest[0] == ' '
    ensures CommandName(name + rest) == name && Remainder(name + rest) == rest
  {
    var line := name + rest;
    assert forall i :: 0 <= i < |name| ==> line[i] == name[i];
    assert |line| == |name| || line[|name|] == ' ';
    assert FirstIndexOf(line, ' ') == |name|;
    assert line[..|name|] == name && line[|name|..] == rest;
  }

  /** The pieces of " --<piece>": an empty one before the separator, then the piece. */
  lemma SplitAfterSeparator(piece: string)
    requires !HasSeparator(piece)
    ensures Split(" --" + piece) == ["", piece]
  {
    var s := " --" + piece;
    assert SeparatorAt(s, 0);
    assert s[3..] == piece;
    SplitWithoutSeparator(piece);
  }

  /** An empty piece and then a token give a one-entry map. */
  lemma TokenizeEmptyThen(piece: string)
    requires piece != []
    ensures Tokenize(["", piece]) == (match Classify(piece)
                                      case None => Failure(TooManyCharacters)
                                      case Some(t) => Success(map[t.name := t.value]))
  {
    assert ["", piece][..1] == [""];
    assert [""][..0] == [];
  }

  /** The tokens of " --<name>=<value>". */
  lemma TokensOfValuedArgument(name: string, value: string)
    requires IsPlain(name) && IsPlain(value) && NoRegexSpace(name) && NoRegexSpace(value)
    ensures ArgumentTokens(" --" + name + "=" + value) == Success(map[name := Some(value)])
  {
    var piece := name + "=" + value;
    NoSpaceNoSeparator(piece);
    SplitAfterSeparator(piece);
    assert " --" + name + "=" + value == " --" + piece;
    ClassifyMeaning(piece, Token(name, Some(value)));
    TokenizeEmptyThen(piece);
  }

  /** The tokens of " --<name>". */
  lemma TokensOfFlag(name: string)
    requires IsPlain(name) && NoRegexSpace(name)
    ensures ArgumentTokens(" --" + name) == Success(map[name := None])
  {
    NoSpaceNoSeparator(name);
    SplitAfterSeparator(name);
    ClassifyMeaning(name, Token(name, None));
    TokenizeEmptyThen(name);
  }

  /** A value holding one of ; : , is a syntax error. */
  lemma TokensOfReservedValue(name: string, value: string, j: nat)
    requires IsPlain(name) && NoRegexSpace(name) && NoRegexSpace(value)
    requires j < |value| && IsReserved(value[j]) && value[j] != '='
    ensures ArgumentTokens(" --" + name + "=" + value) == Failure(TooManyCharacters)
  {
    var piece := name + "=" + value;
    NoSpaceNoSeparator(piece);
    SplitAfterSeparator(piece);
    assert " --" + name + "=" + value == " --" + piece;
    assert forall i :: 0 <= i < |name| ==> piece[i] == name[i];
    assert piece[|name|] == '=';
    assert FirstIndexOf(piece, '=') == |name|;
    assert piece[|name| + 1..] == value;
    TokenizeEmptyThen(piece);
  }

  /** Binding a single token. */
  lemma BoundOne(args: map<string, ArgumentDescription>, k: string, raw: Option<string>)
    requires BindToken(args, k, raw).Success?
    ensures AllTokensBind(map[k := raw], args)
    ensures Bound(map[k := raw], args) == map[k := BindToken(args, k, raw).value]
  {
  }

  /** "greet" resolves to its command, and the rest of the line is its argument text. */
  lemma GreetResolves(rest: string)
    requires rest == [] || rest[0] == ' '
    ensures Resolve(map["greet" := GreetView()], ExitView("exit"), "greet" + rest) == Some(GreetView())
    ensures Remainder("greet" + rest) == rest
  {
    NameThenRest("greet", rest);
  }

  lemma GreetValueChecks(value: string)
    requires IsPlain(value) && NoRegexSpace(value)
    ensures Check(GreetView(), " --name=" + value) == Accepted(GreetView(), map["name" := Some(StringValue(value))])
  {
    var cv := GreetView();
    TokensOfValuedArgument("name", value);
    assert " --" + "name" + "=" + value == " --name=" + value;
    assert BindToken(cv.arguments, "name", Some(value)) == Success(Some(StringValue(value)));
    BoundOne(cv.arguments, "name", Some(value));
    assert FirstMissing(cv.mandatory, {"name"}) == None;
  }

  /** Any value without whitespace or reserved characters binds to "name" as written. */
  lemma GreetAccepted(value: string)
    requires IsPlain(value) && NoRegexSpace(value)
    ensures Judge(map["greet" := GreetView()], ExitView("exit"), "greet --name=" + value)
         == Accepted(GreetView(), map["name" := Some(StringValue(value))])
  {
    GreetResolves(" --name=" + value);
    assert "greet" + (" --name=" + value) == "greet --name=" + value;
    GreetValueChecks(value);
  }

  /** Leaving out a mandatory argument is refused. */
  lemma GreetMissingName()
    ensures Judge(map["greet" := GreetView()], ExitView("exit"), "greet").Refused?
    ensures AdmissibleLineError(map["greet" := GreetView()], ExitView("exit"), "greet", MissingMandatory("name"))
  {
    GreetResolves("");
    assert "greet" + "" == "greet";
  }

  lemma GreetFlagChecks()
    ensures Check(GreetView(), " --name").Refused?
    ensures AdmissibleArgumentError(GreetView(), " --name", ValueRequired("name"))
  {
    TokensOfFlag("name");
    assert " --" + "name" == " --name";
  }

  /** A valued argument written as a flag is refused. */
  lemma GreetFlagRefused()
    ensures Judge(map["greet" := GreetView()], ExitView("exit"), "greet --name").Refused?
    ensures AdmissibleLineError(map["greet" := GreetView()], ExitView("exit"), "greet --name", ValueRequired("name"))
  {
    GreetResolves(" --name");
    assert "greet" + " --name" == "greet --name";
    GreetFlagChecks();
  }

  lemma GreetReservedChecks(value: string, j: nat)
    requires NoRegexSpace(value) && j < |value| && IsReserved(value[j]) && value[j] != '='
    ensures Check(GreetView(), " --name=" + value).Refused?
    ensures AdmissibleArgumentError(GreetView(), " --name=" + value, TooManyCharacters)
  {
    TokensOfReservedValue("name", value, j);
    assert " --" + "name" + "=" + value == " --name=" + value;
  }

  /** A reserved character in a value is a syntax error. */
  lemma GreetReservedRefused(value: string, j: nat)
    requires NoRegexSpace(value) && j < |value| && IsReserved(value[j]) && value[j] != '='
    ensures Judge(map["greet" := GreetView()], ExitView("exit"), "greet --name=" + value).Refused?
    ensures AdmissibleLineError(map["greet" := GreetView()], ExitView("exit"), "greet --name=" + value, TooManyCharacters)
  {
    GreetResolves(" --name=" + value);
    assert "greet" + (" --name=" + value) == "greet --name=" + value;
    GreetReservedChecks(value, j);
  }

  /** The exit line is accepted with nothing bound. */
  lemma ExitAccepted()
    ensures Judge(map[], ExitView("exit"), "exit") == Accepted(ExitView("exit"), map[])
  {
    NameThenRest("exit", "");
    assert "exit" + "" == "exit";
  }

  /** The exit command is recognised only on the whole line, and an empty line names nothing. */
  lemma ExitOnlyOnWholeLine()
    ensures Judge(map[], ExitView("exit"), "exit --now").Unresolved?
    ensures Judge(map[], ExitView("exit"), "").Unresolved?
  {
    NameThenRest("exit", " --now");
    assert "exit" + " --now" == "exit --now";
  }

  lemma SpacedExitChecks()
    ensures Check(ExitView("log out"), " out").Refused?
    ensures AdmissibleArgumentError(ExitView("log out"), " out", NoArgumentsAccepted)
  {
    assert !HasSeparator(" out") by { assert !SeparatorAt(" out", 0); }
    SplitWithoutSeparator(" out");
    ClassifyMeaning(" out", Token(" out", None));
    assert Tokenize([" out"]) == Success(map[" out" := None]) by {
      assert [" out"][..0] == [];
    }
  }

  /** An argument-less exit command named "log out" is refused on its own name: " out" is read as a token. */
  lemma SpacedExitNameRefused()
    ensures Judge(map[], ExitView("log out"), "log out").Refused?
    ensures AdmissibleLineError(map[], ExitView("log out"), "log out", NoArgumentsAccepted)
  {
    NameThenRest("log", " out");
    assert "log" + " out" == "log out";
    SpacedExitChecks();
  }
}
