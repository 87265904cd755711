# java-cli: a verified model of the command shell

java-cli is an embeddable command shell for Java programs. An application
declares commands (`CommandDescription`), each with typed arguments
(`ArgumentDescription`), and registers them with a `Terminal`. The terminal
reads lines until one names its exit command. It parses each line into a
`CommandInvocation`: the command name is what comes before the first space,
and each argument is written `--name=value` or `--flag`. Each value is coerced
to the argument's declared type, the mandatory arguments are checked, and the
command is run. Commands can also send `CommandEvent`s to registered
listeners, and each event goes to one listener after another until one
consumes it. `CommandLoader` finds command classes by their file names.

This project models that core in Dafny. Each module follows a source class
or the library pieces it relies on:

- `Wrappers`, `Errors`: `Option`/`Result`/`Outcome`. Each Java exception becomes an error value.
- `Strings`, `Numerals`: the pieces of `java.lang.String`, `Integer.parseInt` and `Long.parseLong` the core relies on.
- `Arguments`: `ArgumentDescription`. Argument descriptions are values, and both constructors validate.
- `Commands`: `CommandDescription`. It is a class because `addArgument` changes it in place.
- `ExitCommand`, `Invocations`, `Events`: `ExitCommandDescription`, `CommandInvocation` and `CommandEvent`.
- `LineParser`: the grammar and the binding rules of `Terminal`, as functions on values: `Judge` decides a line, `Check` decides its argument text. It also holds lemmas about them and worked sample lines.
- `Shell`: the class `Terminal` itself. Its methods keep the source's loops (`extractCommand`'s scan, `extractArguments`' loop over the pieces, both loops of `parseArguments`, `propagateCommand`'s loop with `break`, and `run`'s loop over the stop flag). Each method is proved to compute what `LineParser` defines.
- `Loader`: the string helpers of `CommandLoader` and the selection of class files by name.

The input stream is a sequence of lines. The output is a log of `LineOutcome`s, one per line read: `Blank`, `NoSuchCommand`, `Rejected(error)`, or `Ran(command, kind, arguments, result)`. What a command does when it runs is a parameter `body` that may return `ExecutionFailed`. What a listener does with an event is a parameter `consumes`.

Where the code and its documentation differ, the model follows the code:

- `extractCommand` splits at the first `' '` only, not at any whitespace.
- `run` skips only empty lines. It checks for emptiness before `parseLine` trims, so a line of blanks is trimmed to `""`, which names no command.
- The exit command is recognised only when the whole trimmed line is its name. `exit --now` is looked up as an ordinary command.
- The exit command is recognised on its whole name, but the text after the first space of the line is still read as argument text. So an exit command with no arguments named `log out` is refused on its own name: ` out` is read as a flag token. See `LineParser.SpacedExitNameRefused`.
- `CLASS_NAME_PATTERN` is `(.)*Command\.class`, and Java's `.` does not match line terminators. So the pattern matches the names that end in `Command.class` and contain no line terminator.
- `convertToPackageName` and `sanitizeClassName` remove every `.class` of a name that ends with `.class`, not only the extension.

## Model

| member | source | states |
|---|---|---|
| Strings.Trim | src/main/java/org/dvle/java_cli/Terminal.java:183 | `String.trim`: the result is no longer than the input and neither starts nor ends with a character up to U+0020 |
| Strings.TrimMeaning | src/main/java/org/dvle/java_cli/Terminal.java:183 | the trimmed line is a slice of the line, and everything cut off before and after it is a character up to U+0020 |
| Strings.FirstIndexOf | src/main/java/org/dvle/java_cli/Terminal.java:297-303 | the index of the first occurrence of the character (the length if none): it is absent before that index and present at it; `extractCommand` searches for ' ', the valued-token split for '=' |
| Strings.TrimIdempotent | src/main/java/org/dvle/java_cli/Terminal.java:183 | trimming a trimmed line changes nothing |
| Numerals.Natural | src/main/java/org/dvle/java_cli/ArgumentDescription.java:130-141 | the decimal digits of a natural number, with no leading zero, denote that number |
| Numerals.ParseToDecimal | src/main/java/org/dvle/java_cli/ArgumentDescription.java:130-141 | parsing the decimal text of any in-range value gives the value back |
| Arguments.Make | src/main/java/org/dvle/java_cli/ArgumentDescription.java:73-97 | null name: NullPointerException; blank name: IllegalArgumentException; a mandatory flag and a typed flag: IllegalArgumentException, in that order; it succeeds iff none of these applies, and then stores exactly the given fields |
| Arguments.NewValued | src/main/java/org/dvle/java_cli/ArgumentDescription.java:56-62 | null name: NullPointerException; blank name: IllegalArgumentException; null type: NullPointerException; otherwise a well-formed valued description with the given fields |
| Arguments.NewFlag | src/main/java/org/dvle/java_cli/ArgumentDescription.java:69-71 | null or blank name refused as above; otherwise a well-formed single description that is not mandatory and has no type |
| Arguments.WellFormedIffConstructible | src/main/java/org/dvle/java_cli/ArgumentDescription.java:56-97 | the invariant (single implies not mandatory and untyped; valued implies typed; non-blank name) holds exactly for the descriptions a public constructor builds |
| Arguments.EqualsIsEquivalence | src/main/java/org/dvle/java_cli/ArgumentDescription.java:99-111 | `equals` is reflexive, symmetric and transitive, holds iff the names are equal, and is false for null and for other kinds of object |
| Arguments.ArgumentDescription.ParseValue | src/main/java/org/dvle/java_cli/ArgumentDescription.java:120-156 | the switch fails on a missing value type, and only there |
| Arguments.ParseAs | src/main/java/org/dvle/java_cli/ArgumentDescription.java:120-149 | STRING and FILE_PATH return the text unchanged; BOOLEAN never fails and is true iff the text is "true" ignoring case; every failure is a NumberFormat error carrying the text |
| Arguments.ParseIntegralMeaning | src/main/java/org/dvle/java_cli/ArgumentDescription.java:130-141 | INTEGER (LONG) succeeds with v iff the text is an optionally signed decimal numeral of value v within the 32-bit (64-bit) range, and fails otherwise |
| Arguments.FormatRoundTrip | src/main/java/org/dvle/java_cli/ArgumentDescription.java:120-149 | for every type, writing a parsed value back as text and parsing it again gives the same value |
| Arguments.IntegerExamples | src/main/java/org/dvle/java_cli/ArgumentDescription.java:130-135 | "42" parses to 42; "x" is refused with its text |
| Arguments.RangeExamples | src/main/java/org/dvle/java_cli/ArgumentDescription.java:130-141 | -2^31 is a valid INTEGER, 2^31 is not, and 2^31 is a valid LONG |
| Arguments.BooleanExamples | src/main/java/org/dvle/java_cli/ArgumentDescription.java:124-129 | "TRUE" is true and "yes" is false |
| Commands.ContainsValueIsKeyTest | src/main/java/org/dvle/java_cli/CommandDescription.java:61-63 | with keys that are names, `containsValue` under name equality is exactly a key test |
| Commands.AddKeepsMandatoryList | src/main/java/org/dvle/java_cli/CommandDescription.java:65-73 | putting a new name and appending it when it is mandatory keeps the list exactly the mandatory descriptions of the map, each once |
| Commands.CommandDescription.constructor | src/main/java/org/dvle/java_cli/CommandDescription.java:39-49 | a new command has its name, an empty argument map and an empty mandatory list |
| Commands.CommandDescription.Create | src/main/java/org/dvle/java_cli/CommandDescription.java:39-49 | a null or blank name is refused, and only such a name; otherwise a fresh, empty, valid command |
| Commands.CommandDescription.AddArgument | src/main/java/org/dvle/java_cli/CommandDescription.java:56-74 | null: NullPointerException; a name already present: refused with nothing changed; otherwise exactly name to description is added, and the description is appended to the mandatory list iff it is mandatory |
| Commands.CommandDescription.GetMandatoryArguments | src/main/java/org/dvle/java_cli/CommandDescription.java:82-87 | returns the list as a value: the mandatory descriptions of the map, each once and each stored under its name |
| ExitCommand.NewExitCommand | src/main/java/org/dvle/java_cli/ExitCommandDescription.java:24-26 | only the name is checked; the exit command declares no arguments |
| ExitCommand.Default | src/main/java/org/dvle/java_cli/ExitCommandDescription.java:17 | DEFAULT is an exit command named "exit" with no arguments |
| Invocations.CommandInvocation.constructor | src/main/java/org/dvle/java_cli/CommandInvocation.java:38-42 | a new invocation holds its command and an empty argument map |
| Invocations.CommandInvocation.Put | src/main/java/org/dvle/java_cli/Terminal.java:405 | binds one name and leaves every other binding as it was |
| Events.CommandEvent.constructor | src/main/java/org/dvle/java_cli/CommandEvent.java:30-38 | a new event is not consumed, has no data and holds the invocation |
| Events.CommandEvent.Create | src/main/java/org/dvle/java_cli/CommandEvent.java:30-38 | a null invocation is refused with NullPointerException; otherwise a fresh unconsumed event |
| Events.CommandEvent.Consume | src/main/java/org/dvle/java_cli/CommandEvent.java:44-46 | afterwards the event is consumed |
| LineParser.CommandName | src/main/java/org/dvle/java_cli/Terminal.java:289-310 | `extractCommand`: the name is a prefix of the line without a space, and a space follows it when it is shorter than the line |
| LineParser.RemainderMeaning | src/main/java/org/dvle/java_cli/Terminal.java:258 | what `replaceFirst(command, "")` leaves: the line is the command name followed by the remainder, and a non-empty remainder starts with the space |
| LineParser.CommandNameOfTrimmedLine | src/main/java/org/dvle/java_cli/Terminal.java:289-310 | on a trimmed non-empty line the command name is non-empty and has no space, and the line is the name followed by the remainder |
| LineParser.Split | src/main/java/org/dvle/java_cli/Terminal.java:334 | `split("\\s--")`: at least one piece; the first piece starts the text and, if there are more, a separator follows it |
| LineParser.SplitSteps | src/main/java/org/dvle/java_cli/Terminal.java:334 | a single piece is the whole text, and the pieces after the first are the split of the text after the first separator; with SplitPiecesHaveNoSeparator, the pieces are exactly the texts between consecutive separators |
| LineParser.SplitPiecesHaveNoSeparator | src/main/java/org/dvle/java_cli/Terminal.java:334 | no piece contains whitespace followed by "--" |
| LineParser.SplitWithoutSeparator | src/main/java/org/dvle/java_cli/Terminal.java:334 | a text without separator is one piece, itself |
| LineParser.Classify | src/main/java/org/dvle/java_cli/Terminal.java:344-355 | a token is only returned with a name matching `[^;:,=]+`; a flag token is the whole piece; a valued token's value also matches `[^;:,=]+` and the piece is `name=value` |
| LineParser.ClassifyMeaning | src/main/java/org/dvle/java_cli/Terminal.java:344-355 | a piece is a valued token iff it is `name=value` with both parts matching `[^;:,=]+`, a flag iff the whole piece matches `[^;:,=]+`, and nothing else is accepted |
| LineParser.Tokenize | src/main/java/org/dvle/java_cli/Terminal.java:336-356 | every failure is the "too many characters" syntax error |
| LineParser.TokenizeFailure | src/main/java/org/dvle/java_cli/Terminal.java:336-356 | tokenizing fails iff some non-empty piece is malformed |
| LineParser.ArgumentTokens | src/main/java/org/dvle/java_cli/Terminal.java:320-359 | `extractArguments`: an empty argument text gives no tokens; every failure is the "too many characters" error, and it fails iff the text is non-empty and some non-empty piece of its split is malformed |
| LineParser.TokenizeContents | src/main/java/org/dvle/java_cli/Terminal.java:336-358 | the token map holds exactly the names some piece gives, each bound as the last such piece says: later tokens overwrite earlier ones |
| LineParser.BindToken | src/main/java/org/dvle/java_cli/Terminal.java:371-405 | one iteration of the first loop of `parseArguments`: an unknown name, a flag given a value and a valued argument given none are refused with their errors, and only then; a success is null exactly for a flag and otherwise the value `parseValue` returns; a parse failure carries the value text |
| LineParser.Bound | src/main/java/org/dvle/java_cli/Terminal.java:371-406 | the invocation's map after the first loop: exactly the token names, null exactly for the flags, and for the others the value `parseValue` returns on the token's text |
| LineParser.FirstMissing | src/main/java/org/dvle/java_cli/Terminal.java:411-416 | None iff every mandatory argument is present; otherwise the first absent one in list order |
| LineParser.BindingSound | src/main/java/org/dvle/java_cli/Terminal.java:369-418 | after clean binding, every bound key is declared; flags bind only to single descriptions, with null; values bind only to valued ones, with the parsed value; every mandatory argument is bound |
| LineParser.BindErrorKinds | src/main/java/org/dvle/java_cli/Terminal.java:369-418 | each admissible error means binding failed and describes a real fault: an unknown name, a flag given a value, a valued argument given none, a missing mandatory argument, or a value its type refuses (the only error that is not a syntax error) |
| LineParser.Check | src/main/java/org/dvle/java_cli/Terminal.java:252-274 | the argument phase never yields "not found", and what it accepts is the resolved command |
| Commands.CommandDescription.IsCalled | src/main/java/org/dvle/java_cli/CommandDescription.java:95-106 | the line is a call iff it is the whole name: a line that only begins with the name is not one |
| LineParser.ResolveMeaning | src/main/java/org/dvle/java_cli/Terminal.java:234-250 | a line resolves iff it is the exit command's whole name or its command name is registered; the exit command wins over a registered command of the same name |
| LineParser.JudgeFollowsResolve | src/main/java/org/dvle/java_cli/Terminal.java:229-275 | `detectCommand` returns null iff the line resolves to no command, and an accepted line runs the command it resolves to |
| LineParser.RefusedIffError | src/main/java/org/dvle/java_cli/Terminal.java:229-275 | a line is refused iff detectCommand may throw for it |
| LineParser.TokensOfValuedArgument | src/main/java/org/dvle/java_cli/Terminal.java:334-349 | " --name=value" gives the single token name to value |
| LineParser.TokensOfFlag | src/main/java/org/dvle/java_cli/Terminal.java:350-352 | " --name" gives the single token name to null |
| LineParser.TokensOfReservedValue | src/main/java/org/dvle/java_cli/Terminal.java:344-354 | a value holding ';', ':' or ',' is a syntax error |
| LineParser.GreetResolves | src/main/java/org/dvle/java_cli/Terminal.java:234-246 | "greet" followed by nothing or a space resolves to the registered command, and the rest is its argument text |
| LineParser.GreetValueChecks | src/main/java/org/dvle/java_cli/Terminal.java:369-416 | " --name=v" binds the mandatory STRING argument to v |
| LineParser.GreetAccepted | src/main/java/org/dvle/java_cli/Terminal.java:229-274 | "greet --name=v" is accepted with name bound to v as written |
| LineParser.GreetMissingName | src/main/java/org/dvle/java_cli/Terminal.java:411-416 | "greet" alone is refused for the missing mandatory argument |
| LineParser.GreetFlagChecks | src/main/java/org/dvle/java_cli/Terminal.java:396-400 | a valued argument written as a flag is refused as needing a value |
| LineParser.GreetFlagRefused | src/main/java/org/dvle/java_cli/Terminal.java:396-400 | the whole line "greet --name" is refused, with that error |
| LineParser.GreetReservedChecks | src/main/java/org/dvle/java_cli/Terminal.java:353-354 | a reserved character in the value is a syntax error of the argument text |
| LineParser.GreetReservedRefused | src/main/java/org/dvle/java_cli/Terminal.java:353-354 | the whole line is refused, with that error |
| LineParser.ExitAccepted | src/main/java/org/dvle/java_cli/Terminal.java:238-239 | "exit" is accepted as the exit command with no arguments |
| LineParser.ExitOnlyOnWholeLine | src/main/java/org/dvle/java_cli/Terminal.java:238-250 | "exit --now" and the empty line are "not found" on a terminal with no other command |
| LineParser.SpacedExitChecks | src/main/java/org/dvle/java_cli/Terminal.java:262-272 | for a command with no arguments, " out" is a token and hence refused |
| LineParser.SpacedExitNameRefused | src/main/java/org/dvle/java_cli/Terminal.java:238-272 | an exit command with no arguments named "log out" is refused on its own name |
| Shell.Notified | src/main/java/org/dvle/java_cli/Terminal.java:425-433 | the listeners reached form a prefix of the listener list, non-empty when the list is |
| Shell.NotifiedStopsAtConsumer | src/main/java/org/dvle/java_cli/Terminal.java:425-433 | no listener before the last one reached consumed the event, and propagation stops early only at a consumer (or after the first, for an event that came consumed) |
| Shell.NotifiedAllWhenNoneConsumes | src/main/java/org/dvle/java_cli/Terminal.java:425-433 | when no listener consumes, every listener is reached |
| Shell.NotifiedUpTo | src/main/java/org/dvle/java_cli/Terminal.java:425-433 | propagation reaches exactly the listeners up to the first consumer |
| Shell.Without | src/main/java/org/dvle/java_cli/Terminal.java:123 | the listener is gone, and every other one is kept |
| Shell.WithoutDistinct | src/main/java/org/dvle/java_cli/Terminal.java:114-124 | removal keeps the listeners distinct and removes exactly one entry |
| Shell.Execute | src/main/java/org/dvle/java_cli/ExitCommandDescription.java:29-31 | runCommand of the exit command completes and does nothing else |
| Shell.ReadsExactlyUnique | src/main/java/org/dvle/java_cli/Terminal.java:155-169 | only one number of lines read meets the loop's stopping rule |
| Shell.OutcomeStops | src/main/java/org/dvle/java_cli/Terminal.java:205-208 | a line's outcome sets the stop flag iff the line resolves, with its arguments, to an exit command |
| Shell.LogReadsExactly | src/main/java/org/dvle/java_cli/Terminal.java:147-176 | a run's log reads exactly the lines up to the first that stops the terminal, or all of them |
| Shell.RunSoFarStep | src/main/java/org/dvle/java_cli/Terminal.java:155-169 | one more iteration, while not stopped, keeps the loop invariant of run |
| Shell.Terminal.constructor | src/main/java/org/dvle/java_cli/Terminal.java:66-78 | a new terminal has no listener, no command, the given exit command and the stop flag lowered |
| Shell.Terminal.Create | src/main/java/org/dvle/java_cli/Terminal.java:66-78 | a null exit command is refused with NullPointerException, and only it |
| Shell.Terminal.NewDefault | src/main/java/org/dvle/java_cli/Terminal.java:92-94 | the default terminal's exit command is named "exit" and declares no arguments; nothing is registered and the stop flag is lowered |
| Shell.Terminal.AddListener | src/main/java/org/dvle/java_cli/Terminal.java:101-107 | null is refused; a new listener is appended; a registered one is not added again |
| Shell.Terminal.RemoveListener | src/main/java/org/dvle/java_cli/Terminal.java:114-124 | null or unregistered: refused and unchanged; otherwise exactly that listener is removed, the others keep their order |
| Shell.Terminal.AddCommand | src/main/java/org/dvle/java_cli/Terminal.java:131-141 | null or a name already registered (so adding the same command twice, or another of the same name): refused and unchanged; otherwise exactly name to command is added |
| Shell.Terminal.ExtractCommand | src/main/java/org/dvle/java_cli/Terminal.java:289-310 | the scan returns the text before the first space, or the whole line |
| Shell.Terminal.ExtractArguments | src/main/java/org/dvle/java_cli/Terminal.java:320-359 | the loop over the pieces computes exactly the tokens the grammar defines, or its syntax error |
| Shell.Terminal.BindArguments | src/main/java/org/dvle/java_cli/Terminal.java:375-406 | succeeds iff every token binds, and then the invocation holds exactly the bound map; otherwise the error of some failing token |
| Shell.Terminal.CheckMandatory | src/main/java/org/dvle/java_cli/Terminal.java:411-416 | passes iff no mandatory argument is missing; otherwise reports the first missing one |
| Shell.Terminal.ParseArguments | src/main/java/org/dvle/java_cli/Terminal.java:369-418 | passes iff every token binds and every mandatory argument is present, with the invocation holding the bound map; otherwise an admissible error |
| Shell.Terminal.DetectCommand | src/main/java/org/dvle/java_cli/Terminal.java:229-275 | null iff the line names no command; an error iff the line is refused, and then an admissible one; otherwise a fresh invocation of the resolved command with exactly the bound arguments |
| Shell.Terminal.Lookup | src/main/java/org/dvle/java_cli/Terminal.java:234-250 | the exit command on the whole line, else the registered command of the extracted name, else null |
| Shell.Terminal.Invoke | src/main/java/org/dvle/java_cli/Terminal.java:252-274 | the argument phase fails iff its text is refused, with an admissible error; otherwise a fresh invocation with the bound arguments; a command with no arguments refuses every token |
| Shell.Terminal.RaiseStop | src/main/java/org/dvle/java_cli/Terminal.java:205-208 | raises the stop flag and leaves the commands as they were |
| Shell.Terminal.LowerStop | src/main/java/org/dvle/java_cli/Terminal.java:148 | lowers the stop flag and leaves the commands as they were |
| Shell.Terminal.ParseLine | src/main/java/org/dvle/java_cli/Terminal.java:178-217 | the outcome is one the line allows; the stop flag is raised iff the command run is an exit command, and errors, "not found" and failed executions leave it unchanged |
| Shell.Terminal.ReadLine | src/main/java/org/dvle/java_cli/Terminal.java:157-167 | an empty line is skipped; any other is parsed |
| Shell.Terminal.Run | src/main/java/org/dvle/java_cli/Terminal.java:147-176 | every outcome is allowed for its line; no outcome before the last stops; the run ends early only at a stop, and the flag ends raised iff the last outcome stopped |
| Shell.Terminal.PropagateCommand | src/main/java/org/dvle/java_cli/Terminal.java:425-433 | the listeners reached are those `Notified` defines, and the event ends consumed iff it came consumed or one of them consumed it |
| Shell.Terminal.SendCommandToHandlers | src/main/java/org/dvle/java_cli/ExecutionEnvironment.java:57-62 | a fresh unconsumed event carrying the data is propagated |
| Shell.ExitLine | src/main/java/org/dvle/java_cli/Terminal.java:205-216 | an accepted exit line runs the exit command with no arguments and completes |
| Shell.ExitFirstEndsRun | src/test/java/org/dvle/java_cli/TerminalTest.java:81-92 | fed the exit command's name first, the terminal runs it and reads no further line |
| Shell.ExitLineAccepted | src/main/java/org/dvle/java_cli/Terminal.java:238-239 | "exit", once trimmed, is accepted as the exit command |
| Loader.ConvertPackageName | src/main/java/org/dvle/java_cli/CommandLoader.java:175-184 | an empty name is refused, and only it; otherwise every '.' becomes '/', every other character and the length are kept |
| Loader.ConvertToPackageName | src/main/java/org/dvle/java_cli/CommandLoader.java:192-205 | an empty name is refused, and only it; otherwise the result has no '/' and is no longer than the input; a name not ending in ".class" keeps every character except that each '/' becomes '.' |
| Loader.SanitizeClassName | src/main/java/org/dvle/java_cli/CommandLoader.java:214-223 | the result is the package, a dot and the class name, which is unchanged unless it ends with ".class"; a name that ends with ".class" loses every occurrence of it (see SanitizeClassNameMeaning) |
| Loader.SanitizeClassNameMeaning | src/main/java/org/dvle/java_cli/CommandLoader.java:214-223 | for a class name ending in ".class", cut by its ".class" occurrences into chunks: the result is the package, a dot and the chunks in order |
| Loader.ClassNamePatternMeaning | src/main/java/org/dvle/java_cli/CommandLoader.java:28 | the pattern matches a name iff it ends with "Command.class" and contains no line terminator |
| Loader.JarEntrySelectedMeaning | src/main/java/org/dvle/java_cli/CommandLoader.java:157-164 | a jar entry is loaded iff it starts with the slashed package name, ends with "Command.class" and contains no line terminator |
| Loader.ConvertToPackageNameMeaning | src/main/java/org/dvle/java_cli/CommandLoader.java:192-205 | for a name ending in ".class", cut by its ".class" occurrences into chunks: the result is the chunks in order, with every '/' made '.' |
| Strings.RemoveAllJoin | src/main/java/org/dvle/java_cli/CommandLoader.java:198 | `replace(".class", "")` on any text cut by its occurrences of a pattern whose first character does not recur leaves exactly the chunks, in order |
| Loader.EntryNameRoundTrip | src/main/java/org/dvle/java_cli/CommandLoader.java:175-205 | the entry `<slashed package>/<name>.class` converts back to `<package>.<name>`, for a package without '/' and a class name without '.' or '/' |
| Loader.SanitizeClassFile | src/main/java/org/dvle/java_cli/CommandLoader.java:214-223 | a class file name with no other ".class" loses just its extension |
| Loader.SanitizeRemovesEveryOccurrence | src/main/java/org/dvle/java_cli/CommandLoader.java:218-220 | every ".class" goes, not only the last: "A.classB.class" gives "AB" |

## Left out

- Stream I/O: the `Scanner`, the prompt, the startup and stop texts, the ANSI console and `Settings`. The input is a sequence of lines and the output is the log of outcomes. Messages printed for errors are not modelled, only which error it is.
- End of input: Java's `nextLine` throws `NoSuchElementException` when the input ends without an exit line. The model's `Run` returns the log of the lines it had.
- `setPrompt`: it only stores an ANSI value for printing.
- Reflection and class loading: `loadFromPackage`, `loadFromFile`, `loadFromJar`, `loadClass` and `getLoadedClasses`, and the `CommandLoader` constructor. Only their string helpers and the name filter are modelled; a loaded command would reach the terminal through `AddCommand`.
- Command bodies: `runCommand` is abstract, so it is the parameter `body`. Execution errors become `ExecutionFailed` in the log and do not stop the loop. A subclass of the exit command that overrides its empty `runCommand` is not modelled.
- Listener callbacks: `commandRequest` is the parameter `consumes`. `stopRequest` is never called by the core.
- Shell.Terminal.AddListener (listener order): the source keeps listeners in a `TreeSet` without a comparator. `addListener` therefore throws ClassCastException for any listener that does not implement `Comparable`, and `CommandListener` does not extend it. The model has every non-null listener added, keeps the listeners in insertion order, and keeps out duplicates. The same set affects Shell.Terminal.RemoveListener, whose `contains` would throw ClassCastException before the "not registered" check, and Shell.Terminal.PropagateCommand, which in the source visits the listeners in `compareTo` order rather than insertion order.
- Concurrency: the terminal runs on its own thread, and `propagateCommand` would fail with a concurrent modification if a listener deregistered itself while being notified. Neither is modelled.
- Arguments.ParseAs: DECIMAL accepts the decimal literals of `Double.parseDouble` (after trimming, including "NaN" and "Infinity") and keeps the trimmed text. It does not model hexadecimal floating-point literals or the rounding to a binary64 value.
- Arguments.ParseAs: digits are the ASCII digits `0`..`9`. `Integer.parseInt` also accepts other Unicode decimal digits.
- Arguments.ParseAs: FILE_PATH keeps the path text. `java.io.File` normalisation of separators is not modelled.
- `line.replaceFirst(command, "")` reads the command name as a regular expression. The model removes the name as a literal prefix, which is the same for names without regular-expression metacharacters.
- Invocations.CommandInvocation: the argument map is keyed by the argument's name rather than by the description object. `ArgumentDescription` overrides `equals` without `hashCode`, so the Java map relies on identity hashing.
- Java `assert` statements are taken as disabled. In particular `assert (argValue != null)` in `parseArguments` would otherwise refuse every flag.
- `parseArguments` visits tokens in `HashMap` order. When several tokens are wrong, the model allows the error of any of them.
