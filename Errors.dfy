/**
 * The exceptions of the shell, as data.  Setup errors are thrown to the
 * application that declares commands; line errors are reported by the
 * dispatcher loop and never leave it.
 */
module Errors {

  /** Exceptions thrown while declaring arguments, commands and listeners. */
  datatype SetupError =
    | NullReference           // NullPointerException on a null argument
    | BlankArgumentName       // IllegalArgumentException("Argument name cannot be blank!")
    | MandatoryFlag           // IllegalArgumentException: a single-type argument cannot be mandatory
    | TypedFlag               // IllegalArgumentException: a single-type argument cannot have a value type
    | InvalidCommandName      // IllegalArgumentException: the command name can't be null or blank
    | DuplicateArgument       // RuntimeException: argument description already inserted
    | DuplicateCommand        // RuntimeException: more commands with the same name
    | ListenerNotRegistered   // RuntimeException: the listener to deregister is not registered
    | BlankPackageName        // IllegalArgumentException: package name must be != ""

  /** Errors raised while parsing one input line. */
  datatype LineError =
    | TooManyCharacters               // CommandSyntaxError: a token is neither name=value nor a bare name
    | NoArgumentsAccepted             // CommandSyntaxError: the command declares no arguments
    | UnknownParameter(name: string)  // CommandSyntaxError: the parameter is not accepted by this command
    | ValueNotAccepted(name: string)  // CommandSyntaxError: the parameter does not accept values
    | ValueRequired(name: string)     // CommandSyntaxError: the parameter must accept values
    | MissingMandatory(name: string)  // CommandSyntaxError: a mandatory parameter was missed
    | ArgumentParse(input: string)    // ArgumentParseException: the value text is not of the declared type
  {
    /** True for the errors the Java code throws as CommandSyntaxError. */
    predicate IsSyntaxError() {
      !ArgumentParse?
    }
  }

  /** What a command's execution operation does: it returns or throws CommandExecutionException. */
  datatype ExecOutcome = Completed | ExecutionFailed(reason: string)
}
