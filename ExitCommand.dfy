/**
 * ExitCommandDescription.java: the command that ends the dispatcher loop.
 * It adds no argument of its own and its runCommand does nothing.
 */
module ExitCommand {
  import opened Wrappers
  import opened Errors
  import opened Commands

  const DEFAULT_NAME: string := "exit"

  /** The protected constructor: `super(name)`, so only the name is checked. */
  method NewExitCommand(name: Option<string>) returns (r: Result<CommandDescription, SetupError>)
    ensures r.Failure? <==> name.None? || |name.value| == 0
    ensures r.Success? ==> fresh(r.value) && r.value.Valid() && r.value.kind == Exit && r.value.name == name.value
    ensures r.Success? ==> r.value.arguments == map[] && r.value.mandatoryArguments == []
  {
    r := CommandDescription.Create(name, Exit);
  }

  /** ExitCommandDescription.DEFAULT: the exit command named "exit". */
  method Default() returns (e: CommandDescription)
    ensures fresh(e) && e.Valid() && e.kind == Exit && e.name == "exit"
    ensures e.arguments == map[] && e.mandatoryArguments == []
  {
    e := new CommandDescription(DEFAULT_NAME, Exit);
  }
}
