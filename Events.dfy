/**
 * CommandEvent.java: what listeners receive when a command asks for its
 * invocation to be propagated.  `consumed` starts false and only
 * consume() writes it, always to true; `data` is an opaque payload,
 * modelled as optional text.
 */
module Events {
  import opened Wrappers
  import opened Errors
  import opened Invocations

  class CommandEvent {
    var consumed: bool
    const commandInvocation: CommandInvocation
    var data: Option<string>

    constructor (ci: CommandInvocation)
      ensures !consumed && data.None? && commandInvocation == ci
    {
      consumed := false;
      commandInvocation := ci;
      data := None;
    }

    /** The package-private constructor, which throws on a null invocation. */
    static method Create(ci: CommandInvocation?) returns (r: Result<CommandEvent, SetupError>)
      ensures ci == null ==> r == Failure(NullReference)
      ensures ci != null ==> r.Success? && fresh(r.value) && !r.value.consumed && r.value.data.None?
      ensures ci != null ==> r.value.commandInvocation == ci
    {
      if ci == null {
        return Failure(NullReference);
      }
      var e := new CommandEvent(ci);
      return Success(e);
    }

    /** consume(): marks the event consumed; on a consumed event it changes nothing. */
    method Consume()
      modifies this`consumed
      ensures consumed
    {
      consumed := true;
    }
  }
}
