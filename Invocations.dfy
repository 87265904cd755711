/**
 * CommandInvocation.java: the command a line resolved to, and the map from
 * argument name to bound value that the parser fills in place.  A flag
 * binds to None (Java's null), a valued argument to its parsed value;
 * being a map, it holds at most one value per argument.
 */
module Invocations {
  import opened Wrappers
  import opened Arguments
  import opened Commands

  class CommandInvocation {
    const command: CommandDescription
    var arguments: map<string, Option<Value>>

    /** A new invocation of `command`, with nothing bound yet. */
    constructor (command: CommandDescription)
      ensures this.command == command && arguments == map[]
    {
      this.command := command;
      arguments := map[];
    }

    /** `arguments.put(...)`: binds one argument, overwriting nothing else. */
    method Put(name: string, value: Option<Value>)
      modifies this`arguments
      ensures arguments == old(arguments)[name := value]
    {
      arguments := arguments[name := value];
    }
  }
}
