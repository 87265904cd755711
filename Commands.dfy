/**
 * A command of the shell (CommandDescription.java): a name, a map from
 * argument name to argument description that each name enters once, and the
 * derived, append-only list of the mandatory descriptions.  runCommand is
 * abstract; `kind` records whether the object is an ExitCommandDescription.
 */
module Commands {
  import opened Wrappers
  import opened Errors
  import opened Arguments
  import opened Strings

  /** ExitCommandDescription, or some other subclass of the abstract CommandDescription. */
  datatype CommandKind = Exit | Custom

  /** Every key names its own description, and each description is as its constructor left it. */
  predicate KeyedByName(args: map<string, ArgumentDescription>) {
    forall k :: k in args ==> args[k].name == k && args[k].WellFormed()
  }

  /** `mandatory` lists, each once, exactly the mandatory descriptions stored in `args`. */
  predicate ListsMandatory(args: map<string, ArgumentDescription>, mandatory: seq<ArgumentDescription>) {
    && (forall i :: 0 <= i < |mandatory| ==>
          mandatory[i].name in args && args[mandatory[i].name] == mandatory[i] && mandatory[i].mandatory)
    && (forall i, j :: 0 <= i < j < |mandatory| ==> mandatory[i].name != mandatory[j].name)
    && (forall k :: k in args && args[k].mandatory ==> args[k] in mandatory)
  }

  /** Java's `arguments.containsValue(ad)`: some stored description equals `ad`. */
  predicate ContainsValue(args: map<string, ArgumentDescription>, ad: ArgumentDescription) {
    exists k :: k in args && ad.Equals(ArgumentObject(args[k]))
  }

  /** Since equality is by name and keys are names, the duplicate test is a key test. */
  lemma ContainsValueIsKeyTest(args: map<string, ArgumentDescription>, ad: ArgumentDescription)
    requires KeyedByName(args)
    ensures ContainsValue(args, ad) <==> ad.name in args
  {
    if ad.name in args {
      assert ad.Equals(ArgumentObject(args[ad.name]));
    }
  }

  /** Inserting a new name and appending it when mandatory keeps the list exact. */
  lemma AddKeepsMandatoryList(args: map<string, ArgumentDescription>, mandatory: seq<ArgumentDescription>, ad: ArgumentDescription)
    requires KeyedByName(args) && ListsMandatory(args, mandatory)
    requires ad.WellFormed() && ad.name !in args
    ensures KeyedByName(args[ad.name := ad])
    ensures ListsMandatory(args[ad.name := ad], if ad.mandatory then mandatory + [ad] else mandatory)
  {
    var args' := args[ad.name := ad];
    var mandatory' := if ad.mandatory then mandatory + [ad] else mandatory;
    forall k | k in args' && args'[k].mandatory ensures args'[k] in mandatory' {
      if k != ad.name {
        assert args[k] in mandatory;
      }
    }
    forall i | 0 <= i < |mandatory'|
      ensures mandatory'[i].name in args' && args'[mandatory'[i].name] == mandatory'[i]
    {
      if i < |mandatory| {
        assert mandatory'[i] == mandatory[i];
      }
    }
  }

  /** The state of a command as a value, for the specifications of the parser. */
  datatype CommandView = CommandView(
    name: string,
    kind: CommandKind,
    arguments: map<string, ArgumentDescription>,
    mandatory: seq<ArgumentDescription>)
  {
    predicate Valid() {
      |name| > 0 && KeyedByName(arguments) && ListsMandatory(arguments, mandatory)
    }
  }

  class CommandDescription {
    const name: string
    const kind: CommandKind
    var arguments: map<string, ArgumentDescription>
    var mandatoryArguments: seq<ArgumentDescription>

    function View(): CommandView
      reads this`arguments, this`mandatoryArguments
    {
      CommandView(name, kind, arguments, mandatoryArguments)
    }

    predicate Valid()
      reads this`arguments, this`mandatoryArguments
    {
      View().Valid()
    }

    /** The constructor once its name check has passed. */
    constructor (name: string, kind: CommandKind)
      requires |name| > 0
      ensures Valid() && this.name == name && this.kind == kind
      ensures arguments == map[] && mandatoryArguments == []
    {
      this.name := name;
      this.kind := kind;
      arguments := map[];
      mandatoryArguments := [];
    }

    /** `new CommandDescription(name)`: a null or blank name is refused. */
    static method Create(name: Option<string>, kind: CommandKind) returns (r: Result<CommandDescription, SetupError>)
      ensures r.Failure? <==> name.None? || |name.value| == 0
      ensures r.Failure? ==> r.error == InvalidCommandName
      ensures r.Success? ==> fresh(r.value) && r.value.Valid() && r.value.name == name.value && r.value.kind == kind
      ensures r.Success? ==> r.value.arguments == map[] && r.value.mandatoryArguments == []
    {
      if name.None? || |name.value| == 0 {
        return Failure(InvalidCommandName);
      }
      var c := new CommandDescription(name.value, kind);
      return Success(c);
    }

    /** addArgument: null and duplicate descriptions are refused and change nothing. */
    method AddArgument(ad: Option<ArgumentDescription>) returns (r: Outcome<SetupError>)
      requires Valid()
      requires ad.Some? ==> ad.value.WellFormed()
      modifies this
      ensures Valid()
      ensures ad.None? ==> r == Fail(NullReference)
      ensures ad.Some? && ContainsValue(old(arguments), ad.value) ==> r == Fail(DuplicateArgument)
      ensures ad.Some? && !ContainsValue(old(arguments), ad.value) ==> r == Pass
      ensures r.Fail? ==> arguments == old(arguments) && mandatoryArguments == old(mandatoryArguments)
      ensures r.Pass? ==> arguments == old(arguments)[ad.value.name := ad.value]
      ensures r.Pass? ==> mandatoryArguments == old(mandatoryArguments) + (if ad.value.mandatory then [ad.value] else [])
    {
      if ad.None? {
        return Fail(NullReference);
      }
      var a := ad.value;
      if ContainsValue(arguments, a) {
        return Fail(DuplicateArgument);
      }
      ContainsValueIsKeyTest(arguments, a);
      AddKeepsMandatoryList(arguments, mandatoryArguments, a);
      arguments := arguments[a.name := a];
      if a.mandatory {
        mandatoryArguments := mandatoryArguments + [a];
      }
      return Pass;
    }

    /** getMandatoryArguments: a copy (a value) of the list of the mandatory descriptions. */
    method GetMandatoryArguments() returns (copy: seq<ArgumentDescription>)
      requires Valid()
      ensures copy == mandatoryArguments
      ensures forall i :: 0 <= i < |copy| ==> copy[i].mandatory && copy[i].name in arguments && arguments[copy[i].name] == copy[i]
      ensures forall i, j :: 0 <= i < j < |copy| ==> copy[i].name != copy[j].name
      ensures forall k :: k in arguments && arguments[k].mandatory ==> arguments[k] in copy
    {
      copy := mandatoryArguments;
    }

    /** isCalled: the line is exactly the command's name. */
    predicate IsCalled(line: string)
      ensures IsCalled(line) <==> StartsWith(line, name) && |line| == |name|
    {
      line == name
    }
  }
}
