// One qinit service file: its arguments, the command definition, the
// dependencies on other services and the permissions it runs with, and the
// checks each of them makes on itself.
module ServiceConfigs {
  import opened Wrappers
  import opened Validation

  datatype Argument = Argument(name: string, description: Option<string>, required: bool, default: Option<string>)

  /** Checks one argument: an empty name is fatal; a required argument with a default is a warning. */
  function ValidateArgument(a: Argument): (r: ValidationResult)
    ensures IsFatal(r) <==> a.name == ""
    ensures IsError(r) <==> a.name == "" || (a.required && a.default.Some?)
    ensures |r.errors| == (if a.name == "" then 1 else 0) + (if a.required && a.default.Some? then 1 else 0)
  {
    var r := if a.name == "" then AddError(NoErrors, Fatal("Argument name cannot be empty")) else NoErrors;
    var r' := if a.required && a.default.Some? then AddError(r, Warning("Required argument cannot have a default value")) else r;
    AddErrorVerdict(NoErrors, Fatal("Argument name cannot be empty"));
    AddErrorVerdict(r, Warning("Required argument cannot have a default value"));
    r'
  }

  datatype ServiceDefinition = ServiceDefinition(command: string, arguments: seq<Argument>)

  /** The `any` of `has_argument`, walking the arguments front to back. */
  predicate HasArgumentIn(args: seq<Argument>, name: string)
  {
    if args == [] then false else args[0].name == name || HasArgumentIn(args[1..], name)
  }

  predicate HasArgument(d: ServiceDefinition, name: string)
  {
    HasArgumentIn(d.arguments, name)
  }

  /** `has_argument(n)` holds exactly when some argument is named n. */
  lemma {:induction false} HasArgumentSome(args: seq<Argument>, name: string)
    ensures HasArgumentIn(args, name) <==> exists i :: 0 <= i < |args| && args[i].name == name
  {
    if args != [] {
      HasArgumentSome(args[1..], name);
      if HasArgumentIn(args[1..], name) {
        var i :| 0 <= i < |args[1..]| && args[1..][i].name == name;
        assert args[i + 1].name == name;
      }
      if args[0].name != name && exists i :: 0 <= i < |args| && args[i].name == name {
        var i :| 0 <= i < |args| && args[i].name == name;
        assert args[1..][i - 1].name == name;
      }
    }
  }

  /** Some argument after position 0 repeats the name of an argument before it. */
  ghost predicate HasDuplicateNames(args: seq<Argument>)
  {
    exists i, j :: 0 <= i < j < |args| && args[i].name == args[j].name
  }

  function ArgumentContext(a: Argument): string
  {
    "Argument " + a.name
  }

  function DuplicateError(a: Argument): ValidationError
  {
    Fatal("Duplicate argument name: " + a.name)
  }

  /**
   * The errors `ServiceDefinition::validate` reports for the arguments: each
   * argument's own errors under "Argument <name>", then a fatal error when an
   * earlier argument has the same name.
   */
  ghost function ArgumentErrors(args: seq<Argument>): ValidationResult
    decreases |args|
  {
    if args == [] then NoErrors
    else
      var front := args[..|args| - 1];
      var a := args[|args| - 1];
      var own := Merge(ArgumentErrors(front), InContext(ValidateArgument(a), ArgumentContext(a)));
      if NamedIn(front, a.name) then AddError(own, DuplicateError(a)) else own
  }

  ghost function DefinitionErrors(d: ServiceDefinition): ValidationResult
  {
    var head := if d.command == "" then Single(Fatal("Command cannot be empty")) else NoErrors;
    Merge(head, ArgumentErrors(d.arguments))
  }

  ghost predicate NamedIn(args: seq<Argument>, name: string)
  {
    exists i :: 0 <= i < |args| && args[i].name == name
  }

  /** Some argument's own check reports an error. */
  ghost predicate FaultyIn(args: seq<Argument>)
  {
    exists i :: 0 <= i < |args| && (args[i].name == "" || (args[i].required && args[i].default.Some?))
  }

  lemma NamedInLast(args: seq<Argument>, name: string)
    requires args != []
    ensures NamedIn(args, name) <==> NamedIn(args[..|args| - 1], name) || args[|args| - 1].name == name
  {
    var front := args[..|args| - 1];
    if NamedIn(args, name) && args[|args| - 1].name != name {
      var i :| 0 <= i < |args| && args[i].name == name;
      assert front[i].name == name;
    }
    if NamedIn(front, name) {
      var i :| 0 <= i < |front| && front[i].name == name;
      assert args[i].name == name;
    }
  }

  lemma FaultyInLast(args: seq<Argument>)
    requires args != []
    ensures FaultyIn(args) <==>
      FaultyIn(args[..|args| - 1]) || (args[|args| - 1].name == "" || (args[|args| - 1].required && args[|args| - 1].default.Some?))
  {
    var front := args[..|args| - 1];
    if FaultyIn(args) {
      var i :| 0 <= i < |args| && (args[i].name == "" || (args[i].required && args[i].default.Some?));
      if i < |front| {
        assert front[i] == args[i];
      }
    }
    if FaultyIn(front) {
      var i :| 0 <= i < |front| && (front[i].name == "" || (front[i].required && front[i].default.Some?));
      assert args[i] == front[i];
    }
  }

  lemma DuplicatesLast(args: seq<Argument>)
    requires args != []
    ensures HasDuplicateNames(args) <==>
      HasDuplicateNames(args[..|args| - 1]) || NamedIn(args[..|args| - 1], args[|args| - 1].name)
  {
    var front := args[..|args| - 1];
    var n := |args| - 1;
    if HasDuplicateNames(args) && !HasDuplicateNames(front) {
      var i, j :| 0 <= i < j < |args| && args[i].name == args[j].name;
      assert front[i].name == args[n].name;
    }
    if HasDuplicateNames(front) {
      var i, j :| 0 <= i < j < |front| && front[i].name == front[j].name;
      assert args[i].name == args[j].name;
    }
    if NamedIn(front, args[n].name) {
      var i :| 0 <= i < |front| && front[i].name == args[n].name;
      assert args[i].name == args[n].name;
    }
  }

  /** The arguments' errors are fatal exactly for an empty or a repeated name. */
  lemma {:induction false} ArgumentErrorsVerdict(args: seq<Argument>)
    ensures IsFatal(ArgumentErrors(args)) <==> NamedIn(args, "") || HasDuplicateNames(args)
    ensures IsError(ArgumentErrors(args)) <==> FaultyIn(args) || HasDuplicateNames(args)
    decreases |args|
  {
    if args != [] {
      var front := args[..|args| - 1];
      var a := args[|args| - 1];
      ArgumentErrorsVerdict(front);
      var ctx := InContext(ValidateArgument(a), ArgumentContext(a));
      ContextVerdict(ValidateArgument(a), ArgumentContext(a));
      MergeVerdict(ArgumentErrors(front), ctx);
      AddErrorVerdict(Merge(ArgumentErrors(front), ctx), DuplicateError(a));
      NamedInLast(args, "");
      FaultyInLast(args);
      DuplicatesLast(args);
    }
  }

  /**
   * `ServiceDefinition::validate`: an empty command is fatal, then each
   * argument is checked in order, with a set of the names seen so far
   * catching repeats.
   */
  method ValidateDefinition(d: ServiceDefinition) returns (r: ValidationResult)
    ensures r == DefinitionErrors(d)
    ensures IsFatal(r) <==> d.command == "" || NamedIn(d.arguments, "") || HasDuplicateNames(d.arguments)
    ensures IsError(r) <==> d.command == "" || FaultyIn(d.arguments) || HasDuplicateNames(d.arguments)
  {
    var head := if d.command == "" then Single(Fatal("Command cannot be empty")) else NoErrors;
    r := head;
    var existing: set<string> := {};
    var i := 0;
    while i < |d.arguments|
      invariant 0 <= i <= |d.arguments|
      invariant r == Merge(head, ArgumentErrors(d.arguments[..i]))
      invariant existing == Names(d.arguments[..i])
    {
      var a := d.arguments[i];
      var ctx := WithContext(ValidateArgument(a), ArgumentContext(a));
      DefinitionStep(d.arguments, i, head, r, ctx, existing);
      r := Merge(r, ctx);
      if a.name in existing {
        r := AddError(r, DuplicateError(a));
      }
      existing := existing + {a.name};
      i := i + 1;
    }
    assert d.arguments[..i] == d.arguments;
    DefinitionVerdict(d);
  }

  lemma DefinitionVerdict(d: ServiceDefinition)
    ensures IsFatal(DefinitionErrors(d)) <==> d.command == "" || NamedIn(d.arguments, "") || HasDuplicateNames(d.arguments)
    ensures IsError(DefinitionErrors(d)) <==> d.command == "" || FaultyIn(d.arguments) || HasDuplicateNames(d.arguments)
  {
    var head := if d.command == "" then Single(Fatal("Command cannot be empty")) else NoErrors;
    ArgumentErrorsVerdict(d.arguments);
    MergeVerdict(head, ArgumentErrors(d.arguments));
    AddErrorVerdict(NoErrors, Fatal("Command cannot be empty"));
  }

  /** One more argument: its errors in context, then a repeat error if its name was seen. */
  lemma ArgumentErrorsStep(args: seq<Argument>, i: nat)
    requires i < |args|
    ensures ArgumentErrors(args[..i + 1]) ==
      var own := Merge(ArgumentErrors(args[..i]), InContext(ValidateArgument(args[i]), ArgumentContext(args[i])));
      if NamedIn(args[..i], args[i].name) then AddError(own, DuplicateError(args[i])) else own
  {
    assert args[..i + 1][..i] == args[..i];
  }

  /** One turn of the loop in `ServiceDefinition::validate` extends both the result and the set of names. */
  lemma DefinitionStep(args: seq<Argument>, i: nat, head: ValidationResult, r: ValidationResult,
                       ctx: ValidationResult, seen: set<string>)
    requires i < |args|
    requires r == Merge(head, ArgumentErrors(args[..i]))
    requires ctx == InContext(ValidateArgument(args[i]), ArgumentContext(args[i]))
    requires seen == Names(args[..i])
    ensures seen + {args[i].name} == Names(args[..i + 1])
    ensures (if args[i].name in seen then AddError(Merge(r, ctx), DuplicateError(args[i])) else Merge(r, ctx))
      == Merge(head, ArgumentErrors(args[..i + 1]))
  {
    var before := ArgumentErrors(args[..i]);
    ArgumentErrorsStep(args, i);
    NamesNamedIn(args[..i], args[i].name);
    assert args[..i + 1][..i] == args[..i];
    MergeAssociative(head, before, ctx);
    MergeAddError(head, Merge(before, ctx), DuplicateError(args[i]));
  }

  /** The names of the arguments, as the set the loop keeps. */
  ghost function Names(args: seq<Argument>): set<string>
  {
    if args == [] then {} else Names(args[..|args| - 1]) + {args[|args| - 1].name}
  }

  lemma {:induction false} NamesNamedIn(args: seq<Argument>, name: string)
    ensures name in Names(args) <==> NamedIn(args, name)
    decreases |args|
  {
    if args != [] {
      NamesNamedIn(args[..|args| - 1], name);
      NamedInLast(args, name);
    }
  }

  datatype Dependency = Dependency(name: string, args: map<string, string>)

  datatype Permissions = Permissions(user: string, group: string, create: bool)

  /** The default permissions: user and group "root", nothing created. */
  const DefaultPermissions := Permissions("root", "root", false)

  /** Checks the permissions: an empty user and an empty group are each fatal. */
  function ValidatePermissions(p: Permissions): (r: ValidationResult)
    ensures IsFatal(r) <==> p.user == "" || p.group == ""
    ensures IsError(r) <==> IsFatal(r)
    ensures |r.errors| == (if p.user == "" then 1 else 0) + (if p.group == "" then 1 else 0)
  {
    var r := if p.user == "" then AddError(NoErrors, Fatal("User cannot be empty")) else NoErrors;
    AddErrorVerdict(NoErrors, Fatal("User cannot be empty"));
    AddErrorVerdict(r, Fatal("Group cannot be empty"));
    if p.group == "" then AddError(r, Fatal("Group cannot be empty")) else r
  }

  /** The default permissions pass their own check. */
  lemma DefaultPermissionsValid()
    ensures !IsError(ValidatePermissions(DefaultPermissions))
  {
  }

  datatype ServiceConfig = ServiceConfig(
    name: string,
    description: Option<string>,
    service: ServiceDefinition,
    wants: seq<Dependency>,
    needs: seq<Dependency>,
    permissions: Permissions,
    runtimeDirectory: Option<string>,
    errors: ValidationResult)

  /** The errors of a service before they are put in the service's context. */
  ghost function ServiceErrors(c: ServiceConfig): ValidationResult
  {
    var head := if c.name == "" then Single(Fatal("Service name cannot be empty")) else NoErrors;
    Merge(Merge(head, DefinitionErrors(c.service)), ValidatePermissions(c.permissions))
  }

  function ServiceContext(c: ServiceConfig): string
  {
    "Service " + c.name
  }

  /** Whether a service's own checks find a fatal problem. */
  ghost predicate ServiceFatal(c: ServiceConfig)
  {
    c.name == "" || c.service.command == "" || NamedIn(c.service.arguments, "") ||
    HasDuplicateNames(c.service.arguments) ||
    c.permissions.user == "" || c.permissions.group == ""
  }

  /**
   * `ServiceConfig::validate`: the service's own errors are stored, unprefixed,
   * in its `errors` field; the caller gets them under "Service <name>".
   */
  method ValidateService(c: ServiceConfig) returns (updated: ServiceConfig, r: ValidationResult)
    ensures updated == c.(errors := ServiceErrors(c))
    ensures r == InContext(ServiceErrors(c), ServiceContext(c))
    ensures IsFatal(r) <==> ServiceFatal(c)
  {
    var head := if c.name == "" then Single(Fatal("Service name cannot be empty")) else NoErrors;
    var def := ValidateDefinition(c.service);
    var result := Merge(Merge(head, def), ValidatePermissions(c.permissions));
    updated := c.(errors := result);
    r := WithContext(result, ServiceContext(c));
    AddErrorVerdict(NoErrors, Fatal("Service name cannot be empty"));
    MergeVerdict(head, def);
    MergeVerdict(Merge(head, def), ValidatePermissions(c.permissions));
    ContextVerdict(result, ServiceContext(c));
  }
}
