/** `CommandRegistry`: commands and their descriptions, both keyed by command name. */
module Registry {
  import opened Wrappers
  import opened Commands

  class CommandRegistry {
    var commands: map<string, Command>
    var descriptions: map<string, string>

    /** Every registered name has a description and the other way round, and every command
        is stored under its own name. */
    ghost predicate Valid()
      reads this
    {
      && commands.Keys == descriptions.Keys
      && forall n :: n in commands ==> Name(commands[n]) == n
    }

    constructor()
      ensures Valid() && commands == map[] && descriptions == map[]
    {
      commands := map[];
      descriptions := map[];
    }

    /** `CommandRegistry.Register`: the command and its description are stored under the
        command's name, replacing any earlier registration of that name. */
    method Register(command: Command, description: string)
      requires Valid()
      modifies this
      ensures Valid()
      ensures commands == old(commands)[Name(command) := command]
      ensures descriptions == old(descriptions)[Name(command) := description]
      ensures Resolve(Name(command)) == Some(command) && GetDescription(Name(command)) == Some(description)
      ensures forall n :: n != Name(command) ==> Resolve(n) == old(Resolve(n)) && GetDescription(n) == old(GetDescription(n))
      ensures GetAllCommandNames() == old(GetAllCommandNames()) + {Name(command)}
      ensures old(Resolve(Name(command))) == Some(command) && old(GetDescription(Name(command))) == Some(description)
              ==> commands == old(commands) && descriptions == old(descriptions)
    {
      commands := commands[Name(command) := command];
      descriptions := descriptions[Name(command) := description];
    }

    /** `CommandRegistry.Resolve`: the command registered under `name`, if any. */
    function Resolve(name: string): (r: Option<Command>)
      reads this
      ensures r.Some? <==> name in commands
      ensures Valid() && r.Some? ==> Name(r.value) == name
    {
      if name in commands then Some(commands[name]) else None
    }

    /** `CommandRegistry.GetDescription`: the description registered under `name`, if any. */
    function GetDescription(name: string): (r: Option<string>)
      reads this
      ensures r.Some? <==> name in descriptions
    {
      if name in descriptions then Some(descriptions[name]) else None
    }

    /** `CommandRegistry.GetAllCommandNames`: the registered names, each once. */
    function GetAllCommandNames(): (names: set<string>)
      reads this
      ensures forall n :: n in names <==> Resolve(n).Some?
    {
      commands.Keys
    }
  }
}
