/** Gitlet's command dispatch: the table of commands by trigger word, and
    the checks made on the program's arguments before a command runs. */
module GitletCommands {
  import opened Common

  /** What dispatch needs of a command: whether it accepts the operands it
      is given (checkOperands) and whether it needs an open repository
      (requiresRepo). What it does when it runs is not part of this
      model. */
  datatype Command = Command(checkOperands: seq<string> -> bool, requiresRepo: bool)

  /** A command to run: its trigger and its operands. */
  datatype Run = Run(trigger: string, operands: seq<string>)

  /** process(localRepo, args) up to the call of run: the checks in order,
      for arguments that may be null (None). */
  function Dispatch(commands: map<string, Command>, args: Option<seq<string>>, repoOpen: bool): (r: Result<Run>)
    ensures (args.None? || args.value == []) ==> r == Err("Please enter a command.")
    ensures r.Ok? ==> args.Some? && |args.value| >= 1 && r.value.trigger == args.value[0]
                      && r.value.trigger in commands && r.value.operands == args.value[1..]
  {
    if args.None? || |args.value| == 0 then Err("Please enter a command.")
    else
      var trigger := args.value[0];
      if trigger !in commands then Err("No command with that name exists.")
      else
        var command := commands[trigger];
        var operands := args.value[1..];
        if !command.checkOperands(operands) then Err("Incorrect operands.")
        else if command.requiresRepo && !repoOpen then Err("Not in an initialized gitlet directory.")
        else Ok(Run(trigger, operands))
  }

  /** Each check is made only once the ones before it pass, and a command
      runs exactly when all of them pass; the operands are all the
      arguments after the trigger. */
  lemma DispatchOrder(commands: map<string, Command>, args: seq<string>, repoOpen: bool)
    requires |args| >= 1
    ensures var r := Dispatch(commands, Some(args), repoOpen);
            && (args[0] !in commands ==> r == Err("No command with that name exists."))
            && (args[0] in commands && !commands[args[0]].checkOperands(args[1..]) ==> r == Err("Incorrect operands."))
            && (args[0] in commands && commands[args[0]].checkOperands(args[1..]) && commands[args[0]].requiresRepo && !repoOpen
                ==> r == Err("Not in an initialized gitlet directory."))
            && (r.Ok? <==> args[0] in commands && commands[args[0]].checkOperands(args[1..])
                           && (!commands[args[0]].requiresRepo || repoOpen))
            && (r.Ok? ==> r.value == Run(args[0], args[1..]))
  {
  }

  /** A command that accepts its operands but needs a repository is
      refused outside one for that reason only, and runs inside one. */
  lemma RepositoryCheckLast(commands: map<string, Command>, args: seq<string>)
    requires |args| >= 1 && args[0] in commands && commands[args[0]].checkOperands(args[1..])
    ensures Dispatch(commands, Some(args), true) == Ok(Run(args[0], args[1..]))
    ensures commands[args[0]].requiresRepo ==> Dispatch(commands, Some(args), false) == Err("Not in an initialized gitlet directory.")
  {
  }

  class CommandManager {
    var commandMap: map<string, Command>

    constructor ()
      ensures commandMap == map[]
    {
      commandMap := map[];
    }

    /** add(trigger, newCommand): the trigger now names the new command. */
    method Add(trigger: string, newCommand: Command)
      modifies this
      ensures commandMap == old(commandMap)[trigger := newCommand]
    {
      commandMap := commandMap[trigger := newCommand];
    }

    /** process(localRepo, args), up to the call of run. */
    function Process(args: Option<seq<string>>, repoOpen: bool): (r: Result<Run>)
      reads this
      ensures args.Some? && |args.value| >= 1 && args.value[0] !in commandMap ==> r == Err("No command with that name exists.")
      ensures r.Ok? ==> r.value.trigger in commandMap && commandMap[r.value.trigger].checkOperands(r.value.operands)
    {
      Dispatch(commandMap, args, repoOpen)
    }
  }

  /** After add(trigger, c), the trigger dispatches to c; other triggers
      dispatch as before. */
  method AddThenProcess(m: CommandManager, trigger: string, c: Command, operands: seq<string>, other: seq<string>, repoOpen: bool)
    returns (r: Result<Run>, s: Result<Run>)
    requires |other| >= 1 && other[0] != trigger
    modifies m
    ensures r.Ok? <==> c.checkOperands(operands) && (!c.requiresRepo || repoOpen)
    ensures r.Ok? ==> r.value == Run(trigger, operands)
    ensures s == old(m.Process(Some(other), repoOpen))
  {
    m.Add(trigger, c);
    r := m.Process(Some([trigger] + operands), repoOpen);
    assert ([trigger] + operands)[1..] == operands;
    s := m.Process(Some(other), repoOpen);
  }
}
