/** `parsed_command.rs`: the mutable record a request is turned into. */
module ParsedCommands {
  import opened Wrappers
  import opened Text
  import Commands

  class ParsedCommand {
    /** The digit after `*` in the legacy text format. */
    var numArgsInInput: Option<u8>
    var command: Option<Commands.Command>
    var args: Option<seq<Bytes>>

    /** `ParsedCommand::new`: every field unset. */
    constructor ()
      ensures numArgsInInput == None && command == None && args == None
    {
      numArgsInInput := None;
      command := None;
      args := None;
    }

    function NumArgsInInput(): Option<u8>
      reads this
    {
      numArgsInInput
    }

    function Command(): Option<Commands.Command>
      reads this
    {
      command
    }

    function Args(): Option<seq<Bytes>>
      reads this
    {
      args
    }

    /** The arguments as a list, an unset list being empty. */
    function ArgList(): seq<Bytes>
      reads this
    {
      args.GetOr([])
    }

    method SetNumArgsInInput(n: Option<u8>)
      modifies this
      ensures NumArgsInInput() == n
      ensures Command() == old(Command()) && Args() == old(Args())
    {
      numArgsInInput := n;
    }

    method SetCommand(c: Option<Commands.Command>)
      modifies this
      ensures Command() == c
      ensures NumArgsInInput() == old(NumArgsInInput()) && Args() == old(Args())
    {
      command := c;
    }

    method SetArgs(a: Option<seq<Bytes>>)
      modifies this
      ensures Args() == a
      ensures NumArgsInInput() == old(NumArgsInInput()) && Command() == old(Command())
    {
      args := a;
    }

    /**
     * `append_arg`, which `lib.rs` calls but this revision does not define:
     * one more argument at the end of the list.
     */
    method AppendArg(a: Bytes)
      modifies this
      ensures Args() == Some(old(ArgList()) + [a])
      ensures NumArgsInInput() == old(NumArgsInInput()) && Command() == old(Command())
    {
      args := Some(args.GetOr([]) + [a]);
    }
  }

  /** Each getter returns what its setter stored last, whatever the other setters did after it. */
  method GettersReturnLastSet(n: Option<u8>, c: Option<Commands.Command>, a: Option<seq<Bytes>>)
    returns (gotN: Option<u8>, gotC: Option<Commands.Command>, gotA: Option<seq<Bytes>>)
    ensures gotN == n && gotC == c && gotA == a
  {
    var pc := new ParsedCommand();
    pc.SetArgs(Some(["stale"]));
    pc.SetNumArgsInInput(n);
    pc.SetCommand(c);
    pc.SetArgs(a);
    gotN, gotC, gotA := pc.NumArgsInInput(), pc.Command(), pc.Args();
  }
}
