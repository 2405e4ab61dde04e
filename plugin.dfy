/** The `escapemd` plugin: its lifecycle (`start` registers the command,
    `stop` unregisters it) and the command handler, which escapes its one
    argument and sends the result to the channel it was typed in. The host
    runtime is modelled by the state these calls change: a command registry
    keyed by command id and the sequence of messages sent so far. */
module EscapeAllMarkdownPlugin {
  import opened MarkdownEscape

  /** One option of a slash command's argument schema. `kind` is the host's
      option-type code (3 is a free-text string). */
  datatype CommandOption = CommandOption(kind: int, required: bool, name: string, description: string)

  /** What is registered with the host for a slash command. The `execute`
      callback is EscapeAllMarkdown.Execute. */
  datatype CommandDescriptor = CommandDescriptor(command: string, description: string, options: seq<CommandOption>)

  /** One argument the host passes to a command handler. */
  datatype CommandArgument = CommandArgument(name: string, value: string)

  /** Where the command was invoked: `routes.channel.id`. */
  datatype Routes = Routes(channelId: string)

  /** One `sendMessage(channelId, { content })` call. */
  datatype OutgoingMessage = OutgoingMessage(channelId: string, content: string)

  /** The host's option-type code for a string option. */
  const StringOptionKind: int := 3

  /** The id under which the plugin registers its command. */
  const CommandId: string := "escapemd"

  /** The descriptor `start` registers: one required string option `message`. */
  const Descriptor: CommandDescriptor :=
    CommandDescriptor(CommandId, "Escapes all markdown.",
      [CommandOption(StringOptionKind, true, "message", "The message content.")])

  /** The part of the host runtime the plugin uses. */
  class Host {
    /** Registered slash commands, by command id. */
    var commands: map<string, CommandDescriptor>
    /** Every message sent so far, oldest first. */
    var outbox: seq<OutgoingMessage>

    constructor ()
      ensures commands == map[] && outbox == []
    {
      commands := map[];
      outbox := [];
    }

    /** `Commands.register`: the descriptor is stored under its command id. */
    method Register(d: CommandDescriptor)
      modifies this
      ensures commands == old(commands)[d.command := d]
      ensures outbox == old(outbox)
    {
      commands := commands[d.command := d];
    }

    /** `Commands.unregister`: the command id is removed, nothing else. */
    method Unregister(id: string)
      modifies this
      ensures commands == old(commands) - {id}
      ensures outbox == old(outbox)
    {
      commands := commands - {id};
    }

    /** `Messages.sendMessage`: one message is appended to the outbox. */
    method SendMessage(channelId: string, content: string)
      modifies this
      ensures outbox == old(outbox) + [OutgoingMessage(channelId, content)]
      ensures commands == old(commands)
    {
      outbox := outbox + [OutgoingMessage(channelId, content)];
    }
  }

  /** The plugin object the host's addon manager starts and stops. */
  class EscapeAllMarkdown {
    const host: Host

    constructor (host: Host)
      ensures this.host == host
    {
      this.host := host;
    }

    /** `start`: registers `escapemd`; every other registry entry is kept and
        nothing is sent. */
    method Start()
      modifies host
      ensures CommandId in host.commands && host.commands[CommandId] == Descriptor
      ensures forall id :: id != CommandId ==>
        (id in host.commands <==> id in old(host.commands)) &&
        (id in host.commands ==> host.commands[id] == old(host.commands)[id])
      ensures host.outbox == old(host.outbox)
    {
      host.Register(Descriptor);
    }

    /** `stop`: unregisters `escapemd`; every other registry entry is kept and
        nothing is sent. */
    method Stop()
      modifies host
      ensures CommandId !in host.commands
      ensures forall id :: id != CommandId ==>
        (id in host.commands <==> id in old(host.commands)) &&
        (id in host.commands ==> host.commands[id] == old(host.commands)[id])
      ensures host.outbox == old(host.outbox)
    {
      host.Unregister(CommandId);
    }

    /** The `execute` callback of `escapemd`: with no first argument it does
        nothing; otherwise it sends exactly one message, the escaped argument
        value, to the channel the command came from. */
    method Execute(args: seq<CommandArgument>, routes: Routes)
      modifies host
      ensures args == [] ==> host.outbox == old(host.outbox)
      ensures args != [] ==>
        host.outbox == old(host.outbox) + [OutgoingMessage(routes.channelId, Escape(args[0].value))]
      ensures host.commands == old(host.commands)
    {
      if args == [] {
        return;
      }
      var content := Escape(args[0].value);
      host.SendMessage(routes.channelId, content);
    }
  }

  /** A run of the lifecycle on a fresh host: after `start` the command is
      registered, invoking it with `*hi*` sends `\*hi\*` to the channel, an
      invocation without arguments sends nothing, and after `stop` the
      registry is empty again. */
  method Session() returns (sent: seq<OutgoingMessage>, registered: map<string, CommandDescriptor>)
    ensures sent == [OutgoingMessage("general", "\\*hi\\*")]
    ensures registered == map[]
  {
    var host := new Host();
    var plugin := new EscapeAllMarkdown(host);
    plugin.Start();
    assert host.commands == map[CommandId := Descriptor];
    plugin.Execute([CommandArgument("message", "*hi*")], Routes("general"));
    plugin.Execute([], Routes("general"));
    assert Escape("*hi*") == "\\*hi\\*" by {
      EscapeCharCases('*');
      EscapeCharCases('h');
      EscapeCharCases('i');
    }
    plugin.Stop();
    assert host.commands.Keys == {};
    sent, registered := host.outbox, host.commands;
  }
}
