# escape-all-markdown, modelled in Dafny

The plugin adds one slash command, `escapemd`, to a chat client. The command
takes a message and puts a backslash before each markdown character in the
set `mdchars` (`*`, `_`, `~`, `` ` ``, `|`). It then sends the result to
the channel where the command was typed. The plugin's `start` registers the
command with the host and `stop` unregisters it.

The model has two modules:

- `MarkdownEscape` (`escaper.dfy`) is the escaper. It is written as a pure
  function, `Escape`, defined by recursion over the string. It is proved
  equal to the source's `split('')` / `map` / `join('')` pipeline. The
  source's membership test, `~mdchars.indexOf(char)`, is modelled with
  JavaScript's `indexOf`, `ToInt32` and bitwise not, and is proved to mean
  "is in `mdchars`". Lemmas cover:
  - the output length;
  - identity on text without markdown characters, in both directions;
  - distribution over concatenation;
  - where each input character ends up in the output;
  - an unescape that inverts escaping, and the exact image of the escaper;
  - injectivity;
  - non-idempotence.
- `EscapeAllMarkdownPlugin` (`plugin.dfy`) models the host as a class
  `Host`. It holds a registry, a map from command id to descriptor, and an
  outbox, the sequence of messages sent. The plugin class
  `EscapeAllMarkdown` has `Start`, `Stop` and the command handler
  `Execute`. Each method states the new registry and outbox.

## Model

| member | source | states |
|---|---|---|
| `MarkdownEscape.IndexOf` | index.ts:20 | `indexOf` returns -1 exactly when the character is absent. Otherwise it returns an index holding that character, with no earlier occurrence. |
| `MarkdownEscape.ToInt32` | index.ts:20 | The operand of `~` is brought into the signed 32-bit range, congruent to the input modulo 2^32. |
| `MarkdownEscape.BitNot` | index.ts:20 | `~x` is a signed 32-bit value. On 32-bit inputs it equals `-x - 1`. |
| `MarkdownEscape.IndexOfTestIsMember` | index.ts:20 | The test `~mdchars.indexOf(char)` is truthy exactly when `char` is one of `*`, `_`, `~`, `` ` ``, `\|`. |
| `MarkdownEscape.IsMdChar` | index.ts:10 | Membership in `MdChars`, the constant `mdchars` with its five characters in the source's order. It has no contract of its own. `IndexOfTestIsMember` proves it agrees with the source's test. |
| `MarkdownEscape.IndexOfTest` | index.ts:20 | The literal test `~mdchars.indexOf(char)`, read as a JavaScript truth value. It has no contract of its own. `IndexOfTestIsMember` describes it. |
| `MarkdownEscape.BackslashNotMd` | index.ts:10 | The inserted backslash is not in `mdchars`. |
| `MarkdownEscape.EscapeChar` | index.ts:20 | The `map` callback. It has no contract of its own. `EscapeCharIsCallback` and `EscapeCharCases` describe it. |
| `MarkdownEscape.EscapeCharIsCallback` | index.ts:20 | `EscapeChar` is the source's callback, stated with its own test. When `~mdchars.indexOf(char)` is truthy the result is backslash followed by the character. Otherwise it is the character alone. |
| `MarkdownEscape.EscapeCharCases` | index.ts:20 | Each of the five markdown characters maps to backslash plus that character. Every other character, a backslash included, maps to itself. |
| `MarkdownEscape.Escape` | index.ts:18-21 | The escaped message is never shorter than the input. |
| `MarkdownEscape.SplitMap` | index.ts:19-20 | `split('')` followed by `map`. There is one part per input character. `EscapeIsSplitMapJoin` describes the parts. |
| `MarkdownEscape.Join` | index.ts:21 | `join('')`, the concatenation of the parts in order. It has no contract of its own. `EscapeIsSplitMapJoin` describes it. |
| `MarkdownEscape.EscapeIsSplitMapJoin` | index.ts:18-21 | The recursive escaper equals joining the per-character map of the split message. |
| `MarkdownEscape.EscapeEmpty` | index.ts:18-21 | The empty message escapes to the empty message, and no other message does. |
| `MarkdownEscape.EscapeLength` | index.ts:18-21 | Output length is the input length plus the number of markdown characters in the input. |
| `MarkdownEscape.EscapeIdentity` | index.ts:20 | A message without markdown characters is sent unchanged. |
| `MarkdownEscape.EscapeFixedPointIff` | index.ts:20 | Escaping leaves a message unchanged if and only if it has no markdown character. |
| `MarkdownEscape.EscapeAppend` | index.ts:18-21 | `Escape(a + b) == Escape(a) + Escape(b)`. |
| `MarkdownEscape.EscapeAt` | index.ts:18-21 | Input character `i` lands at output position `i` plus the count of markdown characters before it. A markdown character appears there as backslash then itself, any other character as itself, and the surrounding text keeps its order. |
| `MarkdownEscape.CountMdEscape` | index.ts:20 | Escaping keeps the number of markdown characters unchanged. |
| `MarkdownEscape.EscapeTwiceIff` | index.ts:20 | Escaping twice gives the same result as escaping once if and only if the message has no markdown character. |
| `MarkdownEscape.EscapeTwiceStar` | index.ts:20 | `*` escapes to `\*`, and escaping that again gives `\\*`, which differs from `\*`. |
| `MarkdownEscape.EscapeBoldExample` | index.ts:18-21 | `*bold*` escapes to `\*bold\*`. |
| `MarkdownEscape.Unescape` | index.ts:20 | The unescaped string is never longer than its input. |
| `MarkdownEscape.UnescapeEscape` | index.ts:20 | `Unescape(Escape(s)) == s` for every message `s`. |
| `MarkdownEscape.EscapeInjective` | index.ts:18-21 | Distinct messages escape to distinct outputs. |
| `MarkdownEscape.EscapeWellEscaped` | index.ts:20 | In every escaped output, each markdown character directly follows a backslash. |
| `MarkdownEscape.EscapeUnescape` | index.ts:20 | A string in which every markdown character directly follows a backslash is `Escape(Unescape(t))`. So these strings are exactly the escaper's outputs. |
| `EscapeAllMarkdownPlugin.Host.Register` | index.ts:13-31 | Registering stores the descriptor under its command id and changes nothing else. |
| `EscapeAllMarkdownPlugin.Host.Unregister` | index.ts:35 | Unregistering removes exactly that command id. |
| `EscapeAllMarkdownPlugin.Host.SendMessage` | index.ts:23 | Sending appends one `(channel id, content)` message to the outbox. |
| `EscapeAllMarkdownPlugin.EscapeAllMarkdown.Start` | index.ts:12-32 | After `start`, `escapemd` is registered under the constant `Descriptor`. That is the object literal of index.ts:13-30: command `escapemd`, description `Escapes all markdown.`, and one required option of type 3 named `message`. Other registry entries are unchanged and nothing is sent. |
| `EscapeAllMarkdownPlugin.EscapeAllMarkdown.Stop` | index.ts:34-36 | After `stop`, `escapemd` is not registered. Other registry entries are unchanged and nothing is sent. |
| `EscapeAllMarkdownPlugin.EscapeAllMarkdown.Execute` | index.ts:16-24 | With no first argument nothing is sent. Otherwise exactly one message goes to `routes.channel.id`, with content `Escape(args[0].value)`. The registry is unchanged. |
| `EscapeAllMarkdownPlugin.Session` | index.ts:12-36 | On a fresh host: start, invoke with `*hi*`, invoke with no argument, then stop. Exactly one message, `\*hi\*`, is sent, and the registry ends empty. |

## Left out

- types.d.ts is not part of this model. It holds only type declarations for the host framework and has no behaviour.
- The host's behaviour behind `Commands.register`, `Commands.unregister` and `Messages.sendMessage` is not modelled: command dispatch, delivery, and failures such as a duplicate command id. `Host` keeps only the state these calls change. `Register` overwrites an existing entry.
- The `execute` callback is not stored in `CommandDescriptor`, because Dafny datatypes cannot hold methods. The handler is `EscapeAllMarkdown.Execute`.
- The host passes the handler's arguments as records. Only the first record's `value` is read. A missing first argument is modelled as an empty argument sequence. `routes` is reduced to the channel id.
- JavaScript strings are sequences of UTF-16 code units, and `split('')` splits on them. The model uses `seq<char>`. All five markdown characters are ASCII, so surrogate halves are copied unchanged either way.
- The `Plugin` base class and the addon manager that calls `start` and `stop` are not modelled.
