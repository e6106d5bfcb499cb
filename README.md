# akio command dispatch, modelled in Dafny

akio is a small command layer on top of a Discord client. A handler is registered as a
command. Each incoming message is then checked for the bot's prefix. Its text is split into
arguments, and quoted spans stay single arguments. The arguments are bound to the handler's
declared parameters, the handler is run, and the attempt is reported as one of six result
kinds. This project models that logic with the Discord transport and the `async` machinery
taken away:

- `wrappers.dfy`: `Option` (Python's `None`) and `Result` (a value or a raised error).
- `text.dfy` (module `Text`): the parts of Python's `str` that the dispatcher uses.
  These are `startswith`, `split(sep)`, whitespace `split()` and `sep.join`. `startswith` and
  `sep.join` are plain definitions. The splits come with lemmas:
  - `split(sep)`: the join round trip (`SplitJoin`) and pieces free of the separator
    (`SplitPiecesFree`).
  - The leftmost-occurrence rule (`SplitCutsAtFirst`, `SplitAtFirst`, `SplitNoSeparator`),
    which together determine the result.
  - Whitespace `split()`: tokens are words (`WsSplit`), and splitting loses only whitespace
    (`WsSplitKeepsNonSpace`).
  - A word followed by whitespace or the end is one token (`WsSplitWordThen`), and leading
    whitespace is skipped (`WsSplitSkipSpace`). These make the tokens the maximal
    non-whitespace runs.
- `command.dfy` (module `Commands`): the `Command` descriptor, built from a declared parameter
  list, plus `bound_arguments`, `CommandResult` and `CommandResultType`. `Describe` is the
  specification of construction. `NewCommand` is `Command.__init__`, with its counting loop,
  and is proved equal to `Describe`.
- `bot.dfy` (module `Dispatch`): class `Bot` with its registry field `commands` and the
  methods `RegisterCommand` (`Bot.command`) and `Invoke` (`Bot.invoke`). `Invoke` builds the
  argument list imperatively with the loop of the source, written as the method
  `CollectArguments`. It is proved equal to `Outcome`, which states the six-way classification. The tokenizer's properties and worked examples are
  lemmas about `ArgumentTokens` and `TokensAfterQuote`.

A handler is not inspected at run time. It is declared as a `Handler` value with these
parts: its `__name__`, whether it is a coroutine function, its full parameter list (the
`message` parameter included), and its docstring as `inspect.getdoc` returns it. Another part,
`raises`, is an oracle saying whether the handler raises or completes on given bound
arguments. The last part, `cleandoc`, stands for `inspect.cleandoc` as an uninterpreted text
function. In Python that is one library function shared by every handler. The model carries it
in each declaration so that construction stays a function of the handler, and the worked
examples take it as a parameter rather than fixing it. Each parameter has a name, an optional display form of its default, and an
optional annotation. An annotation is modelled as a partial converter `string -> Option<Value>`.
`None` stands for the `TypeError`/`ValueError` that `invoke` catches.

Behaviour of the code that the model keeps:
- A trailing quoted span with no closing delimiter becomes one verbatim argument: the loop
  appends the piece before the `next` that ends it (akio/bot.py:67-69). See
  `UnterminatedQuoteKept` and `UnclosedQuoteExample`.
- Construction raises `TypeError` when the handler is not a coroutine function
  (akio/command.py:8-9) and `ValueError` when there is no `message` parameter or it is not
  first (akio/command.py:18-23). These are `NotCoroutine`, `MissingMessage` and
  `MessageNotFirst`.
- `Bot.command` registers the command under the handler's `__name__` (akio/bot.py:16-28).
- The fallback description is ``Command `name` has no description :(`` (akio/command.py:39).
- The delimiter is split on only after the prefix test passes (akio/bot.py:54-57), so an
  empty delimiter raises only for a prefixed message.

## Model

| member | source | states |
|---|---|---|
| `Text.Split` | akio/bot.py:57 | `str.split(sep)` for a non-empty separator yields at least one piece, and the first piece is a prefix of the text |
| `Text.SplitJoin` | akio/bot.py:57 | joining the pieces of `s.split(sep)` with `sep` gives `s` back, so exactly `|pieces| - 1` separators were cut out |
| `Text.SplitPiecesFree` | akio/bot.py:57 | no piece of `s.split(sep)` contains `sep` |
| `Text.SplitNoSeparator` | akio/bot.py:57 | text with no separator in it is a single piece |
| `Text.SplitCutsAtFirst` | akio/bot.py:57 | no occurrence of the separator in the text starts inside the first piece, including one that would reach past the piece's end |
| `Text.SplitAtFirst` | akio/bot.py:57 | for `head + sep + tail` where no occurrence of `sep` starts inside `head`, the split is `head` followed by the split of `tail`: the cut is at the leftmost occurrence, scanning on after it |
| `Text.SplitJoinChar` | akio/bot.py:57 | for a one-character delimiter, splitting undoes a join of pieces that do not contain it |
| `Text.WsSplit` | akio/bot.py:58 | every token of `str.split()` is non-empty and holds no whitespace |
| `Text.WsSplitKeepsNonSpace` | akio/bot.py:58 | the tokens of `str.split()`, put together, are exactly the non-whitespace characters of the text, in order |
| `Text.WsSplitWordThen` | akio/bot.py:58 | a word followed by whitespace or by the end of the text is split off as one whole token |
| `Text.WsSplitSkipSpace` | akio/bot.py:58 | leading whitespace of any kind that `str.split()` breaks on contributes no token |
| `Text.WsSplitJoin` | akio/bot.py:58 | `" ".join(words).split() == words` for whitespace-free non-empty words |
| `Commands.LeadingRequired` | akio/command.py:27-34 | the required count is the length of the maximal leading run of parameters without a default: all before it have none, the one at it has one, it is at most the parameter count and equals it when no parameter has a default |
| `Commands.Describe` | akio/command.py:7-39 | construction fails with `NotCoroutine` exactly for a non-coroutine, `MissingMessage` exactly when no parameter is named `message`, `MessageNotFirst` exactly when `message` exists but is not first; otherwise the descriptor keeps name and handler, its parameters are the declared ones minus the first in order, its required count is the leading no-default run, its usage is the space-join of the entries, its docstring is the `getdoc` one and its description the cleaned docstring or the fallback sentence |
| `Commands.NewCommand` | akio/command.py:7-39 | `Command.__init__`, with its counting loop over the parameter iterator, yields exactly `Describe` |
| `Commands.Description` | akio/command.py:38-39 | the description is `cleandoc` applied to the docstring when there is one, and otherwise exactly ``Command `name` has no description :(`` |
| `Commands.Entry` | akio/command.py:36 | a parameter's usage entry starts with its name; it is the bare name exactly when there is no default, and otherwise the name, a `:` and the default's display form |
| `Commands.Entries` | akio/command.py:36 | one entry per parameter, in order |
| `Commands.Usage` | akio/command.py:36 | the usage line is the entries joined by single spaces |
| `Commands.UsageRoundTrip` | akio/command.py:36 | when names are single words and default displays hold no whitespace (an empty default included), the usage line splits back into one entry per parameter, in order, each `name` or `name:default` |
| `Commands.Apply` | akio/command.py:42 | an unannotated parameter takes the token unchanged; an annotated one takes what its annotation makes of the token, `None` when that raised |
| `Commands.Bind` | akio/command.py:41-42 | binding succeeds exactly when every conversion of the zipped pairs succeeds; then it has `min(len(parameters), len(arguments))` values and value i is parameter i's conversion of token i |
| `Commands.BindUnannotated` | akio/command.py:42 | without annotations binding never fails and yields the tokens unchanged, truncated to the parameter count |
| `Text.StartsWith` | akio/bot.py:54 | `str.startswith`: the text is at least as long as the prefix and begins with it |
| `Text.Join` | akio/command.py:36 | `sep.join`: the segments with one separator between neighbours |
| `Dispatch.InitialTokens` | akio/bot.py:57-58 | the whitespace tokens of the text before the first delimiter; each is non-empty and holds no whitespace |
| `Dispatch.CanInvoke` | akio/bot.py:54-61 | what `invoke` needs so that nothing raises before the lookup: for a prefixed message, a non-empty delimiter (`split` rejects an empty one) and at least one token before the first delimiter (else `_initial_tokens[0]` raises `IndexError`); nothing for other messages |
| `Dispatch.TokensAfterQuote` | akio/bot.py:66-71 | the pieces after the first delimiter give no tokens when there are none; otherwise the first token is the first piece verbatim, and a single piece gives only itself |
| `Dispatch.ArgumentTokens` | akio/bot.py:65-71 | the argument list begins with the first piece's tokens after the command token; it is exactly those when there is no delimiter, and otherwise the next argument is the first quoted piece verbatim |
| `Dispatch.CollectArguments` | akio/bot.py:65-71 | the loop of `invoke`, ending on the pieces running out, builds exactly `ArgumentTokens` |
| `Dispatch.CommandName` | akio/bot.py:61 | the command name is the first token with its first `len(prefix)` characters cut off: the rest of the token when it starts with the prefix, and is empty when the token is no longer than the prefix (Python slicing) |
| `Dispatch.Outcome` | akio/bot.py:52-87 | the result carries the message text; it has no command exactly for NotACommand and UnknownCommand; NotACommand iff the text lacks the prefix; UnknownCommand iff the name is not registered; otherwise it carries the registered command and is NotEnoughArguments iff there are fewer argument tokens than required (before any conversion), InvalidArgument iff binding fails, and Success or CommandError as the handler completes or raises on the bound values |
| `Dispatch.Bot.constructor` | akio/bot.py:9-14 | a new bot has an empty registry and keeps the error-printing flag |
| `Dispatch.Bot.RegisterCommand` | akio/bot.py:16-28 | a shape error propagates and leaves the registry unchanged; otherwise the descriptor is stored under the handler's name, replacing any earlier one, every other entry is unchanged, and the handler is returned |
| `Dispatch.Bot.Invoke` | akio/bot.py:30-87 | the prefix check, quote-aware tokenizing loop, lookup and early returns compute exactly `Outcome` |
| `Dispatch.TextsOfQuotedPair` | akio/bot.py:67-69 | one turn of the loop contributes the verbatim piece, then the whitespace tokens of the piece after it |
| `Dispatch.TextsOfLastQuoted` | akio/bot.py:67-71 | a last verbatim piece with nothing after it still contributes itself |
| `Dispatch.QuotedTokensAreAlternatePieces` | akio/bot.py:65-71 | with k pieces after the first delimiter, exactly ceil(k/2) verbatim tokens are produced, and verbatim token j is piece 2j |
| `Dispatch.UnterminatedQuoteKept` | akio/bot.py:66-71 | with an odd number of delimiters the unclosed span is the last token, verbatim |
| `Dispatch.SplitTokensAreWords` | akio/bot.py:65-71 | tokens that come from whitespace splitting are non-empty and hold no whitespace |
| `Dispatch.CommandTokenExists` | akio/bot.py:57-61 | with a non-empty prefix that starts with a non-blank character other than the delimiter's first, every prefixed message has a command token, so `invoke` cannot fail with `IndexError` |
| `Dispatch.PlainMessage` | akio/bot.py:54-65 | for a space-separated message with no delimiter in it, the command name and the argument words are recovered exactly |
| `Dispatch.BareCommand` | akio/bot.py:54-83 | a registered command given with no arguments yields NotEnoughArguments if it requires any, and otherwise Success or CommandError as the handler completes or raises on no arguments |
| `Dispatch.ArgumentsOfThreePieces` | akio/bot.py:65-71 | with one closed quoted span, the arguments are the first piece's words after the command, the span verbatim, then the words after it |
| `Dispatch.ArgumentsOfTwoPieces` | akio/bot.py:65-71 | with one unclosed quoted span, the arguments are the first piece's words after the command, then the span verbatim |
| `Dispatch.QuotedExample` | akio/bot.py:57-71 | `b.echo a "c d" e` with delimiter `"` yields arguments `a`, `c d`, `e` |
| `Dispatch.UnclosedQuoteExample` | akio/bot.py:66-71 | `b.say "hi there` yields the single argument `hi there` |
| `Dispatch.EmptyQuoteExample` | akio/bot.py:66-71 | `b.say ""` yields one empty-string argument |
| `Dispatch.EchoDescribed` | akio/command.py:18-34 | `echo(message, text)` passes the shape checks and requires its one parameter |
| `Dispatch.EchoFallbackDescription` | akio/command.py:38-39 | `echo`, which has no docstring, gets ``Command `echo` has no description :(`` whatever `cleandoc` is |
| `Dispatch.EchoHelloTokens` | akio/bot.py:54-71 | `b.echo hello` is prefixed, names `echo` and has the one argument `hello` |
| `Dispatch.EchoBindsHello` | akio/command.py:41-42 | `echo`'s unannotated `text` parameter binds `hello` unchanged |
| `Dispatch.EchoHello` | akio/bot.py:73-83 | `b.echo hello` runs `echo` on `hello`: Success if it completes, CommandError (command set) if it raises |
| `Dispatch.EchoBare` | akio/bot.py:73-74 | `b.echo` is NotEnoughArguments |
| `Dispatch.EchoUnknownTokens` | akio/bot.py:54-61 | `b.unknown` is prefixed and names `unknown` |
| `Dispatch.EchoUnknown` | akio/bot.py:60-63 | `b.unknown` is UnknownCommand |

## Left out

- The `discord.Client` superclass, its constructor options and the event loop: transport owned by a foreign library. The message is reduced to its `system_content` text.
- `async`/`await`: the handler's run is the oracle `Handler.raises` on the bound values. The message context passed to it first is not modelled.
- `traceback.print_exc` under `print_command_errors`: output only. The flag is kept as a field and has no effect on results.
- `inspect.signature`, `iscoroutinefunction` and `inspect.getdoc`: runtime reflection, replaced by the declared `Handler`. Only positional-or-keyword parameters are modelled. Keyword-only, `*args` and `**kwargs` parameters are not.
- Commands.Description: `inspect.cleandoc` is the handler's uninterpreted `cleandoc` function. Its indentation and blank-line rules are not modelled, so nothing is proved about the cleaned text beyond its being `cleandoc` of the docstring.
- The `raises` oracle stands only for exceptions that `except Exception` catches (akio/bot.py:84). A `BaseException` that is not an `Exception`, such as `KeyboardInterrupt` or `asyncio.CancelledError`, propagates out of `invoke` in Python; that path is not modelled.
- Annotation callables are abstract converters. An exception other than `TypeError`/`ValueError` escaping a conversion propagates out of `invoke` in Python; that path is not modelled. Converted values are abstracted to `Value.Converted(code)`.
- A default's `str()` rendering: a parameter carries its default's display string directly.
- `str.split()` whitespace: only the ASCII characters Python treats as whitespace (space, 9-13, 28-31). The non-ASCII ones (such as U+0085 and U+00A0) are not included.
- `Command` is modelled as an immutable value rather than an object, because nothing changes it after `__init__`. Object identity is not modelled.
