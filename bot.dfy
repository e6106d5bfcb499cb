/**
 * The dispatcher (`Bot` in akio/bot.py): the registry of commands and `invoke`,
 * which recognises a command in a message, tokenizes its arguments with quote
 * awareness, binds them and classifies the outcome.
 */
module Dispatch {
  import opened Wrappers
  import opened Text
  import opened Commands

  /** An argument token, tagged with where it came from: whitespace splitting or a quoted span. */
  datatype Token = Word(text: string) | Quoted(text: string)

  function Words(ws: seq<string>): (ts: seq<Token>)
    ensures |ts| == |ws|
  {
    if ws == [] then [] else [Word(ws[0])] + Words(ws[1..])
  }

  function Texts(ts: seq<Token>): (ws: seq<string>)
    ensures |ws| == |ts|
  {
    if ts == [] then [] else [ts[0].text] + Texts(ts[1..])
  }

  lemma {:induction false} TextsAppend(a: seq<Token>, b: seq<Token>)
    ensures Texts(a + b) == Texts(a) + Texts(b)
    decreases |a|
  {
    if a != [] {
      TextsAppend(a[1..], b);
      assert (a + b)[1..] == a[1..] + b;
    } else {
      assert a + b == b;
    }
  }

  lemma {:induction false} TextsOfWords(ws: seq<string>)
    ensures Texts(Words(ws)) == ws
    decreases |ws|
  {
    if ws != [] {
      TextsOfWords(ws[1..]);
    }
  }

  /** The texts of the quoted tokens, in order. */
  function QuotedTexts(ts: seq<Token>): seq<string> {
    if ts == [] then []
    else (if ts[0].Quoted? then [ts[0].text] else []) + QuotedTexts(ts[1..])
  }

  /**
   * The tokens contributed by the pieces that follow the first delimiter: each piece at
   * an even position here (odd in the whole split) is one verbatim token, each piece
   * after it is whitespace-split; a trailing piece with no closing delimiter is still a token.
   */
  function TokensAfterQuote(rest: seq<string>): (ts: seq<Token>)
    ensures rest == [] <==> ts == []
    ensures rest != [] ==> ts[0] == Quoted(rest[0])
    ensures |rest| == 1 ==> ts == [Quoted(rest[0])]
    decreases |rest|
  {
    if rest == [] then []
    else if |rest| == 1 then [Quoted(rest[0])]
    else [Quoted(rest[0])] + Words(WsSplit(rest[1])) + TokensAfterQuote(rest[2..])
  }

  /**
   * The argument list `invoke` builds from the delimiter pieces of a message:
   * the whitespace tokens of the first piece after the command token, then the rest.
   */
  function ArgumentTokens(pieces: seq<string>): (args: seq<string>)
    requires |pieces| >= 1 && WsSplit(pieces[0]) != []
    ensures |pieces| == 1 ==> args == WsSplit(pieces[0])[1..]
    ensures |args| >= |WsSplit(pieces[0])| - 1
    ensures args[..|WsSplit(pieces[0])| - 1] == WsSplit(pieces[0])[1..]
    ensures |pieces| >= 2 ==> |args| >= |WsSplit(pieces[0])| && args[|WsSplit(pieces[0])| - 1] == pieces[1]
  {
    WsSplit(pieces[0])[1..] + Texts(TokensAfterQuote(pieces[1..]))
  }

  /** The command name: the first token with `len(prefix)` characters cut off (Python slicing). */
  function CommandName(token: string, prefix: string): (name: string)
    ensures StartsWith(token, prefix) ==> prefix + name == token
    ensures |token| <= |prefix| ==> name == ""
  {
    if |prefix| <= |token| then token[|prefix|..] else ""
  }

  /** The first-piece tokens of `content`, whose head names the command. */
  function InitialTokens(content: string, quoteDelimiter: string): (ts: seq<string>)
    requires |quoteDelimiter| > 0
    ensures forall k :: 0 <= k < |ts| ==> IsWord(ts[k])
  {
    WsSplit(Split(content, quoteDelimiter)[0])
  }

  /**
   * What `invoke` needs of its inputs for `split` and the indexing not to raise; both
   * happen only once the prefix test has passed.
   */
  predicate CanInvoke(prefix: string, quoteDelimiter: string, content: string) {
    StartsWith(content, prefix) ==> |quoteDelimiter| > 0 && InitialTokens(content, quoteDelimiter) != []
  }

  /**
   * The result of `invoke`: the six outcomes, checked in the source's order.
   * The command is absent exactly for NotACommand and UnknownCommand; the
   * message text is always carried along; NotEnoughArguments depends on the
   * token count alone, before any conversion or handler call.
   */
  ghost function Outcome(commands: map<string, Command>, prefix: string, quoteDelimiter: string, content: string): (r: CommandResult)
    requires CanInvoke(prefix, quoteDelimiter, content)
    ensures r.messageContent == content
    ensures r.command.None? <==> r.kind == NotACommand || r.kind == UnknownCommand
    ensures r.kind == NotACommand <==> !StartsWith(content, prefix)
    ensures StartsWith(content, prefix) ==>
      var name := CommandName(InitialTokens(content, quoteDelimiter)[0], prefix);
      var args := ArgumentTokens(Split(content, quoteDelimiter));
      && (r.kind == UnknownCommand <==> name !in commands)
      && (name in commands ==>
            var cmd := commands[name];
            && r.command == Some(cmd)
            && (r.kind == NotEnoughArguments <==> |args| < cmd.requiredCount)
            && (r.kind == InvalidArgument <==>
                  |args| >= cmd.requiredCount && Bind(cmd.parameters, args).None?)
            && (r.kind == Success <==>
                  |args| >= cmd.requiredCount && Bind(cmd.parameters, args).Some? &&
                  !cmd.coro.raises(Bind(cmd.parameters, args).value))
            && (r.kind == CommandError <==>
                  |args| >= cmd.requiredCount && Bind(cmd.parameters, args).Some? &&
                  cmd.coro.raises(Bind(cmd.parameters, args).value)))
  {
    if !StartsWith(content, prefix) then CommandResult(None, NotACommand, content)
    else
      var pieces := Split(content, quoteDelimiter);
      var name := CommandName(WsSplit(pieces[0])[0], prefix);
      if name !in commands then CommandResult(None, UnknownCommand, content)
      else
        var cmd := commands[name];
        var args := ArgumentTokens(pieces);
        if |args| < cmd.requiredCount then CommandResult(Some(cmd), NotEnoughArguments, content)
        else match Bind(cmd.parameters, args)
          case None => CommandResult(Some(cmd), InvalidArgument, content)
          case Some(bound) =>
            if cmd.coro.raises(bound) then CommandResult(Some(cmd), CommandError, content)
            else CommandResult(Some(cmd), Success, content)
  }

  /**
   * The argument-collecting loop of `invoke`: the first piece's tokens after the command
   * token, then for each later piece the piece verbatim and the whitespace tokens of the
   * piece after it, stopping when the pieces run out (the `StopIteration` of `next`).
   */
  method CollectArguments(pieces: seq<string>) returns (arguments: seq<string>)
    requires |pieces| >= 1 && WsSplit(pieces[0]) != []
    ensures arguments == ArgumentTokens(pieces)
  {
    arguments := WsSplit(pieces[0])[1..];
    var i := 1;
    while i < |pieces|
      invariant 1 <= i <= |pieces|
      invariant arguments + Texts(TokensAfterQuote(pieces[i..])) == ArgumentTokens(pieces)
    {
      ghost var before := arguments;
      arguments := arguments + [pieces[i]];
      if i + 1 == |pieces| {
        // the `next` after the last verbatim piece finds the pieces exhausted
        TextsOfLastQuoted(pieces[i..]);
        break;
      }
      TextsOfQuotedPair(pieces[i..]);
      assert pieces[i..][2..] == pieces[i + 2..];
      arguments := arguments + WsSplit(pieces[i + 1]);
      assert arguments + Texts(TokensAfterQuote(pieces[i + 2..]))
          == before + Texts(TokensAfterQuote(pieces[i..]));
      i := i + 2;
    }
  }

  class Bot {
    /** Only decides whether handler tracebacks are printed; it does not affect results. */
    var printCommandErrors: bool
    var commands: map<string, Command>

    constructor (printCommandErrors: bool)
      ensures this.printCommandErrors == printCommandErrors
      ensures commands == map[]
    {
      this.printCommandErrors := printCommandErrors;
      commands := map[];
    }

    /**
     * `Bot.command`: builds the descriptor and stores it under the handler's name,
     * replacing any earlier one; returns the handler. A construction error propagates
     * and leaves the registry as it was.
     */
    method RegisterCommand(handler: Handler) returns (r: Result<Handler, ConfigError>)
      modifies this`commands
      ensures Describe(handler.name, handler).Err? ==>
        r == Err(Describe(handler.name, handler).error) && commands == old(commands)
      ensures Describe(handler.name, handler).Ok? ==>
        && r == Ok(handler)
        && commands == old(commands)[handler.name := Describe(handler.name, handler).value]
    {
      var built := NewCommand(handler.name, handler);
      match built
      case Err(e) =>
        return Err(e);
      case Ok(command) =>
        commands := commands[handler.name := command];
        return Ok(handler);
    }

    /** `Bot.invoke` on a message whose text is `content`. */
    method Invoke(prefix: string, quoteDelimiter: string, content: string) returns (r: CommandResult)
      requires CanInvoke(prefix, quoteDelimiter, content)
      ensures r == Outcome(commands, prefix, quoteDelimiter, content)
    {
      if !StartsWith(content, prefix) {
        return CommandResult(None, NotACommand, content);
      }
      var pieces := Split(content, quoteDelimiter);
      var initialTokens := WsSplit(pieces[0]);
      var name := CommandName(initialTokens[0], prefix);
      if name !in commands {
        return CommandResult(None, UnknownCommand, content);
      }
      var command := commands[name];

      var arguments := CollectArguments(pieces);

      if |arguments| < command.requiredCount {
        return CommandResult(Some(command), NotEnoughArguments, content);
      }
      var bound := Bind(command.parameters, arguments);
      if bound.None? {
        return CommandResult(Some(command), InvalidArgument, content);
      }
      if command.coro.raises(bound.value) {
        return CommandResult(Some(command), CommandError, content);
      }
      return CommandResult(Some(command), Success, content);
    }
  }

  /** One turn of `invoke`'s loop: a verbatim piece, then the whitespace tokens of the piece after it. */
  lemma TextsOfQuotedPair(rest: seq<string>)
    requires |rest| >= 2
    ensures Texts(TokensAfterQuote(rest)) == [rest[0]] + WsSplit(rest[1]) + Texts(TokensAfterQuote(rest[2..]))
  {
    var ws := WsSplit(rest[1]);
    var a := [Quoted(rest[0])] + Words(ws);
    var b := TokensAfterQuote(rest[2..]);
    assert TokensAfterQuote(rest) == a + b;
    TextsAppend(a, b);
    TextsAppend([Quoted(rest[0])], Words(ws));
    TextsOfWords(ws);
  }

  /** The last turn, when the verbatim piece has nothing after it. */
  lemma TextsOfLastQuoted(rest: seq<string>)
    requires |rest| == 1
    ensures Texts(TokensAfterQuote(rest)) == [rest[0]]
  {
  }

  lemma {:induction false} QuotedTextsAppend(a: seq<Token>, b: seq<Token>)
    ensures QuotedTexts(a + b) == QuotedTexts(a) + QuotedTexts(b)
    decreases |a|
  {
    if a != [] {
      QuotedTextsAppend(a[1..], b);
      assert (a + b)[1..] == a[1..] + b;
    } else {
      assert a + b == b;
    }
  }

  lemma {:induction false} NoQuotedInWords(ws: seq<string>)
    ensures QuotedTexts(Words(ws)) == []
    decreases |ws|
  {
    if ws != [] {
      NoQuotedInWords(ws[1..]);
    }
  }

  /**
   * With k pieces after the first delimiter (k delimiters consumed by the split),
   * exactly ceil(k/2) verbatim tokens are produced: the pieces at even positions, in order.
   */
  lemma {:induction false} QuotedTokensAreAlternatePieces(rest: seq<string>)
    ensures |QuotedTexts(TokensAfterQuote(rest))| == (|rest| + 1) / 2
    ensures forall j :: 0 <= j < (|rest| + 1) / 2 ==> QuotedTexts(TokensAfterQuote(rest))[j] == rest[2 * j]
    decreases |rest|
  {
    if |rest| == 1 {
      assert QuotedTexts(TokensAfterQuote(rest)) == [rest[0]];
    } else if |rest| >= 2 {
      var ws := WsSplit(rest[1]);
      var tail := TokensAfterQuote(rest[2..]);
      QuotedTokensAreAlternatePieces(rest[2..]);
      QuotedTextsAppend([Quoted(rest[0])] + Words(ws), tail);
      QuotedTextsAppend([Quoted(rest[0])], Words(ws));
      NoQuotedInWords(ws);
      var q := QuotedTexts(TokensAfterQuote(rest));
      assert q == [rest[0]] + QuotedTexts(tail);
      forall j | 0 < j < (|rest| + 1) / 2 ensures q[j] == rest[2 * j] {
        assert q[j] == QuotedTexts(tail)[j - 1] == rest[2..][2 * (j - 1)];
      }
    }
  }

  /** A span opened by a delimiter and never closed is still the last token, verbatim. */
  lemma {:induction false} UnterminatedQuoteKept(rest: seq<string>)
    requires |rest| % 2 == 1
    ensures |TokensAfterQuote(rest)| >= 1
    ensures TokensAfterQuote(rest)[|TokensAfterQuote(rest)| - 1] == Quoted(rest[|rest| - 1])
    decreases |rest|
  {
    if |rest| > 1 {
      UnterminatedQuoteKept(rest[2..]);
      var a := [Quoted(rest[0])] + Words(WsSplit(rest[1]));
      var b := TokensAfterQuote(rest[2..]);
      assert TokensAfterQuote(rest) == a + b;
      assert (a + b)[|a + b| - 1] == b[|b| - 1];
    }
  }

  lemma {:induction false} WordsAreWords(ws: seq<string>)
    requires forall k :: 0 <= k < |ws| ==> IsWord(ws[k])
    ensures forall k :: 0 <= k < |Words(ws)| ==> Words(ws)[k].Word? && IsWord(Words(ws)[k].text)
    decreases |ws|
  {
    if ws != [] {
      WordsAreWords(ws[1..]);
      assert Words(ws) == [Word(ws[0])] + Words(ws[1..]);
    }
  }

  /** Tokens that come from whitespace splitting are never empty and hold no whitespace. */
  lemma {:induction false} SplitTokensAreWords(rest: seq<string>)
    ensures forall k :: 0 <= k < |TokensAfterQuote(rest)| && TokensAfterQuote(rest)[k].Word? ==>
      IsWord(TokensAfterQuote(rest)[k].text)
    decreases |rest|
  {
    if |rest| >= 2 {
      SplitTokensAreWords(rest[2..]);
      WordsAreWords(WsSplit(rest[1]));
      var a: seq<Token> := [Quoted(rest[0])] + Words(WsSplit(rest[1]));
      var b: seq<Token> := TokensAfterQuote(rest[2..]);
      assert TokensAfterQuote(rest) == a + b;
      forall k | 0 <= k < |a + b| && (a + b)[k].Word? ensures IsWord((a + b)[k].text) {
        if k < |a| {
          assert (a + b)[k] == Words(WsSplit(rest[1]))[k - 1];
        } else {
          assert (a + b)[k] == b[k - |a|];
        }
      }
    }
  }

  /**
   * A message text that starts with a non-blank prefix and not with the delimiter
   * always has a command token, so `invoke` does not raise on it.
   */
  lemma CommandTokenExists(prefix: string, quoteDelimiter: string, content: string)
    requires |quoteDelimiter| > 0 && |prefix| > 0 && !IsSpace(prefix[0])
    requires quoteDelimiter[0] != prefix[0]
    ensures CanInvoke(prefix, quoteDelimiter, content)
  {
  }

  /**
   * A message with no delimiter in it, made of the prefixed command name and
   * argument words separated by spaces: the name and the words are recovered exactly.
   */
  lemma PlainMessage(prefix: string, name: string, words: seq<string>, quoteDelimiter: string)
    requires |quoteDelimiter| > 0
    requires IsWord(prefix + name)
    requires forall k :: 0 <= k < |words| ==> IsWord(words[k])
    requires !Contains(Join([prefix + name] + words, " "), quoteDelimiter)
    ensures var content := Join([prefix + name] + words, " ");
      && StartsWith(content, prefix)
      && CanInvoke(prefix, quoteDelimiter, content)
      && CommandName(InitialTokens(content, quoteDelimiter)[0], prefix) == name
      && ArgumentTokens(Split(content, quoteDelimiter)) == words
  {
    var all := [prefix + name] + words;
    var content := Join(all, " ");
    SplitNoSeparator(content, quoteDelimiter);
    WsSplitJoin(all);
    assert all[1..] == words;
    if |all| > 1 {
      assert content == (prefix + name) + " " + Join(words, " ");
    }
    assert content[..|prefix|] == (prefix + name)[..|prefix|];
  }

  /**
   * A registered command given with no arguments: NotEnoughArguments when it requires
   * any, otherwise the handler runs with no arguments and decides Success or CommandError.
   */
  lemma BareCommand(commands: map<string, Command>, prefix: string, name: string, quoteDelimiter: string)
    requires |quoteDelimiter| > 0 && IsWord(prefix + name) && !Contains(prefix + name, quoteDelimiter)
    requires name in commands
    ensures CanInvoke(prefix, quoteDelimiter, prefix + name)
    ensures var r := Outcome(commands, prefix, quoteDelimiter, prefix + name);
      && r.command == Some(commands[name])
      && (commands[name].requiredCount > 0 ==> r.kind == NotEnoughArguments)
      && (commands[name].requiredCount == 0 ==>
            r.kind == (if commands[name].coro.raises([]) then CommandError else Success))
  {
    PlainMessage(prefix, name, [], quoteDelimiter);
    assert Join([prefix + name], " ") == prefix + name;
    assert Bind(commands[name].parameters, []) == Some([]);
  }

  /** The arguments of a message with one closed quoted span. */
  lemma ArgumentsOfThreePieces(p0: string, p1: string, p2: string)
    requires WsSplit(p0) != []
    ensures ArgumentTokens([p0, p1, p2]) == WsSplit(p0)[1..] + [p1] + WsSplit(p2)
  {
    var pieces := [p0, p1, p2];
    assert pieces[1..][2..] == [];
    TextsOfQuotedPair(pieces[1..]);
  }

  /** The arguments of a message whose one quoted span is never closed. */
  lemma ArgumentsOfTwoPieces(p0: string, p1: string)
    requires WsSplit(p0) != []
    ensures ArgumentTokens([p0, p1]) == WsSplit(p0)[1..] + [p1]
  {
    TextsOfLastQuoted([p0, p1][1..]);
  }

  /** A quoted span is one argument and keeps its blanks: `b.echo a "c d" e` gives a, c d, e. */
  lemma QuotedExample(content: string, quote: string)
    requires quote == "\"" && content == "b.echo a " + quote + "c d" + quote + " e"
    ensures ArgumentTokens(Split(content, quote)) == ["a", "c d", "e"]
  {
    QuotedExamplePieces(content, quote);
    assert Split(content, quote) == ["b.echo a ", "c d", " e"];
    QuotedExampleHead("b.echo a ");
    QuotedExampleTail(" e");
    ArgumentsOfThreePieces("b.echo a ", "c d", " e");
  }

  lemma QuotedExamplePieces(content: string, quote: string)
    requires quote == "\"" && content == "b.echo a " + quote + "c d" + quote + " e"
    ensures Split(content, quote) == ["b.echo a ", "c d", " e"]
  {
    JoinThree("b.echo a ", "c d", " e", quote);
    SplitJoinChar(["b.echo a ", "c d", " e"], '"');
  }

  lemma QuotedExampleHead(s: string)
    requires s == "b.echo a "
    ensures WsSplit(s) == ["b.echo", "a"]
  {
    WsSplitWordThen("a", " ");
    assert "a" + " " == "a ";
    WsSplitSpaceThen("a ");
    WsSplitWordThen("b.echo", " a ");
    assert "b.echo" + " a " == s;
  }

  lemma QuotedExampleTail(s: string)
    requires s == " e"
    ensures WsSplit(s) == ["e"]
  {
    WsSplitWordThen("e", "");
    assert "e" + "" == "e";
    WsSplitSpaceThen("e");
  }

  /** An unclosed quote still yields its text as the last argument: `b.say "hi there` gives hi there. */
  lemma UnclosedQuoteExample(content: string, quote: string)
    requires quote == "\"" && content == "b.say " + quote + "hi there"
    ensures ArgumentTokens(Split(content, quote)) == ["hi there"]
  {
    JoinTwo("b.say ", "hi there", quote);
    SplitJoinChar(["b.say ", "hi there"], '"');
    SayHead("b.say ");
    ArgumentsOfTwoPieces("b.say ", "hi there");
  }

  /** An empty quoted span is an empty argument: `b.say ""` gives one empty token. */
  lemma EmptyQuoteExample(content: string, quote: string)
    requires quote == "\"" && content == "b.say " + quote + quote
    ensures ArgumentTokens(Split(content, quote)) == [""]
  {
    JoinThree("b.say ", "", "", quote);
    assert "b.say " + quote + "" + quote + "" == content;
    SplitJoinChar(["b.say ", "", ""], '"');
    SayHead("b.say ");
    ArgumentsOfThreePieces("b.say ", "", "");
  }

  lemma SayHead(s: string)
    requires s == "b.say "
    ensures WsSplit(s) == ["b.say"]
  {
    WsSplitWordThen("b.say", " ");
    assert "b.say" + " " == s;
  }

  /**
   * The handler `async def echo(message, text)` with no docstring, with `raises` saying when
   * its body raises and `cleandoc` standing for `inspect.cleandoc`.
   */
  function EchoHandler(raises: seq<Value> -> bool, cleandoc: string -> string): Handler {
    Handler("echo", true, [Param("message", None, None), Param("text", None, None)], None, raises, cleandoc)
  }

  /** `echo` passes the shape checks; it has one parameter, `text`, which is required. */
  lemma EchoDescribed(raises: seq<Value> -> bool, cleandoc: string -> string)
    ensures Describe("echo", EchoHandler(raises, cleandoc)).Ok?
    ensures Describe("echo", EchoHandler(raises, cleandoc)).value.requiredCount == 1
    ensures Describe("echo", EchoHandler(raises, cleandoc)).value.parameters == [Param("text", None, None)]
  {
    var h := EchoHandler(raises, cleandoc);
    assert h.params[0].name == "message";
    var cmd := Describe("echo", h).value;
    assert cmd.parameters[0] == Param("text", None, None);
  }

  /** Without a docstring `echo` gets the fallback description, whatever `cleandoc` does. */
  lemma EchoFallbackDescription(raises: seq<Value> -> bool, cleandoc: string -> string)
    ensures Describe("echo", EchoHandler(raises, cleandoc)).Ok?
    ensures Describe("echo", EchoHandler(raises, cleandoc)).value.description == "Command `echo` has no description :("
  {
    EchoDescribed(raises, cleandoc);
  }

  /** The registry after registering `echo` alone. */
  ghost function EchoRegistry(raises: seq<Value> -> bool, cleandoc: string -> string): (commands: map<string, Command>)
    ensures commands.Keys == {"echo"} && commands["echo"].requiredCount == 1
    ensures commands["echo"].parameters == [Param("text", None, None)]
    ensures commands["echo"].coro == EchoHandler(raises, cleandoc)
  {
    EchoDescribed(raises, cleandoc);
    map["echo" := Describe("echo", EchoHandler(raises, cleandoc)).value]
  }

  /** `b.echo hello` names `echo` and has the single argument `hello`. */
  lemma EchoHelloTokens(content: string)
    requires content == "b.echo hello"
    ensures CanInvoke("b.", "\"", content)
    ensures StartsWith(content, "b.")
    ensures CommandName(InitialTokens(content, "\"")[0], "b.") == "echo"
    ensures ArgumentTokens(Split(content, "\"")) == ["hello"]
  {
    NoCharNotContained(content, '"');
    assert Join(["b." + "echo"] + ["hello"], " ") == content;
    PlainMessage("b.", "echo", ["hello"], "\"");
  }

  /** `echo`'s one unannotated parameter binds `hello` unchanged. */
  lemma EchoBindsHello(cmd: Command)
    requires cmd.parameters == [Param("text", None, None)]
    ensures Bind(cmd.parameters, ["hello"]) == Some([Str("hello")])
  {
    var bound := Bind(cmd.parameters, ["hello"]);
    assert Apply(cmd.parameters[0], "hello") == Some(Str("hello"));
    assert bound.Some? && |bound.value| == 1 && bound.value[0] == Str("hello");
    assert bound.value == [Str("hello")];
  }

  /** With prefix `b.` and delimiter `"`, `b.echo hello` runs the handler on `hello`. */
  lemma EchoHello(raises: seq<Value> -> bool, cleandoc: string -> string, content: string)
    requires content == "b.echo hello"
    ensures CanInvoke("b.", "\"", content)
    ensures var r := Outcome(EchoRegistry(raises, cleandoc), "b.", "\"", content);
      && r.command == Some(EchoRegistry(raises, cleandoc)["echo"])
      && r.kind == (if raises([Str("hello")]) then CommandError else Success)
  {
    var cmd := EchoRegistry(raises, cleandoc)["echo"];
    EchoHelloTokens(content);
    EchoBindsHello(cmd);
    assert cmd.coro.raises == raises;
  }

  /** `b.echo` gives `echo` no argument for its required parameter. */
  lemma EchoBare(raises: seq<Value> -> bool, cleandoc: string -> string, content: string)
    requires content == "b.echo"
    ensures CanInvoke("b.", "\"", content)
    ensures Outcome(EchoRegistry(raises, cleandoc), "b.", "\"", content).kind == NotEnoughArguments
  {
    NoCharNotContained(content, '"');
    assert "b." + "echo" == content;
    BareCommand(EchoRegistry(raises, cleandoc), "b.", "echo", "\"");
  }

  /** `b.unknown` names `unknown`. */
  lemma EchoUnknownTokens(content: string)
    requires content == "b.unknown"
    ensures CanInvoke("b.", "\"", content)
    ensures StartsWith(content, "b.")
    ensures CommandName(InitialTokens(content, "\"")[0], "b.") == "unknown"
  {
    NoCharNotContained(content, '"');
    assert Join(["b." + "unknown"] + [], " ") == content;
    PlainMessage("b.", "unknown", [], "\"");
  }

  /** `b.unknown` names no registered command. */
  lemma EchoUnknown(raises: seq<Value> -> bool, cleandoc: string -> string, content: string)
    requires content == "b.unknown"
    ensures CanInvoke("b.", "\"", content)
    ensures Outcome(EchoRegistry(raises, cleandoc), "b.", "\"", content).kind == UnknownCommand
  {
    EchoUnknownTokens(content);
    assert "unknown" !in EchoRegistry(raises, cleandoc);
  }
}
