/**
 * The command descriptor built from a handler's declared parameter list
 * (`Command` in akio/command.py), argument binding, and the result record.
 */
module Commands {
  import opened Wrappers
  import opened Text

  /** A value handed to a handler: an unconverted token, or what an annotation produced from one. */
  datatype Value = Str(text: string) | Converted(code: int)

  /** An annotation used as a converter; `None` stands for the TypeError or ValueError it raised. */
  type Coercer = string -> Option<Value>

  /** One declared parameter: its name, the display form of its default, and its annotation. */
  datatype Param = Param(name: string, default: Option<string>, annotation: Option<Coercer>)

  /**
   * What the integrator declares about a handler in place of runtime introspection:
   * its `__name__`, whether it is a coroutine function, its full parameter list
   * (the `message` parameter included), its docstring as `inspect.getdoc` returns it,
   * whether a call with given bound arguments completes or raises, and `inspect.cleandoc`,
   * which is taken as an uninterpreted text function rather than modelled character by character
   * (the same library function for every handler in Python).
   */
  datatype Handler = Handler(
    name: string,
    isCoroutine: bool,
    params: seq<Param>,
    doc: Option<string>,
    raises: seq<Value> -> bool,
    cleandoc: string -> string)

  /** Why construction fails: TypeError, or one of the two ValueErrors. */
  datatype ConfigError = NotCoroutine | MissingMessage | MessageNotFirst

  datatype Command = Command(
    name: string,
    coro: Handler,
    parameters: seq<Param>,
    requiredCount: nat,
    usage: string,
    docstring: Option<string>,
    description: string)

  datatype ResultType =
    | Success
    | NotACommand
    | UnknownCommand
    | NotEnoughArguments
    | InvalidArgument
    | CommandError

  datatype CommandResult = CommandResult(command: Option<Command>, kind: ResultType, messageContent: string)

  /** The handler declares a parameter called `message`. */
  predicate HasMessage(params: seq<Param>) {
    exists i | 0 <= i < |params| :: params[i].name == "message"
  }

  /** Length of the leading run of parameters that have no default. */
  function LeadingRequired(ps: seq<Param>): (n: nat)
    ensures n <= |ps|
    ensures forall i :: 0 <= i < n ==> ps[i].default.None?
    ensures n < |ps| ==> ps[n].default.Some?
    ensures (forall i :: 0 <= i < |ps| ==> ps[i].default.None?) ==> n == |ps|
  {
    if ps == [] || ps[0].default.Some? then 0 else 1 + LeadingRequired(ps[1..])
  }

  /** How one parameter appears in the usage line: `name`, or `name:default` when it has a default. */
  function Entry(p: Param): (e: string)
    ensures StartsWith(e, p.name)
    ensures p.default.None? <==> |e| == |p.name|
    ensures p.default.Some? ==> e[|p.name|] == ':' && e[|p.name| + 1..] == p.default.value
  {
    match p.default
    case None => p.name
    case Some(d) => p.name + ":" + d
  }

  function Entries(ps: seq<Param>): (es: seq<string>)
    ensures |es| == |ps|
    ensures forall i :: 0 <= i < |ps| ==> es[i] == Entry(ps[i])
  {
    seq(|ps|, i requires 0 <= i < |ps| => Entry(ps[i]))
  }

  /** The usage line: one entry per parameter, separated by single spaces. */
  function Usage(ps: seq<Param>): (u: string)
  {
    Join(Entries(ps), " ")
  }

  /**
   * The description: the docstring passed through `cleandoc` when there is one,
   * else a fixed sentence naming the command.
   */
  function Description(name: string, doc: Option<string>, cleandoc: string -> string): (d: string)
    ensures doc.Some? ==> d == cleandoc(doc.value)
    ensures doc.None? ==> d == "Command `" + name + "` has no description :("
  {
    match doc
    case Some(text) => cleandoc(text)
    case None => "Command `" + name + "` has no description :("
  }

  /** What constructing a `Command` from `handler` under `name` yields: the descriptor or the error raised. */
  ghost function Describe(name: string, handler: Handler): (r: Result<Command, ConfigError>)
    ensures r == Err(NotCoroutine) <==> !handler.isCoroutine
    ensures r == Err(MissingMessage) <==> handler.isCoroutine && !HasMessage(handler.params)
    ensures r == Err(MessageNotFirst) <==>
      handler.isCoroutine && HasMessage(handler.params) && handler.params[0].name != "message"
    ensures r.Ok? ==>
      && |handler.params| >= 1
      && handler.params[0].name == "message"
      && r.value.name == name
      && r.value.coro == handler
      && |r.value.parameters| == |handler.params| - 1
      && (forall i :: 0 <= i < |r.value.parameters| ==> r.value.parameters[i] == handler.params[i + 1])
      && r.value.requiredCount <= |r.value.parameters|
      && (forall i :: 0 <= i < r.value.requiredCount ==> r.value.parameters[i].default.None?)
      && (r.value.requiredCount < |r.value.parameters| ==> r.value.parameters[r.value.requiredCount].default.Some?)
      && r.value.usage == Join(Entries(r.value.parameters), " ")
      && r.value.docstring == handler.doc
      && r.value.description == Description(name, handler.doc, handler.cleandoc)
  {
    if !handler.isCoroutine then Err(NotCoroutine)
    else if !HasMessage(handler.params) then Err(MissingMessage)
    else if handler.params[0].name != "message" then Err(MessageNotFirst)
    else
      var ps := handler.params[1..];
      Ok(Command(name, handler, ps, LeadingRequired(ps), Usage(ps), handler.doc, Description(name, handler.doc, handler.cleandoc)))
  }

  /**
   * `Command.__init__`: the shape checks, then the parameter list without `message`,
   * the required count by scanning the leading no-default run, usage and description.
   */
  method NewCommand(name: string, handler: Handler) returns (r: Result<Command, ConfigError>)
    ensures r == Describe(name, handler)
  {
    if !handler.isCoroutine {
      return Err(NotCoroutine);
    }
    var params := handler.params;
    if !HasMessage(params) {
      return Err(MissingMessage);
    }
    if params[0].name != "message" {
      return Err(MessageNotFirst);
    }
    var parameters := params[1..];
    var count := 0;
    var next := 1;
    while next < |params| && params[next].default.None?
      invariant 1 <= next <= |params|
      invariant count == next - 1
      invariant count + LeadingRequired(params[next..]) == LeadingRequired(parameters)
    {
      assert params[next..][1..] == params[next + 1..];
      count := count + 1;
      next := next + 1;
    }
    assert count == LeadingRequired(parameters);
    var usage := Usage(parameters);
    var description := Description(name, handler.doc, handler.cleandoc);
    r := Ok(Command(name, handler, parameters, count, usage, handler.doc, description));
  }

  /**
   * The usage line splits back into one entry per parameter when names are single words
   * and defaults hold no whitespace (an empty default still gives the word `name:`).
   */
  lemma UsageRoundTrip(ps: seq<Param>)
    requires forall i :: 0 <= i < |ps| ==> IsWord(ps[i].name)
    requires forall i, j :: 0 <= i < |ps| && ps[i].default.Some? && 0 <= j < |ps[i].default.value| ==>
      !IsSpace(ps[i].default.value[j])
    ensures WsSplit(Usage(ps)) == Entries(ps)
    ensures |WsSplit(Usage(ps))| == |ps|
  {
    var es := Entries(ps);
    forall k | 0 <= k < |es| ensures IsWord(es[k]) {
      var p := ps[k];
      if p.default.Some? {
        var name, d := p.name, p.default.value;
        var e := name + ":" + d;
        forall j | 0 <= j < |e| ensures !IsSpace(e[j]) {
          if j < |name| {
            assert e[j] == name[j];
          } else if j > |name| {
            assert e[j] == d[j - |name| - 1];
          }
        }
      }
    }
    WsSplitJoin(es);
  }

  /** Converting one token for one parameter: the annotation if there is one, else the token unchanged. */
  function Apply(p: Param, token: string): (v: Option<Value>)
    ensures p.annotation.None? ==> v == Some(Str(token))
    ensures p.annotation.Some? ==> v == p.annotation.value(token)
  {
    match p.annotation
    case None => Some(Str(token))
    case Some(convert) => convert(token)
  }

  function Min(a: nat, b: nat): nat {
    if a <= b then a else b
  }

  /**
   * `Command.bound_arguments`: pairs parameters with tokens as `zip` does and converts each;
   * `None` when a conversion raised.
   */
  function Bind(ps: seq<Param>, args: seq<string>): (r: Option<seq<Value>>)
    ensures r.Some? <==> forall i :: 0 <= i < |ps| && i < |args| ==> Apply(ps[i], args[i]).Some?
    ensures r.Some? ==> |r.value| == Min(|ps|, |args|)
    ensures r.Some? ==> forall i :: 0 <= i < |r.value| ==> Apply(ps[i], args[i]) == Some(r.value[i])
  {
    if ps == [] || args == [] then Some([])
    else match Apply(ps[0], args[0])
      case None => None
      case Some(v) =>
        match Bind(ps[1..], args[1..])
        case None => None
        case Some(vs) => Some([v] + vs)
  }

  /** Without annotations, binding never fails and hands over a prefix of the tokens unchanged. */
  lemma BindUnannotated(ps: seq<Param>, args: seq<string>)
    requires forall i :: 0 <= i < |ps| ==> ps[i].annotation.None?
    ensures Bind(ps, args).Some?
    ensures |Bind(ps, args).value| == Min(|ps|, |args|)
    ensures forall i :: 0 <= i < |Bind(ps, args).value| ==> Bind(ps, args).value[i] == Str(args[i])
  {
  }
}
