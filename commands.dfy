/** The pure half of redis_bot/commander.py: splitting a message body into
    a command and its arguments, the handler records that registration
    produces, the conditions that select a handler, and the help listing. */
module Commands {
  import opened Wrappers
  import opened Messages
  import PyText
  import Shlex

  /** `(command, args, command_line)` as `split_command` returns them. */
  datatype CommandLine = CommandLine(command: string, args: seq<string>, tokens: seq<string>)

  /** `split_command`: shell-style words, or the pieces between runs of
      whitespace when shell-style splitting raises; the command is the first
      word, or "" when there is none. */
  function SplitCommand(body: string): (r: CommandLine)
    ensures Shlex.Split(body).Ok? ==> r.tokens == Shlex.Split(body).value
    ensures Shlex.Split(body).Err? ==> r.tokens == PyText.WsSplit(body)
    ensures r.tokens == [] ==> r.command == "" && r.args == []
    ensures r.tokens != [] ==> r.tokens == [r.command] + r.args
  {
    var line := match Shlex.Split(body) case Ok(words) => words case Err(_) => PyText.WsSplit(body);
    if line == [] then CommandLine("", [], line) else CommandLine(line[0], line[1..], line)
  }

  /** The command of a message: that of its body, or of "" without one. */
  function CommandOf(m: Message): string {
    SplitCommand(Get(m, BodyKey, "")).command
  }

  /** Plain words separated by single spaces are split into exactly those
      words. */
  lemma SplitCommandWords(ws: seq<string>)
    requires |ws| >= 1
    requires forall k :: 0 <= k < |ws| ==> ws[k] != "" && Shlex.Plain(ws[k])
    ensures SplitCommand(PyText.Join(" ", ws)) == CommandLine(ws[0], ws[1..], ws)
  {
    Shlex.SplitJoinedWords(ws);
  }

  /** An unterminated quote falls back to whitespace splitting instead of
      raising: `say "hello` still has the command `say`. */
  lemma SplitCommandUnterminatedQuote()
    ensures SplitCommand("say \"hello") == CommandLine("say", ["\"hello"], ["say", "\"hello"])
  {
    Shlex.SplitUnclosedQuote(["say"], "hello");
    assert PyText.Join(" ", ["say", ""]) + "\"" + "hello" == "say \"hello";
    PyText.WsSplitJoin(["say", "\"hello"]);
    assert PyText.Join(" ", ["say", "\"hello"]) == "say \"hello";
  }

  /** A custom condition: any predicate on the message. */
  type Condition = Message -> bool

  /** What calling a handler does. `help` is the one handler whose reply
      depends on the registry (the public handlers at the time of the call);
      any other handler is a function of the message and the arguments that
      returns a string or None. */
  datatype Action = HelpAction | Reply(run: (Message, seq<string>) -> Option<string>)

  /** A decorated function: its `__name__`, its `__doc__` and its body. */
  datatype Handler = Handler(name: string, doc: Option<string>, action: Action)

  /** The `wrapped_function` that registration creates: a new object each
      time (its identity is the registration's position `id`), carrying the
      `bot_condition` it was registered with. */
  datatype Wrapped = Wrapped(id: nat, handler: Handler, botCondition: Option<Condition>)

  /** One `(condition, wrapped_function)` pair of `conditions_functions`: the
      condition closure is fully given by the custom condition (in `fn`) and
      the room whitelist. */
  datatype Entry = Entry(fn: Wrapped, rooms: Option<seq<string>>)

  /** A `register(rooms, condition, hide)` decorator object. */
  datatype Registration = Registration(rooms: Option<seq<string>>, condition: Option<Condition>, hidden: bool)

  /** `botcmd = register()` */
  const BotCmd := Registration(None, None, false)

  /** `react(condition, rooms, hide)`: a registration with a custom
      condition, hidden unless asked otherwise. */
  function React(condition: Condition, rooms: Option<seq<string>> := None, hidden: bool := true): (r: Registration)
    ensures r.condition.Some? && r.condition.value == condition
    ensures r.rooms == rooms && r.hidden == hidden
  {
    Registration(rooms, Some(condition), hidden)
  }

  /** The `help` function the module registers itself; it has no docstring. */
  const HelpHandler := Handler("help", None, HelpAction)

  datatype DispatchError = KeyError(key: string) | TypeError

  /** `default_condition`: the command is "bot" followed by the name. */
  predicate DefaultCondition(name: string, m: Message): (b: bool)
    ensures b <==> |CommandOf(m)| >= 3 && CommandOf(m)[..3] == "bot" && CommandOf(m)[3..] == name
  {
    var command := CommandOf(m);
    assert |command| >= 3 ==> command == command[..3] + command[3..];
    command == "bot" + name
  }

  const Threshold := 90

  /** `close_condition`: the similarity of the command and "bot" + name,
      as `ratio` scores it, is below the threshold. With a scorer that rates
      a string against itself at or above the threshold (`fuzz.ratio` gives
      100), an exact hit is never a close candidate. */
  predicate CloseCondition(ratio: (string, string) -> int, name: string, m: Message, threshold: int := Threshold): (b: bool)
    ensures DefaultCondition(name, m) && ratio(CommandOf(m), CommandOf(m)) >= threshold ==> !b
  {
    ratio(CommandOf(m), "bot" + name) < threshold
  }

  /** The condition closure built by `register.__call__`: the custom
      condition, or the default one, and then, when there is a room
      whitelist, `message["mucroom"] in rooms` (which raises KeyError when the
      message has no room). */
  function Holds(e: Entry, m: Message): (r: Result<bool, DispatchError>)
    ensures r == Ok(true) <==>
      (if e.fn.botCondition.Some? then e.fn.botCondition.value(m) else DefaultCondition(e.fn.handler.name, m))
      && (e.rooms.None? || (RoomKey in m && m[RoomKey] in e.rooms.value))
    ensures r.Err? <==>
      (if e.fn.botCondition.Some? then e.fn.botCondition.value(m) else DefaultCondition(e.fn.handler.name, m))
      && e.rooms.Some? && RoomKey !in m
    ensures r.Err? ==> r.error == KeyError(RoomKey)
  {
    var base := match e.fn.botCondition
      case Some(condition) => condition(m)
      case None => DefaultCondition(e.fn.handler.name, m);
    if !base then Ok(false)
    else match e.rooms
      case None => Ok(true)
      case Some(rooms) => if RoomKey in m then Ok(m[RoomKey] in rooms) else Err(KeyError(RoomKey))
  }

  /** A handler registered without a condition or rooms matches exactly the
      messages whose command is "bot" + its name. */
  lemma HoldsDefault(w: Wrapped, m: Message)
    requires w.botCondition.None?
    ensures Holds(Entry(w, None), m) == Ok(CommandOf(m) == "bot" + w.handler.name)
  {
  }

  /** The help text for one public function. */
  function HelpLine(w: Wrapped): string {
    "bot" + w.handler.name + ": " + DocLine(w.handler.doc)
  }

  /** The first line of a docstring, or "not documented" when it is missing
      or empty. */
  function DocLine(doc: Option<string>): (r: string)
    ensures '\n' !in r
  {
    match doc
    case Some(text) => if text != "" then PyText.FirstLine(text) else "not documented"
    case None => "not documented"
  }

  function HelpLines(publics: seq<Wrapped>): (r: seq<string>)
    ensures |r| == |publics|
    decreases |publics|
  {
    if publics == [] then [] else [HelpLine(publics[0])] + HelpLines(publics[1..])
  }

  /** What `help` returns: one line per public function, joined by newlines. */
  function HelpText(publics: seq<Wrapped>): (r: string)
    ensures publics == [] ==> r == ""
    ensures publics != [] ==> HelpLine(publics[0]) <= r
  {
    PyText.Join("\n", HelpLines(publics))
  }

  lemma {:induction false} HelpLinesAt(publics: seq<Wrapped>, k: nat)
    requires k < |publics|
    ensures HelpLines(publics)[k] == HelpLine(publics[k])
    decreases |publics|
  {
    assert HelpLines(publics) == [HelpLine(publics[0])] + HelpLines(publics[1..]);
    if k > 0 {
      HelpLinesAt(publics[1..], k - 1);
      assert publics[1..][k - 1] == publics[k];
    }
  }

  lemma HelpLineNoNewline(w: Wrapped)
    requires '\n' !in w.handler.name
    ensures '\n' !in HelpLine(w)
  {
    var doc := DocLine(w.handler.doc);
    assert HelpLine(w) == "bot" + w.handler.name + ": " + doc;
    assert '\n' !in "bot" && '\n' !in ": " && '\n' !in doc;
  }

  /** The lines of the help text are, in registration order, one per public
      function: "bot<name>: <first doc line or 'not documented'>". */
  lemma HelpListing(publics: seq<Wrapped>)
    requires publics != []
    requires forall k :: 0 <= k < |publics| ==> '\n' !in publics[k].handler.name
    ensures |PyText.SplitOn('\n', HelpText(publics))| == |publics|
    ensures forall k :: 0 <= k < |publics| ==>
      PyText.SplitOn('\n', HelpText(publics))[k] == "bot" + publics[k].handler.name + ": " + DocLine(publics[k].handler.doc)
  {
    var lines := HelpLines(publics);
    forall k | 0 <= k < |lines| ensures '\n' !in lines[k] {
      HelpLinesAt(publics, k);
      HelpLineNoNewline(publics[k]);
    }
    PyText.SplitJoin('\n', lines);
    assert PyText.SplitOn('\n', HelpText(publics)) == lines;
    forall k | 0 <= k < |publics|
      ensures lines[k] == "bot" + publics[k].handler.name + ": " + DocLine(publics[k].handler.doc)
    {
      HelpLinesAt(publics, k);
    }
  }
}
