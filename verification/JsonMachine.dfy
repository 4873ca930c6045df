/** What the event parser of `src/json.c` does with its input, as a machine with an explicit stack that reads one
    character at a time, and what the events of such a run are. */
module JsonMachine {
  /** `json_type_t`, as far as the parser sets it. */
  datatype Type = OBJECT | ARRAY | STRING | INT | FLOAT | BOOLEAN | NULL

  datatype Kind = OStart | OStop | AStart | AStop | Key | Value | Item

  /** One callback: which one, and what `nest`, `ty` and the scanned text were when it ran. */
  datatype Event = Event(kind: Kind, nest: int, ty: Type, text: string)

  datatype Frame = InObject | InArray

  /** The parser states between tokens.  `Out` stands for the five states of `JPS_OUT`, `Midway` for the states that
      only occur inside a token. */
  datatype Phase = Midway | Start | OpenObject | OpenArray | KeyOut | ExpectValue | ExpectNext | Out

  /** The token being scanned, with the index of its first character. */
  datatype Scan = NoScan | InKey(start: nat, esc: bool) | InString(start: nat, esc: bool) | InNumber(start: nat)
    | InToken(start: nat)

  datatype Config = Config(stack: seq<Frame>, phase: Phase, scan: Scan, nest: int, ev: seq<Event>)

  datatype Outcome = Ended(c: Config, at: nat) | Failed(ev: seq<Event>)

  datatype Action = Consume(c: Config) | Again(c: Config) | Reject

  predicate IsDigit(c: char) { '0' <= c <= '9' }

  predicate IsAlpha(c: char) { 'a' <= c <= 'z' || 'A' <= c <= 'Z' }

  predicate IsSpace(c: char) { c == ' ' || c == '\t' || c == '\n' }

  predicate IsNumberChar(c: char) { IsDigit(c) || c == '.' || c == 'e' || c == 'E' || c == '-' }

  predicate IsTokenChar(c: char) { IsAlpha(c) || IsDigit(c) || c == '.' }

  /** The characters of each class. */
  lemma Classes(c: char)
    ensures IsSpace(c) <==> c in " \t\n"
    ensures IsDigit(c) <==> c in "0123456789"
    ensures IsNumberChar(c) <==> c in "0123456789.eE-"
    ensures IsAlpha(c) <==> c in "abcdefghijklmnopqrstuvwxyz" || c in "ABCDEFGHIJKLMNOPQRSTUVWXYZ"
    ensures IsTokenChar(c)
      <==> c in "abcdefghijklmnopqrstuvwxyz" || c in "ABCDEFGHIJKLMNOPQRSTUVWXYZ" || c in "0123456789."
  {
  }

  function NumberType(text: string): Type {
    if exists k :: 1 <= k < |text| && !IsDigit(text[k]) then FLOAT else INT
  }

  function TokenType(text: string): Type {
    if text == "true" || text == "false" then BOOLEAN else NULL
  }

  function Top(c: Config): Frame
    requires c.stack != []
  {
    c.stack[|c.stack| - 1]
  }

  /** A scalar seen inside the innermost container. */
  function Scalar(c: Config, ty: Type, text: string): Config
    requires c.stack != []
  {
    var kind := if Top(c).InObject? then Value else Item;
    c.(phase := Out, scan := NoScan, ev := c.ev + [Event(kind, c.nest + 1, ty, text)])
  }

  function KeySeen(c: Config, text: string): Config {
    c.(phase := KeyOut, scan := NoScan, ev := c.ev + [Event(Key, c.nest + 1, STRING, text)])
  }

  /** A container begins; it is itself a value of an object or of the document, or an item of an array.  A top level
      array is reported as an item. */
  function Open(c: Config, f: Frame): Config {
    var n := c.nest + 1;
    var ty := if f.InObject? then OBJECT else ARRAY;
    var kind := if c.stack == [] then if f.InObject? then Value else Item else if Top(c).InObject? then Value else Item;
    Config(c.stack + [f], if f.InObject? then OpenObject else OpenArray, NoScan, n,
           c.ev + [Event(if f.InObject? then OStart else AStart, n, ty, ""), Event(kind, n, ty, "")])
  }

  function Close(c: Config): Config
    requires c.stack != []
  {
    var f := Top(c);
    Config(c.stack[..|c.stack| - 1], Out, NoScan, c.nest - 1,
           c.ev + [Event(if f.InObject? then OStop else AStop, c.nest, if f.InObject? then OBJECT else ARRAY, "")])
  }

  /** Where a value may begin. */
  function StepValue(i: nat, ch: char, c: Config): Action {
    if ch == '{' then Consume(Open(c, InObject))
    else if ch == '[' then Consume(Open(c, InArray))
    else if ch == '"' then Consume(c.(scan := InString(i + 1, false)))
    else if IsDigit(ch) || ch == '-' then Consume(c.(scan := InNumber(i)))
    else if IsAlpha(ch) then Consume(c.(scan := InToken(i)))
    else if IsSpace(ch) then Consume(c)
    else Reject
  }

  function StepObject(i: nat, ch: char, c: Config): Action
    requires c.stack != []
  {
    match c.phase
    case OpenObject =>
      if ch == '}' then Consume(Close(c))
      else if ch == '"' then Consume(c.(scan := InKey(i + 1, false)))
      else if IsSpace(ch) then Consume(c)
      else Reject
    case KeyOut => if ch == ':' then Consume(c.(phase := ExpectValue)) else if IsSpace(ch) then Consume(c) else Reject
    case ExpectValue => StepValue(i, ch, c)
    case Out =>
      if ch == ',' then Consume(c.(phase := ExpectNext))
      else if ch == '}' then Consume(Close(c))
      else if IsSpace(ch) then Consume(c)
      else Reject
    case ExpectNext =>
      if ch == '"' then Consume(c.(scan := InKey(i + 1, false))) else if IsSpace(ch) then Consume(c) else Reject
    case _ => Reject
  }

  function StepArray(i: nat, ch: char, c: Config): Action
    requires c.stack != []
  {
    match c.phase
    case OpenArray => if ch == ']' then Consume(Close(c)) else StepValue(i, ch, c)
    case ExpectNext => if ch == ']' then Consume(Close(c)) else StepValue(i, ch, c)
    case Out =>
      if ch == ',' then Consume(c.(phase := ExpectNext))
      else if ch == ']' then Consume(Close(c))
      else if IsSpace(ch) then Consume(c)
      else Reject
    case _ => Reject
  }

  function StepString(ch: char, c: Config, esc: bool, done: Config, more: Config, escaping: Config): Action {
    if esc then Consume(more)
    else if ch == '\\' then Consume(escaping)
    else if ch == '"' then Consume(done)
    else Consume(more)
  }

  /** One character.  The character after a number or a bare token is looked at again.  A NUL inside a container drops
      that container without a stop event and without lowering `nest`. */
  function Step(s: string, i: nat, c: Config): Action
    requires i < |s| && ScanOk(i, c)
  {
    var ch := s[i];
    match c.scan
    case InKey(k, esc) =>
      StepString(ch, c, esc, KeySeen(c, s[k..i]), c.(scan := InKey(k, false)), c.(scan := InKey(k, true)))
    case InString(k, esc) =>
      StepString(ch, c, esc, Scalar(c, STRING, s[k..i]), c.(scan := InString(k, false)), c.(scan := InString(k, true)))
    case InNumber(k) => if IsNumberChar(ch) then Consume(c) else Again(Scalar(c, NumberType(s[k..i]), s[k..i]))
    case InToken(k) => if IsTokenChar(ch) then Consume(c) else Again(Scalar(c, TokenType(s[k..i]), s[k..i]))
    case NoScan =>
      if c.stack == [] then
        if c.phase.Start? && ch == '{' then Consume(Open(c, InObject))
        else if c.phase.Start? && ch == '[' then Consume(Open(c, InArray))
        else Consume(c)
      else if ch == '\0' then Consume(c.(stack := c.stack[..|c.stack| - 1]))
      else if Top(c).InObject? then StepObject(i, ch, c)
      else StepArray(i, ch, c)
  }

  predicate ScanOk(i: nat, c: Config) {
    c.scan != NoScan ==> c.stack != [] && c.scan.start <= i
  }

  /** The rest of the run: to the end of the input or to a NUL outside of all containers. */
  function Run(s: string, i: nat, c: Config): Outcome
    requires i <= |s| && ScanOk(i, c)
    decreases |s| - i, c.scan != NoScan
  {
    if i == |s| || (s[i] == '\0' && c.stack == []) then Ended(c, i)
    else
      match Step(s, i, c)
      case Consume(d) => Run(s, i + 1, d)
      case Again(d) => Run(s, i, d)
      case Reject => Failed(c.ev)
  }

  /** The rest of a run as a function of where it is. */
  type Rest = (nat, Config) -> Outcome

  /** `f` agrees with every single step of the machine on `s`. */
  ghost predicate FollowsSteps(s: string, f: Rest) {
    && (forall i: nat, c: Config {:trigger Moves(s, i, c)} :: Moves(s, i, c) ==>
          match Step(s, i, c)
          case Consume(d) => f(i, c) == f(i + 1, d)
          case Again(d) => f(i, c) == f(i, d)
          case Reject => f(i, c) == Failed(c.ev))
    && (forall i: nat, c: Config {:trigger Stops(s, i, c)} :: Stops(s, i, c) ==> f(i, c) == Ended(c, i))
  }

  /** The machine makes a step. */
  predicate Moves(s: string, i: nat, c: Config) {
    i < |s| && ScanOk(i, c) && !(s[i] == '\0' && c.stack == [])
  }

  /** The machine has come to an end. */
  predicate Stops(s: string, i: nat, c: Config) {
    i <= |s| && ScanOk(i, c) && (i == |s| || (s[i] == '\0' && c.stack == []))
  }

  ghost function RestOf(s: string): Rest {
    (i: nat, c: Config) => if i <= |s| && ScanOk(i, c) then Run(s, i, c) else Failed([])
  }

  lemma RunFollowsSteps(s: string)
    ensures FollowsSteps(s, RestOf(s))
  {
  }

  const INIT := Config([], Start, NoScan, -1, [])

  /** The run that `json_parse` makes on a fresh context. */
  function Parse(s: string): Outcome {
    Run(s, 0, INIT)
  }

  /** `json_parse` returns 0. */
  predicate Returned(r: Outcome) {
    r.Ended? && r.c.scan == NoScan
  }

  /** `json_parse` returns 0 and `json_ctx_consistent` finds nothing; at the end of the input every container that is
      still open has moved the index one further. */
  predicate Accepted(r: Outcome, sz: nat) {
    Returned(r) && r.at + |r.c.stack| == sz && r.c.phase.Out? && r.c.nest < 0
  }
}
