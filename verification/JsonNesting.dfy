/** Which events nest: those of any run on input without NUL, and exactly which ones of the others. */
module JsonNesting {
  import opened JsonMachine
  import opened Options

  /** The containers that are open after one more event, when the event fits. */
  ghost function After(open: seq<Frame>, e: Event): Option<seq<Frame>> {
    match e.kind
    case OStart => if e.nest == |open| then Some(open + [InObject]) else None
    case AStart => if e.nest == |open| then Some(open + [InArray]) else None
    case OStop =>
      if open != [] && open[|open| - 1].InObject? && e.nest == |open| - 1 then Some(open[..|open| - 1]) else None
    case AStop =>
      if open != [] && open[|open| - 1].InArray? && e.nest == |open| - 1 then Some(open[..|open| - 1]) else None
    case _ => if e.nest == DepthOf(open, e) then Some(open) else None
  }

  /** Keys and scalars are reported one level below their container, a container as a value at its own level. */
  ghost function DepthOf(open: seq<Frame>, e: Event): int {
    if e.ty.OBJECT? || e.ty.ARRAY? then |open| - 1 else |open|
  }

  /** The containers left open by the events, None when some stop event or some `nest` does not fit. */
  ghost function Replay(ev: seq<Event>): Option<seq<Frame>> {
    if ev == [] then Some([])
    else
      match Replay(ev[..|ev| - 1])
      case None => None
      case Some(open) => After(open, ev[|ev| - 1])
  }

  /** A prefix of a well-nested sequence: every stop matches the last open start. */
  ghost predicate WellNested(ev: seq<Event>) {
    Replay(ev).Some?
  }

  /** Exactly one container with all that is in it: it closes at the end and not before. */
  ghost predicate OneValue(ev: seq<Event>) {
    && Replay(ev) == Some([])
    && ev != []
    && forall k {:trigger ev[..k]} :: 0 < k < |ev| ==> Replay(ev[..k]).Some? && Replay(ev[..k]) != Some([])
  }

  /** Nothing was closed down to the top level before the end. */
  ghost predicate OpenThroughout(ev: seq<Event>) {
    forall k {:trigger ev[..k]} :: 0 < k < |ev| ==> Replay(ev[..k]).Some? && Replay(ev[..k]) != Some([])
  }

  lemma ReplayMore(ev: seq<Event>, e: Event)
    requires Replay(ev).Some?
    ensures Replay(ev + [e]) == After(Replay(ev).value, e)
  {
    assert (ev + [e])[..|ev|] == ev;
  }

  lemma OpenMore(ev: seq<Event>, e: Event)
    requires Replay(ev).Some? && OpenThroughout(ev) && (ev == [] || Replay(ev) != Some([]))
    ensures OpenThroughout(ev + [e])
  {
    var ev' := ev + [e];
    forall k {:trigger ev'[..k]} | 0 < k < |ev'|
      ensures Replay(ev'[..k]).Some? && Replay(ev'[..k]) != Some([])
    {
      if k < |ev| {
        assert ev'[..k] == ev[..k];
      } else {
        assert ev'[..k] == ev;
      }
    }
  }

  /** What every configuration keeps: `nest` counts the start events without stop, and as long as no NUL has dropped a
      container these are the containers on the stack. */
  ghost predicate Balanced(c: Config) {
    && c.nest + 1 >= |c.stack|
    && (c.nest + 1 == |c.stack| ==> Nested(c))
  }

  ghost predicate Nested(c: Config) {
    && Replay(c.ev) == Some(c.stack)
    && OpenThroughout(c.ev)
    && (c.stack == [] && c.ev != [] ==> !c.phase.Start?)
    && (c.stack == [] ==> c.phase.Start? || (c.phase.Out? && c.ev != []))
  }

  lemma OneMore(c: Config, e: Event)
    requires Nested(c) && c.stack != [] && After(c.stack, e).Some?
    ensures Replay(c.ev + [e]) == After(c.stack, e) && OpenThroughout(c.ev + [e])
  {
    ReplayMore(c.ev, e);
    OpenMore(c.ev, e);
  }

  lemma OpenBalanced(c: Config, f: Frame)
    requires Balanced(c) && (c.stack == [] ==> c.phase.Start?)
    ensures Balanced(Open(c, f))
  {
    var d := Open(c, f);
    if c.nest + 1 == |c.stack| {
      var e0, e1 := d.ev[|c.ev|], d.ev[|c.ev| + 1];
      assert d.ev == c.ev + [e0] + [e1];
      ReplayMore(c.ev, e0);
      OpenMore(c.ev, e0);
      ReplayMore(c.ev + [e0], e1);
      OpenMore(c.ev + [e0], e1);
    }
  }

  lemma CloseBalanced(c: Config)
    requires Balanced(c) && c.stack != []
    ensures Balanced(Close(c))
  {
    if c.nest + 1 == |c.stack| {
      OneMore(c, Close(c).ev[|c.ev|]);
    }
  }

  lemma ScalarBalanced(c: Config, ty: Type, text: string)
    requires Balanced(c) && c.stack != [] && !ty.OBJECT? && !ty.ARRAY?
    ensures Balanced(Scalar(c, ty, text)) && Balanced(KeySeen(c, text))
  {
    if c.nest + 1 == |c.stack| {
      OneMore(c, Scalar(c, ty, text).ev[|c.ev|]);
      OneMore(c, KeySeen(c, text).ev[|c.ev|]);
    }
  }

  lemma ValueBalanced(i: nat, ch: char, c: Config)
    requires Balanced(c) && c.stack != []
    ensures !StepValue(i, ch, c).Reject? ==> Balanced(StepValue(i, ch, c).c)
  {
    if ch == '{' {
      OpenBalanced(c, InObject);
    } else if ch == '[' {
      OpenBalanced(c, InArray);
    }
  }

  lemma StepBalanced(s: string, i: nat, c: Config)
    requires i < |s| && ScanOk(i, c) && Balanced(c)
    ensures !Step(s, i, c).Reject? ==> Balanced(Step(s, i, c).c)
  {
    var ch := s[i];
    match c.scan
    case InKey(k, esc) => ScalarBalanced(c, STRING, s[k..i]);
    case InString(k, esc) => ScalarBalanced(c, STRING, s[k..i]);
    case InNumber(k) => ScalarBalanced(c, NumberType(s[k..i]), s[k..i]);
    case InToken(k) => ScalarBalanced(c, TokenType(s[k..i]), s[k..i]);
    case NoScan =>
      if c.stack == [] {
        if c.phase.Start? && ch == '{' {
          OpenBalanced(c, InObject);
        } else if c.phase.Start? && ch == '[' {
          OpenBalanced(c, InArray);
        }
      } else {
        CloseBalanced(c);
        ValueBalanced(i, ch, c);
      }
  }

  /** Every step on `s` keeps `inv`. */
  ghost predicate Keeps(s: string, inv: Config -> bool) {
    forall i: nat, c: Config {:trigger Moves(s, i, c)} ::
      Moves(s, i, c) && inv(c) && !Step(s, i, c).Reject? ==> inv(Step(s, i, c).c)
  }

  /** What every step keeps holds at the end of a run; the events of a failed run are those of such a configuration. */
  lemma {:induction false} RunKeeps(s: string, f: Rest, inv: Config -> bool, i: nat, c: Config)
    requires FollowsSteps(s, f) && Keeps(s, inv) && i <= |s| && ScanOk(i, c) && inv(c)
    ensures match f(i, c)
            case Ended(d, _) => inv(d)
            case Failed(ev) => exists d :: inv(d) && d.ev == ev
    decreases |s| - i, c.scan != NoScan
  {
    if Moves(s, i, c) {
      match Step(s, i, c)
      case Consume(d) => RunKeeps(s, f, inv, i + 1, d);
      case Again(d) => RunKeeps(s, f, inv, i, d);
      case Reject => assert inv(c);
    } else {
      assert Stops(s, i, c);
    }
  }

  /** Every run keeps the balance. */
  lemma RunBalanced(s: string, f: Rest, i: nat, c: Config)
    requires FollowsSteps(s, f) && i <= |s| && ScanOk(i, c) && Balanced(c)
    ensures f(i, c).Ended? ==> Balanced(f(i, c).c)
  {
    var inv := (d: Config) => Balanced(d);
    assert Keeps(s, inv) by {
      forall k: nat, d: Config {:trigger Moves(s, k, d)} | Moves(s, k, d) && inv(d) && !Step(s, k, d).Reject?
        ensures inv(Step(s, k, d).c)
      {
        StepBalanced(s, k, d);
      }
    }
    RunKeeps(s, f, inv, i, c);
  }

  /** Whatever the input, NULs included: when the parser returns 0 and the context is consistent, the events are those
      of one complete value. */
  lemma ConsistentIsOneValue(s: string)
    requires Accepted(Parse(s), |s|)
    ensures OneValue(Parse(s).c.ev)
  {
    assert Replay([]) == Some([]);
    RunFollowsSteps(s);
    RunBalanced(s, RestOf(s), 0, INIT);
  }

  ghost predicate NulFree(s: string) {
    forall k :: 0 <= k < |s| ==> s[k] != '\0'
  }

  ghost function EventsOf(r: Outcome): seq<Event> {
    if r.Ended? then r.c.ev else r.ev
  }

  /** `nest` is the depth and the events fit the stack. */
  ghost predicate InStep(c: Config) {
    c.nest + 1 == |c.stack| && Nested(c)
  }

  /** Without NULs no container is dropped. */
  lemma StepNested(s: string, i: nat, c: Config)
    requires i < |s| && ScanOk(i, c) && s[i] != '\0' && InStep(c)
    ensures !Step(s, i, c).Reject? ==> InStep(Step(s, i, c).c)
  {
    StepBalanced(s, i, c);
    StepKeepsDepth(s, i, c);
  }

  lemma StepKeepsDepth(s: string, i: nat, c: Config)
    requires i < |s| && ScanOk(i, c) && s[i] != '\0' && c.nest + 1 == |c.stack|
    ensures !Step(s, i, c).Reject? ==> Step(s, i, c).c.nest + 1 == |Step(s, i, c).c.stack|
  {
  }

  lemma RunInStep(s: string, f: Rest, i: nat, c: Config)
    requires FollowsSteps(s, f) && i <= |s| && ScanOk(i, c) && InStep(c) && NulFree(s)
    ensures WellNested(EventsOf(f(i, c)))
  {
    var inv := (d: Config) => InStep(d);
    assert Keeps(s, inv) by {
      forall k: nat, d: Config {:trigger Moves(s, k, d)} | Moves(s, k, d) && inv(d) && !Step(s, k, d).Reject?
        ensures inv(Step(s, k, d).c)
      {
        StepNested(s, k, d);
      }
    }
    RunKeeps(s, f, inv, i, c);
  }

  /** On any input without NUL the events are a prefix of a well-nested sequence, with every `nest` the depth. */
  lemma EventsNest(s: string)
    requires NulFree(s)
    ensures WellNested(EventsOf(Parse(s)))
  {
    RunFollowsSteps(s);
    RunInStep(s, RestOf(s), 0, INIT);
  }

  /** Only forwards: no event is taken back. */
  lemma RunExtends(s: string, f: Rest, i: nat, c: Config)
    requires FollowsSteps(s, f) && i <= |s| && ScanOk(i, c)
    ensures c.ev <= EventsOf(f(i, c))
  {
    var inv := (d: Config) => c.ev <= d.ev;
    RunKeeps(s, f, inv, i, c);
  }

  lemma {:induction false} ReplayStuck(ev: seq<Event>, more: seq<Event>)
    requires ev <= more && Replay(ev).None?
    ensures Replay(more).None?
    decreases |more|
  {
    if ev != more {
      ReplayStuck(ev, more[..|more| - 1]);
    }
  }

  /** With NULs the containers that were opened and not closed may be more than those on the stack.  From here on
      every bracket that closes a container closes one of the kind that was opened last of them. */
  ghost predicate ClosesFit(s: string, i: nat, c: Config, open: seq<Frame>)
    requires i <= |s| && ScanOk(i, c)
    decreases |s| - i, c.scan != NoScan
  {
    if Stops(s, i, c) then true
    else
      match Step(s, i, c)
      case Reject => true
      case Again(d) => ClosesFit(s, i, d, open)
      case Consume(d) =>
        if d.nest < c.nest then
          open != [] && c.stack != [] && open[|open| - 1] == Top(c) && ClosesFit(s, i + 1, d, open[..|open| - 1])
        else if d.nest > c.nest then d.stack != [] && ClosesFit(s, i + 1, d, open + [Top(d)])
        else ClosesFit(s, i + 1, d, open)
  }

  /** Opened and not closed by the events are the containers `open`. */
  ghost predicate Tracks(c: Config, open: seq<Frame>) {
    Replay(c.ev) == Some(open) && c.nest + 1 == |open|
  }

  /** No container is opened or closed: at most a key or a scalar is reported. */
  ghost predicate Quiet(c: Config, d: Config) {
    && d.nest == c.nest
    && (d.ev == c.ev || exists e :: d.ev == c.ev + [e] && Inner(e) && e.nest == c.nest + 1)
  }

  predicate Inner(e: Event) {
    (e.kind.Key? || e.kind.Value? || e.kind.Item?) && !e.ty.OBJECT? && !e.ty.ARRAY?
  }

  /** A step opens a container, closes one, or does neither. */
  lemma StepKinds(s: string, i: nat, c: Config)
    requires Moves(s, i, c) && !Step(s, i, c).Reject?
    ensures var d := Step(s, i, c).c;
      || Quiet(c, d)
      || (Step(s, i, c).Consume? && (d == Open(c, InObject) || d == Open(c, InArray)))
      || (Step(s, i, c).Consume? && c.stack != [] && d == Close(c))
  {
    var d := Step(s, i, c).c;
    if |d.ev| == |c.ev| + 1 && c.stack != [] && d != Close(c) {
      var e := d.ev[|c.ev|];
      assert d.ev == c.ev + [e] && Inner(e) && e.nest == c.nest + 1;
    }
  }

  lemma TracksQuiet(c: Config, d: Config, open: seq<Frame>)
    requires Tracks(c, open) && Quiet(c, d)
    ensures Tracks(d, open)
  {
    if d.ev != c.ev {
      var e :| d.ev == c.ev + [e] && Inner(e) && e.nest == c.nest + 1;
      ReplayMore(c.ev, e);
    }
  }

  lemma TracksOpen(c: Config, f: Frame, open: seq<Frame>)
    requires Tracks(c, open)
    ensures Tracks(Open(c, f), open + [f])
  {
    var d := Open(c, f);
    var e0, e1 := d.ev[|c.ev|], d.ev[|c.ev| + 1];
    assert d.ev == c.ev + [e0] + [e1];
    ReplayMore(c.ev, e0);
    ReplayMore(c.ev + [e0], e1);
  }

  lemma TracksClose(c: Config, open: seq<Frame>)
    requires Tracks(c, open) && c.stack != []
    ensures if open != [] && open[|open| - 1] == Top(c) then Tracks(Close(c), open[..|open| - 1])
            else Replay(Close(c).ev).None?
  {
    ReplayMore(c.ev, Close(c).ev[|c.ev|]);
  }

  /** What one step does to the containers that are open by the events. */
  lemma StepTracks(s: string, i: nat, c: Config, open: seq<Frame>)
    requires Moves(s, i, c) && Tracks(c, open) && !Step(s, i, c).Reject?
    ensures var d := Step(s, i, c).c;
      && (Step(s, i, c).Again? ==> d.nest == c.nest)
      && (d.nest == c.nest ==> Tracks(d, open))
      && (d.nest > c.nest ==> d.stack != [] && Tracks(d, open + [Top(d)]))
      && (d.nest < c.nest ==> c.stack != [])
      && (d.nest < c.nest && open != [] && open[|open| - 1] == Top(c) ==> Tracks(d, open[..|open| - 1]))
      && (d.nest < c.nest && !(open != [] && open[|open| - 1] == Top(c)) ==> Replay(d.ev).None?)
  {
    StepKinds(s, i, c);
    TracksAny(c, Step(s, i, c).c, open);
  }

  lemma TracksAny(c: Config, d: Config, open: seq<Frame>)
    requires Tracks(c, open)
    requires Quiet(c, d) || d == Open(c, InObject) || d == Open(c, InArray) || (c.stack != [] && d == Close(c))
    ensures d.nest == c.nest ==> Tracks(d, open)
    ensures d.nest > c.nest ==> d.stack != [] && Tracks(d, open + [Top(d)])
    ensures d.nest < c.nest ==> c.stack != []
    ensures d.nest < c.nest ==> if open != [] && open[|open| - 1] == Top(c) then Tracks(d, open[..|open| - 1])
                                else Replay(d.ev).None?
  {
    if Quiet(c, d) {
      TracksQuiet(c, d, open);
    } else if d == Open(c, InObject) {
      TracksOpen(c, InObject, open);
    } else if d == Open(c, InArray) {
      TracksOpen(c, InArray, open);
    } else {
      TracksClose(c, open);
    }
  }

  /** Whether the closing brackets fit, as a function of where the run is. */
  type Fit = (nat, Config, seq<Frame>) -> bool

  ghost function FitOf(s: string): Fit {
    (i: nat, c: Config, open: seq<Frame>) => i <= |s| && ScanOk(i, c) && ClosesFit(s, i, c, open)
  }

  /** `g` at one place agrees with `g` at the next. */
  ghost predicate FitsAt(s: string, g: Fit, i: nat, c: Config, open: seq<Frame>)
    requires i <= |s| && ScanOk(i, c)
  {
    if Stops(s, i, c) then g(i, c, open)
    else
      match Step(s, i, c)
      case Reject => g(i, c, open)
      case Again(d) => g(i, c, open) == g(i, d, open)
      case Consume(d) =>
        if d.nest < c.nest then
          g(i, c, open)
          == (open != [] && c.stack != [] && open[|open| - 1] == Top(c) && g(i + 1, d, open[..|open| - 1]))
        else if d.nest > c.nest then g(i, c, open) == (d.stack != [] && g(i + 1, d, open + [Top(d)]))
        else g(i, c, open) == g(i + 1, d, open)
  }

  ghost predicate FollowsFits(s: string, g: Fit) {
    forall i: nat, c: Config, open: seq<Frame> {:trigger FitsAt(s, g, i, c, open)} ::
      i <= |s| && ScanOk(i, c) ==> FitsAt(s, g, i, c, open)
  }

  lemma FitFollows(s: string)
    ensures FollowsFits(s, FitOf(s))
  {
  }

  /** One character consumed: the containers that are open afterwards, or None when a bracket did not fit. */
  lemma FitTurn(s: string, g: Fit, i: nat, c: Config, d: Config, open: seq<Frame>) returns (after: Option<seq<Frame>>)
    requires FollowsFits(s, g) && Moves(s, i, c) && Step(s, i, c) == Consume(d) && Tracks(c, open)
    ensures after.Some? ==> Tracks(d, after.value) && g(i, c, open) == g(i + 1, d, after.value)
    ensures after.None? ==> Replay(d.ev).None? && !g(i, c, open)
  {
    StepTracks(s, i, c, open);
    assert FitsAt(s, g, i, c, open);
    after := if d.nest == c.nest then Some(open)
             else if d.nest > c.nest then Some(open + [Top(d)])
             else if open != [] && open[|open| - 1] == Top(c) then Some(open[..|open| - 1]) else None;
  }

  lemma FitAgain(s: string, g: Fit, i: nat, c: Config, d: Config, open: seq<Frame>)
    requires FollowsFits(s, g) && Moves(s, i, c) && Step(s, i, c) == Again(d) && Tracks(c, open)
    ensures Tracks(d, open) && g(i, c, open) == g(i, d, open)
  {
    StepTracks(s, i, c, open);
    assert FitsAt(s, g, i, c, open);
  }

  lemma FitEnd(s: string, f: Rest, g: Fit, i: nat, c: Config, open: seq<Frame>)
    requires FollowsSteps(s, f) && FollowsFits(s, g) && i <= |s| && ScanOk(i, c) && Tracks(c, open)
    requires Stops(s, i, c) || (Moves(s, i, c) && Step(s, i, c).Reject?)
    ensures g(i, c, open) && WellNested(EventsOf(f(i, c)))
  {
    assert FitsAt(s, g, i, c, open);
  }

  /** Events that do not nest are not mended by later ones. */
  lemma Stuck(s: string, f: Rest, i: nat, d: Config)
    requires FollowsSteps(s, f) && i <= |s| && ScanOk(i, d) && Replay(d.ev).None?
    ensures !WellNested(EventsOf(f(i, d)))
  {
    RunExtends(s, f, i, d);
    ReplayStuck(d.ev, EventsOf(f(i, d)));
  }

  lemma NestsTurn(s: string, f: Rest, g: Fit, i: nat, c: Config, d: Config, open: seq<Frame>)
    returns (after: Option<seq<Frame>>)
    requires FollowsSteps(s, f) && FollowsFits(s, g)
    requires Moves(s, i, c) && Step(s, i, c) == Consume(d) && Tracks(c, open)
    ensures f(i, c) == f(i + 1, d) && ScanOk(i + 1, d)
    ensures after.Some? ==> Tracks(d, after.value) && g(i, c, open) == g(i + 1, d, after.value)
    ensures after.None? ==> !g(i, c, open) && !WellNested(EventsOf(f(i, c)))
  {
    after := FitTurn(s, g, i, c, d, open);
    if after.None? {
      Stuck(s, f, i + 1, d);
    }
  }

  lemma {:induction false} NestsJustWhenFits(s: string, f: Rest, g: Fit, i: nat, c: Config, open: seq<Frame>)
    requires FollowsSteps(s, f) && FollowsFits(s, g) && i <= |s| && ScanOk(i, c) && Tracks(c, open)
    ensures WellNested(EventsOf(f(i, c))) <==> g(i, c, open)
    decreases |s| - i, c.scan != NoScan
  {
    if Stops(s, i, c) {
      FitEnd(s, f, g, i, c, open);
      return;
    }
    assert Moves(s, i, c);
    match Step(s, i, c)
    case Consume(d) =>
      var after := NestsTurn(s, f, g, i, c, d, open);
      if after.Some? {
        NestsJustWhenFits(s, f, g, i + 1, d, after.value);
      }
    case Again(d) =>
      FitAgain(s, g, i, c, d, open);
      NestsJustWhenFits(s, f, g, i, d, open);
    case Reject =>
      FitEnd(s, f, g, i, c, open);
  }

  /** On any input at all the events nest if and only if every closing bracket fits. */
  lemma NestsExactly(s: string)
    ensures WellNested(EventsOf(Parse(s))) <==> ClosesFit(s, 0, INIT, [])
  {
    RunFollowsSteps(s);
    FitFollows(s);
    assert Replay([]) == Some([]);
    NestsJustWhenFits(s, RestOf(s), FitOf(s), 0, INIT, []);
  }

  /** An array inside an object, with a NUL where the array should end. */
  const NUL_EXAMPLE: string := ['{', '"', 'a', '"', ':', '[', '1', '\0', '}']

  /** The configurations of the run on it after each character. */
  function Object(): Config { Open(INIT, InObject) }

  function Array(): Config { Open(KeySeen(Object(), "a").(phase := ExpectValue), InArray) }

  function Dropped(): Config {
    var c := Scalar(Array(), INT, "1");
    c.(stack := c.stack[..|c.stack| - 1])
  }

  lemma ExampleKey(f: Rest)
    requires FollowsSteps(NUL_EXAMPLE, f)
    ensures f(0, INIT) == f(5, KeySeen(Object(), "a").(phase := ExpectValue))
  {
    var s, c := NUL_EXAMPLE, Object();
    assert Moves(s, 0, INIT) && Moves(s, 1, c);
    var key := c.(scan := InKey(2, false));
    assert Moves(s, 2, key) && Moves(s, 3, key);
    assert s[2..3] == "a";
    assert Moves(s, 4, KeySeen(c, "a"));
  }

  lemma ExampleNul(f: Rest)
    requires FollowsSteps(NUL_EXAMPLE, f)
    ensures f(5, KeySeen(Object(), "a").(phase := ExpectValue)) == f(8, Dropped())
  {
    var s := NUL_EXAMPLE;
    assert Moves(s, 5, KeySeen(Object(), "a").(phase := ExpectValue)) && Moves(s, 6, Array());
    assert s[6..7] == "1";
    assert Moves(s, 7, Array().(scan := InNumber(6)));
    assert Moves(s, 7, Scalar(Array(), INT, "1"));
  }

  lemma TracksKey(c: Config, text: string, open: seq<Frame>)
    requires Tracks(c, open)
    ensures Tracks(KeySeen(c, text).(phase := ExpectValue), open)
  {
    ReplayMore(c.ev, Event(Key, c.nest + 1, STRING, text));
  }

  lemma TracksDropped(c: Config, text: string, open: seq<Frame>)
    requires Tracks(c, open) && c.stack != []
    ensures var d := Scalar(c, INT, text); Tracks(d.(stack := d.stack[..|d.stack| - 1]), open)
  {
    ReplayMore(c.ev, Scalar(c, INT, text).ev[|c.ev|]);
  }

  lemma ExampleTracks()
    ensures Tracks(Dropped(), [InObject, InArray])
  {
    var none: seq<Frame> := [];
    assert none + [InObject] == [InObject] && [InObject] + [InArray] == [InObject, InArray];
    assert Tracks(INIT, []);
    TracksOpen(INIT, InObject, []);
    TracksKey(Object(), "a", [InObject]);
    TracksOpen(KeySeen(Object(), "a").(phase := ExpectValue), InArray, [InObject]);
    TracksDropped(Array(), "1", [InObject] + [InArray]);
  }

  lemma ExampleEnd(f: Rest, c: Config)
    requires FollowsSteps(NUL_EXAMPLE, f) && Tracks(c, [InObject, InArray])
    requires c.stack == [InObject] && c.phase.Out? && c.scan == NoScan
    ensures !WellNested(EventsOf(f(8, c)))
  {
    TracksClose(c, [InObject, InArray]);
    assert Moves(NUL_EXAMPLE, 8, c);
    Stuck(NUL_EXAMPLE, f, 9, Close(c));
  }

  /** A NUL can break the nesting: here the stop event of the object comes while the array is open. */
  lemma NulBreaksNesting()
    ensures !WellNested(EventsOf(Parse(NUL_EXAMPLE)))
  {
    var f := RestOf(NUL_EXAMPLE);
    RunFollowsSteps(NUL_EXAMPLE);
    ExampleKey(f);
    ExampleNul(f);
    ExampleTracks();
    ExampleEnd(f, Dropped());
  }
}
