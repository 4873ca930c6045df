/** The event parser of `src/json.c`: the mutually recursive routines on a parser context, which refine the machine. */
module Json {
  import opened JsonMachine
  import opened JsonNesting

  /** The states of `st`, without the three that are never set. */
  datatype State =
    | START | OSTART | OSTOP | ASTART | ASTOP | KEYOUT
    | STRIN | STRESC | STR | STROUT | NUMIN | NUM | NUMOUT | TOKIN | TOK | TOKOUT
    | ENEXT | EVALUE

  datatype Routine = ParseStr | ParseNum | ParseTok | ParseObj | ParseArray

  /** Result codes: 0, `JSON_PARSE_NEEDMORE` and the numbered errors of each routine. */
  datatype Code = Zero | NeedMore | Fault(routine: Routine, n: nat)

  /** `st & JPS_OUT` */
  predicate IsOut(st: State) {
    st.STROUT? || st.NUMOUT? || st.TOKOUT? || st.OSTOP? || st.ASTOP?
  }

  /** The phase of the machine. */
  ghost function PhaseOf(st: State): Phase {
    match st
    case OSTART => OpenObject
    case ASTART => OpenArray
    case KEYOUT => KeyOut
    case EVALUE => ExpectValue
    case ENEXT => ExpectNext
    case START => Start
    case _ => if IsOut(st) then Out else Midway
  }

  /** A run that makes the parser return an error or ask for more: it stops in a token or at a misplaced character. */
  ghost predicate Broken(r: Outcome, ev: seq<Event>) {
    !Returned(r) && EventsOf(r) == ev
  }

  ghost function Scanning(c: Config, key: bool, k: nat, esc: bool): Config {
    if key then c.(scan := InKey(k, esc)) else c.(scan := InString(k, esc))
  }

  ghost function Scanned(c: Config, key: bool, text: string): Config
    requires c.stack != []
  {
    if key then KeySeen(c, text) else Scalar(c, STRING, text)
  }

  /** One character of a string token. */
  lemma StringTurn(s: string, f: Rest, i: nat, c: Config, key: bool, k: nat, esc: bool)
    requires FollowsSteps(s, f) && k <= i < |s| && c.stack != []
    ensures var here := f(i, Scanning(c, key, k, esc));
      if !esc && s[i] == '"' then here == f(i + 1, Scanned(c, key, s[k..i]))
      else here == f(i + 1, Scanning(c, key, k, !esc && s[i] == '\\'))
  {
    assert Moves(s, i, Scanning(c, key, k, esc));
  }

  /** One character behind the first of a number. */
  lemma NumberTurn(s: string, f: Rest, i: nat, c: Config, k: nat)
    requires FollowsSteps(s, f) && k <= i < |s| && c.stack != []
    ensures var here := f(i, c.(scan := InNumber(k)));
      if IsNumberChar(s[i]) then here == f(i + 1, c.(scan := InNumber(k)))
      else here == f(i, Scalar(c, NumberType(s[k..i]), s[k..i]))
  {
    assert Moves(s, i, c.(scan := InNumber(k)));
  }

  /** One character outside of all containers. */
  lemma TopTurn(s: string, f: Rest, i: nat, c: Config)
    requires FollowsSteps(s, f) && i < |s| && c.stack == [] && c.scan == NoScan
    ensures var here := f(i, c);
      if s[i] == '\0' then here == Ended(c, i)
      else if c.phase.Start? && s[i] == '{' then here == f(i + 1, Open(c, InObject))
      else if c.phase.Start? && s[i] == '[' then here == f(i + 1, Open(c, InArray))
      else here == f(i + 1, c)
  {
    assert Moves(s, i, c) || Stops(s, i, c);
  }

  class Context {
    var input: string
    var st: State
    var float: bool
    var ty: Type
    var start: nat
    var end: nat
    var idx: nat
    var nest: int
    var events: seq<Event>

    /** `json_init` with one callback for everything, which returns 0 and whose calls are recorded in `events`. */
    constructor ()
      ensures Fresh() && events == []
    {
      input := "";
      st := START;
      float := false;
      ty := NULL;
      start, end := 0, 0;
      idx := 0;
      nest := -1;
      events := [];
    }

    predicate Fresh()
      reads this
    {
      st == START && idx == 0 && nest == -1
    }

    /** `json_reset`; the record of calls starts anew. */
    method Reset()
      modifies this
      ensures Fresh() && events == []
    {
      input := "";
      st := START;
      float := false;
      idx := 0;
      nest := -1;
      events := [];
    }

    /** The configuration of the machine inside the containers `stack`. */
    ghost function Conf(stack: seq<Frame>): Config
      reads this
    {
      Config(stack, PhaseOf(st), NoScan, nest, events)
    }

    /** The run `r` goes on from index `i` inside the containers `stack`.  Past the end of the input it is over, and
        every container left open below `stack` has moved the index one further. */
    ghost predicate At(f: Rest, r: Outcome, stack: seq<Frame>, rest: seq<Frame>, i: nat)
      reads this
    {
      if i <= |input| then rest == stack && r == f(i, Conf(stack))
      else stack < rest && |rest| == |stack| + i - |input| && r == Ended(Conf(rest), |input|)
    }

    method Call(kind: Kind, text: string)
      modifies this`events
      ensures events == old(events) + [Event(kind, nest, ty, text)]
    {
      events := events + [Event(kind, nest, ty, text)];
    }

    /** A callback one level below the container. */
    method Report(kind: Kind, text: string)
      modifies this`nest, this`events
      ensures nest == old(nest) && events == old(events) + [Event(kind, nest + 1, ty, text)]
    {
      nest := nest + 1;
      Call(kind, text);
      nest := nest - 1;
    }

    /** `json_parse_str` */
    method ParseString(ghost f: Rest, ghost c: Config, ghost key: bool) returns (res: Code)
      requires FollowsSteps(input, f)
      requires st == STRIN && start == idx <= |input| && c.stack != []
      modifies this`st, this`idx, this`ty
      ensures res == Zero || res == NeedMore
      ensures start <= idx <= |input|
      ensures res == Zero ==> st == STROUT && ty == STRING && idx < |input|
      ensures res == Zero ==>
        f(start, Scanning(c, key, start, false))
        == f(idx + 1, Scanned(c, key, input[start..idx]))
      ensures res == NeedMore ==> Broken(f(start, Scanning(c, key, start, false)), c.ev)
    {
      while idx < |input|
        invariant start <= idx <= |input| && (st == STRIN || st == STR || st == STRESC)
        invariant f(start, Scanning(c, key, start, false)) == f(idx, Scanning(c, key, start, st == STRESC))
      {
        var ch := input[idx];
        StringTurn(input, f, idx, c, key, start, st == STRESC);
        if st == STRIN {
          if ch == '\\' {
            st := STRESC;
          } else if ch == '"' {
            st := STROUT;
            break;
          } else {
            st := STR;
          }
        } else if st == STRESC {
          st := STR;
        } else {
          if ch == '\\' {
            st := STRESC;
          } else if ch == '"' {
            st := STROUT;
            break;
          } else {
            st := STR;
          }
        }
        idx := idx + 1;
      }
      if st == STROUT {
        ty := STRING;
        return Zero;
      }
      assert Stops(input, idx, Scanning(c, key, start, st == STRESC));
      return NeedMore;
    }

    /** The loop of `json_parse_num`. */
    method ScanNumber(ghost f: Rest, ghost c: Config) returns (scientific: bool)
      requires FollowsSteps(input, f)
      requires st == NUMIN && idx < |input| && (IsDigit(input[idx]) || input[idx] == '-') && c.stack != []
      modifies this`st, this`idx, this`float
      ensures old(idx) < idx <= |input| && if idx < |input| then st == NUMOUT else st == NUM
      ensures var k := old(idx);
        f(k + 1, c.(scan := InNumber(k)))
        == f(idx, if idx < |input| then Scalar(c, NumberType(input[k..idx]), input[k..idx])
                  else c.(scan := InNumber(k)))
      ensures float || scientific <==> exists j :: old(idx) + 1 <= j < idx && !IsDigit(input[j])
    {
      ghost var k := idx;
      float := false;
      scientific := false;
      while idx < |input|
        invariant k <= idx <= |input| && (st == NUMIN || st == NUM) && (st == NUMIN <==> idx == k)
        invariant idx > k ==> f(k + 1, c.(scan := InNumber(k))) == f(idx, c.(scan := InNumber(k)))
        invariant float || scientific <==> exists j :: k + 1 <= j < idx && !IsDigit(input[j])
      {
        var ch := input[idx];
        NumberTurn(input, f, idx, c, k);
        if st == NUMIN {
          // a digit or a minus sign, as both callers have seen
          st := NUM;
        } else {
          if IsDigit(ch) {
            st := NUM;
          } else if ch == '.' {
            st := NUM;
            float := true;
          } else if ch == 'e' || ch == 'E' || ch == '-' {
            st := NUM;
            scientific := true;
          } else {
            st := NUMOUT;
            break;
          }
        }
        idx := idx + 1;
      }
    }

    /** `json_parse_num`; on success the index is back on the last character of the number. */
    method ParseNumber(ghost f: Rest, ghost c: Config) returns (res: Code)
      requires FollowsSteps(input, f)
      requires st == NUMIN && idx < |input| && (IsDigit(input[idx]) || input[idx] == '-') && c.stack != []
      modifies this`st, this`idx, this`ty, this`float
      ensures res == Zero || res == NeedMore
      ensures old(idx) <= idx <= |input|
      ensures res == Zero ==> st == NUMOUT && idx < |input| && ty == NumberType(input[old(idx)..idx + 1])
      ensures res == Zero ==>
        f(old(idx) + 1, c.(scan := InNumber(old(idx))))
        == f(idx + 1, Scalar(c, ty, input[old(idx)..idx + 1]))
      ensures res == NeedMore ==> Broken(f(old(idx) + 1, c.(scan := InNumber(old(idx)))), c.ev)
    {
      ghost var k := idx;
      var scientific := ScanNumber(f, c);
      if st == NUMOUT {
        NumberText(input, k, idx);
        idx := idx - 1;
        ty := if float || scientific then FLOAT else INT;
        return Zero;
      }
      assert Stops(input, idx, c.(scan := InNumber(k)));
      return NeedMore;
    }

    /** `json_parse_tok`; on success the index is back on the last character of the token. */
    method ParseToken(ghost f: Rest, ghost c: Config) returns (res: Code)
      requires FollowsSteps(input, f)
      requires st == TOKIN && idx < |input| && IsAlpha(input[idx]) && c.stack != []
      modifies this`st, this`idx, this`ty
      ensures res == Zero || res == NeedMore
      ensures old(idx) <= idx <= |input|
      ensures res == Zero ==> st == TOKOUT && idx < |input| && ty == NULL
      ensures res == Zero ==>
        f(old(idx) + 1, c.(scan := InToken(old(idx))))
        == f(idx + 1, Scalar(c, TokenType(input[old(idx)..idx + 1]), input[old(idx)..idx + 1]))
      ensures res == NeedMore ==> Broken(f(old(idx) + 1, c.(scan := InToken(old(idx)))), c.ev)
    {
      ghost var k := idx;
      while idx < |input|
        invariant k <= idx <= |input| && (st == TOKIN || st == TOK) && (st == TOKIN <==> idx == k)
        invariant idx > k ==> f(k + 1, c.(scan := InToken(k))) == f(idx, c.(scan := InToken(k)))
      {
        var ch := input[idx];
        assert idx > k ==> Moves(input, idx, c.(scan := InToken(k)));
        if IsTokenChar(ch) {
          st := TOK;
        } else {
          st := TOKOUT;
          break;
        }
        idx := idx + 1;
      }
      if st == TOKOUT {
        idx := idx - 1;
        ty := NULL;
        return Zero;
      }
      assert Stops(input, idx, c.(scan := InToken(k)));
      return NeedMore;
    }

    /** A string or a key, from its opening quote to its closing one. */
    method Quoted(ghost f: Rest, ghost c: Config, ghost key: bool) returns (res: Code)
      requires FollowsSteps(input, f) && idx < |input| && c.stack != []
      modifies this`st, this`idx, this`ty, this`start, this`end
      ensures res == Zero || res == NeedMore
      ensures old(idx) < idx <= |input|
      ensures res == Zero ==> st == STROUT && ty == STRING && start <= end == idx < |input|
      ensures var from := f(old(idx) + 1, Scanning(c, key, old(idx) + 1, false));
        if res == Zero then from == f(idx + 1, Scanned(c, key, input[start..end])) else Broken(from, c.ev)
    {
      st := STRIN;
      idx := idx + 1;
      start := idx;
      res := ParseString(f, c, key);
      if res == Zero {
        end := idx;
      }
    }

    /** A string in value position, from its opening quote to the callback. */
    method StringValue(ghost f: Rest, ghost stack: seq<Frame>, kind: Kind) returns (res: Code)
      requires FollowsSteps(input, f)
      requires idx < |input| && input[idx] == '"' && stack != [] && kind == KindIn(stack)
      modifies this
      ensures input == old(input) && idx >= old(idx)
      ensures res == Zero ==>
        IsOut(st) && idx < |input|
        && old(f(idx + 1, Conf(stack).(scan := InString(idx + 1, false)))) == f(idx + 1, Conf(stack))
      ensures res != Zero ==> Broken(old(f(idx + 1, Conf(stack).(scan := InString(idx + 1, false)))), events)
    {
      ghost var c := Conf(stack);
      res := Quoted(f, c, false);
      if res != Zero {
        return;
      }
      Report(kind, input[start..end]);
    }

    /** A key, from its opening quote to the callback. */
    method KeyString(ghost f: Rest, ghost stack: seq<Frame>) returns (res: Code)
      requires FollowsSteps(input, f)
      requires idx < |input| && input[idx] == '"' && stack != []
      modifies this
      ensures input == old(input) && idx >= old(idx)
      ensures res == Zero ==>
        st == KEYOUT && idx < |input|
        && old(f(idx + 1, Conf(stack).(scan := InKey(idx + 1, false)))) == f(idx + 1, Conf(stack))
      ensures res != Zero ==> Broken(old(f(idx + 1, Conf(stack).(scan := InKey(idx + 1, false)))), events)
    {
      ghost var c := Conf(stack);
      res := Quoted(f, c, true);
      if res != Zero {
        return;
      }
      st := KEYOUT;
      Report(Key, input[start..end]);
    }

    method NumberValue(ghost f: Rest, ghost stack: seq<Frame>, kind: Kind) returns (res: Code)
      requires FollowsSteps(input, f)
      requires idx < |input| && (IsDigit(input[idx]) || input[idx] == '-') && stack != [] && kind == KindIn(stack)
      modifies this
      ensures input == old(input) && idx >= old(idx)
      ensures res == Zero ==>
        IsOut(st) && idx < |input| && old(f(idx + 1, Conf(stack).(scan := InNumber(idx)))) == f(idx + 1, Conf(stack))
      ensures res != Zero ==> Broken(old(f(idx + 1, Conf(stack).(scan := InNumber(idx)))), events)
    {
      ghost var c := Conf(stack);
      st := NUMIN;
      var tmp := idx;
      res := ParseNumber(f, c);
      if res != Zero {
        return;
      }
      Report(kind, input[tmp..idx + 1]);
    }

    /** The literal names that have a type of their own. */
    method Classify(token: string)
      requires ty == NULL
      modifies this`ty
      ensures ty == TokenType(token)
    {
      if token == "true" {
        ty := BOOLEAN;
      } else if token == "false" {
        ty := BOOLEAN;
      } else if token == "null" {
        ty := NULL;
      }
    }

    method TokenValue(ghost f: Rest, ghost stack: seq<Frame>, kind: Kind) returns (res: Code)
      requires FollowsSteps(input, f)
      requires idx < |input| && IsAlpha(input[idx]) && stack != [] && kind == KindIn(stack)
      modifies this
      ensures input == old(input) && idx >= old(idx)
      ensures res == Zero ==>
        IsOut(st) && idx < |input| && old(f(idx + 1, Conf(stack).(scan := InToken(idx)))) == f(idx + 1, Conf(stack))
      ensures res != Zero ==> Broken(old(f(idx + 1, Conf(stack).(scan := InToken(idx)))), events)
    {
      ghost var c := Conf(stack);
      st := TOKIN;
      var tmp := idx;
      res := ParseToken(f, c);
      if res != Zero {
        return;
      }
      var token := input[tmp..idx + 1];
      Classify(token);
      Report(kind, token);
    }

    /** A brace in value position: reports the object and parses it. */
    method OpenObjectValue(ghost f: Rest, ghost stack: seq<Frame>, kind: Kind)
      returns (res: Code, ghost rest: seq<Frame>)
      requires FollowsSteps(input, f)
      requires idx < |input|
      requires kind == if stack == [] then Value else KindIn(stack)
      modifies this
      ensures input == old(input) && idx >= old(idx)
      ensures res == Zero ==> At(f, old(f(idx + 1, Open(Conf(stack), InObject))), stack, rest, idx + 1)
      ensures res != Zero ==> Broken(old(f(idx + 1, Open(Conf(stack), InObject))), events)
      decreases |input| - idx - 1, 3
    {
      ghost var c := Conf(stack);
      st := OSTART;
      ty := OBJECT;
      nest := nest + 1;
      Call(OStart, "");
      Call(kind, "");
      idx := idx + 1;
      assert Conf(stack + [InObject]) == Open(c, InObject);
      res, rest := ParseObject(f, stack);
    }

    /** A bracket in value position: reports the array and parses it. */
    method OpenArrayValue(ghost f: Rest, ghost stack: seq<Frame>, kind: Kind)
      returns (res: Code, ghost rest: seq<Frame>)
      requires FollowsSteps(input, f)
      requires idx < |input|
      requires kind == if stack == [] then Item else KindIn(stack)
      modifies this
      ensures input == old(input) && idx >= old(idx)
      ensures res == Zero ==> At(f, old(f(idx + 1, Open(Conf(stack), InArray))), stack, rest, idx + 1)
      ensures res != Zero ==> Broken(old(f(idx + 1, Open(Conf(stack), InArray))), events)
      decreases |input| - idx - 1, 3
    {
      ghost var c := Conf(stack);
      st := ASTART;
      ty := ARRAY;
      nest := nest + 1;
      Call(AStart, "");
      Call(kind, "");
      idx := idx + 1;
      assert Conf(stack + [InArray]) == Open(c, InArray);
      res, rest := ParseArray(f, stack);
    }

    /** `json_parse_obj` where a value is expected. */
    method ObjectValue(ghost f: Rest, ghost stack: seq<Frame>) returns (res: Code, ghost rest: seq<Frame>)
      requires FollowsSteps(input, f)
      requires st == EVALUE
      requires idx < |input| && input[idx] != '\0' && stack != [] && stack[|stack| - 1].InObject?
      modifies this
      ensures input == old(input) && idx >= old(idx)
      ensures res == Zero ==> At(f, old(f(idx, Conf(stack))), stack, rest, idx + 1)
      ensures res != Zero ==> Broken(old(f(idx, Conf(stack))), events)
      decreases |input| - idx, 0
    {
      rest := stack;
      var ch := input[idx];
      assert Moves(input, idx, Conf(stack));
      if ch == '{' {
        res, rest := OpenObjectValue(f, stack, Value);
      } else if ch == '[' {
        res, rest := OpenArrayValue(f, stack, Value);
      } else if ch == '"' {
        res := StringValue(f, stack, Value);
      } else if IsDigit(ch) || ch == '-' {
        res := NumberValue(f, stack, Value);
      } else if IsAlpha(ch) {
        res := TokenValue(f, stack, Value);
      } else if IsSpace(ch) {
        res := Zero;
      } else {
        res := Fault(ParseObj, 4);
      }
    }

    /** `json_parse_array` where an item is expected. */
    method ArrayValue(ghost f: Rest, ghost stack: seq<Frame>) returns (res: Code, ghost rest: seq<Frame>)
      requires FollowsSteps(input, f)
      requires (st == ASTART || st == ENEXT) && idx < |input| && input[idx] != ']'
      requires idx < |input| && input[idx] != '\0' && stack != [] && stack[|stack| - 1].InArray?
      modifies this
      ensures input == old(input) && idx >= old(idx)
      ensures res == Zero ==> At(f, old(f(idx, Conf(stack))), stack, rest, idx + 1)
      ensures res != Zero ==> Broken(old(f(idx, Conf(stack))), events)
      decreases |input| - idx, 0
    {
      rest := stack;
      var ch := input[idx];
      assert Moves(input, idx, Conf(stack));
      if ch == '{' {
        res, rest := OpenObjectValue(f, stack, Item);
      } else if ch == '[' {
        res, rest := OpenArrayValue(f, stack, Item);
        if res != Zero {
          res := Fault(Routine.ParseArray, 4);
        }
      } else if ch == '"' {
        res := StringValue(f, stack, Item);
      } else if IsDigit(ch) || ch == '-' {
        res := NumberValue(f, stack, Item);
      } else if IsAlpha(ch) {
        res := TokenValue(f, stack, Item);
      } else if IsSpace(ch) {
        res := Zero;
      } else {
        res := Fault(Routine.ParseArray, 11);
      }
    }

    /** The end of an object. */
    method CloseObject(ghost f: Rest, ghost stack: seq<Frame>)
      requires FollowsSteps(input, f)
      requires stack != [] && stack[|stack| - 1] == InObject && idx < |input|
      modifies this
      ensures input == old(input) && idx == old(idx)
      ensures At(f, f(idx + 1, Close(old(Conf(stack)))), stack[..|stack| - 1], stack[..|stack| - 1], idx + 1)
    {
      ghost var c := Conf(stack);
      st := OSTOP;
      ty := OBJECT;
      Call(OStop, "");
      nest := nest - 1;
      assert Conf(stack[..|stack| - 1]) == Close(c);
    }

    /** The end of an array. */
    method CloseArray(ghost f: Rest, ghost stack: seq<Frame>)
      requires FollowsSteps(input, f)
      requires stack != [] && stack[|stack| - 1] == InArray && idx < |input|
      modifies this
      ensures input == old(input) && idx == old(idx)
      ensures At(f, f(idx + 1, Close(old(Conf(stack)))), stack[..|stack| - 1], stack[..|stack| - 1], idx + 1)
    {
      ghost var c := Conf(stack);
      st := ASTOP;
      ty := ARRAY;
      Call(AStop, "");
      nest := nest - 1;
      assert Conf(stack[..|stack| - 1]) == Close(c);
    }

    /** One turn of the loop of `json_parse_obj`; `stop` is its `break`. */
    method ObjectStep(ghost f: Rest, ghost stack: seq<Frame>) returns (res: Code, stop: bool, ghost rest: seq<Frame>)
      requires FollowsSteps(input, f)
      requires idx < |input| && stack != [] && stack[|stack| - 1] == InObject
      modifies this
      ensures input == old(input) && idx >= old(idx)
      ensures res == Zero && stop ==> rest == stack[..|stack| - 1]
      ensures res == Zero
        ==> At(f, old(f(idx, Conf(stack))), if stop then stack[..|stack| - 1] else stack, rest, idx + 1)
      ensures res == Zero && stop ==> idx < |input|
      ensures res != Zero ==> Broken(old(f(idx, Conf(stack))), events)
      decreases |input| - idx, 1
    {
      var ch := input[idx];
      res, stop, rest := Zero, false, stack;
      assert Moves(input, idx, Conf(stack));
      if ch == '\0' {
        stop, rest := true, stack[..|stack| - 1];
      } else if st == OSTART {
        if ch == '}' {
          CloseObject(f, stack);
          stop, rest := true, stack[..|stack| - 1];
        } else if ch == '"' {
          res := KeyString(f, stack);
        } else if !IsSpace(ch) {
          res := Fault(ParseObj, 1);
        }
      } else if st == KEYOUT {
        if ch == ':' {
          st := EVALUE;
        } else if !IsSpace(ch) {
          res := Fault(ParseObj, 2);
        }
      } else if st == EVALUE {
        res, rest := ObjectValue(f, stack);
      } else if IsOut(st) {
        if ch == ',' {
          st := ENEXT;
        } else if ch == '}' {
          CloseObject(f, stack);
          stop, rest := true, stack[..|stack| - 1];
        } else if !IsSpace(ch) {
          res := Fault(ParseObj, 5);
        }
      } else if st == ENEXT {
        if ch == '"' {
          res := KeyString(f, stack);
        } else if !IsSpace(ch) {
          res := Fault(ParseObj, 6);
        }
      } else {
        res := Fault(ParseObj, 7);
      }
    }

    /** One turn of the loop of `json_parse_array`. */
    method ArrayStep(ghost f: Rest, ghost stack: seq<Frame>) returns (res: Code, stop: bool, ghost rest: seq<Frame>)
      requires FollowsSteps(input, f)
      requires idx < |input| && stack != [] && stack[|stack| - 1] == InArray
      modifies this
      ensures input == old(input) && idx >= old(idx)
      ensures res == Zero && stop ==> rest == stack[..|stack| - 1]
      ensures res == Zero
        ==> At(f, old(f(idx, Conf(stack))), if stop then stack[..|stack| - 1] else stack, rest, idx + 1)
      ensures res == Zero && stop ==> idx < |input|
      ensures res != Zero ==> Broken(old(f(idx, Conf(stack))), events)
      decreases |input| - idx, 1
    {
      var ch := input[idx];
      res, stop, rest := Zero, false, stack;
      assert Moves(input, idx, Conf(stack));
      if ch == '\0' {
        stop, rest := true, stack[..|stack| - 1];
      } else if st == ASTART || st == ENEXT {
        if ch == ']' {
          CloseArray(f, stack);
          stop, rest := true, stack[..|stack| - 1];
        } else {
          res, rest := ArrayValue(f, stack);
        }
      } else if IsOut(st) {
        if ch == ',' {
          st := ENEXT;
        } else if ch == ']' {
          CloseArray(f, stack);
          stop, rest := true, stack[..|stack| - 1];
        } else if !IsSpace(ch) {
          res := Fault(Routine.ParseArray, 13);
        }
      } else {
        res := Fault(Routine.ParseArray, 14);
      }
    }

    /** `json_parse_obj` */
    method ParseObject(ghost f: Rest, ghost outer: seq<Frame>) returns (res: Code, ghost rest: seq<Frame>)
      requires FollowsSteps(input, f)
      requires idx <= |input|
      modifies this
      ensures input == old(input) && idx >= old(idx)
      ensures res == Zero ==> At(f, old(f(idx, Conf(outer + [InObject]))), outer, rest, idx + 1)
      ensures res != Zero ==> Broken(old(f(idx, Conf(outer + [InObject]))), events)
      decreases |input| - idx, 2
    {
      ghost var stack := outer + [InObject];
      ghost var r := f(idx, Conf(stack));
      rest := stack;
      assert stack[..|stack| - 1] == outer;
      while idx < |input|
        invariant input == old(input) && idx >= old(idx)
        invariant At(f, r, stack, rest, idx)
        decreases |input| - idx
      {
        var stop;
        res, stop, rest := ObjectStep(f, stack);
        if res != Zero {
          return;
        }
        if stop {
          return Zero, outer;
        }
        idx := idx + 1;
      }
      assert idx == |input| ==> Stops(input, idx, Conf(stack));
      return Zero, rest;
    }

    /** `json_parse_array` */
    method ParseArray(ghost f: Rest, ghost outer: seq<Frame>) returns (res: Code, ghost rest: seq<Frame>)
      requires FollowsSteps(input, f)
      requires idx <= |input|
      modifies this
      ensures input == old(input) && idx >= old(idx)
      ensures res == Zero ==> At(f, old(f(idx, Conf(outer + [InArray]))), outer, rest, idx + 1)
      ensures res != Zero ==> Broken(old(f(idx, Conf(outer + [InArray]))), events)
      decreases |input| - idx, 2
    {
      ghost var stack := outer + [InArray];
      ghost var r := f(idx, Conf(stack));
      rest := stack;
      assert stack[..|stack| - 1] == outer;
      while idx < |input|
        invariant input == old(input) && idx >= old(idx)
        invariant At(f, r, stack, rest, idx)
        decreases |input| - idx
      {
        var stop;
        res, stop, rest := ArrayStep(f, stack);
        if res != Zero {
          return;
        }
        if stop {
          return Zero, outer;
        }
        idx := idx + 1;
      }
      assert idx == |input| ==> Stops(input, idx, Conf(stack));
      return Zero, rest;
    }

    /** The loop of `json_parse`: everything before the first brace or bracket and after the value is skipped. */
    method ParseLoop(ghost f: Rest) returns (res: Code)
      requires FollowsSteps(input, f) && idx <= |input|
      modifies this
      ensures input == old(input) && (res == Zero <==> Returned(old(f(idx, Conf([])))))
      ensures events == EventsOf(old(f(idx, Conf([]))))
      ensures res == Zero ==> var r := old(f(idx, Conf([])));
        idx == r.at + |r.c.stack| && PhaseOf(st) == r.c.phase && nest == r.c.nest
    {
      ghost var r, rest := f(idx, Conf([])), [];
      while idx < |input|
        invariant input == old(input) && At(f, r, [], rest, idx)
      {
        var ch := input[idx];
        TopTurn(input, f, idx, Conf([]));
        if ch == '\0' {
          break;
        }
        if st == START {
          if ch == '{' {
            res, rest := OpenObjectValue(f, [], Value);
            if res != Zero {
              return;
            }
          } else if ch == '[' {
            res, rest := OpenArrayValue(f, [], Item);
            if res != Zero {
              return;
            }
          }
        }
        idx := idx + 1;
      }
      assert idx == |input| ==> Stops(input, idx, Conf([]));
      return Zero;
    }

    /** `json_parse` */
    method Parse(text: string) returns (res: Code)
      requires Fresh() && events == []
      modifies this
      ensures input == text && (res == Zero <==> Returned(JsonMachine.Parse(text)))
      ensures events == EventsOf(JsonMachine.Parse(text))
      ensures res == Zero ==> var r := JsonMachine.Parse(text);
        idx == r.at + |r.c.stack| && PhaseOf(st) == r.c.phase && nest == r.c.nest
    {
      input := text;
      RunFollowsSteps(text);
      res := ParseLoop(RestOf(text));
    }

    /** `json_ctx_consistent` of a context without user data: none of its flags is raised. */
    predicate Consistent()
      reads this
    {
      idx == |input| && IsOut(st) && nest < 0
    }

    /** A parse as callers do it, with the check for consistency. */
    method ParseChecked(text: string) returns (ok: bool)
      requires Fresh() && events == []
      modifies this
      ensures ok <==> Accepted(JsonMachine.Parse(text), |text|)
      ensures ok ==> OneValue(events)
      ensures NulFree(text) ==> WellNested(events)
      ensures events == EventsOf(JsonMachine.Parse(text))
    {
      var res := Parse(text);
      ok := res == Zero && Consistent();
      if ok {
        ConsistentIsOneValue(text);
      }
      if NulFree(text) {
        EventsNest(text);
      }
    }
  }

  /** Which callback a scalar goes to. */
  ghost function KindIn(stack: seq<Frame>): Kind
    requires stack != []
  {
    if stack[|stack| - 1].InObject? then Value else Item
  }

  lemma NumberText(s: string, k: nat, i: nat)
    requires k < i <= |s|
    ensures (exists j :: k + 1 <= j < i && !IsDigit(s[j])) <==> NumberType(s[k..i]) == FLOAT
  {
    var text := s[k..i];
    if j :| k + 1 <= j < i && !IsDigit(s[j]) {
      assert text[j - k] == s[j];
    }
    if NumberType(text) == FLOAT {
      var m :| 1 <= m < |text| && !IsDigit(text[m]);
      assert s[k + m] == text[m];
    }
  }
}
