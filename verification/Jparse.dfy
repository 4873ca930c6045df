/** The expecting parser of `src/jparse.c`: the scanners, which restore the position when they fail, and the skipping of
    a whole value through its alternatives. */
module Jparse {
  import opened Bytes
  import opened JparseGrammar
  import opened JparseSkip
  import opened Options

  /** 0, `JPARSE_EOS` and the error codes. */
  datatype Res = Ok | Eos | Err

  datatype FloatState = FLOATIN | FLOAT1 | FLOATDOT | FLOAT2 | FLOATE | FLOATE1 | FLOATOUT

  datatype StringState = STRIN | STRESC | STR | STROUT

  class Parser {
    /** Everything that can be read. */
    const input: string
    /** How much has been read so far. */
    var eod: nat
    var pos: nat

    ghost predicate Valid()
      reads this
    {
      eod <= |input| && (pos <= eod || (eod == |input| && pos == |input| + 1))
    }

    constructor (input: string)
      ensures Valid() && this.input == input && pos == 0
    {
      this.input := input;
      eod, pos := 0, 0;
    }

    /** `bytestream_consume_data`: reads some more, however little, or reports the end. */
    method ConsumeData() returns (res: Res)
      requires Valid()
      modifies this`eod
      ensures Valid() && (res == Ok <==> old(eod) < |input|) && (res == Ok ==> eod > old(eod))
    {
      if eod < |input| {
        var n :| 1 <= n <= |input| - eod;
        eod := eod + n;
        return Ok;
      }
      return Err;
    }

    /** The test for more data and the reading of it that come before every look at a character. */
    method Need() returns (res: Res)
      requires Valid()
      modifies this`eod
      ensures Valid() && (res == Ok <==> pos < |input|) && (res == Ok ==> pos < eod)
    {
      res := Ok;
      if pos >= eod {
        res := ConsumeData();
      }
    }

    /** `reach_nonblank` */
    method ReachNonblank() returns (res: Res)
      requires Valid()
      modifies this
      ensures Valid() && pos == Blanks(input, old(pos)) && (res == Ok <==> pos < |input|)
    {
      while true
        invariant Valid() && Blanks(input, pos) == Blanks(input, old(pos))
        decreases |input| + 1 - pos
      {
        res := Need();
        if res != Ok {
          return;
        }
        if IsSpace(input[pos]) {
          pos := pos + 1;
        } else {
          return;
        }
      }
    }

    /** `REACH_BODY` */
    method Reach(delim: char) returns (res: Res)
      requires Valid() && !IsSpace(delim)
      modifies this
      ensures Valid() && !res.Eos?
      ensures var k := Blanks(input, old(pos));
        if k >= |input| then res == Err && pos == k
        else if input[k] == delim then res == Ok && pos == k + 1
        else res == Err && pos == old(pos)
    {
      var spos := pos;
      while true
        invariant Valid() && Blanks(input, pos) == Blanks(input, spos) && pos >= spos
        decreases |input| + 1 - pos
      {
        res := Need();
        if res != Ok {
          return Err;
        }
        var ch := input[pos];
        if ch == delim {
          pos := pos + 1;
          return Ok;
        } else if IsSpace(ch) {
          pos := pos + 1;
        } else {
          pos := spos;
          return Err;
        }
      }
    }

    /** `PROBE_BODY`: like `Reach`, but stays in front of the delimiter. */
    method Probe(delim: char) returns (res: Res)
      requires Valid() && !IsSpace(delim)
      modifies this
      ensures Valid() && !res.Eos?
      ensures var k := Blanks(input, old(pos));
        if k >= |input| then res == Err && pos == k
        else if input[k] == delim then res == Ok && pos == k
        else res == Err && pos == old(pos)
    {
      var spos := pos;
      while true
        invariant Valid() && Blanks(input, pos) == Blanks(input, spos) && pos >= spos
        decreases |input| + 1 - pos
      {
        res := Need();
        if res != Ok {
          return Err;
        }
        var ch := input[pos];
        if ch == delim {
          return Ok;
        } else if IsSpace(ch) {
          pos := pos + 1;
        } else {
          pos := spos;
          return Err;
        }
      }
    }

    /** `jparse_expect_tok` */
    method ExpectTok() returns (res: Res, val: string)
      requires Valid()
      modifies this
      ensures Valid() && !res.Eos? && pos >= old(pos)
      ensures var k := Blanks(input, old(pos)); var m := Letters(input, k);
        && (res == Ok <==> k < |input| && m < |input|)
        && (res == Ok ==> pos == m && val == input[k..m])
    {
      val := "";
      res := ReachNonblank();
      if res != Ok {
        return Err, val;
      }
      var start := pos;
      while true
        invariant Valid() && start <= pos <= |input| && Letters(input, pos) == Letters(input, start) && res == Ok
        decreases |input| + 1 - pos
      {
        res := Need();
        if res != Ok {
          res := Err;
          break;
        }
        if !IsAlpha(input[pos]) {
          break;
        }
        pos := pos + 1;
      }
      val := input[start..pos];
    }

    /** `expect_maybe_null` */
    method ExpectMaybeNull() returns (res: Res)
      requires Valid()
      modifies this
      ensures Valid() && !res.Eos?
      ensures var k := Blanks(input, old(pos)); var m := Letters(input, k);
        && (res == Ok <==> k < |input| && m < |input| && input[k..m] == "null")
        && pos == if res == Ok then m else old(pos)
    {
      var spos := pos;
      var v;
      res, v := ExpectTok();
      if res == Ok && v == "null" {
        return Ok;
      }
      pos := spos;
      return Err;
    }

    /** `jparse_expect_bool` */
    method ExpectBool() returns (res: Res, val: bool)
      requires Valid()
      modifies this
      ensures Valid() && !res.Eos?
      ensures var k := Blanks(input, old(pos)); var m := Letters(input, k);
        && (res == Ok <==> k < |input| && m < |input| && (input[k..m] == "true" || input[k..m] == "false"))
        && (res == Ok ==> pos == m && (val <==> input[k..m] == "true"))
        && (res != Ok ==> pos == old(pos))
    {
      var spos := pos;
      var v;
      val := false;
      res, v := ExpectTok();
      if res == Ok {
        if v == "true" {
          return Ok, true;
        } else if v == "false" {
          return Ok, false;
        }
      }
      pos := spos;
      return Err, val;
    }

    /** The loop of `jparse_expect_str`: goes to the first quote that no backslash escapes. */
    method ScanString() returns (res: Res, needUnescape: bool)
      requires Valid() && pos <= |input|
      modifies this
      ensures Valid() && !res.Eos? && pos == QuoteFrom(input, old(pos)) && (res == Ok <==> pos < |input|)
      ensures res == Ok ==> pos < eod
      ensures needUnescape <==> exists j :: old(pos) <= j < pos && input[j] == '\\'
    {
      var st, start := STRIN, pos;
      res, needUnescape := Ok, false;
      while true
        invariant Valid() && start <= pos <= |input| && res == Ok && !st.STROUT?
        invariant QuoteFrom(input, start) == if st.STRESC? && pos < |input| then QuoteFrom(input, pos + 1)
                                             else QuoteFrom(input, pos)
        invariant st.STRESC? ==> needUnescape
        invariant needUnescape <==> exists j :: start <= j < pos && input[j] == '\\'
        decreases |input| + 1 - pos
      {
        res := Need();
        if res != Ok {
          res := Err;
          break;
        }
        var ch := input[pos];
        if st == STRESC {
          st := STR;
        } else if ch == '\\' {
          st := STRESC;
          needUnescape := true;
        } else if ch == '"' {
          st := STROUT;
          break;
        } else {
          st := STR;
        }
        pos := pos + 1;
      }
    }

    /** `jparse_expect_str`: the unescaped text up to the first quote that no backslash escapes, with the position
        behind that quote.  Without an opening quote the position is restored, without a closing one it is past the
        end. */
    method ExpectStr() returns (res: Res, val: string)
      requires Valid()
      modifies this
      ensures Valid() && !res.Eos? && pos >= old(pos) && (res == Ok ==> pos > old(pos))
      ensures var k := Blanks(input, old(pos)); var q := QuoteFrom(input, k + 1);
        if !CharAt(input, k, '"') then res == Err && pos == old(pos)
        else pos == q + 1 && if q < |input| then res == Ok && val == Unescape(input[k + 1..q]) else res == Err
    {
      var spos := pos;
      val := "";
      res := Reach('"');
      if res != Ok {
        pos := spos;
        return;
      }
      var start, needUnescape := pos, false;
      res, needUnescape := ScanString();
      val := input[start..pos];
      if needUnescape {
        val := Unescape(val);
      } else {
        UnescapePlain(val, 0);
        assert val[0..] == val;
      }
      pos := pos + 1;
    }

    /** One turn of the number scanner: the character goes on with the number, or the number ends in front of it. */
    method FloatStep(st: FloatState, p: nat, ghost start: nat, ghost a: nat, ghost b: nat)
      returns (next: FloatState, more: bool, ghost a': nat, ghost b': nat)
      requires p < |input| && Reading(input, start, a, b, p, st)
      ensures more ==> Reading(input, start, a', b', p + 1, next)
      ensures !more ==> LooseAt(input, start, a, b, p)
    {
      var ch := input[p];
      next, more, a', b' := st, true, a, b;
      if st == FLOATIN {
        if IsDigit(ch) || ch == '-' || ch == '+' {
          next, a', b' := FLOAT1, p + 1, p + 1;
        } else if ch == '.' {
          next, b' := FLOATDOT, p + 1;
        } else {
          more := false;
        }
      } else if st == FLOAT1 {
        if IsDigit(ch) {
          a', b' := p + 1, p + 1;
        } else if ch == '.' {
          next, b' := FLOATDOT, p + 1;
        } else if ch == 'e' || ch == 'E' {
          next := FLOATE;
        } else {
          next, more := FLOATOUT, false;
        }
      } else if st == FLOATDOT {
        if IsDigit(ch) {
          next, b' := FLOAT2, p + 1;
        } else if ch == 'e' || ch == 'E' {
          next := FLOATE;
        } else {
          next, more := FLOATOUT, false;
        }
      } else if st == FLOAT2 {
        if IsDigit(ch) {
          b' := p + 1;
        } else if ch == 'e' || ch == 'E' {
          next := FLOATE;
        } else {
          next, more := FLOATOUT, false;
        }
      } else if st == FLOATE {
        if IsDigit(ch) || ch == '-' || ch == '+' {
          next := FLOATE1;
        } else {
          more := false;
        }
      } else {
        if IsDigit(ch) || ch == '-' || ch == '+' {
        } else {
          more := false;
        }
      }
    }

    /** `jparse_expect_float`, as far as the scanned text goes: the position is behind the longest text that is a number
        in the loose sense of the scanner.  Where none begins that text is empty and the result is still 0. */
    method ExpectFloat() returns (res: Res, ghost a: nat, ghost b: nat)
      requires Valid()
      modifies this
      ensures Valid() && !res.Eos? && pos >= old(pos)
      ensures var k := Blanks(input, old(pos));
        && (k < |input| ==> LooseAt(input, k, a, b, pos))
        && (res == Ok <==> k < |input| && pos < |input|)
    {
      a, b := 0, 0;
      res := ReachNonblank();
      if res != Ok {
        return Err, a, b;
      }
      var st, start := FLOATIN, pos;
      a, b := pos, pos;
      while true
        invariant Valid() && start <= pos <= |input| && res == Ok && Reading(input, start, a, b, pos, st)
        decreases |input| + 1 - pos
      {
        res := Need();
        if res != Ok {
          return Err, a, b;
        }
        var more;
        ghost var a', b';
        st, more, a', b' := FloatStep(st, pos, start, a, b);
        if !more {
          return res, a, b;
        }
        a, b := a', b';
        pos := pos + 1;
      }
    }

    /** `jparse_expect_ignore`: skips one value.  When no alternative succeeds the position is back where the value
        should have begun. */
    method ExpectIgnore(ghost f: Ends) returns (res: Res)
      requires Valid() && Skips(input, f)
      modifies this
      ensures Valid() && !res.Eos? && pos >= old(pos)
      ensures var k := Blanks(input, old(pos));
        if f.value(k).Some? then res == Ok && pos == f.value(k).value else res == Err && pos == k
      decreases |input| + 1 - pos, 3
    {
      res := ReachNonblank();
      if res != Ok {
        return Err;
      }
      assert ValueGoes(input, f, pos);
      res := Words();
      if res == Ok {
        return;
      }
      var start := pos;
      res := Alternatives(f);
      if res == Ok {
        return;
      }
      pos := start;
      res := Err;
    }

    /** The first alternatives of `jparse_expect_ignore`: `null` and the truth values. */
    method Words() returns (res: Res)
      requires Valid() && Begins(input, pos)
      modifies this
      ensures Valid()
      ensures if IsWord(input, old(pos)) then res == Ok && pos == Letters(input, old(pos))
              else res == Err && pos == old(pos)
    {
      BlanksTo(input, pos, pos);
      res := ExpectMaybeNull();
      if res == Ok {
        return;
      }
      var truth;
      res, truth := ExpectBool();
    }

    /** The alternatives of `jparse_expect_ignore` that the first character decides. */
    method Alternatives(ghost f: Ends) returns (res: Res)
      requires Valid() && Begins(input, pos) && !IsWord(input, pos) && Skips(input, f)
      modifies this
      ensures Valid() && !res.Eos? && pos >= old(pos) && (res == Ok <==> f.value(old(pos)).Some?)
      ensures res == Ok ==> pos == f.value(old(pos)).value
      decreases |input| + 1 - pos, 2, 1
    {
      assert ValueGoes(input, f, pos);
      BlanksTo(input, pos, pos);
      res := Probe('"');
      if res == Ok {
        var val;
        res, val := ExpectStr();
        return;
      }
      res := Compound(f);
    }

    /** The alternatives for objects, arrays and numbers. */
    method Compound(ghost f: Ends) returns (res: Res)
      requires Valid() && Begins(input, pos) && input[pos] != '"' && !IsWord(input, pos) && Skips(input, f)
      modifies this
      ensures Valid() && !res.Eos? && pos >= old(pos) && (res == Ok <==> f.value(old(pos)).Some?)
      ensures res == Ok ==> pos == f.value(old(pos)).value
      decreases |input| + 1 - pos, 2, 0
    {
      ghost var k := pos;
      assert ValueGoes(input, f, k);
      BlanksTo(input, k, k);
      res := Probe('{');
      if res == Ok {
        res := ExpectObjectIter(f);
        return;
      }
      res := Probe('[');
      if res == Ok {
        res := ExpectArrayIter(f);
        return;
      }
      ghost var a, b;
      res, a, b := ExpectFloat();
      NumberEndIsLoose(input, k);
      LooseUnique(input, k, a, b, pos, WholeEnd(input, k), FracEnd(input, k), NumberEnd(input, k));
    }

    /** The end of both iterations: the closing character has to follow when the callback has found the end, or has not
        moved at all. */
    method Finish(close: char, spos: nat, last: Res) returns (res: Res)
      requires Valid() && spos <= pos && last != Ok && !IsSpace(close)
      modifies this
      ensures Valid() && !res.Eos? && pos >= spos
      ensures (last == Eos || old(pos) == spos) && CharAt(input, Blanks(input, old(pos)), close)
        ==> res == Ok && pos == Blanks(input, old(pos)) + 1
      ensures !((last == Eos || old(pos) == spos) && CharAt(input, Blanks(input, old(pos)), close))
        ==> res == Err && pos == spos
    {
      res := last;
      if res == Eos || spos == pos {
        res := Reach(close);
        if res != Ok {
          pos := spos;
          return Err;
        }
      } else {
        pos := spos;
      }
    }

    /** The loop of `jparse_expect_object_iter`: calls the callback until it does not return 0. */
    method EachMember(ghost f: Ends) returns (res: Res)
      requires Valid() && Skips(input, f) && pos <= |input|
      modifies this
      ensures Valid() && res != Ok && pos >= old(pos)
      ensures f.members(old(pos), true) == ClosedBy(input, res == Eos || pos == old(pos), pos, '}')
      decreases |input| + 1 - pos, 1
    {
      ghost var i := pos;
      res := ExpectAnyKvpIgnore(f);
      KvpTurn(input, f, i, true, res, pos);
      while res == Ok
        invariant Valid() && pos >= old(pos)
        invariant res == Ok ==> old(pos) < pos <= |input| && f.members(old(pos), true) == f.members(pos, false)
        invariant res != Ok ==> f.members(old(pos), true) == ClosedBy(input, res == Eos || pos == old(pos), pos, '}')
        decreases res == Ok, |input| + 1 - pos
      {
        i := pos;
        res := ExpectAnyKvpIgnore(f);
        KvpTurn(input, f, i, false, res, pos);
      }
    }

    /** `jparse_expect_object_iter` with the callback that ignores any member. */
    method ExpectObjectIter(ghost f: Ends) returns (res: Res)
      requires Valid() && Skips(input, f)
      modifies this
      ensures Valid() && !res.Eos? && pos >= old(pos)
      ensures var k := Blanks(input, old(pos)); var e := if CharAt(input, k, '{') then f.members(k + 1, true) else None;
        (res == Ok <==> e.Some?) && (res == Ok ==> pos == e.value)
      decreases |input| + 1 - pos, 1
    {
      var spos := pos;
      res := Reach('{');
      if res != Ok {
        pos := spos;
        return Err;
      }
      spos := pos;
      res := EachMember(f);
      res := Finish('}', spos, res);
    }

    /** The key and the colon of a member: succeeds exactly when the next non-blank characters are a string token and
        a colon. */
    method ExpectKey() returns (res: Res)
      requires Valid()
      modifies this
      ensures Valid() && !res.Eos? && pos >= old(pos) && (res == Ok ==> pos > old(pos))
      ensures var k := Blanks(input, old(pos)); var q := QuoteFrom(input, k + 1); var colon := Blanks(input, q + 1);
        if !CharAt(input, k, '"') then res == Err && pos == old(pos)
        else if q >= |input| then res == Err && pos == q + 1
        else if CharAt(input, colon, ':') then res == Ok && pos == colon + 1
        else res == Err && pos == if colon < |input| then q + 1 else colon
    {
      var key;
      res, key := ExpectStr();
      if res != Ok {
        return Err;
      }
      res := Reach(':');
    }

    /** `jparse_expect_anykvp_ignore`: a key, a colon and any value; a missing comma shows the end of the members. */
    method ExpectAnyKvpIgnore(ghost f: Ends) returns (res: Res)
      requires Valid() && Skips(input, f)
      modifies this
      ensures Valid() && pos >= old(pos) && (res == Ok ==> pos > old(pos))
      ensures KvpTaken(input, f, old(pos), res, pos)
      decreases |input| + 1 - pos, 0
    {
      res := ExpectKey();
      if res != Ok {
        return;
      }
      res := SkipWithComma(f);
    }

    /** A value and the comma behind it. */
    method SkipWithComma(ghost f: Ends) returns (res: Res)
      requires Valid() && Skips(input, f)
      modifies this
      ensures Valid() && pos >= old(pos) && (res == Ok ==> pos > old(pos))
      ensures var e := f.value(Blanks(input, old(pos)));
        if e.None? then res == Err else CommaTaken(input, e.value, res, pos)
      decreases |input| + 1 - pos, 5
    {
      res := SkipValue(f);
      if res != Ok {
        return;
      }
      res := Reach(',');
      if res != Ok {
        res := Eos;
      }
    }

    /** What both callbacks do for a value: a null is taken at once, anything else is skipped. */
    method SkipValue(ghost f: Ends) returns (res: Res)
      requires Valid() && Skips(input, f)
      modifies this
      ensures Valid() && !res.Eos? && pos >= old(pos)
      ensures var k := Blanks(input, old(pos));
        if f.value(k).Some? then res == Ok && pos == f.value(k).value else res == Err && pos == k
      decreases |input| + 1 - pos, 4
    {
      assert ValueGoes(input, f, Blanks(input, pos));
      res := ExpectMaybeNull();
      if res != Ok {
        res := ExpectIgnore(f);
      }
    }

    /** The loop of `jparse_expect_array_iter`. */
    method EachItem(ghost f: Ends) returns (res: Res)
      requires Valid() && Skips(input, f) && pos <= |input|
      modifies this
      ensures Valid() && res != Ok && pos >= old(pos)
      ensures f.items(old(pos)) == ClosedBy(input, res == Eos || pos == old(pos), pos, ']')
      decreases |input| + 1 - pos, 7
    {
      ghost var i := pos;
      res := ExpectItemIgnore(f);
      ItemTurn(input, f, i, res, pos);
      while res == Ok
        invariant Valid() && pos >= old(pos)
        invariant res == Ok ==> old(pos) < pos <= |input| && f.items(old(pos)) == f.items(pos)
        invariant res != Ok ==> f.items(old(pos)) == ClosedBy(input, res == Eos || pos == old(pos), pos, ']')
        decreases res == Ok, |input| + 1 - pos
      {
        i := pos;
        res := ExpectItemIgnore(f);
        ItemTurn(input, f, i, res, pos);
      }
    }

    /** `jparse_expect_array_iter` with the callback that ignores any item. */
    method ExpectArrayIter(ghost f: Ends) returns (res: Res)
      requires Valid() && Skips(input, f)
      modifies this
      ensures Valid() && !res.Eos? && pos >= old(pos)
      ensures var k := Blanks(input, old(pos)); var e := if CharAt(input, k, '[') then f.items(k + 1) else None;
        (res == Ok <==> e.Some?) && (res == Ok ==> pos == e.value)
      decreases |input| + 1 - pos, 1
    {
      var spos := pos;
      res := Reach('[');
      if res != Ok {
        pos := spos;
        return Err;
      }
      spos := pos;
      res := EachItem(f);
      res := Finish(']', spos, res);
    }

    /** `jparse_expect_item_ignore`: any value; the end of the items shows in the missing comma.  In an empty array the
        value skipped is the number that does not begin. */
    method ExpectItemIgnore(ghost f: Ends) returns (res: Res)
      requires Valid() && Skips(input, f)
      modifies this
      ensures Valid() && pos >= old(pos) && (res == Ok ==> pos > old(pos))
      ensures ItemTaken(input, f, old(pos), res, pos)
      decreases |input| + 1 - pos, 6
    {
      var spos := pos;
      res := SkipWithComma(f);
      if res == Err {
        pos := spos;
      }
    }

    /** The same for a caller: exactly the loose values are skipped, each to its end, and every well-formed value with a
        delimiter behind it is one of them. */
    method IgnoreValue() returns (res: Res)
      requires Valid()
      modifies this
      ensures Valid() && !res.Eos? && pos >= old(pos)
      ensures var k := Blanks(input, old(pos));
        && (res == Ok <==> k < |input| && exists v :: LooseValue(input, k, v))
        && (res != Ok ==> pos == k)
        && (forall v :: k < |input| && LooseValue(input, k, v) ==> pos == v.end)
        && (forall v :: ValueAt(input, k, v) && Delimited(input, v) ==> res == Ok && pos == v.end)
    {
      ghost var k := Blanks(input, pos);
      EndsSkip(input);
      if k < |input| {
        SkippedExactly(input, k);
      }
      forall v | ValueAt(input, k, v) && Delimited(input, v)
        ensures k < |input| && LooseValue(input, k, v)
      {
        FirstChar(input, k, v);
        WellFormedIsLoose(input, k, v);
      }
      res := ExpectIgnore(EndsOf(input));
    }

    /** An escaped text between quotes reads back as the text, and the position is behind the closing quote. */
    method ExpectEscaped(ghost s: string) returns (res: Res, val: string)
      requires Valid() && CharAt(input, pos, '"') && CharAt(input, pos + 1 + |Escape(s)|, '"')
      requires input[pos + 1..pos + 1 + |Escape(s)|] == Escape(s)
      modifies this
      ensures Valid() && res == Ok && val == s && pos == old(pos) + |Escape(s)| + 2
    {
      ghost var k, e := pos + 1, pos + 1 + |Escape(s)|;
      forall j | 0 <= j < |Escape(s)|
        ensures input[k + j] == Escape(s)[j]
      {
        assert input[k..e][j] == input[k + j];
      }
      EscapeIsBody(s, 0, input, k);
      UnescapeEscape(s);
      BodyToQuote(input, k, e);
      res, val := ExpectStr();
    }
  }

  /** The number scanner has taken a number up to `p` and is in the state that goes with its last part. */
  ghost predicate Reading(s: string, start: nat, a: nat, b: nat, p: nat, st: FloatState) {
    && LooseParts(s, start, a, b, p)
    && match st
       case FLOATIN => p == start
       case FLOAT1 => start < a == p
       case FLOATDOT => a < b == p
       case FLOAT2 => a < b == p
       case FLOATE => b < p
       case FLOATE1 => b < p
       case FLOATOUT => false
  }

  /** The position behind the closing character, when the end was found and it stands there. */
  ghost function ClosedBy(s: string, found: bool, p: nat, close: char): Option<nat> {
    if found && CharAt(s, Blanks(s, p), close) then Some(Blanks(s, p) + 1) else None
  }

  /** What the callback says about the members from `i` on, having gone to `p`. */
  ghost predicate KvpTaken(s: string, f: Ends, i: nat, res: Res, p: nat) {
    if KeyEnd(s, i).None? then res == Err && (p == i <==> !CharAt(s, Blanks(s, i), '"'))
    else
      var e := f.value(Blanks(s, KeyEnd(s, i).value));
      if e.None? then res == Err && p > i else p > i && CommaTaken(s, e.value, res, p)
  }

  ghost predicate ItemTaken(s: string, f: Ends, i: nat, res: Res, p: nat) {
    var e := f.value(Blanks(s, i));
    if e.None? then res == Err && p == i else CommaTaken(s, e.value, res, p)
  }

  /** Behind a value that ends at `e`. */
  ghost predicate CommaTaken(s: string, e: nat, res: Res, p: nat) {
    var m := Blanks(s, e);
    if CharAt(s, m, ',') then res == Ok && p == m + 1 else res == Eos && Blanks(s, p) == m
  }

  /** One turn of the loop over the members. */
  lemma KvpTurn(s: string, f: Ends, i: nat, first: bool, res: Res, p: nat)
    requires Skips(s, f) && i <= |s| && KvpTaken(s, f, i, res, p)
    ensures res == Ok ==> p <= |s| && f.members(i, first) == f.members(p, false)
    ensures res != Ok ==> f.members(i, first) == ClosedBy(s, res == Eos || (first && p == i), p, '}')
  {
    assert MembersGo(s, f, i, first);
  }

  lemma ItemTurn(s: string, f: Ends, i: nat, res: Res, p: nat)
    requires Skips(s, f) && i <= |s| && ItemTaken(s, f, i, res, p)
    ensures res == Ok ==> p <= |s| && f.items(i) == f.items(p)
    ensures res != Ok ==> f.items(i) == ClosedBy(s, res == Eos, p, ']')
    ensures res == Err ==> !CharAt(s, Blanks(s, p), ']')
  {
    assert ItemsGo(s, f, i);
    if CharAt(s, Blanks(s, i), ']') {
      NothingAtBracket(s, f, Blanks(s, i));
    }
  }
}
