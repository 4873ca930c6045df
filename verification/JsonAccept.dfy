/** The converse of the round trip: whatever the parser accepts is the text of a document. */
module JsonAccept {
  import opened JsonMachine
  import opened JsonNesting
  import opened JsonTree
  import opened Options
  import Bytes
  import Json

  /** The run reaches its end with every container closed. */
  predicate Closes(r: Outcome) {
    r.Ended? && r.c.stack == []
  }

  /** Inside a container such a run goes on, and its next step is not a rejection. */
  lemma Alive(s: string, f: Rest, i: nat, c: Config)
    requires FollowsSteps(s, f) && NulFree(s) && i <= |s| && ScanOk(i, c) && c.stack != [] && Closes(f(i, c))
    ensures Moves(s, i, c) && !Step(s, i, c).Reject?
  {
    assert Moves(s, i, c) || Stops(s, i, c);
  }

  predicate BlankIn(s: string, i: nat, j: nat) {
    i <= j <= |s| && forall k :: i <= k < j ==> IsSpace(s[k])
  }

  /** The next character that is not whitespace. */
  lemma {:induction false} BlankBack(s: string, f: Rest, i: nat, c: Config) returns (j: nat)
    requires FollowsSteps(s, f) && NulFree(s) && i <= |s| && Between(c) && Closes(f(i, c))
    ensures BlankIn(s, i, j) && j < |s| && !IsSpace(s[j]) && f(i, c) == f(j, c)
    decreases |s| - i
  {
    Alive(s, f, i, c);
    if IsSpace(s[i]) {
      Eat(s, f, i, c, c);
      j := BlankBack(s, f, i + 1, c);
    } else {
      j := i;
    }
  }

  lemma SliceStands(s: string, i: nat, j: nat)
    requires i <= j <= |s|
    ensures Stands(s, i, s[i..j])
    ensures BlankIn(s, i, j) ==> Blank(s[i..j])
  {
  }

  /** The closing quote of a string token. */
  lemma {:induction false} QuoteBack(s: string, f: Rest, k: nat, i: nat, c: Config, key: bool) returns (j: nat)
    requires FollowsSteps(s, f) && NulFree(s) && k <= i <= |s| && c.stack != []
    requires Closes(f(i, Json.Scanning(c, key, k, false)))
    ensures i <= j < |s| && s[j] == '"' && Bytes.StringBody(s, i, j)
    ensures f(i, Json.Scanning(c, key, k, false)) == f(j + 1, Json.Scanned(c, key, s[k..j]))
    decreases |s| - i
  {
    Alive(s, f, i, Json.Scanning(c, key, k, false));
    Json.StringTurn(s, f, i, c, key, k, false);
    if s[i] == '"' {
      j := i;
    } else if s[i] == '\\' {
      Alive(s, f, i + 1, Json.Scanning(c, key, k, true));
      Json.StringTurn(s, f, i + 1, c, key, k, true);
      j := QuoteBack(s, f, k, i + 2, c, key);
    } else {
      j := QuoteBack(s, f, k, i + 1, c, key);
    }
  }

  lemma {:induction false} BodySlice(s: string, k: nat, i: nat, j: nat)
    requires k <= i <= j <= |s| && Bytes.StringBody(s, i, j)
    ensures Bytes.StringBody(s[k..j], i - k, j - k)
    decreases j - i
  {
    if i < j {
      BodySlice(s, k, if s[i] == '\\' then i + 2 else i + 1, j);
    }
  }

  /** A string token behind its opening quote. */
  lemma StringBack(s: string, f: Rest, i: nat, c: Config, key: bool) returns (text: string)
    requires FollowsSteps(s, f) && NulFree(s) && i <= |s| && c.stack != []
    requires Closes(f(i, Json.Scanning(c, key, i, false)))
    ensures StringText(text) && Stands(s, i, text) && CharAt(s, i + |text|, '"')
    ensures f(i, Json.Scanning(c, key, i, false)) == f(i + |text| + 1, Json.Scanned(c, key, text))
  {
    var j := QuoteBack(s, f, i, i, c, key);
    text := s[i..j];
    BodySlice(s, i, i, j);
  }

  /** The end of a number. */
  lemma {:induction false} NumberBack(s: string, f: Rest, k: nat, i: nat, c: Config) returns (j: nat)
    requires FollowsSteps(s, f) && NulFree(s) && k <= i <= |s| && c.stack != [] && Closes(f(i, c.(scan := InNumber(k))))
    ensures i <= j < |s| && forall m :: i <= m < j ==> IsNumberChar(s[m])
    ensures f(i, c.(scan := InNumber(k))) == f(j, Scalar(c, NumberType(s[k..j]), s[k..j]))
    decreases |s| - i
  {
    Alive(s, f, i, c.(scan := InNumber(k)));
    Json.NumberTurn(s, f, i, c, k);
    if IsNumberChar(s[i]) {
      j := NumberBack(s, f, k, i + 1, c);
    } else {
      j := i;
    }
  }

  /** The end of a bare token. */
  lemma {:induction false} TokenBack(s: string, f: Rest, k: nat, i: nat, c: Config) returns (j: nat)
    requires FollowsSteps(s, f) && NulFree(s) && k <= i <= |s| && c.stack != [] && Closes(f(i, c.(scan := InToken(k))))
    ensures i <= j < |s| && forall m :: i <= m < j ==> IsTokenChar(s[m])
    ensures f(i, c.(scan := InToken(k))) == f(j, Scalar(c, TokenType(s[k..j]), s[k..j]))
    decreases |s| - i
  {
    Alive(s, f, i, c.(scan := InToken(k)));
    if IsTokenChar(s[i]) {
      Eat(s, f, i, c.(scan := InToken(k)), c.(scan := InToken(k)));
      j := TokenBack(s, f, k, i + 1, c);
    } else {
      j := i;
    }
  }

  /** Behind a value only whitespace, a comma or the closing bracket of its container may stand. */
  lemma OutBack(s: string, f: Rest, i: nat, c: Config)
    requires FollowsSteps(s, f) && NulFree(s) && i <= |s| && c.stack != [] && c.scan == NoScan && c.phase.Out?
    requires Closes(f(i, c))
    ensures i < |s| && IsDelimiter(s[i])
    ensures IsSpace(s[i]) || s[i] == ',' || s[i] == if Top(c).InObject? then '}' else ']'
  {
    Alive(s, f, i, c);
  }

  /** A bare token is one of the literals or another word. */
  function Named(text: string): Tree {
    if text == "true" then True else if text == "false" then False else if text == "null" then Null else Word(text)
  }

  lemma NamedText(text: string)
    requires TokenText(text)
    ensures WellFormed(Named(text)) && Text(Named(text)) == text && !Named(text).Obj? && !Named(text).Arr?
  {
  }

  /** `t` is the value that begins at `i`. */
  predicate ValueAt(s: string, i: nat, t: Tree) {
    WellFormed(t) && Stands(s, i, Text(t)) && i + |Text(t)| < |s| && IsDelimiter(s[i + |Text(t)|])
  }

  lemma StringValueBack(s: string, f: Rest, i: nat, c: Config) returns (t: Tree)
    requires FollowsSteps(s, f) && NulFree(s) && i < |s| && Ready(c) && s[i] == '"' && Closes(f(i, c))
    ensures ValueAt(s, i, t)
  {
    Eat(s, f, i, c, c.(scan := InString(i + 1, false)));
    var text := StringBack(s, f, i + 1, c, false);
    t := Str(text);
    OutBack(s, f, i + |text| + 2, Scalar(c, STRING, text));
    Quoted(s, i, text);
  }

  lemma Quoted(s: string, i: nat, text: string)
    requires CharAt(s, i, '"') && Stands(s, i + 1, text) && CharAt(s, i + 1 + |text|, '"')
    ensures Stands(s, i, "\"" + (text + "\""))
  {
    Wrapped(s, i, '"', text, '"');
  }

  lemma Wrapped(s: string, i: nat, open: char, inner: string, close: char)
    requires CharAt(s, i, open) && Stands(s, i + 1, inner) && CharAt(s, i + 1 + |inner|, close)
    ensures Stands(s, i, [open] + (inner + [close]))
  {
    Join(s, i + 1, inner, [close]);
    JoinChar(s, i, open, inner + [close]);
  }

  lemma Join(s: string, i: nat, a: string, b: string)
    requires Stands(s, i, a) && Stands(s, i + |a|, b)
    ensures Stands(s, i, a + b)
  {
    assert s[i..i + |a| + |b|] == s[i..i + |a|] + s[i + |a|..i + |a| + |b|];
  }

  lemma JoinChar(s: string, i: nat, ch: char, b: string)
    requires CharAt(s, i, ch) && Stands(s, i + 1, b)
    ensures Stands(s, i, [ch] + b)
  {
    Join(s, i, [ch], b);
  }

  lemma NumberValueBack(s: string, f: Rest, i: nat, c: Config) returns (t: Tree)
    requires FollowsSteps(s, f) && NulFree(s) && i < |s| && Ready(c) && (IsDigit(s[i]) || s[i] == '-')
    requires Closes(f(i, c))
    ensures ValueAt(s, i, t) && t.Num?
  {
    Eat(s, f, i, c, c.(scan := InNumber(i)));
    var j := NumberBack(s, f, i, i + 1, c);
    t := Num(s[i..j]);
    OutBack(s, f, j, Scalar(c, NumberType(s[i..j]), s[i..j]));
  }

  lemma TokenValueBack(s: string, f: Rest, i: nat, c: Config) returns (t: Tree)
    requires FollowsSteps(s, f) && NulFree(s) && i < |s| && Ready(c) && IsAlpha(s[i]) && Closes(f(i, c))
    ensures ValueAt(s, i, t) && !t.Obj? && !t.Arr?
  {
    Eat(s, f, i, c, c.(scan := InToken(i)));
    var j := TokenBack(s, f, i, i + 1, c);
    t := Named(s[i..j]);
    NamedText(s[i..j]);
    OutBack(s, f, j, Scalar(c, TokenType(s[i..j]), s[i..j]));
  }

  /** A value, where one begins. */
  lemma {:induction false} ValueBack(s: string, f: Rest, i: nat, c: Config) returns (t: Tree)
    requires FollowsSteps(s, f) && NulFree(s) && i < |s| && Ready(c) && Closes(f(i, c))
    requires !IsSpace(s[i]) && (Top(c).InArray? ==> s[i] != ']')
    ensures ValueAt(s, i, t) && f(i, c) == f(i + |Text(t)|, Behind(c, Events(t, c.nest + 1, KindHere(c))))
    decreases |s| - i, 2
  {
    Alive(s, f, i, c);
    if s[i] == '{' || s[i] == '[' {
      t := ContainerValueBack(s, f, i, c);
    } else if s[i] == '"' {
      t := StringValueBack(s, f, i, c);
    } else if IsDigit(s[i]) || s[i] == '-' {
      t := NumberValueBack(s, f, i, c);
    } else {
      t := TokenValueBack(s, f, i, c);
    }
    ValueRun(t, s, f, i, c);
  }

  lemma {:induction false} ContainerValueBack(s: string, f: Rest, i: nat, c: Config) returns (t: Tree)
    requires FollowsSteps(s, f) && NulFree(s) && i < |s| && Ready(c) && Closes(f(i, c))
    requires s[i] == '{' || s[i] == '['
    ensures ValueAt(s, i, t)
    decreases |s| - i, 1
  {
    if s[i] == '{' {
      Eat(s, f, i, c, Open(c, InObject));
      t := ObjectBack(s, f, i, c);
      ObjectRun(t, s, f, i, c, KindHere(c));
    } else {
      Eat(s, f, i, c, Open(c, InArray));
      t := ArrayBack(s, f, i, c);
      ArrayRun(t, s, f, i, c, KindHere(c));
    }
    OutBack(s, f, i + |Text(t)|, Behind(c, Events(t, c.nest + 1, KindHere(c))));
  }

  /** An object, at its opening brace. */
  lemma {:induction false} ObjectBack(s: string, f: Rest, i: nat, c: Config) returns (t: Tree)
    requires FollowsSteps(s, f) && NulFree(s) && CharAt(s, i, '{') && c.scan == NoScan
    requires Closes(f(i + 1, Open(c, InObject)))
    ensures t.Obj? && WellFormed(t) && Stands(s, i, Text(t))
    decreases |s| - i, 0
  {
    var d := Open(c, InObject);
    var j := BlankBack(s, f, i + 1, d);
    Alive(s, f, j, d);
    if s[j] == '}' {
      t := Obj(s[i + 1..j], NoMembers);
    } else {
      var ms := MembersBack(s, f, i + 1, j, d);
      t := Obj("", ms);
    }
    Wrapped(s, i, '{', InsideObject(t.pad, t.members), '}');
  }

  /** An array, at its opening bracket. */
  lemma {:induction false} ArrayBack(s: string, f: Rest, i: nat, c: Config) returns (t: Tree)
    requires FollowsSteps(s, f) && NulFree(s) && CharAt(s, i, '[') && c.scan == NoScan
    requires Closes(f(i + 1, Open(c, InArray)))
    ensures t.Arr? && WellFormed(t) && Stands(s, i, Text(t))
    decreases |s| - i, 0
  {
    var d := Open(c, InArray);
    var j := BlankBack(s, f, i + 1, d);
    if s[j] == ']' {
      t := Arr(s[i + 1..j], NoItems);
    } else {
      var es := ItemsBack(s, f, i + 1, j, d);
      t := Arr("", es);
    }
    Wrapped(s, i, '[', InsideArray(t.pad, t.items), ']');
  }

  /** The parts of a member before its value, from the whitespace in front of the key on. */
  datatype Head = Head(before: string, key: string, after: string, gap: string)

  predicate HeadOk(h: Head) {
    Blank(h.before) && StringText(h.key) && Blank(h.after) && Blank(h.gap)
  }

  function HeadText(h: Head, tail: string): string {
    h.before + ("\"" + (h.key + ("\"" + (h.after + (":" + (h.gap + tail))))))
  }

  function HeadSize(h: Head): nat {
    |h.before| + |h.key| + |h.after| + |h.gap| + 3
  }

  /** The pieces of a head, each where it stands. */
  predicate HeadAt(s: string, i: nat, h: Head) {
    var k := i + |h.before|;
    var m := k + 2 + |h.key|;
    && Stands(s, i, h.before) && CharAt(s, k, '"') && Stands(s, k + 1, h.key) && CharAt(s, k + 1 + |h.key|, '"')
    && Stands(s, m, h.after) && CharAt(s, m + |h.after|, ':') && Stands(s, m + |h.after| + 1, h.gap)
  }

  lemma JoinColon(s: string, i: nat, after: string, gap: string, tail: string)
    requires Stands(s, i, after) && CharAt(s, i + |after|, ':') && Stands(s, i + |after| + 1, gap)
    requires Stands(s, i + |after| + 1 + |gap|, tail)
    ensures Stands(s, i, after + (":" + (gap + tail)))
  {
    Join(s, i + |after| + 1, gap, tail);
    JoinChar(s, i + |after|, ':', gap + tail);
    Join(s, i, after, ":" + (gap + tail));
  }

  lemma JoinKey(s: string, i: nat, j: nat, before: string, key: string, tail: string)
    requires j == i + |before| + 2 + |key|
    requires Stands(s, i, before) && CharAt(s, i + |before|, '"')
    requires Stands(s, i + |before| + 1, key) && CharAt(s, j - 1, '"') && Stands(s, j, tail)
    ensures Stands(s, i, before + ("\"" + (key + ("\"" + tail))))
  {
    JoinChar(s, j - 1, '"', tail);
    Join(s, i + |before| + 1, key, "\"" + tail);
    JoinChar(s, i + |before|, '"', key + ("\"" + tail));
    Join(s, i, before, "\"" + (key + ("\"" + tail)));
  }

  lemma JoinHead(s: string, i: nat, h: Head, tail: string)
    requires HeadAt(s, i, h) && Stands(s, i + HeadSize(h), tail)
    ensures Stands(s, i, HeadText(h, tail))
  {
    var j := i + |h.before| + 2 + |h.key|;
    assert i + HeadSize(h) == j + |h.after| + 1 + |h.gap|;
    JoinColon(s, j, h.after, h.gap, tail);
    JoinKey(s, i, j, h.before, h.key, h.after + (":" + (h.gap + tail)));
  }

  /** The colon of a member and the whitespace around it. */
  lemma ColonBack(s: string, f: Rest, i: nat, c: Config) returns (after: string, gap: string)
    requires FollowsSteps(s, f) && NulFree(s) && i <= |s| && Between(c) && Top(c).InObject? && c.phase.KeyOut?
    requires Closes(f(i, c))
    ensures Blank(after) && Blank(gap)
    ensures Stands(s, i, after) && CharAt(s, i + |after|, ':') && Stands(s, i + |after| + 1, gap)
    ensures var j := i + |after| + 1 + |gap|;
      j < |s| && !IsSpace(s[j]) && f(i, c) == f(j, c.(phase := ExpectValue))
  {
    var k := BlankBack(s, f, i, c);
    Alive(s, f, k, c);
    Eat(s, f, k, c, c.(phase := ExpectValue));
    var j := BlankBack(s, f, k + 1, c.(phase := ExpectValue));
    after, gap := s[i..k], s[k + 1..j];
    SliceStands(s, i, k);
    SliceStands(s, k + 1, j);
  }

  /** A key and the whitespace before it. */
  lemma KeyBack(s: string, f: Rest, i: nat, j: nat, c: Config) returns (key: string)
    requires FollowsSteps(s, f) && NulFree(s) && BlankIn(s, i, j) && CharAt(s, j, '"') && KeyMayStart(c)
    requires Closes(f(i, c))
    ensures Stands(s, i, s[i..j]) && Blank(s[i..j])
    ensures StringText(key) && Stands(s, j + 1, key) && CharAt(s, j + 1 + |key|, '"')
    ensures f(i, c) == f(j + 2 + |key|, KeySeen(c, key))
  {
    SliceStands(s, i, j);
    QuoteRun(s, f, i, s[i..j], j, c);
    key := StringBack(s, f, j + 1, c, true);
  }

  lemma HeadStands(s: string, i: nat, j: nat, k: nat, h: Head)
    requires j == i + |h.before| && k == j + 2 + |h.key|
    requires Stands(s, i, h.before) && CharAt(s, j, '"') && Stands(s, j + 1, h.key) && CharAt(s, k - 1, '"')
    requires Stands(s, k, h.after) && CharAt(s, k + |h.after|, ':') && Stands(s, k + |h.after| + 1, h.gap)
    ensures HeadAt(s, i, h) && k + |h.after| + 1 + |h.gap| == i + HeadSize(h)
  {
  }

  /** The colon and what is around it, behind a key. */
  lemma KeyColonBack(s: string, f: Rest, i: nat, key: string, c: Config) returns (after: string, gap: string)
    requires FollowsSteps(s, f) && NulFree(s) && i <= |s| && KeyMayStart(c) && Closes(f(i, KeySeen(c, key)))
    ensures Blank(after) && Blank(gap)
    ensures Stands(s, i, after) && CharAt(s, i + |after|, ':') && Stands(s, i + |after| + 1, gap)
    ensures var k := i + |after| + 1 + |gap|;
      k < |s| && !IsSpace(s[k]) && f(i, KeySeen(c, key)) == f(k, KeySeen(c, key).(phase := ExpectValue))
  {
    after, gap := ColonBack(s, f, i, KeySeen(c, key));
  }

  /** A member up to its value. */
  lemma HeadBack(s: string, f: Rest, i: nat, j: nat, c: Config) returns (h: Head)
    requires FollowsSteps(s, f) && NulFree(s) && BlankIn(s, i, j) && CharAt(s, j, '"') && KeyMayStart(c)
    requires Closes(f(i, c))
    ensures HeadOk(h) && HeadAt(s, i, h)
    ensures var k := i + HeadSize(h);
      k < |s| && !IsSpace(s[k]) && f(i, c) == f(k, KeySeen(c, h.key).(phase := ExpectValue))
  {
    var key := KeyBack(s, f, i, j, c);
    var k := j + 2 + |key|;
    var after, gap := KeyColonBack(s, f, k, key, c);
    h := Head(s[i..j], key, after, gap);
    HeadStands(s, i, j, k, h);
  }

  /** The members of an object, the key of the first at `j`. */
  lemma {:induction false} MembersBack(s: string, f: Rest, i: nat, j: nat, c: Config) returns (ms: Members)
    requires FollowsSteps(s, f) && NulFree(s) && BlankIn(s, i, j) && CharAt(s, j, '"') && KeyMayStart(c)
    requires Closes(f(i, c))
    ensures ms.Member? && MembersOk(ms) && Stands(s, i, MembersText(ms)) && CharAt(s, i + |MembersText(ms)|, '}')
    decreases |s| - i, 4
  {
    var h := HeadBack(s, f, i, j, c);
    var k := i + HeadSize(h);
    var d := KeySeen(c, h.key).(phase := ExpectValue);
    var t, behind, rest := MemberValueBack(s, f, k, d);
    JoinHead(s, i, h, Text(t) + (behind + MoreMembers(rest)));
    ms := Member(h.before, h.key, h.after, h.gap, t, behind, rest);
  }

  /** The value of a member and what follows. */
  lemma {:induction false} MemberValueBack(s: string, f: Rest, i: nat, c: Config)
    returns (t: Tree, behind: string, rest: Members)
    requires FollowsSteps(s, f) && NulFree(s) && i < |s| && !IsSpace(s[i]) && Ready(c) && Top(c).InObject?
    requires Closes(f(i, c))
    ensures WellFormed(t) && Blank(behind) && MembersOk(rest)
    ensures Stands(s, i, Text(t) + (behind + MoreMembers(rest)))
    ensures CharAt(s, i + |Text(t) + (behind + MoreMembers(rest))|, '}')
    decreases |s| - i, 3
  {
    t := ValueBack(s, f, i, c);
    behind, rest := MoreMembersBack(s, f, i + |Text(t)|, Behind(c, Events(t, c.nest + 1, Value)));
    Join(s, i, Text(t), behind + MoreMembers(rest));
  }

  /** After the value of a member. */
  lemma {:induction false} MoreMembersBack(s: string, f: Rest, i: nat, c: Config)
    returns (behind: string, rest: Members)
    requires FollowsSteps(s, f) && NulFree(s) && i <= |s| && Between(c) && Top(c).InObject? && c.phase.Out?
    requires Closes(f(i, c))
    ensures Blank(behind) && MembersOk(rest) && Stands(s, i, behind + MoreMembers(rest))
    ensures CharAt(s, i + |behind + MoreMembers(rest)|, '}')
    decreases |s| - i, 5
  {
    var k := BlankBack(s, f, i, c);
    behind := s[i..k];
    SliceStands(s, i, k);
    OutBack(s, f, k, c);
    if s[k] == '}' {
      rest := NoMembers;
      assert behind + "" == behind;
    } else {
      var d := c.(phase := ExpectNext);
      Eat(s, f, k, c, d);
      var j := BlankBack(s, f, k + 1, d);
      Alive(s, f, j, d);
      rest := MembersBack(s, f, k + 1, j, d);
      JoinChar(s, k, ',', MembersText(rest));
      Join(s, i, behind, "," + MembersText(rest));
    }
  }

  /** The items of an array, the first at `j`. */
  lemma {:induction false} ItemsBack(s: string, f: Rest, i: nat, j: nat, c: Config) returns (es: Items)
    requires FollowsSteps(s, f) && NulFree(s) && BlankIn(s, i, j) && j < |s| && !IsSpace(s[j]) && s[j] != ']'
    requires Ready(c) && Top(c).InArray? && Closes(f(i, c))
    ensures es.Element? && ItemsOk(es) && Stands(s, i, ItemsText(es)) && CharAt(s, i + |ItemsText(es)|, ']')
    decreases |s| - i, 4
  {
    SliceStands(s, i, j);
    SkipBlank(s, f, i, s[i..j], c);
    var t := ValueBack(s, f, j, c);
    var behind, rest := MoreItemsBack(s, f, j + |Text(t)|, Behind(c, Events(t, c.nest + 1, Item)));
    Join(s, j, Text(t), behind + MoreItems(rest));
    Join(s, i, s[i..j], Text(t) + (behind + MoreItems(rest)));
    es := Element(s[i..j], t, behind, rest);
  }

  /** After an item. */
  lemma {:induction false} MoreItemsBack(s: string, f: Rest, i: nat, c: Config) returns (behind: string, rest: Items)
    requires FollowsSteps(s, f) && NulFree(s) && i <= |s| && Between(c) && Top(c).InArray? && c.phase.Out?
    requires Closes(f(i, c))
    ensures Blank(behind) && ItemsOk(rest) && Stands(s, i, behind + MoreItems(rest))
    ensures CharAt(s, i + |behind + MoreItems(rest)|, ']')
    decreases |s| - i, 5
  {
    var k := BlankBack(s, f, i, c);
    behind := s[i..k];
    SliceStands(s, i, k);
    OutBack(s, f, k, c);
    if s[k] == ']' {
      rest := NoItems;
      assert behind + "" == behind;
    } else {
      var d := c.(phase := ExpectNext);
      Eat(s, f, k, c, d);
      rest := NextItemsBack(s, f, k + 1, d);
      JoinChar(s, k, ',', ItemsText(rest));
      Join(s, i, behind, "," + ItemsText(rest));
    }
  }

  /** Behind a comma another item or the end of the array. */
  lemma {:induction false} NextItemsBack(s: string, f: Rest, i: nat, c: Config) returns (rest: Items)
    requires FollowsSteps(s, f) && NulFree(s) && i <= |s| && Ready(c) && Top(c).InArray? && Closes(f(i, c))
    ensures !rest.NoItems? && ItemsOk(rest) && Stands(s, i, ItemsText(rest)) && CharAt(s, i + |ItemsText(rest)|, ']')
    decreases |s| - i, 5
  {
    var j := BlankBack(s, f, i, c);
    if s[j] == ']' {
      rest := Trailing(s[i..j]);
    } else {
      rest := ItemsBack(s, f, i, j, c);
    }
  }

  /** `s` is the document `t` with other text around it. */
  predicate Written(s: string, lead: string, t: Tree, trail: string) {
    (t.Obj? || t.Arr?) && WellFormed(t) && Ignored(lead) && s == lead + Text(t) + trail
  }

  /** The first bracket. */
  lemma {:induction false} LeadBack(s: string, f: Rest, i: nat) returns (j: nat)
    requires FollowsSteps(s, f) && NulFree(s) && i <= |s|
    ensures i <= j <= |s| && Ignored(s[i..j]) && (j < |s| ==> s[j] == '{' || s[j] == '[') && f(i, INIT) == f(j, INIT)
    decreases |s| - i
  {
    if i < |s| && s[i] != '{' && s[i] != '[' {
      Eat(s, f, i, INIT, INIT);
      j := LeadBack(s, f, i + 1);
      assert s[i..j] == [s[i]] + s[i + 1..j];
    } else {
      j := i;
    }
  }

  /** What a run from the first bracket on has read. */
  lemma DocumentBack(s: string, f: Rest, i: nat) returns (t: Tree)
    requires FollowsSteps(s, f) && NulFree(s) && i < |s| && (s[i] == '{' || s[i] == '[') && Closes(f(i, INIT))
    ensures (t.Obj? || t.Arr?) && WellFormed(t) && Stands(s, i, Text(t))
  {
    if s[i] == '{' {
      Eat(s, f, i, INIT, Open(INIT, InObject));
      t := ObjectBack(s, f, i, INIT);
    } else {
      Eat(s, f, i, INIT, Open(INIT, InArray));
      t := ArrayBack(s, f, i, INIT);
    }
  }

  /** An accepted run has closed what it opened. */
  lemma AcceptedCloses(s: string)
    requires Accepted(Parse(s), |s|)
    ensures Closes(Parse(s))
  {
    RunFollowsSteps(s);
    assert Replay([]) == Some([]);
    RunBalanced(s, RestOf(s), 0, INIT);
  }

  /** Every accepted text without NUL is a document with other text around it. */
  lemma AcceptedIsWritten(s: string) returns (lead: string, t: Tree, trail: string)
    requires NulFree(s) && Accepted(Parse(s), |s|)
    ensures Written(s, lead, t, trail) && Parse(s).c.ev == Events(t, 0, TopKind(t))
  {
    var f := RestOf(s);
    RunFollowsSteps(s);
    AcceptedCloses(s);
    var i := LeadBack(s, f, 0);
    if i == |s| {
      assert Stops(s, i, INIT);
      assert false;
    }
    t := DocumentBack(s, f, i);
    lead, trail := s[..i], s[i + |Text(t)|..];
    assert s[0..i] == lead && s == lead + Text(t) + trail;
    RoundTrip(lead, t, trail);
  }

  /** The texts that are accepted, of all texts without NUL: exactly the documents, with other text around them. */
  lemma AcceptedExactly(s: string)
    requires NulFree(s)
    ensures Accepted(Parse(s), |s|) <==> exists lead, t, trail :: Written(s, lead, t, trail)
  {
    if Accepted(Parse(s), |s|) {
      var lead, t, trail := AcceptedIsWritten(s);
      assert Written(s, lead, t, trail);
    }
    if lead, t, trail :| Written(s, lead, t, trail) {
      TrailNulFree(s, lead + Text(t), trail);
      RoundTrip(lead, t, trail);
    }
  }

  lemma TrailNulFree(s: string, front: string, trail: string)
    requires NulFree(s) && s == front + trail
    ensures NulFree(trail)
  {
    forall k | 0 <= k < |trail|
      ensures trail[k] != '\0'
    {
      assert trail[k] == s[|front| + k];
    }
  }

  /** A parse as callers do it, on text without NUL: it succeeds exactly on the documents, and has then made the calls
      of the one it was given. */
  method ReadDocument(ctx: Json.Context, text: string) returns (ok: bool)
    requires ctx.Fresh() && ctx.events == [] && NulFree(text)
    modifies ctx
    ensures ok <==> exists lead, t, trail :: Written(text, lead, t, trail)
    ensures forall lead, t, trail :: Written(text, lead, t, trail) ==> ctx.events == Events(t, 0, TopKind(t))
  {
    AcceptedExactly(text);
    ok := ctx.ParseChecked(text);
    forall lead, t, trail | Written(text, lead, t, trail)
      ensures ctx.events == Events(t, 0, TopKind(t))
    {
      TrailNulFree(text, lead + Text(t), trail);
      RoundTrip(lead, t, trail);
    }
  }
}
