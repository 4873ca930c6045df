/** JSON documents with their layout, the text they are written as, the events that a reader is owed, and the proof that
    the parser delivers exactly those. */
module JsonTree {
  import opened JsonMachine
  import opened JsonNesting
  import Bytes
  import Json

  /** A value with the whitespace that stands inside it.  Texts of strings are as written, escapes included. */
  datatype Tree =
    | Str(text: string)
    | Num(text: string)
    | True
    | False
    | Null
    | Word(text: string)
    | Obj(pad: string, members: Members)
    | Arr(pad: string, items: Items)

  /** `before` "key" `after` : `gap` value `behind`, then the other members behind a comma. */
  datatype Members = NoMembers
    | Member(before: string, key: string, after: string, gap: string, value: Tree, behind: string, rest: Members)

  /** `Trailing` stands for a comma behind the last item, with the whitespace behind it. */
  datatype Items = NoItems | Element(gap: string, value: Tree, behind: string, rest: Items) | Trailing(pad: string)

  predicate Blank(s: string) {
    forall k :: 0 <= k < |s| ==> IsSpace(s[k])
  }

  /** The inside of a string token: no bare quote, and every backslash has a character after it. */
  predicate StringText(text: string) {
    Bytes.StringBody(text, 0, |text|)
  }

  /** What the scanner takes for a number; `RfcNumber` texts are among these. */
  predicate NumberText(s: string) {
    s != "" && (IsDigit(s[0]) || s[0] == '-') && forall k :: 1 <= k < |s| ==> IsNumberChar(s[k])
  }

  /** Digits only behind the first character. */
  predicate Integral(text: string) {
    forall k :: 1 <= k < |text| ==> '0' <= text[k] <= '9'
  }

  /** Words of letters, digits and dots, the three literals among them. */
  predicate TokenText(s: string) {
    s != "" && IsAlpha(s[0]) && forall k :: 1 <= k < |s| ==> IsTokenChar(s[k])
  }

  predicate WellFormed(t: Tree) {
    match t
    case Str(text) => StringText(text)
    case Num(text) => NumberText(text)
    case True => true
    case False => true
    case Null => true
    case Word(text) => TokenText(text) && text != "true" && text != "false" && text != "null"
    case Obj(pad, members) => Blank(pad) && MembersOk(members)
    case Arr(pad, items) => Blank(pad) && ItemsOk(items) && !items.Trailing?
  }

  predicate MembersOk(ms: Members) {
    match ms
    case NoMembers => true
    case Member(before, key, after, gap, value, behind, rest) =>
      Blank(before) && StringText(key) && Blank(after) && Blank(gap) && WellFormed(value) && Blank(behind)
        && MembersOk(rest)
  }

  predicate ItemsOk(es: Items) {
    match es
    case NoItems => true
    case Element(gap, value, behind, rest) => Blank(gap) && WellFormed(value) && Blank(behind) && ItemsOk(rest)
    case Trailing(pad) => Blank(pad)
  }

  /** The text of a value. */
  function Text(t: Tree): string
    decreases t, 0
  {
    match t
    case Str(text) => "\"" + (text + "\"")
    case Num(text) => text
    case True => "true"
    case False => "false"
    case Null => "null"
    case Word(text) => text
    case Obj(pad, members) => "{" + (InsideObject(pad, members) + "}")
    case Arr(pad, items) => "[" + (InsideArray(pad, items) + "]")
  }

  function InsideObject(pad: string, ms: Members): string
    decreases ms, 1
  {
    if ms.NoMembers? then pad else MembersText(ms)
  }

  function InsideArray(pad: string, es: Items): string
    decreases es, 1
  {
    if es.NoItems? then pad else ItemsText(es)
  }

  function MembersText(ms: Members): string
    decreases ms, 0
  {
    match ms
    case NoMembers => ""
    case Member(before, key, after, gap, value, behind, rest) =>
      before + ("\"" + (key + ("\"" + (after + (":" + (gap + (Text(value) + (behind + MoreMembers(rest)))))))))
  }

  function MoreMembers(ms: Members): string
    decreases ms, 1
  {
    if ms.NoMembers? then "" else "," + MembersText(ms)
  }

  function ItemsText(es: Items): string
    decreases es, 0
  {
    match es
    case NoItems => ""
    case Element(gap, value, behind, rest) => gap + (Text(value) + (behind + MoreItems(rest)))
    case Trailing(pad) => pad
  }

  function MoreItems(es: Items): string
    decreases es, 1
  {
    if es.NoItems? then "" else "," + ItemsText(es)
  }

  /** The events of a value at depth `n`, reported to the value or the item callback. */
  function Events(t: Tree, n: int, kind: Kind): seq<Event> {
    match t
    case Str(text) => [Event(kind, n, STRING, text)]
    case Num(text) => [Event(kind, n, if Integral(text) then INT else FLOAT, text)]
    case True => [Event(kind, n, BOOLEAN, "true")]
    case False => [Event(kind, n, BOOLEAN, "false")]
    case Null => [Event(kind, n, NULL, "null")]
    case Word(text) => [Event(kind, n, NULL, text)]
    case Obj(_, members) =>
      [Event(OStart, n, OBJECT, ""), Event(kind, n, OBJECT, "")] + MembersEvents(members, n + 1)
      + [Event(OStop, n, OBJECT, "")]
    case Arr(_, items) =>
      [Event(AStart, n, ARRAY, ""), Event(kind, n, ARRAY, "")] + ItemsEvents(items, n + 1)
      + [Event(AStop, n, ARRAY, "")]
  }

  function MembersEvents(ms: Members, n: int): seq<Event> {
    match ms
    case NoMembers => []
    case Member(_, key, _, _, value, _, rest) =>
      [Event(Key, n, STRING, key)] + Events(value, n, Value) + MembersEvents(rest, n)
  }

  function ItemsEvents(es: Items, n: int): seq<Event> {
    match es
    case NoItems => []
    case Element(_, value, _, rest) => Events(value, n, Item) + ItemsEvents(rest, n)
    case Trailing(_) => []
  }

  /** `text` stands in `s` at `i`. */
  predicate Stands(s: string, i: nat, text: string) {
    i + |text| <= |s| && s[i..i + |text|] == text
  }

  predicate CharAt(s: string, i: nat, ch: char) {
    i < |s| && s[i] == ch
  }

  lemma Split(s: string, i: nat, a: string, b: string)
    requires Stands(s, i, a + b)
    ensures Stands(s, i, a) && Stands(s, i + |a|, b)
  {
    assert s[i..i + |a|] == (a + b)[..|a|];
    assert s[i + |a|..i + |a| + |b|] == (a + b)[|a|..];
  }

  lemma StandsChar(s: string, i: nat, ch: char)
    requires Stands(s, i, [ch])
    ensures CharAt(s, i, ch)
  {
    assert s[i..i + 1][0] == s[i];
  }

  /** Between tokens, where whitespace is skipped. */
  predicate Between(c: Config) {
    && c.stack != [] && c.scan == NoScan
    && if Top(c).InObject? then !c.phase.Start? && !c.phase.Midway? && !c.phase.OpenArray?
       else c.phase.OpenArray? || c.phase.ExpectNext? || c.phase.Out?
  }

  /** Whitespace between tokens is skipped. */
  lemma {:induction false} SkipBlank(s: string, f: Rest, i: nat, pad: string, c: Config)
    requires FollowsSteps(s, f)
    requires Stands(s, i, pad) && Blank(pad) && Between(c)
    ensures f(i, c) == f(i + |pad|, c)
    decreases |pad|
  {
    if pad != "" {
      Split(s, i, pad[..1], pad[1..]);
      assert s[i] == pad[0];
      assert pad == pad[..1] + pad[1..];
      SkipBlank(s, f, i + 1, pad[1..], c);
      Eat(s, f, i, c, c);
    }
  }

  /** One consumed character. */
  lemma Eat(s: string, f: Rest, i: nat, c: Config, d: Config)
    requires FollowsSteps(s, f)
    requires Moves(s, i, c) && Step(s, i, c) == Consume(d)
    ensures f(i, c) == f(i + 1, d)
  {
  }

  /** The character that ends a container. */
  lemma EatClose(s: string, f: Rest, i: nat, c: Config)
    requires FollowsSteps(s, f) && i < |s| && c.stack != [] && c.scan == NoScan
    requires if Top(c).InObject? then s[i] == '}' && (c.phase.OpenObject? || c.phase.Out?)
             else s[i] == ']' && (c.phase.OpenArray? || c.phase.Out?)
    ensures f(i, c) == f(i + 1, Close(c))
  {
    Eat(s, f, i, c, Close(c));
  }

  /** A backslash and the character after it. */
  lemma EatEscape(s: string, f: Rest, i: nat, c: Config, key: bool, k: nat)
    requires FollowsSteps(s, f)
    requires i + 1 < |s| && s[i] == '\\' && k <= i && c.stack != []
    ensures f(i, Json.Scanning(c, key, k, false)) == f(i + 2, Json.Scanning(c, key, k, false))
  {
    Eat(s, f, i, Json.Scanning(c, key, k, false), Json.Scanning(c, key, k, true));
    Eat(s, f, i + 1, Json.Scanning(c, key, k, true), Json.Scanning(c, key, k, false));
  }

  /** The rest of the string token `text`, whose first character stands at `i`, from its index `n` on. */
  lemma {:induction false} StringRun(s: string, f: Rest, i: nat, text: string, n: nat, c: Config, key: bool)
    requires FollowsSteps(s, f) && Stands(s, i, text) && CharAt(s, i + |text|, '"') && c.stack != []
    requires n <= |text| && Bytes.StringBody(text, n, |text|)
    ensures f(i + n, Json.Scanning(c, key, i, false)) == f(i + |text| + 1, Json.Scanned(c, key, text))
    decreases |text| - n
  {
    if n == |text| {
      Eat(s, f, i + n, Json.Scanning(c, key, i, false), Json.Scanned(c, key, text));
    } else {
      assert s[i + n] == text[n];
      if text[n] == '\\' {
        StringRun(s, f, i, text, n + 2, c, key);
        EatEscape(s, f, i + n, c, key, i);
      } else {
        StringRun(s, f, i, text, n + 1, c, key);
        Eat(s, f, i + n, Json.Scanning(c, key, i, false), Json.Scanning(c, key, i, false));
      }
    }
  }

  predicate IsDelimiter(c: char) { IsSpace(c) || c == ',' || c == '}' || c == ']' }

  lemma {:induction false} NumberRun(s: string, f: Rest, i: nat, j: nat, c: Config, k: nat)
    requires FollowsSteps(s, f)
    requires k <= i <= j < |s| && c.stack != [] && IsDelimiter(s[j]) && forall m :: i <= m < j ==> IsNumberChar(s[m])
    ensures f(i, c.(scan := InNumber(k))) == f(j, Scalar(c, NumberType(s[k..j]), s[k..j]))
    decreases j - i
  {
    if i < j {
      NumberRun(s, f, i + 1, j, c, k);
      Eat(s, f, i, c.(scan := InNumber(k)), c.(scan := InNumber(k)));
    } else {
      assert Moves(s, j, c.(scan := InNumber(k)));
    }
  }

  lemma {:induction false} TokenRun(s: string, f: Rest, i: nat, j: nat, c: Config, k: nat)
    requires FollowsSteps(s, f)
    requires k <= i <= j < |s| && c.stack != [] && IsDelimiter(s[j]) && forall m :: i <= m < j ==> IsTokenChar(s[m])
    ensures f(i, c.(scan := InToken(k))) == f(j, Scalar(c, TokenType(s[k..j]), s[k..j]))
    decreases j - i
  {
    if i < j {
      TokenRun(s, f, i + 1, j, c, k);
      Eat(s, f, i, c.(scan := InToken(k)), c.(scan := InToken(k)));
    } else {
      assert Moves(s, j, c.(scan := InToken(k)));
    }
  }

  /** The machine is where a value may begin. */
  predicate Ready(c: Config) {
    && c.stack != [] && c.scan == NoScan
    && if Top(c).InObject? then c.phase.ExpectValue? else c.phase.OpenArray? || c.phase.ExpectNext?
  }

  /** After some events inside the same container. */
  function Behind(c: Config, ev: seq<Event>): Config {
    c.(phase := Out, ev := c.ev + ev)
  }

  function KindHere(c: Config): Kind
    requires c.stack != []
  {
    if Top(c).InObject? then Value else Item
  }

  lemma StringTokenRun(text: string, s: string, f: Rest, i: nat, c: Config)
    requires FollowsSteps(s, f) && StringText(text) && Stands(s, i, "\"" + (text + "\"")) && Ready(c)
    ensures f(i, c) == f(i + |text| + 2, Scalar(c, STRING, text))
  {
    Braces(s, i, '"', text, '"');
    Eat(s, f, i, c, c.(scan := InString(i + 1, false)));
    StringRun(s, f, i + 1, text, 0, c, false);
  }

  lemma NumberTokenRun(text: string, s: string, f: Rest, i: nat, c: Config)
    requires FollowsSteps(s, f) && NumberText(text) && Stands(s, i, text) && Ready(c)
    requires i + |text| < |s| && IsDelimiter(s[i + |text|])
    ensures f(i, c) == f(i + |text|, Scalar(c, NumberType(text), text))
  {
    StandsEach(s, i, text);
    Eat(s, f, i, c, c.(scan := InNumber(i)));
    NumberRun(s, f, i + 1, i + |text|, c, i);
  }

  lemma BareTokenRun(text: string, s: string, f: Rest, i: nat, c: Config)
    requires FollowsSteps(s, f) && TokenText(text) && Stands(s, i, text) && Ready(c)
    requires i + |text| < |s| && IsDelimiter(s[i + |text|])
    ensures f(i, c) == f(i + |text|, Scalar(c, TokenType(text), text))
  {
    StandsEach(s, i, text);
    Eat(s, f, i, c, c.(scan := InToken(i)));
    TokenRun(s, f, i + 1, i + |text|, c, i);
  }

  lemma StandsEach(s: string, i: nat, text: string)
    requires Stands(s, i, text)
    ensures forall m :: i <= m < i + |text| ==> s[m] == text[m - i]
  {
    forall m | i <= m < i + |text|
      ensures s[m] == text[m - i]
    {
      assert s[i..i + |text|][m - i] == s[m];
    }
  }

  lemma ScalarRun(t: Tree, s: string, f: Rest, i: nat, c: Config)
    requires FollowsSteps(s, f)
    requires WellFormed(t) && !t.Obj? && !t.Arr? && Stands(s, i, Text(t)) && Ready(c)
    requires i + |Text(t)| < |s| && IsDelimiter(s[i + |Text(t)|])
    ensures f(i, c) == f(i + |Text(t)|, Behind(c, Events(t, c.nest + 1, KindHere(c))))
  {
    match t
    case Str(text) => StringTokenRun(text, s, f, i, c);
    case Num(text) => NumberTokenRun(text, s, f, i, c);
    case True => BareTokenRun("true", s, f, i, c);
    case False => BareTokenRun("false", s, f, i, c);
    case Null => BareTokenRun("null", s, f, i, c);
    case Word(text) => BareTokenRun(text, s, f, i, c);
  }

  predicate KeyMayStart(c: Config) {
    c.stack != [] && Top(c).InObject? && c.scan == NoScan && (c.phase.OpenObject? || c.phase.ExpectNext?)
  }

  /** The opening quote of a key. */
  lemma QuoteRun(s: string, f: Rest, i: nat, pad: string, k: nat, c: Config)
    requires FollowsSteps(s, f) && Blank(pad) && Stands(s, i, pad) && k == i + |pad| && CharAt(s, k, '"')
      && KeyMayStart(c)
    ensures f(i, c) == f(k + 1, c.(scan := InKey(k + 1, false)))
  {
    SkipBlank(s, f, i, pad, c);
    Eat(s, f, k, c, c.(scan := InKey(k + 1, false)));
  }

  /** A key. */
  lemma KeyRun(s: string, f: Rest, i: nat, pad: string, k: nat, key: string, c: Config)
    requires FollowsSteps(s, f) && Blank(pad) && Stands(s, i, pad) && k == i + |pad| && CharAt(s, k, '"')
      && KeyMayStart(c)
    requires StringText(key) && Stands(s, k + 1, key) && CharAt(s, k + 1 + |key|, '"')
    ensures f(i, c) == f(k + |key| + 2, KeySeen(c, key))
  {
    QuoteRun(s, f, i, pad, k, c);
    StringRun(s, f, k + 1, key, 0, c, true);
  }

  /** The colon of a member, with the whitespace before it. */
  lemma ColonRun(s: string, f: Rest, i: nat, pad: string, k: nat, c: Config)
    requires FollowsSteps(s, f) && Blank(pad) && Stands(s, i, pad) && k == i + |pad| && CharAt(s, k, ':')
    requires c.stack != [] && Top(c).InObject? && c.scan == NoScan && c.phase.KeyOut?
    ensures f(i, c) == f(k + 1, c.(phase := ExpectValue))
  {
    SkipBlank(s, f, i, pad, c);
    Eat(s, f, k, c, c.(phase := ExpectValue));
  }

  lemma ColonGapRun(s: string, f: Rest, i: nat, pad: string, k: nat, gap: string, c: Config)
    requires FollowsSteps(s, f) && Blank(pad) && Stands(s, i, pad) && k == i + |pad| && CharAt(s, k, ':')
    requires Blank(gap) && Stands(s, k + 1, gap)
    requires c.stack != [] && Top(c).InObject? && c.scan == NoScan && c.phase.KeyOut?
    ensures f(i, c) == f(k + 1 + |gap|, c.(phase := ExpectValue))
  {
    ColonRun(s, f, i, pad, k, c);
    SkipBlank(s, f, k + 1, gap, c.(phase := ExpectValue));
  }

  /** Where the pieces of a member stand: the key, from the whitespace before it. */
  lemma KeyStands(s: string, i: nat, before: string, key: string, tail: string)
    requires Stands(s, i, before + ("\"" + (key + ("\"" + tail))))
    ensures var k := i + |before|;
      && Stands(s, i, before) && CharAt(s, k, '"') && Stands(s, k + 1, key) && CharAt(s, k + 1 + |key|, '"')
      && Stands(s, k + |key| + 2, tail)
  {
    var k := i + |before|;
    Split(s, i, before, "\"" + (key + ("\"" + tail)));
    Split(s, k, "\"", key + ("\"" + tail));
    StandsChar(s, k, '"');
    Split(s, k + 1, key, "\"" + tail);
    Split(s, k + 1 + |key|, "\"", tail);
    StandsChar(s, k + 1 + |key|, '"');
  }

  /** The colon and the whitespace around it. */
  lemma ColonStands(s: string, i: nat, after: string, gap: string, tail: string)
    requires Stands(s, i, after + (":" + (gap + tail)))
    ensures var k := i + |after|;
      Stands(s, i, after) && CharAt(s, k, ':') && Stands(s, k + 1, gap) && Stands(s, k + 1 + |gap|, tail)
  {
    var k := i + |after|;
    Split(s, i, after, ":" + (gap + tail));
    Split(s, k, ":", gap + tail);
    StandsChar(s, k, ':');
    Split(s, k + 1, gap, tail);
  }

  function BeforeValue(m: Members): nat
    requires m.Member?
  {
    |m.before| + |m.key| + |m.after| + |m.gap| + 3
  }

  lemma KeyAndColon(s: string, f: Rest, i: nat, before: string, key: string, after: string, gap: string,
    tail: string, c: Config)
    requires FollowsSteps(s, f) && KeyMayStart(c) && Blank(before) && StringText(key) && Blank(after) && Blank(gap)
    requires Stands(s, i, before + ("\"" + (key + ("\"" + (after + (":" + (gap + tail)))))))
    ensures var j := i + |before| + |key| + |after| + |gap| + 3;
      Stands(s, j, tail) && f(i, c) == f(j, KeySeen(c, key).(phase := ExpectValue))
  {
    var k := i + |before|;
    var j := k + |key| + 2;
    KeyStands(s, i, before, key, after + (":" + (gap + tail)));
    KeyRun(s, f, i, before, k, key, c);
    ColonStands(s, j, after, gap, tail);
    ColonGapRun(s, f, j, after, j + |after|, gap, KeySeen(c, key));
  }

  /** A member up to its value. */
  lemma MemberHead(m: Members, s: string, f: Rest, i: nat, c: Config)
    requires FollowsSteps(s, f)
    requires m.Member? && MembersOk(m) && Stands(s, i, MembersText(m)) && KeyMayStart(c)
    ensures Stands(s, i + BeforeValue(m), Text(m.value) + (m.behind + MoreMembers(m.rest)))
    ensures f(i, c) == f(i + BeforeValue(m), KeySeen(c, m.key).(phase := ExpectValue))
  {
    KeyAndColon(s, f, i, m.before, m.key, m.after, m.gap, Text(m.value) + (m.behind + MoreMembers(m.rest)), c);
  }

  /** What follows a value in a container begins with a delimiter. */
  lemma DelimiterBehind(s: string, i: nat, behind: string, more: string)
    requires Blank(behind) && Stands(s, i, behind + more) && i + |behind| + |more| < |s|
    requires more != "" ==> IsDelimiter(more[0])
    requires more == "" ==> IsDelimiter(s[i + |behind|])
    ensures IsDelimiter(s[i])
  {
    Split(s, i, behind, more);
    if behind != "" {
      assert s[i] == behind[0];
    } else if more != "" {
      assert s[i] == more[0];
    }
  }

  /** A value and what follows it in its container. */
  lemma ValueStands(s: string, i: nat, t: Tree, behind: string, more: string)
    requires Blank(behind) && Stands(s, i, Text(t) + (behind + more))
    requires var j := i + |Text(t)| + |behind| + |more|; j < |s| && IsDelimiter(s[j])
    requires more != "" ==> IsDelimiter(more[0])
    ensures Stands(s, i, Text(t)) && Stands(s, i + |Text(t)|, behind + more) && IsDelimiter(s[i + |Text(t)|])
  {
    Split(s, i, Text(t), behind + more);
    DelimiterBehind(s, i + |Text(t)|, behind, more);
  }

  lemma BehindBehind(c: Config, ev: seq<Event>, ev': seq<Event>)
    ensures Behind(Behind(c, ev), ev') == Behind(c, ev + ev')
  {
    assert c.ev + ev + ev' == c.ev + (ev + ev');
  }

  lemma {:induction false} ValueRun(t: Tree, s: string, f: Rest, i: nat, c: Config)
    requires FollowsSteps(s, f)
    requires WellFormed(t) && Stands(s, i, Text(t)) && Ready(c)
    requires i + |Text(t)| < |s| && IsDelimiter(s[i + |Text(t)|])
    ensures f(i, c) == f(i + |Text(t)|, Behind(c, Events(t, c.nest + 1, KindHere(c))))
    decreases t, 3
  {
    if t.Obj? {
      Braces(s, i, '{', InsideObject(t.pad, t.members), '}');
      ObjectRun(t, s, f, i, c, KindHere(c));
      Eat(s, f, i, c, Open(c, InObject));
    } else if t.Arr? {
      Braces(s, i, '[', InsideArray(t.pad, t.items), ']');
      ArrayRun(t, s, f, i, c, KindHere(c));
      Eat(s, f, i, c, Open(c, InArray));
    } else {
      ScalarRun(t, s, f, i, c);
    }
  }

  lemma Braces(s: string, i: nat, open: char, inner: string, close: char)
    requires Stands(s, i, [open] + (inner + [close]))
    ensures i + |inner| + 2 <= |s| && s[i] == open && Stands(s, i + 1, inner) && s[i + 1 + |inner|] == close
  {
    Split(s, i, [open], inner + [close]);
    StandsChar(s, i, open);
    Split(s, i + 1, inner, [close]);
    StandsChar(s, i + 1 + |inner|, close);
  }

  /** Whether a container inside the containers of `c` is reported as a value or as an item. */
  function OpenKind(c: Config, f: Frame): Kind {
    if c.stack == [] then if f.InObject? then Value else Item else KindHere(c)
  }

  ghost function ObjectEnd(t: Tree, c: Config): Config
    requires t.Obj?
  {
    if t.members.NoMembers? then Open(c, InObject) else Behind(Open(c, InObject), MembersEvents(t.members, c.nest + 2))
  }

  /** The inside of an object. */
  lemma {:induction false} ObjectInside(t: Tree, s: string, f: Rest, i: nat, c: Config)
    requires FollowsSteps(s, f)
    requires t.Obj? && WellFormed(t) && c.scan == NoScan
    requires var inner := InsideObject(t.pad, t.members);
      Stands(s, i, inner) && i + |inner| < |s| && s[i + |inner|] == '}'
    ensures f(i, Open(c, InObject)) == f(i + |InsideObject(t.pad, t.members)|, ObjectEnd(t, c))
    decreases t, 0
  {
    if t.members.NoMembers? {
      SkipBlank(s, f, i, t.pad, Open(c, InObject));
    } else {
      MembersRun(t.members, s, f, i, Open(c, InObject));
    }
  }

  /** An object after its opening brace. */
  lemma {:induction false} ObjectRun(t: Tree, s: string, f: Rest, i: nat, c: Config, kind: Kind)
    requires FollowsSteps(s, f)
    requires t.Obj? && WellFormed(t) && Stands(s, i, Text(t)) && c.scan == NoScan && kind == OpenKind(c, InObject)
    ensures f(i + 1, Open(c, InObject)) == f(i + |Text(t)|, Behind(c, Events(t, c.nest + 1, kind)))
    decreases t, 2
  {
    ObjectToClose(t, s, f, i, c, InsideObject(t.pad, t.members));
    ObjectClosed(t, c, kind, ObjectEnd(t, c));
  }

  lemma {:induction false} ObjectToClose(t: Tree, s: string, f: Rest, i: nat, c: Config, inner: string)
    requires FollowsSteps(s, f)
    requires t.Obj? && WellFormed(t) && Stands(s, i, ['{'] + (inner + ['}'])) && c.scan == NoScan
      && inner == InsideObject(t.pad, t.members)
    ensures f(i + 1, Open(c, InObject)) == f(i + |inner| + 2, Close(ObjectEnd(t, c)))
    decreases t, 1
  {
    Braces(s, i, '{', inner, '}');
    ObjectInside(t, s, f, i + 1, c);
    ObjectEnds(t, c);
    EatClose(s, f, i + 1 + |inner|, ObjectEnd(t, c));
  }

  lemma ObjectEnds(t: Tree, c: Config)
    requires t.Obj? && c.scan == NoScan
    ensures var d := ObjectEnd(t, c);
      d.stack == c.stack + [InObject] && (d.phase.OpenObject? || d.phase.Out?) && d.scan == NoScan
  {
  }

  lemma ObjectClosed(t: Tree, c: Config, kind: Kind, d: Config)
    requires t.Obj? && kind == OpenKind(c, InObject) && c.scan == NoScan && d == ObjectEnd(t, c)
    ensures Close(d) == Behind(c, Events(t, c.nest + 1, kind))
  {
    var n := c.nest + 1;
    var first, last := [Event(OStart, n, OBJECT, ""), Event(kind, n, OBJECT, "")], [Event(OStop, n, OBJECT, "")];
    if t.members.NoMembers? {
      RegroupEmpty(c.ev, first, last);
    } else {
      Regroup(c.ev, first, MembersEvents(t.members, n + 1), last);
    }
  }

  lemma Regroup(a: seq<Event>, b: seq<Event>, c: seq<Event>, d: seq<Event>)
    ensures a + b + c + d == a + (b + c + d)
  {
  }

  lemma RegroupEmpty(a: seq<Event>, b: seq<Event>, d: seq<Event>)
    ensures a + b + d == a + (b + [] + d)
  {
    assert b + [] == b;
  }

  ghost function ArrayEnd(t: Tree, c: Config): Config
    requires t.Arr?
  {
    if t.items.NoItems? then Open(c, InArray) else Behind(Open(c, InArray), ItemsEvents(t.items, c.nest + 2))
  }

  /** The inside of an array. */
  lemma {:induction false} ArrayInside(t: Tree, s: string, f: Rest, i: nat, c: Config)
    requires FollowsSteps(s, f)
    requires t.Arr? && WellFormed(t) && c.scan == NoScan
    requires var inner := InsideArray(t.pad, t.items); Stands(s, i, inner) && i + |inner| < |s| && s[i + |inner|] == ']'
    ensures f(i, Open(c, InArray)) == f(i + |InsideArray(t.pad, t.items)|, ArrayEnd(t, c))
    decreases t, 0
  {
    if t.items.NoItems? {
      SkipBlank(s, f, i, t.pad, Open(c, InArray));
    } else {
      ItemsRun(t.items, s, f, i, Open(c, InArray));
    }
  }

  /** An array after its opening bracket. */
  lemma {:induction false} ArrayRun(t: Tree, s: string, f: Rest, i: nat, c: Config, kind: Kind)
    requires FollowsSteps(s, f)
    requires t.Arr? && WellFormed(t) && Stands(s, i, Text(t)) && c.scan == NoScan && kind == OpenKind(c, InArray)
    ensures f(i + 1, Open(c, InArray)) == f(i + |Text(t)|, Behind(c, Events(t, c.nest + 1, kind)))
    decreases t, 2
  {
    ArrayToClose(t, s, f, i, c, InsideArray(t.pad, t.items));
    ArrayClosed(t, c, kind, ArrayEnd(t, c));
  }

  lemma {:induction false} ArrayToClose(t: Tree, s: string, f: Rest, i: nat, c: Config, inner: string)
    requires FollowsSteps(s, f)
    requires t.Arr? && WellFormed(t) && Stands(s, i, ['['] + (inner + [']'])) && c.scan == NoScan
      && inner == InsideArray(t.pad, t.items)
    ensures f(i + 1, Open(c, InArray)) == f(i + |inner| + 2, Close(ArrayEnd(t, c)))
    decreases t, 1
  {
    Braces(s, i, '[', inner, ']');
    ArrayInside(t, s, f, i + 1, c);
    ArrayEnds(t, c);
    EatClose(s, f, i + 1 + |inner|, ArrayEnd(t, c));
  }

  lemma ArrayEnds(t: Tree, c: Config)
    requires t.Arr? && c.scan == NoScan
    ensures var d := ArrayEnd(t, c);
      d.stack == c.stack + [InArray] && (d.phase.OpenArray? || d.phase.Out?) && d.scan == NoScan
  {
  }

  lemma ArrayClosed(t: Tree, c: Config, kind: Kind, d: Config)
    requires t.Arr? && kind == OpenKind(c, InArray) && c.scan == NoScan && d == ArrayEnd(t, c)
    ensures Close(d) == Behind(c, Events(t, c.nest + 1, kind))
  {
    var n := c.nest + 1;
    var first, last := [Event(AStart, n, ARRAY, ""), Event(kind, n, ARRAY, "")], [Event(AStop, n, ARRAY, "")];
    if t.items.NoItems? {
      RegroupEmpty(c.ev, first, last);
    } else {
      Regroup(c.ev, first, ItemsEvents(t.items, n + 1), last);
    }
  }

  /** The members of an object, up to its closing brace. */
  lemma {:induction false} MembersRun(ms: Members, s: string, f: Rest, i: nat, c: Config)
    requires FollowsSteps(s, f)
    requires ms.Member? && MembersOk(ms) && Stands(s, i, MembersText(ms)) && KeyMayStart(c)
    requires i + |MembersText(ms)| < |s| && s[i + |MembersText(ms)|] == '}'
    ensures f(i, c) == f(i + |MembersText(ms)|, Behind(c, MembersEvents(ms, c.nest + 1)))
    decreases ms, 2
  {
    var j, d := i + BeforeValue(ms), KeySeen(c, ms.key).(phase := ExpectValue);
    MemberHead(ms, s, f, i, c);
    MembersLength(ms);
    MemberValue(ms, s, f, j, d);
    MembersJoin(ms, c);
  }

  lemma MembersLength(ms: Members)
    requires ms.Member?
    ensures |MembersText(ms)| == BeforeValue(ms) + |Text(ms.value)| + |ms.behind| + |MoreMembers(ms.rest)|
  {
  }

  /** The value of a member and what follows. */
  lemma {:induction false} MemberValue(ms: Members, s: string, f: Rest, i: nat, c: Config)
    requires FollowsSteps(s, f)
    requires ms.Member? && MembersOk(ms) && Ready(c) && Top(c).InObject?
    requires Stands(s, i, Text(ms.value) + (ms.behind + MoreMembers(ms.rest)))
    requires var j := i + |Text(ms.value)| + |ms.behind| + |MoreMembers(ms.rest)|; j < |s| && s[j] == '}'
    ensures f(i, c) == f(i + |Text(ms.value)| + |ms.behind| + |MoreMembers(ms.rest)|,
      Behind(Behind(c, Events(ms.value, c.nest + 1, Value)), MembersEvents(ms.rest, c.nest + 1)))
    decreases ms, 1
  {
    ValueStands(s, i, ms.value, ms.behind, MoreMembers(ms.rest));
    ValueRun(ms.value, s, f, i, c);
    MembersTail(ms, s, f, i + |Text(ms.value)|, Behind(c, Events(ms.value, c.nest + 1, Value)));
  }

  lemma MembersJoin(ms: Members, c: Config)
    requires ms.Member? && c.scan == NoScan
    ensures var e := Behind(KeySeen(c, ms.key).(phase := ExpectValue), Events(ms.value, c.nest + 1, Value));
      Behind(e, MembersEvents(ms.rest, c.nest + 1)) == Behind(c, MembersEvents(ms, c.nest + 1))
  {
    var n := c.nest + 1;
    var key, value, rest := [Event(Key, n, STRING, ms.key)], Events(ms.value, n, Value), MembersEvents(ms.rest, n);
    assert MembersEvents(ms, n) == key + value + rest;
    assert c.ev + key + value + rest == c.ev + (key + value + rest);
  }

  /** After the value of a member. */
  lemma {:induction false} MembersTail(ms: Members, s: string, f: Rest, i: nat, c: Config)
    requires FollowsSteps(s, f)
    requires ms.Member? && MembersOk(ms) && Stands(s, i, ms.behind + MoreMembers(ms.rest))
    requires c.stack != [] && Top(c).InObject? && c.scan == NoScan && c.phase.Out?
    requires var j := i + |ms.behind| + |MoreMembers(ms.rest)|; j < |s| && s[j] == '}'
    ensures f(i, c) == f(i + |ms.behind| + |MoreMembers(ms.rest)|, Behind(c, MembersEvents(ms.rest, c.nest + 1)))
    decreases ms, 0
  {
    if ms.rest.Member? {
      CommaRun(s, f, i, ms.behind, MembersText(ms.rest), c);
      MembersRun(ms.rest, s, f, i + |ms.behind| + 1, c.(phase := ExpectNext));
    } else {
      assert ms.behind + "" == ms.behind && Behind(c, []) == c;
      SkipBlank(s, f, i, ms.behind, c);
    }
  }

  /** The comma behind a value, with the whitespace before it. */
  lemma CommaRun(s: string, f: Rest, i: nat, pad: string, tail: string, c: Config)
    requires FollowsSteps(s, f)
    requires Blank(pad) && Stands(s, i, pad + ("," + tail)) && c.stack != [] && c.scan == NoScan && c.phase.Out?
    ensures Stands(s, i + |pad| + 1, tail) && f(i, c) == f(i + |pad| + 1, c.(phase := ExpectNext))
  {
    Split(s, i, pad, "," + tail);
    Split(s, i + |pad|, ",", tail);
    StandsChar(s, i + |pad|, ',');
    SkipBlank(s, f, i, pad, c);
    Eat(s, f, i + |pad|, c, c.(phase := ExpectNext));
  }

  /** The items of an array, up to its closing bracket. */
  lemma {:induction false} ItemsRun(es: Items, s: string, f: Rest, i: nat, c: Config)
    requires FollowsSteps(s, f)
    requires es.Element? && ItemsOk(es) && Stands(s, i, ItemsText(es)) && Ready(c) && Top(c).InArray?
    requires i + |ItemsText(es)| < |s| && s[i + |ItemsText(es)|] == ']'
    ensures f(i, c) == f(i + |ItemsText(es)|, Behind(c, ItemsEvents(es, c.nest + 1)))
    decreases es, 2
  {
    Split(s, i, es.gap, Text(es.value) + (es.behind + MoreItems(es.rest)));
    SkipBlank(s, f, i, es.gap, c);
    ItemValue(es, s, f, i + |es.gap|, c);
    BehindBehind(c, Events(es.value, c.nest + 1, Item), ItemsEvents(es.rest, c.nest + 1));
  }

  /** An item and what follows. */
  lemma {:induction false} ItemValue(es: Items, s: string, f: Rest, i: nat, c: Config)
    requires FollowsSteps(s, f)
    requires es.Element? && ItemsOk(es) && Ready(c) && Top(c).InArray?
    requires Stands(s, i, Text(es.value) + (es.behind + MoreItems(es.rest)))
    requires var j := i + |Text(es.value)| + |es.behind| + |MoreItems(es.rest)|; j < |s| && s[j] == ']'
    ensures f(i, c) == f(i + |Text(es.value)| + |es.behind| + |MoreItems(es.rest)|,
      Behind(Behind(c, Events(es.value, c.nest + 1, Item)), ItemsEvents(es.rest, c.nest + 1)))
    decreases es, 1
  {
    ValueStands(s, i, es.value, es.behind, MoreItems(es.rest));
    ValueRun(es.value, s, f, i, c);
    ItemsTail(es, s, f, i + |Text(es.value)|, Behind(c, Events(es.value, c.nest + 1, Item)));
  }

  /** A comma before the closing bracket makes no difference. */
  lemma TrailingComma(s: string, f: Rest, i: nat, behind: string, pad: string, c: Config)
    requires FollowsSteps(s, f)
    requires Blank(behind) && Blank(pad) && Stands(s, i, behind + ("," + pad))
    requires c.stack != [] && Top(c).InArray? && c.scan == NoScan && c.phase.Out?
    requires CharAt(s, i + |behind| + 1 + |pad|, ']')
    ensures f(i, c) == f(i + |behind| + 1 + |pad|, c)
  {
    var j, d := i + |behind| + 1 + |pad|, c.(phase := ExpectNext);
    CommaRun(s, f, i, behind, pad, c);
    SkipBlank(s, f, i + |behind| + 1, pad, d);
    Eat(s, f, j, d, Close(d));
    Eat(s, f, j, c, Close(c));
  }

  /** After an item. */
  lemma {:induction false} ItemsTail(es: Items, s: string, f: Rest, i: nat, c: Config)
    requires FollowsSteps(s, f)
    requires es.Element? && ItemsOk(es) && Stands(s, i, es.behind + MoreItems(es.rest))
    requires c.stack != [] && Top(c).InArray? && c.scan == NoScan && c.phase.Out?
    requires var j := i + |es.behind| + |MoreItems(es.rest)|; j < |s| && s[j] == ']'
    ensures f(i, c) == f(i + |es.behind| + |MoreItems(es.rest)|, Behind(c, ItemsEvents(es.rest, c.nest + 1)))
    decreases es, 0
  {
    if es.rest.Element? {
      CommaRun(s, f, i, es.behind, ItemsText(es.rest), c);
      ItemsRun(es.rest, s, f, i + |es.behind| + 1, c.(phase := ExpectNext));
    } else if es.rest.Trailing? {
      TrailingComma(s, f, i, es.behind, es.rest.pad, c);
      assert c.ev + [] == c.ev;
    } else {
      assert es.behind + "" == es.behind && Behind(c, []) == c;
      SkipBlank(s, f, i, es.behind, c);
    }
  }

  /** Text outside of the document that the parser passes over. */
  predicate Ignored(s: string) {
    forall k :: 0 <= k < |s| ==> s[k] != '{' && s[k] != '[' && s[k] != '\0'
  }

  lemma {:induction false} SkipLead(s: string, f: Rest, i: nat, lead: string, c: Config)
    requires FollowsSteps(s, f)
    requires Stands(s, i, lead) && Ignored(lead) && c.stack == [] && c.scan == NoScan
    ensures f(i, c) == f(i + |lead|, c)
    decreases |lead|
  {
    if lead != "" {
      assert s[i] == lead[0];
      assert lead == lead[..1] + lead[1..];
      Split(s, i, lead[..1], lead[1..]);
      SkipLead(s, f, i + 1, lead[1..], c);
      Eat(s, f, i, c, c);
    }
  }

  lemma {:induction false} SkipTrail(s: string, f: Rest, i: nat, c: Config)
    requires FollowsSteps(s, f)
    requires i <= |s| && NulFree(s[i..]) && c.stack == [] && c.scan == NoScan && !c.phase.Start?
    ensures f(i, c) == f(|s|, c)
    decreases |s| - i
  {
    if i < |s| {
      assert s[i] == s[i..][0] && s[i + 1..] == s[i..][1..];
      SkipTrail(s, f, i + 1, c);
      Eat(s, f, i, c, c);
    }
  }

  /** The callback for the value of the document: `json_parse` reports a top level array as an item. */
  function TopKind(t: Tree): Kind {
    if t.Obj? then Value else Item
  }

  lemma DocumentRun(t: Tree, s: string, f: Rest, i: nat)
    requires FollowsSteps(s, f)
    requires (t.Obj? || t.Arr?) && WellFormed(t) && Stands(s, i, Text(t))
    ensures f(i, INIT) == f(i + |Text(t)|, Behind(INIT, Events(t, 0, TopKind(t))))
  {
    if t.Obj? {
      Braces(s, i, '{', InsideObject(t.pad, t.members), '}');
      Eat(s, f, i, INIT, Open(INIT, InObject));
      ObjectRun(t, s, f, i, INIT, Value);
    } else {
      Braces(s, i, '[', InsideArray(t.pad, t.items), ']');
      Eat(s, f, i, INIT, Open(INIT, InArray));
      ArrayRun(t, s, f, i, INIT, Item);
    }
  }

  /** The round trip: for every document whose value is an object or an array, written with any whitespace between its
      tokens, the parser returns 0, leaves a consistent context and reports exactly the events of the document. */
  lemma RoundTrip(lead: string, t: Tree, trail: string)
    requires (t.Obj? || t.Arr?) && WellFormed(t) && Ignored(lead) && NulFree(trail)
    ensures var s := lead + Text(t) + trail;
      && Parse(s) == Ended(Config([], Out, NoScan, -1, Events(t, 0, TopKind(t))), |s|)
      && Accepted(Parse(s), |s|)
  {
    var s, i := lead + Text(t) + trail, |lead|;
    var f := RestOf(s);
    RunFollowsSteps(s);
    assert Stands(s, 0, lead) && Stands(s, i, Text(t));
    assert s[i + |Text(t)|..] == trail;
    var c := Behind(INIT, Events(t, 0, TopKind(t)));
    SkipLead(s, f, 0, lead, INIT);
    DocumentRun(t, s, f, i);
    SkipTrail(s, f, i + |Text(t)|, c);
    assert [] + Events(t, 0, TopKind(t)) == Events(t, 0, TopKind(t));
  }

  /** The same on the parser itself: a fresh context accepts the text and has made exactly the calls of the document. */
  method ParseDocument(ctx: Json.Context, lead: string, t: Tree, trail: string) returns (ok: bool)
    requires ctx.Fresh() && ctx.events == []
    requires (t.Obj? || t.Arr?) && WellFormed(t) && Ignored(lead) && NulFree(trail)
    modifies ctx
    ensures ok && ctx.events == Events(t, 0, TopKind(t)) && OneValue(ctx.events)
  {
    RoundTrip(lead, t, trail);
    ok := ctx.ParseChecked(lead + Text(t) + trail);
  }

  predicate Digits(s: string) {
    s != "" && forall k :: 0 <= k < |s| ==> IsDigit(s[k])
  }

  /** A number of section 6 of RFC 7159, in its parts; the exponent has no plus sign. */
  datatype Number = Number(minus: bool, whole: string, frac: string, exp: string)

  predicate RfcNumber(n: Number) {
    && Digits(n.whole) && (n.whole[0] == '0' ==> |n.whole| == 1)
    && (n.frac != "" ==> n.frac[0] == '.' && Digits(n.frac[1..]))
    && (n.exp != "" ==>
      (n.exp[0] == 'e' || n.exp[0] == 'E') && |n.exp| > 1
      && Digits(if n.exp[1] == '-' then n.exp[2..] else n.exp[1..]))
  }

  function NumberOf(n: Number): string {
    (if n.minus then "-" else "") + n.whole + n.frac + n.exp
  }

  predicate AllNumberChars(s: string) { forall k :: 0 <= k < |s| ==> IsNumberChar(s[k]) }

  lemma PartsAreNumberChars(n: Number)
    requires RfcNumber(n)
    ensures AllNumberChars(n.whole) && AllNumberChars(n.frac) && AllNumberChars(n.exp)
  {
    forall k | 0 <= k < |n.frac|
      ensures IsNumberChar(n.frac[k])
    {
      assert k > 0 ==> n.frac[k] == n.frac[1..][k - 1];
    }
    forall k | 0 <= k < |n.exp|
      ensures IsNumberChar(n.exp[k])
    {
      if k > 1 {
        assert n.exp[1..][k - 1] == n.exp[k] == n.exp[2..][k - 2];
      } else if k == 1 && n.exp[1] != '-' {
        assert n.exp[1..][0] == n.exp[1];
      }
    }
  }

  /** A number of digits and what follows it. */
  lemma ScansParts(head: string, tail: string)
    requires head != "" && (IsDigit(head[0]) || head[0] == '-') && forall k :: 1 <= k < |head| ==> IsDigit(head[k])
    requires AllNumberChars(tail) && (tail != "" ==> !IsDigit(tail[0]))
    ensures NumberText(head + tail) && (NumberType(head + tail) == INT <==> tail == "")
  {
    var s := head + tail;
    forall k | 1 <= k < |s|
      ensures IsNumberChar(s[k]) && (k < |head| ==> IsDigit(s[k]))
    {
      assert s[k] == if k < |head| then head[k] else tail[k - |head|];
    }
    assert tail != "" ==> s[|head|] == tail[0];
  }

  lemma Signed(minus: bool, whole: string)
    requires Digits(whole)
    ensures var head := (if minus then "-" else "") + whole;
      head != "" && (IsDigit(head[0]) || head[0] == '-') && forall k :: 1 <= k < |head| ==> IsDigit(head[k])
  {
    var head := (if minus then "-" else "") + whole;
    forall k | 1 <= k < |head|
      ensures IsDigit(head[k])
    {
      assert head[k] == whole[if minus then k - 1 else k];
    }
  }

  /** Every such number is scanned as a number, as an integer just when it has neither fraction nor exponent. */
  lemma RfcNumberScans(n: Number)
    requires RfcNumber(n)
    ensures NumberText(NumberOf(n))
    ensures NumberType(NumberOf(n)) == INT <==> n.frac == "" && n.exp == ""
  {
    var head, tail := (if n.minus then "-" else "") + n.whole, n.frac + n.exp;
    PartsAreNumberChars(n);
    assert AllNumberChars(tail);
    Signed(n.minus, n.whole);
    ScansParts(head, tail);
    assert NumberOf(n) == head + tail;
  }
}
