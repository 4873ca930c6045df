/** What the parser of `src/jparse.c` takes for a value when it skips one: more than the values of RFC 7159. */
module JparseSkip {
  import opened Bytes
  import opened JparseGrammar
  import opened Options

  /** The first position from `i` on that is not a digit. */
  function DigitsEnd(s: string, i: nat): (k: nat)
    ensures i <= k && (i <= |s| ==> k <= |s|) && (k < |s| ==> !IsDigit(s[k]))
    ensures forall j :: i <= j < k ==> j < |s| && IsDigit(s[j])
    decreases |s| - i
  {
    if i < |s| && IsDigit(s[i]) then DigitsEnd(s, i + 1) else i
  }

  /** The first position from `i` on that is neither a digit nor a sign. */
  function ExponentEnd(s: string, i: nat): (k: nat)
    ensures i <= k && (i <= |s| ==> k <= |s|) && (k < |s| ==> !IsDigit(s[k]) && !IsSign(s[k]))
    ensures forall j :: i <= j < k ==> j < |s| && (IsDigit(s[j]) || IsSign(s[j]))
    decreases |s| - i
  {
    if i < |s| && (IsDigit(s[i]) || IsSign(s[i])) then ExponentEnd(s, i + 1) else i
  }

  function WholeEnd(s: string, i: nat): nat {
    if i < |s| && (IsDigit(s[i]) || IsSign(s[i])) then DigitsEnd(s, i + 1) else i
  }

  function FracEnd(s: string, i: nat): nat {
    var a := WholeEnd(s, i);
    if CharAt(s, a, '.') then DigitsEnd(s, a + 1) else a
  }

  /** The end of the number that begins at `i`, which may be empty. */
  function NumberEnd(s: string, i: nat): nat {
    var b := FracEnd(s, i);
    if i < b < |s| && IsExponent(s[b]) then ExponentEnd(s, b + 1) else b
  }

  /** It is the longest loose number. */
  lemma NumberEndIsLoose(s: string, i: nat)
    requires i <= |s|
    ensures LooseAt(s, i, WholeEnd(s, i), FracEnd(s, i), NumberEnd(s, i))
  {
  }

  /** The position behind a key and its colon. */
  function KeyEnd(s: string, i: nat): (e: Option<nat>)
    ensures e.Some? ==> i < e.value <= |s|
  {
    var q := QuoteFrom(s, Blanks(s, i) + 1);
    var colon := Blanks(s, q + 1);
    if CharAt(s, Blanks(s, i), '"') && q < |s| && CharAt(s, colon, ':') then Some(colon + 1) else None
  }

  predicate IsWord(s: string, k: nat) {
    Letters(s, k) < |s| && WordAt(s, k, Letters(s, k))
  }

  /** The position behind the value that begins at `k`. */
  function ValueEnd(s: string, k: nat): (e: Option<nat>)
    ensures e.Some? ==> k <= e.value <= |s|
    decreases |s| - k, 0
  {
    if k >= |s| then None
    else if IsWord(s, k) then Some(Letters(s, k))
    else if s[k] == '"' then
      var q := QuoteFrom(s, k + 1);
      if q < |s| then Some(q + 1) else None
    else if s[k] == '{' then MembersEnd(s, k + 1, true)
    else if s[k] == '[' then ItemsEnd(s, k + 1)
    else if NumberEnd(s, k) < |s| then Some(NumberEnd(s, k))
    else None
  }

  /** The position behind the object whose members go on at `i`; only in front of the first one may it end. */
  function MembersEnd(s: string, i: nat, first: bool): (e: Option<nat>)
    requires i <= |s|
    ensures e.Some? ==> i < e.value <= |s|
    decreases |s| - i, 1
  {
    if first && CharAt(s, Blanks(s, i), '}') then Some(Blanks(s, i) + 1)
    else if KeyEnd(s, i).None? then None
    else
      match ValueEnd(s, Blanks(s, KeyEnd(s, i).value))
      case None => None
      case Some(e) => MembersBehind(s, e)
  }

  /** The same behind the value of a member. */
  function MembersBehind(s: string, e: nat): (r: Option<nat>)
    requires e <= |s|
    ensures r.Some? ==> e < r.value <= |s|
    decreases |s| - e, 2
  {
    var m := Blanks(s, e);
    if CharAt(s, m, ',') then MembersEnd(s, m + 1, false) else if CharAt(s, m, '}') then Some(m + 1) else None
  }

  /** The position behind the array whose items go on at `i`. */
  function ItemsEnd(s: string, i: nat): (e: Option<nat>)
    requires i <= |s|
    ensures e.Some? ==> i < e.value <= |s|
    decreases |s| - i, 3
  {
    match ValueEnd(s, Blanks(s, i))
    case None => None
    case Some(e) => ItemsBehind(s, e)
  }

  /** The same behind an item. */
  function ItemsBehind(s: string, e: nat): (r: Option<nat>)
    requires e <= |s|
    ensures r.Some? ==> e < r.value <= |s|
    decreases |s| - e, 2
  {
    var m := Blanks(s, e);
    if CharAt(s, m, ',') then ItemsEnd(s, m + 1) else if CharAt(s, m, ']') then Some(m + 1) else None
  }

  /** The three ends as functions of the position. */
  datatype Ends = Ends(value: nat -> Option<nat>, members: (nat, bool) -> Option<nat>, items: nat -> Option<nat>)

  /** What the end of a value is in terms of the ends behind it. */
  ghost predicate ValueGoes(s: string, f: Ends, k: nat) {
    k < |s| ==>
      f.value(k) ==
        if IsWord(s, k) then Some(Letters(s, k))
        else if s[k] == '"' then if QuoteFrom(s, k + 1) < |s| then Some(QuoteFrom(s, k + 1) + 1) else None
        else if s[k] == '{' then f.members(k + 1, true)
        else if s[k] == '[' then f.items(k + 1)
        else if NumberEnd(s, k) < |s| then Some(NumberEnd(s, k))
        else None
  }

  /** What it is for members, the value of the next one lying between `from` and `end` with `m` behind it. */
  ghost predicate MembersGo(s: string, f: Ends, i: nat, first: bool) {
    f.members(i, first) ==
      if first && CharAt(s, Blanks(s, i), '}') then Some(Blanks(s, i) + 1)
      else if KeyEnd(s, i).None? then None
      else MembersFrom(s, f, f.value(Blanks(s, KeyEnd(s, i).value)))
  }

  /** Behind the value of a member. */
  ghost function MembersFrom(s: string, f: Ends, e: Option<nat>): Option<nat> {
    if e.None? then None
    else
      var m := Blanks(s, e.value);
      if CharAt(s, m, ',') then f.members(m + 1, false) else if CharAt(s, m, '}') then Some(m + 1) else None
  }

  ghost predicate ItemsGo(s: string, f: Ends, i: nat) {
    f.items(i) == ItemsFrom(s, f, f.value(Blanks(s, i)))
  }

  /** Behind an item. */
  ghost function ItemsFrom(s: string, f: Ends, e: Option<nat>): Option<nat> {
    if e.None? then None
    else
      var m := Blanks(s, e.value);
      if CharAt(s, m, ',') then f.items(m + 1) else if CharAt(s, m, ']') then Some(m + 1) else None
  }

  ghost predicate Bounded(s: string, f: Ends) {
    && (forall k: nat {:trigger f.value(k)} :: f.value(k).Some? ==> k <= f.value(k).value <= |s| && k < |s|)
    && (forall i: nat, b {:trigger f.members(i, b)} :: f.members(i, b).Some? ==> i < f.members(i, b).value <= |s|)
    && (forall i: nat {:trigger f.items(i)} :: f.items(i).Some? ==> i < f.items(i).value <= |s|)
  }

  ghost predicate Skips(s: string, f: Ends) {
    && (forall k: nat {:trigger ValueGoes(s, f, k)} :: ValueGoes(s, f, k))
    && (forall i: nat, b {:trigger MembersGo(s, f, i, b)} :: i <= |s| ==> MembersGo(s, f, i, b))
    && (forall i: nat {:trigger ItemsGo(s, f, i)} :: i <= |s| ==> ItemsGo(s, f, i))
    && Bounded(s, f)
  }

  ghost function EndsOf(s: string): Ends {
    Ends((k: nat) => ValueEnd(s, k),
         (i: nat, first: bool) => if i <= |s| then MembersEnd(s, i, first) else None,
         (i: nat) => if i <= |s| then ItemsEnd(s, i) else None)
  }

  lemma ValueSkips(s: string, k: nat)
    ensures ValueGoes(s, EndsOf(s), k)
  {
  }

  lemma BehindSkips(s: string, e: nat)
    requires e <= |s|
    ensures MembersFrom(s, EndsOf(s), Some(e)) == MembersBehind(s, e)
    ensures ItemsFrom(s, EndsOf(s), Some(e)) == ItemsBehind(s, e)
  {
  }

  lemma MembersSkip(s: string, i: nat, first: bool)
    requires i <= |s|
    ensures MembersGo(s, EndsOf(s), i, first)
  {
    if KeyEnd(s, i).Some? {
      var e := ValueEnd(s, Blanks(s, KeyEnd(s, i).value));
      if e.Some? {
        BehindSkips(s, e.value);
      }
    }
  }

  lemma ItemsSkip(s: string, i: nat)
    requires i <= |s|
    ensures ItemsGo(s, EndsOf(s), i)
  {
    var e := ValueEnd(s, Blanks(s, i));
    if e.Some? {
      BehindSkips(s, e.value);
    }
  }

  lemma EndsSkip(s: string)
    ensures Skips(s, EndsOf(s))
  {
    var f := EndsOf(s);
    forall k: nat {:trigger ValueGoes(s, f, k)}
      ensures ValueGoes(s, f, k)
    {
      ValueSkips(s, k);
    }
    forall i: nat, b {:trigger MembersGo(s, f, i, b)} | i <= |s|
      ensures MembersGo(s, f, i, b)
    {
      MembersSkip(s, i, b);
    }
    forall i: nat {:trigger ItemsGo(s, f, i)} | i <= |s|
      ensures ItemsGo(s, f, i)
    {
      ItemsSkip(s, i);
    }
  }

  predicate Begins(s: string, k: nat) {
    k < |s| && !IsSpace(s[k])
  }

  /** The values that are skipped, marked out by the positions of their tokens: a number may be any loose one, the
      empty one included, so that commas in an array need nothing between or behind them. */
  predicate LooseValue(s: string, k: nat, v: Span)
    decreases v
  {
    match v
    case Word(end) => end < |s| && Letters(s, k) == end && WordAt(s, k, end)
    case Text(end) => k + 2 <= end && CharAt(s, k, '"') && StringBody(s, k + 1, end - 1) && CharAt(s, end - 1, '"')
    case Number(whole, frac, end) => Other(s, k) && LooseAt(s, k, whole, frac, end) && end < |s|
    case Object(ms, end) => CharAt(s, k, '{') && end == Closing(ms) + 1 && LooseMembers(s, k + 1, ms)
    case Array(es, end) => CharAt(s, k, '[') && end == Stopping(es) + 1 && LooseItems(s, k + 1, es)
  }

  /** Neither a word nor a string, an object or an array begins here. */
  predicate Other(s: string, k: nat) {
    Begins(s, k) && s[k] != '"' && s[k] != '{' && s[k] != '[' && !IsWord(s, k)
  }

  predicate LooseMembers(s: string, i: nat, ms: Members)
    decreases ms, 0
  {
    match ms
    case Close(at) => Blank(s, i, at) && CharAt(s, at, '}')
    case Member(open, close, colon, from, value, comma, rest) =>
      KeyAt(s, i, open, close, colon, from) && LooseValue(s, from, value) && MoreMembers(s, value.end, comma, rest)
  }

  /** A key and its colon, with the whitespace around them. */
  predicate KeyAt(s: string, i: nat, open: nat, close: nat, colon: nat, from: nat) {
    && Blank(s, i, open) && CharAt(s, open, '"') && open < close && StringBody(s, open + 1, close)
    && CharAt(s, close, '"') && Blank(s, close + 1, colon) && CharAt(s, colon, ':')
    && Blank(s, colon + 1, from) && Begins(s, from)
  }

  /** The comma behind a member and the others, or the closing brace. */
  predicate MoreMembers(s: string, i: nat, comma: nat, rest: Members)
    decreases rest, 1
  {
    if rest.Close? then LooseMembers(s, i, rest)
    else Blank(s, i, comma) && CharAt(s, comma, ',') && LooseMembers(s, comma + 1, rest)
  }

  predicate LooseItems(s: string, i: nat, es: Items)
    decreases es, 0
  {
    match es
    case Stop(at) => Blank(s, i, at) && CharAt(s, at, ']')
    case Item(from, value, comma, rest) =>
      Blank(s, i, from) && Begins(s, from) && LooseValue(s, from, value) && MoreItems(s, value.end, comma, rest)
  }

  predicate MoreItems(s: string, i: nat, comma: nat, rest: Items)
    decreases rest, 1
  {
    if rest.Stop? then LooseItems(s, i, rest)
    else Blank(s, i, comma) && CharAt(s, comma, ',') && LooseItems(s, comma + 1, rest)
  }

  /** Every well-formed value with a delimiter behind it is among them. */
  lemma {:induction false} WellFormedIsLoose(s: string, k: nat, v: Span)
    requires ValueAt(s, k, v) && Delimited(s, v)
    ensures LooseValue(s, k, v)
    decreases v
  {
    FirstChar(s, k, v);
    match v
    case Word(end) => WordLetters(s, k, end);
    case Text(end) =>
    case Number(whole, frac, end) =>
      NumberIsLoose(s, k, whole, frac, end);
      NoLetters(s, k);
    case Object(ms, end) => MembersAreLoose(s, k + 1, ms);
    case Array(es, end) => ItemsAreLoose(s, k + 1, es);
  }

  lemma NoLetters(s: string, k: nat)
    requires k < |s| && !IsAlpha(s[k])
    ensures Letters(s, k) == k && !IsWord(s, k)
  {
    assert s[k..k] == "";
  }

  lemma {:induction false} MembersAreLoose(s: string, i: nat, ms: Members)
    requires MembersAt(s, i, ms)
    ensures LooseMembers(s, i, ms)
    decreases ms
  {
    if ms.Member? {
      MemberDelimited(s, i, ms);
      FirstChar(s, ms.from, ms.value);
      WellFormedIsLoose(s, ms.from, ms.value);
      MembersAreLoose(s, if ms.rest.Close? then ms.value.end else ms.comma + 1, ms.rest);
    }
  }

  lemma {:induction false} ItemsAreLoose(s: string, i: nat, es: Items)
    requires ItemsAt(s, i, es)
    ensures LooseItems(s, i, es)
    decreases es
  {
    if es.Item? {
      ItemDelimited(s, i, es);
      FirstChar(s, es.from, es.value);
      WellFormedIsLoose(s, es.from, es.value);
      ItemsAreLoose(s, if es.rest.Stop? then es.value.end else es.comma + 1, es.rest);
    }
  }

  /** The skipping ends where such a value ends. */
  lemma {:induction false} LooseEnds(s: string, f: Ends, k: nat, v: Span)
    requires Skips(s, f) && LooseValue(s, k, v) && Begins(s, k)
    ensures f.value(k) == Some(v.end)
    decreases v
  {
    assert ValueGoes(s, f, k);
    match v
    case Word(end) =>
    case Text(end) => TextEnds(s, f, k, end);
    case Number(whole, frac, end) => NumberEnds(s, f, k, whole, frac, end);
    case Object(ms, end) =>
      NoLetters(s, k);
      MembersEnds(s, f, k + 1, ms, true);
    case Array(es, end) =>
      NoLetters(s, k);
      ItemsEnds(s, f, k + 1, es);
  }

  lemma TextEnds(s: string, f: Ends, k: nat, end: nat)
    requires Skips(s, f) && LooseValue(s, k, Text(end))
    ensures f.value(k) == Some(end)
  {
    assert ValueGoes(s, f, k);
    BodyToQuote(s, k + 1, end - 1);
    NoLetters(s, k);
  }

  lemma NumberEnds(s: string, f: Ends, k: nat, whole: nat, frac: nat, end: nat)
    requires Skips(s, f) && LooseValue(s, k, Number(whole, frac, end))
    ensures f.value(k) == Some(end)
  {
    assert ValueGoes(s, f, k);
    NumberEndIsLoose(s, k);
    LooseUnique(s, k, whole, frac, end, WholeEnd(s, k), FracEnd(s, k), NumberEnd(s, k));
  }

  lemma {:induction false} MembersEnds(s: string, f: Ends, i: nat, ms: Members, first: bool)
    requires Skips(s, f) && i <= |s| && LooseMembers(s, i, ms) && (ms.Close? ==> first)
    ensures f.members(i, first) == Some(Closing(ms) + 1)
    decreases ms, 1
  {
    if ms.Close? {
      BlanksTo(s, i, ms.at);
      assert MembersGo(s, f, i, first);
    } else {
      LooseEnds(s, f, ms.from, ms.value);
      MemberEnds(s, f, ms.value.end, ms.comma, ms.rest);
      MembersStep(s, f, i, first, ms.open, ms.close, ms.colon, ms.from);
    }
  }

  lemma MembersStep(s: string, f: Ends, i: nat, first: bool, open: nat, close: nat, colon: nat, from: nat)
    requires Skips(s, f) && i <= |s| && KeyAt(s, i, open, close, colon, from)
    ensures f.members(i, first) == MembersFrom(s, f, f.value(from))
  {
    KeyEnds(s, i, open, close, colon, from);
    assert MembersGo(s, f, i, first);
  }

  lemma KeyEnds(s: string, i: nat, open: nat, close: nat, colon: nat, from: nat)
    requires KeyAt(s, i, open, close, colon, from)
    ensures CharAt(s, Blanks(s, i), '"') && KeyEnd(s, i) == Some(colon + 1) && Blanks(s, colon + 1) == from
  {
    BlanksTo(s, i, open);
    BodyToQuote(s, open + 1, close);
    ColonEnds(s, close, colon, from);
  }

  lemma ColonEnds(s: string, close: nat, colon: nat, from: nat)
    requires Blank(s, close + 1, colon) && CharAt(s, colon, ':') && Blank(s, colon + 1, from) && Begins(s, from)
    ensures Blanks(s, close + 1) == colon && Blanks(s, colon + 1) == from
  {
    BlanksTo(s, close + 1, colon);
    BlanksTo(s, colon + 1, from);
  }

  /** What stands behind the value of a member. */
  lemma {:induction false} MemberEnds(s: string, f: Ends, i: nat, comma: nat, rest: Members)
    requires Skips(s, f) && i <= |s| && MoreMembers(s, i, comma, rest)
    ensures MembersFrom(s, f, Some(i)) == Some(Closing(rest) + 1)
    decreases rest, 2
  {
    if rest.Close? {
      BlanksTo(s, i, rest.at);
    } else {
      BlanksTo(s, i, comma);
      MembersEnds(s, f, comma + 1, rest, false);
    }
  }

  lemma {:induction false} ItemsEnds(s: string, f: Ends, i: nat, es: Items)
    requires Skips(s, f) && i <= |s| && LooseItems(s, i, es)
    ensures f.items(i) == Some(Stopping(es) + 1)
    decreases es, 1
  {
    assert ItemsGo(s, f, i);
    if es.Stop? {
      BlanksTo(s, i, es.at);
      BlanksTo(s, es.at, es.at);
      NothingAtBracket(s, f, es.at);
    } else {
      BlanksTo(s, i, es.from);
      LooseEnds(s, f, es.from, es.value);
      ItemEnds(s, f, es.value.end, es.comma, es.rest);
    }
  }

  /** In front of a closing bracket stands the empty number. */
  lemma NothingAtBracket(s: string, f: Ends, k: nat)
    requires Skips(s, f) && CharAt(s, k, ']')
    ensures f.value(k) == Some(k)
  {
    assert ValueGoes(s, f, k);
    NoLetters(s, k);
  }

  /** What stands behind an item. */
  lemma {:induction false} ItemEnds(s: string, f: Ends, i: nat, comma: nat, rest: Items)
    requires Skips(s, f) && i <= |s| && MoreItems(s, i, comma, rest)
    ensures ItemsFrom(s, f, Some(i)) == Some(Stopping(rest) + 1)
    decreases rest, 2
  {
    if rest.Stop? {
      BlanksTo(s, i, rest.at);
    } else {
      BlanksTo(s, i, comma);
      ItemsEnds(s, f, comma + 1, rest);
    }
  }

  /** Whatever is skipped is such a value. */
  lemma {:induction false} EndIsLoose(s: string, f: Ends, k: nat) returns (v: Span)
    requires Skips(s, f) && Begins(s, k) && f.value(k).Some?
    ensures LooseValue(s, k, v) && v.end == f.value(k).value
    decreases |s| - k, 0
  {
    assert ValueGoes(s, f, k);
    if IsWord(s, k) {
      v := Word(Letters(s, k));
    } else if s[k] == '"' {
      v := TextIsLoose(s, k);
    } else if s[k] == '{' {
      var ms := MembersEndIsLoose(s, f, k + 1, true);
      v := Object(ms, Closing(ms) + 1);
    } else if s[k] == '[' {
      var es := ItemsEndIsLoose(s, f, k + 1);
      v := Array(es, Stopping(es) + 1);
    } else {
      NumberEndIsLoose(s, k);
      v := Number(WholeEnd(s, k), FracEnd(s, k), NumberEnd(s, k));
    }
  }

  lemma TextIsLoose(s: string, k: nat) returns (v: Span)
    requires CharAt(s, k, '"') && QuoteFrom(s, k + 1) < |s|
    ensures LooseValue(s, k, v) && v.end == QuoteFrom(s, k + 1) + 1
  {
    var q := QuoteFrom(s, k + 1);
    BodyToQuote(s, k + 1, q);
    v := Text(q + 1);
  }

  lemma {:induction false} MembersEndIsLoose(s: string, f: Ends, i: nat, first: bool) returns (ms: Members)
    requires Skips(s, f) && i <= |s| && f.members(i, first).Some?
    ensures LooseMembers(s, i, ms) && Closing(ms) + 1 == f.members(i, first).value && (ms.Close? ==> first)
    decreases |s| - i, 2
  {
    assert MembersGo(s, f, i, first);
    if first && CharAt(s, Blanks(s, i), '}') {
      ms := Close(Blanks(s, i));
    } else {
      ms := MemberIsLoose(s, f, i);
    }
  }

  lemma {:induction false} MemberIsLoose(s: string, f: Ends, i: nat) returns (ms: Members)
    requires Skips(s, f) && i <= |s| && KeyEnd(s, i).Some?
    requires MembersFrom(s, f, f.value(Blanks(s, KeyEnd(s, i).value))).Some?
    ensures LooseMembers(s, i, ms) && ms.Member?
    ensures Some(Closing(ms) + 1) == MembersFrom(s, f, f.value(Blanks(s, KeyEnd(s, i).value)))
    decreases |s| - i, 1
  {
    var open, close, colon, from := KeyIsThere(s, i);
    var v := EndIsLoose(s, f, from);
    var m, rest := MembersFromIsLoose(s, f, v.end);
    ms := Member(open, close, colon, from, v, m, rest);
  }

  lemma KeyIsThere(s: string, i: nat) returns (open: nat, close: nat, colon: nat, from: nat)
    requires i <= |s| && KeyEnd(s, i).Some? && Blanks(s, KeyEnd(s, i).value) < |s|
    ensures KeyAt(s, i, open, close, colon, from) && i < from == Blanks(s, KeyEnd(s, i).value)
  {
    open := Blanks(s, i);
    close := QuoteFrom(s, open + 1);
    colon := Blanks(s, close + 1);
    from := Blanks(s, colon + 1);
    BodyToQuote(s, open + 1, close);
  }

  lemma {:induction false} MembersFromIsLoose(s: string, f: Ends, i: nat) returns (m: nat, rest: Members)
    requires Skips(s, f) && i <= |s| && MembersFrom(s, f, Some(i)).Some?
    ensures MoreMembers(s, i, m, rest)
    ensures Closing(rest) + 1 == MembersFrom(s, f, Some(i)).value
    decreases |s| - i, 1
  {
    m := Blanks(s, i);
    if CharAt(s, m, ',') {
      rest := MembersEndIsLoose(s, f, m + 1, false);
    } else {
      rest := Close(m);
    }
  }

  lemma {:induction false} ItemsEndIsLoose(s: string, f: Ends, i: nat) returns (es: Items)
    requires Skips(s, f) && i <= |s| && f.items(i).Some?
    ensures LooseItems(s, i, es) && Stopping(es) + 1 == f.items(i).value && es.Item?
    decreases |s| - i, 2
  {
    assert ItemsGo(s, f, i);
    var from := Blanks(s, i);
    var v := EndIsLoose(s, f, from);
    var m, rest := ItemsFromIsLoose(s, f, v.end);
    es := Item(from, v, m, rest);
  }

  lemma {:induction false} ItemsFromIsLoose(s: string, f: Ends, i: nat) returns (m: nat, rest: Items)
    requires Skips(s, f) && i <= |s| && ItemsFrom(s, f, Some(i)).Some?
    ensures MoreItems(s, i, m, rest)
    ensures Stopping(rest) + 1 == ItemsFrom(s, f, Some(i)).value
    decreases |s| - i, 1
  {
    m := Blanks(s, i);
    if CharAt(s, m, ',') {
      rest := ItemsEndIsLoose(s, f, m + 1);
    } else {
      rest := Stop(m);
    }
  }

  /** A value is skipped if and only if a loose one begins, and up to its end. */
  lemma SkippedExactly(s: string, k: nat)
    requires Begins(s, k)
    ensures ValueEnd(s, k).Some? <==> exists v :: LooseValue(s, k, v)
    ensures forall v :: LooseValue(s, k, v) ==> ValueEnd(s, k) == Some(v.end)
  {
    var f := EndsOf(s);
    EndsSkip(s);
    forall v | LooseValue(s, k, v)
      ensures ValueEnd(s, k) == Some(v.end)
    {
      LooseEnds(s, f, k, v);
    }
    if f.value(k).Some? {
      var v := EndIsLoose(s, f, k);
      assert exists w :: LooseValue(s, k, w);
    } else if v :| LooseValue(s, k, v) {
      LooseEnds(s, f, k, v);
    }
  }
}
