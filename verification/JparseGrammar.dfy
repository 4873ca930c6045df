/** Well-formed values of RFC 7159, marked out in a text by the positions of their tokens. */
module JparseGrammar {
  import opened Bytes

  predicate IsDigit(c: char) { '0' <= c <= '9' }

  predicate IsAlpha(c: char) { 'a' <= c <= 'z' || 'A' <= c <= 'Z' }

  predicate IsSpace(c: char) { c == ' ' || c == '\t' || c == '\r' || c == '\n' }

  /** The characters of each class. */
  lemma Classes(c: char)
    ensures IsSpace(c) <==> c in " \t\r\n"
    ensures IsDigit(c) <==> c in "0123456789"
    ensures IsAlpha(c) <==> c in "abcdefghijklmnopqrstuvwxyz" || c in "ABCDEFGHIJKLMNOPQRSTUVWXYZ"
  {
  }

  /** Where a value lies.  `Number` has the ends of the whole part, the fraction and the exponent. */
  datatype Span =
    | Word(end: nat)
    | Text(end: nat)
    | Number(whole: nat, frac: nat, end: nat)
    | Object(members: Members, end: nat)
    | Array(items: Items, end: nat)

  /** The quotes and the colon of a member, its value and the comma behind it; in the end the closing brace. */
  datatype Members = Close(at: nat)
    | Member(open: nat, close: nat, colon: nat, from: nat, value: Span, comma: nat, rest: Members)

  datatype Items = Stop(at: nat) | Item(from: nat, value: Span, comma: nat, rest: Items)

  predicate CharAt(s: string, i: nat, c: char) { i < |s| && s[i] == c }

  /** Only whitespace from `i` up to `j`. */
  predicate Blank(s: string, i: nat, j: nat) {
    i <= j <= |s| && forall k :: i <= k < j ==> IsSpace(s[k])
  }

  predicate Digits(s: string, i: nat, j: nat) {
    i < j <= |s| && forall k :: i <= k < j ==> IsDigit(s[k])
  }

  /** Section 6: an optional minus sign, the whole part, and optional fraction and exponent. */
  predicate NumberAt(s: string, i: nat, whole: nat, frac: nat, end: nat) {
    && i < whole <= frac <= end <= |s|
    && (if s[i] == '-' then Digits(s, i + 1, whole) else Digits(s, i, whole))
    && (frac > whole ==> s[whole] == '.' && Digits(s, whole + 1, frac))
    && (end > frac ==>
          && (s[frac] == 'e' || s[frac] == 'E') && frac + 1 < end
          && if s[frac + 1] == '-' || s[frac + 1] == '+' then Digits(s, frac + 2, end) else Digits(s, frac + 1, end))
  }

  predicate IsSign(c: char) { c == '+' || c == '-' }

  predicate IsExponent(c: char) { c == 'e' || c == 'E' }

  /** What the number scanner takes from `i` up to `end`: a digit or sign with digits behind it, a dot with digits
      behind it, and behind either an exponent of digits and signs; each part may be missing. */
  predicate LooseParts(s: string, i: nat, a: nat, b: nat, end: nat) {
    && i <= a <= b <= end <= |s|
    && (a > i ==> (IsDigit(s[i]) || IsSign(s[i])) && forall k :: i < k < a ==> IsDigit(s[k]))
    && (b > a ==> s[a] == '.' && forall k :: a < k < b ==> IsDigit(s[k]))
    && (end > b ==> b > i && IsExponent(s[b]) && forall k :: b < k < end ==> IsDigit(s[k]) || IsSign(s[k]))
  }

  /** The character at `end` does not go on with such a text. */
  predicate LooseStop(s: string, i: nat, a: nat, b: nat, end: nat)
    requires end <= |s|
  {
    end < |s| ==>
      && (end == i ==> !IsSign(s[end]))
      && (end == a ==> s[end] != '.')
      && (end == b && end > i ==> !IsExponent(s[end]))
      && (end > b ==> !IsSign(s[end]))
      && !IsDigit(s[end])
  }

  /** The longest text that the number scanner takes from `i` on. */
  predicate LooseAt(s: string, i: nat, a: nat, b: nat, end: nat) {
    LooseParts(s, i, a, b, end) && LooseStop(s, i, a, b, end)
  }

  /** There is only one such text. */
  lemma LooseUnique(s: string, i: nat, a: nat, b: nat, end: nat, a': nat, b': nat, end': nat)
    requires LooseAt(s, i, a, b, end) && LooseAt(s, i, a', b', end')
    ensures end == end'
  {
    assert a == a';
    assert b == b';
  }

  /** A number of section 6 in front of a delimiter is such a text. */
  lemma NumberIsLoose(s: string, i: nat, whole: nat, frac: nat, end: nat)
    requires NumberAt(s, i, whole, frac, end) && end < |s| && IsDelimiter(s[end])
    ensures LooseAt(s, i, whole, frac, end)
  {
  }

  /** Section 3: the three literal names. */
  predicate WordAt(s: string, i: nat, end: nat) {
    i <= end <= |s| && (s[i..end] == "true" || s[i..end] == "false" || s[i..end] == "null")
  }

  predicate ValueAt(s: string, i: nat, v: Span)
    decreases v
  {
    match v
    case Word(end) => WordAt(s, i, end)
    case Text(end) => i + 2 <= end && CharAt(s, i, '"') && StringBody(s, i + 1, end - 1) && CharAt(s, end - 1, '"')
    case Number(whole, frac, end) => NumberAt(s, i, whole, frac, end)
    case Object(ms, end) => CharAt(s, i, '{') && end == Closing(ms) + 1 && MembersAt(s, i + 1, ms)
    case Array(es, end) => CharAt(s, i, '[') && end == Stopping(es) + 1 && ItemsAt(s, i + 1, es)
  }

  function Closing(ms: Members): nat {
    match ms
    case Close(at) => at
    case Member(_, _, _, _, _, _, rest) => Closing(rest)
  }

  function Stopping(es: Items): nat {
    match es
    case Stop(at) => at
    case Item(_, _, _, rest) => Stopping(rest)
  }

  /** Members from `i` on, with whitespace before and after every token. */
  predicate MembersAt(s: string, i: nat, ms: Members)
    decreases ms
  {
    match ms
    case Close(at) => Blank(s, i, at) && CharAt(s, at, '}')
    case Member(open, close, colon, from, value, comma, rest) =>
      && Blank(s, i, open) && CharAt(s, open, '"') && open < close && StringBody(s, open + 1, close)
        && CharAt(s, close, '"')
      && Blank(s, close + 1, colon) && CharAt(s, colon, ':')
      && Blank(s, colon + 1, from) && from <= value.end && ValueAt(s, from, value)
      && if rest.Close? then MembersAt(s, value.end, rest)
         else Blank(s, value.end, comma) && CharAt(s, comma, ',') && MembersAt(s, comma + 1, rest)
  }

  predicate ItemsAt(s: string, i: nat, es: Items)
    decreases es
  {
    match es
    case Stop(at) => Blank(s, i, at) && CharAt(s, at, ']')
    case Item(from, value, comma, rest) =>
      && Blank(s, i, from) && from <= value.end && ValueAt(s, from, value)
      && if rest.Stop? then ItemsAt(s, value.end, rest)
         else Blank(s, value.end, comma) && CharAt(s, comma, ',') && ItemsAt(s, comma + 1, rest)
  }

  predicate IsDelimiter(c: char) { IsSpace(c) || c == ',' || c == '}' || c == ']' }

  /** The value is followed by what tells where it ends; strings, objects and arrays tell it themselves. */
  predicate Delimited(s: string, v: Span) {
    v.Word? || v.Number? ==> v.end < |s| && IsDelimiter(s[v.end])
  }

  /** The first position from `i` on that is not whitespace. */
  function Blanks(s: string, i: nat): (k: nat)
    ensures k >= i && (i <= |s| ==> Blank(s, i, k)) && (k < |s| ==> !IsSpace(s[k])) && (i > |s| ==> k == i)
    decreases |s| - i
  {
    if i < |s| && IsSpace(s[i]) then Blanks(s, i + 1) else i
  }

  /** The first position from `i` on that is not a letter. */
  function Letters(s: string, i: nat): (k: nat)
    ensures k >= i && (i <= |s| ==> k <= |s|) && (forall j :: i <= j < k ==> j < |s| && IsAlpha(s[j]))
      && (k < |s| ==> !IsAlpha(s[k]))
    decreases |s| - i
  {
    if i < |s| && IsAlpha(s[i]) then Letters(s, i + 1) else i
  }

  lemma {:induction false} BlanksTo(s: string, i: nat, k: nat)
    requires Blank(s, i, k) && k < |s| && !IsSpace(s[k])
    ensures Blanks(s, i) == k
    decreases k - i
  {
    if i < k {
      BlanksTo(s, i + 1, k);
    }
  }

  lemma {:induction false} LettersTo(s: string, i: nat, k: nat)
    requires i <= k < |s| && (forall j :: i <= j < k ==> IsAlpha(s[j])) && !IsAlpha(s[k])
    ensures Letters(s, i) == k
    decreases k - i
  {
    if i < k {
      LettersTo(s, i + 1, k);
    }
  }

  /** How a value begins. */
  lemma FirstChar(s: string, i: nat, v: Span)
    requires ValueAt(s, i, v)
    ensures i < |s| && i < v.end && !IsSpace(s[i])
    ensures v.Word? <==> IsAlpha(s[i])
    ensures v.Text? <==> s[i] == '"'
    ensures v.Object? <==> s[i] == '{'
    ensures v.Array? <==> s[i] == '['
    ensures v.Number? <==> s[i] == '-' || IsDigit(s[i])
  {
    if v.Word? {
      assert s[i..v.end][0] == s[i];
    }
    if v.Object? {
      ClosingAfter(s, i + 1, v.members);
    }
    if v.Array? {
      StoppingAfter(s, i + 1, v.items);
    }
  }

  lemma {:induction false} ClosingAfter(s: string, i: nat, ms: Members)
    requires MembersAt(s, i, ms)
    ensures i <= Closing(ms) < |s|
    decreases ms
  {
    if ms.Member? {
      ClosingAfter(s, if ms.rest.Close? then ms.value.end else ms.comma + 1, ms.rest);
    }
  }

  lemma {:induction false} StoppingAfter(s: string, i: nat, es: Items)
    requires ItemsAt(s, i, es)
    ensures i <= Stopping(es) < |s|
    decreases es
  {
    if es.Item? {
      StoppingAfter(s, if es.rest.Stop? then es.value.end else es.comma + 1, es.rest);
    }
  }

  /** A delimiter follows every value inside a container. */
  lemma MemberDelimited(s: string, i: nat, ms: Members)
    requires MembersAt(s, i, ms) && ms.Member?
    ensures Delimited(s, ms.value) && ms.value.end < |s|
  {
    if ms.rest.Close? {
      assert ms.value.end < ms.rest.at ==> IsSpace(s[ms.value.end]);
    } else {
      assert ms.value.end < ms.comma ==> IsSpace(s[ms.value.end]);
    }
  }

  lemma ItemDelimited(s: string, i: nat, es: Items)
    requires ItemsAt(s, i, es) && es.Item?
    ensures Delimited(s, es.value) && es.value.end < |s|
  {
    if es.rest.Stop? {
      assert es.value.end < es.rest.at ==> IsSpace(s[es.value.end]);
    } else {
      assert es.value.end < es.comma ==> IsSpace(s[es.value.end]);
    }
  }

  /** The letters of a literal name. */
  lemma WordLetters(s: string, i: nat, end: nat)
    requires WordAt(s, i, end) && end < |s| && IsDelimiter(s[end])
    ensures Letters(s, i) == end
  {
    var w := s[i..end];
    forall j | i <= j < end
      ensures IsAlpha(s[j])
    {
      assert s[j] == w[j - i];
    }
    LettersTo(s, i, end);
  }
}
