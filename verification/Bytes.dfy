/** Byte strings of `src/bytes.c` with their terminating NUL, and the escaping of JSON strings. */
module Bytes {
  const NUL: char := '\0'
  const BACKSPACE: char := '\U{8}'
  const FORMFEED: char := '\U{C}'

  /** The letter that stands for a character behind a backslash; characters that need none stand for themselves. */
  function Letter(c: char): char {
    if c == BACKSPACE then 'b'
    else if c == FORMFEED then 'f'
    else if c == '\n' then 'n'
    else if c == '\r' then 'r'
    else if c == '\t' then 't'
    else c
  }

  predicate IsEscaped(c: char) {
    c == '\\' || c == '"' || c == '/' || Letter(c) != c
  }

  /** The character that a letter behind a backslash stands for. */
  function Meaning(c: char): char {
    if c == 'b' then BACKSPACE
    else if c == 'f' then FORMFEED
    else if c == 'n' then '\n'
    else if c == 'r' then '\r'
    else if c == 't' then '\t'
    else c
  }

  function EscapedChar(c: char): string {
    if IsEscaped(c) then ['\\', Letter(c)] else [c]
  }

  /** The first `n` characters, escaped. */
  function EscapeTo(s: string, n: nat): string
    requires n <= |s|
    decreases n
  {
    if n == 0 then "" else EscapeTo(s, n - 1) + EscapedChar(s[n - 1])
  }

  function Escape(s: string): string {
    EscapeTo(s, |s|)
  }

  /** The characters from index `i` on with the escapes resolved; a backslash at the very end is dropped. */
  function UnescapeFrom(s: string, i: nat): string
    requires i <= |s|
    decreases |s| - i
  {
    if i == |s| then ""
    else if s[i] != '\\' then [s[i]] + UnescapeFrom(s, i + 1)
    else if i + 1 == |s| then ""
    else [Meaning(s[i + 1])] + UnescapeFrom(s, i + 2)
  }

  function Unescape(s: string): string {
    UnescapeFrom(s, 0)
  }

  /** The escapes of section 7 of RFC 7159 that are written; the solidus is escaped as well. */
  lemma EscapeTable()
    ensures Escape("\"") == "\\\"" && Escape("\\") == "\\\\" && Escape("/") == "\\/"
    ensures Escape("\U{08}") == "\\b" && Escape("\U{0C}") == "\\f"
    ensures Escape("\n") == "\\n" && Escape("\r") == "\\r" && Escape("\t") == "\\t"
    ensures forall c :: c !in "\"\\/\U{08}\U{0C}\n\r\t" ==> Escape([c]) == [c]
  {
    EscapeSingle('"');
    EscapeSingle('\\');
    EscapeSingle('/');
    EscapeSingle(BACKSPACE);
    EscapeSingle(FORMFEED);
    EscapeSingle('\n');
    EscapeSingle('\r');
    EscapeSingle('\t');
    forall c | c !in "\"\\/\U{08}\U{0C}\n\r\t"
      ensures Escape([c]) == [c]
    {
      EscapeSingle(c);
      Unlisted(c);
    }
  }

  lemma EscapeSingle(c: char)
    ensures Escape([c]) == EscapedChar(c)
  {
    assert EscapeTo([c], 1) == EscapeTo([c], 0) + EscapedChar(c);
  }

  lemma Unlisted(c: char)
    requires c !in "\"\\/\U{08}\U{0C}\n\r\t"
    ensures !IsEscaped(c)
  {
    var listed := "\"\\/\U{08}\U{0C}\n\r\t";
    assert listed[0] == '"' && listed[1] == '\\' && listed[2] == '/' && listed[3] == BACKSPACE;
    assert listed[4] == FORMFEED && listed[5] == '\n' && listed[6] == '\r' && listed[7] == '\t';
  }

  /** The escapes that are read: any other character behind a backslash stands for itself, and a backslash with
      nothing behind it for nothing. */
  lemma UnescapeTable()
    ensures Unescape("\\b") == "\U{08}" && Unescape("\\f") == "\U{0C}"
    ensures Unescape("\\n") == "\n" && Unescape("\\r") == "\r" && Unescape("\\t") == "\t"
    ensures forall c :: c !in "bfnrt" ==> Unescape(['\\', c]) == [c]
    ensures forall c :: c != '\\' ==> Unescape([c]) == [c]
    ensures Unescape("\\") == ""
  {
    UnescapePair('b');
    UnescapePair('f');
    UnescapePair('n');
    UnescapePair('r');
    UnescapePair('t');
    forall c | c !in "bfnrt"
      ensures Unescape(['\\', c]) == [c]
    {
      UnescapePair(c);
      PlainLetter(c);
    }
    forall c | c != '\\'
      ensures Unescape([c]) == [c]
    {
      UnescapeSingle(c);
    }
  }

  lemma PlainLetter(c: char)
    requires c !in "bfnrt"
    ensures Meaning(c) == c
  {
    var letters := "bfnrt";
    assert letters[0] == 'b' && letters[1] == 'f' && letters[2] == 'n' && letters[3] == 'r' && letters[4] == 't';
  }

  lemma UnescapeSingle(c: char)
    requires c != '\\'
    ensures Unescape([c]) == [c]
  {
    assert UnescapeFrom([c], 1) == "";
  }

  lemma UnescapePair(c: char)
    ensures Unescape(['\\', c]) == [Meaning(c)]
  {
    assert UnescapeFrom(['\\', c], 2) == "";
  }

  lemma {:induction false} EscapeBehind(a: string, b: string, n: nat)
    requires n <= |b|
    ensures EscapeTo(a + b, |a| + n) == Escape(a) + EscapeTo(b, n)
    decreases n
  {
    if n == 0 {
      EscapePrefix(a + b, a, |a|);
    } else {
      EscapeBehind(a, b, n - 1);
      EscapeNext(a + b, |a| + n - 1);
      EscapeNext(b, n - 1);
      assert (a + b)[|a| + n - 1] == b[n - 1];
      Associate(Escape(a), EscapeTo(b, n - 1), EscapedChar(b[n - 1]));
    }
  }

  lemma EscapeNext(s: string, n: nat)
    requires n < |s|
    ensures EscapeTo(s, n + 1) == EscapeTo(s, n) + EscapedChar(s[n])
  {
  }

  lemma Associate(a: string, b: string, c: string)
    ensures (a + b) + c == a + (b + c)
  {
  }

  /** A text is escaped piece by piece. */
  lemma EscapeConcat(a: string, b: string)
    ensures Escape(a + b) == Escape(a) + Escape(b)
  {
    EscapeBehind(a, b, |b|);
  }

  /** From `i` on no backslash is the last character of an escape that is cut off. */
  predicate Whole(s: string, i: nat)
    decreases |s| - i
  {
    if i >= |s| then i == |s| else if s[i] == '\\' then Whole(s, i + 2) else Whole(s, i + 1)
  }

  lemma {:induction false} UnescapeShift(a: string, b: string, i: nat)
    requires i <= |b|
    ensures UnescapeFrom(a + b, |a| + i) == UnescapeFrom(b, i)
    decreases |b| - i
  {
    if i < |b| {
      assert (a + b)[|a| + i] == b[i];
      if b[i] != '\\' {
        UnescapeShift(a, b, i + 1);
      } else if i + 1 < |b| {
        UnescapeShift(a, b, i + 2);
        assert (a + b)[|a| + i + 1] == b[i + 1];
      }
    }
  }

  /** The inside of a string token from index `k` up to `e`: no bare quote, every backslash has a character after it. */
  predicate StringBody(s: string, k: nat, e: nat)
    decreases e - k
  {
    if k >= e || e > |s| then k == e
    else if s[k] == '"' then false
    else if s[k] == '\\' then k + 2 <= e && StringBody(s, k + 2, e)
    else StringBody(s, k + 1, e)
  }

  /** The first quote from `k` on that no backslash escapes; the end of the text when there is none. */
  function QuoteFrom(s: string, k: nat): (q: nat)
    ensures k <= |s| ==> k <= q <= |s|
    ensures q < |s| ==> s[q] == '"'
    decreases |s| - k
  {
    if k >= |s| then |s|
    else if s[k] == '"' then k
    else if s[k] == '\\' && k + 1 < |s| then QuoteFrom(s, k + 2)
    else QuoteFrom(s, k + 1)
  }

  /** That quote is where the inside of a string token ends. */
  lemma {:induction false} BodyToQuote(s: string, k: nat, e: nat)
    requires k <= |s| && e < |s|
    ensures StringBody(s, k, e) && s[e] == '"' <==> QuoteFrom(s, k) == e
    decreases |s| - k
  {
    if k < e && s[k] != '"' {
      if s[k] != '\\' {
        BodyToQuote(s, k + 1, e);
      } else if k + 1 < |s| {
        BodyToQuote(s, k + 2, e);
      }
    }
  }

  /** What is escaped first comes first. */
  lemma {:induction false} EscapeGrows(s: string, n: nat, m: nat)
    requires n <= m <= |s|
    ensures EscapeTo(s, n) <= EscapeTo(s, m)
    decreases m
  {
    if n < m {
      EscapeGrows(s, n, m - 1);
    }
  }

  /** The escape of a character stands in the escape of the text, between those of its neighbours. */
  lemma EscapeStands(s: string, n: nat)
    requires n < |s|
    ensures |EscapeTo(s, n + 1)| == |EscapeTo(s, n)| + |EscapedChar(s[n])| <= |Escape(s)|
    ensures Escape(s)[|EscapeTo(s, n)|] == EscapedChar(s[n])[0]
    ensures IsEscaped(s[n]) ==> Escape(s)[|EscapeTo(s, n)| + 1] == Letter(s[n])
  {
    EscapeGrows(s, n + 1, |s|);
    assert EscapeTo(s, n + 1) == EscapeTo(s, n) + EscapedChar(s[n]);
  }

  /** What is left of a text with the escapes resolved, as a function of the index. */
  ghost function ResolvedFrom(s: string): nat -> string {
    (i: nat) => if i <= |s| then UnescapeFrom(s, i) else ""
  }

  /** The next character and where the one after it stands. */
  ghost predicate ResolvesAt(s: string, f: nat -> string, i: nat) {
    && i < |s|
    && (s[i] != '\\' ==> f(i) == [s[i]] + f(i + 1))
    && (s[i] == '\\' ==> f(i) == if i + 1 < |s| then [Meaning(s[i + 1])] + f(i + 2) else "")
  }

  ghost predicate Resolving(s: string, f: nat -> string) {
    f(|s|) == "" && forall i: nat {:trigger ResolvesAt(s, f, i)} :: i < |s| ==> ResolvesAt(s, f, i)
  }

  lemma UnescapeResolves(s: string)
    ensures Resolving(s, ResolvedFrom(s)) && ResolvedFrom(s)(0) == Unescape(s)
  {
  }

  /** What is resolved of two texts is what is resolved of the first and then of the second. */
  lemma {:induction false} ResolvesApart(a: string, b: string, f: nat -> string, g: nat -> string, i: nat)
    requires Whole(a, i) && Resolving(a + b, f) && Resolving(a, g)
    ensures f(i) == g(i) + f(|a|)
    decreases |a| - i
  {
    if i < |a| {
      assert ResolvesAt(a + b, f, i) && ResolvesAt(a, g, i) && (a + b)[i] == a[i];
      if a[i] != '\\' {
        ResolvesApart(a, b, f, g, i + 1);
        Associate([a[i]], g(i + 1), f(|a|));
      } else {
        ResolvesApart(a, b, f, g, i + 2);
        assert (a + b)[i + 1] == a[i + 1];
        Associate([Meaning(a[i + 1])], g(i + 2), f(|a|));
      }
    }
  }

  /** Escapes are resolved piece by piece, when no escape is cut in two. */
  lemma UnescapeConcat(a: string, b: string)
    requires Whole(a, 0)
    ensures Unescape(a + b) == Unescape(a) + Unescape(b)
  {
    UnescapeResolves(a + b);
    UnescapeResolves(a);
    ResolvesApart(a, b, ResolvedFrom(a + b), ResolvedFrom(a), 0);
    UnescapeShift(a, b, 0);
  }

  lemma ResolveStep(s: string, f: nat -> string, i: nat, done: string)
    requires Resolving(s, f) && i < |s|
    ensures s[i] != '\\' ==> done + f(i) == (done + [s[i]]) + f(i + 1)
    ensures s[i] == '\\' && i + 1 < |s| ==> done + f(i) == (done + [Meaning(s[i + 1])]) + f(i + 2)
  {
    assert ResolvesAt(s, f, i);
  }

  /** The escape of one character resolves to that character and is not cut off. */
  lemma UnescapeOne(c: char)
    ensures Unescape(EscapedChar(c)) == [c] && Whole(EscapedChar(c), 0)
  {
    if IsEscaped(c) {
      UnescapePair(Letter(c));
    } else {
      UnescapeSingle(c);
    }
  }

  /** Escaping and resolving the escapes gives back the text. */
  lemma {:induction false} UnescapeEscape(s: string)
    ensures Unescape(Escape(s)) == s
  {
    if s != "" {
      assert s == s[..1] + s[1..];
      EscapeConcat(s[..1], s[1..]);
      EscapeSingle(s[0]);
      UnescapeOne(s[0]);
      UnescapeConcat(EscapedChar(s[0]), Escape(s[1..]));
      UnescapeEscape(s[1..]);
    }
  }

  /** Without a backslash there is nothing to resolve. */
  lemma {:induction false} UnescapePlain(s: string, i: nat)
    requires i <= |s| && forall k :: i <= k < |s| ==> s[k] != '\\'
    ensures UnescapeFrom(s, i) == s[i..]
    decreases |s| - i
  {
    if i < |s| {
      UnescapePlain(s, i + 1);
    }
  }

  /** Quotes come only behind a backslash, so the escaped text, standing at `k`, is the inside of a string token. */
  lemma {:induction false} EscapeIsBody(s: string, n: nat, t: string, k: nat)
    requires n <= |s| && k + |Escape(s)| <= |t| && forall j :: 0 <= j < |Escape(s)| ==> t[k + j] == Escape(s)[j]
    ensures |EscapeTo(s, n)| <= |Escape(s)| && StringBody(t, k + |EscapeTo(s, n)|, k + |Escape(s)|)
    decreases |s| - n
  {
    if n < |s| {
      EscapeStands(s, n);
      EscapeIsBody(s, n + 1, t, k);
      var p := |EscapeTo(s, n)|;
      assert t[k + p] == Escape(s)[p];
    }
  }

  lemma Reassociate(c: char, rest: string)
    ensures [c] + rest + [NUL] == [c] + (rest + [NUL])
  {
  }

  /** The terminator is kept, even behind a lone backslash. */
  lemma {:induction false} UnescapeTerminated(s: string, t: string, f: nat -> string, g: nat -> string, i: nat)
    requires |s| == |t| + 1 && s[|t|] == NUL && s[..|t|] == t && i <= |t|
    requires Resolving(s, f) && Resolving(t, g)
    ensures f(i) == g(i) + [NUL]
    decreases |t| - i
  {
    assert ResolvesAt(s, f, i);
    if i < |t| {
      assert ResolvesAt(t, g, i) && s[i] == t[i];
      if s[i] != '\\' {
        UnescapeTerminated(s, t, f, g, i + 1);
        Reassociate(s[i], g(i + 1));
      } else if i + 1 < |t| {
        UnescapeTerminated(s, t, f, g, i + 2);
        Reassociate(Meaning(s[i + 1]), g(i + 2));
      }
    }
  }

  class Bytes {
    var data: array<char>
    var sz: nat

    /** A terminated byte string. */
    ghost predicate Valid()
      reads this, data
    {
      0 < sz <= data.Length && data[sz - 1] == NUL
    }

    /** The bytes before the terminator. */
    ghost function Text(): string
      reads this, data
      requires Valid()
    {
      data[..sz - 1]
    }

    /** `bytes_new` */
    constructor (size: nat)
      ensures fresh(data) && data.Length == size && sz == size
    {
      data := new char[size];
      sz := size;
    }

    /** Writes one character at `j`, behind a backslash when it needs one. */
    method PutEscaped(c: char, j: nat) returns (n: nat)
      requires j + 2 <= data.Length
      modifies data
      ensures n == j + |EscapedChar(c)| <= j + 2 && data[..n] == old(data[..j]) + EscapedChar(c)
    {
      n := j;
      var escaped, ch := EscapeOf(c);
      if escaped {
        data[n] := '\\';
        n := n + 1;
      }
      data[n] := ch;
      n := n + 1;
    }

    /** The loop of `bytes_json_escape`. */
    method EscapeInto(dest: Bytes) returns (j: nat)
      requires sz <= data.Length && dest.data.Length == 2 * sz && dest.data != data
      modifies dest.data
      ensures j <= dest.data.Length && dest.data[..j] == Escape(data[..sz])
    {
      ghost var s, out := data[..sz], "";
      var i := 0;
      j := 0;
      while i < sz
        invariant 0 <= i <= sz && j <= 2 * i && data[..sz] == s
        invariant out == EscapeTo(s, i) && dest.data[..j] == out
      {
        j := dest.PutEscaped(data[i], j);
        out := out + EscapedChar(s[i]);
        i := i + 1;
      }
    }

    /** `bytes_json_escape` */
    method JsonEscape() returns (dest: Bytes)
      requires Valid()
      ensures fresh(dest) && fresh(dest.data) && dest.Valid() && dest.Text() == Escape(Text())
    {
      ghost var s, t := data[..sz], Text();
      EscapeLast(s, t);
      dest := new Bytes(sz * 2);
      var j := EscapeInto(dest);
      dest.data[j - 1] := NUL;
      dest.sz := j;
    }

    method PutPlain(c: char, j: nat)
      requires j < data.Length
      modifies data
      ensures data[..j + 1] == old(data[..j]) + [c] && forall k :: j < k < data.Length ==> data[k] == old(data[k])
    {
      data[j] := c;
    }

    /** The loop of `bytes_json_unescape`; `f` tells what is left to write from each index on. */
    method UnescapeInPlace(ghost f: nat -> string) returns (j: nat)
      requires 0 < sz <= data.Length && data[sz - 1] == NUL && Resolving(data[..sz], f)
      modifies data
      ensures 0 < j <= sz && data[..j] == old(f(0))
    {
      ghost var s, out := data[..sz], "";
      var i := 0;
      j := 0;
      while i < sz
        invariant 0 <= j <= i <= sz == |s| && data[..j] == out
        invariant forall k :: i <= k < sz ==> data[k] == s[k]
        invariant out + f(i) == f(0) && (i == 0 || j > 0)
        decreases sz - i
      {
        var ch := data[i];
        ResolveStep(s, f, i, out);
        if ch == '\\' {
          i := i + 1;
          if i < sz {
            ch := Resolve(data[i]);
          } else {
            break;
          }
        }
        PutPlain(ch, j);
        i, j := i + 1, j + 1;
        out := out + [ch];
      }
    }

    /** `bytes_json_unescape`, in place: the write index never passes the read index. */
    method JsonUnescape()
      requires Valid()
      modifies this, data
      ensures data == old(data) && Valid() && Text() == Unescape(old(Text()))
    {
      ghost var s, t := data[..sz], Text();
      UnescapeResolves(s);
      UnescapeResolves(t);
      UnescapeTerminated(s, t, ResolvedFrom(s), ResolvedFrom(t), 0);
      var j := UnescapeInPlace(ResolvedFrom(s));
      data[j - 1] := NUL;
      sz := j;
    }
  }

  /** The chain of comparisons in `bytes_json_escape`. */
  method EscapeOf(c: char) returns (escaped: bool, ch: char)
    ensures escaped == IsEscaped(c) && ch == Letter(c)
    ensures escaped ==> Meaning(ch) == c
    ensures !escaped ==> ch == c && c != '\\' && c != '"'
  {
    escaped, ch := true, c;
    if ch == '\\' || ch == '"' || ch == '/' {
    } else if ch == BACKSPACE {
      ch := 'b';
    } else if ch == FORMFEED {
      ch := 'f';
    } else if ch == '\n' {
      ch := 'n';
    } else if ch == '\r' {
      ch := 'r';
    } else if ch == '\t' {
      ch := 't';
    } else {
      escaped := false;
    }
  }

  /** The chain of comparisons in `bytes_json_unescape`. */
  method Resolve(letter: char) returns (ch: char)
    ensures ch == Meaning(letter)
    ensures forall c :: IsEscaped(c) && Letter(c) == letter ==> ch == c
  {
    ch := letter;
    if ch == 'b' {
      ch := BACKSPACE;
    } else if ch == 'f' {
      ch := FORMFEED;
    } else if ch == 'n' {
      ch := '\n';
    } else if ch == 'r' {
      ch := '\r';
    } else if ch == 't' {
      ch := '\t';
    }
  }

  /** The terminator comes last in the escaped text as well. */
  lemma EscapeLast(s: string, t: string)
    requires |s| == |t| + 1 && s[|t|] == NUL && s[..|t|] == t
    ensures Escape(s) == Escape(t) + [NUL]
  {
    EscapePrefix(s, t, |t|);
  }

  lemma {:induction false} EscapePrefix(s: string, t: string, n: nat)
    requires n <= |t| <= |s| && s[..|t|] == t
    ensures EscapeTo(s, n) == EscapeTo(t, n)
    decreases n
  {
    if n > 0 {
      EscapePrefix(s, t, n - 1);
      assert s[n - 1] == t[n - 1];
    }
  }
}
