/** The MIME codec of `src/base64.c`, section 4 of RFC 4648. */
module Base64 {
  const PAD: bv8 := 61

  /** Table 1 of RFC 4648. */
  const ALPHABET: string := "ABCDEFGHIJKLMNOPQRSTUVWXYZ" + "abcdefghijklmnopqrstuvwxyz" + "0123456789+/"

  /** `alphabet_mime`: four copies of the alphabet, so the two upper bits of an index do not matter. */
  function Symbol(x: bv8): bv8 {
    var y := x & 0x3F;
    if y < 26 then y + 65 else if y < 52 then y + 71 else if y < 62 then y - 4 else if y == 62 then 43 else 47
  }

  /** `codes_mime` */
  function Code(c: bv8): bv8 {
    if 65 <= c <= 90 then c - 65
    else if 97 <= c <= 122 then c - 71
    else if 48 <= c <= 57 then c + 4
    else if c == 43 then 62
    else if c == 47 then 63
    else 0
  }

  function Group3(a: bv8, b: bv8, c: bv8): seq<bv8> {
    [Symbol(a >> 2), Symbol((a << 4) | (b >> 4)), Symbol((b << 2) | (c >> 6)), Symbol(c)]
  }

  function Group2(a: bv8, b: bv8): seq<bv8> {
    [Symbol(a >> 2), Symbol((a << 4) | (b >> 4)), Symbol(b << 2), PAD]
  }

  function Group1(a: bv8): seq<bv8> {
    [Symbol(a >> 2), Symbol(a << 4), PAD, PAD]
  }

  /** The encoding of a byte string. */
  function Encoded(s: seq<bv8>): seq<bv8> {
    if |s| >= 3 then Group3(s[0], s[1], s[2]) + Encoded(s[3..])
    else if |s| == 2 then Group2(s[0], s[1])
    else if |s| == 1 then Group1(s[0])
    else []
  }

  lemma {:induction false} EncodedLength(s: seq<bv8>)
    ensures |Encoded(s)| == (|s| + 2) / 3 * 4
    decreases |s|
  {
    if |s| >= 3 {
      EncodedLength(s[3..]);
    }
  }

  datatype Decoded = Decoded(res: int, out: seq<bv8>)

  /** The test on the four characters of a group as one word: some byte is not ASCII, or all are control characters. */
  predicate Refused(a: bv8, b: bv8, c: bv8, d: bv8) {
    a & 0x80 != 0 || b & 0x80 != 0 || c & 0x80 != 0 || d & 0x80 != 0 ||
    (a & 0xE0 == 0 && b & 0xE0 == 0 && c & 0xE0 == 0 && d & 0xE0 == 0)
  }

  function First(a: bv8, b: bv8): bv8 { (Code(a) << 2) | (Code(b) >> 4) }

  function Second(b: bv8, c: bv8): bv8 { (Code(b) << 4) | (Code(c) >> 2) }

  function Third(c: bv8, d: bv8): bv8 { (Code(c) << 6) | Code(d) }

  /** What one group says: an error, the last bytes, or three bytes with more to come. */
  datatype Group = Refuse | Last(out: seq<bv8>) | Whole(out: seq<bv8>)

  function GroupOf(a: bv8, b: bv8, c: bv8, d: bv8): Group {
    if Refused(a, b, c, d) then Refuse
    else if a == PAD || b == PAD then Last([])
    else if c == PAD then Last([First(a, b)])
    else if d == PAD then Last([First(a, b), Second(b, c)])
    else Whole([First(a, b), Second(b, c), Third(c, d)])
  }

  /** A group in front of what the rest of the text decodes to. */
  function Put(g: Group, rest: Decoded): Decoded {
    match g
    case Refuse => Decoded(-1, [])
    case Last(out) => Decoded(0, out)
    case Whole(out) => Decoded(rest.res, out + rest.out)
  }

  /** What decoding gives: a padding character ends it, and so does a refused group, with an error. */
  function Decode(s: seq<bv8>): Decoded {
    if |s| < 4 then Decoded(0, []) else Put(GroupOf(s[0], s[1], s[2], s[3]), Decode(s[4..]))
  }

  /** The groups of a text, and what decoding gives from each index on, as functions of the index. */
  ghost predicate Follows(s: seq<bv8>, g: nat -> Group, f: nat -> Decoded) {
    && f(|s|) == Decoded(0, [])
    && (forall i: nat {:trigger GroupAt(s, g, i)} :: i + 4 <= |s| ==> GroupAt(s, g, i) && f(i) == Put(g(i), f(i + 4)))
  }

  ghost predicate GroupAt(s: seq<bv8>, g: nat -> Group, i: nat) {
    i + 4 <= |s| && g(i) == GroupOf(s[i], s[i + 1], s[i + 2], s[i + 3])
  }

  ghost function GroupsOf(s: seq<bv8>): nat -> Group {
    (i: nat) => if i + 4 <= |s| then GroupOf(s[i], s[i + 1], s[i + 2], s[i + 3]) else Refuse
  }

  ghost function TailsOf(s: seq<bv8>): nat -> Decoded {
    (i: nat) => if i <= |s| then Decode(s[i..]) else Decoded(0, [])
  }

  lemma DecodeAt(s: seq<bv8>, i: nat)
    requires i + 4 <= |s|
    ensures Decode(s[i..]) == Put(GroupOf(s[i], s[i + 1], s[i + 2], s[i + 3]), Decode(s[i + 4..]))
  {
    var t := s[i..];
    assert t[4..] == s[i + 4..];
    assert t[0] == s[i] && t[1] == s[i + 1] && t[2] == s[i + 2] && t[3] == s[i + 3];
  }

  lemma TailAt(s: seq<bv8>, i: nat)
    requires i + 4 <= |s|
    ensures GroupAt(s, GroupsOf(s), i) && TailsOf(s)(i) == Put(GroupsOf(s)(i), TailsOf(s)(i + 4))
  {
    DecodeAt(s, i);
  }

  lemma DecodeFollows(s: seq<bv8>)
    requires |s| % 4 == 0
    ensures Follows(s, GroupsOf(s), TailsOf(s)) && TailsOf(s)(0) == Decode(s)
  {
    var g, f := GroupsOf(s), TailsOf(s);
    forall i: nat {:trigger GroupAt(s, g, i)} | i + 4 <= |s|
      ensures GroupAt(s, g, i) && f(i) == Put(g(i), f(i + 4))
    {
      TailAt(s, i);
    }
    assert s[0..] == s;
  }

  /** A symbol is a printable ASCII character other than the padding, and its code is its index. */
  lemma SymbolCode(x: bv8)
    ensures Code(Symbol(x)) == x & 0x3F && Symbol(x) != PAD && Symbol(x) & 0x80 == 0 && Symbol(x) & 0xE0 != 0
  {
  }

  /** The three bytes of a group are in its four symbols. */
  lemma Bits3(a: bv8, b: bv8, c: bv8)
    ensures (((a >> 2) & 0x3F) << 2) | ((((a << 4) | (b >> 4)) & 0x3F) >> 4) == a
    ensures ((((a << 4) | (b >> 4)) & 0x3F) << 4) | ((((b << 2) | (c >> 6)) & 0x3F) >> 2) == b
    ensures ((((b << 2) | (c >> 6)) & 0x3F) << 6) | (c & 0x3F) == c
  {
  }

  lemma Bits2(a: bv8, b: bv8)
    ensures (((a >> 2) & 0x3F) << 2) | ((((a << 4) | (b >> 4)) & 0x3F) >> 4) == a
    ensures ((((a << 4) | (b >> 4)) & 0x3F) << 4) | (((b << 2) & 0x3F) >> 2) == b
    ensures (((a >> 2) & 0x3F) << 2) | (((a << 4) & 0x3F) >> 4) == a
  {
  }

  lemma UpperLetter(k: nat)
    requires k < 26
    ensures "ABCDEFGHIJKLMNOPQRSTUVWXYZ"[k] as int == k + 65
  {
  }

  lemma LowerLetter(k: nat)
    requires k < 26
    ensures "abcdefghijklmnopqrstuvwxyz"[k] as int == k + 97
  {
  }

  lemma AlphabetAt(k: nat)
    requires k < 64
    ensures |ALPHABET| == 64
    ensures ALPHABET[k] as int
      == if k < 26 then k + 65 else if k < 52 then k + 71 else if k < 62 then k - 4 else if k == 62 then 43 else 47
  {
    if k < 26 {
      UpperLetter(k);
    } else if k < 52 {
      LowerLetter(k - 26);
    }
  }

  /** A symbol is the character of the alphabet at its index, without the two upper bits. */
  lemma SymbolInAlphabet(x: bv8)
    ensures |ALPHABET| == 64 && (x & 0x3F) as int < 64 && Symbol(x) as int == ALPHABET[(x & 0x3F) as int] as int
  {
    var y := x & 0x3F;
    assert y < 64;
    AlphabetAt(y as int);
  }

  /** A character outside of the alphabet has the code 0. */
  lemma NoCode(c: bv8)
    requires forall x: bv8 :: Symbol(x) != c
    ensures Code(c) == 0
  {
    assert Symbol(Code(c)) != c;
  }

  /** The character is in the alphabet, so it is not the padding. */
  predicate Listed(c: bv8)
    ensures Listed(c) ==> c != PAD
  {
    c == Symbol(Code(c))
  }

  lemma SymbolListed(x: bv8)
    ensures Listed(Symbol(x))
  {
    SymbolCode(x);
  }

  /** Four digits in base 64, as a number. */
  function InBase64(a: bv8, b: bv8, c: bv8, d: bv8): bv32 {
    (((a as bv32) * 64 + b as bv32) * 64 + c as bv32) * 64 + d as bv32
  }

  /** Three bytes in base 256. */
  function InBase256(a: bv8, b: bv8, c: bv8): bv32 {
    ((a as bv32) * 256 + b as bv32) * 256 + c as bv32
  }

  /** The codes of a whole group are the digits in base 64 of the number that its bytes are in base 256. */
  lemma Number3(a: bv8, b: bv8, c: bv8, g: seq<bv8>)
    requires g == Group3(a, b, c)
    ensures InBase64(Code(g[0]), Code(g[1]), Code(g[2]), Code(g[3])) == InBase256(a, b, c)
  {
    SymbolCode(a >> 2);
    SymbolCode((a << 4) | (b >> 4));
    SymbolCode((b << 2) | (c >> 6));
    SymbolCode(c);
  }

  /** With two bytes there are three digits, and with one there are two; what is missing is zero. */
  lemma Number2(a: bv8, b: bv8, g: seq<bv8>)
    requires g == Group2(a, b)
    ensures InBase64(Code(g[0]), Code(g[1]), Code(g[2]), 0) == InBase256(a, b, 0)
  {
    SymbolCode(a >> 2);
    SymbolCode((a << 4) | (b >> 4));
    SymbolCode(b << 2);
  }

  lemma Number1(a: bv8, g: seq<bv8>)
    requires g == Group1(a)
    ensures InBase64(Code(g[0]), Code(g[1]), 0, 0) == InBase256(a, 0, 0)
  {
    SymbolCode(a >> 2);
    SymbolCode(a << 4);
  }

  lemma Listed3(a: bv8, b: bv8, c: bv8, g: seq<bv8>)
    requires g == Group3(a, b, c)
    ensures Listed(g[0]) && Listed(g[1]) && Listed(g[2]) && Listed(g[3])
  {
    SymbolListed(a >> 2);
    SymbolListed((a << 4) | (b >> 4));
    SymbolListed((b << 2) | (c >> 6));
    SymbolListed(c);
  }

  lemma Listed2(a: bv8, b: bv8, g: seq<bv8>)
    requires g == Group2(a, b)
    ensures Listed(g[0]) && Listed(g[1]) && Listed(g[2]) && g[3] == PAD
  {
    SymbolListed(a >> 2);
    SymbolListed((a << 4) | (b >> 4));
    SymbolListed(b << 2);
  }

  lemma Listed1(a: bv8, g: seq<bv8>)
    requires g == Group1(a)
    ensures Listed(g[0]) && Listed(g[1]) && g[2] == PAD && g[3] == PAD
  {
    SymbolListed(a >> 2);
    SymbolListed(a << 4);
  }

  /** The same the other way, for any four characters. */
  lemma DecodedNumber(a: bv8, b: bv8, c: bv8, d: bv8)
    ensures InBase256(First(a, b), Second(b, c), Third(c, d)) == InBase64(Code(a), Code(b), Code(c), Code(d))
  {
  }

  /** A group is refused when a byte of it is not ASCII, or when all four are control characters. */
  lemma RefusedMeaning(a: bv8, b: bv8, c: bv8, d: bv8)
    ensures Refused(a, b, c, d)
      <==> a > 127 || b > 127 || c > 127 || d > 127 || (a < 32 && b < 32 && c < 32 && d < 32)
  {
  }

  /** The group of the symbols of three bytes gives back the bytes. */
  lemma Whole3(a: bv8, b: bv8, c: bv8, g: seq<bv8>)
    requires g == Group3(a, b, c)
    ensures GroupOf(g[0], g[1], g[2], g[3]) == Whole([a, b, c])
  {
    SymbolCode(a >> 2);
    SymbolCode((a << 4) | (b >> 4));
    SymbolCode((b << 2) | (c >> 6));
    SymbolCode(c);
    Bits3(a, b, c);
  }

  lemma Last2(a: bv8, b: bv8, g: seq<bv8>)
    requires g == Group2(a, b)
    ensures GroupOf(g[0], g[1], g[2], g[3]) == Last([a, b])
  {
    SymbolCode(a >> 2);
    SymbolCode((a << 4) | (b >> 4));
    SymbolCode(b << 2);
    Bits2(a, b);
  }

  lemma Last1(a: bv8, g: seq<bv8>)
    requires g == Group1(a)
    ensures GroupOf(g[0], g[1], g[2], g[3]) == Last([a])
  {
    SymbolCode(a >> 2);
    SymbolCode(a << 4);
    Bits2(a, 0);
  }

  lemma DecodeJoin(g: seq<bv8>, rest: seq<bv8>)
    requires |g| == 4
    ensures Decode(g + rest) == Put(GroupOf(g[0], g[1], g[2], g[3]), Decode(rest))
  {
    assert (g + rest)[4..] == rest;
  }

  /** A decoded group in front of decoded bytes. */
  lemma PutWhole(a: bv8, b: bv8, c: bv8, s: seq<bv8>)
    requires |s| >= 3 && s[0] == a && s[1] == b && s[2] == c
    ensures Put(Whole([a, b, c]), Decoded(0, s[3..])) == Decoded(0, s)
  {
    assert s == [a, b, c] + s[3..];
  }

  /** Decoding what was encoded gives back the bytes. */
  lemma {:induction false} DecodeEncoded(s: seq<bv8>)
    ensures Decode(Encoded(s)) == Decoded(0, s)
    decreases |s|
  {
    if |s| >= 3 {
      var g := Group3(s[0], s[1], s[2]);
      DecodeEncoded(s[3..]);
      Whole3(s[0], s[1], s[2], g);
      DecodeJoin(g, Encoded(s[3..]));
      PutWhole(s[0], s[1], s[2], s);
    } else if |s| == 2 {
      Last2(s[0], s[1], Encoded(s));
      DecodeJoin(Encoded(s), []);
      assert Encoded(s) + [] == Encoded(s);
    } else if |s| == 1 {
      Last1(s[0], Encoded(s));
      DecodeJoin(Encoded(s), []);
      assert Encoded(s) + [] == Encoded(s);
    }
  }

  type Chars = nat -> seq<bv8>

  /** The groups of a byte string, and its encoding from each index on, as functions of the index. */
  ghost predicate Writes(s: seq<bv8>, h: Chars, e: Chars) {
    forall i: nat {:trigger TripleAt(s, h, i)} :: TripleAt(s, h, i) && i + 3 <= |s| ==> e(i) == h(i) + e(i + 3)
  }

  ghost predicate TripleAt(s: seq<bv8>, h: Chars, i: nat) {
    i <= |s| && h(i) == if i + 3 <= |s| then Group3(s[i], s[i + 1], s[i + 2])
                        else if i + 2 == |s| then Group2(s[i], s[i + 1])
                        else if i + 1 == |s| then Group1(s[i]) else []
  }

  ghost function TriplesOf(s: seq<bv8>): Chars {
    (i: nat) => if i + 3 <= |s| then Group3(s[i], s[i + 1], s[i + 2])
                else if i + 2 == |s| then Group2(s[i], s[i + 1])
                else if i + 1 == |s| then Group1(s[i]) else []
  }

  ghost function EncodedFrom(s: seq<bv8>): Chars {
    (i: nat) => if i <= |s| then Encoded(s[i..]) else []
  }

  /** What the loop needs to know about an encoding. */
  ghost predicate Coding(s: seq<bv8>, h: Chars, e: Chars) {
    && Writes(s, h, e)
    && (forall i: nat {:trigger TripleAt(s, h, i)} :: i <= |s| ==> TripleAt(s, h, i))
    && (forall i: nat {:trigger e(i)} :: i <= |s| < i + 3 ==> e(i) == h(i))
    && |e(0)| == (|s| + 2) / 3 * 4
  }

  lemma EncodedFollows(s: seq<bv8>)
    ensures Coding(s, TriplesOf(s), EncodedFrom(s)) && EncodedFrom(s)(0) == Encoded(s)
  {
    var h, e := TriplesOf(s), EncodedFrom(s);
    forall i: nat {:trigger TripleAt(s, h, i)} | i + 3 <= |s|
      ensures e(i) == h(i) + e(i + 3)
    {
      assert s[i..][3..] == s[i + 3..];
    }
    assert s[0..] == s;
    EncodedLength(s);
  }

  /** The group at `i` behind what is done leaves the rest of the encoding to do. */
  lemma EncodeJoin(s: seq<bv8>, h: Chars, e: Chars, done: seq<bv8>, i: nat)
    requires Coding(s, h, e) && i + 3 <= |s|
    ensures TripleAt(s, h, i) && |h(i)| == 4 && done + e(i) == (done + h(i)) + e(i + 3)
  {
    assert TripleAt(s, h, i);
    assert e(i) == h(i) + e(i + 3);
  }

  /** The characters `g` are four digits in base 64 of the number that the three bytes at `i` are in base 256; what
      is missing at the end counts as zero, and as padding when no bit of it comes from a byte. */
  predicate Digits(g: seq<bv8>, s: seq<bv8>, i: nat)
    requires |g| == 4 && i < |s|
  {
    if i + 3 <= |s| then
      Listed(g[0]) && Listed(g[1]) && Listed(g[2]) && Listed(g[3])
      && InBase64(Code(g[0]), Code(g[1]), Code(g[2]), Code(g[3])) == InBase256(s[i], s[i + 1], s[i + 2])
    else if i + 2 == |s| then
      Listed(g[0]) && Listed(g[1]) && Listed(g[2]) && g[3] == PAD
      && InBase64(Code(g[0]), Code(g[1]), Code(g[2]), 0) == InBase256(s[i], s[i + 1], 0)
    else
      Listed(g[0]) && Listed(g[1]) && g[2] == PAD && g[3] == PAD
      && InBase64(Code(g[0]), Code(g[1]), 0, 0) == InBase256(s[i], 0, 0)
  }

  lemma Digits3(s: seq<bv8>, i: nat, g: seq<bv8>)
    requires i + 3 <= |s| && g == Group3(s[i], s[i + 1], s[i + 2])
    ensures Digits(g, s, i)
  {
    Listed3(s[i], s[i + 1], s[i + 2], g);
    Number3(s[i], s[i + 1], s[i + 2], g);
  }

  lemma Digits2(s: seq<bv8>, i: nat, g: seq<bv8>)
    requires i + 2 == |s| && g == Group2(s[i], s[i + 1])
    ensures Digits(g, s, i)
  {
    Listed2(s[i], s[i + 1], g);
    Number2(s[i], s[i + 1], g);
  }

  lemma Digits1(s: seq<bv8>, i: nat, g: seq<bv8>)
    requires i + 1 == |s| && g == Group1(s[i])
    ensures Digits(g, s, i)
  {
    Listed1(s[i], g);
    Number1(s[i], g);
  }

  lemma TripleDigits(s: seq<bv8>, h: Chars, i: nat)
    requires TripleAt(s, h, i) && i < |s|
    ensures |h(i)| == 4 && Digits(h(i), s, i)
  {
    if i + 3 <= |s| {
      Digits3(s, i, h(i));
    } else if i + 2 == |s| {
      Digits2(s, i, h(i));
    } else {
      Digits1(s, i, h(i));
    }
  }

  lemma DropFour(x: seq<bv8>, i: nat, a: seq<bv8>, b: seq<bv8>)
    requires i <= |x| && x[i..] == a + b && |a| == 4
    ensures i + 4 <= |x| && x[i..i + 4] == a && x[i + 4..] == b
  {
    assert x[i..i + 4] == x[i..][..4] && x[i + 4..] == x[i..][4..];
  }

  /** Behind `k` whole groups comes the encoding of what is left. */
  lemma {:induction false} GroupsStand(s: seq<bv8>, h: Chars, e: Chars, k: nat)
    requires Coding(s, h, e) && 3 * k <= |s|
    ensures 4 * k <= |e(0)| && e(0)[4 * k..] == e(3 * k)
    decreases k
  {
    if k > 0 {
      var i := 3 * (k - 1);
      GroupsStand(s, h, e, k - 1);
      EncodeJoin(s, h, e, [], i);
      assert [] + e(i) == e(i) && [] + h(i) == h(i);
      DropFour(e(0), 4 * (k - 1), h(i), e(i + 3));
    }
  }

  lemma GroupStands(s: seq<bv8>, h: Chars, e: Chars, k: nat)
    requires Coding(s, h, e) && 3 * k < |s|
    ensures TripleAt(s, h, 3 * k) && |h(3 * k)| == 4
    ensures 4 * k + 4 <= |e(0)| && e(0)[4 * k..4 * k + 4] == h(3 * k)
  {
    var i := 3 * k;
    GroupsStand(s, h, e, k);
    assert TripleAt(s, h, i);
    var rest := if i + 3 <= |s| then e(i + 3) else [];
    assert e(i) == h(i) + rest;
    DropFour(e(0), 4 * k, h(i), rest);
  }

  /** The encoding as RFC 4648 has it: group after group the digits of the bytes. */
  lemma EncodedDigits(s: seq<bv8>, k: nat)
    requires 3 * k < |s|
    ensures |Encoded(s)| == (|s| + 2) / 3 * 4 && 4 * k + 4 <= |Encoded(s)|
    ensures Digits(Encoded(s)[4 * k..4 * k + 4], s, 3 * k)
  {
    var h, e := TriplesOf(s), EncodedFrom(s);
    EncodedLength(s);
    EncodedFollows(s);
    GroupStands(s, h, e, k);
    TripleDigits(s, h, 3 * k);
  }

  /** `encode3` */
  method Encode3(src: array<bv8>, i: nat, dst: array<bv8>, o: nat, ghost h: Chars)
    requires i + 3 <= src.Length && o + 4 <= dst.Length && src != dst && TripleAt(src[..], h, i)
    modifies dst
    ensures dst[..o + 4] == old(dst[..o]) + h(i)
  {
    dst[o] := Symbol(src[i] >> 2);
    dst[o + 1] := Symbol((src[i] << 4) | (src[i + 1] >> 4));
    dst[o + 2] := Symbol((src[i + 1] << 2) | (src[i + 2] >> 6));
    dst[o + 3] := Symbol(src[i + 2]);
  }

  /** `encode2` */
  method Encode2(src: array<bv8>, i: nat, dst: array<bv8>, o: nat, ghost h: Chars)
    requires i + 2 == src.Length && o + 4 <= dst.Length && src != dst && TripleAt(src[..], h, i)
    modifies dst
    ensures dst[..o + 4] == old(dst[..o]) + h(i)
  {
    dst[o] := Symbol(src[i] >> 2);
    dst[o + 1] := Symbol((src[i] << 4) | (src[i + 1] >> 4));
    dst[o + 2] := Symbol(src[i + 1] << 2);
    dst[o + 3] := PAD;
  }

  /** `encode1` */
  method Encode1(src: array<bv8>, i: nat, dst: array<bv8>, o: nat, ghost h: Chars)
    requires i + 1 == src.Length && o + 4 <= dst.Length && src != dst && TripleAt(src[..], h, i)
    modifies dst
    ensures dst[..o + 4] == old(dst[..o]) + h(i)
  {
    dst[o] := Symbol(src[i] >> 2);
    dst[o + 1] := Symbol(src[i] << 4);
    dst[o + 2] := PAD;
    dst[o + 3] := PAD;
  }

  /** The loop of `MNBASE64_ENCODE_BODY`. */
  method EncodeTriples(src: array<bv8>, dst: array<bv8>, sz: nat, ghost h: Chars, ghost e: Chars)
    requires src != dst && 3 * sz <= src.Length && 4 * sz <= dst.Length && Coding(src[..], h, e)
    modifies dst
    ensures dst[..4 * sz] + e(3 * sz) == e(0)
  {
    ghost var s, done := src[..], [];
    var i := 0;
    while i < sz
      invariant 0 <= i <= sz && dst[..4 * i] == done && done + e(3 * i) == e(0)
    {
      EncodeJoin(s, h, e, done, 3 * i);
      Encode3(src, i * 3, dst, i * 4, h);
      done := done + h(3 * i);
      i := i + 1;
    }
  }

  /** The group for what is left behind the whole ones. */
  method EncodeRest(src: array<bv8>, i: nat, dst: array<bv8>, o: nat, ghost h: Chars)
    requires i <= src.Length < i + 3 && o + 4 <= dst.Length && src != dst && TripleAt(src[..], h, i)
    modifies dst
    ensures |h(i)| <= 4 && dst[..o + |h(i)|] == old(dst[..o]) + h(i)
  {
    if i + 2 == src.Length {
      Encode2(src, i, dst, o, h);
    } else if i + 1 == src.Length {
      Encode1(src, i, dst, o, h);
    }
  }

  /** `MNBASE64_ENCODE_BODY` behind its check. */
  method EncodeGroups(src: array<bv8>, dst: array<bv8>, ghost h: Chars, ghost e: Chars)
    requires src != dst && dst.Length >= (src.Length / 3 + 1) * 4 && Coding(src[..], h, e)
    modifies dst
    ensures |e(0)| <= dst.Length && dst[..|e(0)|] == e(0)
  {
    var sz := src.Length / 3;
    EncodeTriples(src, dst, sz, h, e);
    assert TripleAt(src[..], h, 3 * sz);
    EncodeRest(src, sz * 3, dst, sz * 4, h);
  }

  /** `mnbase64_encode_mime`; a destination without room for a group more than the whole ones is refused. */
  method EncodeMime(src: array<bv8>, dst: array<bv8>) returns (res: int)
    requires src != dst
    modifies dst
    ensures res == -1 <==> dst.Length < (src.Length / 3 + 1) * 4
    ensures res != -1 ==> res == 0 && |Encoded(src[..])| <= dst.Length && dst[..|Encoded(src[..])|] == Encoded(src[..])
    ensures res == -1 ==> dst[..] == old(dst[..])
  {
    if dst.Length < (src.Length / 3 + 1) * 4 {
      return -1;
    }
    EncodedFollows(src[..]);
    EncodeGroups(src, dst, TriplesOf(src[..]), EncodedFrom(src[..]));
    return 0;
  }

  /** The body of the loop of `mnbase64_decode_mime`; it reads every character before it is overwritten. */
  method DecodeGroup(src: array<bv8>, i: nat, dst: array<bv8>, o: nat, ghost s: seq<bv8>, ghost g: nat -> Group)
    returns (group: Group)
    requires i + 4 <= |s| <= src.Length && o + 3 <= dst.Length && o <= i
    requires (forall k :: i <= k < |s| ==> src[k] == s[k]) && GroupAt(s, g, i)
    modifies dst
    ensures group == g(i)
    ensures group.Refuse? ==> dst[..o] == old(dst[..o])
    ensures !group.Refuse? ==> |group.out| <= 3 && dst[..o + |group.out|] == old(dst[..o]) + group.out
    ensures forall k :: i + 4 <= k < |s| ==> src[k] == s[k]
    ensures group.Whole? ==> |group.out| == 3
  {
    ghost var before := dst[..o];
    if Refused(src[i], src[i + 1], src[i + 2], src[i + 3]) {
      return Refuse;
    }
    if src[i] == PAD || src[i + 1] == PAD {
      return Last([]);
    }
    var b0 := First(src[i], src[i + 1]);
    dst[o] := b0;
    assert src[i + 1] == s[i + 1] && src[i + 2] == s[i + 2] && src[i + 3] == s[i + 3];
    assert dst[..o + 1] == before + [b0];
    if src[i + 2] == PAD {
      return Last([b0]);
    }
    var b1 := Second(src[i + 1], src[i + 2]);
    dst[o + 1] := b1;
    assert src[i + 2] == s[i + 2] && src[i + 3] == s[i + 3];
    assert dst[..o + 2] == before + [b0, b1];
    if src[i + 3] == PAD {
      return Last([b0, b1]);
    }
    var b2 := Third(src[i + 2], src[i + 3]);
    dst[o + 2] := b2;
    assert dst[..o + 3] == before + [b0, b1, b2];
    return Whole([b0, b1, b2]);
  }

  /** Bytes in front of what the rest decodes to. */
  ghost function Before(done: seq<bv8>, rest: Decoded): Decoded {
    Decoded(rest.res, done + rest.out)
  }

  lemma BeforePut(done: seq<bv8>, g: Group, rest: Decoded)
    ensures g.Refuse? ==> Before(done, Put(g, rest)) == Decoded(-1, done)
    ensures g.Last? ==> Before(done, Put(g, rest)) == Decoded(0, done + g.out)
    ensures g.Whole? ==> Before(done, Put(g, rest)) == Before(done + g.out, rest)
  {
  }

  /** One turn of the loop: the group at `i` ends the decoding or leaves the rest of it to do. */
  lemma DecodeTurn(s: seq<bv8>, g: nat -> Group, f: nat -> Decoded, done: seq<bv8>, i: nat)
    requires Follows(s, g, f) && i + 4 <= |s|
    ensures GroupAt(s, g, i)
    ensures g(i).Refuse? ==> Before(done, f(i)) == Decoded(-1, done)
    ensures g(i).Last? ==> Before(done, f(i)) == Decoded(0, done + g(i).out)
    ensures g(i).Whole? ==> Before(done, f(i)) == Before(done + g(i).out, f(i + 4))
  {
    assert GroupAt(s, g, i);
    BeforePut(done, g(i), f(i + 4));
  }

  lemma BeforeNothing(done: seq<bv8>)
    ensures Before(done, Decoded(0, [])) == Decoded(0, done)
  {
  }

  /** The same with what it means for the result: it is complete, or the rest of the text is left to decode. */
  method DecodeNext(src: array<bv8>, i: nat, dst: array<bv8>, o: nat, ghost s: seq<bv8>, ghost g: nat -> Group,
    ghost f: nat -> Decoded, ghost done: seq<bv8>)
    returns (group: Group)
    requires i + 4 <= |s| <= src.Length && o + 3 <= dst.Length && o <= i
    requires (forall k :: i <= k < |s| ==> src[k] == s[k]) && Follows(s, g, f) && dst[..o] == done
    modifies dst
    ensures group.Refuse? ==> Before(done, f(i)) == Decoded(-1, dst[..o])
    ensures group.Last? ==> |group.out| <= 3 && Before(done, f(i)) == Decoded(0, dst[..o + |group.out|])
    ensures group.Whole? ==>
      |group.out| == 3 && dst[..o + 3] == done + group.out && Before(done, f(i)) == Before(done + group.out, f(i + 4))
    ensures forall k :: i + 4 <= k < |s| ==> src[k] == s[k]
  {
    DecodeTurn(s, g, f, done, i);
    group := DecodeGroup(src, i, dst, o, s, g);
  }

  /** The loop of `mnbase64_decode_mime`. */
  method DecodeLoop(src: array<bv8>, dst: array<bv8>, ghost s: seq<bv8>, ghost g: nat -> Group,
    ghost f: nat -> Decoded, sz: nat)
    returns (res: int, dstsz: nat)
    requires 4 * sz == |s| <= src.Length && 3 * sz <= dst.Length && src[..|s|] == s && Follows(s, g, f)
    modifies dst
    ensures dstsz <= 3 * sz && Decoded(res, dst[..dstsz]) == f(0)
  {
    dstsz := 0;
    var i := 0;
    ghost var done: seq<bv8> := [];
    while i < sz
      invariant 0 <= i <= sz && dstsz == 3 * i && dst[..dstsz] == done
      invariant forall k :: 4 * i <= k < |s| ==> src[k] == s[k]
      invariant f(0) == Before(done, f(4 * i))
    {
      var group := DecodeNext(src, i * 4, dst, i * 3, s, g, f, done);
      if group.Refuse? {
        return -1, dstsz;
      } else if group.Last? {
        return 0, dstsz + |group.out|;
      }
      dstsz := dstsz + 3;
      done := done + group.out;
      i := i + 1;
    }
    BeforeNothing(done);
    return 0, dstsz;
  }

  /** `mnbase64_decode_mime`.  The destination may be the source: then it is `mnbase64_decode_mime_inplace`, and the
      result is the same. */
  method DecodeMime(src: array<bv8>, srcsz: nat, dst: array<bv8>, cap: nat) returns (res: int, dstsz: nat)
    requires srcsz <= src.Length && cap <= dst.Length
    modifies dst
    ensures srcsz % 4 != 0 || cap / 3 * 4 < srcsz ==> res == -1 && dstsz == cap && dst[..] == old(dst[..])
    ensures srcsz % 4 == 0 && cap / 3 * 4 >= srcsz ==>
      dstsz <= cap && Decoded(res, dst[..dstsz]) == Decode(old(src[..srcsz]))
  {
    if srcsz % 4 != 0 || cap / 3 * 4 < srcsz {
      return -1, cap;
    }
    ghost var s := src[..srcsz];
    DecodeFollows(s);
    res, dstsz := DecodeLoop(src, dst, s, GroupsOf(s), TailsOf(s), srcsz / 4);
  }

  lemma EncodedText(s: seq<bv8>, t: seq<bv8>)
    requires t == Encoded(s)
    ensures |t| == (|s| + 2) / 3 * 4 && Decode(t) == Decoded(0, s)
  {
    EncodedLength(s);
    DecodeEncoded(s);
  }

  /** `mnbase64_encode_mime`, with the length of the text it writes, which decodes to the bytes. */
  method EncodeForDecode(src: array<bv8>, text: array<bv8>) returns (res: int, n: nat)
    requires src != text && text.Length >= (src.Length / 3 + 1) * 4
    modifies text
    ensures res == 0 && n == (src.Length + 2) / 3 * 4 && n <= text.Length && Decode(text[..n]) == Decoded(0, src[..])
  {
    res := EncodeMime(src, text);
    n := (src.Length + 2) / 3 * 4;
    EncodedText(src[..], Encoded(src[..]));
  }

  /** `mnbase64_decode_mime_inplace` after `mnbase64_encode_mime`: the bytes are back where their encoding was. */
  method RoundTripInPlace(src: array<bv8>, text: array<bv8>) returns (res: int, sz: nat)
    requires src != text && text.Length >= (src.Length / 3 + 1) * 4
    modifies text
    ensures res == 0 && sz == src.Length && sz <= text.Length && text[..sz] == src[..]
  {
    var n;
    res, n := EncodeForDecode(src, text);
    ghost var s := src[..];
    assert n % 4 == 0 && n / 3 * 4 >= n;
    res, sz := DecodeMime(text, n, text, n);
    assert Decoded(res, text[..sz]) == Decoded(0, s);
    assert |text[..sz]| == |s|;
  }
}
