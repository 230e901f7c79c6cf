/** Numbers, hexadecimal bytes and tokens as text, as the C library and MyMessage.cpp read and write them. */
module TextFields {
  import opened Bytes

  const SEMICOLON: Byte := 59
  const NEWLINE: Byte := 10
  const RETURN: Byte := 13
  const MINUS: Byte := 45
  const PLUS: Byte := 43

  // Numbers

  function Digits(n: nat): (s: seq<Byte>)
    ensures s != [] && forall i :: 0 <= i < |s| ==> IsDigit(s[i])
  {
    if n < 10 then [48 + n] else Digits(n / 10) + [48 + n % 10]
  }

  function Decimal(n: int): (s: seq<Byte>)
    ensures s != [] && SEMICOLON !in s && 0 !in s && NEWLINE !in s && RETURN !in s
  {
    if n < 0 then [MINUS] + Digits(-n) else Digits(n)
  }

  predicate IsDigit(c: Byte) {
    48 <= c <= 57
  }

  predicate IsSpace(c: Byte) {
    c == 32 || 9 <= c <= 13
  }

  function DigitsValue(s: seq<Byte>, before: nat): nat {
    if s == [] || !IsDigit(s[0]) then before else DigitsValue(s[1..], 10 * before + (s[0] - 48))
  }

  /** atoi. */
  function Atoi(s: seq<Byte>): int {
    if s == [] then 0
    else if IsSpace(s[0]) then Atoi(s[1..])
    else if s[0] == MINUS then 0 - DigitsValue(s[1..], 0)
    else if s[0] == PLUS then DigitsValue(s[1..], 0)
    else DigitsValue(s, 0)
  }

  /** The assignment of an int to a uint8_t. */
  function ToByte(n: int): Byte {
    n % 0x100
  }

  lemma {:induction false} DigitsAreRead(n: nat, t: seq<Byte>)
    ensures DigitsValue(Digits(n) + t, 0) == DigitsValue(t, n)
  {
    if n < 10 {
      assert ([48 + n] + t)[1..] == t;
    } else {
      var d: Byte := 48 + n % 10;
      assert Digits(n) + t == Digits(n / 10) + ([d] + t);
      DigitsAreRead(n / 10, [d] + t);
      assert ([d] + t)[1..] == t;
    }
  }

  /** atoi undoes itoa. */
  lemma AtoiDecimal(n: int)
    ensures Atoi(Decimal(n)) == n
  {
    var k := if n < 0 then -n else n;
    DigitsAreRead(k, []);
    assert Digits(k) + [] == Digits(k);
    assert IsDigit(Digits(k)[0]);
  }

  /** The last digit written is the one of ten, and the others are those of the tenth. */
  lemma {:induction false} DecimalDigits(n: nat)
    ensures var d := Digits(n);
      d[|d| - 1] == "0123456789"[n % 10] as int && (n >= 10 ==> d[..|d| - 1] == Digits(n / 10))
  {
  }

  /** A number below 10^k has at most k digits. */
  lemma {:induction false} DigitsFit(n: nat, k: nat, bound: nat)
    requires k > 0 && bound == Power10(k) && n < bound
    ensures |Digits(n)| <= k
  {
    if n < 10 {
    } else {
      assert k > 1;
      DigitsFit(n / 10, k - 1, Power10(k - 1));
    }
  }

  function Power10(k: nat): nat {
    if k == 0 then 1 else 10 * Power10(k - 1)
  }

  // Hexadecimal

  /** i2h. */
  function I2h(i: Byte): (c: Byte)
    ensures c != 0 && c != SEMICOLON && c != NEWLINE && c != RETURN
  {
    var k := i % 16;
    if k <= 9 then 48 + k else 65 + k - 10
  }

  /** protocolH2i; a char above 127 is negative. */
  function H2i(c: Byte): Byte {
    if c <= 57 || c >= 128 then ToByte(c - 48)
    else if c >= 97 then c - 97 + 10
    else ToByte(c - 65 + 10)
  }

  /** The digits written are the usual ones; letters are also read if they are small. */
  lemma HexDigits(k: nat)
    requires k < 16
    ensures I2h(k) == "0123456789ABCDEF"[k] as int
    ensures H2i("0123456789ABCDEF"[k] as int) == H2i("0123456789abcdef"[k] as int) == k
  {
    assert k == 0 || k == 1 || k == 2 || k == 3 || k == 4 || k == 5 || k == 6 || k == 7 || k == 8 || k == 9 || k == 10
      || k == 11 || k == 12 || k == 13 || k == 14 || k == 15;
  }

  function Pair(high: Byte, low: Byte): Byte {
    Add(H2i(high) * 16 % 0x100, H2i(low))
  }

  function Hex(s: seq<Byte>): (t: seq<Byte>)
    ensures |t| == 2 * |s|
    ensures SEMICOLON !in t
  {
    if s == [] then [] else Hex(s[..|s| - 1]) + [I2h(s[|s| - 1] / 16), I2h(s[|s| - 1])]
  }

  function FromHex(t: seq<Byte>): (s: seq<Byte>)
    requires |t| % 2 == 0
    ensures |s| == |t| / 2
  {
    if t == [] then [] else FromHex(t[..|t| - 2]) + [Pair(t[|t| - 2], t[|t| - 1])]
  }

  lemma NibbleIsRead(k: nat)
    requires k < 16
    ensures H2i(I2h(k)) == k
  {
  }

  lemma LowNibble(b: Byte)
    ensures I2h(b) == I2h(b % 16)
  {
  }

  lemma Nibbles(b: Byte)
    ensures Add(b / 16 * 16 % 0x100, b % 16) == b
  {
    assert b == b / 16 * 16 + b % 16;
  }

  lemma PairOf(b: Byte)
    ensures Pair(I2h(b / 16), I2h(b)) == b
  {
    NibbleIsRead(b / 16);
    NibbleIsRead(b % 16);
    LowNibble(b);
    Nibbles(b);
  }

  lemma FromHexStep(t: seq<Byte>, high: Byte, low: Byte)
    requires |t| % 2 == 0
    ensures FromHex(t + [high, low]) == FromHex(t) + [Pair(high, low)]
  {
    var u := t + [high, low];
    assert u[..|u| - 2] == t;
  }

  /** Hexadecimal text is read back. */
  lemma {:induction false} FromHexOfHex(s: seq<Byte>)
    ensures FromHex(Hex(s)) == s
  {
    if s == [] {
    } else {
      var n := |s| - 1;
      FromHexOfHex(s[..n]);
      PairOf(s[n]);
      FromHexStep(Hex(s[..n]), I2h(s[n] / 16), I2h(s[n]));
    }
  }

  // Tokens

  /** How many bytes come before the first semicolon. */
  function TokenLength(t: seq<Byte>): (k: nat)
    ensures k <= |t| && SEMICOLON !in t[..k] && (k < |t| ==> t[k] == SEMICOLON)
  {
    if t == [] || t[0] == SEMICOLON then 0 else 1 + TokenLength(t[1..])
  }

  function SkipDelimiters(t: seq<Byte>): (s: seq<Byte>)
    ensures |s| <= |t| && (s != [] ==> s[0] != SEMICOLON)
  {
    if t != [] && t[0] == SEMICOLON then SkipDelimiters(t[1..]) else t
  }

  function AfterToken(t: seq<Byte>): (s: seq<Byte>)
    ensures t != [] ==> |s| < |t|
  {
    var k := TokenLength(t);
    if k < |t| then t[k + 1..] else []
  }

  /** What strtok_r returns call after call. */
  function Tokens(t: seq<Byte>): (tokens: seq<seq<Byte>>)
    decreases |t|
  {
    var s := SkipDelimiters(t);
    if s == [] then [] else [s[..TokenLength(s)]] + Tokens(AfterToken(s))
  }

  /** Tokens are not empty and hold no semicolon. */
  lemma {:induction false} TokensArePlain(t: seq<Byte>, i: nat)
    requires i < |Tokens(t)|
    ensures Tokens(t)[i] != [] && SEMICOLON !in Tokens(t)[i]
    decreases |t|
  {
    if i == 0 {
    } else {
      TokensArePlain(AfterToken(SkipDelimiters(t)), i - 1);
    }
  }

  lemma {:induction false} SkippedIsPart(t: seq<Byte>)
    ensures forall c :: c in SkipDelimiters(t) ==> c in t
  {
    if t != [] && t[0] == SEMICOLON {
      SkippedIsPart(t[1..]);
    }
  }

  lemma FirstTokenIsPart(t: seq<Byte>)
    requires Tokens(t) != []
    ensures |Tokens(t)[0]| <= |t| && forall c :: c in Tokens(t)[0] ==> c in t
  {
    SkippedIsPart(t);
  }

  lemma {:induction false} TokenLengthIs(a: seq<Byte>, t: seq<Byte>)
    requires SEMICOLON !in a && (t == [] || t[0] == SEMICOLON)
    ensures TokenLength(a + t) == |a|
  {
    if a == [] {
      assert a + t == t;
    } else {
      assert (a + t)[1..] == a[1..] + t;
      TokenLengthIs(a[1..], t);
    }
  }

  /** A field in front of a semicolon is a token. */
  lemma TokensOfField(a: seq<Byte>, t: seq<Byte>)
    requires a != [] && SEMICOLON !in a
    ensures Tokens(a + [SEMICOLON] + t) == [a] + Tokens(t)
  {
    var s := a + [SEMICOLON] + t;
    assert s == a + ([SEMICOLON] + t);
    TokenLengthIs(a, [SEMICOLON] + t);
    assert s[0] == a[0] && s[..|a|] == a && s[|a| + 1..] == t;
  }

  /** Text without a semicolon is one token, or none if it is empty. */
  lemma TokensOfLast(a: seq<Byte>)
    requires SEMICOLON !in a
    ensures Tokens(a) == if a == [] then [] else [a]
  {
    if a != [] {
      TokenLengthIs(a, []);
      assert a + [] == a && a[..|a|] == a;
      assert Tokens(AfterToken(a)) == [];
    }
  }

  /** The first loop of strtok_r. */
  method Skip(t: seq<Byte>) returns (s: seq<Byte>)
    ensures s == SkipDelimiters(t)
  {
    var p := 0;
    while p < |t| && t[p] == SEMICOLON
      invariant 0 <= p <= |t| && SkipDelimiters(t[p..]) == SkipDelimiters(t)
    {
      p := p + 1;
    }
    s := t[p..];
  }

  /** The second loop of strtok_r. */
  method Scan(s: seq<Byte>) returns (e: nat)
    ensures e == TokenLength(s)
  {
    e := 0;
    while e < |s| && s[e] != SEMICOLON
      invariant 0 <= e <= |s| && TokenLength(s) == e + TokenLength(s[e..])
    {
      e := e + 1;
    }
  }

  /** strtok_r. */
  method NextToken(t: seq<Byte>) returns (found: bool, token: seq<Byte>, rest: seq<Byte>)
    ensures Tokens(t) == if found then [token] + Tokens(rest) else []
    ensures found ==> |rest| < |t|
  {
    var s := Skip(t);
    if s == [] {
      return false, [], [];
    }
    var e := Scan(s);
    found, token := true, s[..e];
    rest := if e < |s| then s[e + 1..] else [];
    assert rest == AfterToken(s);
  }
}
