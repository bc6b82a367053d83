/**
 The build step that embeds a binary as a C array: four bytes a word, low byte first, eight upper-case
 hexadecimal digits a word, and the byte length in decimal. A reader of the text gets the bytes back.
 */
module SpirvPrinter {
  import opened Bits
  import opened Wrappers

  type Byte = n: nat | n < 256

  // ---------------------------------------------------------------- digits

  function DigitChar(d: nat): char
    requires d < 16
  {
    if d < 10 then (d + 48) as char else (d + 55) as char
  }

  function DigitValue(c: char): Option<nat> {
    if '0' <= c <= '9' then Some(c as int - 48)
    else if 'A' <= c <= 'F' then Some(c as int - 55)
    else None
  }

  lemma DigitRoundTrip(d: nat)
    requires d < 16
    ensures DigitValue(DigitChar(d)) == Some(d)
  {
  }

  /** The low n digits of w in the given base. */
  function Digits(w: nat, base: nat, n: nat): (s: string)
    requires 2 <= base <= 16
    ensures |s| == n
    decreases n
  {
    if n == 0 then "" else Digits(Quotient(w, base), base, n - 1) + [DigitChar(Remainder(w, base))]
  }

  /** The sixteen digits. */
  lemma DigitCharIs(d: nat)
    requires d < 16
    ensures DigitChar(d) == "0123456789ABCDEF"[d]
  {
  }

  /** Character i from the right is the digit of weight base^i. */
  lemma {:induction false} DigitAt(w: nat, base: nat, n: nat, i: nat)
    requires 2 <= base <= 16 && i < n
    ensures PowerPositive(base, i) > 0
    ensures Digits(w, base, n)[n - 1 - i] == DigitChar(Remainder(Quotient(w, PowerPositive(base, i)), base))
    decreases n
  {
    if i == 0 {
      assert Quotient(w, 1) == w;
    } else {
      DigitAt(Quotient(w, base), base, n - 1, i - 1);
      QuotientTwice(w, base, PowerPositive(base, i - 1));
      hide Quotient, Remainder, DigitChar;
    }
  }

  function PowerPositive(base: nat, n: nat): (p: nat)
    requires base > 0
    ensures p > 0
  {
    if n == 0 then 1 else MulPositive(base, PowerPositive(base, n - 1))
  }

  function MulPositive(a: nat, b: nat): (p: nat)
    requires a > 0 && b > 0
    ensures p > 0
  {
    a * b
  }

  lemma QuotientTwice(w: nat, a: nat, b: nat)
    requires a > 0 && b > 0
    ensures Quotient(Quotient(w, a), b) == Quotient(w, MulPositive(a, b))
  {
    var q, r := w / a / b, w / a % b;
    assert w / a == b * q + r && w == a * (w / a) + w % a;
    assert a * (b * q) == a * b * q;
    var rest := a * r + w % a;
    assert w == a * b * q + rest by {
      assert a * (w / a) == a * (b * q) + a * r;
    }
    MulGap(a, r, b);
    DivModUnique(w, a * b, q, rest);
  }

  function AppendDigit(high: nat, base: nat, d: nat): nat { high * base + d }

  function ParseDigits(s: string, base: nat): Option<nat> {
    if s == "" then Some(0)
    else
      var last := |s| - 1;
      match (ParseDigits(s[..last], base), DigitValue(s[last]))
      case (Some(high), Some(d)) => if d < base then Some(AppendDigit(high, base, d)) else None
      case _ => None
  }

  function Power(base: nat, n: nat): nat { if n == 0 then 1 else base * Power(base, n - 1) }

  lemma ParseAppended(s: string, c: char, base: nat, high: nat, d: nat)
    requires ParseDigits(s, base) == Some(high) && DigitValue(c) == Some(d) && d < base
    ensures ParseDigits(s + [c], base) == Some(AppendDigit(high, base, d))
  {
    hide AppendDigit, DigitValue;
    assert (s + [c])[..|s|] == s;
  }

  lemma {:induction false} DigitsRoundTrip(w: nat, base: nat, n: nat)
    requires 2 <= base <= 16 && w < Power(base, n)
    ensures ParseDigits(Digits(w, base, n), base) == Some(w)
    decreases n
  {
    if n == 0 {
      assert Power(base, 0) == 1;
    } else {
      hide Quotient, Remainder, DigitChar, DigitValue, Power, AppendDigit, ParseDigits;
      var q, r := Quotient(w, base), Remainder(w, base);
      QuotientFits(w, base, n);
      DigitsRoundTrip(q, base, n - 1);
      DigitRoundTrip(r);
      ParseAppended(Digits(q, base, n - 1), DigitChar(r), base, q, r);
    }
  }

  lemma QuotientFits(w: nat, base: nat, n: nat)
    requires base >= 2 && n > 0 && w < Power(base, n)
    ensures Quotient(w, base) < Power(base, n - 1) && Remainder(w, base) < base
    ensures w == AppendDigit(Quotient(w, base), base, Remainder(w, base))
  {
    var q, p := w / base, Power(base, n - 1);
    assert Power(base, n) == base * p;
    assert w == base * q + w % base && base * q == q * base;
    if q >= p {
      MulMonotone(base, p, q);
    }
  }

  /** As many decimal digits as the number needs, at least one. */
  function Decimal(n: nat): (s: string)
    ensures s != ""
  {
    if n < 10 then [DigitChar(n)] else Decimal(n / 10) + [DigitChar(n % 10)]
  }

  lemma {:induction false} DecimalRoundTrip(n: nat)
    ensures ParseDigits(Decimal(n), 10) == Some(n)
  {
    var s := Decimal(n);
    var last := |s| - 1;
    DigitRoundTrip(n % 10);
    if n < 10 {
      assert s[..last] == "" && s[last] == DigitChar(n);
    } else {
      DecimalRoundTrip(n / 10);
      assert s[..last] == Decimal(n / 10) && s[last] == DigitChar(n % 10);
    }
  }

  // ---------------------------------------------------------------- words

  /** Four bytes as a word, the first in the low bits. */
  function PackWord(a: Byte, b: Byte, c: Byte, d: Byte): nat {
    Or(Or(Or(a, b * 0x100), c * 0x1_0000), d * 0x100_0000)
  }

  lemma PackIsSum(a: Byte, b: Byte, c: Byte, d: Byte)
    ensures PackWord(a, b, c, d) == a + b * 0x100 + c * 0x1_0000 + d * 0x100_0000
  {
    hide Or;
    assert Pow2(8) == 0x100;
    Pow2Add(8, 8);
    Pow2Add(16, 8);
    hide Pow2;
    OrComm(a, b * 0x100);
    OrShifted(b, a, 8);
    var low := a + b * 0x100;
    OrComm(low, c * 0x1_0000);
    OrShifted(c, low, 16);
    var three := low + c * 0x1_0000;
    OrComm(three, d * 0x100_0000);
    OrShifted(d, three, 24);
  }

  function UnpackWord(w: nat): seq<Byte> {
    [w % 0x100, w / 0x100 % 0x100, w / 0x1_0000 % 0x100, w / 0x100_0000 % 0x100]
  }

  lemma WordRoundTrip(a: Byte, b: Byte, c: Byte, d: Byte)
    ensures PackWord(a, b, c, d) < WORD && UnpackWord(PackWord(a, b, c, d)) == [a, b, c, d]
  {
    hide PackWord;
    PackIsSum(a, b, c, d);
    var w := PackWord(a, b, c, d);
    DivModUnique(w, 0x100, b + c * 0x100 + d * 0x1_0000, a);
    DivModUnique(w, 0x1_0000, c + d * 0x100, a + b * 0x100);
    DivModUnique(w, 0x100_0000, d, a + b * 0x100 + c * 0x1_0000);
  }

  /** Word k of the data. */
  function WordAt(data: seq<Byte>, k: nat): nat
    requires 4 * k + 4 <= |data|
  {
    PackWord(data[4 * k], data[4 * k + 1], data[4 * k + 2], data[4 * k + 3])
  }

  function WordText(w: nat): (s: string)
    ensures |s| == 11
  {
    "0x" + Digits(w, 16, 8) + "u"
  }

  function ParseWord(s: string): Option<nat>
  {
    if |s| == 11 && s[..2] == "0x" && s[10] == 'u' then ParseDigits(s[2..10], 16) else None
  }

  lemma WordTextRoundTrip(w: nat)
    requires w < WORD
    ensures ParseWord(WordText(w)) == Some(w)
  {
    var s := WordText(w);
    assert s[2..10] == Digits(w, 16, 8) && s[..2] == "0x";
    Power16();
    DigitsRoundTrip(w, 16, 8);
  }

  lemma Power16()
    ensures Power(16, 8) == WORD
  {
    assert Power(16, 2) == 256 && Power(16, 4) == 0x1_0000 && Power(16, 6) == 0x100_0000;
  }

  // ---------------------------------------------------------------- the array

  function Join(parts: seq<string>): string {
    if |parts| == 0 then ""
    else if |parts| == 1 then parts[0]
    else Join(parts[..|parts| - 1]) + ", " + parts[|parts| - 1]
  }

  /** The words of the data as text, in order. */
  function Texts(data: seq<Byte>, n: nat): seq<string>
    requires 4 * n <= |data|
  {
    seq(n, k requires 0 <= k < n => WordText(WordAt(data, k)))
  }

  /** A comma and a space stand between words, and only there. */
  lemma JoinWrittenOut(a: string, b: string, c: string)
    ensures Join([]) == "" && Join([a]) == a && Join([a, b]) == a + ", " + b
    ensures Join([a, b, c]) == a + ", " + b + ", " + c
  {
    assert [a, b][..1] == [a] && [a, b, c][..2] == [a, b];
  }

  lemma TextParts(digits: string, i: nat)
    requires |digits| == 8 && i < 8
    ensures var s := "0x" + digits + "u"; s[0] == '0' && s[1] == 'x' && s[10] == 'u' && s[9 - i] == digits[7 - i]
  {
  }

  /** The text of a word: prefix, eight digits from the highest down, suffix. */
  lemma WordTextIs(w: nat, i: nat)
    requires i < 8
    ensures var s := WordText(w);
            && s[0] == '0' && s[1] == 'x' && s[10] == 'u'
            && s[9 - i] == DigitChar(Remainder(Quotient(w, PowerPositive(16, i)), 16))
  {
    DigitAt(w, 16, 8, i);
    hide Digits, DigitChar, Remainder, Quotient, PowerPositive;
    TextParts(Digits(w, 16, 8), i);
  }

  datatype Emitted = Emitted(array: string, length: string)

  /** The initialiser and the length, or an error when the size is not a multiple of 4. */
  method Emit(data: seq<Byte>) returns (out: Option<Emitted>)
    ensures out == if |data| % 4 != 0 then None
                   else Some(Emitted(Join(Texts(data, |data| / 4)), Decimal(|data|)))
  {
    if |data| % 4 != 0 {
      return None;
    }
    hide PackWord, WordText, Join, Decimal;
    var words: seq<string> := [];
    var j := 0;
    ghost var n := 0;
    while j < |data|
      invariant j == 4 * n <= |data| && words == Texts(data, n)
    {
      var w := PackWord(data[j], data[j + 1], data[j + 2], data[j + 3]);
      assert w == WordAt(data, n);
      words := words + [WordText(w)];
      j := j + 4;
      n := n + 1;
    }
    assert n == |data| / 4;
    return Some(Emitted(Join(words), Decimal(|data|)));
  }

  /** A reader of the initialiser: words of eleven characters, two characters between them. */
  function Parse(s: string): Option<seq<nat>> {
    if s == "" then Some([])
    else if |s| <= 11 then
      match ParseWord(s)
      case Some(w) => Some([w])
      case None => None
    else if |s| <= 13 || s[|s| - 13..|s| - 11] != ", " then None
    else
      match (Parse(s[..|s| - 13]), ParseWord(s[|s| - 11..]))
      case (Some(ws), Some(w)) => Some(ws + [w])
      case _ => None
  }

  function Unpack(ws: seq<nat>): seq<Byte> {
    if ws == [] then [] else Unpack(ws[..|ws| - 1]) + UnpackWord(ws[|ws| - 1])
  }

  function Words(data: seq<Byte>, n: nat): seq<nat>
    requires 4 * n <= |data|
  {
    seq(n, k requires 0 <= k < n => WordAt(data, k))
  }

  lemma ParseJoined(prefix: string, t: string, ws: seq<nat>, w: nat)
    requires |prefix| >= 11 && |t| == 11 && Parse(prefix) == Some(ws) && ParseWord(t) == Some(w)
    ensures Parse(prefix + ", " + t) == Some(ws + [w])
  {
    hide ParseWord;
    var s := prefix + ", " + t;
    assert s[|s| - 11..] == t && s[..|s| - 13] == prefix && s[|s| - 13..|s| - 11] == ", ";
  }

  lemma {:induction false} ParseRoundTrip(data: seq<Byte>, n: nat)
    requires 4 * n <= |data|
    ensures Parse(Join(Texts(data, n))) == Some(Words(data, n))
    ensures n > 0 ==> |Join(Texts(data, n))| >= 11
  {
    hide PackWord, WordText, ParseWord;
    if n == 0 {
      assert Texts(data, n) == [] && Words(data, n) == [];
    } else {
      var k := n - 1;
      var w := WordAt(data, k);
      WordRoundTrip(data[4 * k], data[4 * k + 1], data[4 * k + 2], data[4 * k + 3]);
      WordTextRoundTrip(w);
      ParseRoundTrip(data, k);
      var t, rest := WordText(w), Texts(data, k);
      assert Texts(data, n)[..k] == rest && Texts(data, n)[k] == t;
      assert Words(data, n) == Words(data, k) + [w];
      if k > 0 {
        assert Join(Texts(data, n)) == Join(rest) + ", " + t;
        hide Parse, Join;
        ParseJoined(Join(rest), t, Words(data, k), w);
      } else {
        assert Join(Texts(data, n)) == t && Words(data, n) == [w];
      }
    }
  }

  lemma {:induction false} UnpackRoundTrip(data: seq<Byte>, n: nat)
    requires 4 * n <= |data|
    ensures Unpack(Words(data, n)) == data[..4 * n]
  {
    hide PackWord, UnpackWord;
    if n > 0 {
      var k := n - 1;
      UnpackRoundTrip(data, k);
      WordRoundTrip(data[4 * k], data[4 * k + 1], data[4 * k + 2], data[4 * k + 3]);
      assert Words(data, n)[..k] == Words(data, k);
      assert data[..4 * n] == data[..4 * k] + [data[4 * k], data[4 * k + 1], data[4 * k + 2], data[4 * k + 3]];
    }
  }

  /** Whoever reads the emitted array and length back has the file: its bytes, and four times the word count. */
  lemma EmittedIsFile(data: seq<Byte>)
    requires |data| % 4 == 0
    ensures var text := Join(Texts(data, |data| / 4));
            Parse(text).Some? && Unpack(Parse(text).value) == data
            && ParseDigits(Decimal(|data|), 10) == Some(4 * |Parse(text).value|)
  {
    hide Decimal;
    var n := |data| / 4;
    ParseRoundTrip(data, n);
    UnpackRoundTrip(data, n);
    DecimalRoundTrip(|data|);
    assert data[..4 * n] == data;
  }
}
