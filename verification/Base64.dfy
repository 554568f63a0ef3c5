/** Base64 as Go's encoding/base64 reads and writes it (RFC 4648, sections 4 and 5):
    the standard and the URL-safe alphabet, with and without padding. Decoding is
    lenient, as in Go: line breaks are skipped and unused trailing bits are ignored. */
module Base64 {
  import opened Wrappers

  type byte = x: int | 0 <= x < 256
  type sextet = x: int | 0 <= x < 64

  /** Which symbols stand for 62 and 63, and whether the last quantum is padded. */
  datatype Encoding = Encoding(urlSafe: bool, padded: bool)

  const StdEncoding := Encoding(false, true)
  const URLEncoding := Encoding(true, true)
  const RawURLEncoding := Encoding(true, false)

  function Symbol(e: Encoding, v: sextet): (c: char)
    ensures Value(e, c) == Some(v) && c != '=' && c != '\n' && c != '\r'
  {
    if v < 26 then 'A' + v as char
    else if v < 52 then 'a' + (v - 26) as char
    else if v < 62 then '0' + (v - 52) as char
    else if v == 62 then (if e.urlSafe then '-' else '+')
    else if e.urlSafe then '_' else '/'
  }

  function Value(e: Encoding, c: char): Option<sextet> {
    if 'A' <= c <= 'Z' then Some(c as int - 'A' as int)
    else if 'a' <= c <= 'z' then Some(c as int - 'a' as int + 26)
    else if '0' <= c <= '9' then Some(c as int - '0' as int + 52)
    else if c == (if e.urlSafe then '-' else '+') then Some(62)
    else if c == (if e.urlSafe then '_' else '/') then Some(63)
    else None
  }

  predicate InAlphabet(e: Encoding, c: char) {
    Value(e, c).Some?
  }

  function Quantum(e: Encoding, a: byte, b: byte, c: byte): string {
    [Symbol(e, a / 4), Symbol(e, a % 4 * 16 + b / 16), Symbol(e, b % 16 * 4 + c / 64), Symbol(e, c % 64)]
  }

  function Encode(e: Encoding, bytes: seq<byte>): string {
    match |bytes|
    case 0 => []
    case 1 => Quantum(e, bytes[0], 0, 0)[..2] + (if e.padded then "==" else "")
    case 2 => Quantum(e, bytes[0], bytes[1], 0)[..3] + (if e.padded then "=" else "")
    case _ => Quantum(e, bytes[0], bytes[1], bytes[2]) + Encode(e, bytes[3..])
  }

  function Unwrapped(s: string): string {
    if s == [] then []
    else if s[0] == '\n' || s[0] == '\r' then Unwrapped(s[1..])
    else [s[0]] + Unwrapped(s[1..])
  }

  predicate AllInAlphabet(e: Encoding, s: string) {
    forall i :: 0 <= i < |s| ==> InAlphabet(e, s[i])
  }

  /** The value of a symbol that is in the alphabet. */
  function Digit(e: Encoding, c: char): sextet
    requires InAlphabet(e, c)
  {
    Value(e, c).value
  }

  /** The bytes of a quantum of two to four symbols; bits beyond them are dropped. */
  function Bytes(e: Encoding, s: string): (r: seq<byte>)
    requires 2 <= |s| <= 4 && AllInAlphabet(e, s)
    ensures |r| == |s| - 1
  {
    [Digit(e, s[0]) * 4 + Digit(e, s[1]) / 16]
    + (if |s| >= 3 then [Digit(e, s[1]) % 16 * 16 + Digit(e, s[2]) / 4] else [])
    + (if |s| >= 4 then [Digit(e, s[2]) % 4 * 64 + Digit(e, s[3])] else [])
  }

  function DecodeQuanta(e: Encoding, s: string): Option<seq<byte>> {
    if s == [] then Some([])
    else if |s| >= 4 && AllInAlphabet(e, s[..4]) then
      match DecodeQuanta(e, s[4..])
      case None => None
      case Some(rest) => Some(Bytes(e, s[..4]) + rest)
    else if e.padded then
      if |s| == 4 && AllInAlphabet(e, s[..2]) && s[2] == '=' && s[3] == '=' then Some(Bytes(e, s[..2]))
      else if |s| == 4 && AllInAlphabet(e, s[..3]) && s[3] == '=' then Some(Bytes(e, s[..3]))
      else None
    else if 2 <= |s| <= 3 && AllInAlphabet(e, s) then Some(Bytes(e, s))
    else None
  }

  function Decode(e: Encoding, s: string): Option<seq<byte>> {
    DecodeQuanta(e, Unwrapped(s))
  }

  /** The re-encoding check: s is the one spelling of exactly n bytes that Encode produces. */
  predicate Canonical(e: Encoding, s: string, n: nat) {
    match Decode(e, s)
    case None => false
    case Some(bytes) => |bytes| == n && Encode(e, bytes) == s
  }

  // ---------- the table and the bit order of RFC 4648 ----------

  /** Tables 1 and 2 of RFC 4648. */
  const UPPER := "ABCDEFGHIJKLMNOPQRSTUVWXYZ"
  const LOWER := "abcdefghijklmnopqrstuvwxyz"
  const DIGITS := "0123456789"

  function Alphabet(e: Encoding): string {
    UPPER + LOWER + DIGITS + if e.urlSafe then "-_" else "+/"
  }

  lemma SymbolsStandInTheTable(e: Encoding, v: sextet)
    ensures |Alphabet(e)| == 64 && Symbol(e, v) == Alphabet(e)[v]
    ensures Value(e, Alphabet(e)[v]) == Some(v)
  {
    assert |UPPER| == 26 && |LOWER| == 26 && |DIGITS| == 10;
    if v < 26 {
      assert Alphabet(e)[v] == UPPER[v] == 'A' + v as char;
    } else if v < 52 {
      assert Alphabet(e)[v] == LOWER[v - 26] == 'a' + (v - 26) as char;
    } else if v < 62 {
      assert Alphabet(e)[v] == DIGITS[v - 52] == '0' + (v - 52) as char;
    }
  }

  /** Read as one number in base 64, a quantum is its three bytes read as one number in base 256. */
  lemma QuantumIsOneNumber(e: Encoding, a: byte, b: byte, c: byte)
    ensures AllInAlphabet(e, Quantum(e, a, b, c))
    ensures var q := Quantum(e, a, b, c);
      ((Digit(e, q[0]) * 64 + Digit(e, q[1])) * 64 + Digit(e, q[2])) * 64 + Digit(e, q[3])
      == (a * 256 + b) * 256 + c
  {
    QuantumBytes(e, a, b, c);
    var q := Quantum(e, a, b, c);
    assert Digit(e, q[0]) == a / 4 && Digit(e, q[1]) == a % 4 * 16 + b / 16;
    assert Digit(e, q[2]) == b % 16 * 4 + c / 64 && Digit(e, q[3]) == c % 64;
  }

  // ---------- round trips ----------

  lemma Reassembles(a: byte, b: byte, c: byte)
    ensures a / 4 * 4 + (a % 4 * 16 + b / 16) / 16 == a
    ensures (a % 4 * 16 + b / 16) % 16 * 16 + (b % 16 * 4 + c / 64) / 4 == b
    ensures (b % 16 * 4 + c / 64) % 4 * 64 + c % 64 == c
  {
  }

  lemma QuantumBytes(e: Encoding, a: byte, b: byte, c: byte)
    ensures AllInAlphabet(e, Quantum(e, a, b, c))
    ensures Bytes(e, Quantum(e, a, b, c)) == [a, b, c]
  {
    Reassembles(a, b, c);
    var q := Quantum(e, a, b, c);
    assert Digit(e, q[0]) == a / 4;
    assert Digit(e, q[1]) == a % 4 * 16 + b / 16;
    assert Digit(e, q[2]) == b % 16 * 4 + c / 64;
    assert Digit(e, q[3]) == c % 64;
  }

  lemma ShorterQuantum(e: Encoding, s: string, n: nat)
    requires |s| == 4 && AllInAlphabet(e, s) && 2 <= n <= 4
    ensures AllInAlphabet(e, s[..n]) && Bytes(e, s[..n]) == Bytes(e, s)[..n - 1]
  {
  }

  /** What a last quantum of two or three symbols is filled up with. */
  function Padding(e: Encoding, symbols: nat): string {
    if !e.padded then "" else if symbols == 2 then "==" else "="
  }

  /** A last, incomplete quantum, padded or not. */
  lemma DecodesTail(e: Encoding, q: string)
    requires 2 <= |q| <= 3 && AllInAlphabet(e, q)
    ensures DecodeQuanta(e, q + Padding(e, |q|)) == Some(Bytes(e, q))
  {
    var s := q + Padding(e, |q|);
    assert s[..|q|] == q && !InAlphabet(e, '=');
    if e.padded {
      assert s[..4][3] == '=';
      if |q| == 2 {
        assert s[..3][2] == '=';
      }
    } else {
      assert s == q;
    }
  }

  lemma EncodesTail(e: Encoding, bytes: seq<byte>)
    requires 1 <= |bytes| <= 2
    ensures var q := Quantum(e, bytes[0], if |bytes| == 2 then bytes[1] else 0, 0)[..|bytes| + 1];
      && AllInAlphabet(e, q) && Bytes(e, q) == bytes && Encode(e, bytes) == q + Padding(e, |q|)
  {
    var n := |bytes|;
    var q := Quantum(e, bytes[0], if n == 2 then bytes[1] else 0, 0);
    QuantumBytes(e, bytes[0], if n == 2 then bytes[1] else 0, 0);
    ShorterQuantum(e, q, n + 1);
  }

  lemma {:induction false} DecodesQuanta(e: Encoding, bytes: seq<byte>)
    ensures DecodeQuanta(e, Encode(e, bytes)) == Some(bytes)
  {
    if 1 <= |bytes| <= 2 {
      EncodesTail(e, bytes);
      DecodesTail(e, Quantum(e, bytes[0], if |bytes| == 2 then bytes[1] else 0, 0)[..|bytes| + 1]);
    } else if |bytes| >= 3 {
      var q := Quantum(e, bytes[0], bytes[1], bytes[2]);
      var s := q + Encode(e, bytes[3..]);
      QuantumBytes(e, bytes[0], bytes[1], bytes[2]);
      assert s[..4] == q && s[4..] == Encode(e, bytes[3..]);
      DecodesQuanta(e, bytes[3..]);
      assert bytes == [bytes[0], bytes[1], bytes[2]] + bytes[3..];
    }
  }

  /** Encode writes no line breaks. */
  lemma {:induction false} EncodesOneLine(e: Encoding, bytes: seq<byte>)
    ensures '\n' !in Encode(e, bytes) && '\r' !in Encode(e, bytes)
  {
    if |bytes| >= 3 {
      EncodesOneLine(e, bytes[3..]);
    }
  }

  lemma {:induction false} UnwrappedLine(s: string)
    requires '\n' !in s && '\r' !in s
    ensures Unwrapped(s) == s
  {
    if s != [] {
      UnwrappedLine(s[1..]);
    }
  }

  lemma RoundTrip(e: Encoding, bytes: seq<byte>)
    ensures Decode(e, Encode(e, bytes)) == Some(bytes)
  {
    EncodesOneLine(e, bytes);
    UnwrappedLine(Encode(e, bytes));
    DecodesQuanta(e, bytes);
  }

  lemma EncodeInjective(e: Encoding, a: seq<byte>, b: seq<byte>)
    ensures Encode(e, a) == Encode(e, b) <==> a == b
  {
    RoundTrip(e, a);
    RoundTrip(e, b);
  }

  /** The re-encoding check accepts exactly the image of Encode: one spelling per byte string. */
  lemma CanonicalIsImage(e: Encoding, s: string, n: nat)
    ensures Canonical(e, s, n) <==> exists bytes: seq<byte> :: |bytes| == n && s == Encode(e, bytes)
  {
    forall bytes: seq<byte> | |bytes| == n && s == Encode(e, bytes)
      ensures Canonical(e, s, n)
    {
      RoundTrip(e, bytes);
    }
    if Canonical(e, s, n) {
      assert s == Encode(e, Decode(e, s).value);
    }
  }

  // ---------- without the check, a byte string has many spellings ----------

  /** A line break may stand anywhere. */
  lemma {:induction false} LineBreaksAreSkipped(e: Encoding, a: string, lineBreak: char, b: string)
    requires lineBreak == '\n' || lineBreak == '\r'
    ensures Unwrapped(a + [lineBreak] + b) == Unwrapped(a + b)
    ensures Decode(e, a + [lineBreak] + b) == Decode(e, a + b)
  {
    if a == [] {
      assert a + [lineBreak] + b == [lineBreak] + b && a + b == b;
      assert ([lineBreak] + b)[1..] == b;
    } else {
      LineBreaksAreSkipped(e, a[1..], lineBreak, b);
      assert (a + [lineBreak] + b)[1..] == a[1..] + [lineBreak] + b && (a + b)[1..] == a[1..] + b;
    }
  }

  predicate SingleLine(s: string) {
    '\n' !in s && '\r' !in s
  }

  function Unpadded(s: string): (p: string)
    ensures |p| <= |s|
  {
    if s != [] && s[|s| - 1] == '=' then Unpadded(s[..|s| - 1]) else s
  }

  /** The bits of the last symbol that no byte uses are zero. */
  predicate UnusedBitsZero(e: Encoding, s: string) {
    var p := Unpadded(s);
    && (|p| % 4 == 2 ==> InAlphabet(e, p[|p| - 1]) && Digit(e, p[|p| - 1]) % 16 == 0)
    && (|p| % 4 == 3 ==> InAlphabet(e, p[|p| - 1]) && Digit(e, p[|p| - 1]) % 4 == 0)
  }

  lemma SymbolOfDigit(e: Encoding, c: char, v: sextet)
    requires InAlphabet(e, c)
    ensures Symbol(e, v) == c <==> v == Digit(e, c)
  {
  }

  lemma FullQuantum(e: Encoding, q: string)
    requires |q| == 4 && AllInAlphabet(e, q)
    ensures var b := Bytes(e, q); Quantum(e, b[0], b[1], b[2]) == q
  {
    var b := Bytes(e, q);
    assert InAlphabet(e, q[0]) && InAlphabet(e, q[1]) && InAlphabet(e, q[2]) && InAlphabet(e, q[3]);
    SymbolOfDigit(e, q[0], b[0] / 4);
    SymbolOfDigit(e, q[1], b[0] % 4 * 16 + b[1] / 16);
    SymbolOfDigit(e, q[2], b[1] % 16 * 4 + b[2] / 64);
    SymbolOfDigit(e, q[3], b[2] % 64);
  }

  /** Re-encoding a last quantum clears its unused bits and changes nothing else. */
  predicate Reencoded(e: Encoding, c: string, q: string, scale: int)
    requires 0 < |q| && scale > 0 && InAlphabet(e, q[|q| - 1])
  {
    && |c| == |q| + |Padding(e, |q|)| && c[|q|..] == Padding(e, |q|) && c[..|q| - 1] == q[..|q| - 1]
    && (c[|q| - 1] == q[|q| - 1] <==> Digit(e, q[|q| - 1]) % scale == 0)
  }

  lemma ReencodesTwo(e: Encoding, q: string)
    requires |q| == 2 && AllInAlphabet(e, q)
    ensures InAlphabet(e, q[1]) && Reencoded(e, Encode(e, Bytes(e, q)), q, 16)
  {
    var b := Bytes(e, q);
    assert InAlphabet(e, q[0]) && InAlphabet(e, q[1]);
    SymbolOfDigit(e, q[0], b[0] / 4);
    SymbolOfDigit(e, q[1], b[0] % 4 * 16);
    assert Encode(e, b) == [Symbol(e, b[0] / 4), Symbol(e, b[0] % 4 * 16)] + Padding(e, 2);
  }

  lemma ReencodesThree(e: Encoding, q: string)
    requires |q| == 3 && AllInAlphabet(e, q)
    ensures InAlphabet(e, q[2]) && Reencoded(e, Encode(e, Bytes(e, q)), q, 4)
  {
    var b := Bytes(e, q);
    assert InAlphabet(e, q[0]) && InAlphabet(e, q[1]) && InAlphabet(e, q[2]);
    SymbolOfDigit(e, q[0], b[0] / 4);
    SymbolOfDigit(e, q[1], b[0] % 4 * 16 + b[1] / 16);
    SymbolOfDigit(e, q[2], b[1] % 16 * 4);
    assert Encode(e, b) ==
      [Symbol(e, b[0] / 4), Symbol(e, b[0] % 4 * 16 + b[1] / 16), Symbol(e, b[1] % 16 * 4)] + Padding(e, 3);
  }

  lemma UnpaddedTail(e: Encoding, q: string)
    requires 2 <= |q| <= 3 && AllInAlphabet(e, q)
    ensures Unpadded(q + Padding(e, |q|)) == q
  {
    var s := q + Padding(e, |q|);
    assert q[|q| - 1] != '=' && Unpadded(q) == q;
    if e.padded {
      assert s[..|s| - 1] == if |q| == 2 then q + "=" else q;
      assert (q + "=")[..|q|] == q && Unpadded(q + "=") == q;
    } else {
      assert s == q;
    }
  }

  lemma {:induction false} UnpaddedConcat(q: string, s: string)
    requires q != [] && q[|q| - 1] != '='
    ensures Unpadded(q + s) == q + Unpadded(s)
    decreases |s|
  {
    if s == [] {
      assert q + s == q;
    } else if s[|s| - 1] == '=' {
      assert (q + s)[..|q + s| - 1] == q + s[..|s| - 1];
      UnpaddedConcat(q, s[..|s| - 1]);
    }
  }

  /** c spells what s spells, but for the symbol that carries the unused bits. */
  predicate SpelledAlike(c: string, s: string) {
    |c| == |s| && forall k | 0 <= k < |s| && k != |Unpadded(s)| - 1 :: c[k] == s[k]
  }

  lemma AlikeAfter(q: string, d: string, rest: string)
    requires |q| == 4 && q[3] != '=' && SpelledAlike(d, rest)
    ensures SpelledAlike(q + d, q + rest) && (q + d == q + rest <==> d == rest)
  {
    UnpaddedConcat(q, rest);
    assert (q + d)[4..] == d && (q + rest)[4..] == rest;
  }

  lemma UnusedBitsAfter(e: Encoding, q: string, rest: string)
    requires |q| == 4 && q[3] != '='
    ensures UnusedBitsZero(e, q + rest) <==> UnusedBitsZero(e, rest)
  {
    UnpaddedConcat(q, rest);
    var p := Unpadded(rest);
    assert |q + p| % 4 == |p| % 4;
    assert p != [] ==> (q + p)[|q + p| - 1] == p[|p| - 1];
  }

  /** A full quantum in front is decoded and encoded on its own. */
  lemma QuantumInFront(e: Encoding, q: string, rest: string)
    requires |q| == 4 && AllInAlphabet(e, q) && DecodeQuanta(e, q + rest).Some?
    ensures q[3] != '=' && DecodeQuanta(e, rest).Some?
    ensures Encode(e, DecodeQuanta(e, q + rest).value) == q + Encode(e, DecodeQuanta(e, rest).value)
  {
    var s := q + rest;
    assert s[..4] == q && s[4..] == rest && InAlphabet(e, q[3]);
    FullQuantum(e, q);
    var bytes := Bytes(e, q) + DecodeQuanta(e, rest).value;
    assert bytes[3..] == DecodeQuanta(e, rest).value;
  }

  /** A text that decodes and starts with no full quantum is a last one, with its padding. */
  lemma LastQuantum(e: Encoding, s: string) returns (q: string)
    requires s != [] && !(|s| >= 4 && AllInAlphabet(e, s[..4])) && DecodeQuanta(e, s).Some?
    ensures 2 <= |q| <= 3 && AllInAlphabet(e, q) && s == q + Padding(e, |q|)
  {
    var n := if !e.padded then |s| else if s[2] == '=' then 2 else 3;
    q := s[..n];
    assert s == q + Padding(e, n);
  }

  lemma {:induction false} ReencodesQuanta(e: Encoding, s: string)
    requires DecodeQuanta(e, s).Some?
    ensures var c := Encode(e, DecodeQuanta(e, s).value);
      SpelledAlike(c, s) && (c == s <==> UnusedBitsZero(e, s))
  {
    if s == [] {
    } else if |s| >= 4 && AllInAlphabet(e, s[..4]) {
      var q, rest := s[..4], s[4..];
      assert s == q + rest;
      QuantumInFront(e, q, rest);
      ReencodesQuanta(e, rest);
      AlikeAfter(q, Encode(e, DecodeQuanta(e, rest).value), rest);
      UnusedBitsAfter(e, q, rest);
    } else {
      var q := LastQuantum(e, s);
      ReencodesLast(e, q);
    }
  }

  lemma ReencodesLast(e: Encoding, q: string)
    requires 2 <= |q| <= 3 && AllInAlphabet(e, q)
    ensures var s, c := q + Padding(e, |q|), Encode(e, Bytes(e, q));
      && DecodeQuanta(e, s) == Some(Bytes(e, q))
      && SpelledAlike(c, s) && (c == s <==> UnusedBitsZero(e, s))
  {
    DecodesTail(e, q);
    if |q| == 2 {
      ReencodesTwo(e, q);
    } else {
      ReencodesThree(e, q);
    }
    UnpaddedTail(e, q);
    AlikeButAt(Encode(e, Bytes(e, q)), q, Padding(e, |q|));
    assert InAlphabet(e, q[|q| - 1]);
  }

  lemma AlikeButAt(c: string, q: string, padding: string)
    requires q != [] && |c| == |q| + |padding| && c[|q|..] == padding && c[..|q| - 1] == q[..|q| - 1]
    requires Unpadded(q + padding) == q
    ensures SpelledAlike(c, q + padding) && (c == q + padding <==> c[|q| - 1] == q[|q| - 1])
  {
    var s := q + padding;
    forall k | 0 <= k < |s| && k != |q| - 1
      ensures c[k] == s[k]
    {
      if k < |q| {
        assert c[k] == c[..|q| - 1][k] && q[k] == q[..|q| - 1][k];
      } else {
        assert c[k] == c[|q|..][k - |q|];
      }
    }
  }

  lemma {:induction false} UnwrappedIsLine(s: string)
    ensures SingleLine(Unwrapped(s)) && (Unwrapped(s) == s <==> SingleLine(s))
  {
    if s != [] {
      UnwrappedIsLine(s[1..]);
      assert s == [s[0]] + s[1..];
    }
  }

  /** Decoding ignores the unused bits of the last symbol: a text on one line is spelled like the
      encoding of its own bytes everywhere else, and there too if and only if those bits are zero. */
  lemma TrailingBitsAreIgnored(e: Encoding, s: string)
    requires SingleLine(s) && Decode(e, s).Some?
    ensures var c := Encode(e, Decode(e, s).value);
      && Decode(e, c) == Decode(e, s) && SpelledAlike(c, s) && (c == s <==> UnusedBitsZero(e, s))
  {
    UnwrappedIsLine(s);
    ReencodesQuanta(e, s);
    RoundTrip(e, Decode(e, s).value);
  }

  /** The re-encoding check accepts exactly the texts that decode to that many bytes, stand on one
      line and leave their unused bits zero. */
  lemma CanonicalExactly(e: Encoding, s: string, n: nat)
    ensures Canonical(e, s, n) <==>
      && Decode(e, s).Some? && |Decode(e, s).value| == n && SingleLine(s) && UnusedBitsZero(e, s)
  {
    if Decode(e, s).Some? {
      EncodesOneLine(e, Decode(e, s).value);
      if SingleLine(s) {
        TrailingBitsAreIgnored(e, s);
      }
    }
  }
}
