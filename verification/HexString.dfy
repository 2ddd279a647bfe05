/** Keys as hexadecimal text (libsrtp_decrypt/srtp.c, `hexdigit` and `hexstring`). */
module HexString {
  import opened Wrappers
  import opened Bits
  import opened ByteStrings

  /** `hexdigit`: the value of a digit, -1 for any other character. */
  function HexDigit(c: char): (d: int)
    ensures -1 <= d < 16
  {
    if '0' <= c <= '9' then c as int - '0' as int
    else if 'A' <= c <= 'F' then c as int - 'A' as int + 10
    else if 'a' <= c <= 'f' then c as int - 'a' as int + 10
    else -1
  }

  /** How a digit is printed. */
  function PrintDigit(d: nat, upper: bool): char
    requires d < 16
  {
    if upper then "0123456789ABCDEF"[d] else "0123456789abcdef"[d]
  }

  predicate AllHex(text: string) {
    forall i :: 0 <= i < |text| ==> HexDigit(text[i]) != -1
  }

  /** Two characters print an octet, each in either letter case. */
  predicate PrintsOctet(high: char, low: char, b: byte) {
    && (high == PrintDigit(b / 16, true) || high == PrintDigit(b / 16, false))
    && (low == PrintDigit(b % 16, true) || low == PrintDigit(b % 16, false))
  }

  ghost predicate Prints(text: string, b: Bytes) {
    |text| == 2 * |b| && forall i :: 0 <= i < |b| ==> PrintsOctet(text[2 * i], text[2 * i + 1], b[i])
  }

  lemma DigitIff(c: char, d: nat)
    requires d < 16
    ensures HexDigit(c) == d <==> c == PrintDigit(d, true) || c == PrintDigit(d, false)
  {
  }

  // ----- joining two digits

  lemma {:induction false} OrBelow(a: nat, b: nat, n: nat)
    requires b < Pow2(n)
    ensures Or(Scale(a, n), b) == Scale(a, n) + b
  {
    if n == 0 {
      OrZero(a);
    } else {
      OrBelow(a, b / 2, n - 1);
      OrDigit(Scale(a, n - 1), b);
    }
  }

  lemma {:induction false} OrZero(a: nat)
    ensures Or(a, 0) == a
  {
    if a != 0 {
      OrZero(a / 2);
    }
  }

  lemma OrDigit(p: nat, b: nat)
    requires Or(p, b / 2) == p + b / 2
    ensures Or(2 * p, b) == 2 * p + b
  {
    assert 2 * p / 2 == p && 2 * p % 2 == 0;
  }

  /** `(a << 4) | b`. */
  function Join(a: nat, b: nat): (r: byte)
    requires a < 16 && b < 16
    ensures r / 16 == a && r % 16 == b
  {
    ScaleTwice(a, 2);
    ScaleTwice(a, 4);
    OrBelow(a, b, 4);
    Or(16 * a, b)
  }

  /** The octet of two characters, unless one of them is no digit. */
  function OctetOf(high: char, low: char): Option<byte> {
    var a, b := HexDigit(high), HexDigit(low);
    if a == -1 || b == -1 then None else Some(Join(a, b))
  }

  // ----- the loop

  /** `hexstring`: -1 exactly when the text is odd in length, too long or holds a character
      that is no digit; otherwise the octets that the text prints, and nothing else changes. */
  method Hexstring(text: string, out: array<byte>, outlen: nat) returns (n: int)
    requires outlen <= out.Length
    modifies out
    ensures n == -1 <==> |text| % 2 == 1 || |text| > 2 * outlen || !AllHex(text)
    ensures n != -1 ==> 2 * n == |text| && Prints(text, out[..n]) && out[n..] == old(out[n..])
  {
    if |text| > 2 * outlen || |text| % 2 == 1 {
      return -1;
    }
    for k := 0 to |text| / 2
      invariant forall i :: 0 <= i < k ==> OctetOf(text[2 * i], text[2 * i + 1]) == Some(out[i])
      invariant forall i :: k <= i < out.Length ==> out[i] == old(out[i])
    {
      var x := OctetOf(text[2 * k], text[2 * k + 1]);
      if x.None? {
        return -1;
      }
      out[k] := x.value;
    }
    n := |text| / 2;
    AllJoined(text, out[..n]);
  }

  lemma AllJoined(text: string, b: Bytes)
    requires |text| == 2 * |b| && forall i :: 0 <= i < |b| ==> OctetOf(text[2 * i], text[2 * i + 1]) == Some(b[i])
    ensures Prints(text, b) && AllHex(text)
  {
    forall i | 0 <= i < |b|
      ensures PrintsOctet(text[2 * i], text[2 * i + 1], b[i])
    {
      OctetOfDigits(text[2 * i], text[2 * i + 1], b[i]);
    }
    PrintsOne(text, b, b);
  }

  lemma PrintsPush(text: string, b: Bytes, high: char, low: char, x: byte)
    requires Prints(text, b) && PrintsOctet(high, low, x)
    ensures Prints(text + [high, low], b + [x])
  {
    var text', b' := text + [high, low], b + [x];
    forall i | 0 <= i < |b'|
      ensures PrintsOctet(text'[2 * i], text'[2 * i + 1], b'[i])
    {
    }
  }

  // ----- printing and reading back

  /** Every octet sequence has a printed form in either letter case ... */
  function Print(b: Bytes, upper: bool): string {
    if b == [] then ""
    else
      var x := b[|b| - 1];
      Print(b[..|b| - 1], upper) + [PrintDigit(x / 16, upper), PrintDigit(x % 16, upper)]
  }

  lemma {:induction false} PrintPrints(b: Bytes, upper: bool)
    ensures Prints(Print(b, upper), b)
  {
    if b != [] {
      var before, x := b[..|b| - 1], b[|b| - 1];
      PrintPrints(before, upper);
      PrintsPush(Print(before, upper), before, PrintDigit(x / 16, upper), PrintDigit(x % 16, upper), x);
      assert b == before + [x];
    }
  }

  lemma OctetOfDigits(high: char, low: char, b: byte)
    ensures PrintsOctet(high, low, b) <==> HexDigit(high) == b / 16 && HexDigit(low) == b % 16
  {
    DigitIff(high, b / 16);
    DigitIff(low, b % 16);
  }

  /** A text prints at most one sequence, and only texts of digits print any. */
  lemma PrintsOne(text: string, a: Bytes, b: Bytes)
    requires Prints(text, a) && Prints(text, b)
    ensures a == b && AllHex(text) && |text| % 2 == 0
  {
    forall i | 0 <= i < |a|
      ensures a[i] == b[i] && HexDigit(text[2 * i]) != -1 && HexDigit(text[2 * i + 1]) != -1
    {
      assert PrintsOctet(text[2 * i], text[2 * i + 1], a[i]) && PrintsOctet(text[2 * i], text[2 * i + 1], b[i]);
      OctetOfDigits(text[2 * i], text[2 * i + 1], a[i]);
      OctetOfDigits(text[2 * i], text[2 * i + 1], b[i]);
    }
    forall i | 0 <= i < |text|
      ensures HexDigit(text[i]) != -1
    {
      var j := i / 2;
      assert i == 2 * j || i == 2 * j + 1;
    }
  }

  /** ... which `hexstring` accepts and undoes: whatever it returns for it is the sequence. */
  lemma HexRoundTrip(b: Bytes, upper: bool, got: Bytes)
    ensures var text := Print(b, upper);
            && AllHex(text) && |text| == 2 * |b|
            && (Prints(text, got) <==> got == b)
  {
    PrintPrints(b, upper);
    PrintsOne(Print(b, upper), b, b);
    if Prints(Print(b, upper), got) {
      PrintsOne(Print(b, upper), b, got);
    }
  }
}
