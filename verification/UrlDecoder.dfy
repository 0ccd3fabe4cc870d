/** `url_decode`: percent-decoding in one pass, writing behind the read position. */
module UrlDecoder {
  /** A character by its code. */
  type Octet = b: int | 0 <= b < 256

  const PERCENT: Octet := '%' as int
  const PLUS: Octet := '+' as int
  const SPACE: Octet := ' ' as int

  predicate IsHex(b: Octet) { 48 <= b <= 57 || 65 <= b <= 70 || 97 <= b <= 102 }

  /** The value of a hexadecimal digit, by the three ranges of digits. */
  function HexValue(b: Octet): (v: int)
    requires IsHex(b)
    ensures 0 <= v < 16
  {
    if 48 <= b <= 57 then b - 48          // '0' to '9'
    else if 65 <= b <= 70 then b - 65 + 10  // 'A' to 'F'
    else b - 97 + 10                        // 'a' to 'f'
  }

  /** The digits in order, in either case. */
  const UPPER_DIGITS: seq<Octet> := [48, 49, 50, 51, 52, 53, 54, 55, 56, 57, 65, 66, 67, 68, 69, 70]
  const LOWER_DIGITS: seq<Octet> := [48, 49, 50, 51, 52, 53, 54, 55, 56, 57, 97, 98, 99, 100, 101, 102]

  function HexDigit(v: int, upper: bool): (b: Octet)
    requires 0 <= v < 16
    ensures IsHex(b) && HexValue(b) == v
  {
    if upper then UPPER_DIGITS[v] else LOWER_DIGITS[v]
  }

  /** Every hexadecimal digit is the digit of its value, in one case or the other. */
  lemma {:induction false} DigitOfValue(b: Octet)
    requires IsHex(b)
    ensures b == HexDigit(HexValue(b), true) || b == HexDigit(HexValue(b), false)
  {
  }

  predicate EscapeAt(s: seq<Octet>, i: nat) {
    i + 2 < |s| && s[i] == PERCENT && IsHex(s[i + 1]) && IsHex(s[i + 2])
  }

  function Decode(s: seq<Octet>): (d: seq<Octet>)
    ensures |d| <= |s|
  {
    if s == [] then []
    else if EscapeAt(s, 0) then [16 * HexValue(s[1]) + HexValue(s[2])] + Decode(s[3..])
    else [if s[0] == PLUS then SPACE else s[0]] + Decode(s[1..])
  }

  /** The subtractions of the source give the one character that the two digits are the escape of: its
      high and low half, each written in either case. */
  method FromHex(first: Octet, second: Octet) returns (c: Octet)
    requires IsHex(first) && IsHex(second)
    ensures first == HexDigit(c / 16, true) || first == HexDigit(c / 16, false)
    ensures second == HexDigit(c % 16, true) || second == HexDigit(c % 16, false)
    ensures c == 16 * HexValue(first) + HexValue(second)
  {
    var a, b: int := first, second;
    if a >= 97 { a := a - 32; }
    if a >= 65 { a := a - 55; } else { a := a - 48; }
    if b >= 97 { b := b - 32; }
    if b >= 65 { b := b - 55; } else { b := b - 48; }
    assert a == HexValue(first) && b == HexValue(second);
    c := 16 * a + b;
    DigitOfValue(first);
    DigitOfValue(second);
    assert c / 16 == a && c % 16 == b;
  }

  /** Decoding from position `r` on. */
  lemma {:induction false} DecodeFrom(src: seq<Octet>, r: nat)
    requires r < |src|
    ensures EscapeAt(src, r) ==>
              Decode(src[r..]) == [16 * HexValue(src[r + 1]) + HexValue(src[r + 2])] + Decode(src[r + 3..])
    ensures !EscapeAt(src, r) ==>
              Decode(src[r..]) == [if src[r] == PLUS then SPACE else src[r]] + Decode(src[r + 1..])
  {
    var t := src[r..];
    assert EscapeAt(src, r) <==> EscapeAt(t, 0);
    if EscapeAt(t, 0) {
      assert t[3..] == src[r + 3..];
    } else {
      assert t[1..] == src[r + 1..];
    }
  }

  /** One round of the loop: the byte written and the next read position. */
  method DecodeOne(src: seq<Octet>, from: nat) returns (c: Octet, r: nat)
    requires from < |src|
    ensures from < r <= |src| && Decode(src[from..]) == [c] + Decode(src[r..])
  {
    hide Decode, HexValue, IsHex;
    DecodeFrom(src, from);
    if EscapeAt(src, from) {
      c := FromHex(src[from + 1], src[from + 2]);
      r := from + 3;
    } else if src[from] == PLUS {
      c, r := SPACE, from + 1;
    } else {
      c, r := src[from], from + 1;
    }
  }

  /** The text `src` is read up to its terminator; on every input the write position stays at or behind
      the read position, so that `dst` needs no more cells than `src` has. */
  method UrlDecode(dst: array<Octet>, src: seq<Octet>) returns (n: nat)
    requires 0 !in src && dst.Length > |src|
    modifies dst
    ensures n <= |src| && dst[..n] == Decode(src) && dst[n] == 0
    ensures forall k :: n < k < dst.Length ==> dst[k] == old(dst[k])
  {
    hide Decode;
    var r := 0;
    n := 0;
    assert src[0..] == src;
    while r < |src|
      invariant 0 <= n <= r <= |src|
      invariant dst[..n] + Decode(src[r..]) == Decode(src)
      invariant forall k :: n <= k < dst.Length ==> dst[k] == old(dst[k])
    {
      ghost var done, todo := dst[..n], Decode(src[r..]);
      var c;
      c, r := DecodeOne(src, r);
      dst[n] := c;
      n := n + 1;
      assert dst[..n] == done + [c];
      assert done + todo == (done + [c]) + Decode(src[r..]);
    }
    NothingLeft();
    assert src[|src|..] == [];
    dst[n] := 0;
  }

  lemma NothingLeft()
    ensures Decode([]) == []
  {
  }

  // ----- Encoding

  /** How one byte is written: as itself, as `+`, or escaped with digits of either case. */
  datatype Form = Raw | AsPlus | Escaped(highUpper: bool, lowUpper: bool)

  predicate Allowed(b: Octet, form: Form) {
    match form
    case Raw => b != PERCENT && b != PLUS
    case AsPlus => b == SPACE
    case Escaped(_, _) => true
  }

  function EncodeByte(b: Octet, form: Form): seq<Octet> {
    match form
    case Raw => [b]
    case AsPlus => [PLUS]
    case Escaped(high, low) => [PERCENT, HexDigit(b / 16, high), HexDigit(b % 16, low)]
  }

  function Encode(s: seq<Octet>, forms: seq<Form>): seq<Octet>
    requires |s| == |forms|
  {
    if s == [] then [] else EncodeByte(s[0], forms[0]) + Encode(s[1..], forms[1..])
  }

  lemma {:induction false} DecodeCode(b: Octet, form: Form, rest: seq<Octet>)
    requires Allowed(b, form)
    ensures Decode(EncodeByte(b, form) + rest) == [b] + Decode(rest)
    ensures b != 0 ==> 0 !in EncodeByte(b, form)
  {
    hide HexDigit, HexValue;
    var t := EncodeByte(b, form) + rest;
    if form.Escaped? {
      assert EscapeAt(t, 0) && t[3..] == rest;
      assert 16 * (b / 16) + b % 16 == b;
      HexNotNul(HexDigit(b / 16, form.highUpper));
      HexNotNul(HexDigit(b % 16, form.lowUpper));
    } else {
      assert !EscapeAt(t, 0) && t[1..] == rest;
    }
  }

  lemma HexNotNul(b: Octet)
    requires IsHex(b)
    ensures b != 0
  {
  }

  /** Decoding undoes encoding, for every text without NUL and every choice of which bytes to escape and
      how, provided `%` and `+` are escaped; and the encoded text has no NUL that would cut it short. */
  lemma {:induction false} DecodeEncode(s: seq<Octet>, forms: seq<Form>)
    requires |s| == |forms| && 0 !in s
    requires forall i :: 0 <= i < |s| ==> Allowed(s[i], forms[i])
    ensures Decode(Encode(s, forms)) == s && 0 !in Encode(s, forms)
  {
    hide Decode, EncodeByte, Allowed;
    if s == [] {
      NothingLeft();
    } else {
      DecodeEncode(s[1..], forms[1..]);
      DecodeCode(s[0], forms[0], Encode(s[1..], forms[1..]));
      assert s[0] in s && s == [s[0]] + s[1..];
    }
  }

  /** Decoding changes nothing exactly when there is neither a `+` nor a complete escape. */
  lemma {:induction false} DecodeFixed(s: seq<Octet>)
    ensures Decode(s) == s <==> PLUS !in s && forall i: nat :: i < |s| ==> !EscapeAt(s, i)
  {
    if s != [] {
      if EscapeAt(s, 0) {
        assert |Decode(s)| < |s|;
      } else {
        DecodeFixed(s[1..]);
        assert forall i: nat :: i + 1 < |s| ==> (EscapeAt(s[1..], i) <==> EscapeAt(s, i + 1));
        assert s == [s[0]] + s[1..];
        assert Decode(s)[1..] == Decode(s[1..]);
        if forall i: nat :: i < |s[1..]| ==> !EscapeAt(s[1..], i) {
          forall i: nat | i < |s|
            ensures !EscapeAt(s, i)
          {
            if i > 0 { assert !EscapeAt(s[1..], i - 1); }
          }
        }
      }
    }
  }
}
