/** `preprocess_string` of components/cmd_router/cmd_router.c: decoding of form values in place. */
module PercentCodec {
  import opened Bytes

  const PERCENT: byte := 37
  const PLUS: byte := 43
  const SPACE: byte := 32

  function ToUpper(b: byte): byte {
    if 97 <= b <= 122 then b - 32 else b
  }

  /** A quoted digit as the code takes it, whatever the character, wrapping at 8 bits. */
  function Digit(c: byte): byte {
    (if c <= 57 then c as int - 48 else ToUpper(c) as int - 65 + 10) % 0x100
  }

  function Quoted(high: byte, low: byte): byte {
    (Digit(high) as int * 0x10 + Digit(low)) % 0x100
  }

  /** What the loop makes of the rest of the string. */
  function Decode(s: seq<byte>): (r: seq<byte>)
    ensures |r| <= |s|
  {
    if s == [] then []
    else if s[0] == PERCENT && |s| >= 3 then [Quoted(s[1], s[2])] + Decode(s[3..])
    else if s[0] == PLUS then [SPACE] + Decode(s[1..])
    else [s[0]] + Decode(s[1..])
  }

  /** One turn of the loop, at position `p` of the string. */
  lemma DecodeAt(s: seq<byte>, p: nat)
    requires p < |s|
    ensures Decode(s[p..])
         == if s[p] == PERCENT && p + 2 < |s| then [Quoted(s[p + 1], s[p + 2])] + Decode(s[p + 3..])
            else [if s[p] == PLUS then SPACE else s[p]] + Decode(s[p + 1..])
  {
  }

  function DecodeFrom(s: seq<byte>, p: nat): seq<byte>
    requires p <= |s|
  {
    Decode(s[p..])
  }

  /** The two 8-bit steps of the code, taken together. */
  lemma QuotedInSteps(high: byte, low: byte)
    ensures ((Digit(high) as int * 0x10) % 0x100 + Digit(low)) % 0x100 == Quoted(high, low)
  {
    hide Digit;
    WrapOnce(Digit(high) as int * 0x10, Digit(low));
  }

  lemma WrapOnce(a: nat, b: nat)
    ensures (a % 0x100 + b) % 0x100 == (a + b) % 0x100
  {
  }

  /** The reading side of one turn of the loop: the octet to write and the last position read. */
  method ReadOne(str: array<byte>, start: nat, ghost s: seq<byte>, ghost done: seq<byte>) returns (octet: byte, p: nat)
    requires start < |s| < str.Length
    requires str[|s|] == 0 && forall k :: start <= k < |s| ==> str[k] == s[k] != 0
    ensures start <= p < |s|
    ensures Joined(done, DecodeFrom(s, start)) == Joined(done + [octet], DecodeFrom(s, p + 1))
  {
    p := start;
    DecodeAt(s, p);
    if str[p] == PERCENT && str[p + 1] != 0 && str[p + 2] != 0 {
      QuotedInSteps(str[p + 1], str[p + 2]);
      p := p + 1;
      octet := Digit(str[p]);
      octet := (octet as int * 0x10) % 0x100;
      p := p + 1;
      octet := (octet as int + Digit(str[p])) % 0x100;
    } else if str[p] == PLUS {
      octet := SPACE;
    } else {
      octet := str[p];
    }
    JoinNext(done, octet, DecodeFrom(s, p + 1));
  }

  /** The first `q` octets are those decoded so far, and the others are as they were. */
  ghost predicate Progress(now: seq<byte>, was: seq<byte>, done: seq<byte>, q: nat) {
    q <= |now| == |was| && now[..q] == done && forall k :: q <= k < |was| ==> now[k] == was[k]
  }

  lemma OneWritten(now: seq<byte>, was: seq<byte>, done: seq<byte>, q: nat, octet: byte)
    requires Progress(now, was, done, q) && q < |now|
    ensures Progress(now[q := octet], was, done + [octet], q + 1)
  {
  }

  /** One turn of the loop. */
  method DecodeOne(str: array<byte>, p0: nat, q: nat, ghost s: seq<byte>, ghost was: seq<byte>, ghost done: seq<byte>)
    returns (octet: byte, p: nat)
    requires q <= p0 < |s| < |was| && Progress(str[..], was, done, q)
    requires was[|s|] == 0 && forall k :: 0 <= k < |s| ==> was[k] == s[k] != 0
    modifies str
    ensures p0 < p <= |s| && Progress(str[..], was, done + [octet], q + 1)
    ensures Joined(done, DecodeFrom(s, p0)) == Joined(done + [octet], DecodeFrom(s, p))
  {
    octet, p := ReadOne(str, p0, s, done);
    ghost var now := str[..];
    str[q] := octet;
    assert str[..] == now[q := octet];
    OneWritten(now, was, done, q, octet);
    p := p + 1;
  }

  /** The loop, on a buffer holding the string `s`; `q` is where the writer ends. */
  method DecodeInPlace(str: array<byte>, ghost s: seq<byte>) returns (q: nat)
    requires |s| < str.Length && str[|s|] == 0 && forall k :: 0 <= k < |s| ==> str[k] == s[k] != 0
    modifies str
    ensures q <= |s| && str[..q] == Decode(s)
    ensures forall k :: q <= k < str.Length ==> str[k] == old(str[k])
  {
    var p := 0;
    q := 0;
    ghost var was := str[..];
    ghost var done: seq<byte> := [];
    assert s[0..] == s && s[|s|..] == [] && DecodeFrom(s, |s|) == [];
    assert Joined(done, DecodeFrom(s, 0)) == Decode(s);
    assert Progress(was, was, done, 0);
    hide Decode, DecodeFrom, Joined;
    while str[p] != 0
      invariant 0 <= q <= p <= |s| && Progress(str[..], was, done, q)
      invariant Joined(done, DecodeFrom(s, p)) == Decode(s)
      decreases |s| - p
    {
      var octet;
      octet, p := DecodeOne(str, p, q, s, was, done);
      done := done + [octet];
      q := q + 1;
    }
    JoinNothing(done);
  }

  /** Reader and writer in one buffer: the writer never passes the reader, the result is the decoder's,
      and nothing after the new NUL changes. */
  method PreprocessString(str: array<byte>)
    requires 0 in str[..]
    modifies str
    ensures var d := Decode(Str(old(str[..])));
            && |d| < str.Length
            && str[..|d|] == d && str[|d|] == 0
            && forall k :: |d| < k < str.Length ==> str[k] == old(str[k])
  {
    StrStops(str[..]);
    var q := DecodeInPlace(str, Str(str[..]));
    str[q] := 0;
  }

  function Joined(done: seq<byte>, rest: seq<byte>): seq<byte> {
    done + rest
  }

  lemma JoinNext(done: seq<byte>, octet: byte, rest: seq<byte>)
    ensures Joined(done, [octet] + rest) == Joined(done + [octet], rest)
  {
  }

  lemma JoinNothing(done: seq<byte>)
    ensures Joined(done, []) == done
  {
  }

  /** The value of a hexadecimal digit, if it is one. */
  function HexValue(c: byte): Option<byte> {
    if 48 <= c <= 57 then Some(c - 48)
    else if 65 <= c <= 70 then Some(c - 55)
    else if 97 <= c <= 102 then Some(c - 87)
    else None
  }

  /** `e` encodes `x`: octets quoted in either case of hexadecimal (section 2.1 of RFC 3986) or, except for
      "%" and "+", left as they are; a space may also be "+". */
  predicate IsEncoding(e: seq<byte>, x: seq<byte>) {
    if e == [] then x == []
    else if x == [] then false
    else if e[0] == 37 then
      && |e| >= 3
      && HexValue(e[1]).Some? && HexValue(e[2]).Some?
      && HexValue(e[1]).value as int * 0x10 + HexValue(e[2]).value == x[0]
      && IsEncoding(e[3..], x[1..])
    else
      x[0] == (if e[0] == 43 then 32 else e[0]) && IsEncoding(e[1..], x[1..])
  }

  function HexDigit(n: nat): byte
    requires n < 16
  {
    if n < 10 then 48 + n else 55 + n
  }

  /** The encoding that quotes every octet. */
  function QuoteAll(x: seq<byte>): seq<byte> {
    if x == [] then [] else [37, HexDigit(x[0] / 0x10), HexDigit(x[0] % 0x10)] + QuoteAll(x[1..])
  }

  lemma {:induction false} EveryStringHasAnEncoding(x: seq<byte>)
    ensures IsEncoding(QuoteAll(x), x)
  {
    if x != [] {
      EveryStringHasAnEncoding(x[1..]);
      assert QuoteAll(x)[3..] == QuoteAll(x[1..]);
    }
  }

  lemma DigitIsHexValue(c: byte)
    requires HexValue(c).Some?
    ensures Digit(c) == HexValue(c).value < 0x10
  {
  }

  lemma QuotedHex(high: byte, low: byte)
    requires HexValue(high).Some? && HexValue(low).Some?
    ensures Quoted(high, low) == HexValue(high).value as int * 0x10 + HexValue(low).value
  {
    DigitIsHexValue(high);
    DigitIsHexValue(low);
    hide Digit, HexValue;
  }

  /** How far a character is from "0" or, in upper case, from the letter for 10; it need not be a digit. */
  function Offset(c: byte): int {
    if c <= 57 then c - 48 else if 97 <= c <= 122 then c - 87 else c - 55
  }

  lemma DigitIsOffset(c: byte)
    ensures Digit(c) == Offset(c) % 256
  {
  }

  lemma WrapBoth(a: int, b: int)
    ensures (a % 256 * 16 + b % 256) % 256 == (16 * a + b) % 256
  {
    var x, y := a / 256, b / 256;
    assert a == a % 256 + 256 * x && b == b % 256 + 256 * y;
    assert 16 * a + b == (a % 256 * 16 + b % 256) + 256 * (16 * x + y);
  }

  /** A "%" with any two characters behind it becomes one octet, whether or not they are digits. */
  lemma QuotedAnything(high: byte, low: byte, rest: seq<byte>)
    ensures Decode([37, high, low] + rest) == [(16 * Offset(high) + Offset(low)) % 256] + Decode(rest)
  {
    var s := [37, high, low] + rest;
    assert s[3..] == rest;
    assert Decode(s) == [Quoted(high, low)] + Decode(rest);
    hide Decode, Digit, Offset;
    DigitIsOffset(high);
    DigitIsOffset(low);
    WrapBoth(Offset(high), Offset(low));
  }

  /** So "%zz" becomes the octet 0x53. */
  lemma QuotedNonDigits()
    ensures Decode([37, 122, 122]) == [0x53]
  {
    QuotedAnything(122, 122, []);
    assert [37, 122, 122] + [] == [37, 122, 122];
  }

  /** Decoding inverts every percent-encoding. */
  lemma {:induction false} DecodeInvertsEncoding(e: seq<byte>, x: seq<byte>)
    requires IsEncoding(e, x)
    ensures Decode(e) == x
    decreases |e|
  {
    if e != [] {
      hide HexValue, Quoted;
      if e[0] == PERCENT {
        QuotedHex(e[1], e[2]);
        DecodeInvertsEncoding(e[3..], x[1..]);
      } else {
        DecodeInvertsEncoding(e[1..], x[1..]);
      }
      assert x == [x[0]] + x[1..];
    }
  }

  /** No "+", and no "%" followed by two characters or more. */
  predicate Stable(x: seq<byte>) {
    forall i :: 0 <= i < |x| ==> x[i] != 43 && (x[i] == 37 ==> i + 2 >= |x|)
  }

  lemma {:induction false} DecodeFixes(x: seq<byte>)
    ensures Decode(x) == x <==> Stable(x)
    decreases |x|
  {
    if x != [] {
      DecodeFixes(x[1..]);
      assert x == [x[0]] + x[1..];
      if x[0] == PERCENT && |x| >= 3 {
        assert |Decode(x)| < |x|;
      } else if x[0] == PLUS {
        assert Decode(x)[0] != x[0];
      } else {
        assert Decode(x) == x <==> Decode(x[1..]) == x[1..] by {
          assert Decode(x)[1..] == Decode(x[1..]);
        }
        assert forall i :: 0 <= i < |x[1..]| ==> x[1..][i] == x[i + 1];
        if Stable(x) {
          assert Stable(x[1..]);
        }
        if Stable(x[1..]) {
          assert forall i :: 1 <= i < |x| ==> x[i] == x[1..][i - 1];
        }
      }
    }
  }

  /** A form value that the handler decodes and the command decodes again is kept exactly when it is stable. */
  lemma DecodedTwice(e: seq<byte>, x: cstring)
    requires IsEncoding(e, x)
    ensures Str(Decode(Str(Decode(e)))) == x <==> Stable(x)
  {
    DecodeInvertsEncoding(e, x);
    StrIs(x, x);
    DecodeFixes(x);
    assert Str(Decode(x)) == x ==> x <= Decode(x) && |Decode(x)| <= |x|;
  }
}
