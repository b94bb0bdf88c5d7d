/** `html_escape` of main/http_server.c: a sizing loop, an allocation, and a writing loop. */
module HtmlEscape {
  import opened Bytes

  const BACKSLASH: byte := 92
  const APOSTROPHE: byte := 39
  const QUOTE: byte := 34
  const AMPERSAND: byte := 38
  const HASH: byte := 35
  const SEMICOLON: byte := 59

  predicate IsSpecial(c: byte) {
    c == BACKSLASH || c == APOSTROPHE || c == QUOTE || c == AMPERSAND || c == HASH || c == SEMICOLON
  }

  /** A decimal character reference, or the character itself. */
  function EscapeOne(c: byte): (r: seq<byte>)
    ensures |r| == if IsSpecial(c) then 5 else 1
  {
    if IsSpecial(c) then [AMPERSAND, HASH, 48 + c / 10, 48 + c % 10, SEMICOLON] else [c]
  }

  function Escape(s: seq<byte>): seq<byte> {
    if s == [] then [] else EscapeOne(s[0]) + Escape(s[1..])
  }

  lemma ConcatAssociative(a: seq<byte>, b: seq<byte>, c: seq<byte>)
    ensures a + (b + c) == (a + b) + c
  {
  }

  lemma {:induction false} EscapeConcat(a: seq<byte>, b: seq<byte>)
    ensures Escape(a + b) == Escape(a) + Escape(b)
  {
    if a == [] {
      assert a + b == b;
    } else {
      hide EscapeOne;
      EscapeConcat(a[1..], b);
      assert (a + b)[1..] == a[1..] + b;
      ConcatAssociative(EscapeOne(a[0]), Escape(a[1..]), Escape(b));
    }
  }

  /** What the first `i` characters become. */
  function EscapeUpTo(s: seq<byte>, i: nat): seq<byte>
    requires i <= |s|
  {
    Escape(s[..i])
  }

  lemma EscapeEnds(s: seq<byte>)
    ensures EscapeUpTo(s, 0) == [] && EscapeUpTo(s, |s|) == Escape(s)
  {
    assert s[..0] == [] && s[..|s|] == s;
  }

  lemma EscapeNext(s: seq<byte>, i: nat)
    requires i < |s|
    ensures EscapeUpTo(s, i + 1) == EscapeUpTo(s, i) + EscapeOne(s[i])
    ensures |EscapeUpTo(s, i + 1)| <= |Escape(s)|
  {
    assert s[..i + 1] == s[..i] + [s[i]];
    EscapeConcat(s[..i], [s[i]]);
    assert Escape([s[i]]) == EscapeOne(s[i]) by {
      assert [s[i]][1..] == [];
    }
    assert s == s[..i + 1] + s[i + 1..];
    EscapeConcat(s[..i + 1], s[i + 1..]);
  }

  /** The sizing loop. */
  method EscapedSize(src: cstring) returns (escLen: nat)
    ensures escLen == |Escape(src)| + 1
  {
    var len := |src|;
    escLen := len + 1;
    EscapeEnds(src);
    hide Escape, EscapeUpTo;
    for i := 0 to len
      invariant escLen == |EscapeUpTo(src, i)| + (len - i) + 1
    {
      EscapeNext(src, i);
      if IsSpecial(src[i]) {
        escLen := escLen + 4;
      }
    }
  }

  /** The stores for one character. */
  method WriteOne(res: array<byte>, j: nat, c: byte) returns (next: nat)
    requires j + |EscapeOne(c)| <= res.Length
    modifies res
    ensures next == j + |EscapeOne(c)|
    ensures res[..next] == old(res[..j]) + EscapeOne(c)
  {
    next := j;
    if IsSpecial(c) {
      res[next], res[next + 1] := AMPERSAND, HASH;
      res[next + 2], res[next + 3] := 48 + c / 10, 48 + c % 10;
      res[next + 4] := SEMICOLON;
      next := next + 5;
    } else {
      res[next] := c;
      next := next + 1;
    }
  }

  /** The result is exactly as long as its buffer: the closing NUL is the last cell. */
  method HtmlEscape(src: cstring) returns (res: array<byte>)
    ensures fresh(res) && res[..] == Escape(src) + [0]
  {
    var len := |src|;
    var escLen := EscapedSize(src);
    res := new byte[escLen];
    var j := 0;
    EscapeEnds(src);
    hide Escape, EscapeUpTo, EscapeOne;
    for i := 0 to len
      invariant j == |EscapeUpTo(src, i)| < escLen
      invariant res[..j] == EscapeUpTo(src, i)
    {
      EscapeNext(src, i);
      j := WriteOne(res, j, src[i]);
    }
    res[j] := 0;
  }

  predicate IsDecimal(c: byte) {
    48 <= c <= 57
  }

  /** How many decimal digits the string starts with. */
  function DigitRun(s: seq<byte>): (n: nat)
    ensures n <= |s|
    ensures forall i :: 0 <= i < n ==> IsDecimal(s[i])
    ensures n < |s| ==> !IsDecimal(s[n])
  {
    if s == [] || !IsDecimal(s[0]) then 0 else 1 + DigitRun(s[1..])
  }

  function DecimalValue(digits: seq<byte>): nat
    requires forall i :: 0 <= i < |digits| ==> IsDecimal(digits[i])
  {
    if digits == [] then 0
    else
      var n := |digits| - 1;
      assert IsDecimal(digits[n]);
      DecimalValue(digits[..n]) * 10 + (digits[n] as int - 48)
  }

  /** A decimal character reference at the front of the string: its value and its length. */
  function Reference(s: seq<byte>): (r: Option<(nat, nat)>)
    ensures r.Some? ==> 0 < r.value.1 <= |s|
  {
    if |s| < 2 || s[0] != AMPERSAND || s[1] != HASH then None
    else
      var n := DigitRun(s[2..]);
      if n == 0 || 2 + n >= |s| || s[2 + n] != SEMICOLON then None
      else Some((DecimalValue(s[2..][..n]), n + 3))
  }

  /** Numeric character references of one octet replaced by the octet, everything else kept. */
  function Unescape(s: seq<byte>): seq<byte> {
    if s == [] then []
    else
      var r := Reference(s);
      if r.Some? && r.value.0 < 0x100 then [r.value.0] + Unescape(s[r.value.1..])
      else [s[0]] + Unescape(s[1..])
  }

  lemma ReferenceOfEscape(c: byte, rest: seq<byte>)
    requires IsSpecial(c)
    ensures Reference(EscapeOne(c) + rest) == Some((c, 5))
  {
    var s := EscapeOne(c) + rest;
    var digits := s[2..];
    assert IsDecimal(digits[0]) && IsDecimal(digits[1]) && digits[2] == SEMICOLON;
    assert DigitRun(digits) == 2 by {
      var n := DigitRun(digits);
      assert n > 2 ==> IsDecimal(digits[2]);
    }
    var two := digits[..2];
    assert two[..1][..0] == [] && DecimalValue(two[..1]) == two[0] - 48;
    assert DecimalValue(two) == DecimalValue(two[..1]) * 10 + (two[1] - 48);
  }

  /** Decoding numeric character references recovers the input. */
  lemma {:induction false} UnescapeInvertsEscape(s: seq<byte>)
    ensures Unescape(Escape(s)) == s
  {
    if s != [] {
      UnescapeInvertsEscape(s[1..]);
      var rest := Escape(s[1..]);
      assert s == [s[0]] + s[1..];
      if IsSpecial(s[0]) {
        ReferenceOfEscape(s[0], rest);
        assert (EscapeOne(s[0]) + rest)[5..] == rest;
      } else {
        assert ([s[0]] + rest)[1..] == rest;
      }
    }
  }

  /** No quote, apostrophe or backslash is left. */
  lemma {:induction false} EscapedHasNoQuotes(s: seq<byte>)
    ensures 34 !in Escape(s) && 39 !in Escape(s) && 92 !in Escape(s)
  {
    if s != [] {
      EscapedHasNoQuotes(s[1..]);
    }
  }

  lemma AmpersandIsFirst(c: byte, i: nat)
    requires i < |EscapeOne(c)| && EscapeOne(c)[i] == AMPERSAND
    ensures i == 0 && IsSpecial(c)
  {
  }

  /** In the output "&" only starts a reference. */
  lemma {:induction false} AmpersandStartsReference(s: seq<byte>, i: nat)
    requires i < |Escape(s)| && Escape(s)[i] == AMPERSAND
    ensures Reference(Escape(s)[i..]).Some?
  {
    hide Reference, EscapeOne;
    var one, rest := EscapeOne(s[0]), Escape(s[1..]);
    if i < |one| {
      AmpersandIsFirst(s[0], i);
      ReferenceOfEscape(s[0], rest);
      assert Escape(s)[0..] == one + rest;
    } else {
      AmpersandStartsReference(s[1..], i - |one|);
      assert Escape(s)[i..] == rest[i - |one|..];
    }
  }

  /** The six characters: quotation mark, number sign, ampersand, apostrophe, semicolon, backslash. */
  predicate NeedsEscape(c: byte) {
    c == 34 || c == 35 || c == 38 || c == 39 || c == 59 || c == 92
  }

  /** Each of the six becomes a reference to its own decimal number, in two digits, and nothing else changes. */
  lemma EscapeOneIs(c: byte)
    ensures EscapeOne(c) == if NeedsEscape(c) then [38, 35, 48 + c / 10, 48 + c % 10, 59] else [c]
  {
  }

  /** A string is left alone exactly when it has none of the six. */
  lemma {:induction false} EscapeFixes(s: seq<byte>)
    ensures |Escape(s)| >= |s|
    ensures Escape(s) == s <==> forall i :: 0 <= i < |s| ==> !NeedsEscape(s[i])
  {
    if s != [] {
      EscapeFixes(s[1..]);
      EscapeOneIs(s[0]);
      hide EscapeOne, NeedsEscape;
      var rest := Escape(s[1..]);
      assert s == [s[0]] + s[1..];
      if !NeedsEscape(s[0]) {
        assert Escape(s) == [s[0]] + rest && Escape(s)[1..] == rest;
        assert (forall i :: 0 <= i < |s| ==> !NeedsEscape(s[i])) <==> (forall i :: 0 <= i < |s[1..]| ==> !NeedsEscape(s[1..][i])) by {
          assert forall i :: 1 <= i < |s| ==> s[i] == s[1..][i - 1];
        }
      } else {
        assert |Escape(s)| == 5 + |rest| > |s|;
      }
    }
  }

  /** In the output, "#" follows "&", and ";" ends a reference that starts four characters before it. */
  lemma {:induction false} MarksBelongToReferences(s: seq<byte>, i: nat)
    requires i < |Escape(s)|
    ensures Escape(s)[i] == 35 ==> i >= 1 && Escape(s)[i - 1] == 38
    ensures Escape(s)[i] == 59 ==> i >= 4 && Escape(s)[i - 4] == 38 && Escape(s)[i - 3] == 35
  {
    var one, rest := EscapeOne(s[0]), Escape(s[1..]);
    EscapeOneIs(s[0]);
    if i >= |one| {
      MarksBelongToReferences(s[1..], i - |one|);
      hide EscapeOne;
      assert forall k :: |one| <= k < |Escape(s)| ==> Escape(s)[k] == rest[k - |one|];
    }
  }
}
