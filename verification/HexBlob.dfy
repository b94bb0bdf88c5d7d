/** `store_blob` and `print_blob` of components/cmd_nvs/cmd_nvs.c: binary values as hexadecimal text. */
module HexBlob {
  import opened Bytes

  const NEWLINE: byte := 10

  datatype StoreResult = Stored(blob: seq<byte>) | TypeMismatch | NoMemory

  predicate IsHex(c: byte) {
    48 <= c <= 57 || 65 <= c <= 70 || 97 <= c <= 102
  }

  function HexValue(c: byte): (v: byte)
    requires IsHex(c)
    ensures v < 16
  {
    if c <= 57 then c - 48 else if c <= 70 then c - 65 + 10 else c - 97 + 10
  }

  function HexDigit(n: byte): (c: byte)
    requires n < 16
    ensures IsHex(c) && HexValue(c) == n
  {
    if n < 10 then 48 + n else 97 + n - 10
  }

  predicate AllHex(s: seq<byte>) {
    forall i :: 0 <= i < |s| ==> IsHex(s[i])
  }

  /** Octet `j` of the blob that a text of hexadecimal digits denotes. */
  function Octet(s: seq<byte>, j: nat): byte
    requires AllHex(s) && 2 * j + 1 < |s|
  {
    HexValue(s[2 * j]) * 16 + HexValue(s[2 * j + 1])
  }

  function ToBytes(s: seq<byte>): (blob: seq<byte>)
    requires AllHex(s)
    ensures |blob| == |s| / 2
    ensures forall j :: 0 <= j < |blob| ==> blob[j] == Octet(s, j)
  {
    seq(|s| / 2, j requires 0 <= j < |s| / 2 => Octet(s, j))
  }

  /** The text that `%02x` makes of every octet. */
  function ToHex(blob: seq<byte>): (s: seq<byte>)
    ensures |s| == 2 * |blob|
    ensures forall j :: 0 <= j < |blob| ==> s[2 * j] == HexDigit(blob[j] / 16) && s[2 * j + 1] == HexDigit(blob[j] % 16)
  {
    if blob == [] then []
    else
      var front := ToHex(blob[..|blob| - 1]);
      var last := blob[|blob| - 1];
      front + [HexDigit(last / 16), HexDigit(last % 16)]
  }

  /** What a value for the store is worth: the blob, or the error reported.
      `mallocOk` says whether `malloc` succeeds. */
  function StoreBlobSpec(strValues: cstring, mallocOk: bool): StoreResult {
    if |strValues| % 2 == 1 then TypeMismatch
    else if !mallocOk then NoMemory
    else if AllHex(strValues) then Stored(ToBytes(strValues))
    else TypeMismatch
  }

  method StoreBlob(strValues: cstring, mallocOk: bool) returns (result: StoreResult)
    ensures result == StoreBlobSpec(strValues, mallocOk)
  {
    var strLen := |strValues|;
    if strLen % 2 == 1 {
      return TypeMismatch;
    }
    if !mallocOk {
      return NoMemory;
    }
    var blob := new byte[strLen / 2];
    var j := 0;
    for i := 0 to strLen
      invariant j == i / 2
      invariant forall k :: 0 <= k < i ==> IsHex(strValues[k])
      invariant forall k :: 0 <= k < j ==> blob[k] == HexValue(strValues[2 * k]) * 16 + HexValue(strValues[2 * k + 1])
      invariant i % 2 == 1 ==> blob[j] == HexValue(strValues[2 * j]) * 16
    {
      var ch := strValues[i];
      if !IsHex(ch) {
        return TypeMismatch;
      }
      var value := HexValue(ch);
      if i % 2 == 1 {
        blob[j] := blob[j] + value;
        j := j + 1;
      } else {
        blob[j] := value * 16;
      }
    }
    assert blob[..] == ToBytes(strValues);
    return Stored(blob[..]);
  }

  method PrintBlob(blob: seq<byte>) returns (out: seq<byte>)
    ensures out == ToHex(blob) + [10]
  {
    out := [];
    for i := 0 to |blob|
      invariant out == ToHex(blob[..i])
    {
      assert blob[..i + 1][..i] == blob[..i];
      out := out + [HexDigit(blob[i] / 16), HexDigit(blob[i] % 16)];
    }
    assert blob[..|blob|] == blob;
    out := out + [NEWLINE];
  }

  /** Which error is reported: an odd length or a character that is no digit is a type mismatch, but a failing
      allocation is noticed before any character is looked at. */
  lemma ErrorReported(strValues: cstring, mallocOk: bool)
    ensures StoreBlobSpec(strValues, mallocOk) == TypeMismatch
       <==> |strValues| % 2 == 1
            || (mallocOk
                && exists i :: 0 <= i < |strValues| && !(48 <= strValues[i] <= 57 || 65 <= strValues[i] <= 70
                                                         || 97 <= strValues[i] <= 102))
    ensures StoreBlobSpec(strValues, mallocOk) == NoMemory <==> |strValues| % 2 == 0 && !mallocOk
  {
    assert !AllHex(strValues) <==> exists i :: 0 <= i < |strValues| && !IsHex(strValues[i]);
  }

  /** Exactly the even-length texts of hexadecimal digits are accepted, and printing the stored blob
      gives the text back in lower case. */
  lemma PrintOfStored(strValues: cstring)
    ensures StoreBlobSpec(strValues, true).Stored? <==> |strValues| % 2 == 0 && AllHex(strValues)
    ensures StoreBlobSpec(strValues, true).Stored? ==>
              ToHex(StoreBlobSpec(strValues, true).blob) == Fold(strValues)
  {
    if StoreBlobSpec(strValues, true).Stored? {
      var blob := ToBytes(strValues);
      forall k | 0 <= k < |strValues|
        ensures ToHex(blob)[k] == ToLower(strValues[k])
      {
        var j := k / 2;
        DigitsOfOctet(strValues, j);
        hide HexDigit, HexValue, IsHex;
        assert blob[j] == Octet(strValues, j);
        assert ToHex(blob)[2 * j] == HexDigit(blob[j] / 16) && ToHex(blob)[2 * j + 1] == HexDigit(blob[j] % 16);
        assert k == 2 * j || k == 2 * j + 1;
      }
    }
  }

  lemma DigitsOfOctet(s: seq<byte>, j: nat)
    requires AllHex(s) && 2 * j + 1 < |s|
    ensures HexDigit(Octet(s, j) / 16) == ToLower(s[2 * j]) && HexDigit(Octet(s, j) % 16) == ToLower(s[2 * j + 1])
  {
  }

  /** "0123456789abcdef". */
  const DIGITS: seq<byte> := [48, 49, 50, 51, 52, 53, 54, 55, 56, 57, 97, 98, 99, 100, 101, 102]

  lemma DigitIs(n: byte)
    requires n < 16
    ensures HexDigit(n) == DIGITS[n]
  {
  }

  /** Printing puts the digit for the high four bits of an octet before the one for the low four. */
  lemma PrintedDigits(blob: seq<byte>, j: nat)
    requires j < |blob|
    ensures |ToHex(blob)| == 2 * |blob|
    ensures ToHex(blob)[2 * j] == DIGITS[blob[j] / 16] && ToHex(blob)[2 * j + 1] == DIGITS[blob[j] % 16]
  {
    DigitIs(blob[j] / 16);
    DigitIs(blob[j] % 16);
    hide HexDigit, DIGITS;
  }

  /** Storing a printed blob, its newline dropped, gives the same octets. */
  lemma StoredOfPrint(blob: seq<byte>)
    ensures AllHex(ToHex(blob)) && 0 !in ToHex(blob)
    ensures StoreBlobSpec(ToHex(blob), true) == Stored(blob)
  {
    var s := ToHex(blob);
    forall k | 0 <= k < |s|
      ensures IsHex(s[k])
    {
      assert s[2 * (k / 2)] == HexDigit(blob[k / 2] / 16) && s[2 * (k / 2) + 1] == HexDigit(blob[k / 2] % 16);
    }
    hide HexDigit, ToHex;
    forall j | 0 <= j < |blob|
      ensures Octet(s, j) == blob[j]
    {
      assert HexValue(s[2 * j]) == blob[j] / 16 && HexValue(s[2 * j + 1]) == blob[j] % 16;
    }
    assert ToBytes(s) == blob;
  }
}
