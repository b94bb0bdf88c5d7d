/** Octets, and the view of a `char` buffer that the C string functions have.
    Plain `char` is unsigned on the targets of the firmware, so one type serves both. */
module Bytes {
  type byte = b: int | 0 <= b < 256

  /** The contents of a C string, without the terminating NUL. */
  type cstring = s: seq<byte> | 0 !in s

  /** A hardware address. */
  type Mac = m: seq<byte> | |m| == 6 witness [0, 0, 0, 0, 0, 0]

  const DOT: byte := 46
  const STAR: byte := 42

  datatype Option<+T> = None | Some(value: T)

  /** What `strlen`, `strcmp` and `printf("%s")` see of a buffer: the octets before its first NUL. */
  function Str(buf: seq<byte>): (s: cstring)
    ensures s <= buf
    ensures |s| < |buf| ==> buf[|s|] == 0
  {
    if buf == [] || buf[0] == 0 then [] else [buf[0]] + Str(buf[1..])
  }

  /** In a terminated buffer the string stops at the first NUL and not before. */
  lemma StrStops(buf: seq<byte>)
    requires 0 in buf
    ensures |Str(buf)| < |buf|
    ensures forall i :: 0 <= i < |Str(buf)| ==> buf[i] == Str(buf)[i] != 0
  {
  }

  /** A NUL-free prefix that is followed by a NUL, or by nothing, is the string. */
  lemma StrIs(buf: seq<byte>, s: cstring)
    requires s <= buf
    requires |s| < |buf| ==> buf[|s|] == 0
    ensures Str(buf) == s
  {
  }

  /** `tolower` in the C locale. */
  function ToLower(b: byte): byte {
    if 65 <= b <= 90 then b + 32 else b
  }

  /** ASCII case folding; `strcasecmp(a, b) == 0` is `Fold(a) == Fold(b)`. */
  function Fold(s: seq<byte>): (r: seq<byte>)
    ensures |r| == |s|
    ensures forall i :: 0 <= i < |s| ==> r[i] == ToLower(s[i])
    ensures 0 !in s ==> 0 !in r
  {
    seq(|s|, i requires 0 <= i < |s| => ToLower(s[i]))
  }

  /** Octet by octet the same, up to the 26 letters of ASCII. */
  predicate SameIgnoringCase(a: seq<byte>, b: seq<byte>) {
    && |a| == |b|
    && forall i :: 0 <= i < |a| ==>
         a[i] == b[i] || (65 <= a[i] <= 90 && b[i] == a[i] + 32) || (65 <= b[i] <= 90 && a[i] == b[i] + 32)
  }

  /** Strings fold to the same one exactly when they differ in case only. */
  lemma FoldedAlike(a: seq<byte>, b: seq<byte>)
    ensures Fold(a) == Fold(b) <==> SameIgnoringCase(a, b)
  {
    if Fold(a) == Fold(b) {
      assert forall i :: 0 <= i < |a| ==> ToLower(a[i]) == Fold(a)[i] == Fold(b)[i] == ToLower(b[i]);
    }
  }

  lemma FoldConcat(a: seq<byte>, b: seq<byte>)
    ensures Fold(a + b) == Fold(a) + Fold(b)
  {
  }

  /** `strncpy(dst, src, n)`: at most `n` octets of `src`, then NUL padding up to `n`. */
  method StrNCpy(dst: array<byte>, src: cstring, n: nat)
    requires n <= dst.Length
    modifies dst
    ensures forall k :: 0 <= k < n ==> dst[k] == if k < |src| then src[k] else 0
    ensures forall k :: n <= k < dst.Length ==> dst[k] == old(dst[k])
  {
    for k := 0 to n
      invariant forall j :: 0 <= j < k ==> dst[j] == if j < |src| then src[j] else 0
      invariant forall j :: k <= j < dst.Length ==> dst[j] == old(dst[j])
    {
      dst[k] := if k < |src| then src[k] else 0;
    }
  }
}
