/** Domain names on the wire (sections 3.1 and 4.1.4 of RFC 1035) and the parser that reads them. */
module DnsName {
  import opened Bytes
  import opened Labels

  /** The top two bits of an octet are set: it starts a compression pointer, not a label. */
  predicate IsPointer(b: byte) {
    b >= 0xC0
  }

  /** The low 14 bits of a pointer's two octets. */
  function PointerTo(high: byte, low: byte): nat {
    (high as int % 0x40) * 0x100 + low
  }

  /** Where the pointer at `p` leads. */
  function Target(buf: seq<byte>, p: nat): nat
    requires p + 1 < |buf|
  {
    PointerTo(buf[p], buf[p + 1])
  }

  /** A walk of at most `steps` steps from `off` reads exactly these labels and then a zero octet,
      never leaving the buffer nor looking at an octet before `lo`. */
  ghost predicate NameWithin(buf: seq<byte>, lo: nat, off: nat, labels: Name, steps: nat)
    decreases steps
  {
    && lo <= off < |buf|
    && (if buf[off] == 0 then
          labels == []
        else if steps == 0 then
          false
        else if IsPointer(buf[off]) then
          off + 1 < |buf| && NameWithin(buf, lo, Target(buf, off), labels, steps - 1)
        else
          var next := off + 1 + buf[off];
          next <= |buf| && labels != [] && labels[0] == Piece(buf, off)
          && NameWithin(buf, lo, next, labels[1..], steps - 1))
  }

  /** The possibly compressed name at an offset, read without looking before `lo`. */
  ghost predicate NameFrom(buf: seq<byte>, lo: nat, off: nat, labels: Name) {
    exists steps: nat :: NameWithin(buf, lo, off, labels, steps)
  }

  ghost predicate NameAt(buf: seq<byte>, off: nat, labels: Name) {
    NameFrom(buf, 0, off, labels)
  }

  /** Where the name ends in place: after its zero octet or after its first pointer. */
  function EndInPlace(buf: seq<byte>, off: nat): nat
    decreases |buf| - off
  {
    if off >= |buf| then off
    else if buf[off] == 0 then off + 1
    else if IsPointer(buf[off]) then off + 2
    else EndInPlace(buf, off + 1 + buf[off])
  }

  /** The octets of the label whose length octet is at `off`. */
  function Piece(buf: seq<byte>, off: nat): seq<byte>
    requires off < |buf| && off + 1 + buf[off] <= |buf|
  {
    buf[off + 1..off + 1 + buf[off]]
  }

  /** Output index after one more label: a dot goes in front unless the output is empty. */
  function Advance(i: nat, len: nat): nat {
    (if i > 0 then i + 1 else i) + len
  }

  /** Memory as the parser sees it: the C function gets an address and no length. */
  type Memory = nat -> byte

  /** The memory starts with these octets. */
  ghost predicate Holds(mem: Memory, buf: seq<byte>) {
    forall k :: 0 <= k < |buf| ==> mem(k) == buf[k]
  }

  /** A buffer, and behind it whatever lies there. */
  function Over(buf: seq<byte>, behind: Memory): Memory {
    (k: nat) => if k < |buf| then buf[k] else behind(k)
  }

  /** The possibly compressed name at an offset of the memory, wherever its octets lie. */
  ghost predicate HasName(mem: Memory, off: nat, labels: Name) {
    exists buf :: Holds(mem, buf) && NameAt(buf, off, labels)
  }

  function Jump(mem: Memory, p: nat): nat {
    PointerTo(mem(p), mem(p + 1))
  }

  /** The octets of the label whose length octet is at `off`. */
  function Label(mem: Memory, off: nat): seq<byte> {
    seq(mem(off), k requires 0 <= k => mem(off + 1 + k))
  }

  /** How a run of the parse loop goes: not over within the given iterations, refusing a label that does not fit,
      or ending; with the labels written by then, and the in-place end. */
  datatype Outcome = Unfinished(written: Name) | TooLong(written: Name) | Read(written: Name, end: nat)

  /** The parse loop, entered at `off` with `read` already read (`i` octets, dotted) and the in-place end
      known to be `jumpOffset` if a pointer was followed before; it may take `steps` iterations. */
  ghost function Run(mem: Memory, off: nat, i: nat, read: Name, jumped: bool, jumpOffset: nat, maxLen: nat,
                     steps: nat): Outcome
    decreases steps
  {
    if mem(off) == 0 then Read(read, if jumped then jumpOffset else off + 1)
    else if steps == 0 then Unfinished(read)
    else if IsPointer(mem(off)) then
      Run(mem, Jump(mem, off), i, read, true, if jumped then jumpOffset else off + 2, maxLen, steps - 1)
    else if i + mem(off) + 1 >= maxLen then TooLong(read)
    else
      Run(mem, off + 1 + mem(off), Advance(i, mem(off)), read + [Label(mem, off)], jumped, jumpOffset, maxLen, steps - 1)
  }

  ghost function Parse(mem: Memory, start: nat, maxLen: nat, steps: nat): Outcome {
    Run(mem, start, 0, [], false, 0, maxLen, steps)
  }

  ghost predicate Finishes(mem: Memory, start: nat, maxLen: nat, steps: nat) {
    !Parse(mem, start, maxLen, steps).Unfinished?
  }

  /** The C function returns. */
  ghost predicate Terminates(mem: Memory, start: nat, maxLen: nat) {
    exists steps: nat :: Finishes(mem, start, maxLen, steps)
  }

  /** The labels have been written, dotted, in the first `i` octets of the output. */
  ghost predicate Counted(read: Name, i: nat) {
    i == |Dotted(read)| && (i == 0 <==> read == [])
  }

  /** One more label takes the output index where `Advance` says. */
  lemma CountedSnoc(read: Name, i: nat, piece: seq<byte>)
    requires Counted(read, i) && piece != []
    ensures Counted(read + [piece], Advance(i, |piece|))
  {
    DottedSnoc(read, piece);
  }

  lemma {:induction false} RunBound(mem: Memory, off: nat, i: nat, read: Name, jumped: bool, jumpOffset: nat, maxLen: nat,
                                    steps: nat)
    requires Counted(read, i) && i < maxLen
    ensures |Dotted(Run(mem, off, i, read, jumped, jumpOffset, maxLen, steps).written)| < maxLen
    decreases steps
  {
    if mem(off) != 0 && steps > 0 {
      if IsPointer(mem(off)) {
        RunBound(mem, Jump(mem, off), i, read, true, if jumped then jumpOffset else off + 2, maxLen, steps - 1);
      } else if i + mem(off) + 1 < maxLen {
        CountedSnoc(read, i, Label(mem, off));
        RunBound(mem, off + 1 + mem(off), Advance(i, mem(off)), read + [Label(mem, off)], jumped, jumpOffset, maxLen,
                 steps - 1);
      }
    }
  }

  /** Whatever the memory holds, and whether or not the loop ever ends: after any number of iterations
      what has been written, and a NUL behind it, lie within the first `maxLen` octets of the output. */
  lemma OutputBound(mem: Memory, start: nat, maxLen: nat, steps: nat)
    requires maxLen > 0
    ensures |Dotted(Parse(mem, start, maxLen, steps).written)| < maxLen
  {
    RunBound(mem, start, 0, [], false, 0, maxLen, steps);
  }

  /** The bound the loop checks before each label. */
  predicate FitsFrom(i: nat, labels: Name, maxLen: nat)
    decreases |labels|
  {
    labels == [] ||
    (i + |labels[0]| + 1 < maxLen && FitsFrom(Advance(i, |labels[0]|), labels[1..], maxLen))
  }

  /** The labels that pass that check before one that does not. */
  function FittingPart(i: nat, labels: Name, maxLen: nat): Name
    decreases |labels|
  {
    if labels == [] || i + |labels[0]| + 1 >= maxLen then []
    else [labels[0]] + FittingPart(Advance(i, |labels[0]|), labels[1..], maxLen)
  }

  /** The dotted form and its NUL fit `maxLen` octets, with one octet to spare if there is one label only. */
  predicate Fits(labels: Name, maxLen: nat) {
    labels == [] || (|labels[0]| + 1 < maxLen && |Dotted(labels)| < maxLen)
  }

  function DottedSize(i: nat, labels: Name): nat
    decreases |labels|
  {
    if labels == [] then i else DottedSize(Advance(i, |labels[0]|), labels[1..])
  }

  lemma {:induction false} DottedSizeFrom(i: nat, labels: Name)
    requires i > 0 && labels != []
    ensures DottedSize(i, labels) == i + 1 + |Dotted(labels)|
    decreases |labels|
  {
    if |labels| > 1 {
      DottedSizeFrom(Advance(i, |labels[0]|), labels[1..]);
    } else {
      assert labels[1..] == [];
    }
  }

  lemma {:induction false} FitsBySize(i: nat, labels: Name, maxLen: nat)
    requires i > 0 && labels != []
    ensures i <= DottedSize(i, labels)
    ensures FitsFrom(i, labels, maxLen) <==> DottedSize(i, labels) < maxLen
    decreases |labels|
  {
    var i' := Advance(i, |labels[0]|);
    if |labels| > 1 {
      FitsBySize(i', labels[1..], maxLen);
    } else {
      assert labels[1..] == [];
    }
  }

  /** The running checks amount to one bound on the dotted form. */
  lemma FitsIsFitsFrom(labels: Name, maxLen: nat)
    requires forall l :: l in labels ==> l != []
    ensures FitsFrom(0, labels, maxLen) <==> Fits(labels, maxLen)
  {
    if |labels| > 1 {
      var n := |labels[0]|;
      assert labels[0] in labels;
      FitsBySize(n, labels[1..], maxLen);
      DottedSizeFrom(n, labels[1..]);
    } else if |labels| == 1 {
      assert labels[1..] == [];
    }
  }

  /** A name without compression: each label after its length, then a zero octet (section 3.1). */
  function Encode(labels: Name): seq<byte>
    requires forall l :: l in labels ==> |l| < 0xC0
  {
    if labels == [] then [0] else [|labels[0]| as byte] + labels[0] + Encode(labels[1..])
  }

  predicate StandsAt(code: seq<byte>, buf: seq<byte>, off: nat) {
    off + |code| <= |buf| && forall p :: off <= p < off + |code| ==> buf[p] == code[p - off]
  }

  lemma StandsInParts(a: seq<byte>, b: seq<byte>, buf: seq<byte>, off: nat)
    requires StandsAt(a + b, buf, off)
    ensures StandsAt(a, buf, off) && StandsAt(b, buf, off + |a|)
  {
    forall p | off <= p < off + |a|
      ensures buf[p] == a[p - off]
    {
      assert buf[p] == (a + b)[p - off];
    }
    forall p | off + |a| <= p < off + |a| + |b|
      ensures buf[p] == b[p - off - |a|]
    {
      assert buf[p] == (a + b)[p - off];
    }
  }

  lemma EncodedParts(buf: seq<byte>, off: nat, labels: Name)
    requires labels != [] && forall l :: l in labels ==> 0 < |l| < 0xC0
    requires StandsAt(Encode(labels), buf, off)
    ensures var n := |labels[0]|;
            && off < |buf| && buf[off] == n
            && off + 1 + n <= |buf|
            && Piece(buf, off) == labels[0]
            && StandsAt(Encode(labels[1..]), buf, off + 1 + n)
            && |Encode(labels)| == 1 + n + |Encode(labels[1..])|
  {
    assert labels[0] in labels;
    var l, rest := labels[0], Encode(labels[1..]);
    var first := [|l| as byte];
    assert Encode(labels) == first + l + rest;
    hide Encode;
    StandsInParts(first + l, rest, buf, off);
    StandsInParts(first, l, buf, off);
    assert buf[off] == first[0];
  }

  /** An encoded name is read back, wherever it stands and whatever surrounds it. */
  lemma {:induction false} EncodedNameIsRead(buf: seq<byte>, off: nat, labels: Name)
    requires forall l :: l in labels ==> 0 < |l| < 0xC0
    requires StandsAt(Encode(labels), buf, off)
    ensures NameWithin(buf, off, off, labels, |labels|)
    ensures EndInPlace(buf, off) == off + |Encode(labels)|
    decreases |labels|
  {
    if labels == [] {
      assert buf[off] == Encode(labels)[0];
    } else {
      var next := off + 1 + |labels[0]|;
      assert labels[0] in labels && forall l :: l in labels[1..] ==> l in labels;
      EncodedParts(buf, off, labels);
      hide Encode, StandsAt, Piece;
      EncodedNameIsRead(buf, next, labels[1..]);
      LowerBound(buf, next, off, next, labels[1..], |labels| - 1);
    }
  }

  /** Each label after its length, without an end. */
  function EncodeOpen(labels: Name): seq<byte>
    requires forall l :: l in labels ==> |l| < 0xC0
  {
    if labels == [] then [] else [|labels[0]| as byte] + labels[0] + EncodeOpen(labels[1..])
  }

  /** The two octets of a pointer (section 4.1.4): two bits set, then 14 bits of offset. */
  function PointerOctets(target: nat): seq<byte>
    requires target < 0x4000
  {
    [0xC0 + target / 0x100, target % 0x100]
  }

  lemma PointerIsFollowed(buf: seq<byte>, off: nat, target: nat, labels: Name)
    requires target < 0x4000 && StandsAt(PointerOctets(target), buf, off)
    requires NameAt(buf, target, labels)
    ensures NameAt(buf, off, labels) && EndInPlace(buf, off) == off + 2
  {
    var steps: nat :| NameWithin(buf, 0, target, labels, steps);
    assert buf[off] == PointerOctets(target)[0] && buf[off + 1] == PointerOctets(target)[1];
    assert Target(buf, off) == target;
    assert NameWithin(buf, 0, off, labels, steps + 1);
  }

  lemma OpenParts(buf: seq<byte>, off: nat, labels: Name, end: seq<byte>)
    requires labels != [] && forall l :: l in labels ==> 0 < |l| < 0xC0
    requires StandsAt(EncodeOpen(labels) + end, buf, off)
    ensures var n := |labels[0]|;
            && off < |buf| && buf[off] == n
            && off + 1 + n <= |buf|
            && Piece(buf, off) == labels[0]
            && StandsAt(EncodeOpen(labels[1..]) + end, buf, off + 1 + n)
            && |EncodeOpen(labels)| == 1 + n + |EncodeOpen(labels[1..])|
  {
    assert labels[0] in labels;
    var l, rest := labels[0], EncodeOpen(labels[1..]) + end;
    var first := [|l| as byte];
    assert EncodeOpen(labels) + end == first + l + rest;
    hide EncodeOpen;
    StandsInParts(first + l, rest, buf, off);
    StandsInParts(first, l, buf, off);
    assert buf[off] == first[0];
  }

  lemma LabelBeforeName(buf: seq<byte>, off: nat, labels: Name)
    requires off < |buf| && 0 < buf[off] < 0xC0 && off + 1 + buf[off] <= |buf|
    requires NameAt(buf, off + 1 + buf[off], labels)
    ensures NameAt(buf, off, [Piece(buf, off)] + labels)
    ensures EndInPlace(buf, off) == EndInPlace(buf, off + 1 + buf[off])
  {
    var steps: nat :| NameWithin(buf, 0, off + 1 + buf[off], labels, steps);
    assert ([Piece(buf, off)] + labels)[1..] == labels;
    assert NameWithin(buf, 0, off, [Piece(buf, off)] + labels, steps + 1);
  }

  /** Labels and then a pointer are read as those labels and whatever name the pointer leads to,
      which may be compressed in turn; in place the name ends behind the pointer. */
  lemma {:induction false} CompressedNameIsRead(buf: seq<byte>, off: nat, front: Name, target: nat, rest: Name)
    requires target < 0x4000 && forall l :: l in front ==> 0 < |l| < 0xC0
    requires StandsAt(EncodeOpen(front) + PointerOctets(target), buf, off)
    requires NameAt(buf, target, rest)
    ensures NameAt(buf, off, front + rest)
    ensures EndInPlace(buf, off) == off + |EncodeOpen(front)| + 2
    decreases |front|
  {
    if front == [] {
      assert EncodeOpen(front) + PointerOctets(target) == PointerOctets(target) && front + rest == rest;
      PointerIsFollowed(buf, off, target, rest);
    } else {
      var next := off + 1 + |front[0]|;
      assert front[0] in front && forall l :: l in front[1..] ==> l in front;
      OpenParts(buf, off, front, PointerOctets(target));
      hide EncodeOpen, StandsAt, Piece, NameAt, EndInPlace, PointerOctets;
      CompressedNameIsRead(buf, next, front[1..], target, rest);
      LabelBeforeName(buf, off, front[1..] + rest);
      assert [front[0]] + (front[1..] + rest) == front + rest;
    }
  }

  lemma {:induction false} LowerBound(buf: seq<byte>, lo: nat, lo': nat, off: nat, labels: Name, steps: nat)
    requires NameWithin(buf, lo, off, labels, steps) && lo' <= lo
    ensures NameWithin(buf, lo', off, labels, steps)
    decreases steps
  {
    if buf[off] != 0 {
      if IsPointer(buf[off]) {
        LowerBound(buf, lo, lo', Target(buf, off), labels, steps - 1);
      } else {
        LowerBound(buf, lo, lo', off + 1 + buf[off], labels[1..], steps - 1);
      }
    }
  }

  lemma {:induction false} WithinMonotone(buf: seq<byte>, lo: nat, off: nat, labels: Name, steps: nat, more: nat)
    requires NameWithin(buf, lo, off, labels, steps) && steps <= more
    ensures NameWithin(buf, lo, off, labels, more)
    decreases steps
  {
    if buf[off] != 0 {
      if IsPointer(buf[off]) {
        WithinMonotone(buf, lo, Target(buf, off), labels, steps - 1, more - 1);
      } else {
        WithinMonotone(buf, lo, off + 1 + buf[off], labels[1..], steps - 1, more - 1);
      }
    }
  }

  lemma {:induction false} WithinFunctional(buf: seq<byte>, lo: nat, lo': nat, off: nat, l: Name, l': Name,
                                            steps: nat, steps': nat)
    requires NameWithin(buf, lo, off, l, steps) && NameWithin(buf, lo', off, l', steps')
    ensures l == l'
    decreases steps
  {
    if buf[off] != 0 {
      if IsPointer(buf[off]) {
        WithinFunctional(buf, lo, lo', Target(buf, off), l, l', steps - 1, steps' - 1);
      } else {
        WithinFunctional(buf, lo, lo', off + 1 + buf[off], l[1..], l'[1..], steps - 1, steps' - 1);
        assert l == [l[0]] + l[1..] && l' == [l'[0]] + l'[1..];
      }
    }
  }

  lemma {:induction false} WithinNonempty(buf: seq<byte>, lo: nat, off: nat, labels: Name, steps: nat)
    requires NameWithin(buf, lo, off, labels, steps)
    ensures forall l :: l in labels ==> 0 < |l| < 0xC0
    decreases steps
  {
    if buf[off] != 0 {
      if IsPointer(buf[off]) {
        WithinNonempty(buf, lo, Target(buf, off), labels, steps - 1);
      } else {
        WithinNonempty(buf, lo, off + 1 + buf[off], labels[1..], steps - 1);
        assert labels == [labels[0]] + labels[1..];
      }
    }
  }

  lemma {:induction false} WithinInLonger(buf: seq<byte>, buf': seq<byte>, lo: nat, off: nat, labels: Name, steps: nat)
    requires NameWithin(buf, lo, off, labels, steps)
    requires lo <= |buf| <= |buf'| && buf'[lo..|buf|] == buf[lo..]
    ensures NameWithin(buf', lo, off, labels, steps) && NameWithin(buf', 0, off, labels, steps)
    ensures EndInPlace(buf', off) == EndInPlace(buf, off)
    decreases steps
  {
    assert forall k :: lo <= k < |buf| ==> buf'[k] == buf'[lo..|buf|][k - lo] == buf[k];
    if buf[off] != 0 {
      if IsPointer(buf[off]) {
        WithinInLonger(buf, buf', lo, Target(buf, off), labels, steps - 1);
      } else {
        var next := off + 1 + buf[off];
        WithinInLonger(buf, buf', lo, next, labels[1..], steps - 1);
        assert Piece(buf', off) == Piece(buf, off);
      }
    }
  }

  /** There is at most one name at an offset of the memory. */
  lemma HasNameUnique(mem: Memory, off: nat, l: Name, l': Name)
    requires HasName(mem, off, l) && HasName(mem, off, l')
    ensures l == l'
  {
    var buf :| Holds(mem, buf) && NameAt(buf, off, l);
    var buf' :| Holds(mem, buf') && NameAt(buf', off, l');
    var s: nat :| NameWithin(buf, 0, off, l, s);
    var s': nat :| NameWithin(buf', 0, off, l', s');
    if |buf| <= |buf'| {
      WithinInLonger(buf, buf', 0, off, l, s);
      WithinFunctional(buf', 0, 0, off, l, l', s, s');
    } else {
      WithinInLonger(buf', buf, 0, off, l', s');
      WithinFunctional(buf, 0, 0, off, l, l', s, s');
    }
  }

  /** A walk that reads a name is a run of the loop that ends; if the name fits, all of it is read,
      else the labels up to the first that does not fit. */
  lemma {:induction false} NameRuns(mem: Memory, buf: seq<byte>, lo: nat, off: nat, labels: Name, i: nat, read: Name,
                                    jumped: bool, jumpOffset: nat, maxLen: nat, steps: nat)
    requires Holds(mem, buf) && NameWithin(buf, lo, off, labels, steps)
    ensures var o := Run(mem, off, i, read, jumped, jumpOffset, maxLen, steps);
            if FitsFrom(i, labels, maxLen) then
              o == Read(read + labels, if jumped then jumpOffset else EndInPlace(buf, off))
            else
              o == TooLong(read + FittingPart(i, labels, maxLen))
    decreases steps
  {
    if buf[off] == 0 {
      assert read + [] == read;
    } else if IsPointer(buf[off]) {
      NameRuns(mem, buf, lo, Target(buf, off), labels, i, read, true, if jumped then jumpOffset else off + 2, maxLen,
               steps - 1);
    } else {
      var next, i' := off + 1 + buf[off], Advance(i, buf[off]);
      var read' := read + [Piece(buf, off)];
      assert Label(mem, off) == Piece(buf, off);
      NameRuns(mem, buf, lo, next, labels[1..], i', read', jumped, jumpOffset, maxLen, steps - 1);
      assert read' + labels[1..] == read + labels;
      assert read' + FittingPart(i', labels[1..], maxLen) == read + ([labels[0]] + FittingPart(i', labels[1..], maxLen));
      assert read + [] == read;
    }
  }

  /** The first `n` octets of the memory. */
  function Front(mem: Memory, n: nat): (buf: seq<byte>)
    ensures |buf| == n
    ensures forall k :: 0 <= k < n ==> buf[k] == mem(k)
  {
    seq(n, k requires 0 <= k < n => mem(k))
  }

  lemma WithinFront(mem: Memory, rest: seq<byte>, off: nat, labels: Name, steps: nat, n: nat)
    requires Holds(mem, rest) && NameWithin(rest, 0, off, labels, steps) && |rest| <= n
    ensures NameWithin(Front(mem, n), 0, off, labels, steps)
  {
    WithinInLonger(rest, Front(mem, n), 0, off, labels, steps);
  }

  /** A pointer in front of a name. */
  lemma PointerInFront(mem: Memory, off: nat, rest: seq<byte>, labels: Name, steps: nat) returns (buf: seq<byte>)
    requires Holds(mem, rest) && NameWithin(rest, 0, Jump(mem, off), labels, steps) && IsPointer(mem(off))
    ensures Holds(mem, buf) && NameWithin(buf, 0, off, labels, steps + 1)
  {
    buf := Front(mem, |rest| + off + 2);
    WithinFront(mem, rest, Jump(mem, off), labels, steps, |buf|);
  }

  /** A label in front of a name. */
  lemma LabelInFront(mem: Memory, off: nat, rest: seq<byte>, more: Name, steps: nat) returns (buf: seq<byte>)
    requires mem(off) != 0 && !IsPointer(mem(off))
    requires Holds(mem, rest) && NameWithin(rest, 0, off + 1 + mem(off), more, steps)
    ensures Holds(mem, buf) && NameWithin(buf, 0, off, [Label(mem, off)] + more, steps + 1)
  {
    var next := off + 1 + mem(off);
    buf := Front(mem, |rest| + next);
    WithinFront(mem, rest, next, more, steps, |buf|);
    var first := Label(mem, off);
    assert Piece(buf, off) == first;
    assert ([first] + more)[1..] == more;
    hide Label, Piece;
  }

  /** What a run reads is the name at the offset. */
  lemma {:induction false} RunReads(mem: Memory, off: nat, i: nat, read: Name, jumped: bool, jumpOffset: nat,
                                    maxLen: nat, steps: nat) returns (buf: seq<byte>, labels: Name)
    requires Run(mem, off, i, read, jumped, jumpOffset, maxLen, steps).Read?
    ensures Holds(mem, buf) && NameWithin(buf, 0, off, labels, steps)
    decreases steps
  {
    if mem(off) == 0 {
      buf, labels := Front(mem, off + 1), [];
    } else if IsPointer(mem(off)) {
      buf, labels := RunReads(mem, Jump(mem, off), i, read, true, if jumped then jumpOffset else off + 2, maxLen, steps - 1);
      hide Run, NameWithin, Holds, Jump;
      buf := PointerInFront(mem, off, buf, labels, steps - 1);
    } else {
      var next, first := off + 1 + mem(off), Label(mem, off);
      buf, labels := RunReads(mem, next, Advance(i, mem(off)), read + [first], jumped, jumpOffset, maxLen, steps - 1);
      hide Run, NameWithin, Holds, Label;
      buf := LabelInFront(mem, off, buf, labels, steps - 1);
      labels := [first] + labels;
    }
  }

  lemma {:induction false} RunMonotone(mem: Memory, off: nat, i: nat, read: Name, jumped: bool, jumpOffset: nat,
                                       maxLen: nat, steps: nat, more: nat)
    requires !Run(mem, off, i, read, jumped, jumpOffset, maxLen, steps).Unfinished? && steps <= more
    ensures Run(mem, off, i, read, jumped, jumpOffset, maxLen, more)
         == Run(mem, off, i, read, jumped, jumpOffset, maxLen, steps)
    decreases steps
  {
    if mem(off) == 0 {
    } else if IsPointer(mem(off)) {
      RunMonotone(mem, Jump(mem, off), i, read, true, if jumped then jumpOffset else off + 2, maxLen, steps - 1, more - 1);
    } else if i + mem(off) + 1 < maxLen {
      RunMonotone(mem, off + 1 + mem(off), Advance(i, mem(off)), read + [Label(mem, off)], jumped, jumpOffset, maxLen,
                  steps - 1, more - 1);
    }
  }

  /** Both directions together: a run that ends has read these labels exactly when they are the name there and fit. */
  lemma ParseReadsName(mem: Memory, start: nat, maxLen: nat, steps: nat, labels: Name)
    requires Finishes(mem, start, maxLen, steps)
    ensures var o := Parse(mem, start, maxLen, steps);
            o.Read? && o.written == labels <==> HasName(mem, start, labels) && Fits(labels, maxLen)
    ensures forall buf :: Holds(mem, buf) && NameAt(buf, start, labels) && Fits(labels, maxLen) ==>
              Parse(mem, start, maxLen, steps) == Read(labels, EndInPlace(buf, start))
  {
    var o := Parse(mem, start, maxLen, steps);
    if o.Read? {
      var buf, found := RunReads(mem, start, 0, [], false, 0, maxLen, steps);
      NameParses(mem, buf, start, maxLen, steps, found);
    }
    forall buf | Holds(mem, buf) && NameAt(buf, start, labels) && Fits(labels, maxLen)
      ensures o == Read(labels, EndInPlace(buf, start))
    {
      NameParses(mem, buf, start, maxLen, steps, labels);
    }
  }

  /** What the parser makes of a name that ends in place at `end`. */
  ghost function Reading(labels: Name, end: nat, maxLen: nat): Outcome {
    if Fits(labels, maxLen) then Read(labels, end) else TooLong(FittingPart(0, labels, maxLen))
  }

  lemma NameIsRead(mem: Memory, buf: seq<byte>, lo: nat, start: nat, labels: Name, maxLen: nat, steps: nat)
    requires Holds(mem, buf) && NameWithin(buf, lo, start, labels, steps)
    ensures Parse(mem, start, maxLen, steps) == Reading(labels, EndInPlace(buf, start), maxLen)
  {
    NameRuns(mem, buf, lo, start, labels, 0, [], false, 0, maxLen, steps);
    assert [] + labels == labels && [] + FittingPart(0, labels, maxLen) == FittingPart(0, labels, maxLen);
    WithinNonempty(buf, lo, start, labels, steps);
    FitsIsFitsFrom(labels, maxLen);
  }

  /** The same name in two memories is read alike. */
  lemma BothRead(mem: Memory, buf: seq<byte>, lo: nat, start: nat, steps: nat,
                 mem': Memory, buf': seq<byte>, lo': nat, start': nat, steps': nat, labels: Name, maxLen: nat)
    requires Holds(mem, buf) && NameWithin(buf, lo, start, labels, steps)
    requires Holds(mem', buf') && NameWithin(buf', lo', start', labels, steps')
    ensures exists n: nat ::
              && Parse(mem, start, maxLen, n) == Reading(labels, EndInPlace(buf, start), maxLen)
              && Parse(mem', start', maxLen, n) == Reading(labels, EndInPlace(buf', start'), maxLen)
  {
    hide NameWithin, EndInPlace, Reading, Parse;
    WithinMonotone(buf, lo, start, labels, steps, steps + steps');
    WithinMonotone(buf', lo', start', labels, steps', steps + steps');
    NameIsRead(mem, buf, lo, start, labels, maxLen, steps + steps');
    NameIsRead(mem', buf', lo', start', labels, maxLen, steps + steps');
  }

  lemma ParsesAgree(mem: Memory, start: nat, maxLen: nat, steps: nat, steps': nat)
    requires Finishes(mem, start, maxLen, steps) && Finishes(mem, start, maxLen, steps')
    ensures Parse(mem, start, maxLen, steps) == Parse(mem, start, maxLen, steps')
  {
    RunMonotone(mem, start, 0, [], false, 0, maxLen, steps, steps + steps');
    RunMonotone(mem, start, 0, [], false, 0, maxLen, steps', steps + steps');
  }

  lemma NameParses(mem: Memory, buf: seq<byte>, start: nat, maxLen: nat, steps: nat, labels: Name)
    requires Holds(mem, buf) && Finishes(mem, start, maxLen, steps) && NameAt(buf, start, labels)
    ensures Parse(mem, start, maxLen, steps) == Reading(labels, EndInPlace(buf, start), maxLen)
  {
    var n: nat :| NameWithin(buf, 0, start, labels, n);
    NameIsRead(mem, buf, 0, start, labels, maxLen, n);
    ParsesAgree(mem, start, maxLen, steps, n);
  }

  /** Wherever there is a name, the parser returns. */
  lemma NameTerminates(mem: Memory, start: nat, labels: Name, maxLen: nat)
    requires HasName(mem, start, labels)
    ensures Terminates(mem, start, maxLen)
  {
    var buf :| Holds(mem, buf) && NameAt(buf, start, labels);
    var steps: nat :| NameWithin(buf, 0, start, labels, steps);
    NameIsRead(mem, buf, 0, start, labels, maxLen, steps);
    assert Finishes(mem, start, maxLen, steps);
  }

  /** Nothing at or above an index has changed. */
  predicate Kept(now: seq<byte>, was: seq<byte>, from: nat) {
    |now| == |was| && forall k :: from <= k < |was| ==> now[k] == was[k]
  }

  /** The output holds the labels read so far, dotted, and is otherwise as it was. */
  ghost predicate Written(out: seq<byte>, was: seq<byte>, read: Name, i: nat) {
    && i <= |out| == |was|
    && Counted(read, i)
    && out[..i] == Dotted(read)
    && out[i..] == was[i..]
  }

  lemma WrittenSnoc(out: seq<byte>, out': seq<byte>, was: seq<byte>, read: Name, piece: seq<byte>, i: nat, i': nat)
    requires Written(out, was, read, i) && piece != []
    requires i' == Advance(i, |piece|) <= |out| == |out'|
    requires out'[..i] == out[..i] && (i > 0 ==> out'[i] == DOT)
    requires out'[i' - |piece|..i'] == piece && out'[i'..] == out[i'..]
    ensures Written(out', was, read + [piece], i')
  {
    DottedSnoc(read, piece);
    assert out'[..i'] == out'[..i' - |piece|] + out'[i' - |piece|..i'];
    assert out[i'..] == out[i..][i' - i..] == was[i..][i' - i..] == was[i'..];
  }

  /** `buf[k]` of the C function, which may be an octet behind the buffer. */
  function Load(buf: array<byte>, behind: Memory, k: nat): byte
    reads buf
  {
    if k < buf.Length then buf[k] else behind(k)
  }

  /** The label at `offset` goes to the output, after a dot unless it is the first. It ends before `maxLen`,
      and nothing behind it changes. */
  method CopyLabel(buf: array<byte>, behind: Memory, offset: nat, domain: array<byte>, i: nat, maxLen: nat,
                   ghost read: Name, ghost was: seq<byte>)
    returns (i': nat)
    requires 0 < Load(buf, behind, offset) && i + Load(buf, behind, offset) + 1 < maxLen <= domain.Length
    requires buf != domain
    requires Written(domain[..], was, read, i)
    modifies domain
    ensures i' == Advance(i, Load(buf, behind, offset)) < maxLen
    ensures Written(domain[..], was, read + [Label(Over(buf[..], behind), offset)], i')
  {
    ghost var octets, out := buf[..], domain[..];
    ghost var piece := Label(Over(octets, behind), offset);
    hide Written, Dotted;
    var len: int := Load(buf, behind, offset);
    i' := i;
    if i' > 0 {
      domain[i'] := DOT;
      i' := i' + 1;
    }
    forall k | 0 <= k < len {
      domain[i' + k] := Load(buf, behind, offset + 1 + k);
    }
    i' := i' + len;
    assert domain[i' - len..i'] == piece by {
      assert forall k :: 0 <= k < len ==> domain[i' - len + k] == Load(buf, behind, offset + 1 + k) == piece[k];
    }
    WrittenSnoc(out, domain[..], was, read, piece, i, i');
    assert buf[..] == octets;
  }

  lemma WrittenKeeps(out: seq<byte>, was: seq<byte>, read: Name, i: nat, from: nat)
    requires Written(out, was, read, i) && i < from <= |was|
    ensures Kept(out, was, from) && i == |Dotted(read)|
  {
  }

  /** The closing NUL. */
  method Terminate(domain: array<byte>, i: nat, maxLen: nat, ghost read: Name, ghost was: seq<byte>)
    requires Written(domain[..], was, read, i) && i < maxLen <= |was|
    modifies domain
    ensures i == |Dotted(read)| && Kept(domain[..], was, maxLen)
    ensures domain[..] == Dotted(read) + [0] + was[|Dotted(read)| + 1..]
  {
    domain[i] := 0;
  }

  /** The loop of `parse_domain_name`, on a memory it leaves within `steps0` iterations. */
  method ParseLoop(buf: array<byte>, behind: Memory, start: nat, domain: array<byte>, maxLen: nat, ghost steps0: nat)
    returns (end: int)
    requires Finishes(Over(buf[..], behind), start, maxLen, steps0)
    requires 1 <= maxLen <= domain.Length && buf != domain
    modifies domain
    ensures match Parse(Over(buf[..], behind), start, maxLen, steps0)
            case TooLong(written) =>
              && end == -1
              && |Dotted(written)| < maxLen
              && domain[..] == Dotted(written) + old(domain[..])[|Dotted(written)|..]
            case Read(written, inPlace) =>
              && end == inPlace
              && |Dotted(written)| < maxLen
              && domain[..] == Dotted(written) + [0] + old(domain[..])[|Dotted(written)| + 1..]
    ensures Kept(domain[..], old(domain[..]), maxLen)
  {
    ghost var octets, was := buf[..], domain[..];
    ghost var mem := Over(octets, behind);
    assert Written(was, was, [], 0);
    ghost var result := Parse(mem, start, maxLen, steps0);
    assert Run(mem, start, 0, [], false, 0, maxLen, steps0) == result;
    hide Dotted, Written, Kept, Label, PointerTo, Parse, Finishes, Advance;
    ghost var steps := steps0;
    ghost var read: Name := [];
    var offset: nat, i: nat := start, 0;
    var jumped, jumpOffset: nat := false, 0;
    while Load(buf, behind, offset) != 0
      invariant buf[..] == octets
      invariant Run(mem, offset, i, read, jumped, jumpOffset, maxLen, steps) == result
      invariant i < maxLen && Written(domain[..], was, read, i)
      decreases steps
    {
      var len: int := Load(buf, behind, offset);
      assert len == mem(offset);
      if IsPointer(len) {
        if !jumped {
          jumpOffset := offset + 2;
        }
        offset := PointerTo(len, Load(buf, behind, offset + 1));
        jumped := true;
        steps := steps - 1;
        continue;
      }
      if i + len + 1 >= maxLen {
        WrittenKeeps(domain[..], was, read, i, maxLen);
        return -1;
      }
      i := CopyLabel(buf, behind, offset, domain, i, maxLen, read, was);
      read := read + [Label(mem, offset)];
      offset := offset + 1 + len;
      steps := steps - 1;
    }
    Terminate(domain, i, maxLen, read, was);
    if jumped {
      return jumpOffset;
    }
    return offset + 1;
  }

  /** `parse_domain_name`, wherever it returns. `behind` is the memory behind the buffer, which the function may
      walk into, as it gets no length. */
  method ParseDomainName(buf: array<byte>, behind: Memory, start: nat, domain: array<byte>, maxLen: nat)
    returns (end: int)
    requires Terminates(Over(buf[..], behind), start, maxLen)
    requires 1 <= maxLen <= domain.Length && buf != domain
    modifies domain
    ensures end == -1 <==> !exists labels :: HasName(Over(buf[..], behind), start, labels) && Fits(labels, maxLen)
    ensures forall octets, labels ::
              Holds(Over(buf[..], behind), octets) && NameAt(octets, start, labels) && Fits(labels, maxLen) ==>
                && end == EndInPlace(octets, start)
                && |Dotted(labels)| < maxLen
                && domain[..] == Dotted(labels) + [0] + old(domain[..])[|Dotted(labels)| + 1..]
    ensures end >= -1 && Kept(domain[..], old(domain[..]), maxLen)
  {
    ghost var mem := Over(buf[..], behind);
    ghost var steps: nat :| Finishes(mem, start, maxLen, steps);
    forall labels
      ensures var o := Parse(mem, start, maxLen, steps);
              o.Read? && o.written == labels <==> HasName(mem, start, labels) && Fits(labels, maxLen)
      ensures forall octets :: Holds(mem, octets) && NameAt(octets, start, labels) && Fits(labels, maxLen) ==>
                Parse(mem, start, maxLen, steps) == Read(labels, EndInPlace(octets, start))
    {
      ParseReadsName(mem, start, maxLen, steps, labels);
    }
    ghost var read := Parse(mem, start, maxLen, steps).written;
    assert Parse(mem, start, maxLen, steps).Read? ==> HasName(mem, start, read) && Fits(read, maxLen);
    end := ParseLoop(buf, behind, start, domain, maxLen, steps);
  }

  /** With the 256-octet buffer of the DNS server the check is exactly a dotted form of at most 255 octets. */
  lemma FitsServerBuffer(mem: Memory, off: nat, labels: Name)
    requires HasName(mem, off, labels)
    ensures Fits(labels, 256) <==> |Dotted(labels)| <= 255
  {
    var buf :| Holds(mem, buf) && NameAt(buf, off, labels);
    var steps: nat :| NameWithin(buf, 0, off, labels, steps);
    WithinNonempty(buf, 0, off, labels, steps);
    if labels != [] {
      assert labels[0] in labels;
    }
  }

  /** Octets a name takes on the wire without compression (the 255-octet limit of section 2.3.4 counts these). */
  function WireLength(labels: Name): nat {
    if labels == [] then 1 else 1 + |labels[0]| + WireLength(labels[1..])
  }

  lemma {:induction false} WireLengthOfDotted(labels: Name)
    requires labels != []
    ensures WireLength(labels) == |Dotted(labels)| + 2
  {
    if |labels| > 1 {
      WireLengthOfDotted(labels[1..]);
    } else {
      assert WireLength(labels[1..]) == 1;
    }
  }

  lemma {:induction false} EncodeLength(labels: Name)
    requires forall l :: l in labels ==> |l| < 0xC0
    ensures |Encode(labels)| == WireLength(labels)
  {
    if labels != [] {
      assert forall l :: l in labels[1..] ==> l in labels;
      EncodeLength(labels[1..]);
    }
  }

  /** No name within the limit of section 2.3.4 of RFC 1035 is refused for its length. */
  lemma LegalNamesFit(labels: Name)
    requires WireLength(labels) <= 255
    ensures Fits(labels, 256)
  {
    if labels != [] {
      WireLengthOfDotted(labels);
    }
  }

  /** The loop, entered at `off` with `i` octets written, is over within `steps` iterations. */
  ghost predicate Stops(mem: Memory, off: nat, i: nat, maxLen: nat, steps: nat)
    decreases steps
  {
    if mem(off) == 0 then true
    else if steps == 0 then false
    else if IsPointer(mem(off)) then Stops(mem, Jump(mem, off), i, maxLen, steps - 1)
    else i + mem(off) + 1 >= maxLen || Stops(mem, off + 1 + mem(off), Advance(i, mem(off)), maxLen, steps - 1)
  }

  lemma {:induction false} StopsIsFinished(mem: Memory, off: nat, i: nat, read: Name, jumped: bool, jumpOffset: nat,
                                           maxLen: nat, steps: nat)
    ensures Stops(mem, off, i, maxLen, steps) <==> !Run(mem, off, i, read, jumped, jumpOffset, maxLen, steps).Unfinished?
    decreases steps
  {
    if mem(off) != 0 && steps > 0 {
      if IsPointer(mem(off)) {
        StopsIsFinished(mem, Jump(mem, off), i, read, true, if jumped then jumpOffset else off + 2, maxLen, steps - 1);
      } else {
        StopsIsFinished(mem, off + 1 + mem(off), Advance(i, mem(off)), read + [Label(mem, off)], jumped, jumpOffset,
                        maxLen, steps - 1);
      }
    }
  }

  /** Every pointer points strictly before itself. */
  ghost predicate PointersGoBack(mem: Memory) {
    forall p: nat :: IsPointer(mem(p)) ==> Jump(mem, p) < p
  }

  lemma {:induction false} BackwardPointersStop(mem: Memory, off: nat, i: nat, maxLen: nat) returns (steps: nat)
    requires PointersGoBack(mem)
    ensures Stops(mem, off, i, maxLen, steps)
    decreases if i < maxLen then maxLen - i else 0, off
  {
    steps := 1;
    if IsPointer(mem(off)) {
      var rest := BackwardPointersStop(mem, Jump(mem, off), i, maxLen);
      steps := rest + 1;
    } else if mem(off) != 0 && i + mem(off) + 1 < maxLen {
      var rest := BackwardPointersStop(mem, off + 1 + mem(off), Advance(i, mem(off)), maxLen);
      steps := rest + 1;
    }
  }

  /** `hops` pointers in a row lead from `a` to `b`. */
  ghost predicate Hops(mem: Memory, a: nat, b: nat, hops: nat)
    decreases hops
  {
    if hops == 0 then a == b else IsPointer(mem(a)) && Hops(mem, Jump(mem, a), b, hops - 1)
  }

  ghost predicate LeadsTo(mem: Memory, a: nat, b: nat) {
    exists hops: nat :: hops > 0 && Hops(mem, a, b, hops)
  }

  /** The loop, entered at `off` with `i` octets written, comes to a pointer that leads back to itself. */
  ghost predicate MeetsCycle(mem: Memory, off: nat, i: nat, maxLen: nat, steps: nat)
    decreases steps
  {
    || LeadsTo(mem, off, off)
    || (&& steps > 0 && mem(off) != 0
        && (if IsPointer(mem(off)) then
              MeetsCycle(mem, Jump(mem, off), i, maxLen, steps - 1)
            else
              && i + mem(off) + 1 < maxLen
              && MeetsCycle(mem, off + 1 + mem(off), Advance(i, mem(off)), maxLen, steps - 1)))
  }

  lemma {:induction false} HopsThenStops(mem: Memory, a: nat, b: nat, hops: nat, i: nat, maxLen: nat, steps: nat)
    requires Hops(mem, a, b, hops) && Stops(mem, a, i, maxLen, steps)
    ensures hops <= steps && Stops(mem, b, i, maxLen, steps - hops)
    decreases hops
  {
    if hops > 0 {
      HopsThenStops(mem, Jump(mem, a), b, hops - 1, i, maxLen, steps - 1);
    }
  }

  lemma {:induction false} CycleNeverStops(mem: Memory, off: nat, hops: nat, i: nat, maxLen: nat, steps: nat)
    requires hops > 0 && Hops(mem, off, off, hops)
    ensures !Stops(mem, off, i, maxLen, steps)
    decreases steps
  {
    if Stops(mem, off, i, maxLen, steps) {
      HopsThenStops(mem, off, off, hops, i, maxLen, steps);
      CycleNeverStops(mem, off, hops, i, maxLen, steps - hops);
    }
  }

  lemma {:induction false} MeetsCycleNeverStops(mem: Memory, off: nat, i: nat, maxLen: nat, met: nat, steps: nat)
    requires MeetsCycle(mem, off, i, maxLen, met)
    ensures !Stops(mem, off, i, maxLen, steps)
    decreases steps
  {
    if LeadsTo(mem, off, off) {
      var hops: nat :| hops > 0 && Hops(mem, off, off, hops);
      CycleNeverStops(mem, off, hops, i, maxLen, steps);
    } else if steps > 0 {
      if IsPointer(mem(off)) {
        MeetsCycleNeverStops(mem, Jump(mem, off), i, maxLen, met - 1, steps - 1);
      } else {
        MeetsCycleNeverStops(mem, off + 1 + mem(off), Advance(i, mem(off)), maxLen, met - 1, steps - 1);
      }
    }
  }

  lemma {:induction false} HopsSnoc(mem: Memory, a: nat, b: nat, hops: nat)
    requires Hops(mem, a, b, hops) && IsPointer(mem(b))
    ensures Hops(mem, a, Jump(mem, b), hops + 1)
    decreases hops
  {
    if hops > 0 {
      HopsSnoc(mem, Jump(mem, a), b, hops - 1);
    }
  }

  /** A pointer has 14 bits. */
  const REACH: nat := 0x4000

  /** Either the loop ends or it meets a cycle. `seen` are the pointers followed since the last label:
      the first of them, at `first` or before, and targets of pointers. */
  lemma {:induction false} StopsOrMeetsCycle(mem: Memory, off: nat, i: nat, maxLen: nat, seen: set<nat>, first: nat)
    returns (steps: nat)
    requires off < REACH || off <= first
    requires forall p :: p in seen ==> p < REACH + first + 1
    requires forall p :: p in seen ==> LeadsTo(mem, p, off)
    ensures Stops(mem, off, i, maxLen, steps) || MeetsCycle(mem, off, i, maxLen, steps)
    decreases if i < maxLen then maxLen - i else 0, REACH + first + 1 - |seen|
  {
    steps := 1;
    if off in seen || mem(off) == 0 {
    } else if IsPointer(mem(off)) {
      var target := Jump(mem, off);
      forall p | p in seen + {off}
        ensures LeadsTo(mem, p, target)
      {
        if p in seen {
          var hops: nat :| hops > 0 && Hops(mem, p, off, hops);
          HopsSnoc(mem, p, off, hops);
        } else {
          assert Hops(mem, target, target, 0);
          assert Hops(mem, off, target, 1);
        }
      }
      SizeOfBounded(seen + {off}, REACH + first + 1);
      var rest := StopsOrMeetsCycle(mem, target, i, maxLen, seen + {off}, first);
      steps := rest + 1;
    } else if i + mem(off) + 1 < maxLen {
      var next := off + 1 + mem(off);
      var rest := StopsOrMeetsCycle(mem, next, Advance(i, mem(off)), maxLen, {}, next);
      steps := rest + 1;
    }
  }

  lemma {:induction false} SizeOfBounded(s: set<nat>, n: nat)
    requires forall p :: p in s ==> p < n
    ensures |s| <= n
  {
    if n > 0 {
      SizeOfBounded(s - {n - 1}, n - 1);
      assert s <= (s - {n - 1}) + {n - 1};
    } else {
      assert s == {};
    }
  }

  ghost predicate RunsIntoCycle(mem: Memory, start: nat, maxLen: nat) {
    exists steps: nat :: MeetsCycle(mem, start, 0, maxLen, steps)
  }

  /** The parser returns exactly when the pointers it follows never lead back to one of them. */
  lemma TerminatesExactlyWithoutCycle(mem: Memory, start: nat, maxLen: nat)
    ensures Terminates(mem, start, maxLen) <==> !RunsIntoCycle(mem, start, maxLen)
  {
    if RunsIntoCycle(mem, start, maxLen) {
      var met: nat :| MeetsCycle(mem, start, 0, maxLen, met);
      forall n: nat
        ensures !Finishes(mem, start, maxLen, n)
      {
        MeetsCycleNeverStops(mem, start, 0, maxLen, met, n);
        StopsIsFinished(mem, start, 0, [], false, 0, maxLen, n);
      }
    } else {
      var steps := StopsOrMeetsCycle(mem, start, 0, maxLen, {}, start);
      StopsIsFinished(mem, start, 0, [], false, 0, maxLen, steps);
      assert Finishes(mem, start, maxLen, steps);
    }
  }

  /** With backward pointers the parser returns: a label uses up output space, a pointer moves to the front. */
  lemma BackwardPointersTerminate(mem: Memory, start: nat, maxLen: nat)
    requires PointersGoBack(mem)
    ensures Terminates(mem, start, maxLen)
  {
    var steps := BackwardPointersStop(mem, start, 0, maxLen);
    StopsIsFinished(mem, start, 0, [], false, 0, maxLen, steps);
    assert Finishes(mem, start, maxLen, steps);
  }
}
