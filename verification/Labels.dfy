/** Domain names as lists of labels, and their dotted presentation form. */
module Labels {
  import opened Bytes

  type Name = seq<seq<byte>>

  /** The labels separated by dots. */
  function Dotted(labels: Name): seq<byte> {
    if labels == [] then []
    else if |labels| == 1 then labels[0]
    else labels[0] + [DOT] + Dotted(labels[1..])
  }

  /** The pieces between the dots; a string with `n` dots has `n + 1` pieces. */
  function Split(s: seq<byte>): (r: Name)
    ensures r != []
  {
    if s == [] then [[]]
    else
      var rest := Split(s[1..]);
      if s[0] == DOT then [[]] + rest else [[s[0]] + rest[0]] + rest[1..]
  }

  predicate IsSuffix<T(==)>(p: seq<T>, q: seq<T>) {
    |p| <= |q| && q[|q| - |p|..] == p
  }

  /** `q` is `p` with something and a dot in front. */
  predicate EndsWithDotted(q: seq<byte>, p: seq<byte>) {
    |p| < |q| && q[|q| - |p|..] == p && q[|q| - |p| - 1] == DOT
  }

  function FoldAll(labels: Name): (r: Name)
    ensures |r| == |labels|
    ensures forall i :: 0 <= i < |r| ==> r[i] == Fold(labels[i])
  {
    seq(|labels|, i requires 0 <= i < |labels| => Fold(labels[i]))
  }

  /** No label contains a dot, or a NUL, which would end the C string early. */
  predicate Clean(labels: Name) {
    forall l :: l in labels ==> 46 !in l && 0 !in l
  }

  lemma DottedCons(l: seq<byte>, rest: Name)
    requires rest != []
    ensures Dotted([l] + rest) == l + [DOT] + Dotted(rest)
  {
    assert ([l] + rest)[1..] == rest;
  }

  lemma DottedFirst(c: byte, rest: Name)
    requires rest != []
    ensures Dotted([[c] + rest[0]] + rest[1..]) == [c] + Dotted(rest)
  {
    assert ([[c] + rest[0]] + rest[1..])[1..] == rest[1..];
  }

  lemma {:induction false} DottedSplit(s: seq<byte>)
    ensures Dotted(Split(s)) == s
  {
    if s != [] {
      DottedSplit(s[1..]);
      var rest := Split(s[1..]);
      assert s == [s[0]] + s[1..];
      hide Dotted;
      if s[0] == DOT {
        DottedCons([], rest);
      } else {
        DottedFirst(s[0], rest);
      }
    }
  }

  lemma {:induction false} SplitNoDot(l: seq<byte>)
    requires DOT !in l
    ensures Split(l) == [l]
  {
    if l != [] {
      assert forall x :: x in l[1..] ==> x in l;
      SplitNoDot(l[1..]);
      assert l == [l[0]] + l[1..];
    }
  }

  lemma {:induction false} SplitFirst(l: seq<byte>, rest: seq<byte>)
    requires DOT !in l
    ensures Split(l + [DOT] + rest) == [l] + Split(rest)
  {
    var s := l + [DOT] + rest;
    if l == [] {
      assert s[1..] == rest;
    } else {
      assert forall x :: x in l[1..] ==> x in l;
      SplitFirst(l[1..], rest);
      assert s[1..] == l[1..] + [DOT] + rest;
      assert l == [l[0]] + l[1..];
    }
  }

  /** Splitting the dotted form gives back the labels. */
  lemma {:induction false} SplitDotted(labels: Name)
    requires labels != []
    requires forall l :: l in labels ==> 46 !in l
    ensures Split(Dotted(labels)) == labels
  {
    if |labels| == 1 {
      SplitNoDot(labels[0]);
    } else {
      SplitDotted(labels[1..]);
      SplitFirst(labels[0], Dotted(labels[1..]));
    }
  }

  lemma SuffixStep<T>(p: seq<T>, q: seq<T>)
    requires q != []
    ensures IsSuffix(p, q) <==> p == q || IsSuffix(p, q[1..])
  {
  }

  lemma EndsWithDottedStep(q: seq<byte>, p: seq<byte>)
    requires q != []
    ensures EndsWithDotted(q, p) <==> (q[0] == DOT && q[1..] == p) || EndsWithDotted(q[1..], p)
  {
  }

  lemma SplitEqual(p: seq<byte>, q: seq<byte>)
    ensures Split(p) == Split(q) <==> p == q
  {
    if Split(p) == Split(q) {
      DottedSplit(p);
      DottedSplit(q);
    }
  }

  /** The labels are a suffix of those after the first one exactly when the bytes end in a dot and the string. */
  lemma {:induction false} ProperSuffixIsDottedEnd(p: seq<byte>, q: seq<byte>)
    ensures IsSuffix(Split(p), Split(q)[1..]) <==> EndsWithDotted(q, p)
  {
    if q != [] {
      ProperSuffixIsDottedEnd(p, q[1..]);
      EndsWithDottedStep(q, p);
      if q[0] == DOT {
        assert Split(q)[1..] == Split(q[1..]);
        SuffixStep(Split(p), Split(q[1..]));
        SplitEqual(p, q[1..]);
      } else {
        assert Split(q)[1..] == Split(q[1..])[1..];
      }
    }
  }

  /** Label-list suffix, read off the bytes. */
  lemma SuffixIsDottedEnd(p: seq<byte>, q: seq<byte>)
    ensures IsSuffix(Split(p), Split(q)) <==> q == p || EndsWithDotted(q, p)
  {
    SuffixStep(Split(p), Split(q));
    SplitEqual(p, q);
    ProperSuffixIsDottedEnd(p, q);
  }

  /** The labels of one list are the last ones of the other, up to case. */
  predicate EndsIgnoringCase(p: Name, q: Name) {
    |p| <= |q| && forall k :: 0 <= k < |p| ==> SameIgnoringCase(p[k], q[|q| - |p| + k])
  }

  lemma FoldedLabels(p: Name, q: Name)
    requires |p| == |q|
    ensures FoldAll(p) == FoldAll(q) <==> forall k :: 0 <= k < |p| ==> SameIgnoringCase(p[k], q[k])
  {
    hide Fold, SameIgnoringCase;
    forall k | 0 <= k < |p|
      ensures FoldAll(p)[k] == FoldAll(q)[k] <==> SameIgnoringCase(p[k], q[k])
    {
      FoldedAlike(p[k], q[k]);
    }
    hide FoldAll;
  }

  lemma FoldedSuffix(p: Name, q: Name)
    ensures IsSuffix(FoldAll(p), FoldAll(q)) <==> EndsIgnoringCase(p, q)
  {
    hide Fold, SameIgnoringCase;
    if |p| <= |q| {
      var d := |q| - |p|;
      assert FoldAll(q)[d..] == FoldAll(q[d..]);
      FoldedLabels(p, q[d..]);
      hide FoldAll;
    }
  }

  lemma FoldAllCons(l: seq<byte>, more: Name)
    ensures FoldAll([l] + more) == [Fold(l)] + FoldAll(more)
  {
  }

  lemma FoldCons(c: byte, l: seq<byte>)
    ensures Fold([c] + l) == [ToLower(c)] + Fold(l)
  {
  }

  lemma SplitCons(s: seq<byte>)
    requires s != []
    ensures var rest := Split(s[1..]);
            Split(s) == if s[0] == DOT then [[]] + rest else [[s[0]] + rest[0]] + rest[1..]
  {
  }

  /** Folding the pieces after an octet has been put in front. */
  lemma FoldPieces(c: byte, rest: Name)
    requires rest != []
    ensures FoldAll([[]] + rest) == [[]] + FoldAll(rest)
    ensures FoldAll([[c] + rest[0]] + rest[1..]) == [[ToLower(c)] + FoldAll(rest)[0]] + FoldAll(rest)[1..]
  {
    FoldEmpty();
    hide Fold, ToLower;
    FoldAllCons([], rest);
    FoldCons(c, rest[0]);
    FoldAllCons([c] + rest[0], rest[1..]);
    FoldAllCons(rest[0], rest[1..]);
    assert rest == [rest[0]] + rest[1..];
    hide FoldAll;
  }

  lemma FoldParts(s: seq<byte>)
    requires s != []
    ensures Fold(s)[0] == ToLower(s[0]) && Fold(s)[1..] == Fold(s[1..])
    ensures ToLower(s[0]) == DOT <==> s[0] == DOT
  {
  }

  /** Folding a string folds its pieces: no letter folds to a dot. */
  lemma {:induction false} SplitFold(s: seq<byte>)
    ensures Split(Fold(s)) == FoldAll(Split(s))
  {
    FoldEmpty();
    if s != [] {
      FoldParts(s);
      SplitCons(s);
      SplitCons(Fold(s));
      hide Fold, FoldAll, Split, ToLower;
      SplitFold(s[1..]);
      FoldPieces(s[0], Split(s[1..]));
    }
  }

  lemma FoldEmpty()
    ensures Fold([]) == []
  {
  }

  lemma {:induction false} DottedNulFree(labels: Name)
    requires Clean(labels)
    ensures 0 !in Dotted(labels)
  {
    if |labels| > 1 {
      assert Clean(labels[1..]);
      DottedNulFree(labels[1..]);
    }
  }

  /** Appending a label appends a dot (unless it is the first label) and that label. */
  lemma {:induction false} DottedSnoc(labels: Name, l: seq<byte>)
    ensures Dotted(labels + [l]) == if labels == [] then l else Dotted(labels) + [46] + l
  {
    if |labels| == 1 {
      assert (labels + [l])[1..] == [l];
    } else if |labels| > 1 {
      DottedSnoc(labels[1..], l);
      assert (labels + [l])[1..] == labels[1..] + [l];
    }
  }
}
