/** `domain_matches`: does a queried name fall under a blocked entry? */
module DomainMatcher {
  import opened Bytes
  import opened Labels

  const MAX_DOMAIN_LENGTH := 128

  /** What fits the local buffers: the first 127 octets. */
  function Truncate(s: cstring): cstring {
    if |s| < MAX_DOMAIN_LENGTH then s else s[..MAX_DOMAIN_LENGTH - 1]
  }

  predicate IsWildcard(s: seq<byte>) {
    |s| >= 2 && s[0] == STAR && s[1] == DOT
  }

  /** An entry without one leading "*.". */
  function Strip(s: seq<byte>): seq<byte> {
    if IsWildcard(s) then s[2..] else s
  }

  /** The meaning of an entry: its labels, less one leading "*", end the label list of the query. */
  predicate Covers(pattern: seq<byte>, query: seq<byte>) {
    IsSuffix(FoldAll(Split(Strip(pattern))), FoldAll(Split(query)))
  }

  /** The verdict of `domain_matches`: only what fits the buffers takes part. */
  predicate Matches(pattern: cstring, query: cstring) {
    Covers(Truncate(pattern), Truncate(query))
  }

  /** `to_lowercase`, in place. */
  method ToLowercase(str: array<byte>)
    requires 0 in str[..]
    modifies str
    ensures Str(str[..]) == Fold(old(Str(str[..])))
    ensures forall k :: |Str(str[..])| <= k < str.Length ==> str[k] == old(str[k])
  {
    ghost var was := str[..];
    ghost var s := Str(was);
    StrStops(was);
    var i := 0;
    while str[i] != 0
      invariant 0 <= i <= |s|
      invariant forall k :: 0 <= k < i ==> str[k] == ToLower(s[k])
      invariant forall k :: i <= k < str.Length ==> str[k] == was[k]
      decreases |s| - i
    {
      str[i] := ToLower(str[i]);
      i := i + 1;
    }
    StrIs(str[..], Fold(s));
  }

  /** A 128-byte buffer holding the lower-cased first 127 octets of `s`. */
  method LowerCopy(s: cstring) returns (buf: array<byte>)
    ensures fresh(buf) && buf.Length == MAX_DOMAIN_LENGTH
    ensures Str(buf[..]) == Fold(Truncate(s))
  {
    buf := new byte[MAX_DOMAIN_LENGTH];
    StrNCpy(buf, s, MAX_DOMAIN_LENGTH - 1);
    buf[MAX_DOMAIN_LENGTH - 1] := 0;
    StrIs(buf[..], Truncate(s));
    assert buf[..][MAX_DOMAIN_LENGTH - 1] == 0;
    ToLowercase(buf);
  }

  /** The three byte-level cases: equal; equal to or dotted below the rest of a wildcard; dotted below. */
  predicate BytesMatch(q: seq<byte>, p: seq<byte>) {
    || q == p
    || (IsWildcard(p) && (q == p[2..] || EndsWithDotted(q, p[2..])))
    || EndsWithDotted(q, p)
  }

  lemma CasesAreCover(q: seq<byte>, p: seq<byte>)
    ensures BytesMatch(q, p) <==> IsSuffix(Split(Strip(p)), Split(q))
  {
    hide Split, IsSuffix, EndsWithDotted;
    SuffixIsDottedEnd(p, q);
    SuffixIsDottedEnd(Strip(p), q);
    if IsWildcard(p) {
      WildcardLabels(p);
      SuffixOfSuffix(Split(p[2..]), Split(p), Split(q));
    }
  }

  /** The labels of a wildcard are "*" and those behind it. */
  lemma WildcardLabels(p: seq<byte>)
    requires IsWildcard(p)
    ensures IsSuffix(Split(p[2..]), Split(p))
  {
    assert [STAR] + [DOT] + p[2..] == p;
    SplitFirst([STAR], p[2..]);
    hide Split;
    assert Split(p)[1..] == Split(p[2..]);
  }

  lemma SuffixOfSuffix<T>(a: seq<T>, b: seq<T>, c: seq<T>)
    requires IsSuffix(a, b)
    ensures IsSuffix(b, c) ==> IsSuffix(a, c)
  {
  }

  lemma FoldStrip(p: seq<byte>)
    ensures Strip(Fold(p)) == Fold(Strip(p))
  {
  }

  lemma CoversFolded(pattern: seq<byte>, query: seq<byte>)
    ensures Covers(pattern, query) <==> IsSuffix(Split(Strip(Fold(pattern))), Split(Fold(query)))
  {
    FoldStrip(pattern);
    SplitFold(Strip(pattern));
    SplitFold(query);
  }

  /** `strcmp` on the last `n` octets of a string in a buffer. */
  lemma TailOfString(buf: array<byte>, n: nat)
    requires n <= |Str(buf[..])|
    ensures Str(buf[|Str(buf[..])| - n..]) == Str(buf[..])[|Str(buf[..])| - n..]
  {
  }

  lemma PrefixOfString(buf: array<byte>)
    requires buf.Length > 2 && buf[0] == STAR && buf[1] == DOT
    ensures IsWildcard(Str(buf[..])) && Str(buf[2..]) == Str(buf[..])[2..]
  {
  }

  lemma NotWildcard(buf: array<byte>)
    requires buf.Length > 2 && !(buf[0] == STAR && buf[1] == DOT)
    ensures !IsWildcard(Str(buf[..]))
  {
  }

  /** The comparisons of `domain_matches` on its two lower-cased buffers. */
  method CompareLowered(queryLower: array<byte>, patternLower: array<byte>) returns (matches: bool)
    requires patternLower.Length > 2
    ensures matches <==> BytesMatch(Str(queryLower[..]), Str(patternLower[..]))
  {
    hide Str;
    var queryLen := |Str(queryLower[..])|;
    var patternLen := |Str(patternLower[..])|;
    // strcmp(query_lower, pattern_lower) == 0
    if Str(queryLower[..]) == Str(patternLower[..]) {
      return true;
    }
    if patternLower[0] == STAR && patternLower[1] == DOT {
      PrefixOfString(patternLower);
      var suffixLen := |Str(patternLower[2..])|;
      if queryLen >= suffixLen {
        TailOfString(queryLower, suffixLen);
        if Str(queryLower[queryLen - suffixLen..]) == Str(patternLower[2..]) {
          if queryLen == suffixLen || queryLower[queryLen - suffixLen - 1] == DOT {
            return true;
          }
        }
      }
    } else {
      NotWildcard(patternLower);
    }
    if queryLen > patternLen {
      TailOfString(queryLower, patternLen);
      if Str(queryLower[queryLen - patternLen..]) == Str(patternLower[..]) {
        if queryLower[queryLen - patternLen - 1] == DOT {
          return true;
        }
      }
    }
    return false;
  }

  method DomainMatches(query: cstring, pattern: cstring) returns (matches: bool)
    ensures matches <==> Matches(pattern, query)
  {
    var queryLower := LowerCopy(query);
    var patternLower := LowerCopy(pattern);
    matches := CompareLowered(queryLower, patternLower);
    CasesAreCover(Fold(Truncate(query)), Fold(Truncate(pattern)));
    CoversFolded(Truncate(pattern), Truncate(query));
  }

  lemma CoversBytes(pattern: seq<byte>, query: seq<byte>)
    ensures Covers(pattern, query) <==> BytesMatch(Fold(query), Fold(pattern))
  {
    CoversFolded(pattern, query);
    CasesAreCover(Fold(query), Fold(pattern));
  }

  /** "*.x" and "x" match the same names. */
  lemma WildcardIsRedundant(x: cstring, query: cstring)
    requires |x| <= 125 && !IsWildcard(x)
    ensures Matches([42, 46] + x, query) <==> Matches(x, query)
  {
  }

  /** Within the buffers, an entry matches a name exactly when its labels, less one leading "*", end those of the name. */
  lemma MatchesByLabels(pattern: cstring, labels: Name)
    requires labels != [] && Clean(labels) && 0 !in Dotted(labels)
    requires |pattern| <= 127 && |Dotted(labels)| <= 127
    ensures Matches(pattern, Dotted(labels)) <==> EndsIgnoringCase(Split(Strip(pattern)), labels)
  {
    SplitDotted(labels);
    FoldedSuffix(Split(Strip(pattern)), labels);
  }

  /** Entries and names that differ in case only are the same to the filter. */
  lemma MatchesIgnoresCase(pattern: cstring, pattern': cstring, query: cstring, query': cstring)
    requires SameIgnoringCase(pattern, pattern') && SameIgnoringCase(query, query')
    ensures Matches(pattern, query) <==> Matches(pattern', query')
  {
    var p, p', q, q' := Truncate(pattern), Truncate(pattern'), Truncate(query), Truncate(query');
    assert SameIgnoringCase(p, p') && SameIgnoringCase(q, q');
    hide SameIgnoringCase, Fold;
    FoldedAlike(p, p');
    FoldedAlike(q, q');
    CoversFolded(p, q);
    CoversFolded(p', q');
  }

  /** A blocked name blocks everything below it. */
  lemma SubdomainInherits(pattern: cstring, query: cstring, below: cstring)
    requires |below| + 1 + |query| <= 127
    requires Matches(pattern, query)
    ensures Matches(pattern, below + [46] + query)
  {
    var sub, p := below + [DOT] + query, Truncate(pattern);
    SuffixIsDottedEnd(Fold(query), Fold(sub));
    FoldConcat(below + [DOT], query);
    FoldConcat(below, [DOT]);
    CoversFolded(p, query);
    CoversFolded(p, sub);
    SuffixOfSuffix(Split(Strip(Fold(p))), Split(Fold(query)), Split(Fold(sub)));
  }

  ghost predicate FaithfulAt(n: nat) {
    forall p: cstring, q: cstring :: |p| < MAX_DOMAIN_LENGTH && |q| == n ==> (Matches(p, q) <==> Covers(p, q))
  }

  /** A name of `n` octets, in labels of at most two: "a.a.a.b", or "aa.a.a.b". */
  function LongName(n: nat): Name
    requires n >= 3
  {
    var a, b: byte := 97, 98;
    if n == 3 then [[a], [b]] else if n == 4 then [[a, a], [b]] else [[a]] + LongName(n - 2)
  }

  lemma {:induction false} LongNameIs(n: nat)
    requires n >= 3
    ensures var q := Dotted(LongName(n));
            |q| == n && EndsWithDotted(q, [98]) && forall k :: 0 <= k < n - 1 ==> q[k] == 97 || q[k] == DOT
    ensures Clean(LongName(n)) && forall l :: l in LongName(n) ==> 0 < |l| <= 2
  {
    if n > 4 {
      LongNameIs(n - 2);
      assert LongName(n)[1..] == LongName(n - 2);
    } else {
      assert LongName(n)[1..] == [[98]];
    }
  }

  /** An entry for the last label, of one letter, does not match what the buffer holds of a name that is too long. */
  lemma LastLabelMissed(q: cstring, b: byte)
    requires |q| >= MAX_DOMAIN_LENGTH && EndsWithDotted(q, [b]) && 97 <= b <= 122
    requires forall k :: 0 <= k < |q| - 1 ==> q[k] != b && !(65 <= q[k] <= 90)
    ensures Covers([b], q) && !Matches([b], q)
  {
    var p: cstring, t := [b], q[..MAX_DOMAIN_LENGTH - 1];
    assert Fold(p) == p && Fold(q) == q && Fold(t) == t by {
      assert q[|q| - 1..] == [b] && q[|q| - 1] == b;
    }
    assert t[126] != b && !BytesMatch(t, p);
    assert BytesMatch(q, p);
    hide Covers, Fold, BytesMatch;
    CoversBytes(p, q);
    CoversBytes(p, t);
  }

  /** A name that is too long for the buffer, and an entry for its last label that does not match what is left of it. */
  lemma LongNameMissed(n: nat)
    requires n >= MAX_DOMAIN_LENGTH
    ensures var q := Dotted(LongName(n)); 0 !in q && Covers([98], q) && !Matches([98], q)
  {
    LongNameIs(n);
    hide LongName, Dotted;
    LastLabelMissed(Dotted(LongName(n)), 98);
  }

  /** Label matching is what the code decides for every entry and name of a length exactly up to 127 octets:
      a longer name is judged by its first 127 octets only. */
  lemma FaithfulExactlyWithinBuffer(n: nat)
    ensures FaithfulAt(n) <==> n <= 127
  {
    if n >= MAX_DOMAIN_LENGTH {
      hide Covers, Matches;
      LongNameMissed(n);
      LongNameIs(n);
      var p: cstring, q: cstring := [98], Dotted(LongName(n));
      assert !(Matches(p, q) <==> Covers(p, q));
    }
  }
}
