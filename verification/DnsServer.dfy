/** What the DNS server does with one received packet, sockets aside. */
module DnsServer {
  import opened Bytes
  import opened Labels
  import opened DnsName
  import opened DomainMatcher
  import opened DomainTable
  import opened DnsMessage
  import DomainFilter

  const DNS_MAX_PACKET_SIZE := 512
  const DOMAIN_BUFFER_SIZE := 256

  datatype Action = Ignore | Forward | Answer(len: nat)

  /** A complete header, of a query, announcing a question. */
  predicate IsQuery(mem: Memory, len: nat) {
    len >= HEADER_SIZE && mem(2) as int * 0x100 + mem(3) < 0x8000 && mem(4) as int * 0x100 + mem(5) > 0
  }

  /** The packet asks for this name, as the parser sees it. */
  ghost predicate AsksFor(mem: Memory, len: nat, labels: Name) {
    IsQuery(mem, len) && HasName(mem, HEADER_SIZE, labels) && Fits(labels, DOMAIN_BUFFER_SIZE)
  }

  ghost predicate IsBlockedQuery(table: Table, mem: Memory, len: nat)
    requires WellShaped(table)
  {
    exists labels :: AsksFor(mem, len, labels) && Blocks(table.entries, table.count, Str(Dotted(labels)))
  }

  ghost predicate IsForwardedQuery(table: Table, mem: Memory, len: nat)
    requires WellShaped(table)
  {
    exists labels :: AsksFor(mem, len, labels) && Str(Dotted(labels)) != []
                     && !Blocks(table.entries, table.count, Str(Dotted(labels)))
  }

  /** Parsing into a local buffer, and the string it holds then. */
  method QueriedName(rx: array<byte>, behind: Memory) returns (newOffset: int, name: cstring)
    requires Terminates(Over(rx[..], behind), HEADER_SIZE, DOMAIN_BUFFER_SIZE)
    ensures newOffset > 0 <==> exists labels :: HasName(Over(rx[..], behind), HEADER_SIZE, labels) && Fits(labels, DOMAIN_BUFFER_SIZE)
    ensures newOffset > 0 ==> forall labels :: HasName(Over(rx[..], behind), HEADER_SIZE, labels) ==> name == Str(Dotted(labels))
  {
    ghost var mem := Over(rx[..], behind);
    var domain := new byte[DOMAIN_BUFFER_SIZE];
    newOffset := ParseDomainName(rx, behind, HEADER_SIZE, domain, DOMAIN_BUFFER_SIZE);
    name := Str(domain[..]);
    if newOffset >= 0 {
      ghost var labels :| HasName(mem, HEADER_SIZE, labels) && Fits(labels, DOMAIN_BUFFER_SIZE);
      ghost var octets :| Holds(mem, octets) && NameAt(octets, HEADER_SIZE, labels);
      EndInPlaceGrows(octets, HEADER_SIZE);
      StrOfOutput(domain[..], Dotted(labels));
      forall l | HasName(mem, HEADER_SIZE, l)
        ensures l == labels
      {
        HasNameUnique(mem, HEADER_SIZE, l, labels);
      }
    }
  }

  /** One turn of the loop of `dns_server_task`, on a packet of `len` octets at the front of the receive buffer.
      The parser sees the whole buffer, where earlier packets left their octets, and the memory behind it. */
  method HandlePacket(filter: DomainFilter.DomainFilter, rx: array<byte>, behind: Memory, len: nat, tx: array<byte>)
    returns (action: Action)
    requires filter.Valid()
    requires rx.Length == tx.Length == DNS_MAX_PACKET_SIZE && rx != tx && len <= rx.Length
    requires IsQuery(Over(rx[..], behind), len) ==> Terminates(Over(rx[..], behind), HEADER_SIZE, DOMAIN_BUFFER_SIZE)
    requires IsBlockedQuery(filter.State(), Over(rx[..], behind), len) ==> len + ANSWER_SIZE <= DNS_MAX_PACKET_SIZE
    modifies tx
    ensures action.Answer? <==> IsBlockedQuery(filter.State(), Over(rx[..], behind), len)
    ensures action.Forward? <==> IsForwardedQuery(filter.State(), Over(rx[..], behind), len)
    ensures action.Answer? ==>
              action.len == len + ANSWER_SIZE && tx[..action.len] == BlockedResponse(rx[..len])
    ensures action.Ignore? ==> tx[..] == old(tx[..])
  {
    ghost var mem, table := Over(rx[..], behind), filter.State();
    if len < HEADER_SIZE {
      return Ignore;
    }
    if rx[2] as int * 0x100 + rx[3] < 0x8000 && rx[4] as int * 0x100 + rx[5] > 0 {
      var newOffset, name := QueriedName(rx, behind);
      if newOffset > 0 {
        ghost var labels :| HasName(mem, HEADER_SIZE, labels) && Fits(labels, DOMAIN_BUFFER_SIZE);
        assert AsksFor(mem, len, labels);
        hide HasName, Fits, Dotted, Blocks;
        if |name| > 0 {
          var blocked := filter.IsDomainBlocked(Some(name));
          if blocked {
            var responseLen := CreateBlockedResponse(rx, len, tx);
            return Answer(responseLen);
          }
          return Forward;
        }
      }
    }
    return Ignore;
  }

  lemma OnlyName(mem: Memory, len: nat, labels: Name)
    requires AsksFor(mem, len, labels)
    ensures forall l :: AsksFor(mem, len, l) ==> l == labels
  {
    forall l | AsksFor(mem, len, l)
      ensures l == labels
    {
      HasNameUnique(mem, HEADER_SIZE, l, labels);
    }
  }

  /** The C string in the parser's output buffer is the C string in the dotted name. */
  lemma StrOfOutput(out: seq<byte>, text: seq<byte>)
    requires |text| < |out| && out[..|text|] == text && out[|text|] == 0
    ensures Str(out) == Str(text)
  {
  }

  /** Some active entry's labels, less one leading "*", end these labels, ignoring case. */
  ghost predicate IsBelowActiveEntry(table: Table, labels: Name)
    requires WellShaped(table)
  {
    exists i :: 0 <= i < table.count && table.entries[i].active
                && EndsIgnoringCase(Split(Strip(table.entries[i].domain)), labels)
  }

  /** What the server decides, for any query with a name that fits and that has no dot or NUL inside a label. */
  lemma BlockedIsMatched(table: Table, mem: Memory, len: nat, labels: Name)
    requires WellShaped(table)
    requires AsksFor(mem, len, labels) && Clean(labels)
    ensures 0 !in Dotted(labels)
    ensures IsBlockedQuery(table, mem, len) <==> Blocks(table.entries, table.count, Dotted(labels))
    ensures IsForwardedQuery(table, mem, len) <==> labels != [] && !Blocks(table.entries, table.count, Dotted(labels))
  {
    OnlyName(mem, len, labels);
    DottedNulFree(labels);
    StrIs(Dotted(labels), Dotted(labels));
    if labels != [] {
      FirstLabelNonempty(mem, labels);
    }
  }

  /** With room for the whole name and its labels in the buffer, matching is by labels. */
  lemma BlocksIsBelow(table: Table, labels: Name)
    requires Sound(table) && labels != [] && Clean(labels)
    requires |Dotted(labels)| < MAX_DOMAIN_LENGTH && 0 !in Dotted(labels) && Dotted(labels) != []
    ensures Blocks(table.entries, table.count, Dotted(labels)) <==> IsBelowActiveEntry(table, labels)
  {
    hide Dotted, Matches, EndsIgnoringCase, Split, Strip;
    forall i | 0 <= i < table.count
      ensures Matches(table.entries[i].domain, Dotted(labels))
         <==> EndsIgnoringCase(Split(Strip(table.entries[i].domain)), labels)
    {
      MatchesByLabels(table.entries[i].domain, labels);
    }
  }

  /** End to end: a query for a name of at most 127 octets, with no dot or NUL inside a label, is answered as blocked
      exactly when the labels of some active entry, less one leading "*", end the labels asked for, ignoring case,
      and forwarded exactly otherwise. The root name is neither. */
  lemma BlockedExactlyBelowActiveEntry(table: Table, mem: Memory, len: nat, labels: Name)
    requires Sound(table)
    requires len >= 12 && mem(2) < 0x80 && (mem(4) != 0 || mem(5) != 0)
    requires HasName(mem, 12, labels) && Clean(labels) && |Dotted(labels)| <= 127
    ensures IsBlockedQuery(table, mem, len) <==> IsBelowActiveEntry(table, labels)
    ensures IsForwardedQuery(table, mem, len) <==> labels != [] && !IsBelowActiveEntry(table, labels)
  {
    FitsServerBuffer(mem, HEADER_SIZE, labels);
    assert AsksFor(mem, len, labels);
    hide Fits;
    BlockedIsMatched(table, mem, len, labels);
    if labels != [] {
      FirstLabelNonempty(mem, labels);
      BlocksIsBelow(table, labels);
    }
  }

  /** Everything else is ignored: packets that are no query with a question, or that ask for no name, a name
      of more than 255 octets, or one that is empty as a string. */
  lemma IgnoredExactly(table: Table, mem: Memory, len: nat)
    requires WellShaped(table)
    ensures IsBlockedQuery(table, mem, len) || IsForwardedQuery(table, mem, len)
       <==> && len >= 12 && mem(2) < 0x80 && (mem(4) != 0 || mem(5) != 0)
            && exists labels :: HasName(mem, 12, labels) && |Dotted(labels)| <= 255 && Str(Dotted(labels)) != []
    ensures !(IsBlockedQuery(table, mem, len) && IsForwardedQuery(table, mem, len))
  {
    forall labels | HasName(mem, 12, labels)
      ensures Fits(labels, DOMAIN_BUFFER_SIZE) <==> |Dotted(labels)| <= 255
      ensures forall l :: AsksFor(mem, len, l) ==> l == labels
    {
      FitsServerBuffer(mem, HEADER_SIZE, labels);
      forall l | AsksFor(mem, len, l)
        ensures l == labels
      {
        HasNameUnique(mem, HEADER_SIZE, l, labels);
      }
    }
    assert IsQuery(mem, len) <==> len >= 12 && mem(2) < 0x80 && (mem(4) != 0 || mem(5) != 0);
    hide IsQuery, HasName, Fits, Dotted, Blocks;
  }

  lemma FirstLabelNonempty(mem: Memory, labels: Name)
    requires HasName(mem, HEADER_SIZE, labels) && labels != []
    ensures Dotted(labels) != []
  {
    var buf :| Holds(mem, buf) && NameAt(buf, HEADER_SIZE, labels);
    var steps: nat :| NameWithin(buf, 0, HEADER_SIZE, labels, steps);
    WithinNonempty(buf, 0, HEADER_SIZE, labels, steps);
    assert labels[0] in labels;
  }

  const MAX_LABEL := 63
  const MAX_NAME := 255

  /** A packet in the receive buffer with a query for a name within the limits of section 2.3.4 of RFC 1035,
      and without dots or NULs inside labels. */
  ghost predicate IsLegalQuery(packet: seq<byte>, labels: Name) {
    && HEADER_SIZE <= |packet| <= DNS_MAX_PACKET_SIZE
    && U16(packet, 2) < 0x8000 && U16(packet, 4) > 0
    && NameAt(packet, HEADER_SIZE, labels)
    && WireLength(labels) <= MAX_NAME && (forall l :: l in labels ==> |l| <= MAX_LABEL)
    && Clean(labels)
  }

  /** All such queries for names of `n` octets are decided by their labels, with every table that can arise. */
  ghost predicate DecidedByLabels(n: nat) {
    forall table, packet, mem, labels ::
      Sound(table) && IsLegalQuery(packet, labels) && Holds(mem, packet) && |Dotted(labels)| == n ==>
        (IsBlockedQuery(table, mem, |packet|) <==> IsBelowActiveEntry(table, labels))
  }

  /** An address query for an uncompressed name. */
  function QueryFor(labels: Name): seq<byte>
    requires forall l :: l in labels ==> |l| < 0xC0
  {
    QueryOctets([0, 0], [1, 0], labels, [0, 1, 0, 1])
  }

  lemma QueryForIsLegal(labels: Name)
    requires Clean(labels) && WireLength(labels) <= MAX_NAME && forall l :: l in labels ==> 0 < |l| <= MAX_LABEL
    ensures IsLegalQuery(QueryFor(labels), labels)
  {
    var packet := QueryFor(labels);
    EncodeLength(labels);
    assert |packet| == 16 + |Encode(labels)|;
    assert packet[2] == 1 && packet[5] == 1;
    QueryQuestion([0, 0], [1, 0], labels, [0, 1, 0, 1]);
    hide QueryFor, QueryOctets, NameWithin, Encode;
    var steps: nat :| NameWithin(packet, HEADER_SIZE, HEADER_SIZE, labels, steps);
    LowerBound(packet, HEADER_SIZE, 0, HEADER_SIZE, labels, steps);
  }

  /** The table after adding one name at the factory. */
  lemma OneEntry(entry: cstring) returns (table: Table)
    requires 0 < |entry| < MAX_DOMAIN_LENGTH
    ensures Sound(table) && table.count == 1 && table.entries[0] == BlockedDomain(entry, true)
  {
    table := Step(FACTORY, Add(Some(entry))).0;
    FactoryIsSound();
    StepRefines(FACTORY, Add(Some(entry)));
  }

  /** With one entry in the table, it decides. */
  lemma OneEntryDecides(table: Table, labels: Name, query: cstring)
    requires WellShaped(table) && table.count == 1 && table.entries[0].active
    requires |table.entries[0].domain| < MAX_DOMAIN_LENGTH && query != [] && Split(query) == labels
    ensures Covers(table.entries[0].domain, query) <==> IsBelowActiveEntry(table, labels)
    ensures Matches(table.entries[0].domain, query) <==> Blocks(table.entries, 1, query)
  {
    hide Split, Strip, FoldAll, Matches, EndsIgnoringCase;
    FoldedSuffix(Split(Strip(table.entries[0].domain)), labels);
  }

  /** A query and a table: the entry covers the name and the query is not blocked. */
  lemma LongQueryMissed(n: nat) returns (table: Table, packet: seq<byte>, mem: Memory)
    requires MAX_DOMAIN_LENGTH <= n <= MAX_NAME - 2
    ensures Sound(table) && IsLegalQuery(packet, LongName(n)) && Holds(mem, packet) && |Dotted(LongName(n))| == n
    ensures IsBelowActiveEntry(table, LongName(n)) && !IsBlockedQuery(table, mem, |packet|)
  {
    var labels, entry: cstring := LongName(n), [98];
    LongNameIs(n);
    LongNameMissed(n);
    table := OneEntry(entry);
    assert WellShaped(table);
    packet, mem := LongQuery(n);
    hide *;
    SplitDotted(labels);
    OneEntryDecides(table, labels, Dotted(labels));
    BlockedIsMatched(table, mem, |packet|, labels);
  }

  lemma LongQuery(n: nat) returns (packet: seq<byte>, mem: Memory)
    requires 3 <= n <= MAX_NAME - 2
    ensures IsLegalQuery(packet, LongName(n)) && Holds(mem, packet) && AsksFor(mem, |packet|, LongName(n))
  {
    var labels := LongName(n);
    LongNameIs(n);
    assert labels != [];
    packet := QueryFor(labels);
    mem := Over(packet, _ => 0);
    hide LongName, IsLegalQuery, Clean, Dotted, WireLength, QueryFor;
    WireLengthOfDotted(labels);
    QueryForIsLegal(labels);
    QueryIsRead(packet, mem, labels);
  }

  lemma QueryIsRead(packet: seq<byte>, mem: Memory, labels: Name)
    requires IsLegalQuery(packet, labels) && Holds(mem, packet)
    ensures AsksFor(mem, |packet|, labels)
  {
    LegalNamesFit(labels);
  }

  /** Over all legal queries, 127 octets is exactly how far the labels decide. */
  lemma DecidedByLabelsExactly(n: nat)
    ensures DecidedByLabels(n) <==> n <= 127 || n > 253
  {
    if MAX_DOMAIN_LENGTH <= n <= MAX_NAME - 2 {
      var table, packet, mem := LongQueryMissed(n);
    } else {
      forall table, packet, mem, labels
        | Sound(table) && IsLegalQuery(packet, labels) && Holds(mem, packet) && |Dotted(labels)| == n
        ensures IsBlockedQuery(table, mem, |packet|) <==> IsBelowActiveEntry(table, labels)
      {
        if labels != [] {
          WireLengthOfDotted(labels);
        }
        BlockedExactlyBelowActiveEntry(table, mem, |packet|, labels);
      }
    }
  }
}
