# Firewall decisions of the ESP32 NAT router

This project models, in Dafny, how the firmware of the ESP32 NAT router with firewall decides what passes: from the octets of
a DNS query to "blocked" or "forward", from the custom and built-in port rules and the device list to a verdict on a packet,
together with the flash images of its tables, its unused per-address request limiter, and three text codecs. It proves that
these decisions mean what the firmware is for, over all inputs and over whole runs.

`dafny verify dfyconfig.toml` checks everything.

## How it is laid out

| file | part of the firmware |
|---|---|
| `Bytes.dfy`, `Labels.dfy` | octets, C strings in buffers, ASCII case folding; label lists and dotted names |
| `DnsName.dfy`, `DnsMessage.dfy`, `DnsServer.dfy` | name parser, blocked answer and packet handling of main/dns_server.c |
| `DomainMatcher.dfy`, `DomainTable.dfy`, `DomainFilter.dfy` | matching, the table as a value, and the table in place, of main/domain_filter.c |
| `ServiceRules.dfy`, `ServiceTable.dfy`, `ServiceFilter.dfy` | rule lookup, the state with its flash keys, and the tables in place, of main/service_filter.c |
| `DeviceTable.dfy`, `PacketFilter.dfy` | device list, station events, status updates and packet verdict |
| `RateLimiter.dfy` | the request limiter of main/dns_server.c |
| `PercentCodec.dfy`, `HtmlEscape.dfy`, `HexBlob.dfy` | form decoding, HTML escaping, hexadecimal blobs |

Tables that the firmware updates in place are classes over arrays. Each of their methods ties the new contents to a step
function on values (`DomainTable.Step`, `ServiceTable.Step`, `DeviceTable.Step`, `RateLimiter.Check`), and the lemmas are about
those functions and about runs of them.

Conventions: an octet is an integer below 256, and plain `char` is unsigned, as on the firmware's targets. A C string is a
sequence of octets without NUL; `None` stands for a null pointer. Flash operations succeed, an absent key is `None`, and a
restart clears RAM and reads flash. The clock is a parameter. As in the code, a length octet of a name may be anything below
0xC0, so the reserved label types of section 4.1.4 of RFC 1035 are read as lengths. Unsigned 8-, 16- and 32-bit arithmetic wraps where the code's does.

## Main results

- A query for a name of at most 127 octets is answered as blocked exactly when the labels of an active entry, less one leading
  `*`, end the labels asked for, ignoring case, and forwarded exactly when not (`DnsServer.BlockedExactlyBelowActiveEntry`);
  all other packets are ignored (`DnsServer.IgnoredExactly`). The parser side holds against an inductive reading of compressed
  names, and every encoding with labels and pointers is read (`DnsName.CompressedNameIsRead`). Among legal names, 127 octets is exactly how far this goes: for every longer length
  there is a query for a covered name that is not blocked (`DnsServer.DecidedByLabelsExactly`).
- The parser gets no length, so it is modelled over a whole memory that starts with the buffer. It returns exactly when the
  pointers it follows never come back to one of them (`DnsName.TerminatesExactlyWithoutCycle`); and whatever the memory holds,
  after any number of iterations, of a loop that ends or not, all that is written lies within the output (`DnsName.OutputBound`).
- The blocked answer to a query with one question, whose name is read from the body and not through the header, is a
  well-formed message with the same id and question and one address record 0.0.0.0 exactly when nothing follows the question
  (`DnsMessage.BlockedResponseIsMessageExactly`), and the parser reads the same name at the answer as at the question.
- The domain table is a set with a saved copy, in every run of adds, removes and restarts, with every outcome determined by the
  names alone (`DomainTable.RunRefines`). A restart loses an add exactly when the table knew the name and flash did not have it
  active: the branch that switches a known entry on does not write flash, neither at the first such add nor at those that repeat
  it (`DomainTable.AddSurvivesRestart`).
- The custom rules are a map while only TCP and UDP are used, and the whole filter is then a map and a set of services that
  every operation, its boolean and every decision can be read from (`ServiceTable.RunRefinesPolicy`). With BOTH the last write
  still decides, draining a port works, and competing rules appear exactly when an add hits two rules at once
  (`ServiceRules.AddKeepsDisjointExactly`). A restart changes nothing, at any point of any run.
- A blocked device other than the administrator's is dropped throughout a run exactly when the run neither allows it nor cuts
  the power. Other devices are subject to the rules for the destination port with TCP and UDP, and to none otherwise
  (`DeviceTable.PacketVerdict`).
- Per address and second the limiter accepts the first five requests of the first 20 addresses and nothing else, exactly up to
  an uptime of 2^32 seconds (`RateLimiter.ExactWithinUptime`); the bound of five holds for ever.

Where code and documentation differ, the code is followed. The repository's README.md (line 7) lists
wildcard patterns `*.name` as supported; in the code a plain `name` blocks the same names. The comment at
main/service_filter.h:83 says an add fails if the table is full; it also fails for port 0 and for a null name.

## Model

| member | source | states |
|---|---|---|
| Labels.SplitDotted | main/dns_server.c:96-101 | splitting the dotted form the parser writes gives back the labels |
| Labels.SuffixIsDottedEnd | main/domain_filter.c:46-53 | a label list is a suffix of another exactly when the bytes are equal or end in a dot and the string |
| Labels.SplitFold | main/domain_filter.c:33-34 | lower-casing a name lower-cases its labels and moves no dot |
| Bytes.FoldedAlike | main/domain_filter.c:16-20 | two strings fold alike exactly when they agree octet by octet, up to the 26 letters of ASCII |
| Labels.DottedSnoc | main/dns_server.c:96-101 | one more label puts octet 46 and the label behind the dotted form |
| Labels.FoldedSuffix | main/domain_filter.c:33-67 | the folded labels of one name end those of another exactly when the last labels differ in case only |
| DnsName.ParseDomainName | main/dns_server.c:73-112 | wherever it returns: fails exactly when no name that fits is there; else writes exactly its dotted labels and a NUL, returns the in-place end, and touches nothing from max_len on |
| DnsName.ParseReadsName | main/dns_server.c:79-103 | a loop that ends has read a list of labels exactly when they are the possibly compressed name at the offset and fit |
| DnsName.OutputBound | main/dns_server.c:79-105 | for any memory and any number of iterations, whether or not the loop ends, the labels written and a NUL behind them lie within max_len octets |
| DnsName.CopyLabel | main/dns_server.c:90-102 | one label is appended, after a dot unless it is the first, and ends before max_len |
| DnsName.HasNameUnique | main/dns_server.c:79-103 | there is at most one name at an offset of the memory |
| DnsName.NameTerminates | main/dns_server.c:79-103 | the parser returns wherever there is a name |
| DnsName.EncodedNameIsRead | main/dns_server.c:79-103 | every uncompressed wire encoding of a label list is such a name, wherever it stands, and ends in place behind its zero octet |
| DnsName.CompressedNameIsRead | main/dns_server.c:81-88 | labels followed by the two octets of a pointer to an offset are those labels and whatever name is at that offset, and end in place behind the pointer |
| DnsName.FitsIsFitsFrom | main/dns_server.c:92-94 | the running length checks amount to one bound on the dotted form |
| DnsName.FitsServerBuffer | main/dns_server.c:284-288 | with the 256-octet buffer a name is accepted exactly up to 255 dotted octets |
| DnsName.LegalNamesFit | main/dns_server.c:92-94 | every name within the 255-octet limit of section 2.3.4 of RFC 1035 is accepted |
| DnsName.TerminatesExactlyWithoutCycle | main/dns_server.c:79-88 | over all of memory, the parse loop ends exactly when it meets no pointer that leads back to itself |
| DnsName.BackwardPointersTerminate | main/dns_server.c:79-103 | with pointers that point strictly before themselves the loop ends, whatever the memory holds |
| DnsMessage.CreateBlockedResponse | main/dns_server.c:115-158 | the response is the query with its header patched and the fixed answer appended; the rest of the buffer is unchanged |
| DnsMessage.BlockedResponseIsMessageExactly | main/dns_server.c:115-158 | for a query with one question read from the body, the response is a well-formed message with the same id and question and one A/IN record, TTL 60, 0.0.0.0, exactly when nothing follows the question |
| DnsMessage.AnswerParsesLikeQuestion | main/dns_server.c:129-131 | the parser reads the same name at the answer as at the question, for every output size, and ends after the pointer |
| DnsMessage.QueryQuestion | main/dns_server.c:283-288 | which octets make a query for one name, type and class |
| DnsMessage.ResponseOctets | main/dns_server.c:115-158 | the response to such a query, octet by octet |
| DnsServer.HandlePacket | main/dns_server.c:274-336 | a packet is answered as blocked, forwarded or ignored exactly by its header, the name it asks for and the table; the answer sent is the blocked response |
| DnsServer.BlockedExactlyBelowActiveEntry | main/dns_server.c:283-297 | end to end, for a header given by its octets: blocked exactly when an active entry's labels, less one leading `*`, end the labels asked for up to the case of letters, and forwarded exactly when not, except for the root name |
| DnsServer.IgnoredExactly | main/dns_server.c:275-336 | a packet is blocked or forwarded exactly when it is a query with a question and asks for a name of at most 255 octets that is not empty as a string, and never both |
| DnsServer.BlockedIsMatched | main/dns_server.c:288-320 | for every name that fits, also beyond 127 octets: blocked exactly when the table matches it, forwarded exactly when it does not and is not the root |
| DnsServer.DecidedByLabelsExactly | main/domain_filter.c:25-31 | among legal queries for names of a given length all are decided by their labels exactly when that length is below 128, or beyond what is legal |
| DnsServer.LongQueryMissed | main/domain_filter.c:28-31 | for each longer legal length, a table that can arise and a packet whose name it covers and which is not blocked |
| DomainMatcher.ToLowercase | main/domain_filter.c:16-20 | the string in the buffer is folded in place and nothing behind it changes |
| DomainMatcher.DomainMatches | main/domain_filter.c:23-70 | true exactly when the stripped pattern's labels end the labels of the name, both cut to 127 octets and folded |
| DomainMatcher.CasesAreCover | main/domain_filter.c:37-67 | the three byte-level cases together are one label-suffix test |
| DomainMatcher.MatchesByLabels | main/domain_filter.c:23-70 | up to 127 octets, a match is that the labels of the entry, less one leading `*`, end those of the name, up to case |
| DomainMatcher.MatchesIgnoresCase | main/domain_filter.c:33-34 | entries and names that differ in case only are judged alike |
| DomainMatcher.WildcardIsRedundant | main/domain_filter.c:41-67 | `*.x` and `x` match the same names |
| DomainMatcher.SubdomainInherits | main/domain_filter.c:61-67 | a match is inherited by every name below, within the buffer |
| DomainMatcher.FaithfulExactlyWithinBuffer | main/domain_filter.c:25-31 | names of a given length are all judged by their labels exactly when that length is below 128 |
| DomainMatcher.LongNameMissed | main/domain_filter.c:28-31 | for each longer length, a name in labels of at most two octets, and an entry that covers it and is not matched |
| DomainTable.RunRefines | main/domain_filter.c:87-184 | every run of adds, removes and restarts keeps entries distinct and inactive beyond the count, takes the abstract blocklist through the same states with the same outcomes, and leaves flash a subset of RAM |
| DomainTable.RunDecides | main/domain_filter.c:72-184 | after any run a name is blocked exactly when the blocklist that the operations alone give holds a name that covers it |
| DomainTable.StepRefines | main/domain_filter.c:87-184 | one operation inserts or deletes in the active set, makes the saved set equal to it except when a known name is switched on, and succeeds or not as the names alone tell |
| DomainTable.WhenRefused | main/domain_filter.c:88-127 | an add fails exactly for a bad name or a new name with 50 names counted; it reactivates exactly for a known name; a remove fails exactly for an unknown name; whatever fails changes nothing |
| DomainTable.KnownIgnoringCase | main/domain_filter.c:93-96 | a name is known exactly when a counted entry differs from it in case at most |
| DomainTable.CountedNames | main/domain_filter.c:93-105 | the count is the number of distinct names in the table |
| DomainTable.RebootRefines | main/domain_filter.c:162-184 | a restart gives the saved set, and counts the names up to the last saved one |
| DomainTable.ReloadKeepsVerdicts | main/domain_filter.c:171-179 | after a restart every query is decided as by the flash image, however far the count shrinks |
| DomainTable.AddSurvivesRestart | main/domain_filter.c:93-121 | in every sound state, a name added survives a restart exactly when flash had it or the table did not know it |
| DomainTable.ReactivationIsLost | main/domain_filter.c:93-98 | such a run exists for every name: add, remove, add, and flash does not have it |
| DomainTable.BlocksIsActiveNameCovers | main/domain_filter.c:72-85 | the verdict depends on the set of active names alone |
| DomainFilter.DomainFilter.IsDomainBlocked | main/domain_filter.c:72-85 | true exactly for a non-empty name that some active counted entry matches |
| DomainFilter.DomainFilter.AddBlockedDomain | main/domain_filter.c:87-128 | array, count and flash become those of the add step; false exactly when refused |
| DomainFilter.DomainFilter.RemoveBlockedDomain | main/domain_filter.c:130-160 | array, count and flash become those of the remove step; false exactly when refused |
| DomainFilter.DomainFilter.InitDomainFilter | main/domain_filter.c:162-184 | array and count become those of a restart |
| DomainFilter.DomainFilter.GetBlockedDomainsCount | main/domain_filter.c:186-194 | the cardinality of the active set |
| ServiceRules.LastWriteWins | main/service_filter.c:164-202 | after a successful add every packet it covers is decided as asked, from any table |
| ServiceRules.AddStores | main/service_filter.c:167-198 | the slot an add takes, what it holds then (the first 23 characters of the name, port, protocol, blocked), and no other slot changes |
| ServiceRules.OthersUnchanged | main/service_filter.c:167-198 | every other packet is decided as before, or, if a BOTH rule was rewritten, as if that rule had been removed |
| ServiceRules.RemoveTakesDecidingRule | main/service_filter.c:204-225 | for TCP or UDP, remove takes away the rule that decides those packets, and fails exactly where no custom rule does |
| ServiceRules.DrainRestoresBuiltins | main/service_filter.c:204-225 | removing until it fails takes one call per overlapping rule, clears exactly those, and leaves covered packets to the built-ins and the default |
| ServiceRules.BoundedScanAgrees | main/service_filter.c:227-238 | scanning up to the high-water mark decides like scanning all slots |
| ServiceRules.BuiltinsAre | main/service_filter.c:16-33 | the protocol number and port of each of the 16 services |
| ServiceRules.AddKeepsDisjointExactly | main/service_filter.c:168-182 | rules that compete for a packet appear exactly when an add overlaps two rules at once |
| ServiceRules.BothLeavesDuplicates | main/service_filter.c:168-198 | add TCP, UDP, BOTH, UDP on one port leaves two UDP rules |
| ServiceRules.AddIsMapUpdate | main/service_filter.c:164-202 | with TCP and UDP only, add is map update; it fails exactly for a new key when the map has as many keys as there are slots |
| ServiceRules.MapSize | main/service_filter.c:185-186 | the map is as large as the table exactly when every slot is active |
| ServiceRules.RemoveIsMapDelete | main/service_filter.c:204-225 | with TCP and UDP only, remove is map delete; it fails exactly for an absent key |
| ServiceRules.AllowedIsMapLookup | main/service_filter.c:227-254 | with TCP and UDP only, the decision is map lookup, then the built-ins, then allow |
| ServiceTable.PackedBit | main/service_filter.c:75-78 | bit i of the saved mask is the flag of service i |
| ServiceTable.RestartIsIdentity | main/service_filter.c:90-127 | a restart brings back services, rules and count exactly |
| ServiceTable.StepKeepsSound | main/service_filter.c:66-225 | every operation keeps the count at the high-water mark and flash an image of RAM |
| ServiceTable.RunKeepsSound | main/service_filter.c:66-254 | so does every run; after it a restart changes nothing, and the bounded scan decides like a full one |
| ServiceTable.StepIsPolicyStep | main/service_filter.c:141-225 | with TCP and UDP only, each operation and its boolean are those of a map from port and protocol and a set of blocked services |
| ServiceTable.RunRefinesPolicy | main/service_filter.c:124-254 | every run with TCP and UDP only, restarts included, is a run of that map and set, driven by the operations alone, and packets are decided by it |
| ServiceTable.PolicyDecides | main/service_filter.c:227-254 | a packet is decided by map lookup, then by whether a blocked service has its port and protocol number |
| ServiceTable.SwitchDecides | main/service_filter.c:141-150 | switching one of the 16 services decides exactly the packets of its protocol number and port, where no custom rule does |
| ServiceTable.BuiltinsDecide | main/service_filter.c:239-253 | where no custom rule decides, exactly the packets of blocked services are refused |
| ServiceTable.WhenRefused | main/service_filter.c:164-225 | add and remove return false exactly for a null name or port 0, for no overlapping and no empty slot, and for no overlapping rule; a switch does nothing exactly for an id of 16 or more; whatever fails changes nothing |
| ServiceFilter.ServiceFilter.SaveServiceRules | main/service_filter.c:66-88 | flash gets the mask of the flags and a copy of the rules |
| ServiceFilter.ServiceFilter.LoadServiceRules | main/service_filter.c:90-119 | flags and rules come from flash where a key is present, and the count is the high-water mark |
| ServiceFilter.ServiceFilter.Restart | main/service_filter.c:124-127 | power-up followed by start-up leaves the state as it was |
| ServiceFilter.ServiceFilter.ServiceSetBlocked | main/service_filter.c:141-150 | tables and flash become those of the step; an unknown id changes nothing |
| ServiceFilter.ServiceFilter.ServiceAddCustom | main/service_filter.c:164-202 | tables, count, flash and result are those of the add step |
| ServiceFilter.ServiceFilter.ServiceRemoveCustom | main/service_filter.c:204-225 | tables, count, flash and result are those of the remove step |
| ServiceFilter.ServiceFilter.ServiceIsPortAllowed | main/service_filter.c:227-254 | the result is the decision on the state: custom rules, built-ins, then allow |
| DeviceTable.StaysBlockedExactly | main/packet_filter.c:15-59 | a blocked address that is not the administrator's is dropped at every point of a run exactly when the run neither allows it nor cuts the power |
| DeviceTable.PacketVerdict | main/packet_filter.c:20-58 | the administrator's packets pass, those of blocked devices do not, and of the others all pass that are neither TCP nor UDP, and the rest as their destination port is decided |
| DeviceTable.BuiltinsDecidePackets | main/packet_filter.c:47-58 | without a custom rule, a TCP or UDP packet of a device that is not blocked passes exactly when no blocked service has its protocol number and destination port |
| DeviceTable.DroppedExactlyWhenBlocked | main/packet_filter.c:20-58 | no packet of an address passes, for any protocol, ports and rules, exactly when it is blocked and not the administrator's |
| DeviceTable.BlockTakesEffect | main/http_server.c:475-511 | an update to BLOCKED blocks exactly the addresses that are listed |
| DeviceTable.StatusStep | main/esp32_nat_router.c:421-493 | what each event does to the entry of every address: only the words ALLOWED and BLOCKED and power cuts change a status, only joining adds an entry, while there are fewer than 20 |
| DeviceTable.StationsStep | main/esp32_nat_router.c:457-493 | joining adds the station once while there is room and it is not blocked; leaving takes out one occurrence |
| DeviceTable.CounterIsBalance | main/esp32_nat_router.c:463-492 | between power cuts the 16-bit station counter is what joined and was not turned away, less what left |
| DeviceTable.RunKeepsSound | main/esp32_nat_router.c:104-117 | in every run listed addresses are distinct and at most 20, and joined stations at most 8 |
| DeviceTable.AddedRuleDecidesPackets | main/packet_filter.c:20-58 | an added rule decides the packets it covers, except the administrator's and those of blocked devices |
| PacketFilter.Firewall.AddDevice | main/esp32_nat_router.c:104-117 | a new address is appended as PENDING while there is room |
| PacketFilter.Firewall.OnStationConnected | main/esp32_nat_router.c:421-479 | the state becomes that of the joining step; turned away exactly when blocked |
| PacketFilter.Firewall.OnStationDisconnected | main/esp32_nat_router.c:480-495 | the shifting loop removes the first occurrence, and the counter wraps at 16 bits |
| PacketFilter.Firewall.UpdateMacStatus | main/http_server.c:475-511 | the state becomes that of the update step; found exactly when listed |
| PacketFilter.Firewall.IsPacketAllowed | main/packet_filter.c:15-59 | the result is the verdict on the device list and the service state |
| RateLimiter.RateLimiter.CheckRateLimitMac | main/dns_server.c:43-70 | table and result are those of the step |
| RateLimiter.AcceptedPerSecond | main/dns_server.c:43-70 | per address and second, min(5, requests) are accepted for the first 20 addresses of the trace, none for others |
| RateLimiter.AtMostFive | main/dns_server.c:46-57 | never more than five per address and second, wrap or not |
| RateLimiter.AcceptedInWindow | main/dns_server.c:43-70 | any interval of W microseconds accepts at most 5 * ((W - 1) / 1000000 + 2) requests of an address |
| RateLimiter.ClientsAreTracked | main/dns_server.c:60-69 | the table holds the first 20 distinct addresses in order |
| RateLimiter.NoWrapInUptime | main/dns_server.c:44-48 | the hypothesis on the 32-bit second holds for 2^32 seconds of uptime |
| RateLimiter.ExactWithinUptime | main/dns_server.c:43-70 | the per-second result holds for all traces of an uptime exactly up to 2^32 seconds |
| RateLimiter.WrappedSecondIsRefused | main/dns_server.c:44-55 | a request 2^32 seconds after five others is refused as the sixth of their second |
| PercentCodec.PreprocessString | components/cmd_router/cmd_router.c:48-78 | the two-pointer loop leaves the decoded string and its NUL, and nothing behind it changes |
| PercentCodec.DecodeInvertsEncoding | components/cmd_router/cmd_router.c:52-76 | decoding inverts every percent-encoding, whichever octets are quoted and in either case |
| PercentCodec.EveryStringHasAnEncoding | components/cmd_router/cmd_router.c:54-70 | there is such an encoding for every string |
| PercentCodec.QuotedAnything | components/cmd_router/cmd_router.c:54-70 | `%` and any two characters, digits or not, become one octet, computed from their offsets at 8 bits |
| PercentCodec.QuotedNonDigits | components/cmd_router/cmd_router.c:60-69 | `%zz` becomes the octet 0x53 |
| PercentCodec.DecodeFixes | components/cmd_router/cmd_router.c:52-76 | decoding leaves a string alone exactly when it has no `+` and no `%` followed by two characters |
| PercentCodec.DecodedTwice | main/http_server.c:77-82 | a form value decoded by the handler and again by the command is kept exactly under that condition |
| HtmlEscape.HtmlEscape | main/http_server.c:726-750 | the sizing and writing loops agree: the result and its NUL fill the allocation exactly |
| HtmlEscape.UnescapeInvertsEscape | main/http_server.c:737-747 | decoding numeric character references recovers the input |
| HtmlEscape.EscapedHasNoQuotes | main/http_server.c:738-743 | no quote, apostrophe or backslash is left |
| HtmlEscape.EscapeOneIs | main/http_server.c:738-746 | exactly six characters become a reference to their own number in two digits |
| HtmlEscape.EscapeFixes | main/http_server.c:737-747 | a string is left alone exactly when it has none of the six |
| HtmlEscape.MarksBelongToReferences | main/http_server.c:738-743 | in the output `#` follows `&`, and `;` ends a reference |
| HtmlEscape.AmpersandStartsReference | main/http_server.c:738-743 | an ampersand in the output always starts a numeric reference |
| HexBlob.StoreBlob | components/cmd_nvs/cmd_nvs.c:108-153 | the blob built nibble by nibble, or the error reported |
| HexBlob.PrintBlob | components/cmd_nvs/cmd_nvs.c:155-161 | two lower-case digits per octet and a newline |
| HexBlob.PrintedDigits | components/cmd_nvs/cmd_nvs.c:155-161 | the digit of the high four bits comes first |
| HexBlob.ErrorReported | components/cmd_nvs/cmd_nvs.c:114-141 | which error is reported: a type mismatch for odd length or, if allocation succeeds, for a character that is no digit; no memory for even length and a failing allocation |
| HexBlob.PrintOfStored | components/cmd_nvs/cmd_nvs.c:108-161 | exactly even-length hexadecimal text is accepted, and printing gives it back in lower case |
| HexBlob.StoredOfPrint | components/cmd_nvs/cmd_nvs.c:108-161 | storing a printed blob, less its newline, gives the same octets |

## Left out

- DnsName.ParseDomainName: takes the octets behind the buffer as given and unchanged during the call, because the C function gets no length and may read them.
- DnsServer.HandlePacket: needs 16 free octets behind a query that is answered as blocked, because the C function writes into a fixed buffer of 512 octets.
- DnsMessage.BlockedResponseIsMessageExactly: says nothing of queries that announce several questions, or whose name is reached through the header.
- Sockets, the forwarded answer, threads, logging, Wi-Fi bring-up, NAPT and netif hooks: input and output without visible semantics.
- Failing flash operations and the other console commands on flash: thin wrappers; here the store succeeds.
- Parsing of MAC addresses and JSON, HTTP plumbing and pages: library glue; events carry the parsed values.
- The port-map table and the ring log: their meaning lives elsewhere, or they would only add easy members.
- Lookup of a service by name: it would only add an easy member.
- Overflow of the limiter's per-second counter: it takes 2^31 requests of one address in one second.
