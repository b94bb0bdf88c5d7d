/** The service and custom port rules as values: first-match lookup, updates, and what they decide. */
module ServiceRules {
  import opened Bytes

  const SVC_BUILTIN_COUNT := 16
  const MAX_CUSTOM_PORT_RULES := 20
  const MAX_SERVICE_NAME_LEN := 24
  const TCP: byte := 6
  const UDP: byte := 17
  const BOTH: byte := 0

  type uint16 = n: int | 0 <= n < 0x10000

  /** `service_rule_t` and `custom_port_rule_t`, which have the same fields. */
  datatype Rule = Rule(name: string, port: uint16, proto: byte, blocked: bool, active: bool)

  /** A slot cleared with `memset`. */
  const EMPTY := Rule("", 0, 0, false, false)

  const BUILTINS: seq<Rule> := [
    Rule("HTTP", 80, TCP, false, true), Rule("HTTPS", 443, TCP, false, true),
    Rule("DNS", 53, UDP, false, true), Rule("SSH", 22, TCP, false, true),
    Rule("FTP", 21, TCP, false, true), Rule("FTP-DATA", 20, TCP, false, true),
    Rule("SMTP", 25, TCP, false, true), Rule("SMTPS", 465, TCP, false, true),
    Rule("POP3", 110, TCP, false, true), Rule("IMAP", 143, TCP, false, true),
    Rule("IMAPS", 993, TCP, false, true), Rule("RDP", 3389, TCP, false, true),
    Rule("NTP", 123, UDP, false, true), Rule("TELNET", 23, TCP, false, true),
    Rule("MQTT", 1883, TCP, false, true), Rule("MQTTS", 8883, TCP, false, true)]

  /** First index in [from, n) whose rule has the property, or `n`. */
  function First(rules: seq<Rule>, from: nat, n: nat, p: Rule -> bool): (i: nat)
    requires from <= n <= |rules|
    ensures from <= i <= n
    ensures i < n ==> p(rules[i])
    ensures forall j :: from <= j < i ==> !p(rules[j])
    decreases n - from
  {
    if from == n || p(rules[from]) then from else First(rules, from + 1, n, p)
  }

  lemma FirstIs(rules: seq<Rule>, n: nat, p: Rule -> bool, i: nat)
    requires i <= n <= |rules|
    requires i < n ==> p(rules[i])
    requires forall j :: 0 <= j < i ==> !p(rules[j])
    ensures First(rules, 0, n, p) == i
  {
  }

  /** How many rules have the property. */
  function Count(rules: seq<Rule>, p: Rule -> bool): nat {
    if rules == [] then 0 else (if p(rules[0]) then 1 else 0) + Count(rules[1..], p)
  }

  /** `proto_matches`; also: the packets that a rule or a request for this protocol covers. */
  predicate ProtoMatches(ruleProto: byte, proto: byte) {
    ruleProto == BOTH || ruleProto == proto
  }

  /** The rule decides packets of this protocol and port. */
  predicate Decides(r: Rule, proto: byte, port: uint16) {
    r.active && r.port == port && ProtoMatches(r.proto, proto)
  }

  /** The rule is the one an add or remove for this port and protocol acts on. */
  predicate Overlaps(r: Rule, port: uint16, proto: byte) {
    r.active && r.port == port && (r.proto == proto || proto == BOTH || r.proto == BOTH)
  }

  function Deciding(proto: byte, port: uint16): Rule -> bool {
    (r: Rule) => Decides(r, proto, port)
  }

  function Overlapping(port: uint16, proto: byte): Rule -> bool {
    (r: Rule) => Overlaps(r, port, proto)
  }

  function Free(): Rule -> bool {
    (r: Rule) => !r.active
  }

  /** `strncpy` into the name field. */
  function ShortName(name: string): string {
    if |name| < MAX_SERVICE_NAME_LEN then name else name[..MAX_SERVICE_NAME_LEN - 1]
  }

  /** The table after `service_add_custom`, or nothing when it is full. */
  function AddRule(rules: seq<Rule>, name: string, port: uint16, proto: byte, blocked: bool): Option<seq<Rule>> {
    var i := First(rules, 0, |rules|, Overlapping(port, proto));
    if i < |rules| then
      Some(rules[i := Rule(ShortName(name), rules[i].port, proto, blocked, rules[i].active)])
    else
      var k := First(rules, 0, |rules|, Free());
      if k < |rules| then Some(rules[k := Rule(ShortName(name), port, proto, blocked, true)]) else None
  }

  /** The table after `service_remove_custom`, or nothing when no rule is found. */
  function RemoveRule(rules: seq<Rule>, port: uint16, proto: byte): Option<seq<Rule>> {
    var i := First(rules, 0, |rules|, Overlapping(port, proto));
    if i < |rules| then Some(rules[i := EMPTY]) else None
  }

  function BuiltinVerdict(services: seq<Rule>, proto: byte, port: uint16): bool {
    var k := First(services, 0, |services|, Deciding(proto, port));
    k == |services| || !services[k].blocked
  }

  /** What each built-in service stands for: protocol number (6 is TCP, 17 is UDP) and port. */
  predicate IsServicePacket(id: nat, proto: byte, port: uint16) {
    match id
    case 0 => proto == 6 && port == 80      // HTTP
    case 1 => proto == 6 && port == 443     // HTTPS
    case 2 => proto == 17 && port == 53     // DNS
    case 3 => proto == 6 && port == 22      // SSH
    case 4 => proto == 6 && port == 21      // FTP
    case 5 => proto == 6 && port == 20      // FTP-DATA
    case 6 => proto == 6 && port == 25      // SMTP
    case 7 => proto == 6 && port == 465     // SMTPS
    case 8 => proto == 6 && port == 110     // POP3
    case 9 => proto == 6 && port == 143     // IMAP
    case 10 => proto == 6 && port == 993    // IMAPS
    case 11 => proto == 6 && port == 3389   // RDP
    case 12 => proto == 17 && port == 123   // NTP
    case 13 => proto == 6 && port == 23     // TELNET
    case 14 => proto == 6 && port == 1883   // MQTT
    case 15 => proto == 6 && port == 8883   // MQTTS
    case _ => false
  }

  lemma BuiltinsAre(id: nat, proto: byte, port: uint16)
    requires id < SVC_BUILTIN_COUNT
    ensures Decides(BUILTINS[id], proto, port) <==> IsServicePacket(id, proto, port)
  {
  }

  /** The decision from the first `n` custom slots, then the built-in services, then the default. */
  function Verdict(services: seq<Rule>, rules: seq<Rule>, n: nat, proto: byte, port: uint16): bool
    requires n <= |rules|
  {
    var i := First(rules, 0, n, Deciding(proto, port));
    if i < n then !rules[i].blocked else BuiltinVerdict(services, proto, port)
  }

  /** The decision from the whole table. */
  function Allowed(services: seq<Rule>, rules: seq<Rule>, proto: byte, port: uint16): bool {
    Verdict(services, rules, |rules|, proto, port)
  }

  /** One past the last active slot among the first `n`. */
  function HighWater(rules: seq<Rule>, n: nat): (count: nat)
    requires n <= |rules|
    ensures count <= n
    ensures count > 0 ==> rules[count - 1].active
    ensures forall i :: count <= i < n ==> !rules[i].active
  {
    if n == 0 || rules[n - 1].active then n else HighWater(rules, n - 1)
  }

  /** Scanning up to the high-water mark decides like scanning every slot. */
  lemma BoundedScanAgrees(services: seq<Rule>, rules: seq<Rule>, proto: byte, port: uint16)
    ensures Verdict(services, rules, HighWater(rules, |rules|), proto, port) == Allowed(services, rules, proto, port)
  {
  }

  /** The slot that an add writes, if any. */
  function SlotWritten(rules: seq<Rule>, port: uint16, proto: byte): nat {
    var i := First(rules, 0, |rules|, Overlapping(port, proto));
    if i < |rules| then i else First(rules, 0, |rules|, Free())
  }

  /** After a successful add, every packet it covers is decided as asked. */
  lemma LastWriteWins(services: seq<Rule>, rules: seq<Rule>, name: string, port: uint16, proto: byte, blocked: bool, p: byte)
    requires AddRule(rules, name, port, proto, blocked).Some? && (proto == 0 || proto == p)
    ensures Allowed(services, AddRule(rules, name, port, proto, blocked).value, p, port) == !blocked
  {
    var rules', at := AddRule(rules, name, port, proto, blocked).value, SlotWritten(rules, port, proto);
    forall j | 0 <= j < at
      ensures !Deciding(p, port)(rules'[j])
    {
      assert rules'[j] == rules[j] && !Overlapping(port, proto)(rules[j]);
    }
    FirstIs(rules', |rules|, Deciding(p, port), at);
  }

  /** An add leaves an active rule as asked for, under the first 23 characters of the name, and every other slot alone;
      it takes the first overlapping slot, or else the first that is not active. */
  lemma AddStores(rules: seq<Rule>, name: string, port: uint16, proto: byte, blocked: bool)
    requires AddRule(rules, name, port, proto, blocked).Some?
    ensures var rules', at := AddRule(rules, name, port, proto, blocked).value, SlotWritten(rules, port, proto);
            && at < |rules|
            && rules' == rules[at := Rule(if |name| <= 23 then name else name[..23], port, proto, blocked, true)]
            && (Overlaps(rules[at], port, proto) || !rules[at].active)
            && (forall j :: 0 <= j < at ==> !Overlaps(rules[j], port, proto))
            && (!rules[at].active ==> forall j :: 0 <= j < |rules| ==> !Overlaps(rules[j], port, proto))
            && (!rules[at].active ==> forall j :: 0 <= j < at ==> rules[j].active)
  {
    var i, k := First(rules, 0, |rules|, Overlapping(port, proto)), First(rules, 0, |rules|, Free());
    assert forall j :: 0 <= j < i ==> !Overlapping(port, proto)(rules[j]);
    assert forall j :: 0 <= j < k ==> !Free()(rules[j]);
    assert i < |rules| ==> Overlapping(port, proto)(rules[i]);
  }

  /** Every other packet is decided as before, unless a BOTH rule on its port was rewritten:
      then it is decided as if that rule had been removed. */
  lemma OthersUnchanged(services: seq<Rule>, rules: seq<Rule>, name: string, port: uint16, proto: byte, blocked: bool,
                        p: byte, q: uint16)
    requires AddRule(rules, name, port, proto, blocked).Some? && !(q == port && (proto == 0 || proto == p))
    ensures var rules' := AddRule(rules, name, port, proto, blocked).value;
            var i := First(rules, 0, |rules|, Overlapping(port, proto));
            Allowed(services, rules', p, q)
            == if q == port && i < |rules| && rules[i].proto == 0 then Allowed(services, rules[i := EMPTY], p, q)
               else Allowed(services, rules, p, q)
  {
    var rules', at := AddRule(rules, name, port, proto, blocked).value, SlotWritten(rules, port, proto);
    var i := First(rules, 0, |rules|, Overlapping(port, proto));
    var before := if q == port && i < |rules| && rules[i].proto == BOTH then rules[i := EMPTY] else rules;
    var k := First(before, 0, |rules|, Deciding(p, q));
    assert !Deciding(p, q)(before[at]) && !Deciding(p, q)(rules'[at]);
    assert forall j :: 0 <= j < |rules| && j != at ==> rules'[j] == before[j];
    FirstIs(rules', |rules|, Deciding(p, q), k);
  }

  /** For TCP or UDP, the rule that a remove takes away is the one that decides those packets on the port;
      it fails exactly where the built-ins and the default decide. */
  lemma RemoveTakesDecidingRule(rules: seq<Rule>, port: uint16, proto: byte)
    requires proto != 0
    ensures var i := First(rules, 0, |rules|, Deciding(proto, port));
            RemoveRule(rules, port, proto) == if i < |rules| then Some(rules[i := EMPTY]) else None
  {
  }

  lemma {:induction false} CountUpdate(rules: seq<Rule>, i: nat, r: Rule, p: Rule -> bool)
    requires i < |rules| && p(rules[i]) && !p(r)
    ensures Count(rules, p) == Count(rules[i := r], p) + 1
  {
    if i == 0 {
      assert rules[i := r][1..] == rules[1..];
    } else {
      CountUpdate(rules[1..], i - 1, r, p);
      assert rules[i := r][1..] == rules[1..][i - 1 := r];
    }
  }

  /** Calling remove until it fails: the final table and the number of calls that succeeded. */
  function Drain(rules: seq<Rule>, port: uint16, proto: byte): (seq<Rule>, nat)
    decreases Count(rules, Overlapping(port, proto))
  {
    var i := First(rules, 0, |rules|, Overlapping(port, proto));
    if i == |rules| then (rules, 0)
    else
      CountUpdate(rules, i, EMPTY, Overlapping(port, proto));
      var (last, calls) := Drain(RemoveRule(rules, port, proto).value, port, proto);
      (last, calls + 1)
  }

  /** Draining takes one call per overlapping rule and leaves covered packets to the built-ins and the default;
      other ports, and rules that do not overlap, are untouched. */
  lemma {:induction false} DrainRestoresBuiltins(services: seq<Rule>, rules: seq<Rule>, port: uint16, proto: byte)
    ensures var (last, calls) := Drain(rules, port, proto);
            && calls == Count(rules, Overlapping(port, proto))
            && RemoveRule(last, port, proto).None?
            && (forall p :: proto == 0 || proto == p ==> Allowed(services, last, p, port) == BuiltinVerdict(services, p, port))
            && |last| == |rules|
            && (forall k :: 0 <= k < |rules| ==> last[k] == if Overlaps(rules[k], port, proto) then EMPTY else rules[k])
    decreases Count(rules, Overlapping(port, proto))
  {
    var i := First(rules, 0, |rules|, Overlapping(port, proto));
    if i < |rules| {
      CountUpdate(rules, i, EMPTY, Overlapping(port, proto));
      DrainRestoresBuiltins(services, rules[i := EMPTY], port, proto);
    } else {
      forall k | 0 <= k < |rules|
        ensures !Overlaps(rules[k], port, proto)
      {
        assert !Overlapping(port, proto)(rules[k]);
      }
      CountNone(rules, Overlapping(port, proto));
      forall p | ProtoMatches(proto, p)
        ensures Allowed(services, rules, p, port) == BuiltinVerdict(services, p, port)
      {
        FirstIs(rules, |rules|, Deciding(p, port), |rules|);
      }
    }
  }

  lemma {:induction false} CountNone(rules: seq<Rule>, p: Rule -> bool)
    requires forall k :: 0 <= k < |rules| ==> !p(rules[k])
    ensures Count(rules, p) == 0
  {
    if rules != [] {
      CountNone(rules[1..], p);
    }
  }

  /** No two active rules compete for a packet. */
  ghost predicate Disjoint(rules: seq<Rule>) {
    forall i, j :: 0 <= i < j < |rules| && rules[i].active && rules[j].active ==>
      !Overlaps(rules[i], rules[j].port, rules[j].proto)
  }

  /** Competing rules appear exactly when an add hits two rules at once: for a port with a TCP and a UDP rule,
      with BOTH. The second of the two stays. */
  lemma AddKeepsDisjointExactly(rules: seq<Rule>, name: string, port: uint16, proto: byte, blocked: bool)
    requires Disjoint(rules) && AddRule(rules, name, port, proto, blocked).Some?
    ensures Disjoint(AddRule(rules, name, port, proto, blocked).value)
       <==> !exists i, j :: 0 <= i < j < |rules| && Overlaps(rules[i], port, proto) && Overlaps(rules[j], port, proto)
  {
    var rules', at := AddRule(rules, name, port, proto, blocked).value, SlotWritten(rules, port, proto);
    assert Overlaps(rules'[at], port, proto);
    if i, j :| 0 <= i < j < |rules| && Overlaps(rules[i], port, proto) && Overlaps(rules[j], port, proto) {
      assert at <= i by {
        assert Overlapping(port, proto)(rules[i]);
      }
      assert rules'[j] == rules[j] && Overlaps(rules'[at], rules'[j].port, rules'[j].proto);
    } else {
      forall j | 0 <= j < |rules| && j != at
        ensures !Overlaps(rules'[j], port, proto)
      {
        assert rules'[j] == rules[j] && (Overlaps(rules[j], port, proto) <==> Overlapping(port, proto)(rules[j]));
      }
    }
  }

  /** Two rules for the same port and protocol can come about: add TCP, UDP, BOTH and UDP on one port. */
  lemma BothLeavesDuplicates(port: uint16)
    requires port != 0
    ensures var r0 := seq(MAX_CUSTOM_PORT_RULES, _ => EMPTY);
            var r1 := AddRule(r0, "", port, 6, true).value;
            var r2 := AddRule(r1, "", port, 17, true).value;
            var r3 := AddRule(r2, "", port, 0, true).value;
            var r4 := AddRule(r3, "", port, 17, true).value;
            r4[0] == r4[1] == Rule("", port, 17, true, true)
  {
  }

  datatype Key = Key(port: uint16, proto: byte)

  /** Every active rule is for TCP or UDP, and has its port and protocol to itself. */
  ghost predicate Unique(rules: seq<Rule>) {
    && (forall i :: 0 <= i < |rules| && rules[i].active ==> rules[i].proto == TCP || rules[i].proto == UDP)
    && (forall i, j :: 0 <= i < j < |rules| && rules[i].active && rules[j].active ==>
          Key(rules[i].port, rules[i].proto) != Key(rules[j].port, rules[j].proto))
  }

  /** The table as a map from port and protocol to the blocked flag. */
  ghost function RuleMap(rules: seq<Rule>): map<Key, bool>
    requires Unique(rules)
  {
    map i | 0 <= i < |rules| && rules[i].active :: Key(rules[i].port, rules[i].proto) := rules[i].blocked
  }

  function KeyOf(r: Rule): Key {
    Key(r.port, r.proto)
  }

  lemma MapHas(rules: seq<Rule>, i: nat)
    requires Unique(rules) && i < |rules| && rules[i].active
    ensures KeyOf(rules[i]) in RuleMap(rules) && RuleMap(rules)[KeyOf(rules[i])] == rules[i].blocked
  {
  }

  /** Writing one slot leaves the other keys alone. */
  lemma MapElsewhere(rules: seq<Rule>, at: nat, r: Rule, k: Key)
    requires at < |rules| && Unique(rules) && Unique(rules[at := r])
    requires rules[at].active ==> KeyOf(rules[at]) != k
    requires r.active ==> KeyOf(r) != k
    ensures k in RuleMap(rules) <==> k in RuleMap(rules[at := r])
    ensures k in RuleMap(rules) ==> RuleMap(rules)[k] == RuleMap(rules[at := r])[k]
  {
  }

  lemma WriteKeepsUnique(rules: seq<Rule>, at: nat, r: Rule)
    requires Unique(rules) && at < |rules|
    requires r.active ==> r.proto == TCP || r.proto == UDP
    requires r.active ==> forall j :: 0 <= j < |rules| && j != at && rules[j].active ==> KeyOf(rules[j]) != KeyOf(r)
    ensures Unique(rules[at := r])
  {
  }

  lemma UpdateSlot(rules: seq<Rule>, at: nat, r: Rule)
    requires Unique(rules) && at < |rules| && r.active && (r.proto == TCP || r.proto == UDP)
    requires rules[at].active ==> KeyOf(rules[at]) == KeyOf(r)
    requires forall j :: 0 <= j < |rules| && j != at && rules[j].active ==> KeyOf(rules[j]) != KeyOf(r)
    ensures Unique(rules[at := r]) && RuleMap(rules[at := r]) == RuleMap(rules)[KeyOf(r) := r.blocked]
  {
    WriteKeepsUnique(rules, at, r);
    hide Unique, RuleMap;
    MapHas(rules[at := r], at);
    forall k | k != KeyOf(r)
      ensures k in RuleMap(rules) <==> k in RuleMap(rules[at := r])
      ensures k in RuleMap(rules) ==> RuleMap(rules)[k] == RuleMap(rules[at := r])[k]
    {
      MapElsewhere(rules, at, r, k);
    }
  }

  lemma ClearSlot(rules: seq<Rule>, at: nat)
    requires Unique(rules) && at < |rules| && rules[at].active
    ensures Unique(rules[at := EMPTY]) && RuleMap(rules[at := EMPTY]) == RuleMap(rules) - {KeyOf(rules[at])}
  {
    WriteKeepsUnique(rules, at, EMPTY);
    var gone := KeyOf(rules[at]);
    assert gone !in RuleMap(rules[at := EMPTY]) by {
      var rules' := rules[at := EMPTY];
      assert forall i :: 0 <= i < |rules| && rules'[i].active ==> Key(rules'[i].port, rules'[i].proto) != gone;
    }
    hide Unique, RuleMap;
    forall k | k != gone
      ensures k in RuleMap(rules) <==> k in RuleMap(rules[at := EMPTY])
      ensures k in RuleMap(rules) ==> RuleMap(rules)[k] == RuleMap(rules[at := EMPTY])[k]
    {
      MapElsewhere(rules, at, EMPTY, k);
    }
  }

  /** With TCP and UDP only, the rule found for a port and protocol is the one with that key. */
  lemma OverlapIsKey(rules: seq<Rule>, port: uint16, proto: byte)
    requires Unique(rules) && (proto == TCP || proto == UDP)
    ensures var i := First(rules, 0, |rules|, Overlapping(port, proto));
            && (i < |rules| <==> Key(port, proto) in RuleMap(rules))
            && (i < |rules| ==> rules[i].active && KeyOf(rules[i]) == Key(port, proto))
  {
    var i := First(rules, 0, |rules|, Overlapping(port, proto));
    if i < |rules| {
      assert Overlaps(rules[i], port, proto);
      assert Key(rules[i].port, rules[i].proto) in RuleMap(rules);
    } else {
      assert forall j :: 0 <= j < |rules| ==> !Overlapping(port, proto)(rules[j]);
    }
  }

  ghost function Keys(rules: seq<Rule>, n: nat): set<Key>
    requires n <= |rules|
  {
    set i | 0 <= i < n && rules[i].active :: KeyOf(rules[i])
  }

  lemma KeysNext(rules: seq<Rule>, n: nat)
    requires Unique(rules) && n < |rules|
    ensures var next := KeyOf(rules[n]);
            && (rules[n].active ==> next !in Keys(rules, n))
            && Keys(rules, n + 1) == if rules[n].active then Keys(rules, n) + {next} else Keys(rules, n)
  {
  }

  lemma {:induction false} KeysSize(rules: seq<Rule>, n: nat)
    requires Unique(rules) && n <= |rules|
    ensures |Keys(rules, n)| <= n
    ensures |Keys(rules, n)| == n <==> forall i :: 0 <= i < n ==> rules[i].active
  {
    if n > 0 {
      KeysSize(rules, n - 1);
      KeysNext(rules, n - 1);
      hide Unique, Keys;
      assert (forall i :: 0 <= i < n ==> rules[i].active)
        <==> rules[n - 1].active && forall i :: 0 <= i < n - 1 ==> rules[i].active;
    } else {
      assert Keys(rules, 0) == {};
    }
  }

  /** Each active rule has a key of its own: the map is as large as the table exactly when every slot is active. */
  lemma MapSize(rules: seq<Rule>)
    requires Unique(rules)
    ensures |RuleMap(rules)| <= |rules|
    ensures |RuleMap(rules)| == |rules| <==> forall i :: 0 <= i < |rules| ==> rules[i].active
  {
    KeysSize(rules, |rules|);
    assert RuleMap(rules).Keys == Keys(rules, |rules|);
  }

  /** No active rule has the key but the one that an add rewrites. */
  lemma NoOtherHasKey(rules: seq<Rule>, port: uint16, proto: byte)
    requires Unique(rules)
    ensures forall j :: 0 <= j < |rules| && j != First(rules, 0, |rules|, Overlapping(port, proto)) && rules[j].active ==>
              KeyOf(rules[j]) != Key(port, proto)
  {
    var i := First(rules, 0, |rules|, Overlapping(port, proto));
    forall j | 0 <= j < |rules| && j != i && rules[j].active
      ensures KeyOf(rules[j]) != Key(port, proto)
    {
      assert j < i ==> !Overlapping(port, proto)(rules[j]);
      assert i < |rules| ==> Overlaps(rules[i], port, proto);
    }
  }

  /** With TCP and UDP only, add is map update; it fails exactly for a new key in a full table. */
  lemma AddIsMapUpdate(rules: seq<Rule>, name: string, port: uint16, proto: byte, blocked: bool)
    requires Unique(rules) && (proto == TCP || proto == UDP)
    ensures AddRule(rules, name, port, proto, blocked).None?
       <==> Key(port, proto) !in RuleMap(rules) && |RuleMap(rules)| == |rules|
    ensures match AddRule(rules, name, port, proto, blocked)
            case None => true
            case Some(rules') => Unique(rules') && RuleMap(rules') == RuleMap(rules)[Key(port, proto) := blocked]
  {
    OverlapIsKey(rules, port, proto);
    MapSize(rules);
    var added, at := AddRule(rules, name, port, proto, blocked), SlotWritten(rules, port, proto);
    if added.Some? {
      NoOtherHasKey(rules, port, proto);
      hide Unique, RuleMap, First;
      UpdateSlot(rules, at, added.value[at]);
    } else {
      assert forall i :: 0 <= i < |rules| ==> !Free()(rules[i]);
    }
  }

  /** Remove is map delete; it fails exactly for an absent key. */
  lemma RemoveIsMapDelete(rules: seq<Rule>, port: uint16, proto: byte)
    requires Unique(rules) && (proto == TCP || proto == UDP)
    ensures match RemoveRule(rules, port, proto)
            case None => Key(port, proto) !in RuleMap(rules)
            case Some(rules') =>
              && Key(port, proto) in RuleMap(rules)
              && Unique(rules')
              && RuleMap(rules') == RuleMap(rules) - {Key(port, proto)}
  {
    OverlapIsKey(rules, port, proto);
    if RemoveRule(rules, port, proto).Some? {
      ClearSlot(rules, First(rules, 0, |rules|, Overlapping(port, proto)));
    }
  }

  /** The decision is map lookup, falling back to the built-in services and then to allow. */
  lemma AllowedIsMapLookup(services: seq<Rule>, rules: seq<Rule>, proto: byte, port: uint16)
    requires Unique(rules) && (proto == TCP || proto == UDP)
    ensures Allowed(services, rules, proto, port)
         == if Key(port, proto) in RuleMap(rules) then !RuleMap(rules)[Key(port, proto)]
            else BuiltinVerdict(services, proto, port)
  {
  }
}
