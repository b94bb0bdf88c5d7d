/** The service filter's state, with its flash image: a bit mask of blocked services and a copy of the custom rules. */
module ServiceTable {
  import opened Bytes
  import opened ServiceRules

  /** RAM, and the two flash keys "svc_blocked" and "svc_custom" (absent until the first save). */
  datatype State = State(services: seq<Rule>, rules: seq<Rule>, count: nat, mask: Option<bv32>, blob: Option<seq<Rule>>)

  function Empties(): (s: seq<Rule>)
    ensures |s| == MAX_CUSTOM_PORT_RULES && forall i :: 0 <= i < |s| ==> s[i] == EMPTY
  {
    seq(MAX_CUSTOM_PORT_RULES, _ => EMPTY)
  }

  const FACTORY := State(BUILTINS, Empties(), 0, None, None)

  /** The mask with bit `i` set for each blocked service among the first ones. */
  function Pack(services: seq<Rule>): bv32
    requires |services| <= 32
  {
    if services == [] then 0
    else
      var n := |services| - 1;
      if services[n].blocked then WithBit(Pack(services[..n]), n) else Pack(services[..n])
  }

  /** `mask | (1u << i)`. */
  function WithBit(mask: bv32, i: nat): bv32
    requires i < 32
  {
    mask | (1 << i)
  }

  /** `(mask >> i) & 1`. */
  predicate Bit(mask: bv32, i: nat)
    requires i < 32
  {
    (mask >> i) & 1 == 1
  }

  function Unpack(services: seq<Rule>, mask: bv32): (r: seq<Rule>)
    requires |services| <= 32
    ensures |r| == |services|
    ensures forall i :: 0 <= i < |r| ==> r[i] == services[i].(blocked := Bit(mask, i))
  {
    seq(|services|, i requires 0 <= i < |services| => services[i].(blocked := Bit(mask, i)))
  }

  datatype Op =
    | AddCustom(name: Option<string>, port: uint16, proto: byte, blocked: bool)
    | RemoveCustom(port: uint16, proto: byte)
    | SetBlocked(id: nat, blocked: bool)
    | Restart

  /** `save_service_rules`. */
  function Save(s: State): State
    requires |s.services| == SVC_BUILTIN_COUNT
  {
    s.(mask := Some(Pack(s.services)), blob := Some(s.rules))
  }

  predicate WellShaped(s: State) {
    && |s.services| == SVC_BUILTIN_COUNT
    && s.count <= |s.rules| == MAX_CUSTOM_PORT_RULES
    && (s.blob.Some? ==> |s.blob.value| == MAX_CUSTOM_PORT_RULES)
  }

  /** The state after an operation, and the boolean it returns. */
  function Step(s: State, op: Op): (State, bool)
    requires WellShaped(s)
  {
    match op
    case AddCustom(name, port, proto, blocked) =>
      if name.None? || port == 0 then (s, false)
      else (
        match AddRule(s.rules, name.value, port, proto, blocked)
        case None => (s, false)
        case Some(rules) =>
          var k := SlotWritten(s.rules, port, proto);
          (Save(s.(rules := rules, count := if k + 1 > s.count then k + 1 else s.count)), true)
      )
    case RemoveCustom(port, proto) => (
      match RemoveRule(s.rules, port, proto)
      case None => (s, false)
      case Some(rules) => (Save(s.(rules := rules, count := HighWater(rules, |rules|))), true)
    )
    case SetBlocked(id, blocked) =>
      if id >= SVC_BUILTIN_COUNT then (s, false)
      else (Save(s.(services := s.services[id := s.services[id].(blocked := blocked)])), true)
    case Restart =>
      // RAM comes up with its initial values, then `init_service_filter` reads flash
      var services := if s.mask.Some? then Unpack(BUILTINS, s.mask.value) else BUILTINS;
      var rules := if s.blob.Some? then s.blob.value else Empties();
      (State(services, rules, if s.blob.Some? then HighWater(rules, |rules|) else 0, s.mask, s.blob), true)
  }

  /** The built-in services in their order, whatever their flags. */
  ghost predicate AreBuiltins(services: seq<Rule>) {
    && |services| == SVC_BUILTIN_COUNT
    && forall i :: 0 <= i < SVC_BUILTIN_COUNT ==> services[i] == BUILTINS[i].(blocked := services[i].blocked)
  }

  /** Flash holds an image of RAM, or nothing while RAM is as it left the factory;
      the count is the high-water mark; built-in services keep everything but their flag. */
  ghost predicate Sound(s: State) {
    && WellShaped(s)
    && AreBuiltins(s.services)
    && s.count == HighWater(s.rules, |s.rules|)
    && (if s.mask.None? && s.blob.None? then s.services == BUILTINS && s.rules == Empties()
        else s.mask == Some(Pack(s.services)) && s.blob == Some(s.rules))
  }

  lemma ShiftedBit(mask: bv32, i: bv32, j: bv32)
    requires i < 32 && j < 32
    ensures ((mask | (1 << i)) >> j) & 1 == if i == j then 1 else (mask >> j) & 1
  {
  }

  lemma ShiftRoundTrip(i: nat)
    requires i < 32
    ensures i as bv32 as int == i && i as bv32 < 32
  {
  }

  /** Setting bit `i` sets that bit and no other. */
  lemma SetBit(mask: bv32, i: nat, j: nat)
    requires i < 32 && j < 32
    ensures Bit(WithBit(mask, i), j) <==> i == j || Bit(mask, j)
  {
    ShiftRoundTrip(i);
    ShiftRoundTrip(j);
    ShiftedBit(mask, i as bv32, j as bv32);
  }

  lemma NoBits(j: nat)
    requires j < 32
    ensures !Bit(0, j)
  {
  }

  /** Unpacking gives back each packed flag. */
  lemma {:induction false} PackedBit(services: seq<Rule>, j: nat)
    requires |services| <= 32 && j < 32
    ensures Bit(Pack(services), j) <==> j < |services| && services[j].blocked
    ensures Bit(Pack(services), j) <==> (Pack(services) >> j) & 1 == 1
    decreases |services|
  {
    assert Bit(Pack(services), j) <==> (Pack(services) >> j) & 1 == 1;
    hide Bit, WithBit;
    if services == [] {
      NoBits(j);
    } else {
      var n := |services| - 1;
      PackedBit(services[..n], j);
      SetBit(Pack(services[..n]), n, j);
    }
  }

  /** A restart changes nothing. */
  lemma RestartIsIdentity(s: State)
    requires Sound(s)
    ensures Step(s, Restart).0 == s
  {
    forall i | 0 <= i < SVC_BUILTIN_COUNT
      ensures Bit(Pack(s.services), i) == s.services[i].blocked
    {
      PackedBit(s.services, i);
    }
    if s.mask.Some? {
      assert Unpack(BUILTINS, s.mask.value) == s.services;
    } else {
      HighWaterOfEmpties(MAX_CUSTOM_PORT_RULES);
    }
  }

  lemma HighWaterOfEmpties(n: nat)
    requires n <= MAX_CUSTOM_PORT_RULES
    ensures HighWater(Empties(), n) == 0
  {
  }

  lemma HighWaterIs(rules: seq<Rule>, count: nat)
    requires count <= |rules|
    requires count > 0 ==> rules[count - 1].active
    requires forall i :: count <= i < |rules| ==> !rules[i].active
    ensures HighWater(rules, |rules|) == count
  {
  }

  /** The state after rewriting slot `i`. */
  function Updated(s: State, i: nat, name: string, proto: byte, blocked: bool): State
    requires WellShaped(s) && i < |s.rules|
  {
    Save(s.(rules := s.rules[i := Rule(ShortName(name), s.rules[i].port, proto, blocked, s.rules[i].active)]))
  }

  /** The state after filling the empty slot `k`. */
  function Filled(s: State, k: nat, name: string, port: uint16, proto: byte, blocked: bool): State
    requires WellShaped(s) && k < |s.rules|
  {
    Save(s.(rules := s.rules[k := Rule(ShortName(name), port, proto, blocked, true)],
            count := if k + 1 > s.count then k + 1 else s.count))
  }

  /** An add rewrites the first overlapping rule, else fills the first empty slot. */
  lemma AddStepIs(s: State, name: Option<string>, port: uint16, proto: byte, blocked: bool)
    requires Sound(s)
    ensures var i, k := First(s.rules, 0, |s.rules|, Overlapping(port, proto)), First(s.rules, 0, |s.rules|, Free());
            Step(s, AddCustom(name, port, proto, blocked))
            == if name.None? || port == 0 then (s, false)
               else if i < |s.rules| then (Updated(s, i, name.value, proto, blocked), true)
               else if k < |s.rules| then (Filled(s, k, name.value, port, proto, blocked), true)
               else (s, false)
  {
  }

  lemma SlotBelowHighWater(rules: seq<Rule>, i: nat)
    requires i < |rules| && rules[i].active
    ensures i < HighWater(rules, |rules|)
  {
  }

  /** Filling a slot raises the high-water mark to it, if it was lower. */
  lemma PutKeepsSound(s: State, k: nat, r: Rule)
    requires Sound(s) && k < |s.rules| && r.active
    ensures Sound(Save(s.(rules := s.rules[k := r], count := if k + 1 > s.count then k + 1 else s.count)))
  {
    hide Pack;
    var rules := s.rules[k := r];
    assert forall i :: 0 <= i < |rules| && i != k ==> rules[i] == s.rules[i];
    HighWaterIs(rules, if k + 1 > s.count then k + 1 else s.count);
  }

  lemma AddKeepsSound(s: State, name: Option<string>, port: uint16, proto: byte, blocked: bool)
    requires Sound(s)
    ensures Sound(Step(s, AddCustom(name, port, proto, blocked)).0)
  {
    var i, k := First(s.rules, 0, |s.rules|, Overlapping(port, proto)), First(s.rules, 0, |s.rules|, Free());
    AddStepIs(s, name, port, proto, blocked);
    assert WellShaped(s) && s.count == HighWater(s.rules, |s.rules|);
    if name.Some? && i < |s.rules| {
      SlotBelowHighWater(s.rules, i);
      hide Sound, Step, Save, First, HighWater;
      PutKeepsSound(s, i, Rule(ShortName(name.value), s.rules[i].port, proto, blocked, s.rules[i].active));
    } else if name.Some? && k < |s.rules| {
      hide Sound, Step, Save, First, HighWater;
      PutKeepsSound(s, k, Rule(ShortName(name.value), port, proto, blocked, true));
    }
  }

  /** Every operation keeps the invariant. */
  lemma StepKeepsSound(s: State, op: Op)
    requires Sound(s)
    ensures Sound(Step(s, op).0)
  {
    hide Pack;
    match op
    case AddCustom(name, port, proto, blocked) => AddKeepsSound(s, name, port, proto, blocked);
    case Restart => RestartIsIdentity(s);
    case _ =>
  }

  /** The scan finds a slot exactly when there is one. */
  lemma FirstFinds(rules: seq<Rule>, p: Rule -> bool)
    ensures First(rules, 0, |rules|, p) < |rules| <==> exists i :: 0 <= i < |rules| && p(rules[i])
  {
  }

  /** When the operations that report failure fail. */
  lemma WhenRefused(s: State, name: Option<string>, port: uint16, proto: byte, blocked: bool)
    requires Sound(s)
    ensures Step(s, AddCustom(name, port, proto, blocked)).1
       <==> name.Some? && port != 0
            && exists i :: 0 <= i < |s.rules| && (Overlaps(s.rules[i], port, proto) || !s.rules[i].active)
    ensures Step(s, RemoveCustom(port, proto)).1 <==> exists i :: 0 <= i < |s.rules| && Overlaps(s.rules[i], port, proto)
    ensures forall id, b :: Step(s, SetBlocked(id, b)).1 <==> id < 16
    ensures forall op :: !Step(s, op).1 ==> Step(s, op).0 == s
  {
    forall op | !Step(s, op).1
      ensures Step(s, op).0 == s
    {
      hide AddRule, RemoveRule, Save, Unpack, Empties;
    }
    AddStepIs(s, name, port, proto, blocked);
    var i := First(s.rules, 0, |s.rules|, Overlapping(port, proto));
    assert Step(s, RemoveCustom(port, proto)).1 <==> i < |s.rules|;
    hide Step, Sound, Updated, Filled, First, Overlaps;
    FirstFinds(s.rules, Overlapping(port, proto));
    FirstFinds(s.rules, Free());
    assert (exists j :: 0 <= j < |s.rules| && Overlapping(port, proto)(s.rules[j]))
      <==> (exists j :: 0 <= j < |s.rules| && Overlaps(s.rules[j], port, proto));
    assert (exists j :: 0 <= j < |s.rules| && Free()(s.rules[j])) <==> (exists j :: 0 <= j < |s.rules| && !s.rules[j].active);
    hide Overlapping, Free;
  }

  lemma BuiltinPortsDiffer(i: nat, j: nat)
    requires i < SVC_BUILTIN_COUNT && j < SVC_BUILTIN_COUNT && BUILTINS[i].port == BUILTINS[j].port
    ensures i == j
  {
  }

  lemma SwitchedVerdict(services: seq<Rule>, id: nat, blocked: bool, proto: byte, port: uint16)
    requires AreBuiltins(services) && id < SVC_BUILTIN_COUNT
    ensures BuiltinVerdict(services[id := services[id].(blocked := blocked)], proto, port)
         == if Decides(BUILTINS[id], proto, port) then !blocked else BuiltinVerdict(services, proto, port)
  {
    var services', d := services[id := services[id].(blocked := blocked)], Deciding(proto, port);
    var k := First(services, 0, SVC_BUILTIN_COUNT, d);
    forall i | 0 <= i < SVC_BUILTIN_COUNT
      ensures d(services[i]) == d(services'[i]) == Decides(BUILTINS[i], proto, port)
    {
    }
    FirstIs(services', SVC_BUILTIN_COUNT, d, k);
    if Decides(BUILTINS[id], proto, port) {
      assert d(services[id]);
      BuiltinPortsDiffer(k, id);
    }
  }

  /** Switching a service decides exactly its own packets, where no custom rule does. */
  lemma SwitchDecides(s: State, id: nat, blocked: bool, proto: byte, port: uint16)
    requires Sound(s) && id < SVC_BUILTIN_COUNT
    ensures var s' := Step(s, SetBlocked(id, blocked)).0;
            IsPortAllowed(s', proto, port)
            == if !HasCustomRule(s, proto, port) && IsServicePacket(id, proto, port) then !blocked
               else IsPortAllowed(s, proto, port)
  {
    SwitchedVerdict(s.services, id, blocked, proto, port);
    BuiltinsAre(id, proto, port);
    CustomRuleDecides(s, proto, port);
    hide Pack, BuiltinVerdict, Decides, IsServicePacket, HasCustomRule;
  }

  /** An active custom rule is for this protocol, or for both, and this port. */
  ghost predicate HasCustomRule(s: State, proto: byte, port: uint16) {
    exists i :: 0 <= i < |s.rules| && s.rules[i].active && s.rules[i].port == port
                && (s.rules[i].proto == 0 || s.rules[i].proto == proto)
  }

  lemma CustomRuleDecides(s: State, proto: byte, port: uint16)
    requires Sound(s)
    ensures HasCustomRule(s, proto, port) <==> First(s.rules, 0, s.count, Deciding(proto, port)) < s.count
  {
    var i := First(s.rules, 0, s.count, Deciding(proto, port));
    assert i < s.count ==> Deciding(proto, port)(s.rules[i]);
  }

  /** Where no custom rule decides, exactly the packets of blocked services are refused, and all others pass. */
  lemma BuiltinsDecide(s: State, proto: byte, port: uint16)
    requires Sound(s) && !HasCustomRule(s, proto, port)
    ensures IsPortAllowed(s, proto, port)
       <==> forall id :: 0 <= id < 16 && s.services[id].blocked ==> !IsServicePacket(id, proto, port)
  {
    CustomRuleDecides(s, proto, port);
    BuiltinVerdictIs(s.services, proto, port);
    hide Sound, Decides, IsServicePacket, BuiltinVerdict;
    forall id | 0 <= id < 16
      ensures Decides(BUILTINS[id], proto, port) <==> IsServicePacket(id, proto, port)
    {
      BuiltinsAre(id, proto, port);
    }
  }

  lemma FactoryIsSound()
    ensures Sound(FACTORY)
  {
  }

  function Run(s: State, ops: seq<Op>): (r: State)
    requires WellShaped(s)
    ensures WellShaped(r)
    decreases |ops|
  {
    if ops == [] then s else Run(Step(s, ops[0]).0, ops[1..])
  }

  /** `service_is_port_allowed`. */
  function IsPortAllowed(s: State, proto: byte, port: uint16): bool
    requires WellShaped(s)
  {
    Verdict(s.services, s.rules, s.count, proto, port)
  }

  /** In every run the invariant holds, the bounded scan decides like a full one, and one more restart,
      after any of the operations, changes no decision. */
  lemma {:induction false} RunKeepsSound(s: State, ops: seq<Op>)
    requires Sound(s)
    ensures var s' := Run(s, ops);
            && Sound(s')
            && Run(s', [Restart]) == s'
            && forall proto, port :: IsPortAllowed(s', proto, port) == Allowed(s'.services, s'.rules, proto, port)
    decreases |ops|
  {
    if ops == [] {
      RestartIsIdentity(s);
      assert [Restart][1..] == [];
      forall proto, port
        ensures IsPortAllowed(s, proto, port) == Allowed(s.services, s.rules, proto, port)
      {
        BoundedScanAgrees(s.services, s.rules, proto, port);
      }
    } else {
      StepKeepsSound(s, ops[0]);
      RunKeepsSound(Step(s, ops[0]).0, ops[1..]);
    }
  }

  /** The operation does not speak of BOTH, or of another protocol. */
  predicate IsPlain(op: Op) {
    match op
    case AddCustom(_, _, proto, _) => proto == 6 || proto == 17
    case RemoveCustom(_, proto) => proto == 6 || proto == 17
    case _ => true
  }

  /** What the filter is for its callers: blocked or allowed by port and protocol, and the blocked services. */
  datatype Policy = Policy(custom: map<Key, bool>, blocked: set<nat>)

  ghost function PolicyOf(s: State): Policy
    requires WellShaped(s) && Unique(s.rules)
  {
    Policy(RuleMap(s.rules), set id | 0 <= id < SVC_BUILTIN_COUNT && s.services[id].blocked)
  }

  /** What an operation does to the policy, and the boolean it returns. */
  function PolicyStep(p: Policy, op: Op): (Policy, bool) {
    match op
    case AddCustom(name, port, proto, blocked) =>
      var key := Key(port, proto);
      if name.Some? && port != 0 && (key in p.custom || |p.custom| < 20) then
        (p.(custom := p.custom[key := blocked]), true)
      else (p, false)
    case RemoveCustom(port, proto) => (p.(custom := p.custom - {Key(port, proto)}), Key(port, proto) in p.custom)
    case SetBlocked(id, blocked) =>
      if id < 16 then (p.(blocked := if blocked then p.blocked + {id} else p.blocked - {id}), true)
      else (p, false)
    case Restart => (p, true)
  }

  function PolicyRun(p: Policy, ops: seq<Op>): Policy
    decreases |ops|
  {
    if ops == [] then p else PolicyRun(PolicyStep(p, ops[0]).0, ops[1..])
  }

  /** Map lookup, then the built-in services, then allow. */
  ghost predicate PolicyAllows(p: Policy, proto: byte, port: uint16) {
    if Key(port, proto) in p.custom then !p.custom[Key(port, proto)]
    else forall id :: id in p.blocked ==> !IsServicePacket(id, proto, port)
  }

  /** At most one built-in service decides a packet. */
  lemma BuiltinVerdictIs(services: seq<Rule>, proto: byte, port: uint16)
    requires AreBuiltins(services)
    ensures BuiltinVerdict(services, proto, port)
       <==> forall id :: 0 <= id < SVC_BUILTIN_COUNT && services[id].blocked ==> !Decides(BUILTINS[id], proto, port)
  {
    var d := Deciding(proto, port);
    var k := First(services, 0, SVC_BUILTIN_COUNT, d);
    forall id | 0 <= id < SVC_BUILTIN_COUNT
      ensures d(services[id]) <==> Decides(BUILTINS[id], proto, port)
    {
    }
    forall id | 0 <= id < SVC_BUILTIN_COUNT && Decides(BUILTINS[id], proto, port)
      ensures id == k
    {
      BuiltinPortsDiffer(k, id);
    }
  }

  /** With TCP and UDP only, the state decides as its policy does. */
  lemma PolicyDecides(s: State, proto: byte, port: uint16)
    requires Sound(s) && Unique(s.rules) && (proto == 6 || proto == 17)
    ensures IsPortAllowed(s, proto, port) <==> PolicyAllows(PolicyOf(s), proto, port)
  {
    BoundedScanAgrees(s.services, s.rules, proto, port);
    AllowedIsMapLookup(s.services, s.rules, proto, port);
    BuiltinVerdictIs(s.services, proto, port);
    hide AreBuiltins, BuiltinVerdict, RuleMap, Unique, Decides, Pack, Verdict, HighWater, IsServicePacket;
    forall id | 0 <= id < SVC_BUILTIN_COUNT
      ensures Decides(BUILTINS[id], proto, port) <==> IsServicePacket(id, proto, port)
    {
      BuiltinsAre(id, proto, port);
    }
  }

  lemma AddIsPolicyStep(s: State, name: string, port: uint16, proto: byte, blocked: bool)
    requires WellShaped(s) && Unique(s.rules) && (proto == TCP || proto == UDP)
    ensures var op := AddCustom(Some(name), port, proto, blocked);
            && Unique(Step(s, op).0.rules)
            && PolicyStep(PolicyOf(s), op) == (PolicyOf(Step(s, op).0), Step(s, op).1)
  {
    hide Unique, RuleMap, Pack;
    AddIsMapUpdate(s.rules, name, port, proto, blocked);
    MapSize(s.rules);
  }

  lemma RemoveIsPolicyStep(s: State, port: uint16, proto: byte)
    requires WellShaped(s) && Unique(s.rules) && (proto == TCP || proto == UDP)
    ensures var op := RemoveCustom(port, proto);
            && Unique(Step(s, op).0.rules)
            && PolicyStep(PolicyOf(s), op) == (PolicyOf(Step(s, op).0), Step(s, op).1)
  {
    hide Unique, RuleMap, Pack;
    RemoveIsMapDelete(s.rules, port, proto);
    var custom := RuleMap(s.rules);
    assert Key(port, proto) !in custom ==> custom - {Key(port, proto)} == custom;
  }

  lemma SwitchIsPolicyStep(s: State, id: nat, blocked: bool)
    requires WellShaped(s) && Unique(s.rules)
    ensures var op := SetBlocked(id, blocked);
            && Unique(Step(s, op).0.rules)
            && PolicyStep(PolicyOf(s), op) == (PolicyOf(Step(s, op).0), Step(s, op).1)
  {
    hide Unique, RuleMap, Pack;
    var op := SetBlocked(id, blocked);
    assert PolicyStep(PolicyOf(s), op).0.blocked == PolicyOf(Step(s, op).0).blocked;
  }

  /** Every operation but one on BOTH does what the policy says, with the boolean that it says. */
  lemma StepIsPolicyStep(s: State, op: Op)
    requires Sound(s) && Unique(s.rules) && IsPlain(op)
    ensures Unique(Step(s, op).0.rules)
    ensures PolicyStep(PolicyOf(s), op) == (PolicyOf(Step(s, op).0), Step(s, op).1)
  {
    match op
    case AddCustom(Some(name), port, proto, blocked) => AddIsPolicyStep(s, name, port, proto, blocked);
    case AddCustom(None, _, _, _) =>
    case RemoveCustom(port, proto) => RemoveIsPolicyStep(s, port, proto);
    case SetBlocked(id, blocked) => SwitchIsPolicyStep(s, id, blocked);
    case Restart => RestartIsIdentity(s);
  }

  /** In every run with TCP and UDP only, restarts included, the tables are a policy: each operation acts on it as on a
      map and a set, with the same boolean, and packets are decided by it. */
  lemma {:induction false} RunRefinesPolicy(s: State, ops: seq<Op>)
    requires Sound(s) && Unique(s.rules) && forall op :: op in ops ==> IsPlain(op)
    ensures var s' := Run(s, ops);
            && Unique(s'.rules)
            && PolicyOf(s') == PolicyRun(PolicyOf(s), ops)
            && forall proto, port :: proto == 6 || proto == 17 ==>
                 (IsPortAllowed(s', proto, port) <==> PolicyAllows(PolicyRun(PolicyOf(s), ops), proto, port))
    decreases |ops|
  {
    if ops == [] {
      forall proto, port | proto == TCP || proto == UDP
        ensures IsPortAllowed(s, proto, port) <==> PolicyAllows(PolicyOf(s), proto, port)
      {
        PolicyDecides(s, proto, port);
      }
    } else {
      assert IsPlain(ops[0]);
      StepIsPolicyStep(s, ops[0]);
      StepKeepsSound(s, ops[0]);
      RunRefinesPolicy(Step(s, ops[0]).0, ops[1..]);
    }
  }
}
