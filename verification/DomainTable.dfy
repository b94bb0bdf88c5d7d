/** The blocked-domain table as a value: what every operation does to RAM and flash, and the sets it stands for. */
module DomainTable {
  import opened Bytes
  import opened Labels
  import opened DomainMatcher

  const MAX_BLOCKED_DOMAINS := 50

  datatype BlockedDomain = BlockedDomain(domain: cstring, active: bool)

  const BLANK := BlockedDomain([], false)

  /** `blocked_domains`, `blocked_domain_count` and the "blocked_domains" blob, if one was ever written. */
  datatype Table = Table(entries: seq<BlockedDomain>, count: nat, flash: Option<seq<BlockedDomain>>)

  function Blanks(): (s: seq<BlockedDomain>)
    ensures |s| == MAX_BLOCKED_DOMAINS && forall i :: 0 <= i < |s| ==> s[i] == BLANK
  {
    seq(MAX_BLOCKED_DOMAINS, _ => BLANK)
  }

  const FACTORY := Table(Blanks(), 0, None)

  /** `None` stands for a null pointer. */
  datatype Op = Add(domain: Option<cstring>) | Remove(domain: Option<cstring>) | Reboot

  datatype Outcome = Refused | Reactivated | Appended | Removed | Restarted

  /** First counted entry with this name, ignoring case; `count` if there is none. */
  function Find(entries: seq<BlockedDomain>, from: nat, count: nat, name: cstring): (i: nat)
    requires from <= count <= |entries|
    ensures from <= i <= count
    ensures i < count ==> Fold(entries[i].domain) == Fold(name)
    ensures forall j :: from <= j < i ==> Fold(entries[j].domain) != Fold(name)
    decreases count - from
  {
    if from == count then count
    else if Fold(entries[from].domain) == Fold(name) then from
    else Find(entries, from + 1, count, name)
  }

  /** The count taken at start-up: one past the last active, non-empty entry. */
  function Recount(entries: seq<BlockedDomain>, n: nat): (count: nat)
    requires n <= |entries|
    ensures count <= n
    ensures count > 0 ==> entries[count - 1].active && entries[count - 1].domain != []
    ensures forall i :: count <= i < n ==> !(entries[i].active && entries[i].domain != [])
  {
    if n == 0 then 0
    else if entries[n - 1].active && entries[n - 1].domain != [] then n
    else Recount(entries, n - 1)
  }

  predicate WellShaped(t: Table) {
    |t.entries| == MAX_BLOCKED_DOMAINS && t.count <= MAX_BLOCKED_DOMAINS
    && (t.flash.Some? ==> |t.flash.value| == MAX_BLOCKED_DOMAINS)
  }

  function Step(t: Table, op: Op): (Table, Outcome)
    requires WellShaped(t)
  {
    match op
    case Add(None) => (t, Refused)
    case Add(Some(name)) =>
      if name == [] || |name| >= MAX_DOMAIN_LENGTH then (t, Refused)
      else
        var i := Find(t.entries, 0, t.count, name);
        if i < t.count then
          (t.(entries := t.entries[i := t.entries[i].(active := true)]), Reactivated)
        else if t.count < MAX_BLOCKED_DOMAINS then
          var entries := t.entries[t.count := BlockedDomain(name, true)];
          (Table(entries, t.count + 1, Some(entries)), Appended)
        else
          (t, Refused)
    case Remove(None) => (t, Refused)
    case Remove(Some(name)) =>
      if name == [] then (t, Refused)
      else
        var i := Find(t.entries, 0, t.count, name);
        if i < t.count then
          var entries := t.entries[i := t.entries[i].(active := false)];
          (t.(entries := entries, flash := Some(entries)), Removed)
        else
          (t, Refused)
    case Reboot =>
      var entries := if t.flash.Some? then t.flash.value else Blanks();
      (Table(entries, if t.flash.Some? then Recount(entries, MAX_BLOCKED_DOMAINS) else 0, t.flash), Restarted)
  }

  /** Counted entries are pairwise distinct ignoring case and fit their field. */
  ghost predicate DistinctBelow(entries: seq<BlockedDomain>, count: nat)
    requires count <= |entries|
  {
    && (forall i :: 0 <= i < count ==> 0 < |entries[i].domain| < MAX_DOMAIN_LENGTH)
    && (forall i, j :: 0 <= i < j < count ==> Fold(entries[i].domain) != Fold(entries[j].domain))
  }

  /** What every run keeps: uncounted entries are inactive, and flash differs from RAM only where
      RAM has an entry active that flash has inactive. */
  ghost predicate Sound(t: Table) {
    && WellShaped(t)
    && DistinctBelow(t.entries, t.count)
    && (forall i :: t.count <= i < MAX_BLOCKED_DOMAINS ==> !t.entries[i].active)
    && match t.flash
       case None => t.count == 0
       case Some(image) =>
         forall i :: 0 <= i < MAX_BLOCKED_DOMAINS ==>
           image[i].domain == t.entries[i].domain && (image[i].active ==> t.entries[i].active)
  }

  ghost function Names(entries: seq<BlockedDomain>, n: nat): set<seq<byte>>
    requires n <= |entries|
  {
    set i | 0 <= i < n :: Fold(entries[i].domain)
  }

  ghost function ActiveNames(entries: seq<BlockedDomain>, n: nat): set<seq<byte>>
    requires n <= |entries|
  {
    set i | 0 <= i < n && entries[i].active :: Fold(entries[i].domain)
  }

  /** The table as its callers see it, in folded names: those that count against the limit, in order,
      those blocked now, and those blocked after a restart. */
  datatype Blocklist = Blocklist(known: seq<seq<byte>>, active: set<seq<byte>>, saved: set<seq<byte>>)

  ghost function Known(entries: seq<BlockedDomain>, n: nat): (known: seq<seq<byte>>)
    requires n <= |entries|
    ensures |known| == n && forall i :: 0 <= i < n ==> known[i] == Fold(entries[i].domain)
  {
    seq(n, i requires 0 <= i < n => Fold(entries[i].domain))
  }

  ghost function View(t: Table): Blocklist
    requires WellShaped(t)
  {
    Blocklist(Known(t.entries, t.count), ActiveNames(t.entries, t.count),
              if t.flash.None? then {} else ActiveNames(t.flash.value, MAX_BLOCKED_DOMAINS))
  }

  /** A list up to its last element in the set. */
  ghost function Trim<T>(known: seq<T>, kept: set<T>): (front: seq<T>)
    ensures front <= known && forall x :: x in known[|front|..] ==> x !in kept
    ensures front != [] ==> front[|front| - 1] in kept
  {
    if known == [] || known[|known| - 1] in kept then known else Trim(known[..|known| - 1], kept)
  }

  /** What the operations do, from the names alone: insert and delete, written out on every change except when a
      known name is switched on; a restart keeps the saved names, and forgets those known after the last of them. */
  ghost function BlocklistStep(b: Blocklist, op: Op): (Blocklist, Outcome) {
    match op
    case Add(Some(name)) =>
      var key := Fold(name);
      if !(0 < |name| <= 127) then (b, Refused)
      else if key in b.known then (b.(active := b.active + {key}), Reactivated)
      else if |b.known| < 50 then
        (Blocklist(b.known + [key], b.active + {key}, b.active + {key}), Appended)
      else (b, Refused)
    case Remove(Some(name)) =>
      var key := Fold(name);
      if key in b.known then (Blocklist(b.known, b.active - {key}, b.active - {key}), Removed) else (b, Refused)
    case Reboot => (Blocklist(Trim(b.known, b.saved), b.saved, b.saved), Restarted)
    case _ => (b, Refused)
  }

  lemma ActivateName(entries: seq<BlockedDomain>, count: nat, i: nat)
    requires i < count <= |entries| && DistinctBelow(entries, count)
    ensures var on, off := entries[i := entries[i].(active := true)], entries[i := entries[i].(active := false)];
            && ActiveNames(on, count) == ActiveNames(entries, count) + {Fold(entries[i].domain)}
            && ActiveNames(off, count) == ActiveNames(entries, count) - {Fold(entries[i].domain)}
  {
    var name := Fold(entries[i].domain);
    var on, off := entries[i := entries[i].(active := true)], entries[i := entries[i].(active := false)];
    forall x | x in ActiveNames(entries, count) + {name}
      ensures x in ActiveNames(on, count)
    {
      if x == name {
        assert on[i].active;
      } else {
        var j :| 0 <= j < count && entries[j].active && Fold(entries[j].domain) == x;
        assert on[j] == entries[j];
      }
    }
    forall x | x in ActiveNames(entries, count) - {name}
      ensures x in ActiveNames(off, count)
    {
      var j :| 0 <= j < count && entries[j].active && Fold(entries[j].domain) == x;
      assert off[j] == entries[j];
    }
  }

  lemma AppendName(entries: seq<BlockedDomain>, count: nat, name: cstring)
    requires count < |entries|
    ensures var entries' := entries[count := BlockedDomain(name, true)];
            ActiveNames(entries', count + 1) == ActiveNames(entries, count) + {Fold(name)}
  {
    var entries' := entries[count := BlockedDomain(name, true)];
    assert entries'[count].active;
    forall x | x in ActiveNames(entries, count)
      ensures x in ActiveNames(entries', count + 1)
    {
      var j :| 0 <= j < count && entries[j].active && Fold(entries[j].domain) == x;
      assert entries'[j] == entries[j];
    }
  }

  /** Entries that are inactive add nothing. */
  lemma ActiveNamesBelow(entries: seq<BlockedDomain>, n: nat, m: nat)
    requires n <= m <= |entries|
    requires forall i :: n <= i < m ==> !entries[i].active
    ensures ActiveNames(entries, n) == ActiveNames(entries, m)
  {
  }

  lemma AddKeepsSound(t: Table, name: cstring)
    requires Sound(t)
    ensures Sound(Step(t, Add(Some(name))).0)
  {
  }

  lemma RemoveKeepsSound(t: Table, name: cstring)
    requires Sound(t)
    ensures Sound(Step(t, Remove(Some(name))).0)
  {
  }

  lemma RebootKeepsSound(t: Table)
    requires Sound(t)
    ensures Sound(Step(t, Reboot).0)
  {
  }

  /** Every operation keeps the invariant. */
  lemma StepKeepsSound(t: Table, op: Op)
    requires Sound(t)
    ensures Sound(Step(t, op).0)
  {
    match op
    case Add(Some(name)) => AddKeepsSound(t, name);
    case Remove(Some(name)) => RemoveKeepsSound(t, name);
    case Reboot => RebootKeepsSound(t);
    case _ =>
  }

  /** The scan finds an entry exactly when the name is known. */
  lemma FindsKnown(t: Table, name: cstring)
    requires Sound(t)
    ensures Find(t.entries, 0, t.count, name) < t.count <==> Fold(name) in View(t).known
  {
    var i := Find(t.entries, 0, t.count, name);
    if i < t.count {
      assert View(t).known[i] == Fold(name);
    }
  }

  /** A name is known exactly when some counted entry differs from it in case at most. */
  lemma KnownIgnoringCase(t: Table, name: cstring)
    requires Sound(t)
    ensures Fold(name) in View(t).known <==> exists i :: 0 <= i < t.count && SameIgnoringCase(t.entries[i].domain, name)
  {
    assert WellShaped(t);
    hide Fold, SameIgnoringCase, Sound;
    forall i | 0 <= i < t.count
      ensures View(t).known[i] == Fold(name) <==> SameIgnoringCase(t.entries[i].domain, name)
    {
      FoldedAlike(t.entries[i].domain, name);
    }
  }

  lemma AddRefines(t: Table, name: cstring)
    requires Sound(t)
    ensures var (t', outcome) := Step(t, Add(Some(name)));
            BlocklistStep(View(t), Add(Some(name))) == (View(t'), outcome)
  {
    FindsKnown(t, name);
    var (t', outcome) := Step(t, Add(Some(name)));
    if outcome == Reactivated {
      ActivateName(t.entries, t.count, Find(t.entries, 0, t.count, name));
      assert View(t').known == View(t).known;
    } else if outcome == Appended {
      AppendName(t.entries, t.count, name);
      ActiveNamesBelow(t'.entries, t'.count, MAX_BLOCKED_DOMAINS);
      assert View(t').known == View(t).known + [Fold(name)];
    }
  }

  lemma RemoveRefines(t: Table, name: cstring)
    requires Sound(t)
    ensures var (t', outcome) := Step(t, Remove(Some(name)));
            BlocklistStep(View(t), Remove(Some(name))) == (View(t'), outcome)
  {
    FindsKnown(t, name);
    var (t', outcome) := Step(t, Remove(Some(name)));
    if outcome == Removed {
      ActivateName(t.entries, t.count, Find(t.entries, 0, t.count, name));
      ActiveNamesBelow(t'.entries, t'.count, MAX_BLOCKED_DOMAINS);
      assert View(t').known == View(t).known;
    } else if name == [] {
      assert forall i :: 0 <= i < t.count ==> |View(t).known[i]| == |t.entries[i].domain|;
    }
  }

  lemma {:induction false} TrimIsRecount(image: seq<BlockedDomain>, n: nat, saved: set<seq<byte>>)
    requires n <= |image|
    requires forall i :: 0 <= i < n ==> image[i].domain != [] && (image[i].active <==> Fold(image[i].domain) in saved)
    ensures Known(image, Recount(image, n)) == Trim(Known(image, n), saved)
  {
    if n > 0 && !image[n - 1].active {
      TrimIsRecount(image, n - 1, saved);
      assert Known(image, n)[..n - 1] == Known(image, n - 1);
    }
  }

  lemma RecountBelow(image: seq<BlockedDomain>, n: nat, m: nat)
    requires n <= m <= |image|
    requires forall i :: n <= i < m ==> !image[i].active
    ensures Recount(image, m) == Recount(image, n)
  {
  }

  /** In flash, an entry that counts is active exactly when its name is saved. */
  lemma SavedIsActiveInFlash(t: Table, i: nat)
    requires Sound(t) && t.flash.Some? && i < t.count
    ensures t.flash.value[i].active <==> Fold(t.entries[i].domain) in View(t).saved
  {
  }

  /** What the count taken at start-up leaves of the saved table. */
  lemma CountedAtStart(t: Table)
    requires Sound(t) && t.flash.Some?
    ensures var image := t.flash.value;
            var count := Recount(image, MAX_BLOCKED_DOMAINS);
            && count <= t.count
            && Known(image, count) == Trim(View(t).known, View(t).saved)
            && ActiveNames(image, count) == View(t).saved
  {
    var image := t.flash.value;
    assert forall i :: 0 <= i < MAX_BLOCKED_DOMAINS ==> image[i].active ==> i < t.count && image[i].domain != [];
    ActiveNamesBelow(image, Recount(image, MAX_BLOCKED_DOMAINS), MAX_BLOCKED_DOMAINS);
    forall i | 0 <= i < t.count
      ensures image[i].domain != [] && (image[i].active <==> Fold(image[i].domain) in View(t).saved)
    {
      SavedIsActiveInFlash(t, i);
    }
    assert Known(image, t.count) == View(t).known;
    RecountBelow(image, t.count, MAX_BLOCKED_DOMAINS);
    TrimIsRecount(image, t.count, View(t).saved);
  }

  lemma RebootRefines(t: Table)
    requires Sound(t)
    ensures BlocklistStep(View(t), Reboot) == (View(Step(t, Reboot).0), Restarted)
    ensures Step(t, Reboot).0.count <= t.count
    ensures var t' := Step(t, Reboot).0;
            && t'.entries == (if t.flash.Some? then t.flash.value else Blanks())
            && (t'.count > 0 ==> t'.entries[t'.count - 1].active)
            && (forall i :: t'.count <= i < 50 ==> !t'.entries[i].active)
  {
    if t.flash.Some? {
      CountedAtStart(t);
      hide Sound, Known, ActiveNames, Recount, Trim;
      assert BlocklistStep(View(t), Reboot).0 == View(Step(t, Reboot).0);
    } else {
      assert Known(Blanks(), 0) == Known(t.entries, 0) == [];
      assert ActiveNames(Blanks(), 0) == {};
    }
  }

  /** Every operation keeps the invariant and does what the blocklist says, with the outcome that it says. */
  lemma StepRefines(t: Table, op: Op)
    requires Sound(t)
    ensures Sound(Step(t, op).0)
    ensures BlocklistStep(View(t), op) == (View(Step(t, op).0), Step(t, op).1)
  {
    StepKeepsSound(t, op);
    hide Sound, View;
    match op
    case Add(Some(name)) => AddRefines(t, name);
    case Remove(Some(name)) => RemoveRefines(t, name);
    case Reboot => RebootRefines(t);
    case _ =>
  }

  /** Each counted entry has a name of its own. */
  lemma {:induction false} CountedNames(entries: seq<BlockedDomain>, n: nat)
    requires n <= |entries| && DistinctBelow(entries, n)
    ensures |Names(entries, n)| == n
  {
    if n > 0 {
      CountedNames(entries, n - 1);
      var last := Fold(entries[n - 1].domain);
      assert last !in Names(entries, n - 1);
      assert Names(entries, n) == Names(entries, n - 1) + {last};
    } else {
      assert Names(entries, 0) == {};
    }
  }

  /** When the operations are refused: an add for a bad argument, or for a new name with all slots counted;
      a remove for an empty argument or an unknown name. */
  lemma WhenRefused(t: Table, name: cstring)
    requires Sound(t)
    ensures var known := Fold(name) in Names(t.entries, t.count);
            var valid := 0 < |name| <= 127;
            && (Step(t, Add(Some(name))).1 == Refused
                <==> !valid || (!known && |Names(t.entries, t.count)| == 50))
            && (Step(t, Add(Some(name))).1 == Reactivated <==> valid && known)
            && (Step(t, Remove(Some(name))).1 == Refused <==> !known)
    ensures forall op :: Step(t, op).1 == Refused ==> Step(t, op).0 == t
  {
    CountedNames(t.entries, t.count);
    var i := Find(t.entries, 0, t.count, name);
    if Fold(name) in Names(t.entries, t.count) {
      var j :| 0 <= j < t.count && Fold(t.entries[j].domain) == Fold(name);
      assert i <= j;
      assert |Fold(name)| == |name| == |t.entries[j].domain|;
    }
    if i < t.count {
      assert Fold(t.entries[i].domain) in Names(t.entries, t.count);
    }
  }

  function Run(t: Table, ops: seq<Op>): (r: (Table, seq<Outcome>))
    requires WellShaped(t)
    ensures WellShaped(r.0) && |r.1| == |ops|
    decreases |ops|
  {
    if ops == [] then (t, [])
    else
      var (t', outcome) := Step(t, ops[0]);
      var (last, outcomes) := Run(t', ops[1..]);
      (last, [outcome] + outcomes)
  }

  lemma RunCons(t: Table, op: Op, ops: seq<Op>)
    requires WellShaped(t)
    ensures Run(t, [op] + ops).0 == Run(Step(t, op).0, ops).0
  {
  }

  ghost function BlocklistRun(b: Blocklist, ops: seq<Op>): (r: (Blocklist, seq<Outcome>))
    ensures |r.1| == |ops|
    decreases |ops|
  {
    if ops == [] then (b, [])
    else
      var (b', outcome) := BlocklistStep(b, ops[0]);
      var (last, outcomes) := BlocklistRun(b', ops[1..]);
      (last, [outcome] + outcomes)
  }

  const EMPTY_LIST := Blocklist([], {}, {})

  lemma FactoryIsSound()
    ensures Sound(FACTORY) && View(FACTORY) == EMPTY_LIST
  {
  }

  /** Every run keeps the invariant, is a run of the blocklist with the same outcomes,
      and leaves flash holding a subset of RAM. */
  lemma {:induction false} RunRefines(t: Table, ops: seq<Op>)
    requires Sound(t)
    ensures Sound(Run(t, ops).0)
    ensures BlocklistRun(View(t), ops) == (View(Run(t, ops).0), Run(t, ops).1)
    ensures View(Run(t, ops).0).saved <= View(Run(t, ops).0).active
    decreases |ops|
  {
    if ops == [] {
      SavedIsSubset(t);
    } else {
      StepRefines(t, ops[0]);
      RunRefines(Step(t, ops[0]).0, ops[1..]);
    }
  }

  /** After any run from the factory, a name is blocked exactly when the blocklist holds a name that covers it. */
  lemma RunDecides(ops: seq<Op>, query: cstring)
    ensures var t := Run(FACTORY, ops).0;
            Blocks(t.entries, t.count, query)
            <==> query != []
                 && exists name :: name in BlocklistRun(EMPTY_LIST, ops).0.active && Covers(name, Truncate(query))
  {
    FactoryIsSound();
    RunRefines(FACTORY, ops);
    var t := Run(FACTORY, ops).0;
    BlocksIsActiveNameCovers(t.entries, t.count, query);
  }

  lemma SavedIsSubset(t: Table)
    requires Sound(t)
    ensures View(t).saved <= View(t).active
  {
  }

  /** `is_domain_blocked` on a non-null name. */
  ghost predicate Blocks(entries: seq<BlockedDomain>, n: nat, query: cstring)
    requires n <= |entries|
  {
    query != [] && exists i :: 0 <= i < n && entries[i].active && Matches(entries[i].domain, query)
  }

  lemma CoversIgnoresCase(pattern: seq<byte>, query: seq<byte>)
    ensures Covers(Fold(pattern), query) <==> Covers(pattern, query)
  {
    CoversFolded(pattern, query);
    CoversFolded(Fold(pattern), query);
    assert Fold(Fold(pattern)) == Fold(pattern);
  }

  /** The verdict depends on the set of active names alone. */
  lemma BlocksIsActiveNameCovers(entries: seq<BlockedDomain>, n: nat, query: cstring)
    requires n <= |entries|
    requires forall i :: 0 <= i < n && entries[i].active ==> |entries[i].domain| < MAX_DOMAIN_LENGTH
    ensures Blocks(entries, n, query)
       <==> query != [] && exists name :: name in ActiveNames(entries, n) && Covers(name, Truncate(query))
  {
    if Blocks(entries, n, query) {
      var i :| 0 <= i < n && entries[i].active && Matches(entries[i].domain, query);
      CoversIgnoresCase(entries[i].domain, Truncate(query));
      assert Fold(entries[i].domain) in ActiveNames(entries, n);
    }
    if name :| name in ActiveNames(entries, n) && Covers(name, Truncate(query)) {
      var i :| 0 <= i < n && entries[i].active && Fold(entries[i].domain) == name;
      CoversIgnoresCase(entries[i].domain, Truncate(query));
      assert Matches(entries[i].domain, query);
    }
  }

  /** A restart gives exactly the verdicts of the flash image, however far the count shrinks. */
  lemma ReloadKeepsVerdicts(t: Table, query: cstring)
    requires Sound(t) && t.flash.Some?
    ensures var t' := Step(t, Reboot).0;
            Blocks(t'.entries, t'.count, query) <==> Blocks(t.flash.value, MAX_BLOCKED_DOMAINS, query)
  {
  }

  /** A name that an add leaves blocked is still blocked after a restart exactly when flash had it before,
      or the add found no entry for it: the branch that switches a known entry on does not write flash. */
  lemma AddSurvivesRestart(t: Table, name: cstring)
    requires Sound(t) && Step(t, Add(Some(name))).1 != Refused
    ensures var t1 := Step(t, Add(Some(name))).0;
            && Fold(name) in View(t1).active
            && (Fold(name) in View(Step(t1, Reboot).0).active
                <==> Fold(name) in View(t).saved || Fold(name) !in View(t).known)
  {
    StepRefines(t, Add(Some(name)));
    StepRefines(Step(t, Add(Some(name))).0, Reboot);
  }

  /** Such a run exists: add, remove and add again one name, restart, and it is no longer blocked. */
  lemma ReactivationIsLost(name: cstring)
    requires 0 < |name| < MAX_DOMAIN_LENGTH
    ensures var ops := [Add(Some(name)), Remove(Some(name)), Add(Some(name))];
            && Fold(name) in View(Run(FACTORY, ops).0).active
            && Fold(name) !in View(Run(FACTORY, ops).0).saved
  {
    FactoryIsSound();
    var t1, t2 := Step(FACTORY, Add(Some(name))).0, Step(Step(FACTORY, Add(Some(name))).0, Remove(Some(name))).0;
    StepRefines(FACTORY, Add(Some(name)));
    StepRefines(t1, Remove(Some(name)));
    StepRefines(t2, Add(Some(name)));
    var rest := [Remove(Some(name)), Add(Some(name))];
    RunCons(t2, Add(Some(name)), []);
    assert [Add(Some(name))] + [] == [Add(Some(name))];
    RunCons(t1, Remove(Some(name)), [Add(Some(name))]);
    assert [Remove(Some(name))] + [Add(Some(name))] == rest;
    RunCons(FACTORY, Add(Some(name)), rest);
    assert [Add(Some(name))] + rest == [Add(Some(name)), Remove(Some(name)), Add(Some(name))];
    assert t1.entries[0].domain == name && t2.entries[0].domain == name;
  }
}
