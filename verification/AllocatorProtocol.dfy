/** Any number of pods, each with several goroutines, allocating addresses over one
    versioned config map. A goroutine reads, plans and puts in separate steps; the
    goroutines of a pod share one address cache, refreshed in two steps as well. */
module AllocatorProtocol {
  import opened Prelude
  import opened AddressText
  import opened AddressAllocator

  datatype Client = Client(pod: nat, id: nat)

  datatype Phase =
    | Idle
    | Holding(name: string, snapshot: ConfigMap, plan: Plan)  // between the get and the put
    | Refreshing(entries: map<string, string>)                // between the get and the cache assignment

  /** `returned` records every (name, address) pair handed back without an error. */
  datatype System = System(
    cm: ConfigMap,
    phases: map<Client, Phase>,
    caches: map<nat, map<string, string>>,
    returned: set<(string, string)>)

  function PhaseOf(s: System, c: Client): Phase {
    if c in s.phases then s.phases[c] else Idle
  }

  function CacheOf(s: System, pod: nat): map<string, string> {
    if pod in s.caches then s.caches[pod] else map[]
  }

  function Answer(s: System, name: string, address: string): System {
    s.(returned := s.returned + {(name, address)})
  }

  predicate CacheHit(s: System, c: Client, name: string) {
    name in CacheOf(s, c.pod) && CacheOf(s, c.pod)[name] != ""
  }

  datatype Event =
    | Lookup(c: Client, name: string, disabled: bool, disabledAtRead: bool, plan: Plan)  // cache, else get and plan
    | PutAnswered(c: Client)                                       // the put and its response arrive
    | PutResponseLost(c: Client)                                   // the put arrives, the response does not
    | PutFailed(c: Client)                                         // the put never arrives
    | RefreshRead(c: Client)
    | RefreshAssign(c: Client)

  ghost predicate LookupStep(
      s: System, t: System, prefix: string, c: Client, name: string,
      disabled: bool, disabledAtRead: bool, plan: Plan) {
    && PhaseOf(s, c).Idle?
    && if CacheHit(s, c, name) then t == Answer(s, name, CacheOf(s, c.pod)[name])
       else if disabled then t == s
       else
         && Planned(s.cm, name, prefix, disabledAtRead, plan)
         && match plan
            case Existing(a) => t == Answer(s, name, a)
            case Write(_, _) => t == s.(phases := s.phases[c := Holding(name, s.cm, plan)])
            case _ => t == s
  }

  ghost predicate Next(s: System, e: Event, t: System, prefix: string) {
    s.cm.version.Some? &&
    match e
    case Lookup(c, name, disabled, atRead, plan) => LookupStep(s, t, prefix, c, name, disabled, atRead, plan)
    case PutAnswered(c) =>
      && PhaseOf(s, c).Holding? && PhaseOf(s, c).plan.Write?
      && var h := PhaseOf(s, c);
         var idle := s.(phases := s.phases[c := Idle]);
         (match CompareAndSwap(s.cm, h.plan.document)
          case None => t == idle
          case Some(cm) => t == Answer(idle.(cm := cm), h.name, h.plan.address))
    case PutResponseLost(c) =>
      && PhaseOf(s, c).Holding? && PhaseOf(s, c).plan.Write?
      && var idle := s.(phases := s.phases[c := Idle]);
         (match CompareAndSwap(s.cm, PhaseOf(s, c).plan.document)
          case None => t == idle
          case Some(cm) => t == idle.(cm := cm))
    case PutFailed(c) =>
      PhaseOf(s, c).Holding? && t == s.(phases := s.phases[c := Idle])
    case RefreshRead(c) =>
      PhaseOf(s, c).Idle? && s.cm.content.Parsed?
      && t == s.(phases := s.phases[c := Refreshing(s.cm.content.store.entries)])
    case RefreshAssign(c) =>
      PhaseOf(s, c).Refreshing?
      && t == s.(phases := s.phases[c := Idle], caches := s.caches[c.pod := PhaseOf(s, c).entries])
  }

  ghost predicate Init(s: System) {
    && s.cm.version.Some?
    && s.cm.content.Parsed? && Consistent(s.cm.content.store)
    && s.phases == map[] && s.caches == map[] && s.returned == {}
  }

  predicate SubMap(a: map<string, string>, b: map<string, string>) {
    forall n :: n in a ==> n in b && a[n] == b[n]
  }

  /** What one state may become while others run: versions identify contents and
      no entry is ever changed or lost. */
  predicate Evolves(a: ConfigMap, b: ConfigMap) {
    && a.version.Some? && b.version.Some? && a.version.value <= b.version.value
    && (a.version == b.version ==> a == b)
    && a.content.Parsed? && b.content.Parsed?
    && Consistent(a.content.store) && Consistent(b.content.store)
    && SubMap(a.content.store.entries, b.content.store.entries)
    && a.content.store.addresses <= b.content.store.addresses
  }

  ghost predicate PhaseOk(p: Phase, prefix: string, cm: ConfigMap) {
    match p
    case Idle => true
    case Holding(name, snapshot, plan) =>
      && plan.Write? && Evolves(snapshot, cm)
      && name !in snapshot.content.store.entries
      && Planned(snapshot, name, prefix, false, plan)
    case Refreshing(entries) => cm.content.Parsed? && SubMap(entries, cm.content.store.entries)
  }

  ghost predicate Inv(s: System, prefix: string) {
    && Evolves(s.cm, s.cm)
    && (forall c :: c in s.phases ==> PhaseOk(s.phases[c], prefix, s.cm))
    && (forall pod :: pod in s.caches ==> SubMap(s.caches[pod], s.cm.content.store.entries))
    && (forall p :: p in s.returned ==>
         p.0 in s.cm.content.store.entries && s.cm.content.store.entries[p.0] == p.1)
  }

  lemma EvolvesTransitive(a: ConfigMap, b: ConfigMap, c: ConfigMap)
    requires Evolves(a, b) && Evolves(b, c)
    ensures Evolves(a, c)
  {
  }

  /** A swap that succeeds applies a plan made from the very document it replaces. */
  lemma SwapEvolves(cm: ConfigMap, name: string, snapshot: ConfigMap, plan: Plan, prefix: string)
    requires PhaseOk(Holding(name, snapshot, plan), prefix, cm)
    requires CompareAndSwap(cm, plan.document).Some?
    ensures
      var cm' := CompareAndSwap(cm, plan.document).value;
      && Evolves(cm, cm')
      && snapshot == cm
      && cm'.content == Parsed(WithEntry(cm.content.store, name, plan.address))
      && plan.address !in cm.content.store.addresses
  {
    var s := snapshot.content.store;
    var rank :| IsFirstFree(prefix, s.addresses, StartRank(|s.addresses|), rank)
                && plan.Write? && plan.address == Candidate(prefix, rank)
                && plan.document == snapshot.(content := Parsed(WithEntry(s, name, Candidate(prefix, rank))));
    WithEntryConsistent(s, name, plan.address);
  }

  /** Growth of the config map keeps every client's and every pod's knowledge valid. */
  lemma InvGrows(s: System, cm: ConfigMap, prefix: string)
    requires Inv(s, prefix) && Evolves(s.cm, cm)
    ensures Inv(s.(cm := cm), prefix)
  {
    forall c | c in s.phases
      ensures PhaseOk(s.phases[c], prefix, cm)
    {
      assert PhaseOk(s.phases[c], prefix, s.cm);
      if s.phases[c].Holding? {
        EvolvesTransitive(s.phases[c].snapshot, s.cm, cm);
      }
    }
  }

  lemma NextKeepsInv(s: System, e: Event, t: System, prefix: string)
    requires Inv(s, prefix) && Next(s, e, t, prefix)
    ensures Inv(t, prefix) && Evolves(s.cm, t.cm) && s.returned <= t.returned
  {
    match e
    case Lookup(c, name, disabled, atRead, plan) =>
      LookupKeepsInv(s, t, prefix, c, name, disabled, atRead, plan);
    case PutAnswered(c) =>
      SwapKeepsInv(s, c, prefix);
    case PutResponseLost(c) =>
      SwapKeepsInv(s, c, prefix);
    case PutFailed(c) =>
    case RefreshRead(c) =>
    case RefreshAssign(c) =>
      assert PhaseOk(s.phases[c], prefix, s.cm);
  }

  lemma LookupKeepsInv(
      s: System, t: System, prefix: string, c: Client, name: string,
      disabled: bool, atRead: bool, plan: Plan)
    requires Inv(s, prefix) && LookupStep(s, t, prefix, c, name, disabled, atRead, plan)
    ensures Inv(t, prefix) && t.cm == s.cm && s.returned <= t.returned
  {
    if CacheHit(s, c, name) {
      assert SubMap(s.caches[c.pod], s.cm.content.store.entries);
    }
  }

  lemma SwapKeepsInv(s: System, c: Client, prefix: string)
    requires Inv(s, prefix) && PhaseOf(s, c).Holding? && PhaseOf(s, c).plan.Write?
    ensures
      var h := PhaseOf(s, c);
      var idle := s.(phases := s.phases[c := Idle]);
      && Inv(idle, prefix)
      && match CompareAndSwap(s.cm, h.plan.document)
         case None => true
         case Some(cm) =>
           && Evolves(s.cm, cm)
           && Inv(idle.(cm := cm), prefix)
           && Inv(Answer(idle.(cm := cm), h.name, h.plan.address), prefix)
  {
    var h := PhaseOf(s, c);
    assert PhaseOk(h, prefix, s.cm);
    var idle := s.(phases := s.phases[c := Idle]);
    if CompareAndSwap(s.cm, h.plan.document).Some? {
      SwapEvolves(s.cm, h.name, h.snapshot, h.plan, prefix);
      InvGrows(idle, CompareAndSwap(s.cm, h.plan.document).value, prefix);
    }
  }

  ghost predicate IsRun(states: seq<System>, events: seq<Event>, prefix: string) {
    && |states| == |events| + 1
    && Init(states[0])
    && forall i :: 0 <= i < |events| ==> Next(states[i], events[i], states[i + 1], prefix)
  }

  lemma {:induction false} RunInv(states: seq<System>, events: seq<Event>, prefix: string, i: nat)
    requires IsRun(states, events, prefix) && i < |states|
    ensures Inv(states[i], prefix)
  {
    if i > 0 {
      RunInv(states, events, prefix, i - 1);
      NextKeepsInv(states[i - 1], events[i - 1], states[i], prefix);
    }
  }

  /** Between any two moments of any run the document only grows: no name ever
      changes its address and the address list is only appended to. */
  lemma {:induction false} RunEvolves(states: seq<System>, events: seq<Event>, prefix: string, i: nat, j: nat)
    requires IsRun(states, events, prefix) && i <= j < |states|
    ensures Evolves(states[i].cm, states[j].cm) && states[i].returned <= states[j].returned
    decreases j
  {
    RunInv(states, events, prefix, i);
    if i < j {
      RunEvolves(states, events, prefix, i, j - 1);
      RunInv(states, events, prefix, j - 1);
      NextKeepsInv(states[j - 1], events[j - 1], states[j], prefix);
    }
  }

  /** Main result: whatever the interleaving, at whatever moments and in whatever pods
      two lookups are answered, they agree on the address exactly when they ask for
      the same name. */
  lemma AnswersAreInjective(
      states: seq<System>, events: seq<Event>, prefix: string,
      i: nat, j: nat, p: (string, string), q: (string, string))
    requires IsRun(states, events, prefix) && i < |states| && j < |states|
    requires p in states[i].returned && q in states[j].returned
    ensures p.0 == q.0 <==> p.1 == q.1
  {
    var last := |states| - 1;
    RunEvolves(states, events, prefix, i, last);
    RunEvolves(states, events, prefix, j, last);
    RunInv(states, events, prefix, last);
  }

  /** From an empty document, every run stores exactly the guesses: the i-th address is
      "<prefix>.<i/255+10>.<i%255+1>". */
  lemma {:induction false} RunInClosedForm(states: seq<System>, events: seq<Event>, prefix: string, i: nat)
    requires IsRun(states, events, prefix) && i < |states|
    requires states[0].cm.content == Parsed(EMPTY_STORE)
    ensures states[i].cm.content.Parsed? && InClosedForm(prefix, states[i].cm.content.store)
    ensures
      var addresses := states[i].cm.content.store.addresses;
      forall k :: 0 <= k < |addresses| ==> Spells(addresses[k], prefix, k / 255 + 10, k % 255 + 1)
  {
    forall k: nat
      ensures Spells(Address(prefix, k / 255 + 10, k % 255 + 1), prefix, k / 255 + 10, k % 255 + 1)
    {
      AddressSpells(prefix, k / 255 + 10, k % 255 + 1);
    }
    if i > 0 {
      RunInClosedForm(states, events, prefix, i - 1);
      RunInv(states, events, prefix, i - 1);
      var s, e := states[i - 1], events[i - 1];
      assert Next(s, e, states[i], prefix);
      if e.PutAnswered? || e.PutResponseLost? {
        var h := PhaseOf(s, e.c);
        assert PhaseOk(h, prefix, s.cm);
        if CompareAndSwap(s.cm, h.plan.document).Some? {
          SwapEvolves(s.cm, h.name, h.snapshot, h.plan, prefix);
          var st := s.cm.content.store;
          var rank :| IsFirstFree(prefix, st.addresses, StartRank(|st.addresses|), rank)
                      && h.plan.address == Candidate(prefix, rank);
          ClosedFormStep(prefix, st, h.name, rank);
        }
      }
    }
  }

  // ----- one goroutine's retry loop, with everybody else as interference --------------

  /** `stored` is the document at the API server, `cache` the pod's own copy of the names. */
  class AddressClient {
    var stored: ConfigMap
    var cache: map<string, string>

    ghost predicate Valid() reads this {
      Evolves(stored, stored) && SubMap(cache, stored.content.store.entries)
    }

    /** Whatever other clients do meanwhile. */
    method OthersRun()
      requires Valid()
      modifies this`stored
      ensures Valid() && Evolves(old(stored), stored)
    {
      var later: ConfigMap := *;
      if Evolves(stored, later) {
        stored := later;
      }
    }

    /** One fetch-and-update. The put may be lost on the way, or its response may be. */
    method GenerateNewAddress(name: string, prefix: string, disabled: bool) returns (address: string, failed: bool)
      requires Valid()
      modifies this`stored
      ensures Valid() && Evolves(old(stored), stored)
      ensures failed ==> address == ""
      ensures !failed ==>
        || (name in stored.content.store.entries && stored.content.store.entries[name] == address)
        || (disabled && address == "")
    {
      OthersRun();
      var unreachable: bool := *;
      if unreachable {
        return "", true;
      }
      var snapshot := stored;
      var plan := PlanAddress(snapshot, name, prefix, disabled);
      OthersRun();
      match plan
      case Refused => return "", true;
      case Existing(a) => return a, false;
      case NoAddress => return "", false;
      case Write(a, document) =>
        var arrives: bool := *;
        var answered: bool := *;
        if arrives {
          var swapped := CompareAndSwap(stored, document);
          if swapped.Some? {
            assert PhaseOk(Holding(name, snapshot, plan), prefix, stored);
            SwapEvolves(stored, name, snapshot, plan, prefix);
            stored := swapped.value;
            if answered {
              return a, false;
            }
          }
        }
        return "", true;
    }

    /** Reads the store again and replaces the cache by what it read, in two steps. */
    method RefreshCache(readable: bool)
      requires Valid()
      modifies this
      ensures Valid() && Evolves(old(stored), stored)
      ensures if readable then SubMap(old(stored.content.store.entries), cache) else cache == old(cache)
    {
      OthersRun();
      if readable {
        var entries := stored.content.store.entries;
        OthersRun();
        cache := entries;
      }
    }

    /** Up to three attempts. An address handed back is the one stored for the name,
        whatever the other clients did in between and however old the cache is. `attempts`
        counts the fetch-and-updates, `readable` says whether the refresh can read the store. */
    method GetUniqueAddress(name: string, prefix: string, disabled: bool, readable: bool)
      returns (r: Option<string>, attempts: nat)
      requires Valid()
      modifies this
      ensures Valid() && Evolves(old(stored), stored)
      ensures r == None ==> attempts == 3
      ensures if attempts > 0 && r.Some? && readable then name in cache && cache[name] == r.value else cache == old(cache)
      ensures r.Some? ==>
        || (name in stored.content.store.entries && stored.content.store.entries[name] == r.value)
        || (disabled && r.value == "")
      ensures SubMap(old(cache), old(stored.content.store.entries)) && name in old(cache) && old(cache)[name] != "" ==>
        r == Some(old(cache)[name]) && cache == old(cache) && stored == old(stored)
    {
      var counter, address, failed, needsCacheUpdate := 0, "", false, false;
      attempts := 0;
      while counter < 3
        invariant 0 <= counter <= 3
        invariant Valid() && Evolves(old(stored), stored) && cache == old(cache)
        invariant counter == 0 ==> stored == old(stored) && !failed
        invariant counter == 0 || !(name in cache && cache[name] != "")
        invariant failed || counter == 0 ||
                  (name in stored.content.store.entries && stored.content.store.entries[name] == address) ||
                  (disabled && address == "")
        invariant !disabled ==> attempts == counter && (counter > 0 ==> needsCacheUpdate)
        invariant disabled ==> counter == 0 && attempts == 0
        invariant attempts == 0 ==> counter == 0 && !needsCacheUpdate
      {
        needsCacheUpdate := false;
        if name in cache && cache[name] != "" {
          address, failed := cache[name], false;
        } else if disabled {
          address, failed := "", false;
        } else {
          address, failed := GenerateNewAddress(name, prefix, disabled);
          attempts := attempts + 1;
          needsCacheUpdate := true;
        }
        if address != "" || (!failed && disabled) {
          break;
        }
        counter := counter + 1;
      }
      if failed {
        return None, attempts;
      }
      r := Some(address);
      if needsCacheUpdate {
        RefreshCache(readable);
      }
    }
  }
}
