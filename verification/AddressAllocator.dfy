/** Textual service-entry addresses: "<prefix>.<second>.<first>" with decimal octets. */
module AddressText {

  function Digit(d: nat): char
    requires d < 10
  {
    '0' + d as char
  }

  function Itoa(n: nat): (s: string)
    ensures |s| > 0
  {
    if n < 10 then [Digit(n)] else Itoa(n / 10) + [Digit(n % 10)]
  }

  lemma {:induction false} ItoaHasNoDot(n: nat)
    ensures '.' !in Itoa(n)
  {
    if n >= 10 {
      ItoaHasNoDot(n / 10);
    }
  }

  lemma {:induction false} ItoaInjective(a: nat, b: nat)
    requires Itoa(a) == Itoa(b)
    ensures a == b
  {
    var s := Itoa(a);
    assert s[|s| - 1] == Digit(a % 10) == Digit(b % 10);
    if a >= 10 && b >= 10 {
      assert Itoa(a / 10) == s[..|s| - 1] == Itoa(b / 10);
      ItoaInjective(a / 10, b / 10);
    }
  }

  function Address(prefix: string, second: nat, first: nat): string {
    prefix + "." + Itoa(second) + "." + Itoa(first)
  }

  // ----- reading the texts back ---------------------------------------------------------------------

  predicate Digits(s: string) {
    s != "" && forall i :: 0 <= i < |s| ==> '0' <= s[i] <= '9'
  }

  /** The number a text of digits stands for. */
  function Read(s: string): nat
    requires forall i :: 0 <= i < |s| ==> '0' <= s[i] <= '9'
  {
    if s == "" then 0 else 10 * Read(s[..|s| - 1]) + (s[|s| - 1] as int - '0' as int)
  }

  /** `s` is the decimal text of `n`, without leading zeros. */
  predicate IsDecimal(s: string, n: nat) {
    Digits(s) && Read(s) == n && (s[0] == '0' ==> |s| == 1)
  }

  lemma {:induction false} ItoaIsDecimal(n: nat)
    ensures IsDecimal(Itoa(n), n)
    ensures n > 0 ==> Itoa(n)[0] != '0'
  {
    var s := Itoa(n);
    if n < 10 {
      assert s[..0] == "";
      assert Read(s) == 10 * Read(s[..0]) + n;
    } else {
      ItoaIsDecimal(n / 10);
      assert s[..|s| - 1] == Itoa(n / 10) && s[|s| - 1] == Digit(n % 10);
      assert s[0] == Itoa(n / 10)[0];
    }
  }

  /** The text is the prefix and two decimal numbers, with dots between. */
  ghost predicate Spells(text: string, prefix: string, second: nat, first: nat) {
    exists x, y :: IsDecimal(x, second) && IsDecimal(y, first) && text == prefix + "." + x + "." + y
  }

  lemma AddressSpells(prefix: string, second: nat, first: nat)
    ensures Spells(Address(prefix, second, first), prefix, second, first)
  {
    ItoaIsDecimal(second);
    ItoaIsDecimal(first);
    assert Address(prefix, second, first) == prefix + "." + Itoa(second) + "." + Itoa(first);
  }

  /** Two texts without a dot around one dot can be cut in only one way. */
  lemma CutAtDot(a: string, b: string, c: string, d: string)
    requires '.' !in a && '.' !in c
    requires a + "." + b == c + "." + d
    ensures a == c && b == d
  {
    var s := a + "." + b;
    assert s[|a|] == '.' && s[|c|] == '.';
    assert forall i :: 0 <= i < |a| ==> s[i] == a[i];
    assert forall i :: 0 <= i < |c| ==> s[i] == c[i];
    assert a == s[..|a|] && c == s[..|c|];
    assert b == s[|a| + 1..] && d == s[|c| + 1..];
  }

  lemma AddressInjective(prefix: string, s1: nat, f1: nat, s2: nat, f2: nat)
    requires Address(prefix, s1, f1) == Address(prefix, s2, f2)
    ensures s1 == s2 && f1 == f2
  {
    var t1, t2 := Itoa(s1) + "." + Itoa(f1), Itoa(s2) + "." + Itoa(f2);
    assert Address(prefix, s1, f1) == (prefix + ".") + t1;
    assert Address(prefix, s2, f2) == (prefix + ".") + t2;
    assert t1 == Address(prefix, s1, f1)[|prefix| + 1..];
    assert t2 == Address(prefix, s2, f2)[|prefix| + 1..];
    ItoaHasNoDot(s1);
    ItoaHasNoDot(s2);
    CutAtDot(Itoa(s1), Itoa(f1), Itoa(s2), Itoa(f2));
    ItoaInjective(s1, s2);
    ItoaInjective(f1, f2);
  }
}

/** The probe for a free address, and what one client does between reading the
    config map and writing it back. */
module AddressAllocator {
  import opened Prelude
  import opened AddressText

  /** The candidates, numbered: after first octet 255 comes 0 of the next second octet. */
  function Candidate(prefix: string, rank: nat): string {
    Address(prefix, rank / 256, rank % 256)
  }

  /** The rank of the first guess for a store of `n` addresses. */
  function StartRank(n: nat): nat {
    256 * (n / 255 + 10) + (n % 255 + 1)
  }

  lemma CandidateOctets(prefix: string, second: nat, first: nat)
    requires first <= 255
    ensures Candidate(prefix, 256 * second + first) == Address(prefix, second, first)
  {
    assert (256 * second + first) / 256 == second && (256 * second + first) % 256 == first;
  }

  lemma CandidateInjective(prefix: string, a: nat, b: nat)
    requires Candidate(prefix, a) == Candidate(prefix, b)
    ensures a == b
  {
    AddressInjective(prefix, a / 256, a % 256, b / 256, b % 256);
  }

  ghost predicate IsFirstFree(prefix: string, taken: seq<string>, start: nat, rank: nat) {
    && start <= rank
    && Candidate(prefix, rank) !in taken
    && forall k :: start <= k < rank ==> Candidate(prefix, k) in taken
  }

  lemma FirstFreeUnique(prefix: string, taken: seq<string>, start: nat, a: nat, b: nat)
    requires IsFirstFree(prefix, taken, start, a) && IsFirstFree(prefix, taken, start, b)
    ensures a == b
  {
    assert Candidate(prefix, a) !in taken && Candidate(prefix, b) !in taken;
  }

  ghost function Visited(prefix: string, start: nat, end: nat): set<string>
    requires start <= end
    decreases end
  {
    if start == end then {} else Visited(prefix, start, end - 1) + {Candidate(prefix, end - 1)}
  }

  lemma {:induction false} VisitedMembers(prefix: string, start: nat, end: nat, x: string)
    requires start <= end && x in Visited(prefix, start, end)
    ensures exists k :: start <= k < end && x == Candidate(prefix, k)
  {
    if x == Candidate(prefix, end - 1) {
    } else {
      VisitedMembers(prefix, start, end - 1, x);
    }
  }

  lemma {:induction false} VisitedSize(prefix: string, start: nat, end: nat)
    requires start <= end
    ensures |Visited(prefix, start, end)| == end - start
  {
    if start < end {
      VisitedSize(prefix, start, end - 1);
      if Candidate(prefix, end - 1) in Visited(prefix, start, end - 1) {
        VisitedMembers(prefix, start, end - 1, Candidate(prefix, end - 1));
        var k :| start <= k < end - 1 && Candidate(prefix, end - 1) == Candidate(prefix, k);
        CandidateInjective(prefix, end - 1, k);
      }
    }
  }

  /** The pigeonhole behind termination: a probe cannot meet more taken candidates
      than there are stored addresses. */
  lemma ProbeBound(prefix: string, taken: seq<string>, start: nat, end: nat)
    requires start <= end
    requires forall k :: start <= k < end ==> Candidate(prefix, k) in taken
    ensures end - start <= |taken|
  {
    VisitedSize(prefix, start, end);
    forall x | x in Visited(prefix, start, end)
      ensures x in Elements(taken)
    {
      VisitedMembers(prefix, start, end, x);
    }
    SubsetSize(Visited(prefix, start, end), Elements(taken));
    ElementsBound(taken);
  }

  lemma AddressSpellsAll(prefix: string)
    ensures forall rank: nat :: Spells(Candidate(prefix, rank), prefix, rank / 256, rank % 256)
  {
    forall rank: nat
      ensures Spells(Candidate(prefix, rank), prefix, rank / 256, rank % 256)
    {
      AddressSpells(prefix, rank / 256, rank % 256);
    }
  }

  /** The probe loop. It stops within |taken| + 1 candidates, for any stored texts. */
  method FindFreeAddress(prefix: string, taken: seq<string>) returns (address: string, ghost rank: nat)
    ensures IsFirstFree(prefix, taken, StartRank(|taken|), rank)
    ensures rank <= StartRank(|taken|) + |taken|
    ensures address == Candidate(prefix, rank) && address !in taken
    ensures Spells(address, prefix, rank / 256, rank % 256)
  {
    AddressSpellsAll(prefix);
    var second := |taken| / 255 + 10;
    var first := |taken| % 255 + 1;
    rank := StartRank(|taken|);
    address := Address(prefix, second, first);
    CandidateOctets(prefix, second, first);
    while address in taken
      invariant 0 <= first <= 255 && rank == 256 * second + first
      invariant StartRank(|taken|) <= rank <= StartRank(|taken|) + |taken|
      invariant address == Candidate(prefix, rank)
      invariant forall k :: StartRank(|taken|) <= k < rank ==> Candidate(prefix, k) in taken
      decreases StartRank(|taken|) + |taken| - rank
    {
      ProbeBound(prefix, taken, StartRank(|taken|), rank + 1);
      if first < 255 {
        first := first + 1;
      } else {
        second := second + 1;
        first := 0;
      }
      rank := rank + 1;
      address := Address(prefix, second, first);
      CandidateOctets(prefix, second, first);
    }
  }

  // ----- the stored document and the versioned store ----------------------------

  datatype Store = Store(addresses: seq<string>, entries: map<string, string>)

  datatype Content = Malformed | Parsed(store: Store)

  /** `version` is the resource version; a config map that never came from the API
      server has none. */
  datatype ConfigMap = ConfigMap(version: Option<nat>, content: Content)

  const EMPTY_STORE := Store([], map[])

  /** The address list and the name map describe the same allocation, one name per address. */
  predicate Consistent(s: Store) {
    && NoDuplicates(s.addresses)
    && Elements(s.addresses) == s.entries.Values
    && (forall n, m :: n in s.entries && m in s.entries && s.entries[n] == s.entries[m] ==> n == m)
  }

  predicate PassesValidation(cm: ConfigMap) {
    && cm.version.Some?
    && cm.content.Parsed?
    && |cm.content.store.entries| == |cm.content.store.addresses|
  }

  function WithEntry(s: Store, name: string, address: string): Store {
    Store(s.addresses + [address], s.entries[name := address])
  }

  lemma WithEntryConsistent(s: Store, name: string, address: string)
    requires Consistent(s) && name !in s.entries && address !in s.addresses
    ensures Consistent(WithEntry(s, name, address))
  {
    var t := WithEntry(s, name, address);
    assert forall n :: n in s.entries ==> s.entries[n] in Elements(s.addresses);
    forall a
      ensures a in Elements(t.addresses) <==> a in t.entries.Values
    {
      if a in s.entries.Values {
        var n :| n in s.entries && s.entries[n] == a;
        assert n in t.entries && t.entries[n] == a;
      }
      if a == address {
        assert name in t.entries && t.entries[name] == address;
      }
      if a in t.entries.Values {
        var n :| n in t.entries && t.entries[n] == a;
        assert n != name ==> a in s.entries.Values;
      }
    }
  }

  /** An injective map has as many keys as values. */
  lemma {:induction false} InjectiveMapSize(m: map<string, string>)
    requires forall x, y :: x in m && y in m && m[x] == m[y] ==> x == y
    ensures |m| == |m.Values|
  {
    if m == map[] {
      assert m.Values == {};
    } else {
      var k :| k in m;
      var rest := m - {k};
      InjectiveMapSize(rest);
      assert m.Values == rest.Values + {m[k]} by {
        forall v | v in m.Values
          ensures v in rest.Values + {m[k]}
        {
          var n :| n in m && m[n] == v;
          assert n != k ==> n in rest && rest[n] == v;
        }
      }
      assert m[k] !in rest.Values;
      assert |m| == |rest| + 1 by {
        assert m.Keys == rest.Keys + {k};
      }
    }
  }

  /** The length check before a put can never fire on a consistent document. */
  lemma ConsistentPassesValidation(version: nat, s: Store)
    requires Consistent(s)
    ensures PassesValidation(ConfigMap(Some(version), Parsed(s)))
  {
    InjectiveMapSize(s.entries);
    ElementsExact(s.addresses);
  }

  datatype Plan =
    | Refused                                      // unreadable document or failed validation
    | Existing(address: string)                    // the document already names an address
    | NoAddress                                    // address generation is switched off
    | Write(address: string, document: ConfigMap)  // put this document back

  /** What a client that read `cm` decides before it writes. */
  ghost predicate Planned(cm: ConfigMap, name: string, prefix: string, disabled: bool, plan: Plan) {
    match cm.content
    case Malformed => plan == Refused
    case Parsed(s) =>
      if name in s.entries then plan == Existing(s.entries[name])
      else if disabled then plan == NoAddress
      else exists rank ::
        && IsFirstFree(prefix, s.addresses, StartRank(|s.addresses|), rank)
        && var document := cm.(content := Parsed(WithEntry(s, name, Candidate(prefix, rank))));
           plan == if PassesValidation(document) then Write(Candidate(prefix, rank), document) else Refused
  }

  /** A document that never came from the API server, or whose two parts differ in size, is
      never written back. */
  lemma InconsistentIsRefused(cm: ConfigMap, name: string, prefix: string, plan: Plan)
    requires Planned(cm, name, prefix, false, plan) && cm.content.Parsed? && name !in cm.content.store.entries
    requires cm.version.None? || |cm.content.store.entries| != |cm.content.store.addresses|
    ensures plan == Refused
  {
    var s := cm.content.store;
    forall rank: nat
      ensures !PassesValidation(cm.(content := Parsed(WithEntry(s, name, Candidate(prefix, rank)))))
    {
      var t := WithEntry(s, name, Candidate(prefix, rank));
      assert t.entries.Keys == s.entries.Keys + {name};
      assert |t.entries| == |t.entries.Keys| && |s.entries| == |s.entries.Keys|;
    }
  }

  method PlanAddress(cm: ConfigMap, name: string, prefix: string, disabled: bool) returns (plan: Plan)
    ensures Planned(cm, name, prefix, disabled, plan)
  {
    if cm.content.Malformed? {
      return Refused;
    }
    var s := cm.content.store;
    if name in s.entries {
      return Existing(s.entries[name]);
    }
    if disabled {
      return NoAddress;
    }
    var address, rank := FindFreeAddress(prefix, s.addresses);
    var document := cm.(content := Parsed(WithEntry(s, name, address)));
    plan := if PassesValidation(document) then Write(address, document) else Refused;
  }

  /** The API server: an update succeeds only against the version it was read at; one
      without a version would overwrite whatever is there. */
  function CompareAndSwap(stored: ConfigMap, submitted: ConfigMap): Option<ConfigMap>
    requires stored.version.Some?
  {
    if submitted.version.None? || submitted.version == stored.version
    then Some(ConfigMap(Some(stored.version.value + 1), submitted.content))
    else None
  }

  class ConfigMapServer {
    var stored: ConfigMap

    ghost predicate Valid() reads this { stored.version.Some? }

    constructor ()
      ensures Valid() && stored == ConfigMap(Some(0), Parsed(EMPTY_STORE))
    {
      stored := ConfigMap(Some(0), Parsed(EMPTY_STORE));
    }

    method Put(submitted: ConfigMap) returns (ok: bool)
      requires Valid()
      modifies this
      ensures Valid()
      ensures ok <==> CompareAndSwap(old(stored), submitted).Some?
      ensures stored == if ok then CompareAndSwap(old(stored), submitted).value else old(stored)
    {
      var r := CompareAndSwap(stored, submitted);
      ok := r.Some?;
      if ok {
        stored := r.value;
      }
    }

    /** One undisturbed fetch-and-update on a consistent document always succeeds. */
    method GenerateNewAddress(name: string, prefix: string, disabled: bool) returns (r: Option<string>)
      requires Valid() && (stored.content.Parsed? ==> Consistent(stored.content.store))
      modifies this
      ensures Valid()
      ensures old(stored).content.Malformed? <==> r == None
      ensures old(stored).content.Parsed? ==>
        var s := old(stored).content.store;
        && stored.content.Parsed? && Consistent(stored.content.store)
        && (name in s.entries ==> r == Some(s.entries[name]) && stored == old(stored))
        && (name !in s.entries && disabled ==> r == Some("") && stored == old(stored))
        && (name !in s.entries && !disabled ==>
          r.value !in s.addresses && stored.content.store == WithEntry(s, name, r.value))
    {
      var plan := PlanAddress(stored, name, prefix, disabled);
      if stored.content.Malformed? {
        return None;
      }
      ghost var s := stored.content.store;
      match plan
      case Existing(a) => r := Some(a);
      case NoAddress => r := Some("");
      case Write(a, document) =>
        WithEntryConsistent(s, name, a);
        var ok := Put(document);
        assert ok;
        r := Some(a);
      case Refused =>
        ghost var rank :| IsFirstFree(prefix, s.addresses, StartRank(|s.addresses|), rank)
                          && !PassesValidation(stored.(content := Parsed(WithEntry(s, name, Candidate(prefix, rank)))));
        WithEntryConsistent(s, name, Candidate(prefix, rank));
        ConsistentPassesValidation(stored.version.value, WithEntry(s, name, Candidate(prefix, rank)));
        assert false;
    }
  }

  // ----- the closed form of the probe ---------------------------------------------

  /** Every address of the store is the first guess for its position. */
  ghost predicate InClosedForm(prefix: string, s: Store) {
    forall i :: 0 <= i < |s.addresses| ==> s.addresses[i] == Address(prefix, i / 255 + 10, i % 255 + 1)
  }

  lemma StartRankSplits(n: nat)
    ensures StartRank(n) / 256 == n / 255 + 10 && StartRank(n) % 256 == n % 255 + 1
  {
  }

  lemma StartRankInjective(m: nat, n: nat)
    requires StartRank(m) == StartRank(n)
    ensures m == n
  {
    StartRankSplits(m);
    StartRankSplits(n);
    assert m == 255 * (m / 255) + m % 255;
    assert n == 255 * (n / 255) + n % 255;
  }

  /** In closed form the very first guess is free, and taking it keeps the closed form. */
  lemma ClosedFormStep(prefix: string, s: Store, name: string, rank: nat)
    requires InClosedForm(prefix, s)
    requires IsFirstFree(prefix, s.addresses, StartRank(|s.addresses|), rank)
    ensures rank == StartRank(|s.addresses|)
    ensures Spells(Candidate(prefix, rank), prefix, |s.addresses| / 255 + 10, |s.addresses| % 255 + 1)
    ensures InClosedForm(prefix, WithEntry(s, name, Candidate(prefix, rank)))
  {
    AddressSpellsAll(prefix);
    var n := |s.addresses|;
    StartRankSplits(n);
    if Candidate(prefix, StartRank(n)) in s.addresses {
      var i :| 0 <= i < n && s.addresses[i] == Candidate(prefix, StartRank(n));
      StartRankSplits(i);
      CandidateInjective(prefix, StartRank(n), StartRank(i));
      StartRankInjective(n, i);
    }
  }

  /** Both octets of the i-th address fit a byte for exactly the first 62730 addresses. */
  lemma OctetsInRange(i: nat)
    ensures (1 <= i % 255 + 1 <= 255 && 10 <= i / 255 + 10 <= 255) <==> i < 62730
  {
  }
}
