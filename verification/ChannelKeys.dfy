/**
 Which key index each channel of a vault signs with, under declarations and rotations that overlap.

 `idOf` is the channel identifier derived from a key index; key derivation does not collide. Creating
 an identity and adopting a rotation each read the map and write it back; each is one step here.
 */
module ChannelKeys {
  import opened Wrappers

  type IdOf = int -> string

  type Mapping = map<string, int>

  ghost predicate Injective(idOf: IdOf)
  {
    forall i, j :: idOf(i) == idOf(j) ==> i == j
  }

  // ---------------------------------------------------------------- the vault

  /** One past the largest index in use, 0 for an empty map. */
  ghost function NextIndex(mapping: Mapping): (n: int)
    ensures n >= 0
    ensures forall c :: c in mapping ==> mapping[c] < n
    decreases |mapping|
  {
    if mapping == map[] then 0
    else
      var c :| c in mapping;
      assert forall x :: x in mapping && x != c ==> x in mapping - {c} && (mapping - {c})[x] == mapping[x];
      var rest := NextIndex(mapping - {c});
      if mapping[c] >= rest then mapping[c] + 1 else rest
  }

  lemma NextIsUsed(mapping: Mapping)
    ensures NextIndex(mapping) > 0 ==> exists c :: c in mapping && mapping[c] == NextIndex(mapping) - 1
    decreases |mapping|
  {
    if mapping != map[] {
      var c :| c in mapping && NextIndex(mapping) ==
        (var rest := NextIndex(mapping - {c}); if mapping[c] >= rest then mapping[c] + 1 else rest);
      NextIsUsed(mapping - {c});
    }
  }

  class SignalVault {
    const idOf: IdOf
    var mapping: Mapping

    constructor (idOf: IdOf)
      ensures this.idOf == idOf && mapping == map[]
    {
      this.idOf, mapping := idOf, map[];
    }

    method FreeIndex() returns (n: int)
      ensures n == NextIndex(mapping)
    {
      n := 0;
      var rest := mapping.Keys;
      while rest != {}
        invariant rest <= mapping.Keys && n >= 0
        invariant forall c :: c in mapping && c !in rest ==> mapping[c] < n
        invariant n > 0 ==> exists c :: c in mapping && mapping[c] == n - 1
        decreases |rest|
      {
        var c :| c in rest;
        if mapping[c] >= n {
          n := mapping[c] + 1;
        }
        rest := rest - {c};
      }
      NextIsUsed(mapping);
    }

    method CreateChannelIdentity(index: Option<int>) returns (channel: string, nextIndex: int)
      modifies this
      ensures nextIndex == if index.Some? then index.value else old(NextIndex(mapping))
      ensures channel == idOf(nextIndex) && mapping == old(mapping)[channel := nextIndex]
    {
      if index.Some? {
        nextIndex := index.value;
      } else {
        nextIndex := FreeIndex();
      }
      channel := idOf(nextIndex);
      mapping := mapping[channel := nextIndex];
    }

    /** False is the error for a replacement whose key is not in the vault. */
    method AdoptChannelRotation(previousChannel: string, nextChannel: string) returns (ok: bool)
      modifies this
      ensures ok <==> nextChannel in old(mapping)
      ensures mapping == if ok then Adopted(old(mapping), previousChannel, nextChannel) else old(mapping)
    {
      if nextChannel !in mapping {
        return false;
      }
      mapping := mapping[previousChannel := mapping[nextChannel]];
      ok := true;
    }
  }

  ghost function Adopted(mapping: Mapping, previous: string, next: string): Mapping
    requires next in mapping
  {
    mapping[previous := mapping[next]]
  }

  // ---------------------------------------------------------------- overlapping steps

  /** A rotation that has its replacement and has not been adopted yet. */
  datatype Rotation = Rotation(channel: string, replacement: string)

  /** `issued` lists the indices given out, in order. */
  datatype Vault = Vault(mapping: Mapping, issued: seq<int>, rotations: seq<Rotation>)

  datatype Event =
    | Declare
    | BeginRotation(channel: string)
    | Adopt(rotation: nat)
    | Abandon(rotation: nat)

  const EMPTY := Vault(map[], [], [])

  ghost function Create(idOf: IdOf, v: Vault): Vault
  {
    var n := NextIndex(v.mapping);
    v.(mapping := v.mapping[idOf(n) := n], issued := v.issued + [n])
  }

  function Drop(rotations: seq<Rotation>, i: nat): seq<Rotation>
    requires i < |rotations|
  {
    rotations[..i] + rotations[i + 1..]
  }

  /**
   One step. A rotation is signed with the channel's key before it is adopted, so it fails if the
   channel is not in the vault then. An event that cannot happen now changes nothing.
   */
  ghost function React(idOf: IdOf, v: Vault, e: Event): Vault
  {
    match e
    case Declare => Create(idOf, v)
    case BeginRotation(channel) =>
      Create(idOf, v).(rotations := v.rotations + [Rotation(channel, idOf(NextIndex(v.mapping)))])
    case Adopt(i) =>
      if i >= |v.rotations| then v
      else
        var r := v.rotations[i];
        var rest := Drop(v.rotations, i);
        if r.channel in v.mapping && r.replacement in v.mapping then
          v.(mapping := Adopted(v.mapping, r.channel, r.replacement), rotations := rest)
        else v.(rotations := rest)
    case Abandon(i) => if i >= |v.rotations| then v else v.(rotations := Drop(v.rotations, i))
  }

  ghost function Run(idOf: IdOf, v: Vault, events: seq<Event>): Vault
    decreases |events|
  {
    if events == [] then v else Run(idOf, React(idOf, v, events[0]), events[1..])
  }

  /** The channel is not the one of an index that is still to be given out after the next. */
  ghost predicate SafeToRotate(idOf: IdOf, mapping: Mapping, channel: string)
  {
    forall m :: channel == idOf(m) ==> m <= NextIndex(mapping)
  }

  ghost predicate RotatesSafely(idOf: IdOf, v: Vault, events: seq<Event>)
    decreases |events|
  {
    events != [] ==>
      && (events[0].BeginRotation? ==> SafeToRotate(idOf, v.mapping, events[0].channel))
      && RotatesSafely(idOf, React(idOf, v, events[0]), events[1..])
  }

  /** Only channels of the vault are rotated. */
  ghost predicate RotatesOwned(idOf: IdOf, v: Vault, events: seq<Event>)
    decreases |events|
  {
    events != [] ==>
      && (events[0].BeginRotation? ==> events[0].channel in v.mapping)
      && RotatesOwned(idOf, React(idOf, v, events[0]), events[1..])
  }

  ghost predicate Ascending(s: seq<int>)
  {
    forall i, j :: 0 <= i < j < |s| ==> s[i] < s[j]
  }

  /** A channel signs with its own index or a later one, so the largest index in use is never lost. */
  ghost predicate NeverBelowOwn(idOf: IdOf, mapping: Mapping, issued: seq<int>)
  {
    forall i :: i in issued ==> idOf(i) in mapping && i <= mapping[idOf(i)]
  }

  ghost predicate HasKey(idOf: IdOf, issued: seq<int>, channel: string)
  {
    exists i :: i in issued && channel == idOf(i)
  }

  ghost predicate KeysIssued(idOf: IdOf, mapping: Mapping, issued: seq<int>)
  {
    forall c :: c in mapping ==> HasKey(idOf, issued, c)
  }

  /** The replacement was issued, and the rotated channel's own index is no higher, if it has one. */
  ghost predicate Harmless(idOf: IdOf, issued: seq<int>, r: Rotation)
  {
    exists j :: HarmlessAt(idOf, issued, r, j)
  }

  ghost predicate HarmlessAt(idOf: IdOf, issued: seq<int>, r: Rotation, j: int)
  {
    j in issued && r.replacement == idOf(j) && forall m :: r.channel == idOf(m) ==> m <= j
  }

  /** What holds of the keys. */
  ghost predicate KeysInv(idOf: IdOf, v: Vault)
  {
    && Ascending(v.issued)
    && NeverBelowOwn(idOf, v.mapping, v.issued)
    && KeysIssued(idOf, v.mapping, v.issued)
  }

  ghost predicate Inv(idOf: IdOf, v: Vault)
  {
    KeysInv(idOf, v) && forall r :: r in v.rotations ==> Harmless(idOf, v.issued, r)
  }

  lemma FreshIsAbove(idOf: IdOf, mapping: Mapping, issued: seq<int>)
    requires NeverBelowOwn(idOf, mapping, issued)
    ensures forall i :: i in issued ==> i < NextIndex(mapping)
  {
    forall i | i in issued ensures i < NextIndex(mapping) {
      assert idOf(i) in mapping;
    }
  }

  lemma MoreIssued(idOf: IdOf, issued: seq<int>, n: int)
    ensures forall c :: HasKey(idOf, issued, c) ==> HasKey(idOf, issued + [n], c)
    ensures HasKey(idOf, issued + [n], idOf(n))
    ensures forall r :: Harmless(idOf, issued, r) ==> Harmless(idOf, issued + [n], r)
  {
    assert n in issued + [n];
    forall c | HasKey(idOf, issued, c) ensures HasKey(idOf, issued + [n], c) {
      var i :| i in issued && c == idOf(i);
      assert i in issued + [n];
    }
    forall r | Harmless(idOf, issued, r) ensures Harmless(idOf, issued + [n], r) {
      var j :| HarmlessAt(idOf, issued, r, j);
      assert HarmlessAt(idOf, issued + [n], r, j);
    }
  }

  lemma CreateKeepsKeys(idOf: IdOf, v: Vault)
    requires Injective(idOf) && KeysInv(idOf, v)
    ensures KeysInv(idOf, Create(idOf, v))
    ensures idOf(NextIndex(v.mapping)) !in v.mapping
  {
    var n := NextIndex(v.mapping);
    FreshIsAbove(idOf, v.mapping, v.issued);
    MoreIssued(idOf, v.issued, n);
    assert forall k :: 0 <= k < |v.issued| ==> v.issued[k] in v.issued;
    assert Ascending(v.issued + [n]);
    forall c | c in v.mapping ensures c != idOf(n) {
      assert HasKey(idOf, v.issued, c);
      var i :| i in v.issued && c == idOf(i);
    }
  }

  lemma CreateKeepsInv(idOf: IdOf, v: Vault)
    requires Injective(idOf) && Inv(idOf, v)
    ensures Inv(idOf, Create(idOf, v))
    ensures idOf(NextIndex(v.mapping)) !in v.mapping
  {
    CreateKeepsKeys(idOf, v);
    MoreIssued(idOf, v.issued, NextIndex(v.mapping));
  }

  lemma BeginKeepsInv(idOf: IdOf, v: Vault, channel: string)
    requires Injective(idOf) && Inv(idOf, v) && SafeToRotate(idOf, v.mapping, channel)
    ensures Inv(idOf, React(idOf, v, BeginRotation(channel)))
  {
    CreateKeepsInv(idOf, v);
    var n := NextIndex(v.mapping);
    assert HarmlessAt(idOf, v.issued + [n], Rotation(channel, idOf(n)), n);
  }

  lemma OwnedIsSafe(idOf: IdOf, v: Vault, channel: string)
    requires Injective(idOf) && KeysInv(idOf, v) && channel in v.mapping
    ensures SafeToRotate(idOf, v.mapping, channel)
  {
    FreshIsAbove(idOf, v.mapping, v.issued);
    assert HasKey(idOf, v.issued, channel);
  }

  lemma AdoptMapKeeps(idOf: IdOf, mapping: Mapping, issued: seq<int>, r: Rotation)
    requires Injective(idOf) && NeverBelowOwn(idOf, mapping, issued) && KeysIssued(idOf, mapping, issued)
    requires Harmless(idOf, issued, r) && r.channel in mapping && r.replacement in mapping
    ensures NeverBelowOwn(idOf, Adopted(mapping, r.channel, r.replacement), issued)
    ensures KeysIssued(idOf, Adopted(mapping, r.channel, r.replacement), issued)
  {
    var j :| HarmlessAt(idOf, issued, r, j);
    assert mapping[idOf(j)] >= j;
  }

  lemma AdoptKeepsInv(idOf: IdOf, v: Vault, k: nat)
    requires Injective(idOf) && Inv(idOf, v) && k < |v.rotations|
    ensures Inv(idOf, React(idOf, v, Adopt(k))) && Inv(idOf, React(idOf, v, Abandon(k)))
  {
    var r := v.rotations[k];
    assert forall x :: x in Drop(v.rotations, k) ==> x in v.rotations;
    if r.channel in v.mapping && r.replacement in v.mapping {
      AdoptMapKeeps(idOf, v.mapping, v.issued, r);
    }
  }

  /** A rotation ends once, adopted or abandoned; abandoning it moves no key. */
  lemma RotationEnds(idOf: IdOf, v: Vault, k: nat)
    requires k < |v.rotations|
    ensures var adopted, abandoned := React(idOf, v, Adopt(k)), React(idOf, v, Abandon(k));
      && multiset(adopted.rotations) == multiset(v.rotations) - multiset{v.rotations[k]}
      && multiset(abandoned.rotations) == multiset(v.rotations) - multiset{v.rotations[k]}
      && abandoned.mapping == v.mapping && adopted.issued == abandoned.issued == v.issued
  {
    var rs := v.rotations;
    assert rs == rs[..k] + [rs[k]] + rs[k + 1..];
  }

  lemma ReactKeepsInv(idOf: IdOf, v: Vault, e: Event)
    requires Injective(idOf) && Inv(idOf, v) && (e.BeginRotation? ==> SafeToRotate(idOf, v.mapping, e.channel))
    ensures Inv(idOf, React(idOf, v, e))
  {
    match e
    case Declare => CreateKeepsInv(idOf, v);
    case BeginRotation(channel) => BeginKeepsInv(idOf, v, channel);
    case Adopt(k) =>
      if k < |v.rotations| {
        AdoptKeepsInv(idOf, v, k);
      }
    case Abandon(k) =>
      if k < |v.rotations| {
        AdoptKeepsInv(idOf, v, k);
      }
  }

  lemma {:induction false} RunKeepsInv(idOf: IdOf, v: Vault, events: seq<Event>)
    requires Injective(idOf) && Inv(idOf, v) && RotatesSafely(idOf, v, events)
    ensures Inv(idOf, Run(idOf, v, events))
    decreases |events|
  {
    if events != [] {
      ReactKeepsInv(idOf, v, events[0]);
      RunKeepsInv(idOf, React(idOf, v, events[0]), events[1..]);
    }
  }

  lemma {:induction false} OwnedRunsAreSafe(idOf: IdOf, v: Vault, events: seq<Event>)
    requires Injective(idOf) && Inv(idOf, v) && RotatesOwned(idOf, v, events)
    ensures RotatesSafely(idOf, v, events)
    decreases |events|
  {
    if events != [] {
      if events[0].BeginRotation? {
        OwnedIsSafe(idOf, v, events[0].channel);
      }
      ReactKeepsInv(idOf, v, events[0]);
      OwnedRunsAreSafe(idOf, React(idOf, v, events[0]), events[1..]);
    }
  }

  /**
   However declarations and rotations overlap, as long as each rotated channel is of the vault, or at
   any rate not the channel of an index still to come, a new channel's index is above every index
   ever given out, so no key is used for two channels; and its identifier is new.
   */
  lemma IndicesNeverReused(idOf: IdOf, events: seq<Event>)
    requires Injective(idOf) && (RotatesSafely(idOf, EMPTY, events) || RotatesOwned(idOf, EMPTY, events))
    ensures var v := Run(idOf, EMPTY, events);
      && Ascending(v.issued)
      && (forall i :: i in v.issued ==> i < NextIndex(v.mapping))
      && idOf(NextIndex(v.mapping)) !in v.mapping
  {
    if RotatesOwned(idOf, EMPTY, events) {
      OwnedRunsAreSafe(idOf, EMPTY, events);
    }
    RunKeepsInv(idOf, EMPTY, events);
    var v := Run(idOf, EMPTY, events);
    FreshIsAbove(idOf, v.mapping, v.issued);
    CreateKeepsInv(idOf, v);
  }

  // ---------------------------------------------------------------- when an index is given out twice

  ghost predicate Distinct(s: seq<int>)
  {
    forall i, j :: 0 <= i < j < |s| ==> s[i] != s[j]
  }

  /** Whatever safe events follow, no index is given out twice. */
  ghost predicate NeverReuses(idOf: IdOf, v: Vault)
  {
    forall events :: RotatesSafely(idOf, v, events) ==> Distinct(Run(idOf, v, events).issued)
  }

  function Declares(k: nat): seq<Event>
  {
    if k == 0 then [] else [Declare] + Declares(k - 1)
  }

  lemma {:induction false} RunOver(idOf: IdOf, v: Vault, a: seq<Event>, b: seq<Event>)
    ensures Run(idOf, v, a + b) == Run(idOf, Run(idOf, v, a), b)
    ensures RotatesSafely(idOf, v, a + b) <==> RotatesSafely(idOf, v, a) && RotatesSafely(idOf, Run(idOf, v, a), b)
    decreases |a|
  {
    if a == [] {
      assert a + b == b;
    } else {
      assert (a + b)[0] == a[0] && (a + b)[1..] == a[1..] + b;
      RunOver(idOf, React(idOf, v, a[0]), a[1..], b);
    }
  }

  lemma CreateMovesOn(idOf: IdOf, v: Vault)
    ensures NextIndex(Create(idOf, v).mapping) == NextIndex(v.mapping) + 1
  {
    NextIs(Create(idOf, v).mapping, idOf(NextIndex(v.mapping)));
  }

  ghost predicate KeepsAll(a: Mapping, b: Mapping)
  {
    forall c :: c in a ==> c in b && b[c] == a[c]
  }

  /** No channel of an index still to come is in the vault. */
  ghost predicate NoneAhead(idOf: IdOf, mapping: Mapping)
  {
    forall m :: m >= NextIndex(mapping) ==> idOf(m) !in mapping
  }

  lemma KeysAreBehind(idOf: IdOf, v: Vault)
    requires Injective(idOf) && KeysInv(idOf, v)
    ensures NoneAhead(idOf, v.mapping)
  {
    FreshIsAbove(idOf, v.mapping, v.issued);
    forall c, m | c in v.mapping && m >= NextIndex(v.mapping) ensures c != idOf(m) {
      assert HasKey(idOf, v.issued, c);
    }
  }

  lemma CreateKeepsAhead(idOf: IdOf, v: Vault)
    requires Injective(idOf) && NoneAhead(idOf, v.mapping)
    ensures var after := Create(idOf, v);
      && NoneAhead(idOf, after.mapping) && KeepsAll(v.mapping, after.mapping)
      && NextIndex(after.mapping) == NextIndex(v.mapping) + 1
  {
    CreateMovesOn(idOf, v);
  }

  lemma KeepsAllTransitive(a: Mapping, b: Mapping, c: Mapping)
    requires KeepsAll(a, b) && KeepsAll(b, c)
    ensures KeepsAll(a, c)
  {}

  lemma DeclareFirst(idOf: IdOf, v: Vault, k: nat)
    requires k > 0
    ensures Run(idOf, v, Declares(k)) == Run(idOf, Create(idOf, v), Declares(k - 1))
    ensures RotatesSafely(idOf, v, Declares(k)) <==> RotatesSafely(idOf, Create(idOf, v), Declares(k - 1))
  {
    assert Declares(k)[0] == Declare && Declares(k)[1..] == Declares(k - 1);
  }

  /** Declaring on and on gives out one index after another and changes nothing else. */
  lemma {:induction false} DeclareMany(idOf: IdOf, v: Vault, k: nat)
    requires Injective(idOf) && NoneAhead(idOf, v.mapping)
    ensures RotatesSafely(idOf, v, Declares(k))
    ensures var after := Run(idOf, v, Declares(k));
      && NoneAhead(idOf, after.mapping) && KeepsAll(v.mapping, after.mapping)
      && after.rotations == v.rotations
      && NextIndex(after.mapping) == NextIndex(v.mapping) + k
    decreases k
  {
    if k > 0 {
      var one := Create(idOf, v);
      CreateKeepsAhead(idOf, v);
      DeclareFirst(idOf, v, k);
      DeclareMany(idOf, one, k - 1);
      KeepsAllTransitive(v.mapping, one.mapping, Run(idOf, v, Declares(k)).mapping);
    }
  }

  lemma Adopting(idOf: IdOf, v: Vault, k: nat, channel: string, next: string)
    requires k < |v.rotations| && v.rotations[k] == Rotation(channel, next)
    requires channel in v.mapping && next in v.mapping
    ensures React(idOf, v, Adopt(k)).mapping == v.mapping[channel := v.mapping[next]]
  {}

  lemma LowEntryKeepsNext(mapping: Mapping, id: string, n: int)
    requires id !in mapping && 0 <= n < NextIndex(mapping)
    ensures NextIndex(mapping[id := n]) == NextIndex(mapping)
  {
    NextIsUsed(mapping);
    var c :| c in mapping && mapping[c] == NextIndex(mapping) - 1;
    NextIs(mapping[id := n], c);
  }

  /** The channel's key is declared, its rotation adopted, and the key's index is free again. */
  lemma AdoptionFreesIndex(idOf: IdOf, v: Vault, k: nat, n: int)
    requires k < |v.rotations| && v.rotations[k] == Rotation(idOf(NextIndex(v.mapping)), idOf(n))
    requires idOf(NextIndex(v.mapping)) !in v.mapping
    requires idOf(n) in v.mapping && v.mapping[idOf(n)] == n >= 0
    ensures var after := React(idOf, React(idOf, v, Declare), Adopt(k));
      after.issued == v.issued + [NextIndex(v.mapping)] && NextIndex(after.mapping) == NextIndex(v.mapping)
  {
    var m := NextIndex(v.mapping);
    var declared := React(idOf, v, Declare);
    Adopting(idOf, declared, k, idOf(m), idOf(n));
    assert v.mapping[idOf(m) := m][idOf(m) := n] == v.mapping[idOf(m) := n];
    LowEntryKeepsNext(v.mapping, idOf(m), n);
  }

  /** Declarations up to the channel's index, the adoption, and one declaration more. */
  function Reusing(k: nat, rotation: nat): seq<Event>
  {
    Declares(k) + [Declare, Adopt(rotation), Declare]
  }

  lemma ReusingReuses(idOf: IdOf, begun: Vault, m: int, n: int, last: nat)
    requires Injective(idOf) && NoneAhead(idOf, begun.mapping) && 0 <= n < NextIndex(begun.mapping) <= m
    requires last < |begun.rotations| && begun.rotations[last] == Rotation(idOf(m), idOf(n))
    requires idOf(n) in begun.mapping && begun.mapping[idOf(n)] == n
    ensures var events := Reusing(m - NextIndex(begun.mapping), last);
      RotatesSafely(idOf, begun, events) && !Distinct(Run(idOf, begun, events).issued)
  {
    var k := m - NextIndex(begun.mapping);
    var ending := [Declare, Adopt(last), Declare];
    DeclareMany(idOf, begun, k);
    var w := Run(idOf, begun, Declares(k));
    AdoptionFreesIndex(idOf, w, last, n);
    RunThree(idOf, w, ending);
    RunOver(idOf, begun, Declares(k), ending);
    var twice := Run(idOf, w, ending);
    assert twice.issued == w.issued + [m] + [m];
    assert twice.issued[|w.issued|] == twice.issued[|w.issued| + 1];
  }

  lemma RotationReuses(idOf: IdOf, v: Vault, channel: string, m: int)
    requires Injective(idOf) && KeysInv(idOf, v) && channel == idOf(m) && m > NextIndex(v.mapping)
    ensures !NeverReuses(idOf, React(idOf, v, BeginRotation(channel)))
  {
    var n := NextIndex(v.mapping);
    var begun := React(idOf, v, BeginRotation(channel));
    KeysAreBehind(idOf, v);
    CreateKeepsAhead(idOf, v);
    ReusingReuses(idOf, begun, m, n, |v.rotations|);
  }

  lemma RunThree(idOf: IdOf, v: Vault, events: seq<Event>)
    requires |events| == 3 && forall e :: e in events ==> !e.BeginRotation?
    ensures Run(idOf, v, events) == React(idOf, React(idOf, React(idOf, v, events[0]), events[1]), events[2])
    ensures RotatesSafely(idOf, v, events)
  {
    var v1 := React(idOf, v, events[0]);
    var v2 := React(idOf, v1, events[1]);
    assert events[1..][1..] == events[2..] && events[2..][1..] == [];
    assert Run(idOf, v2, events[2..]) == React(idOf, v2, events[2]);
    assert Run(idOf, v1, events[1..]) == Run(idOf, v2, events[2..]);
    assert RotatesSafely(idOf, v2, events[2..]);
    assert RotatesSafely(idOf, v1, events[1..]);
  }

  /**
   After beginning a rotation, and whatever safe steps follow, no index is given out twice exactly when
   the rotated channel is not the one of an index after its replacement's. If it is, declaring up to
   that index, adopting the rotation and declaring once more gives the index out again.
   */
  lemma RotationReusesExactly(idOf: IdOf, v: Vault, channel: string)
    requires Injective(idOf) && Inv(idOf, v)
    ensures NeverReuses(idOf, React(idOf, v, BeginRotation(channel))) <==> SafeToRotate(idOf, v.mapping, channel)
  {
    var begun := React(idOf, v, BeginRotation(channel));
    if SafeToRotate(idOf, v.mapping, channel) {
      BeginKeepsInv(idOf, v, channel);
      forall events | RotatesSafely(idOf, begun, events) ensures Distinct(Run(idOf, begun, events).issued) {
        RunKeepsInv(idOf, begun, events);
      }
    } else {
      var m :| channel == idOf(m) && m > NextIndex(v.mapping);
      RotationReuses(idOf, v, channel, m);
    }
  }

  /** Rotating a channel before the vault has it gives an index out twice. */
  lemma UnownedRotationReuses(idOf: IdOf)
    requires Injective(idOf)
    ensures var events := [Declare, BeginRotation(idOf(2)), Declare, Adopt(0), Declare];
      Run(idOf, EMPTY, events).issued == [0, 1, 2, 2]
  {
    var events := [Declare, BeginRotation(idOf(2)), Declare, Adopt(0), Declare];
    var v1 := React(idOf, EMPTY, events[0]);
    assert v1.mapping == map[idOf(0) := 0];
    NextIs(v1.mapping, idOf(0));
    var v2 := React(idOf, v1, events[1]);
    NextIs(v2.mapping, idOf(1));
    var v3 := React(idOf, v2, events[2]);
    var v4 := React(idOf, v3, events[3]);
    assert v4.mapping == map[idOf(0) := 0, idOf(1) := 1, idOf(2) := 1];
    NextIs(v4.mapping, idOf(1));
    var v5 := React(idOf, v4, events[4]);
    assert v5.issued == [0, 1, 2, 2];
    RunFive(idOf, EMPTY, events);
  }

  lemma NextIs(mapping: Mapping, top: string)
    requires top in mapping && mapping[top] >= 0 && forall c :: c in mapping ==> mapping[c] <= mapping[top]
    ensures NextIndex(mapping) == mapping[top] + 1
  {
    NextIsUsed(mapping);
  }

  lemma RunFive(idOf: IdOf, v: Vault, events: seq<Event>)
    requires |events| == 5
    ensures Run(idOf, v, events) ==
      React(idOf, React(idOf, React(idOf, React(idOf, React(idOf, v, events[0]), events[1]), events[2]), events[3]),
            events[4])
  {
    RunFour(idOf, React(idOf, v, events[0]), events[1..]);
  }

  // ---------------------------------------------------------------- signing indices move forward

  /** The index the event makes the channel sign with, if it adopts a rotation of it. */
  ghost function TakenBy(v: Vault, e: Event, channel: string): Option<int>
  {
    if e.Adopt? && e.rotation < |v.rotations| && v.rotations[e.rotation].channel == channel
      && channel in v.mapping && v.rotations[e.rotation].replacement in v.mapping
    then Some(v.mapping[v.rotations[e.rotation].replacement])
    else None
  }

  /** The index the last adoption of the channel among these events gave it, if there was one. */
  ghost function LastTaken(idOf: IdOf, v: Vault, events: seq<Event>, channel: string): Option<int>
    decreases |events|
  {
    if events == [] then None
    else
      var later := LastTaken(idOf, React(idOf, v, events[0]), events[1..], channel);
      if later.Some? then later else TakenBy(v, events[0], channel)
  }

  function Else(taken: Option<int>, index: int): int
  {
    if taken.Some? then taken.value else index
  }

  lemma IndexAfterStep(idOf: IdOf, v: Vault, e: Event, channel: string)
    requires Injective(idOf) && Inv(idOf, v) && channel in v.mapping
    ensures var after := React(idOf, v, e);
      && channel in after.mapping && after.mapping[channel] == Else(TakenBy(v, e, channel), v.mapping[channel])
      && v.issued <= after.issued
  {
    if e.Declare? || e.BeginRotation? {
      CreateKeepsInv(idOf, v);
      assert channel != idOf(NextIndex(v.mapping));
    }
  }

  /** A channel signs with what the last adoption of it gave, and with what it had if there was none. */
  lemma {:induction false} SigningIndexIs(idOf: IdOf, v: Vault, events: seq<Event>, channel: string)
    requires Injective(idOf) && Inv(idOf, v) && RotatesSafely(idOf, v, events) && channel in v.mapping
    ensures var after := Run(idOf, v, events);
      && Inv(idOf, after) && v.issued <= after.issued
      && channel in after.mapping
      && after.mapping[channel] == Else(LastTaken(idOf, v, events, channel), v.mapping[channel])
    decreases |events|
  {
    if events != [] {
      ReactKeepsInv(idOf, v, events[0]);
      IndexAfterStep(idOf, v, events[0], channel);
      SigningIndexIs(idOf, React(idOf, v, events[0]), events[1..], channel);
    }
  }

  lemma BegunRotation(idOf: IdOf, v: Vault, channel: string)
    requires Injective(idOf) && Inv(idOf, v) && channel in v.mapping
    ensures var begun, n := React(idOf, v, BeginRotation(channel)), NextIndex(v.mapping);
      && Inv(idOf, begun) && n in begun.issued
      && idOf(n) in begun.mapping && begun.mapping[idOf(n)] == n
      && channel in begun.mapping && begun.mapping[channel] == v.mapping[channel] < n
  {
    OwnedIsSafe(idOf, v, channel);
    BeginKeepsInv(idOf, v, channel);
    CreateKeepsInv(idOf, v);
  }

  /**
   When adopting a rotation moves its channel's signing index back, whatever happened since it began:
   exactly when another rotation of the channel was adopted meanwhile and the last of these gave an
   index above the one the replacement signs with. If there was none, the index moves forward.
   */
  lemma MovesBackExactly(idOf: IdOf, v: Vault, channel: string, between: seq<Event>, k: nat)
    requires Injective(idOf) && Inv(idOf, v) && channel in v.mapping
    requires var begun := React(idOf, v, BeginRotation(channel));
      && RotatesSafely(idOf, begun, between)
      && k < |Run(idOf, begun, between).rotations|
      && Run(idOf, begun, between).rotations[k] == Rotation(channel, idOf(NextIndex(v.mapping)))
    ensures var n := NextIndex(v.mapping);
      var begun := React(idOf, v, BeginRotation(channel));
      var before := Run(idOf, begun, between);
      var after := React(idOf, before, Adopt(k));
      var taken := LastTaken(idOf, begun, between, channel);
      && channel in before.mapping && channel in after.mapping
      && after.mapping[channel] == Else(LastTaken(idOf, begun, between, idOf(n)), n) >= n
      && (after.mapping[channel] < before.mapping[channel] <==>
          taken.Some? && taken.value > Else(LastTaken(idOf, begun, between, idOf(n)), n))
      && (taken.None? ==> before.mapping[channel] == v.mapping[channel] < after.mapping[channel])
  {
    var n := NextIndex(v.mapping);
    var begun := React(idOf, v, BeginRotation(channel));
    BegunRotation(idOf, v, channel);
    SigningIndexIs(idOf, begun, between, channel);
    SigningIndexIs(idOf, begun, between, idOf(n));
    var before := Run(idOf, begun, between);
    Adopting(idOf, before, k, channel, idOf(n));
    assert n in before.issued;
    assert n <= before.mapping[idOf(n)];
  }

  /** Two rotations of one channel adopted out of order: it ends up signing with the older replacement. */
  lemma OverlapMovesBack(idOf: IdOf)
    requires Injective(idOf)
    ensures var one := Run(idOf, EMPTY, [Declare, BeginRotation(idOf(0)), BeginRotation(idOf(0)), Adopt(1)]);
      var two := React(idOf, one, Adopt(0));
      && one.mapping == map[idOf(0) := 2, idOf(1) := 1, idOf(2) := 2]
      && two.mapping == map[idOf(0) := 1, idOf(1) := 1, idOf(2) := 2]
  {
    var events := [Declare, BeginRotation(idOf(0)), BeginRotation(idOf(0)), Adopt(1)];
    var v1 := React(idOf, EMPTY, events[0]);
    NextIs(v1.mapping, idOf(0));
    var v2 := React(idOf, v1, events[1]);
    NextIs(v2.mapping, idOf(1));
    var v3 := React(idOf, v2, events[2]);
    var v4 := React(idOf, v3, events[3]);
    assert v3.mapping == map[idOf(0) := 0, idOf(1) := 1, idOf(2) := 2];
    assert v3.rotations == [Rotation(idOf(0), idOf(1)), Rotation(idOf(0), idOf(2))];
    Adopting(idOf, v3, 1, idOf(0), idOf(2));
    assert v4.rotations == [Rotation(idOf(0), idOf(1))];
    Adopting(idOf, v4, 0, idOf(0), idOf(1));
    RunFour(idOf, EMPTY, events);
  }

  lemma RunFour(idOf: IdOf, v: Vault, events: seq<Event>)
    requires |events| == 4
    ensures Run(idOf, v, events) ==
      React(idOf, React(idOf, React(idOf, React(idOf, v, events[0]), events[1]), events[2]), events[3])
  {
    var v1 := React(idOf, v, events[0]);
    var v2 := React(idOf, v1, events[1]);
    var v3 := React(idOf, v2, events[2]);
    assert events[1..][1..] == events[2..] && events[2..][1..] == events[3..] && events[3..][1..] == [];
    var v4 := React(idOf, v3, events[3]);
    assert Run(idOf, v4, []) == v4;
    assert Run(idOf, v3, events[3..]) == Run(idOf, v4, []);
    assert Run(idOf, v2, events[2..]) == Run(idOf, v3, events[3..]);
    assert Run(idOf, v1, events[1..]) == Run(idOf, v2, events[2..]);
  }
}
