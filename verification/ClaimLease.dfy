/** Claims as leases: refs at the origin that change only by compare-and-swap, for any
    number of clients, and each clone's mirror of them. */
module ClaimLease {
  import opened GitObjects

  type Key = string
  type Sha = string

  /** One accepted change of a claim: the value it named and the value it put in its
      place, None standing for an absent ref. */
  datatype Change = Change(key: Key, expected: Option<Sha>, next: Option<Sha>)

  /** The value of a claim after the first `n` changes. */
  function Value(log: seq<Change>, n: nat, key: Key): Option<Sha>
    requires n <= |log|
  {
    if n == 0 then None else if log[n - 1].key == key then log[n - 1].next else Value(log, n - 1, key)
  }

  /** The origin's compare-and-swap took change `i`, whose new commit id was never
      used before. */
  predicate IsLawful(log: seq<Change>, i: nat)
    requires i < |log|
  {
    && log[i].expected == Value(log, i, log[i].key)
    && (log[i].next.Some? ==> forall j | 0 <= j < i :: log[j].next != log[i].next)
  }

  predicate IsHistory(log: seq<Change>) { forall i | 0 <= i < |log| :: IsLawful(log, i) }

  // ---------------------------------------------------------- the protocol

  lemma {:induction false} ValueWasPut(log: seq<Change>, n: nat, key: Key)
    requires n <= |log| && Value(log, n, key).Some?
    ensures exists j :: 0 <= j < n && log[j].key == key && log[j].next == Value(log, n, key)
  {
    if log[n - 1].key != key { ValueWasPut(log, n - 1, key); }
  }

  /** A value that was replaced never comes back. */
  lemma {:induction false} NeverReturns(log: seq<Change>, i: nat, n: nat)
    requires IsHistory(log) && i < n <= |log| && log[i].expected.Some?
    ensures Value(log, n, log[i].key) != log[i].expected
    decreases n
  {
    var key, s := log[i].key, log[i].expected;
    assert IsLawful(log, i);
    ValueWasPut(log, i, key);
    var j :| 0 <= j < i && log[j].key == key && log[j].next == s;
    assert IsLawful(log, n - 1);
    assert log[n - 1].next != s;
    if log[n - 1].key != key { NeverReturns(log, i, n - 1); }
  }

  /** Of all changes that expect a given id at most one is ever accepted. */
  lemma AtMostOneWinner(log: seq<Change>, i: nat, j: nat)
    requires IsHistory(log) && i < |log| && j < |log|
    requires log[i].key == log[j].key && log[i].expected == log[j].expected && log[i].expected.Some?
    ensures i == j
  {
    if i < j {
      assert IsLawful(log, j);
      NeverReturns(log, i, j);
    } else if j < i {
      assert IsLawful(log, i);
      NeverReturns(log, j, i);
    }
  }

  /** The values of a claim form a chain: each accepted change names the value that the
      previous one put there. */
  lemma {:induction false} ValuesChain(log: seq<Change>, i: nat, j: nat)
    requires IsHistory(log) && i < j < |log| && log[i].key == log[j].key
    requires forall m | i < m < j :: log[m].key != log[i].key
    ensures log[j].expected == log[i].next
  {
    ValueStays(log, i + 1, j, log[i].key);
    assert IsLawful(log, j);
  }

  lemma {:induction false} ValueStays(log: seq<Change>, i: nat, j: nat, key: Key)
    requires i <= j <= |log| && forall m | i <= m < j :: log[m].key != key
    ensures Value(log, j, key) == Value(log, i, key)
    decreases j
  {
    if i < j { ValueStays(log, i, j - 1, key); }
  }

  /** The id was the value of this claim at some time. */
  predicate WasOnce(log: seq<Change>, key: Key, sha: Sha) {
    exists i :: 0 <= i < |log| && log[i].key == key && log[i].next == Some(sha)
  }

  lemma {:induction false} ValueOfPrefix(log: seq<Change>, more: seq<Change>, n: nat, key: Key)
    requires log <= more && n <= |log|
    ensures Value(more, n, key) == Value(log, n, key)
  {
    if n > 0 { ValueOfPrefix(log, more, n - 1, key); }
  }

  lemma StaysLawful(log: seq<Change>, more: seq<Change>, i: nat)
    requires log <= more && i < |log| && IsLawful(log, i)
    ensures IsLawful(more, i)
  {
    ValueOfPrefix(log, more, i, log[i].key);
    assert forall j | 0 <= j <= i :: more[j] == log[j];
  }

  lemma LastIsLawful(log: seq<Change>, c: Change)
    requires c.expected == Value(log, |log|, c.key)
    requires c.next.Some? ==> forall j | 0 <= j < |log| :: log[j].next != c.next
    ensures IsLawful(log + [c], |log|)
  {
    ValueOfPrefix(log, log + [c], |log|, c.key);
    assert forall j | 0 <= j < |log| :: (log + [c])[j] == log[j];
  }

  lemma OneMoreChange(log: seq<Change>, c: Change)
    requires IsHistory(log) && c.expected == Value(log, |log|, c.key)
    requires c.next.Some? ==> forall j | 0 <= j < |log| :: log[j].next != c.next
    ensures IsHistory(log + [c])
  {
    hide IsLawful;
    LastIsLawful(log, c);
    forall i | 0 <= i < |log| ensures IsLawful(log + [c], i) {
      StaysLawful(log, log + [c], i);
    }
  }

  /** All claims after all changes. */
  function Claims(log: seq<Change>): (m: map<Key, Sha>)
    ensures forall key :: Get(m, key) == Value(log, |log|, key)
  {
    var keys := set i | 0 <= i < |log| :: log[i].key;
    forall key ensures key in keys || Value(log, |log|, key).None? {
      if Value(log, |log|, key).Some? { ValueWasPut(log, |log|, key); }
    }
    map key | key in keys && Value(log, |log|, key).Some? :: Value(log, |log|, key).value
  }

  // ------------------------------------------------------------- a client

  datatype Outcome = Won | Conflict | Failed

  /** One server of any number. The origin is the list of all changes it has taken, by
      whomever. No method holds the repository lock, so the origin may change and the
      mirror may be rewritten between any two commands. */
  class ClaimClient {
    var origin: seq<Change>
    var mirror: map<Key, Sha>
    var created: set<Sha>   // commit ids made by this server; a nonce keeps them unique
    ghost var faults: nat   // commands that broke

    ghost predicate Valid()
      reads this
    {
      IsHistory(origin) && forall key | key in mirror :: WasOnce(origin, key, mirror[key])
    }

    constructor ()
      ensures Valid() && origin == [] && mirror == map[] && created == {}
    {
      origin, mirror, created, faults := [], map[], {}, 0;
    }

    method Luck() returns (broken: bool)
      modifies `faults
      ensures faults == if broken then old(faults) + 1 else old(faults)
    {
      broken := *;
      if broken { faults := faults + 1; }
    }

    predicate Unused(sha: Sha)
      reads this
    {
      forall i | 0 <= i < |origin| :: origin[i].next != Some(sha)
    }

    method Others()
      requires Valid()
      modifies `origin, `mirror
      ensures Valid() && old(origin) <= origin
      ensures forall i | |old(origin)| <= i < |origin| && origin[i].next.Some? :: origin[i].next.value !in created
    {
      var more: seq<Change>, other: map<Key, Sha> := *, *;
      if origin <= more && IsHistory(more)
         && forall i | |origin| <= i < |more| && more[i].next.Some? :: more[i].next.value !in created {
        forall key | key in mirror ensures WasOnce(more, key, mirror[key]) {
          var i :| 0 <= i < |origin| && origin[i].key == key && origin[i].next == Some(mirror[key]);
          assert more[i] == origin[i];
        }
        origin := more;
      }
      if forall key | key in other :: WasOnce(origin, key, other[key]) { mirror := other; }
    }

    /** `git commit-tree` on a message with a fresh nonce. */
    method NewClaimCommit() returns (sha: Option<Sha>)
      requires Valid()
      modifies `created, `faults
      ensures Valid() && old(created) <= created && faults >= old(faults)
      ensures faults == old(faults) ==> sha.Some?
      ensures sha.Some? ==> sha.value !in old(created) && created == old(created) + {sha.value} && Unused(sha.value)
    {
      var id: Sha := *;
      if id in created || !Unused(id) {
        faults := faults + 1;
        return None;
      }
      created := created + {id};
      return Some(id);
    }

    /** Push once, without retry. `seen` are the changes that came before it. */
    method PushClaimRef(key: Key, expected: Option<Sha>, next: Option<Sha>)
      returns (r: Outcome, ghost seen: seq<Change>)
      requires Valid() && (next.Some? ==> next.value in created && Unused(next.value))
      modifies `origin, `mirror, `faults
      ensures Valid() && old(origin) <= seen && faults >= old(faults)
      ensures faults == old(faults) ==> r == if Value(seen, |seen|, key) == expected then Won else Conflict
      ensures r.Won? ==> Value(seen, |seen|, key) == expected && origin == seen + [Change(key, expected, next)]
      ensures r.Conflict? ==> Value(seen, |seen|, key) != expected && origin == seen
      ensures r.Failed? ==> origin == seen || origin == seen + [Change(key, expected, next)]
      ensures Replaced(old(origin), key, expected) ==> !r.Won? && origin == seen
      ensures next.Some? && origin == seen ==> Unused(next.value)
    {
      Others();
      seen := origin;
      ghost var before := old(origin);
      if Replaced(before, key, expected) {
        var i: nat :| i < |before| && before[i].key == key && before[i].expected == expected;
        NeverReturns(seen, i, |seen|);
      }
      var arrived: bool := *;
      var broken := Luck();
      if Value(origin, |origin|, key) != expected { return if broken then Failed else Conflict, seen; }
      if !broken || arrived {
        OneMoreChange(origin, Change(key, expected, next));
        MirrorStays(origin, Change(key, expected, next));
        origin := origin + [Change(key, expected, next)];
      }
      r := if broken then Failed else Won;
    }

    /** Create a claim (nothing expected) or renew it. A lost mirror update is harmless:
        the mirror only ever holds values the claim once had. */
    method PutClaimRef(key: Key, expected: Option<Sha>) returns (r: Outcome, sha: Sha, ghost seen: seq<Change>)
      requires Valid()
      modifies this
      ensures Valid() && old(origin) <= seen <= origin
      ensures faults == old(faults) ==> r == if Value(seen, |seen|, key) == expected then Won else Conflict
      ensures faults == old(faults) && r.Won? ==> Get(mirror, key) == Some(sha)
      ensures r.Won? ==> Value(seen, |seen|, key) == expected && seen + [Change(key, expected, Some(sha))] <= origin
      ensures r.Conflict? ==> Value(seen, |seen|, key) != expected && origin == seen && Unused(sha)
      ensures r.Failed? ==> origin == seen || origin == seen + [Change(key, expected, Some(sha))]
      ensures Replaced(old(origin), key, expected) ==> !r.Won? && origin == seen
    {
      seen := origin;
      var id := NewClaimCommit();
      if id.None? { return Failed, "", seen; }
      sha := id.value;
      r, seen := PushClaimRef(key, expected, Some(sha));
      if !r.Won? { return; }
      Others();
      var broken := Luck();
      if !broken {
        assert origin[|seen|] == Change(key, expected, Some(sha));
        mirror := mirror[key := sha];
      }
    }

    method DeleteClaimRef(key: Key, expected: Sha) returns (r: Outcome, ghost seen: seq<Change>)
      requires Valid()
      modifies `origin, `mirror, `faults
      ensures Valid() && old(origin) <= seen <= origin
      ensures faults == old(faults) ==> r == if Value(seen, |seen|, key) == Some(expected) then Won else Conflict
      ensures faults == old(faults) && r.Won? ==> key !in mirror
      ensures r.Won? ==>
                Value(seen, |seen|, key) == Some(expected)
                && seen + [Change(key, Some(expected), None)] <= origin
      ensures r.Conflict? ==> Value(seen, |seen|, key) != Some(expected) && origin == seen
      ensures r.Failed? ==> origin == seen || origin == seen + [Change(key, Some(expected), None)]
      ensures Replaced(old(origin), key, Some(expected)) ==> !r.Won? && origin == seen
    {
      r, seen := PushClaimRef(key, Some(expected), None);
      if !r.Won? { return; }
      Others();
      var broken := Luck();
      if !broken { mirror := mirror - {key}; }
    }

    /** The claims part of `git fetch`: what is read from the origin may be written to the
        mirror much later. */
    method FetchMirror() returns (ghost read: nat)
      requires Valid()
      modifies `origin, `mirror
      ensures Valid() && old(origin) <= origin && |old(origin)| <= read <= |origin|
      ensures forall key :: Get(mirror, key) == Value(origin[..read], read, key)
    {
      Others();
      read := |origin|;
      var snapshot := Claims(origin);
      forall key | key in snapshot ensures WasOnce(origin, key, snapshot[key]) {
        ValueWasPut(origin, |origin|, key);
      }
      ghost var before := origin;
      Others();
      forall key | key in snapshot ensures WasOnce(origin, key, snapshot[key]) {
        var i :| 0 <= i < |before| && before[i].key == key && before[i].next == Some(snapshot[key]);
        assert origin[i] == before[i];
      }
      assert origin[..read] == before;
      mirror := snapshot;
    }

    lemma MirrorStays(log: seq<Change>, c: Change)
      requires forall key | key in mirror :: WasOnce(log, key, mirror[key])
      ensures forall key | key in mirror :: WasOnce(log + [c], key, mirror[key])
    {
      forall key | key in mirror ensures WasOnce(log + [c], key, mirror[key]) {
        var i :| 0 <= i < |log| && log[i].key == key && log[i].next == Some(mirror[key]);
        assert (log + [c])[i] == log[i];
      }
    }
  }

  /** Somebody has already replaced this value of the claim. */
  ghost predicate Replaced(log: seq<Change>, key: Key, expected: Option<Sha>) {
    expected.Some? && exists i: nat :: i < |log| && log[i].key == key && log[i].expected == expected
  }
}
