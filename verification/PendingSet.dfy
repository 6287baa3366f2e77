/** The set of paths that are staged but not committed yet, and when it is due. */
module PendingSet {
  import opened GitObjects

  /** Times are readings of the clock; 0 is Go's zero time, which no reading is. */
  datatype PendingWrite = PendingWrite(created: bool, firstSeen: int, lastModified: int)

  type Pending = map<Path, PendingWrite>

  predicate TimesOk(pending: Pending, now: int) {
    forall p | p in pending :: 0 < pending[p].firstSeen <= pending[p].lastModified <= now
  }

  function Enqueued(pending: Pending, p: Path, created: bool, now: int): (r: Pending)
    ensures p in r && r.Keys == pending.Keys + {p}
    ensures TimesOk(pending, now) && 0 < now ==> TimesOk(r, now)
  {
    var first := if p in pending then pending[p] else PendingWrite(created, now, now);
    pending[p := first.(lastModified := now)]
  }

  /** For each pending path, whether its first write created it. */
  function Created(pending: Pending): map<Path, bool> { map p | p in pending :: pending[p].created }

  lemma CreatedIsEmpty(pending: Pending)
    ensures Created(pending) == map[] <==> pending == map[]
  {
    assert Created(pending).Keys == pending.Keys;
  }

  lemma EnqueuedCreated(pending: Pending, p: Path, created: bool, now: int)
    ensures Created(Enqueued(pending, p, created, now)) ==
            if p in pending then Created(pending) else Created(pending)[p := created]
  {
  }

  ghost predicate IsOldest(pending: Pending, t: int) {
    (exists p :: p in pending && pending[p].firstSeen == t) && forall p | p in pending :: t <= pending[p].firstSeen
  }

  ghost predicate IsLatest(pending: Pending, t: int) {
    && (exists p :: p in pending && pending[p].lastModified == t)
    && forall p | p in pending :: pending[p].lastModified <= t
  }

  /** A scan in any map order with the zero time as "not set yet" finds the true
      minimum and maximum. */
  method PendingBounds(pending: Pending, now: int) returns (oldest: int, latest: int)
    requires pending != map[] && TimesOk(pending, now)
    ensures IsOldest(pending, oldest) && IsLatest(pending, latest)
  {
    oldest, latest := 0, 0;
    var rest := pending.Keys;
    while rest != {}
      invariant rest <= pending.Keys
      invariant oldest == latest == 0 <==> rest == pending.Keys
      invariant oldest != 0 ==> exists p :: p in pending.Keys - rest && pending[p].firstSeen == oldest
      invariant latest != 0 ==> exists p :: p in pending.Keys - rest && pending[p].lastModified == latest
      invariant forall p | p in pending.Keys - rest ::
                0 < oldest <= pending[p].firstSeen && pending[p].lastModified <= latest
      decreases rest
    {
      var p :| p in rest;
      var entry := pending[p];
      if oldest == 0 || entry.firstSeen < oldest { oldest := entry.firstSeen; }
      if latest < entry.lastModified { latest := entry.lastModified; }
      rest := rest - {p};
      assert p in pending.Keys - rest;
    }
    assert pending.Keys != {};
  }

  predicate Due(oldest: int, latest: int, now: int, delay: int, maxDelay: int) {
    now - latest >= delay || (maxDelay > 0 && now - oldest >= maxDelay)
  }

  /** No entry has waited too long at time `now`. */
  ghost predicate WithinBounds(pending: Pending, now: int, delay: int, maxDelay: int) {
    pending == map[]
    || ((exists p :: p in pending && now - pending[p].lastModified < delay)
        && (maxDelay > 0 ==> forall p | p in pending :: now - pending[p].firstSeen < maxDelay))
  }

  lemma NotDueIsWithinBounds(pending: Pending, oldest: int, latest: int, now: int, delay: int, maxDelay: int)
    requires pending != map[] && IsOldest(pending, oldest) && IsLatest(pending, latest)
    ensures WithinBounds(pending, now, delay, maxDelay) <==> !Due(oldest, latest, now, delay, maxDelay)
  {
  }

  /** The batch clock of a path starts at its first write and stays. */
  lemma {:induction false} FirstSeenStays(pending: Pending, writes: seq<(Path, bool, int)>, p: Path)
    requires p in pending
    ensures p in EnqueueAll(pending, writes)
    ensures EnqueueAll(pending, writes)[p].firstSeen == pending[p].firstSeen
    ensures EnqueueAll(pending, writes)[p].created == pending[p].created
    decreases |writes|
  {
    if |writes| > 0 {
      var w := writes[0];
      FirstSeenStays(Enqueued(pending, w.0, w.1, w.2), writes[1..], p);
    }
  }

  /** ... and its last write is what it waits for. */
  lemma {:induction false} LastModifiedIs(pending: Pending, writes: seq<(Path, bool, int)>, p: Path, i: nat)
    requires i < |writes| && writes[i].0 == p && forall j | i < j < |writes| :: writes[j].0 != p
    ensures p in EnqueueAll(pending, writes) && EnqueueAll(pending, writes)[p].lastModified == writes[i].2
    decreases |writes|
  {
    var w, rest := writes[0], writes[1..];
    var next := Enqueued(pending, w.0, w.1, w.2);
    if i > 0 {
      LastModifiedIs(next, rest, p, i - 1);
    } else {
      assert forall j | 0 <= j < |rest| :: rest[j] == writes[j + 1];
      OthersStay(next, rest, p);
    }
  }

  lemma {:induction false} OthersStay(pending: Pending, writes: seq<(Path, bool, int)>, p: Path)
    requires forall j | 0 <= j < |writes| :: writes[j].0 != p
    ensures p in EnqueueAll(pending, writes) <==> p in pending
    ensures p in pending ==> EnqueueAll(pending, writes)[p] == pending[p]
    decreases |writes|
  {
    if |writes| > 0 {
      var w := writes[0];
      OthersStay(Enqueued(pending, w.0, w.1, w.2), writes[1..], p);
    }
  }

  /** A path that was not pending has the time and the kind of its first write. */
  lemma {:induction false} FirstSeenIs(pending: Pending, writes: seq<(Path, bool, int)>, p: Path, i: nat)
    requires p !in pending && i < |writes| && writes[i].0 == p && forall j | 0 <= j < i :: writes[j].0 != p
    ensures p in EnqueueAll(pending, writes)
    ensures EnqueueAll(pending, writes)[p].firstSeen == writes[i].2
    ensures EnqueueAll(pending, writes)[p].created == writes[i].1
    decreases |writes|
  {
    var w, rest := writes[0], writes[1..];
    var next := Enqueued(pending, w.0, w.1, w.2);
    if i > 0 { FirstSeenIs(next, rest, p, i - 1); } else { FirstSeenStays(next, rest, p); }
  }

  function EnqueueAll(pending: Pending, writes: seq<(Path, bool, int)>): Pending
    decreases |writes|
  {
    if |writes| == 0 then pending else
      var w := writes[0];
      EnqueueAll(Enqueued(pending, w.0, w.1, w.2), writes[1..])
  }
}
