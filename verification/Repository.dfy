/** The server's git client: writes, the pending set, flushing, pushing with
    retries, pulling, rescuing a dirty tree and recovering after a crash.

    The clone and the remote are values (`disk`, `hub`); the methods change them
    one git command at a time. Every command may be broken by its environment
    (see Fate), and other clones may move the remote before any command that
    talks to it (see Others). A method that returns Died stands for a process that
    died at that point, so what a method ensures about `hub` and `disk` also holds
    at every crash point inside it. */
module Repository {
  import opened Environment
  import opened GitObjects
  import opened Text
  import opened TaskPhase
  import opened WorkingCopy
  import opened PendingSet
  import opened Quarantine
  import opened PushBackoff
  import C = Coalescing

  datatype PushReply = Pushed | Rejected | PushBroken(died: bool)

  datatype Config = Config(hasRemote: bool, coalesce: bool, delay: int, maxDelay: int)

  /** What can happen to the server. */
  datatype Event = Asked(request: C.Request) | FlushTick | PullTick | Kill

  /** The request was refused before anything was touched. */
  predicate TouchedNothing(r: Reply) { r == Failed(AlreadyExists) || r == Failed(MissingFrontmatter) }

  /** The contents clients may count on after one more event: an acknowledged write
      replaces what was there, an attempt that got as far as the file ends the promise. */
  function Noted(ledger: map<Path, Bytes>, e: Event, r: Reply): map<Path, Bytes> {
    match e
    case Asked(Delete(p)) => ledger - {p}
    case Asked(q) =>
      if r.Done? then ledger[q.path := Normalized(q.path, q.content)] else
      if TouchedNothing(r) then ledger else ledger - {q.path}
    case _ => ledger
  }

  function Ledger(script: seq<Event>, replies: seq<Reply>): map<Path, Bytes>
    requires |replies| <= |script|
    decreases |replies|
  {
    if |replies| == 0 then map[] else
      var n := |replies| - 1;
      Noted(Ledger(script, replies[..n]), script[n], replies[n])
  }

  class Repository {
    const config: Config
    const ignored: Path -> bool   // .gitignore

    var hub: Hub
    var disk: Disk
    var pending: Pending
    var now: int

    // History variables.
    ghost var acked: map<Path, Bytes>   // the last acknowledged content, while not written or deleted since
    ghost var inMerge: set<Path>        // acknowledged, or swept up, since the merge in progress stopped
    ghost var aborted: set<Path>        // in a merge, and staged, when it was aborted
    ghost var overwritten: set<Path>    // a quarantine has put a marker copy in this place
    ghost var swept: set<Path>          // staged by a recovery's `add -A` during a merge, not acknowledged since
    ghost var faults: nat               // commands the environment broke
    ghost var advances: nat             // times other clones moved the remote branch
    ghost var rescues: nat              // working trees reset after a rescue
    ghost var failedAborts: nat         // a `merge --abort` that left the merge in progress
    ghost var rejections: nat           // pushes that the remote rejected
    ghost var stops: nat                // merges that stopped on conflicts
    ghost var stoppedAt: Disk           // the last such stop
    ghost var refusals: nat             // merges and fast-forwards that git refused to start
    ghost var taken: nat                // rescues that the remote refused, the branch name being taken

    /** A clone in any state, a merge in progress included, with nothing acknowledged. */
    constructor (config: Config, ignored: Path -> bool, hub: Hub, disk: Disk, now: int)
      requires 0 < now
      ensures Valid() && acked == map[] && pending == map[] && NothingExempt()
      ensures this.config == config && this.ignored == ignored && this.hub == hub && this.disk == disk
    {
      this.config, this.ignored, this.hub, this.disk, this.now := config, ignored, hub, disk, now;
      pending, acked, inMerge, aborted, overwritten, swept := map[], map[], {}, {}, {}, {};
      faults, advances, rescues, failedAborts, rejections, stops, refusals, taken := 0, 0, 0, 0, 0, 0, 0, 0;
      stoppedAt := disk;
    }

    ghost predicate NothingExempt()
      reads this
    {
      inMerge == {} && aborted == {} && overwritten == {} && swept == {}
    }

    /** The acknowledged content of `p` is at stake. Exempt are ignored paths, paths that
        were acknowledged in a merge which was then aborted, and paths in the place of a
        marker copy. */
    ghost predicate AtStake(p: Path)
      reads this
    {
      p in acked && p !in aborted && p !in overwritten && !ignored(p)
    }

    /** Nothing at stake is lost. */
    ghost predicate Valid()
      reads this
    {
      && 0 < now && TimesOk(pending, now)
      && (disk.merging.None? ==> inMerge == {})
      && forall p | AtStake(p) :: Kept(hub, disk, inMerge, p, acked[p])
    }

    /** There is nothing at `p` that a command on `p` could lose. */
    ghost predicate Free(p: Path)
      reads this
    {
      AtStake(p) ==> Saved(hub, disk.tip, p, acked[p])
    }

    /** No step takes anything back: the history of the branch, the remote and the
        counters only grow. */
    twostate predicate Grown()
      reads this
    {
      && Grows(old(hub), old(disk), hub, disk)
      && faults >= old(faults) && advances >= old(advances) && rescues >= old(rescues)
      && failedAborts >= old(failedAborts) && rejections >= old(rejections)
      && stops >= old(stops) && refusals >= old(refusals) && taken >= old(taken)
      && (stops == old(stops) ==> stoppedAt == old(stoppedAt))
    }

    /** ... and, if nothing breaks, no merge that could be aborted comes to a state in
        which it cannot. */
    twostate predicate Onward()
      reads this
    {
      && Grown()
      && (faults == old(faults) && CanLeaveMerge(old(disk), ignored) ==>
            CanLeaveMerge(disk, ignored) && failedAborts == old(failedAborts))
    }

    /** Nothing acknowledged was in a merge, and so no abort cost anything. */
    twostate predicate Spared()
      reads this
    {
      inMerge == {} && aborted == old(aborted)
    }

    // ------------------------------------------------------- environment

    method Luck() returns (f: Fate)
      modifies `faults
      ensures f.Fine? ==> faults == old(faults)
      ensures f.Broken? ==> faults == old(faults) + 1
    {
      f := *;
      if f.Broken? { faults := faults + 1; }
    }

    method Tick()
      requires Valid()
      modifies `now
      ensures Valid() && now >= old(now)
    {
      var later: int := *;
      if now <= later { now := later; }
    }

    method MoveHub(next: Hub)
      requires Valid() && HubGrows(hub, next)
      modifies `hub
      ensures Valid() && hub == next
    {
      forall p | AtStake(p) && Held(hub, disk, p, acked[p]) ensures Held(next, disk, p, acked[p]) {
        HeldInWork(hub, disk, next, disk, p, acked[p]);
      }
      hub := next;
    }

    /** The remote takes a push. */
    method Land(next: Hub)
      requires Valid() && PushStep(hub, next)
      modifies `hub
      ensures Valid() && hub == next && HubGrows(old(hub), hub)
    {
      PushStepGrows(hub, next);
      MoveHub(next);
    }

    /** Any number of other clones push to the remote. */
    method Others()
      requires Valid()
      modifies `hub, `advances
      ensures Valid() && HubGrows(old(hub), hub)
      ensures advances >= old(advances)
      ensures advances == old(advances) ==> hub.branch == old(hub.branch)
    {
      var next: Hub := *;
      if HubGrows(hub, next) {
        if next.branch != hub.branch { advances := advances + 1; }
        MoveHub(next);
      }
    }

    /** Nothing happened that is counted. */
    twostate predicate Unaffected()
      reads this
    {
      && faults == old(faults) && advances == old(advances) && rescues == old(rescues)
      && rejections == old(rejections) && stops == old(stops) && refusals == old(refusals) && taken == old(taken)
    }

    /** Nothing broke, and the remote branch did not move. */
    twostate predicate Unmoved()
      reads this
    {
      faults == old(faults) && advances == old(advances)
    }

    /** ... and the clone had all of it. */
    twostate predicate Uncontended()
      reads this
    {
      Unmoved() && old(hub).branch in Reach(old(disk).tip)
    }

    // ------------------------------------------------- commands on a path

    /** Run a command whose effect is confined to path `p`, and which git carries out
        exactly if `allowed`. */
    method RunOnPath(p: Path, allowed: bool, after: Disk) returns (r: Reply)
      requires Valid() && Free(p) && SameExcept(disk, after, p)
      modifies `disk, `faults
      ensures Valid() && Grown() && failedAborts == old(failedAborts) && Free(p) && SameExcept(old(disk), disk, p)
      ensures CanLeaveMerge(after, ignored) ==> Onward()
      ensures r.Done? ==> disk == after && faults == old(faults)
      ensures faults == old(faults) ==> !r.Died? && (r.Done? <==> allowed) && (!r.Done? ==> disk == old(disk))
      ensures r.Failed? ==> r.reason == CommandFailed
    {
      var f := Luck();
      if !allowed { return f.Refusal(); }
      var junk: Option<Bytes> := *;
      var next := if f.Applied() then after else WithFile(disk, p, junk);
      assert SameExcept(disk, next, p);
      forall q | AtStake(q) && Held(hub, disk, q, acked[q]) ensures Held(hub, next, q, acked[q]) {
        OtherPathsHeld(hub, disk, next, p, q, acked[q]);
      }
      disk := next;
      return f.Outcome();
    }

    /** Write the file and `git add` it. */
    method StageContent(p: Path, c: Option<Bytes>) returns (r: Reply)
      requires Valid() && Free(p)
      modifies `disk, `faults
      ensures Valid() && Onward() && Free(p) && SameExcept(old(disk), disk, p)
      ensures r.Failed? ==> r.reason == CommandFailed
      ensures r.Done? ==> c.Some? && disk == TakeSide(old(disk), p, c)
      ensures faults == old(faults) ==>
                !r.Died? && (r.Done? <==> c.Some? && AddAllowed(WithFile(old(disk), p, c), ignored, p))
                && (!r.Done? ==> disk == (if c.None? then old(disk) else WithFile(old(disk), p, c)))
                && (OnlyMergeIsDirty(old(disk), ignored) ==> OnlyMergeIsDirty(disk, ignored))
    {
      hide AbortAllowed;
      hide Kept;
      hide StagedPaths;
      hide OnlyMergeIsDirty;
      hide CanLeaveMerge;
      hide Held;
      hide Saved;
      hide TimesOk;
      hide Expendable;
      hide Dirty;
      hide Reach;
      hide RescueReach;
      if OnlyMergeIsDirty(disk, ignored) { StageStaysClean(disk, ignored, p, c); }
      if CanLeaveMerge(disk, ignored) { StageStaysAbortable(disk, ignored, p, c); }
      :- RunOnPath(p, c.Some?, WithFile(disk, p, c));
      r := RunOnPath(p, AddAllowed(disk, ignored, p), AfterAdd(disk, p));
    }

    // ------------------------------------------------------------- commit

    /** `git commit`. `nothing` says that git reported an unchanged clean tree. */
    method CommitIndex() returns (r: Reply, nothing: bool)
      requires Valid()
      modifies `disk, `faults, `inMerge
      ensures Valid() && Onward()
      ensures inMerge == if disk.merging.None? then {} else old(inMerge)
      ensures disk.index == old(disk.index) && disk.work == old(disk.work) && disk.tracking == old(disk.tracking)
      ensures nothing ==> !r.Done? && faults == old(faults) && disk == old(disk)
                          && disk.merging.None? && disk.index == disk.tip.tree
      ensures r.Done? ==> disk == AfterCommit(old(disk), disk.tip.stamp) && faults == old(faults)
      ensures disk.merging.Some? ==> disk == old(disk)
      ensures r.Failed? ==> r.reason == CommandFailed
      ensures faults == old(faults) ==> !r.Died?
      ensures old(disk.merging.None? && disk.index == disk.tip.tree) || old(UnmergedOf(disk)) != map[] ==>
                !r.Done? && disk == old(disk)
      ensures faults == old(faults) && old(disk.merging.Some? && UnmergedOf(disk) == map[]) ==> r.Done?
      ensures faults == old(faults) && old(disk.merging.None? && disk.index != disk.tip.tree) ==> r.Done?
      ensures faults == old(faults) && old(disk.merging.None?) ==>
                !r.Died? && disk.merging.None?
                && (View(), r.Done? || nothing) == C.CommitLocal(old(View()), ignored)
    {
      nothing := false;
      var f := Luck();
      if UnmergedOf(disk) != map[] { return f.Refusal(), false; }
      if disk.merging.None? && disk.index == disk.tip.tree {
        return f.Refusal(), f.Fine? && !Dirty(disk, ignored);
      }
      if f.Applied() {
        var stamp: int := *;
        forall p | AtStake(p) ensures Held(hub, AfterCommit(disk, stamp), p, acked[p]) {
          if Held(hub, disk, p, acked[p]) { CommitKeeps(hub, disk, stamp, p, acked[p]); }
        }
        disk, inMerge := AfterCommit(disk, stamp), {};
      }
      r := f.Outcome();
    }

    // ------------------------------------------------------ fetch and push

    method SetTracking(c: Commit)
      requires Valid()
      modifies `disk
      ensures Valid() && disk == old(disk).(tracking := c)
    {
      var next := disk.(tracking := c);
      forall p | AtStake(p) && Held(hub, disk, p, acked[p]) ensures Held(hub, next, p, acked[p]) {
        HeldInWork(hub, disk, hub, next, p, acked[p]);
      }
      disk := next;
    }

    method Fetch() returns (r: Reply)
      requires Valid()
      modifies `hub, `disk, `advances, `faults
      ensures Valid() && Onward()
      ensures disk == old(disk).(tracking := disk.tracking)
      ensures r.Done? ==> disk.tracking == hub.branch
      ensures advances == old(advances) ==> hub.branch == old(hub).branch
      ensures faults == old(faults) ==> r.Done?
      ensures r.Failed? ==> r.reason == CommandFailed
    {
      Others();
      var f := Luck();
      if f.Applied() { SetTracking(hub.branch); }
      return f.Outcome();
    }

    /** `git push`: the remote takes only a fast-forward. */
    method Push() returns (r: PushReply)
      requires Valid()
      modifies `hub, `disk, `advances, `rejections, `faults
      ensures Valid() && Onward()
      ensures rejections == old(rejections) + (if r.Rejected? then 1 else 0)
      ensures disk == old(disk).(tracking := disk.tracking)
      ensures r.Pushed? ==> hub.branch == disk.tip == disk.tracking
      ensures r.Rejected? ==> disk == old(disk) && hub.branch !in Reach(disk.tip)
      ensures r.Rejected? && advances == old(advances) ==> hub.branch == old(hub.branch)
      ensures faults == old(faults) ==> !r.PushBroken?
      ensures Uncontended() ==> r.Pushed?
    {
      Others();
      var f := Luck();
      if hub.branch !in Reach(disk.tip) {
        if f.Fine? { rejections := rejections + 1; }
        return if f.Fine? then Rejected else PushBroken(f.died);
      }
      if f.Applied() {
        Land(hub.(branch := disk.tip));
        var alsoTracking: bool := *;
        if f.Fine? || alsoTracking { SetTracking(disk.tip); }
      }
      return if f.Fine? then Pushed else PushBroken(f.died);
    }

    // -------------------------------------------------------------- merge

    /** Files a cut-off checkout may have touched: only ones HEAD has. */
    method HalfCheckout(which: set<Path>)
      requires Valid() && disk.merging.None?
      requires forall p | p in which && !ignored(p) :: Get(disk.work, p) == Get(disk.tip.tree, p)
      modifies `disk
      ensures Valid() && disk == old(disk).(work := disk.work)
    {
      var some: set<Path> := *;
      var junk: Tree := *;
      var next := disk.(work := Mix(disk.work, junk, some * which));
      forall p | AtStake(p) ensures Held(hub, next, p, acked[p]) {
        RewritingCleanFiles(hub, disk, next, which, p, acked[p]);
      }
      disk := next;
    }

    /** `git merge --no-edit @{u}`, or with --ff-only. A conflict leaves the merge in
        progress and reports failure; a merge that would overwrite local changes is
        refused and leaves everything alone. */
    method MergeUpstream(ffOnly: bool) returns (r: Reply)
      requires Valid()
      modifies `disk, `faults, `stops, `stoppedAt, `refusals
      ensures Valid() && Onward()
      ensures disk.tracking == old(disk.tracking)
      ensures old(disk.merging.Some?) ==> !r.Done? && disk == old(disk)
      ensures r.Done? ==> disk.merging.None? && disk.tracking in Reach(disk.tip)
      ensures r.Done? && old(!Dirty(disk, ignored)) ==> !Dirty(disk, ignored)
      ensures r.Done? && old(disk.tip in Reach(disk.tracking)) ==> disk.tip == disk.tracking
      ensures ffOnly ==> disk.tip == old(disk.tip) || disk.tip == disk.tracking
      ensures faults == old(faults)
              && old(!Dirty(disk, ignored) && disk.merging.None? && disk.tip in Reach(disk.tracking)) ==>
                r.Done?
      ensures old(disk.merging.None?) && disk.merging.Some? ==>
                !ffOnly && disk.tip == old(disk.tip) && MergeStopped(disk)
      ensures old(disk.merging.None?) && disk.merging.Some? && old(!Dirty(disk, ignored)) ==>
                OnlyMergeIsDirty(disk, ignored)
      ensures faults == old(faults) && !r.Done? && disk.merging.None? ==> disk == old(disk)
      ensures faults == old(faults) ==> !r.Died?
      ensures r != Failed(Unrecoverable)
      ensures stops == old(stops) + (if old(disk.merging.None?) && disk.merging.Some? then 1 else 0)
      ensures stops > old(stops) ==> stoppedAt == disk && disk.merging.value.theirs == disk.tracking
      ensures stops == old(stops) ==> stoppedAt == old(stoppedAt)
      ensures old(disk.tip in Reach(disk.tracking)) ==> stops == old(stops)
      ensures faults == old(faults)
              && old(!Dirty(disk, ignored) && disk.merging.None? && Related(disk.tip, disk.tracking)) && !ffOnly ==>
                r.Done? || stops > old(stops)
      ensures faults == old(faults) && old(disk.merging.None?) ==>
                refusals == old(refusals) + (if r.Done? || disk.merging.Some? then 0 else 1)
      ensures faults == old(faults) && FfAllowed(old(disk), ignored) ==> r.Done?
    {
      var f := Luck();
      r := f.Refusal();
      if disk.merging.Some? { return; }
      r := StartMerge(ffOnly, f);
      if f.Fine? && !r.Done? && disk.merging.None? { refusals := refusals + 1; }
    }

    /** Nothing to do, a fast-forward, or a true merge of histories that are related. */
    method StartMerge(ffOnly: bool, f: Fate) returns (r: Reply)
      requires Valid() && disk.merging.None?
      modifies `disk, `stops, `stoppedAt
      ensures Valid() && Reach(old(disk.tip)) <= Reach(disk.tip) && disk.tracking == old(disk.tracking)
      ensures CanLeaveMerge(disk, ignored) && r != Failed(Unrecoverable)
      ensures r.Done? ==> f.Fine? && disk.merging.None? && disk.tracking in Reach(disk.tip)
      ensures r.Done? && old(!Dirty(disk, ignored)) ==> !Dirty(disk, ignored)
      ensures r.Done? && old(disk.tip in Reach(disk.tracking)) ==> disk.tip == disk.tracking
      ensures ffOnly ==> disk.tip == old(disk.tip) || disk.tip == disk.tracking
      ensures disk.merging.Some? ==> !ffOnly && disk.tip == old(disk.tip) && MergeStopped(disk)
      ensures disk.merging.Some? && old(!Dirty(disk, ignored)) ==> OnlyMergeIsDirty(disk, ignored)
      ensures stops == old(stops) + (if disk.merging.Some? then 1 else 0)
      ensures if disk.merging.Some? then stoppedAt == disk && disk.merging.value.theirs == disk.tracking
              else stoppedAt == old(stoppedAt)
      ensures old(disk.tip in Reach(disk.tracking)) ==> disk.merging.None?
      ensures f.Fine? ==> !r.Died? && (!r.Done? && disk.merging.None? ==> disk == old(disk))
      ensures f.Fine? && FfAllowed(old(disk), ignored) ==> r.Done?
      ensures f.Fine? && old(!Dirty(disk, ignored) && disk.tip in Reach(disk.tracking)) ==> r.Done?
      ensures f.Fine? && old(!Dirty(disk, ignored) && Related(disk.tip, disk.tracking)) && !ffOnly ==>
                r.Done? || disk.merging.Some?
    {
      r := f.Refusal();
      if disk.tracking in Reach(disk.tip) {
        if disk.tip in Reach(disk.tracking) { MutualAncestors(disk.tip, disk.tracking); }
        return f.Outcome();
      }
      if disk.tip in Reach(disk.tracking) {
        if !Dirty(disk, ignored) { CleanAllowsFf(disk, ignored); }
        if FfAllowed(disk, ignored) { r := FastForward(f); }
      } else if !ffOnly && Related(disk.tip, disk.tracking) {
        r := TrueMerge(f);
      }
    }

    method FastForward(f: Fate) returns (r: Reply)
      requires Valid() && FfAllowed(disk, ignored)
      modifies `disk
      ensures Valid() && Reach(old(disk.tip)) <= Reach(disk.tip)
      ensures disk.tracking == old(disk.tracking) && disk.merging.None?
      ensures r == f.Outcome()
      ensures r.Done? ==> disk.tip == disk.tracking
      ensures disk.tip == old(disk.tip) || disk.tip == disk.tracking
      ensures r.Done? && old(!Dirty(disk, ignored)) ==> !Dirty(disk, ignored)
      ensures r != Failed(Unrecoverable)
    {
      if f.Applied() {
        ReachTransitive(disk.tracking, disk.tip);
        forall p | AtStake(p) ensures Held(hub, AfterFf(disk), p, acked[p]) {
          FfKeeps(hub, disk, ignored, p, acked[p]);
        }
        if !Dirty(disk, ignored) { FfStaysClean(disk, ignored); }
        disk := AfterFf(disk);
      } else {
        HalfCheckout(FfRewritten(disk));
      }
      return f.Outcome();
    }

    method TrueMerge(f: Fate) returns (r: Reply)
      requires Valid() && disk.merging.None?
      modifies `disk, `stops, `stoppedAt
      ensures Valid() && Reach(old(disk.tip)) <= Reach(disk.tip)
      ensures disk.tracking == old(disk.tracking)
      ensures r.Done? ==> f.Fine? && disk.merging.None? && disk.tracking in Reach(disk.tip)
      ensures r.Done? && old(!Dirty(disk, ignored)) ==> !Dirty(disk, ignored)
      ensures r.Died? ==> f.Broken?
      ensures disk.merging.Some? ==> disk.tip == old(disk.tip) && MergeStopped(disk)
      ensures disk.merging.Some? && old(!Dirty(disk, ignored)) ==> OnlyMergeIsDirty(disk, ignored)
      ensures f.Fine? && !r.Done? && disk.merging.None? ==> disk == old(disk)
      ensures disk.merging.Some? ==> AbortAllowed(disk, ignored)
      ensures r != Failed(Unrecoverable)
      ensures stops == old(stops) + (if disk.merging.Some? then 1 else 0)
      ensures disk.merging.Some? ==> stoppedAt == disk && disk.merging.value.theirs == disk.tracking
      ensures disk.merging.None? ==> stoppedAt == old(stoppedAt)
      ensures f.Fine? && old(!Dirty(disk, ignored)) ==> r.Done? || disk.merging.Some?
    {
      hide Related;
      hide IsDestination;
      hide MergeStopped;
      hide AbortAllowed;
      hide OnlyMergeIsDirty;
      var m: Proposal, stamp: int := *, *;
      if !(m.merged.Keys !! m.conflicts.Keys) { m := m.(conflicts := map[]); }
      r := f.Refusal();
      if !Dirty(disk, ignored) { CleanAllowsMerge(disk, ignored, m); }
      if !MergeAllowed(disk, ignored, m) { return; }
      if !f.Applied() {
        HalfCheckout(Touched(disk, m));
      } else if m.conflicts == map[] {
        forall p | AtStake(p) ensures Held(hub, AfterMerge(disk, m, stamp), p, acked[p]) {
          MergeKeeps(hub, disk, ignored, m, stamp, p, acked[p]);
        }
        if !Dirty(disk, ignored) { MergeStaysClean(disk, ignored, m, stamp); }
        disk := AfterMerge(disk, m, stamp);
        r := f.Outcome();
      } else {
        Stop(m);
      }
    }

    /** The merge stops and leaves its conflicts. */
    method Stop(m: Proposal)
      requires Valid() && MergeAllowed(disk, ignored, m) && m.conflicts != map[]
      modifies `disk, `stops, `stoppedAt
      ensures Valid() && disk == Stopped(old(disk), m) && disk.merging.Some?
      ensures stops == old(stops) + 1 && stoppedAt == disk
      ensures MergeStopped(disk) && AbortAllowed(disk, ignored)
      ensures old(!Dirty(disk, ignored)) ==> OnlyMergeIsDirty(disk, ignored)
    {
      hide AbortAllowed;
      hide OnlyMergeIsDirty;
      forall p | AtStake(p) ensures Held(hub, Stopped(disk, m), p, acked[p]) {
        StopKeeps(hub, disk, ignored, m, p, acked[p]);
      }
      StopShape(disk, ignored, m);
      StopCanBeAborted(disk, ignored, m);
      StopIsOnlyMerge(disk, ignored, m);
      disk := Stopped(disk, m);
      stops, stoppedAt := stops + 1, disk;
    }

    /** `git merge --abort`. What was acknowledged in the merge and is staged goes with it. */
    method Abort() returns (r: Reply)
      requires Valid()
      modifies `disk, `faults, `failedAborts, `inMerge, `aborted
      ensures Valid() && Onward()
      ensures r.Done? ==> disk.merging.None?
      ensures failedAborts == old(failedAborts) + (if disk.merging.Some? then 1 else 0)
      ensures disk.tip == old(disk.tip) && disk.tracking == old(disk.tracking)
      ensures old(disk.merging.None?) ==> disk == old(disk) && !r.Done?
      ensures faults == old(faults) ==> !r.Died?
      ensures faults == old(faults) && old(disk.merging.Some?) ==>
                (r.Done? <==> AbortAllowed(old(disk), ignored))
                && disk == if r.Done? then AfterAbort(old(disk)) else old(disk)
      ensures if old(disk.merging.Some?) && disk.merging.None?
              then inMerge == {} && aborted == old(aborted + inMerge * StagedPaths(disk))
              else inMerge == old(inMerge) && aborted == old(aborted)
    {
      hide Held;
      hide Saved;
      hide Reach;
      hide RescueReach;
      hide StagedPaths;
      hide AbortAllowed;
      var f := Luck();
      if disk.merging.None? { return f.Refusal(); }
      if !AbortAllowed(disk, ignored) {
        failedAborts := failedAborts + 1;
        return f.Refusal();
      }
      if f.Applied() {
        aborted := aborted + inMerge * StagedPaths(disk);
        forall p | AtStake(p) ensures Held(hub, AfterAbort(disk), p, acked[p]) {
          AbortKeeps(hub, disk, p, acked[p]);
        }
        disk, inMerge := AfterAbort(disk), {};
      } else {
        failedAborts := failedAborts + 1;
      }
      return f.Outcome();
    }

    // -------------------------------------------------- dirty-tree rescue

    /** A read-only `git status`; a broken one reports a clean tree. */
    method WorkingTreeDirty() returns (dirty: bool)
      modifies `faults
      ensures dirty ==> Dirty(disk, ignored)
      ensures faults >= old(faults)
      ensures faults == old(faults) ==> dirty == Dirty(disk, ignored)
    {
      var f := Luck();
      return f.Fine? && Dirty(disk, ignored);
    }

    /** Push the commit object to a rescue branch. */
    method PushRescue(name: int, commit: Commit) returns (r: Reply)
      requires Valid() && commit.tree == RescueTree(disk, ignored)
      modifies `hub, `advances, `faults, `taken
      ensures Valid() && Onward()
      ensures advances == old(advances) ==> hub.branch == old(hub.branch)
      ensures r.Done? ==> Captured(hub, disk, ignored)
      ensures faults == old(faults) ==> !r.Died?
      ensures faults == old(faults) && !r.Done? ==> name in hub.rescues && hub.rescues[name] !in Reach(commit)
      ensures r != Failed(Unrecoverable)
      ensures faults == old(faults) ==> taken == old(taken) + (if r.Done? then 0 else 1)
    {
      Others();
      var f := Luck();
      if !RescueAccepted(hub, name, commit) {
        if f.Fine? { taken := taken + 1; }
        return f.Refusal();
      }
      if f.Applied() {
        RescueGrows(hub, name, commit);
        Land(Rescued(hub, name, commit));
        RescueCaptures(hub, disk, ignored, commit);
      }
      return f.Outcome();
    }

    /** Everything at stake is in a commit nobody can lose. */
    ghost predicate AllSaved()
      reads this
    {
      forall p | AtStake(p) :: Saved(hub, disk.tip, p, acked[p])
    }

    /** `git reset --hard target`; a broken one may leave any index and files. */
    method ResetHard(target: Commit) returns (r: Reply)
      requires Valid() && inMerge == {} && Captured(hub, disk, ignored) && disk.tip in Reach(target)
      modifies `disk, `faults
      ensures Valid() && Onward() && AllSaved() && disk.tracking == old(disk.tracking)
      ensures r.Done? ==> disk == AfterReset(old(disk), target)
      ensures faults == old(faults) ==> r.Done?
      ensures old(disk.merging.None?) ==> disk.merging.None?
      ensures r != Failed(Unrecoverable)
    {
      var f := Luck();
      var moved: bool := *;
      var anyIndex: Tree, anyWork: Tree := *, *;
      ReachTransitive(target, disk.tip);
      var next :=
        if f.Fine? then AfterReset(disk, target)
        else disk.(tip := if moved then target else disk.tip, index := anyIndex, work := anyWork);
      forall p | AtStake(p) ensures Saved(hub, next.tip, p, acked[p]) {
        CapturedIsEnough(hub, disk, ignored, next, p, acked[p]);
      }
      disk := next;
      return f.Outcome();
    }

    /** `git clean -fd` */
    method Clean() returns (r: Reply)
      requires Valid() && AllSaved()
      modifies `disk, `faults
      ensures Valid() && AllSaved() && disk == old(disk).(work := disk.work) && Onward()
      ensures r.Done? ==> disk == AfterClean(old(disk), ignored)
      ensures faults == old(faults) ==> r.Done?
      ensures r != Failed(Unrecoverable)
    {
      var f := Luck();
      var anyWork: Tree := *;
      var next := if f.Fine? then AfterClean(disk, ignored) else disk.(work := anyWork);
      forall p | AtStake(p) ensures Saved(hub, next.tip, p, acked[p]) {
        SavedGrows(hub, disk, hub, next, p, acked[p]);
      }
      disk := next;
      return f.Outcome();
    }

    /** Push the working tree to a rescue branch and only then reset it. Until the push
        has succeeded nothing local changes; once anything local has changed, every
        file that is not ignored is in a commit nobody can lose. */
    method RescueDirtyTree(toUpstream: bool) returns (r: Reply, ghost name: int)
      requires Valid() && inMerge == {}
      requires toUpstream ==> disk.tip in Reach(disk.tracking)
      modifies `hub, `disk, `advances, `faults, `rescues, `taken
      ensures Valid() && Onward() && disk.tracking == old(disk.tracking)
      ensures advances == old(advances) ==> hub.branch == old(hub.branch)
      ensures disk != old(disk) ==>
                rescues > old(rescues)
                && forall p | p in old(disk.work) && !ignored(p) :: Saved(hub, disk.tip, p, old(disk.work)[p])
      ensures rescues <= old(rescues) + 1
      ensures r.Done? ==> rescues == old(rescues) + 1 && disk.merging.None? && !Dirty(disk, ignored)
                          && disk.tip == (if toUpstream then disk.tracking else old(disk.tip))
      ensures old(disk.merging.None?) ==> disk.merging.None?
      ensures faults == old(faults) ==> !r.Died?
      ensures faults == old(faults) && !r.Done? ==> name in hub.rescues
      ensures r != Failed(Unrecoverable)
      ensures faults == old(faults) ==> taken == old(taken) + (if r.Done? then 0 else 1)
    {
      var branch: int, stamp: int := *, *;
      name := branch;
      var commit := ChildCommit(disk.tip, RescueTree(disk, ignored), stamp);
      var made := Luck();    // the temporary index, write-tree, commit-tree and the local rescue branch
      if !made.Fine? { return made.Outcome(), name; }
      r := PushRescue(branch, commit);
      if !r.Done? { return; }
      rescues := rescues + 1;
      ghost var h1, d1 := hub, disk;
      var target := if toUpstream then disk.tracking else disk.tip;
      r := ResetHard(target);
      forall p | p in d1.work && !ignored(p) ensures Saved(hub, disk.tip, p, d1.work[p]) {
        SavedGrows(h1, d1, hub, disk, p, d1.work[p]);
      }
      if !r.Done? { return; }
      ghost var d2 := disk;
      ResetAndCleanIsClean(d1, ignored, target);
      r := Clean();
      forall p | p in d1.work && !ignored(p) ensures Saved(hub, disk.tip, p, d1.work[p]) {
        SavedGrows(hub, d2, hub, disk, p, d1.work[p]);
      }
    }

    /** `git merge --no-edit @{u}`, rescuing a dirty tree and trying once more if git
        refused to start the merge. `rescue` is the failure of the rescue, if any. */
    method MergeWithDirtyTreeRescue() returns (r: Reply, rescue: Reply)
      requires Valid() && disk.merging.None?
      modifies `hub, `disk, `advances, `rejections, `faults, `rescues, `taken, `stops, `stoppedAt, `refusals
      modifies `failedAborts, `inMerge, `aborted
      ensures Valid() && Onward() && Spared() && disk.tracking == old(disk.tracking)
      ensures advances == old(advances) ==> hub.branch == old(hub.branch)
      ensures rejections == old(rejections)
      ensures rescue.Done? || rescue.Failed? || r.Died?
      ensures rescue.Done? && r.Done? ==> disk.merging.None? && disk.tracking in Reach(disk.tip)
      ensures rescue.Failed? ==> disk.merging.None? || failedAborts > old(failedAborts)
      ensures disk.merging.Some? && rescue.Done? ==> MergeStopped(disk)
      ensures rescues <= old(rescues) + 1
      ensures old(!Dirty(disk, ignored)) ==> rescues == old(rescues)
      ensures rescue.Done? && r.Done? && (rescues > old(rescues) || old(!Dirty(disk, ignored))) ==>
                !Dirty(disk, ignored)
      ensures rescue.Done? && disk.merging.Some? && (rescues > old(rescues) || old(!Dirty(disk, ignored))) ==>
                OnlyMergeIsDirty(disk, ignored)
      ensures faults == old(faults) ==> !r.Died?
      ensures faults == old(faults) && old(Dirty(disk, ignored)) && disk.merging.None? && rescue.Done? && !r.Done? ==>
                rescues > old(rescues)
      ensures r != Failed(Unrecoverable)
      ensures faults == old(faults) ==>
                stops == old(stops) + (if disk.merging.Some? then 1 else 0)
                && (disk.merging.Some? ==> stoppedAt == disk && disk.merging.value.theirs == disk.tracking)
      ensures faults == old(faults) && old(Related(disk.tip, disk.tracking)) ==>
                (rescue.Failed? <==> taken > old(taken)) && (rescue.Done? && !r.Done? ==> disk.merging.Some?)
      ensures faults == old(faults) && old(disk.tip in Reach(disk.tracking)) ==> stops == old(stops)
      ensures faults == old(faults) && refusals == old(refusals) ==> rescues == old(rescues)
    {
      rescue := Done;
      var dirty := WorkingTreeDirty();
      r := MergeUpstream(false);
      if r.Done? || r.Died? || !dirty { return; }
      var probe := Luck();   // rev-parse MERGE_HEAD
      if disk.merging.Some? && probe.Fine? { return; }
      r, rescue := RescueAndMerge(r);
    }

    method RescueAndMerge(refusal: Reply) returns (r: Reply, rescue: Reply)
      requires Valid() && inMerge == {} && refusal.Failed? && refusal.reason != Unrecoverable
      modifies `hub, `disk, `advances, `rejections, `faults, `rescues, `taken, `stops, `stoppedAt, `refusals
      modifies `failedAborts, `inMerge, `aborted
      ensures Valid() && Onward() && Spared() && disk.tracking == old(disk.tracking)
      ensures advances == old(advances) ==> hub.branch == old(hub.branch)
      ensures rejections == old(rejections)
      ensures rescue.Done? || rescue.Failed? || r.Died?
      ensures rescue.Done? && r.Done? ==> disk.merging.None? && disk.tracking in Reach(disk.tip)
      ensures rescue.Failed? ==> disk.merging.None? || failedAborts > old(failedAborts)
      ensures disk.merging.Some? && rescue.Done? ==> MergeStopped(disk)
      ensures rescues <= old(rescues) + 1
      ensures rescue.Done? && r.Done? ==> !Dirty(disk, ignored)
      ensures rescue.Done? && disk.merging.Some? ==> OnlyMergeIsDirty(disk, ignored)
      ensures rescue.Done? ==> rescues > old(rescues)
      ensures faults == old(faults) ==> !r.Died?
      ensures r != Failed(Unrecoverable)
      ensures faults == old(faults) && old(disk.merging.None?) ==>
                stops == old(stops) + (if disk.merging.Some? then 1 else 0)
                && (disk.merging.Some? ==> stoppedAt == disk && disk.merging.value.theirs == disk.tracking)
      ensures faults == old(faults) && old(disk.merging.None?) && old(Related(disk.tip, disk.tracking)) ==>
                (rescue.Failed? <==> taken > old(taken)) && (rescue.Done? && !r.Done? ==> disk.merging.Some?)
      ensures faults == old(faults) && old(disk.merging.None? && disk.tip in Reach(disk.tracking)) ==>
                stops == old(stops)
    {
      ghost var name;
      rescue, name := RescueDirtyTree(false);
      if rescue.Died? { return Died, rescue; }
      if rescue.Failed? {
        var a := Abort();
        return if a.Died? then Died else refusal, rescue;
      }
      r := MergeUpstream(false);
    }

    // ------------------------------------------------- push with retries

    /** The context may be done at any point where the code looks. */
    method Cut() returns (cut: bool)
      modifies `faults
      ensures faults >= old(faults) && (cut <==> faults > old(faults))
    {
      var f := Luck();
      return f.Broken?;
    }

    method SleepPushBackoff(attempt: int) returns (r: Reply, wait: int)
      modifies `faults
      ensures IsWait(attempt, wait) && (r.Done? || r == Failed(CommandFailed)) && faults >= old(faults)
      ensures r.Done? <==> faults == old(faults)
    {
      var any: int := *;
      wait := if IsWait(attempt, any) then any else Base(attempt);
      var cut := Cut();
      return if cut then Failed(CommandFailed) else Done, wait;
    }

    /** What happens between two push attempts. `mark` counts the remote's advances up
        to the fetch: while nobody else pushes, the merged tip contains the branch. */
    method RetryPush(nextAttempt: int) returns (r: Reply, wait: int, ghost mark: nat)
      requires Valid() && disk.merging.None?
      modifies `hub, `disk, `advances, `rejections, `faults, `rescues, `taken, `stops, `stoppedAt, `refusals
      modifies `failedAborts, `inMerge, `aborted
      ensures Valid() && Onward() && Spared()
      ensures rejections == old(rejections)
      ensures IsWait(nextAttempt, wait)
      ensures r.Done? ==> disk.merging.None? && old(advances) <= mark <= advances
      ensures r.Done? && advances == mark ==> hub.branch in Reach(disk.tip)
      ensures r.Failed? ==> r.reason == CommandFailed
      ensures !r.Died? ==> disk.merging.None? || failedAborts > old(failedAborts)
      ensures rescues <= old(rescues) + 1
      ensures old(!Dirty(disk, ignored)) ==> rescues == old(rescues)
      ensures r.Done? && (rescues > old(rescues) || old(!Dirty(disk, ignored))) ==> !Dirty(disk, ignored)
      ensures faults == old(faults) ==> !r.Died?
      ensures faults == old(faults) && old(Related(disk.tip, hub.branch)) ==>
                (r.Done? <==> stops == old(stops) && taken == old(taken))
      ensures Unmoved() && old(disk.tip in Reach(hub.branch)) ==> stops == old(stops)
    {
      mark := 0;
      r, wait := SleepPushBackoff(nextAttempt);
      if !r.Done? { return; }
      var lookup := Luck();   // rev-parse @{u}
      if !lookup.Fine? { return lookup.Outcome(), wait, mark; }
      r, mark := FetchAndMerge();
    }

    method FetchAndMerge() returns (r: Reply, ghost mark: nat)
      requires Valid() && disk.merging.None?
      modifies `hub, `disk, `advances, `rejections, `faults, `rescues, `taken, `stops, `stoppedAt, `refusals
      modifies `failedAborts, `inMerge, `aborted
      ensures Valid() && Onward() && Spared()
      ensures rejections == old(rejections)
      ensures r.Done? ==> disk.merging.None? && old(advances) <= mark <= advances
      ensures r.Done? && advances == mark ==> hub.branch in Reach(disk.tip)
      ensures r.Failed? ==> r.reason == CommandFailed
      ensures !r.Died? ==> disk.merging.None? || failedAborts > old(failedAborts)
      ensures rescues <= old(rescues) + 1
      ensures old(!Dirty(disk, ignored)) ==> rescues == old(rescues)
      ensures r.Done? && (rescues > old(rescues) || old(!Dirty(disk, ignored))) ==> !Dirty(disk, ignored)
      ensures faults == old(faults) ==> !r.Died?
      ensures faults == old(faults) && old(Related(disk.tip, hub.branch)) ==>
                (r.Done? <==> stops == old(stops) && taken == old(taken))
      ensures Unmoved() && old(disk.tip in Reach(hub.branch)) ==> stops == old(stops)
    {
      hide RescueReach;
      r := Fetch();
      mark := advances;
      if !r.Done? { return; }
      if Related(old(disk).tip, old(hub).branch) {
        RelatedGrows(old(disk).tip, old(hub).branch, disk.tip, disk.tracking);
      }
      r := MergeFetched();
    }

    /** Merge what was fetched; a merge that stops is aborted. */
    method MergeFetched() returns (r: Reply)
      requires Valid() && disk.merging.None?
      modifies `hub, `disk, `advances, `rejections, `faults, `rescues, `taken, `stops, `stoppedAt, `refusals
      modifies `failedAborts, `inMerge, `aborted
      ensures Valid() && Onward() && Spared() && rejections == old(rejections)
      ensures disk.tracking == old(disk.tracking) && (advances == old(advances) ==> hub.branch == old(hub.branch))
      ensures r.Done? ==> disk.merging.None? && disk.tracking in Reach(disk.tip)
      ensures r.Failed? ==> r.reason == CommandFailed
      ensures !r.Died? ==> disk.merging.None? || failedAborts > old(failedAborts)
      ensures rescues <= old(rescues) + 1
      ensures old(!Dirty(disk, ignored)) ==> rescues == old(rescues)
      ensures r.Done? && (rescues > old(rescues) || old(!Dirty(disk, ignored))) ==> !Dirty(disk, ignored)
      ensures faults == old(faults) ==> !r.Died?
      ensures faults == old(faults) && old(Related(disk.tip, disk.tracking)) ==>
                (r.Done? <==> stops == old(stops) && taken == old(taken))
      ensures faults == old(faults) && old(disk.tip in Reach(disk.tracking)) ==> stops == old(stops)
      ensures faults == old(faults) && refusals == old(refusals) ==> rescues == old(rescues)
    {
      hide Held;
      hide Saved;
      hide Kept;
      hide RescueReach;
      hide StagedPaths;
      hide TimesOk;
      hide Dirty;
      hide AbortAllowed;
      hide OnlyMergeIsDirty;
      var rescue: Reply;
      r, rescue := MergeWithDirtyTreeRescue();
      if r.Died? { return; }
      if !rescue.Done? { return Failed(CommandFailed); }
      if !r.Done? {
        var a := Abort();
        return if a.Died? then Died else Failed(CommandFailed);
      }
    }

    /** One turn of the loop: push, and after a rejection get ready for the next one. */
    method PushAttempt(attempt: nat, ghost before: nat)
      returns (r: Reply, again: bool, wait: int, ghost mark: nat)
      requires Valid() && disk.merging.None? && 1 <= attempt <= MAX_ATTEMPTS
      requires attempt > 1 ==> before <= advances && (advances == before ==> hub.branch in Reach(disk.tip))
      modifies `hub, `disk, `advances, `rejections, `faults, `rescues, `taken, `stops, `stoppedAt, `refusals
      modifies `failedAborts, `inMerge, `aborted
      ensures Valid() && Onward() && Spared()
      ensures again ==> r.Done? && disk.merging.None? && attempt < MAX_ATTEMPTS && IsWait(attempt + 1, wait)
      ensures again ==> mark <= advances && (advances == mark ==> hub.branch in Reach(disk.tip))
      ensures again ==> (if attempt > 1 then before < mark else old(advances) <= mark)
      ensures again || r == Failed(RaceLost) ==> rejections == old(rejections) + 1
      ensures !again && r.Done? ==> hub.branch == disk.tip == disk.tracking && disk.merging.None?
      ensures !r.Died? ==> disk.merging.None? || failedAborts > old(failedAborts)
      ensures r == Failed(RaceLost) ==> attempt == MAX_ATTEMPTS && !again && before < advances
      ensures r.Failed? ==> r.reason == CommandFailed || r.reason == RaceLost
      ensures rescues <= old(rescues) + 1
      ensures old(!Dirty(disk, ignored)) ==> rescues == old(rescues)
      ensures again && (rescues > old(rescues) || old(!Dirty(disk, ignored))) ==> !Dirty(disk, ignored)
      ensures faults == old(faults) ==> !r.Died?
      ensures Uncontended() ==> r.Done? && !again && disk == old(disk).(tracking := disk.tracking)
      ensures faults == old(faults) && old(Related(disk.tip, hub.branch)) ==>
                (r == Failed(CommandFailed) <==> stops > old(stops) || taken > old(taken))
      ensures Unmoved() && old(disk.tip in Reach(hub.branch)) ==> stops == old(stops)
      ensures Uncontended() ==> stops == old(stops) && taken == old(taken)
    {
      hide Dirty;
      hide Held;
      hide Saved;
      hide RescueReach;
      again, wait, mark := false, 0, 0;
      var cut := Cut();
      if cut { return Failed(CommandFailed), again, wait, mark; }
      var push := Push();
      match push {
        case Pushed => r := Done;
        case PushBroken(died) => r := if died then Died else Failed(CommandFailed);
        case Rejected =>
          if attempt == MAX_ATTEMPTS { return Failed(RaceLost), again, wait, mark; }
          r, wait, mark := RetryPush(attempt + 1);
          again := r.Done?;
      }
    }

    /** Push, retrying a lost race up to five attempts in all. Success means that the
        remote has this tip. A race error means five rejections, each after the first
        owed to a new advance of the remote since the fetch before it, and a total
        wait between 1.5 and 3 seconds. */
    method PushWithRetry() returns (r: Reply, ghost waited: int)
      requires Valid() && disk.merging.None?
      modifies `hub, `disk, `advances, `rejections, `faults, `rescues, `taken, `stops, `stoppedAt, `refusals
      modifies `failedAborts, `inMerge, `aborted
      ensures Valid() && Onward() && Spared()
      ensures r.Done? ==> hub.branch == disk.tip == disk.tracking && disk.merging.None?
      ensures !r.Died? ==> disk.merging.None? || failedAborts > old(failedAborts)
      ensures r == Failed(RaceLost) ==>
                rejections == old(rejections) + 5 && advances >= old(advances) + 4 && 1500 <= waited < 3000
      ensures r.Failed? ==> r.reason == CommandFailed || r.reason == RaceLost
      ensures rescues <= old(rescues) + 1
      ensures old(!Dirty(disk, ignored)) ==> rescues == old(rescues)
      ensures faults == old(faults) ==> !r.Died?
      ensures Uncontended() ==> r.Done? && disk == old(disk).(tracking := disk.tracking)
      ensures faults == old(faults) && old(Related(disk.tip, hub.branch)) ==>
                (r == Failed(CommandFailed) <==> stops > old(stops) || taken > old(taken))
      ensures Unmoved() && old(disk.tip in Reach(hub.branch)) ==> stops == old(stops)
      ensures Uncontended() ==> stops == old(stops) && taken == old(taken)
    {
      hide Dirty;
      hide Held;
      hide Reach;
      var attempt := 1;
      ghost var related := Related(disk.tip, hub.branch);
      ghost var waits: seq<int> := [];
      ghost var mark: nat := advances;
      while true
        invariant 1 <= attempt <= MAX_ATTEMPTS
        invariant Valid() && Onward() && Spared() && disk.merging.None?
        invariant if attempt == 1 then disk == old(disk) && hub == old(hub) && Unmoved() else !Uncontended()
        invariant rejections == old(rejections) + attempt - 1
        invariant AreWaits(waits) && |waits| == attempt - 1
        invariant attempt > 1 ==>
                    && old(advances) + attempt - 2 <= mark <= advances
                    && (advances == mark ==> hub.branch in Reach(disk.tip))
        invariant rescues <= old(rescues) + 1
        invariant rescues > old(rescues) || old(!Dirty(disk, ignored)) ==> !Dirty(disk, ignored)
        invariant old(!Dirty(disk, ignored)) ==> rescues == old(rescues)
        invariant related ==> Related(disk.tip, hub.branch)
        invariant faults == old(faults) && related ==> stops == old(stops) && taken == old(taken)
        invariant faults == old(faults) && advances == old(advances) && old(disk.tip in Reach(hub.branch)) ==>
                    stops == old(stops)
        decreases MAX_ATTEMPTS - attempt
      {
        ghost var tip, branch := disk.tip, hub.branch;
        var again: bool, wait: int;
        r, again, wait, mark := PushAttempt(attempt, mark);
        if r == Failed(RaceLost) { FiveAttempts(waits); }
        if !again { return r, Total(waits); }
        if related { RelatedGrows(tip, branch, disk.tip, hub.branch); }
        attempt := attempt + 1;
        waits := waits + [wait];
      }
    }

    // ------------------------------------------------------------- writes

    /** What the coalescing model sees of the clone. */
    ghost function View(): C.Local
      reads this
    {
      C.Local(disk.tip.tree, disk.index, disk.work, Created(pending))
    }

    static function AnswerOf(r: Reply): C.Answer {
      match r
      case Done => C.Accepted
      case Failed(AlreadyExists) => C.Existing
      case Failed(MissingFrontmatter) => C.NoFrontmatter
      case _ => C.Refused
    }

    /** Nothing broke, no merge was in progress, and nobody else pushed: there is no
        remote, or the clone had all of it and it did not move. */
    twostate predicate Quiet()
      reads this
    {
      faults == old(faults) && old(disk).merging.None? && (config.hasRemote ==> Uncontended())
    }

    /** Nothing broke, no merge stopped, no rescue was refused, and the clone and the remote
        have a common history: whatever other clones push, only they can win a race. */
    twostate predicate Unhindered()
      reads this
    {
      && faults == old(faults) && stops == old(stops) && taken == old(taken)
      && (config.hasRemote ==> Related(old(disk).tip, old(hub).branch))
    }

    /** The answer is this one, or acceptance was due and the race against others is lost. */
    static predicate Meets(r: Reply, a: C.Answer) { AnswerOf(r) == a || (r == Failed(RaceLost) && a.Accepted?) }

    /** What a write to a quiet clone does, in full: when it is accepted, and then the files,
        the index, the tip and the remote. */
    twostate predicate Stores(p: Path, raw: Bytes, r: Reply)
      reads this
    {
      var d, c := old(disk), Normalized(p, raw);
      var same, index, work := Get(d.work, p) == Some(c), d.index[p := c], d.work[p := c];
      && (r.Done? <==>
            && !(p in d.work && IsTaskFile(p) && !HasFrontmatter(raw))
            && (same || ((p in d.index || !ignored(p))
                         && (config.coalesce || index != d.tip.tree || Unstaged(index, work, ignored) == {}))))
      && (r.Done? && same ==> disk.work == d.work && disk.index == d.index && disk.tip.tree == d.tip.tree)
      && (r.Done? && !same ==>
            && disk.work == work && disk.index == index
            && if config.coalesce then disk.tip.tree == d.tip.tree && p in pending
               else disk.tip.tree == index && (config.hasRemote && index != d.tip.tree ==> hub.branch == disk.tip))
    }

    /** What the answer to a write of `p` does to the exemptions: they end for `p`, and
        only content that is acknowledged during a merge depends on that merge. */
    twostate predicate Marked(p: Path, r: Reply)
      reads this
    {
      && aborted <= old(aborted) && overwritten <= old(overwritten)
      && swept == (if r.Done? then old(swept) - {p} else old(swept))
      && (r.Done? ==> p !in aborted && p !in overwritten)
      && forall q | q in inMerge && q !in old(inMerge) :: q == p && r.Done? && old(disk).merging.Some?
    }

    /** The client is told that its content is stored. */
    ghost method Acknowledge(p: Path, c: Bytes)
      requires Valid() && (Get(disk.work, p) == Some(c) || Saved(hub, disk.tip, p, c))
      modifies `acked, `inMerge, `aborted, `overwritten, `swept
      ensures Valid() && acked == old(acked)[p := c]
      ensures aborted == old(aborted) - {p} && overwritten == old(overwritten) - {p} && swept == old(swept) - {p}
      ensures inMerge == if disk.merging.Some? then old(inMerge) + {p} else {}
    {
      hide StagedPaths;
      hide Saved;
      hide Reach;
      hide RescueReach;
      hide TimesOk;
      hide IsDestination;
      acked := acked[p := c];
      aborted, overwritten, swept := aborted - {p}, overwritten - {p}, swept - {p};
      if disk.merging.Some? { inMerge := inMerge + {p}; }
      assert forall q | AtStake(q) && q != p :: q in old(acked) && q !in old(aborted) && q !in old(overwritten);
    }

    method WriteFile(p: Path, content: Bytes) returns (r: Reply)
      requires Valid()
      modifies this
      ensures Valid() && Onward()
      ensures r.Done? ==> acked == old(acked)[p := Normalized(p, content)]
      ensures !r.Done? ==> acked == old(acked) || acked == old(acked) - {p}
      ensures TouchedNothing(r) ==> acked == old(acked)
      ensures Marked(p, r)
      ensures old(disk.merging.None?) ==> disk.merging.None? || failedAborts > old(failedAborts) || r.Died?
      ensures faults == old(faults) ==> !r.Died?
      ensures Quiet() ==>
                disk.merging.None?
                && (View(), AnswerOf(r)) == C.Perform(old(View()), ignored, config.coalesce, C.Write(p, content))
      ensures r == Failed(MissingFrontmatter) <==> p in old(disk).work && IsTaskFile(p) && !HasFrontmatter(content)
      ensures Quiet() ==> Stores(p, content, r)
      ensures Unhindered() && old(disk.merging.None?) ==>
                Meets(r, C.Perform(old(View()), ignored, config.coalesce, C.Write(p, content)).1)
    {
      hide C.Written;
      hide Normalized;
      hide HasFrontmatter;
      hide IsTaskFile;
      hide Unstaged;
      C.WrittenExactly(View(), ignored, config.coalesce, p, content, p in disk.work);
      r := WriteFileLocked(p, content, p in disk.work);
    }

    method WriteFileIfAbsent(p: Path, content: Bytes) returns (r: Reply)
      requires Valid()
      modifies this
      ensures Valid() && Onward()
      ensures r.Done? ==> acked == old(acked)[p := Normalized(p, content)] && p !in old(disk).work
      ensures !r.Done? ==> acked == old(acked) || acked == old(acked) - {p}
      ensures TouchedNothing(r) ==> acked == old(acked)
      ensures r == Failed(AlreadyExists) <==> p in old(disk).work
      ensures r == Failed(AlreadyExists) ==> disk == old(disk) && hub == old(hub) && acked == old(acked)
      ensures Marked(p, r)
      ensures old(disk.merging.None?) ==> disk.merging.None? || failedAborts > old(failedAborts) || r.Died?
      ensures faults == old(faults) ==> !r.Died?
      ensures Quiet() ==>
                disk.merging.None?
                && (View(), AnswerOf(r)) ==
                   C.Perform(old(View()), ignored, config.coalesce, C.WriteIfAbsent(p, content))
      ensures Quiet() && p !in old(disk).work ==> Stores(p, content, r)
      ensures Unhindered() && old(disk.merging.None?) ==>
                Meets(r, C.Perform(old(View()), ignored, config.coalesce, C.WriteIfAbsent(p, content)).1)
    {
      hide C.Written;
      hide Normalized;
      hide HasFrontmatter;
      hide IsTaskFile;
      hide Unstaged;
      if p in disk.work { return Failed(AlreadyExists); }
      C.WrittenExactly(View(), ignored, config.coalesce, p, content, false);
      r := WriteFileLocked(p, content, false);
    }

    method WriteFileLocked(p: Path, raw: Bytes, fileExists: bool) returns (r: Reply)
      requires Valid()
      modifies this
      ensures Valid() && Onward()
      ensures r.Done? ==> acked == old(acked)[p := Normalized(p, raw)]
      ensures !r.Done? ==> acked == old(acked) || acked == old(acked) - {p}
      ensures TouchedNothing(r) ==> acked == old(acked)
      ensures Marked(p, r)
      ensures old(disk.merging.None?) ==> disk.merging.None? || failedAborts > old(failedAborts) || r.Died?
      ensures r.Failed? ==> r.reason != AlreadyExists
      ensures faults == old(faults) ==> !r.Died?
      ensures Quiet() ==>
                disk.merging.None?
                && (View(), AnswerOf(r)) == C.Written(old(View()), ignored, config.coalesce, p, raw, fileExists)
      ensures r.Done? && !config.coalesce && config.hasRemote ==> hub.branch == disk.tip || disk.tip == old(disk.tip)
      ensures Unhindered() && old(disk.merging.None?) ==>
                Meets(r, C.Written(old(View()), ignored, config.coalesce, p, raw, fileExists).1)
      ensures r == Failed(MissingFrontmatter) <==> fileExists && IsTaskFile(p) && !HasFrontmatter(raw)
    {
      hide Held;
      hide Normalized;
      hide HasFrontmatter;
      hide IsTaskFile;
      hide AbortAllowed;
      hide TimesOk;
      NormalizedKeepsFrontmatter(p, raw);
      var content := NormalizeTaskPhase(p, raw);
      if fileExists && IsTaskFile(p) && !HasFrontmatter(content) { return Failed(MissingFrontmatter); }
      var read := Luck();
      if read.Fine? && Get(disk.work, p) == Some(content) {
        Acknowledge(p, content);
        return Done;
      }
      r := StoreFile(p, content, fileExists);
    }

    method StoreFile(p: Path, content: Bytes, fileExists: bool) returns (r: Reply)
      requires Valid()
      modifies this
      ensures Valid() && Onward()
      ensures r.Done? ==> acked == old(acked)[p := content]
      ensures !r.Done? ==> acked == old(acked) || acked == old(acked) - {p}
      ensures Marked(p, r)
      ensures old(disk.merging.None?) ==> disk.merging.None? || failedAborts > old(failedAborts) || r.Died?
      ensures r.Failed? ==> r.reason != AlreadyExists && r.reason != MissingFrontmatter
      ensures faults == old(faults) ==> !r.Died?
      ensures Quiet() ==>
                disk.merging.None?
                && (View(), AnswerOf(r)) == C.Stored(old(View()), ignored, config.coalesce, p, content, fileExists)
      ensures r.Done? && !config.coalesce && config.hasRemote ==> hub.branch == disk.tip || disk.tip == old(disk.tip)
      ensures Unhindered() && old(disk.merging.None?) ==>
                Meets(r, C.Stored(old(View()), ignored, config.coalesce, p, content, fileExists).1)
    {
      hide Held;
      hide Saved;
      hide Dirty;
      hide C.Staged;
      hide C.Enqueued;
      hide C.CommitLocal;
      hide TimesOk;
      hide Created;
      hide Enqueued;
      hide RescueReach;
      hide StagedPaths;
      hide Reach;
      hide Get;
      var mkdir := Luck();
      if !mkdir.Fine? { return mkdir.Outcome(); }
      r := Stage(p, content);
      if !r.Done? { return; }
      r := KeepOrCommit(p, content, !fileExists);
    }

    /** What happens to a write that is staged. */
    method KeepOrCommit(p: Path, content: Bytes, created: bool) returns (r: Reply)
      requires Valid() && p !in acked && Get(disk.index, p) == Some(content) == Get(disk.work, p)
      modifies this
      ensures Valid() && Onward()
      ensures r.Done? ==> acked == old(acked)[p := content]
      ensures !r.Done? ==> acked == old(acked)
      ensures Marked(p, r)
      ensures old(disk.merging.None?) ==> disk.merging.None? || failedAborts > old(failedAborts) || r.Died?
      ensures r.Failed? ==> r.reason != AlreadyExists && r.reason != MissingFrontmatter
      ensures faults == old(faults) ==> !r.Died?
      ensures Quiet() ==>
                disk.merging.None?
                && if config.coalesce then r.Done? && View() == C.Enqueued(old(View()), p, created)
                   else (View(), r.Done?) == C.CommitLocal(old(View()), ignored)
      ensures r.Done? && !config.coalesce && config.hasRemote ==> hub.branch == disk.tip || disk.tip == old(disk.tip)
      ensures Unhindered() && old(disk.merging.None?) ==>
                (r.Done? || r == Failed(RaceLost) <==> config.coalesce || C.CommitLocal(old(View()), ignored).1)
    {
      hide Held;
      hide Saved;
      hide Dirty;
      hide C.Enqueued;
      hide C.CommitLocal;
      hide TimesOk;
      hide Created;
      hide Enqueued;
      hide RescueReach;
      hide StagedPaths;
      hide Reach;
      if config.coalesce {
        KeepForLater(p, content, created);
        r := Done;
      } else {
        r := CommitAndPush(p, content);
      }
    }

    method KeepForLater(p: Path, content: Bytes, created: bool)
      requires Valid() && Get(disk.work, p) == Some(content)
      modifies `pending, `now, `acked, `inMerge, `aborted, `overwritten, `swept
      ensures Valid() && acked == old(acked)[p := content] && Marked(p, Done)
      ensures View() == C.Enqueued(old(View()), p, created)
    {
      EnqueuePendingLocked(p, created);
      Acknowledge(p, content);
    }

    method EnqueuePendingLocked(p: Path, created: bool)
      requires Valid()
      modifies `pending, `now
      ensures Valid() && now >= old(now) && pending == Enqueued(old(pending), p, created, now)
      ensures View() == C.Enqueued(old(View()), p, created)
    {
      Tick();
      EnqueuedCreated(pending, p, created, now);
      pending := Enqueued(pending, p, created, now);
    }

    /** Write the file and `git add` it. From here on the old content of the path has
        been written over. */
    method Stage(p: Path, content: Bytes) returns (r: Reply)
      requires Valid()
      modifies `disk, `acked, `faults
      ensures Valid() && Onward() && acked == old(acked) - {p}
      ensures disk.tip == old(disk).tip && (disk.merging.Some? <==> old(disk).merging.Some?)
      ensures r.Failed? ==> r.reason == CommandFailed
      ensures r.Done? ==> Get(disk.index, p) == Some(content) == Get(disk.work, p)
      ensures faults == old(faults) ==> !r.Died?
      ensures faults == old(faults) && old(disk.merging.None?) ==>
                (View(), r.Done?) == C.Staged(old(View()), ignored, p, content)
    {
      hide Held;
      hide Dirty;
      hide Reach;
      hide Created;
      hide StagedPaths;
      hide AfterAdd;
      acked := acked - {p};
      WriteThenAdd(disk, p, content);
      r := StageContent(p, Some(content));
    }

    /** A commit of the branch has the content, and the remote has the branch. */
    ghost predicate Delivered(p: Path, content: Bytes)
      reads this
    {
      && (exists x :: x in Reach(disk.tip) && Get(x.tree, p) == Some(content))
      && (config.hasRemote ==> hub.branch == disk.tip)
    }

    /** The synchronous path: commit the staged file and push. */
    method CommitAndPush(p: Path, content: Bytes) returns (r: Reply)
      requires Valid() && p !in acked && Get(disk.index, p) == Some(content) == Get(disk.work, p)
      modifies `hub, `disk, `advances, `rejections, `faults, `rescues, `taken, `stops, `stoppedAt, `refusals
      modifies `failedAborts, `acked, `inMerge, `aborted, `overwritten, `swept
      ensures Valid() && Onward()
      ensures r.Done? ==> acked == old(acked)[p := content]
      ensures !r.Done? ==> acked == old(acked)
      ensures r.Done? ==>
                || Delivered(p, content)
                || (disk == old(disk) && disk.merging.None? && disk.index == disk.tip.tree
                    && Get(disk.tip.tree, p) == Some(content))
      ensures Marked(p, r)
      ensures old(disk.merging.None?) ==> disk.merging.None? || failedAborts > old(failedAborts) || r.Died?
      ensures r.Failed? ==> r.reason != AlreadyExists && r.reason != MissingFrontmatter
      ensures faults == old(faults) ==> !r.Died?
      ensures Quiet() ==>
                disk.merging.None? && (View(), r.Done?) == C.CommitLocal(old(View()), ignored)
      ensures config.hasRemote && r.Done? ==> hub.branch == disk.tip || disk.tip == old(disk.tip)
      ensures Unhindered() && old(disk.merging.None?) ==>
                (r.Done? || r == Failed(RaceLost) <==> C.CommitLocal(old(View()), ignored).1)
    {
      hide Held;
      hide Dirty;
      hide RescueReach;
      hide C.CommitLocal;
      hide Saved;
      hide StagedPaths;
      hide Kept;
      hide Created;
      hide Reach;
      hide TimesOk;
      hide AbortAllowed;
      hide Delivered;
      hide Unstaged;
      var nothing: bool;
      r, nothing := CommitIndex();
      if !r.Done? && !nothing { return; }
      if Related(old(disk).tip, hub.branch) { RelatedGrows(old(disk).tip, hub.branch, disk.tip, hub.branch); }
      r := PushAndAcknowledge(p, content, nothing);
    }

    method PushAndAcknowledge(p: Path, content: Bytes, nothing: bool) returns (r: Reply)
      requires Valid() && disk.merging.None? && p !in acked && Get(disk.tip.tree, p) == Some(content)
      modifies `hub, `disk, `advances, `rejections, `faults, `rescues, `taken, `stops, `stoppedAt, `refusals
      modifies `failedAborts, `acked, `inMerge, `aborted, `overwritten, `swept
      ensures Valid() && Onward()
      ensures r.Done? ==> acked == old(acked)[p := content]
      ensures !r.Done? ==> acked == old(acked)
      ensures r.Done? ==> nothing || Delivered(p, content)
      ensures nothing ==> r.Done? && disk == old(disk) && hub == old(hub)
      ensures Marked(p, r)
      ensures !r.Died? ==> disk.merging.None? || failedAborts > old(failedAborts)
      ensures r.Failed? ==> r.reason == CommandFailed || r.reason == RaceLost
      ensures faults == old(faults) ==> !r.Died?
      ensures Quiet() ==> r.Done? && disk.merging.None? && View() == old(View())
      ensures Unhindered() ==> r.Done? || r == Failed(RaceLost)
      ensures r.Done? && config.hasRemote ==> nothing || hub.branch == disk.tip
    {
      hide Held;
      hide Saved;
      hide Kept;
      hide Reach;
      hide Created;
      hide RescueReach;
      hide TimesOk;
      r := PushCommitted(p, content, nothing);
      if r.Done? { Acknowledge(p, content); }
    }

    /** The commit that has the content goes to the remote, unless it was there before. */
    method PushCommitted(p: Path, content: Bytes, nothing: bool) returns (r: Reply)
      requires Valid() && disk.merging.None? && Get(disk.tip.tree, p) == Some(content)
      modifies `hub, `disk, `advances, `rejections, `faults, `rescues, `taken, `stops, `stoppedAt, `refusals
      modifies `failedAborts, `inMerge, `aborted
      ensures Valid() && Onward() && Spared()
      ensures nothing ==> r.Done? && disk == old(disk) && hub == old(hub)
      ensures r.Done? ==> Saved(hub, disk.tip, p, content) && disk.merging.None?
      ensures r.Done? ==> nothing || Delivered(p, content)
      ensures !r.Died? ==> disk.merging.None? || failedAborts > old(failedAborts)
      ensures r.Failed? ==> r.reason == CommandFailed || r.reason == RaceLost
      ensures faults == old(faults) ==> !r.Died?
      ensures Quiet() ==> r.Done? && View() == old(View())
      ensures Unhindered() ==> r.Done? || r == Failed(RaceLost)
      ensures r.Done? && config.hasRemote ==> nothing || hub.branch == disk.tip
    {
      hide Held;
      hide Dirty;
      hide RescueReach;
      hide StagedPaths;
      hide UnmergedOf;
      hide Created;
      hide TimesOk;
      hide Related;
      hide Expendable;
      TipIsSaved(hub, disk, p, content);
      if nothing { return Done; }
      ghost var h1, d1 := hub, disk;
      r := PushIfRemote();
      if !r.Done? { return; }
      SavedGrows(h1, d1, hub, disk, p, content);
      assert Delivered(p, content) by { assert d1.tip in Reach(disk.tip) && Get(d1.tip.tree, p) == Some(content); }
    }

    method PushIfRemote() returns (r: Reply)
      requires Valid() && disk.merging.None?
      modifies `hub, `disk, `advances, `rejections, `faults, `rescues, `taken, `stops, `stoppedAt, `refusals
      modifies `failedAborts, `inMerge, `aborted
      ensures Valid() && Onward() && Spared()
      ensures r.Done? ==> disk.merging.None? && (config.hasRemote ==> hub.branch == disk.tip)
      ensures !r.Died? ==> disk.merging.None? || failedAborts > old(failedAborts)
      ensures r.Failed? ==> r.reason == CommandFailed || r.reason == RaceLost
      ensures faults == old(faults) ==> !r.Died?
      ensures Quiet() ==> r.Done? && disk == old(disk).(tracking := disk.tracking)
      ensures Unhindered() ==> r.Done? || r == Failed(RaceLost)
    {
      r := Done;
      if config.hasRemote {
        ghost var waited;
        r, waited := PushWithRetry();
      }
    }

    /** Commit the index and push. `made` is the commit. */
    method CommitAndPushIndex() returns (r: Reply, ghost made: Option<Commit>)
      requires Valid()
      modifies `hub, `disk, `advances, `rejections, `faults, `rescues, `taken, `stops, `stoppedAt, `refusals
      modifies `failedAborts, `inMerge, `aborted
      ensures Valid() && Onward() && aborted == old(aborted) && inMerge <= old(inMerge)
      ensures made.Some? ==> made.value in Reach(disk.tip) && made.value.tree == old(disk).index
      ensures made.None? ==> !r.Done?
      ensures UnmergedOf(old(disk)) != map[] ==> made.None? && disk == old(disk)
      ensures r.Done? && config.hasRemote ==> hub.branch == disk.tip
      ensures old(disk.merging.None?) && !r.Died? ==> disk.merging.None? || failedAborts > old(failedAborts)
      ensures r.Failed? ==> r.reason == CommandFailed || r.reason == RaceLost
      ensures faults == old(faults) ==> !r.Died?
      ensures faults == old(faults) && old(disk.merging.None?) ==> (made.Some? <==> old(disk.index != disk.tip.tree))
      ensures Quiet() ==>
                && (r.Done? <==> made.Some?)
                && if r.Done? then disk.merging.None? && disk.index == old(disk).index == disk.tip.tree
                                   && disk.work == old(disk).work
                   else disk == old(disk)
      ensures Unhindered() && old(disk.merging.None?) ==> (r.Done? || r == Failed(RaceLost) <==> made.Some?)
    {
      made := None;
      var nothing: bool;
      r, nothing := CommitIndex();
      if !r.Done? { return; }
      made := Some(disk.tip);
      if Related(old(disk).tip, hub.branch) { RelatedGrows(old(disk).tip, hub.branch, disk.tip, hub.branch); }
      r := PushIfRemote();
    }

    // ------------------------------------------------------------ flushing

    /** A flush would conclude the merge in progress. */
    predicate FlushConcludes()
      reads this
    {
      pending != map[] && UnmergedOf(disk) == map[]
    }

    /** Commit and push the pending set. `made` is the commit that has it. A failed commit
        keeps the set; once there is a commit the set is empty, and if the push fails the
        commit stays in the history for the next pull to deliver. */
    method FlushPendingLocked() returns (r: Reply, ghost made: Option<Commit>)
      requires Valid()
      modifies `hub, `disk, `advances, `rejections, `faults, `rescues, `taken, `stops, `stoppedAt, `refusals
      modifies `failedAborts, `inMerge, `aborted, `pending
      ensures Valid() && Onward()
      ensures aborted == old(aborted) && inMerge <= old(inMerge)
      ensures made.Some? ==> made.value in Reach(disk.tip) && made.value.tree == old(disk).index
      ensures made.None? ==> pending == old(pending) && disk.work == old(disk).work
      ensures made.Some? && !r.Died? ==> pending == map[]
      ensures r.Done? ==> old(pending) == map[] || made.Some?
      ensures r == Failed(RaceLost) ==> made.Some?
      ensures r.Done? && made.Some? && config.hasRemote ==> hub.branch == disk.tip
      ensures pending == map[] || pending == old(pending)
      ensures old(disk.merging.None?) ==> disk.merging.None? || failedAborts > old(failedAborts) || r.Died?
      ensures r.Failed? ==> r.reason == CommandFailed || r.reason == RaceLost
      ensures old(pending) == map[] ==> r.Done? && disk == old(disk) && hub == old(hub) && Unaffected()
      ensures faults == old(faults) && old(disk.merging.Some?) ==>
                if old(FlushConcludes()) then disk.merging.None? else disk == old(disk)
      ensures faults == old(faults) ==> !r.Died?
      ensures Quiet() ==>
                disk.merging.None?
                && (View(), AnswerOf(r)) == C.Flushed(old(View()), ignored)
      ensures Quiet() && config.hasRemote ==> hub.branch in Reach(disk.tip) && advances == old(advances)
      ensures faults == old(faults) && old(disk.merging.None? && pending != map[]) ==>
                (made.Some? <==> old(C.CanCommit(View(), ignored)))
      ensures Unhindered() && old(disk.merging.None?) ==> Meets(r, C.Flushed(old(View()), ignored).1)
      ensures Quiet() && !r.Done? ==> disk == old(disk)
    {
      hide Held;
      hide Saved;
      hide Dirty;
      hide RescueReach;
      hide C.CommitLocal;
      hide StagedPaths;
      hide Created;
      hide Kept;
      hide Unstaged;
      hide C.CanCommit;
      hide AbortAllowed;
      hide UnmergedOf;
      hide Reach;
      CreatedIsEmpty(pending);
      CreatedIsEmpty(map[]);
      made := None;
      C.CommitsExactly(View(), ignored);
      if pending == map[] { return Done, made; }
      var cut := Cut();
      if cut { return Failed(CommandFailed), made; }
      r := CommitPending();
      if !r.Done? { return; }
      made := Some(disk.tip);
      if Related(old(disk).tip, hub.branch) { RelatedGrows(old(disk).tip, hub.branch, disk.tip, hub.branch); }
      r := PushPending();
    }

    /** The push step of a flush. The set is empty afterwards, whatever comes of it. */
    method PushPending() returns (r: Reply)
      requires Valid() && disk.merging.None?
      modifies `hub, `disk, `advances, `rejections, `faults, `rescues, `taken, `stops, `stoppedAt, `refusals
      modifies `failedAborts, `inMerge, `aborted, `pending
      ensures Valid() && Onward() && Spared()
      ensures pending == if r.Died? then old(pending) else map[]
      ensures r.Done? ==> disk.merging.None? && (config.hasRemote ==> hub.branch == disk.tip)
      ensures !r.Died? ==> disk.merging.None? || failedAborts > old(failedAborts)
      ensures r.Failed? ==> r.reason == CommandFailed || r.reason == RaceLost
      ensures faults == old(faults) ==> !r.Died?
      ensures Unhindered() ==> r.Done? || r == Failed(RaceLost)
      ensures Quiet() ==> r.Done? && disk.merging.None? && View() == old(View()).(pending := map[])
    {
      CreatedIsEmpty(map[]);
      r := PushIfRemote();
      if !r.Died? { pending := map[]; }
    }

    /** The commit step of a flush: it has succeeded too if there was nothing to commit. */
    method CommitPending() returns (r: Reply)
      requires Valid()
      modifies `disk, `faults, `inMerge
      ensures Valid() && Onward() && inMerge <= old(inMerge)
      ensures disk.work == old(disk.work)
      ensures r.Done? ==> disk.merging.None? && disk.tip.tree == old(disk).index
      ensures r.Failed? ==> r.reason == CommandFailed
      ensures disk.merging.Some? ==> disk == old(disk)
      ensures faults == old(faults) ==> !r.Died?
      ensures faults == old(faults) && old(disk.merging.None?) ==>
                disk.merging.None? && (View(), r.Done?) == C.CommitLocal(old(View()), ignored)
      ensures faults == old(faults) && old(disk.merging.Some?) ==>
                if old(UnmergedOf(disk)) == map[] then r.Done? else disk == old(disk)
      ensures !r.Done? && faults == old(faults) ==> disk == old(disk)
    {
      hide Held;
      hide Saved;
      hide Dirty;
      hide RescueReach;
      hide C.CommitLocal;
      hide UnmergedOf;
      hide StagedPaths;
      hide Created;
      hide Kept;
      hide Reach;
      hide Unstaged;
      var nothing: bool;
      r, nothing := CommitIndex();
      if nothing { r := Done; }
    }

    /** Flush if the pending set is due. `t` is the time of the decision. Unless the
        commit step fails, no write is left waiting beyond its bounds. */
    method FlushPendingIfDue() returns (r: Reply, ghost t: int, ghost made: Option<Commit>)
      requires Valid()
      modifies this
      ensures Valid() && Onward()
      ensures acked == old(acked) && overwritten == old(overwritten) && swept == old(swept)
      ensures aborted == old(aborted) && inMerge <= old(inMerge)
      ensures old(disk.merging.None?) ==> disk.merging.None? || failedAborts > old(failedAborts) || r.Died?
      ensures old(now) <= t == now
      ensures made.Some? ==> made.value in Reach(disk.tip) && made.value.tree == old(disk).index
      ensures r.Done? || (made.Some? && !r.Died?) ==> WithinBounds(pending, t, config.delay, config.maxDelay)
      ensures r == Failed(RaceLost) ==> made.Some? && pending == map[]
      ensures pending == old(pending) || pending == map[]
      ensures WithinBounds(old(pending), t, config.delay, config.maxDelay) && old(pending) != map[] ==>
                r.Done? && pending == old(pending) && disk == old(disk)
      ensures faults == old(faults) ==> !r.Died?
      ensures faults == old(faults) && old(disk.merging.None?) && old(C.CanCommit(View(), ignored))
              && !WithinBounds(old(pending), t, config.delay, config.maxDelay) ==>
                made.Some? && pending == map[]
      ensures Quiet() && made.Some? ==>
                r.Done? && disk.tip.tree == disk.index == old(disk).index
                && (config.hasRemote ==> hub.branch == disk.tip)
    {
      hide Kept;
      hide Held;
      hide Saved;
      hide Dirty;
      hide C.CommitLocal;
      hide C.Flushed;
      hide C.CanCommit;
      hide Unstaged;
      hide TimesOk;
      hide Created;
      hide UnmergedOf;
      hide AbortAllowed;
      hide Reach;
      hide RescueReach;
      hide StagedPaths;
      hide Related;
      Tick();
      t, made := now, None;
      C.FlushedExactly(View(), ignored);
      CreatedIsEmpty(pending);
      if pending == map[] { return Done, t, made; }
      var oldest, latest := PendingBounds(pending, now);
      NotDueIsWithinBounds(pending, oldest, latest, now, config.delay, config.maxDelay);
      if !Due(oldest, latest, now, config.delay, config.maxDelay) { return Done, t, made; }
      r, made := FlushPendingLocked();
    }

    // ------------------------------------------------------------- delete

    /** What a delete by a quiet clone does, in full. It is refused if there are pending
        writes that cannot be committed, or if git would not remove the file: because it is
        not tracked, or differs from the index, or is not committed by the flush either. */
    twostate predicate Removes(p: Path, r: Reply)
      reads this
    {
      var d, flushed := old(disk), old(pending) != map[];
      && (r.Done? <==>
            && (flushed ==> d.index != d.tip.tree || Unstaged(d.index, d.work, ignored) == {})
            && (p in d.work ==>
                  && p in d.index && Get(d.work, p) == Get(d.index, p)
                  && (Get(d.tip.tree, p) == Get(d.index, p) || flushed)))
      && (r.Done? ==> p !in disk.work && disk.work == d.work - {p} && pending == map[])
      && (r.Done? && p in d.work ==>
            && p !in disk.index && p !in disk.tip.tree && disk.index == d.index - {p} == disk.tip.tree
            && (config.hasRemote ==> hub.branch == disk.tip))
      && (r.Done? && p !in d.work ==>
            && disk.index == d.index && disk.tip.tree == (if flushed then d.index else d.tip.tree)
            && (config.hasRemote && flushed ==> hub.branch == disk.tip))
      && (!r.Done? ==> disk.work == d.work && disk.index == d.index)
    }

    method DeleteFile(p: Path) returns (r: Reply)
      requires Valid()
      modifies this
      ensures Valid() && Onward()
      ensures r.Done? ==> acked == old(acked) - {p}
      ensures acked == old(acked) || acked == old(acked) - {p}
      ensures aborted == old(aborted) && overwritten == old(overwritten) && swept == old(swept)
      ensures inMerge <= old(inMerge)
      ensures old(disk.merging.None?) ==> disk.merging.None? || failedAborts > old(failedAborts) || r.Died?
      ensures faults == old(faults) ==> !r.Died?
      ensures Quiet() ==>
                disk.merging.None?
                && (View(), AnswerOf(r)) == C.Perform(old(View()), ignored, config.coalesce, C.Delete(p))
      ensures Unhindered() && old(disk.merging.None?) && old(pending) == map[] ==>
                Meets(r, C.Perform(old(View()), ignored, config.coalesce, C.Delete(p)).1)
      ensures Quiet() ==> Removes(p, r)
    {
      hide Held;
      hide Saved;
      hide Dirty;
      hide RescueReach;
      hide Reach;
      hide C.Flushed;
      hide C.Removed;
      hide TimesOk;
      hide Unstaged;
      hide AbortAllowed;
      hide Kept;
      hide StagedPaths;
      hide UnmergedOf;
      hide Created;
      hide Get;
      C.DeletedExactly(View(), ignored, p);
      C.FlushedExactly(View(), ignored);
      CreatedIsEmpty(pending);
      ghost var made;
      r, made := FlushPendingLocked();
      if !r.Done? { return r.Plain(); }
      r := RemoveFlushed(p);
    }

    method RemoveFlushed(p: Path) returns (r: Reply)
      requires Valid()
      modifies `hub, `disk, `advances, `rejections, `faults, `rescues, `taken, `stops, `stoppedAt, `refusals
      modifies `failedAborts, `inMerge, `aborted, `acked
      ensures Valid() && Onward()
      ensures acked == old(acked) - {p} && aborted == old(aborted) && inMerge <= old(inMerge)
      ensures old(disk.merging.None?) ==> disk.merging.None? || failedAborts > old(failedAborts) || r.Died?
      ensures r.Failed? ==> r.reason != AlreadyExists && r.reason != MissingFrontmatter
      ensures faults == old(faults) ==> !r.Died?
      ensures Quiet() ==> disk.merging.None? && (View(), AnswerOf(r)) == C.Removed(old(View()), p)
      ensures Unhindered() && old(disk.merging.None?) ==> Meets(r, C.Removed(old(View()), p).1)
      ensures r.Done? && config.hasRemote && p in old(disk).work ==> hub.branch == disk.tip
      ensures p !in old(disk).work ==> r.Done? && hub == old(hub) && disk == old(disk)
    {
      hide Held;
      hide Saved;
      hide Dirty;
      hide RescueReach;
      hide TimesOk;
      hide Unstaged;
      hide AbortAllowed;
      hide Kept;
      hide StagedPaths;
      acked := acked - {p};
      if p !in disk.work { return Done; }
      r := RemoveAndCommit(p);
    }

    method RemoveAndCommit(p: Path) returns (r: Reply)
      requires Valid() && p !in acked && p in disk.work
      modifies `hub, `disk, `advances, `rejections, `faults, `rescues, `taken, `stops, `stoppedAt, `refusals
      modifies `failedAborts, `inMerge, `aborted
      ensures aborted == old(aborted) && inMerge <= old(inMerge)
      ensures Valid() && Onward()
      ensures old(disk.merging.None?) ==> disk.merging.None? || failedAborts > old(failedAborts) || r.Died?
      ensures r.Failed? ==> r.reason != AlreadyExists && r.reason != MissingFrontmatter
      ensures faults == old(faults) ==> !r.Died?
      ensures Quiet() ==>
                disk.merging.None?
                && (r.Done? <==>
                    old(p in disk.index && Get(disk.tip.tree, p) == Get(disk.index, p) == Get(disk.work, p)))
                && (r.Done? ==> disk.index == old(disk).index - {p} && disk.work == old(disk).work - {p}
                                && disk.tip.tree == disk.index)
                && (!r.Done? ==> disk == old(disk))
      ensures Unhindered() && old(disk.merging.None?) ==>
                (r.Done? || r == Failed(RaceLost) <==>
                 old(p in disk.index && Get(disk.tip.tree, p) == Get(disk.index, p) == Get(disk.work, p)))
      ensures r.Done? && config.hasRemote ==> hub.branch == disk.tip
    {
      hide Held;
      hide Saved;
      hide Dirty;
      hide RescueReach;
      hide Kept;
      hide Reach;
      hide CanLeaveMerge;
      hide OnlyMergeIsDirty;
      RmIsLocal(disk, ignored, p);
      r := RunOnPath(p, RmAllowed(disk, p), AfterRm(disk, p));
      if !r.Done? { return; }
      ghost var made;
      r, made := CommitAndPushIndex();
    }

    // ------------------------------------------------ conflict resolution

    /** Only quarantine destinations become exempt. */
    twostate predicate Careful()
      reads this
    {
      && old(overwritten) <= overwritten
      && forall q | q in overwritten && q !in old(overwritten) :: IsDestination(q)
    }

    /** What settling conflicted paths leaves alone: the tip and the merge itself. */
    twostate predicate Settling()
      reads this
    {
      && Valid() && Onward() && disk.tip == old(disk).tip && disk.tracking == old(disk).tracking
      && (disk.merging.Some? <==> old(disk).merging.Some?)
      && (disk.merging.Some? ==> disk.merging.value.theirs == old(disk).merging.value.theirs)
      && Careful()
    }

    /** Write one side of an unmerged path to the working tree and stage it. */
    method StageSide(p: Path, theirs: bool) returns (r: Reply)
      requires Valid() && Free(p)
      modifies `disk, `faults
      ensures Settling()
      ensures faults == old(faults) ==>
                !r.Died? && (OnlyMergeIsDirty(old(disk), ignored) ==> OnlyMergeIsDirty(disk, ignored))
      ensures faults == old(faults) ==>
                var side := SideOf(old(disk), p, theirs);
                (r.Done? <==> side.Some?) && disk == if side.Some? then TakeSide(old(disk), p, side) else old(disk)
    {
      r := StageContent(p, SideOf(disk, p, theirs));
    }

    /** A deletion on one side is settled by rule, without the resolver: upstream's
        version is kept, and a deletion below `_conflicts/` is accepted. */
    method ResolveModifyDelete(p: Path, kind: Kind) returns (r: Reply)
      requires Valid() && Free(p)
      modifies `disk, `faults
      ensures Settling()
      ensures faults == old(faults) ==>
                !r.Died? && (OnlyMergeIsDirty(old(disk), ignored) ==> OnlyMergeIsDirty(disk, ignored))
      ensures faults == old(faults) && p in UnmergedOf(old(disk)) && kind == KindAt(old(disk), p) ==>
                (r.Done? <==> kind.OursDeleted? || (kind.TheirsDeleted? && UnderConflicts(p)))
                && disk == (if kind.OursDeleted? then TakeSide(old(disk), p, UnmergedOf(old(disk))[p].theirs)
                            else if r.Done? then AfterRm(old(disk), p) else old(disk))
    {
      r := Failed(CommandFailed);
      if kind.OursDeleted? {
        r := StageSide(p, true);
      } else if kind.TheirsDeleted? && UnderConflicts(p) {
        r := RunOnPath(p, p in UnmergedOf(disk) || p in disk.index, AfterRm(disk, p));
      }
    }

    /** The configured resolver stages its merge of the path, or fails. */
    method Resolve(p: Path, answers: map<Path, Bytes>) returns (r: Reply)
      requires Valid() && Free(p)
      modifies `disk, `faults
      ensures Settling()
      ensures faults == old(faults) ==>
                !r.Died? && (OnlyMergeIsDirty(old(disk), ignored) ==> OnlyMergeIsDirty(disk, ignored))
                && (r.Done? <==> p in answers)
                && disk == (if r.Done? then TakeSide(old(disk), p, Some(answers[p])) else old(disk))
    {
      r := RunOnPath(p, p in answers, TakeSide(disk, p, Get(answers, p)));
    }

    /** A file in the place of a quarantine destination is written over. */
    ghost method Overwrite(dest: Path)
      requires Valid() && IsDestination(dest)
      modifies `overwritten
      ensures Settling() && Free(dest)
      ensures overwritten == if dest in disk.work then old(overwritten) + {dest} else old(overwritten)
    {
      hide Saved;
      hide IsDestination;
      hide Reach;
      hide RescueReach;
      hide Dirty;
      if dest in disk.work { overwritten := overwritten + {dest}; }
    }

    /** Put the copy with the markers in its place and stage it. */
    method StageCopy(dest: Path, raw: Bytes) returns (r: Reply)
      requires Valid() && IsDestination(dest)
      modifies `disk, `faults, `overwritten
      ensures Settling() && SameExcept(old(disk), disk, dest)
      ensures faults == old(faults) ==>
                !r.Died? && (OnlyMergeIsDirty(old(disk), ignored) ==> OnlyMergeIsDirty(disk, ignored))
      ensures r.Done? ==> disk == TakeSide(old(disk), dest, Some(raw))
      ensures faults == old(faults) && !ignored(dest) ==> r.Done?
    {
      hide Held;
      hide Saved;
      hide OnlyMergeIsDirty;
      hide IsDestination;
      var mkdir := Luck();
      if !mkdir.Fine? { return mkdir.Outcome(); }
      Overwrite(dest);
      r := StageContent(dest, Some(raw));
    }

    method MoveAside(p: Path, dest: Path, raw: Bytes) returns (r: Reply)
      requires Valid() && Free(p) && IsDestination(dest)
      modifies `disk, `faults, `overwritten
      ensures Settling() && Free(p)
      ensures faults == old(faults) ==>
                !r.Died? && (OnlyMergeIsDirty(old(disk), ignored) ==> OnlyMergeIsDirty(disk, ignored))
      ensures r.Done? ==> disk == TakeSide(AfterRm(old(disk), p), dest, Some(raw))
      ensures faults == old(faults) && p in UnmergedOf(old(disk)) && !ignored(dest) ==> r.Done?
    {
      hide Held;
      hide Saved;
      hide StagedPaths;
      hide AfterRm;
      hide TakeSide;
      hide OnlyMergeIsDirty;
      hide Kept;
      hide IsDestination;
      RmIsLocal(disk, ignored, p);
      r := RunOnPath(p, RmAllowed(disk, p), AfterRm(disk, p));
      if r.Done? { r := StageCopy(dest, raw); }
    }

    /** Copy the file with the markers, remove it, stage the copy and bring back HEAD's
        version. It fails exactly if there is no file to copy, and then it changes nothing,
        or if HEAD does not have the path, and then the path is gone. */
    method QuarantineOne(p: Path, dest: Path) returns (r: Reply)
      requires Valid() && Free(p) && IsDestination(dest)
      modifies `disk, `faults, `overwritten
      ensures Settling()
      ensures faults == old(faults) ==>
                !r.Died? && (OnlyMergeIsDirty(old(disk), ignored) ==> OnlyMergeIsDirty(disk, ignored))
      ensures faults == old(faults) && p in UnmergedOf(old(disk)) && dest != p && !ignored(dest) ==>
                && (r.Done? <==> p in old(disk).work && p in old(disk).tip.tree)
                && disk == if p in old(disk).work then PutAside(old(disk), p, dest) else old(disk)
    {
      hide Held;
      hide Dirty;
      hide RescueReach;
      hide Saved;
      hide Reach;
      hide StagedPaths;
      hide AfterRm;
      hide AfterCheckoutHead;
      hide TakeSide;
      hide OnlyMergeIsDirty;
      hide Kept;
      hide TimesOk;
      hide IsDestination;
      hide AbortAllowed;
      var cut := Cut();
      if cut { return Failed(CommandFailed); }
      var read := Luck();
      if p !in disk.work || !read.Fine? { return read.Refusal(); }
      :- MoveAside(p, dest, disk.work[p]);
      CheckoutIsLocal(disk, ignored, p);
      if p !in disk.tip.tree && dest != p { NothingToCheckOut(old(disk), p, dest); }
      r := RunOnPath(p, p in disk.tip.tree, AfterCheckoutHead(disk, p));
    }

    /** One turn of the loop over the conflicted paths: settle by rule, keep our side below
        `_conflicts/`, try the resolver, put the file aside, in this order. */
    method SettlePath(p: Path, kind: Kind, answers: map<Path, Bytes>, places: Places) returns (r: Reply, aside: bool)
      requires Valid() && Free(p) && p in places && IsDestination(places[p])
      modifies `disk, `faults, `overwritten
      ensures Settling()
      ensures aside ==> r.Done?
      ensures faults == old(faults) ==>
                !r.Died? && (OnlyMergeIsDirty(old(disk), ignored) ==> OnlyMergeIsDirty(disk, ignored))
      ensures faults == old(faults) && p in UnmergedOf(old(disk)) && kind == KindAt(old(disk), p)
              && places[p] != p && (!UnderConflicts(p) ==> !ignored(places[p])) ==>
                var turn := TurnOf(old(disk), answers, p);
                && disk == SettleOne(old(disk), p, answers, places)
                && aside == turn.Aside? && r.Done? == (turn.Resolved? || turn.Aside?)
    {
      hide Held;
      hide Saved;
      hide Dirty;
      hide RescueReach;
      hide Reach;
      hide OnlyMergeIsDirty;
      aside := false;
      r := ResolveModifyDelete(p, kind);
      if !r.Failed? { return; }
      if UnderConflicts(p) {
        r := StageSide(p, false);
        return;
      }
      r := Resolve(p, answers);
      if !r.Failed? { return; }
      r := QuarantineOne(p, places[p]);
      aside := r.Done?;
    }

    method ResolveEachPath(paths: seq<Path>, kinds: map<Path, Kind>, answers: map<Path, Bytes>, places: Places)
      returns (r: Reply, resolved: seq<Path>, quarantined: seq<Path>)
      requires Valid() && forall p | p in paths :: Free(p) && p in places && IsDestination(places[p])
      modifies `disk, `faults, `overwritten
      ensures Settling()
      ensures r.Done? || r.Died?
      ensures faults == old(faults) ==>
                !r.Died? && (OnlyMergeIsDirty(old(disk), ignored) ==> OnlyMergeIsDirty(disk, ignored))
      ensures faults == old(faults) && kinds == Kinds(old(disk)) && ReadyToSettle(old(disk), ignored, paths, places) ==>
                && disk == SettleAll(old(disk), paths, answers, places)
                && resolved == With(paths, old(disk), answers, Resolved)
                && quarantined == With(paths, old(disk), answers, Aside)
    {
      hide LoopState;
      hide With;
      hide OnlyMergeIsDirty;
      hide Saved;
      hide Held;
      hide TurnOf;
      hide SettleOne;
      hide SettleAll;
      hide Kinds;
      hide ReadyToSettle;
      hide KindAt;
      hide Kept;
      hide IsDestination;
      hide UnderConflicts;
      hide TimesOk;
      hide Reach;
      hide RescueReach;
      hide AbortAllowed;
      ghost var d0 := disk;
      ghost var ready := kinds == Kinds(disk) && ReadyToSettle(disk, ignored, paths, places);
      if ready { FirstLoopState(disk, ignored, paths, kinds, answers, places); }
      NoneYet(d0, paths, answers);
      resolved, quarantined := [], [];
      var i := 0;
      while i < |paths|
        invariant 0 <= i <= |paths| && Settling()
        invariant forall p | p in paths :: Free(p)
        invariant faults == old(faults) && OnlyMergeIsDirty(d0, ignored) ==> OnlyMergeIsDirty(disk, ignored)
        invariant faults == old(faults) && ready ==>
                    && LoopState(d0, disk, ignored, paths, i, kinds, answers, places)
                    && resolved == With(paths[..i], d0, answers, Resolved)
                    && quarantined == With(paths[..i], d0, answers, Aside)
      {
        var cut := Cut();
        if cut { return Done, resolved, quarantined; }
        r, resolved, quarantined :=
          NextPath(paths, i, kinds, answers, places, resolved, quarantined, d0, faults == old(faults) && ready);
        if r.Died? { return; }
        i := i + 1;
      }
      assert paths[..i] == paths;
      if faults == old(faults) && ready {
        LastLoopState(d0, disk, ignored, paths, kinds, answers, places);
      }
      r := Done;
    }

    /** One turn of the loop, and the list the path goes to. */
    method NextPath(paths: seq<Path>, i: nat, kinds: map<Path, Kind>, answers: map<Path, Bytes>, places: Places,
                    resolved0: seq<Path>, quarantined0: seq<Path>, ghost d0: Disk, ghost ready: bool)
      returns (r: Reply, resolved: seq<Path>, quarantined: seq<Path>)
      requires Valid() && i < |paths| && Free(paths[i]) && paths[i] in places && IsDestination(places[paths[i]])
      requires ready ==>
                 && LoopState(d0, disk, ignored, paths, i, kinds, answers, places)
                 && resolved0 == With(paths[..i], d0, answers, Resolved)
                 && quarantined0 == With(paths[..i], d0, answers, Aside)
      modifies `disk, `faults, `overwritten
      ensures Settling()
      ensures faults == old(faults) ==>
                !r.Died? && (OnlyMergeIsDirty(old(disk), ignored) ==> OnlyMergeIsDirty(disk, ignored))
      ensures faults == old(faults) && ready ==>
                && LoopState(d0, disk, ignored, paths, i + 1, kinds, answers, places)
                && resolved == With(paths[..i + 1], d0, answers, Resolved)
                && quarantined == With(paths[..i + 1], d0, answers, Aside)
    {
      hide LoopState;
      hide With;
      hide OnlyMergeIsDirty;
      hide Saved;
      hide Held;
      hide TurnOf;
      hide SettleOne;
      hide KindAt;
      hide Kept;
      hide IsDestination;
      hide UnderConflicts;
      hide TimesOk;
      hide Reach;
      hide RescueReach;
      hide AbortAllowed;
      var p := paths[i];
      assert paths[..i + 1] == paths[..i] + [p];
      if ready {
        NextLoopState(d0, disk, ignored, paths, i, kinds, answers, places);
        WithOneMore(paths[..i], d0, answers, Resolved, p);
        WithOneMore(paths[..i], d0, answers, Aside, p);
      }
      resolved, quarantined := resolved0, quarantined0;
      var aside: bool;
      r, aside := SettlePath(p, if p in kinds then kinds[p] else BothSides, answers, places);
      if aside {
        quarantined := quarantined + [p];
      } else if r.Done? {
        resolved := resolved + [p];
      }
    }

    /** What every step of a pull promises: nothing is lost, success means that remote
        and clone have the same tip, and no merge is left in progress, unless an abort
        failed in this very step; and an abort fails only if a command broke or if the merge
        could not be aborted at the start. */
    twostate predicate Stepped(r: Reply)
      reads this
    {
      && Valid() && Onward() && Careful() && Spared()
      && (r.Done? ==> hub.branch == disk.tip == disk.tracking)
      && (!r.Died? ==> disk.merging.None? || failedAborts > old(failedAborts))
      && (r.Done? ==> disk.merging.None?)
      && r != Failed(Unrecoverable) && (faults == old(faults) ==> !r.Died?)
    }

    /** Nothing broke, nobody else pushed, and no rescue was refused. */
    twostate predicate Unopposed()
      reads this
    {
      Unmoved() && taken == old(taken)
    }

    /** The branch has a commit of the merge that stopped last, with every path settled. */
    ghost predicate SettledIn(paths: seq<Path>, answers: map<Path, Bytes>, ts: int, theirs: Commit)
      reads this
    {
      exists x :: x in Reach(disk.tip) && x.MergeCommit? && x.parent == stoppedAt.tip && x.second == theirs
                  && x.tree == SettleAll(stoppedAt, paths, answers, PlacesAt(paths, ts)).index
    }

    /** What comes of a sync with the branch `theirs` that nobody opposes: it succeeds if no
        merge stops on conflicts. If one does, and no destination is in use, it succeeds
        exactly if that merge completes, and then with every path settled. */
    ghost predicate SyncsTo(r: Reply, paths: seq<Path>, answers: map<Path, Bytes>, ts: int, theirs: Commit, before: nat)
      reads this
    {
      if stops == before then r.Done? else
        && MergeStopped(stoppedAt) && stoppedAt.merging.value.theirs == theirs
        && (Settleable(stoppedAt, ignored, paths, ts) ==>
              && (r.Done? <==> Completes(stoppedAt, paths, answers))
              && (r.Done? ==> SettledIn(paths, answers, ts, theirs)))
    }

    /** Abort the merge and report failure. */
    method GiveUp(reason: Reason) returns (r: Reply)
      requires Valid() && inMerge == {} && reason != Unrecoverable
      modifies `disk, `faults, `failedAborts, `inMerge, `aborted
      ensures Stepped(r) && !r.Done? && disk.tip == old(disk.tip)
    {
      var a := Abort();
      r := if a.Died? then Died else Failed(reason);
    }

    method CommitAndPushMerge() returns (r: Reply, ghost made: Option<Commit>)
      requires Valid() && inMerge == {} && disk.merging.Some?
      modifies `hub, `disk, `advances, `rejections, `faults, `rescues, `taken, `stops, `stoppedAt, `refusals
      modifies `failedAborts, `inMerge, `aborted
      ensures Stepped(r)
      ensures made.Some? ==>
                && made.value in Reach(disk.tip)
                && made.value.MergeCommit? && made.value.tree == old(disk).index
                && made.value.parent == old(disk).tip && made.value.second == old(disk).merging.value.theirs
      ensures faults == old(faults) ==> (made.Some? <==> UnmergedOf(old(disk)) == map[])
      ensures rescues <= old(rescues) + 1
      ensures OnlyMergeIsDirty(old(disk), ignored) ==> rescues == old(rescues)
      ensures Unmoved() && old(disk.merging.value.theirs == hub.branch) ==>
                stops == old(stops) && (r.Done? <==> made.Some?)
    {
      hide Dirty;
      hide OnlyMergeIsDirty;
      hide Held;
      hide Saved;
      hide Kept;
      hide TimesOk;
      made := None;
      var nothing: bool;
      r, nothing := CommitIndex();
      if r.Died? { return; }
      if !r.Done? {
        r := GiveUp(CommandFailed);
        return;
      }
      made := Some(disk.tip);
      if OnlyMergeIsDirty(old(disk), ignored) { CommitIsClean(old(disk), ignored, disk.tip.stamp); }
      ghost var waited;
      r, waited := PushWithRetry();
    }

    /** HEAD, or a rescue branch, has whatever matters of an unmerged path. */
    lemma UnmergedIsFree(p: Path)
      requires Valid() && inMerge == {} && p in UnmergedOf(disk)
      ensures Free(p)
    {
    }

    /** What is checked before anything is written: safe paths, the conflict kinds, and
        a place for the `_conflicts` directory. */
    method Preflight(paths: seq<Path>) returns (r: Reply, kinds: map<Path, Kind>)
      requires Valid() && inMerge == {} && disk.merging.Some?
      modifies `disk, `faults, `failedAborts, `inMerge, `aborted
      ensures !r.Done? ==> Stepped(r)
      ensures r.Done? ==> Valid() && Onward() && Spared() && disk == old(disk) && failedAborts == old(failedAborts)
      ensures r.Done? && faults == old(faults) ==> kinds == Kinds(disk)
      ensures faults == old(faults) && DIR !in old(disk).work && (forall p | p in paths :: SafePath(p)) ==> r.Done?
      ensures r.Done? ==> DIR !in disk.work && forall p | p in paths :: SafePath(p)
    {
      hide Held;
      hide StagedPaths;
      kinds := map[];
      if exists p :: p in paths && !SafePath(p) {
        r := GiveUp(ConflictUnresolved);
        return;
      }
      var listed := Luck();   // git ls-files -u
      if listed.Outcome().Died? { return Died, kinds; }
      if listed.Fine? { kinds := Kinds(disk); }
      var mkdir := Luck();
      if mkdir.Outcome().Died? { return Died, kinds; }
      if DIR in disk.work || !mkdir.Fine? {
        r := GiveUp(ConflictUnresolved);
        return;
      }
      r := Done;
    }

    /** Settle every conflicted path, commit the merge and push it. If no command breaks
        and no destination is in use, the merge is committed exactly if it completes, with
        the tree that SettledContent and SettledDestination describe. */
    method ResolveConflictPaths(paths: seq<Path>, answers: map<Path, Bytes>, ts: int)
      returns (r: Reply, ghost made: Option<Commit>)
      requires Valid() && inMerge == {} && disk.merging.Some? && forall p | p in paths :: p in UnmergedOf(disk)
      modifies `hub, `disk, `advances, `rejections, `faults, `rescues, `taken, `stops, `stoppedAt, `refusals
      modifies `failedAborts, `inMerge, `aborted, `overwritten
      ensures Stepped(r)
      ensures made.Some? ==>
                && made.value in Reach(disk.tip) && made.value.MergeCommit?
                && made.value.parent == old(disk).tip && made.value.second == old(disk).merging.value.theirs
      ensures faults == old(faults) && Settleable(old(disk), ignored, paths, ts) ==>
                && (made.Some? <==> Completes(old(disk), paths, answers))
                && (made.Some? ==> made.value.tree == SettleAll(old(disk), paths, answers, PlacesAt(paths, ts)).index)
      ensures rescues <= old(rescues) + 1
      ensures faults == old(faults) && OnlyMergeIsDirty(old(disk), ignored) ==> rescues == old(rescues)
      ensures Unmoved() && old(disk.merging.value.theirs == hub.branch) ==>
                stops == old(stops) && (r.Done? <==> made.Some?)
    {
      hide Dirty;
      hide OnlyMergeIsDirty;
      hide SettleAll;
      hide Kinds;
      hide With;
      hide Completes;
      hide RescueReach;
      hide Held;
      hide Saved;
      hide Reach;
      hide DestPath;
      hide StagedPaths;
      hide ReadyToSettle;
      hide AbortAllowed;
      hide Kept;
      hide TimesOk;
      made := None;
      var kinds: map<Path, Kind>;
      r, kinds := Preflight(paths);
      if !r.Done? { return; }
      var places := PlacesAt(paths, ts);
      forall p | p in paths ensures Free(p) && IsDestination(places[p]) {
        UnmergedIsFree(p);
      }
      var resolved, quarantined;
      r, resolved, quarantined := ResolveEachPath(paths, kinds, answers, places);
      if r.Died? { return; }
      CompletesExactly(old(disk), ignored, paths, answers, ts);
      r, made := FinishMerge(|resolved| == 0 && |quarantined| == 0);
    }

    /** Nothing could be done about any path, or the merge is committed and pushed. */
    method FinishMerge(hopeless: bool) returns (r: Reply, ghost made: Option<Commit>)
      requires Valid() && inMerge == {} && disk.merging.Some?
      modifies `hub, `disk, `advances, `rejections, `faults, `rescues, `taken, `stops, `stoppedAt, `refusals
      modifies `failedAborts, `inMerge, `aborted
      ensures Stepped(r)
      ensures made.Some? ==>
                && made.value in Reach(disk.tip) && made.value.MergeCommit? && made.value.tree == old(disk).index
                && made.value.parent == old(disk).tip && made.value.second == old(disk).merging.value.theirs
      ensures faults == old(faults) ==> (made.Some? <==> !hopeless && UnmergedOf(old(disk)) == map[])
      ensures rescues <= old(rescues) + 1
      ensures OnlyMergeIsDirty(old(disk), ignored) ==> rescues == old(rescues)
      ensures Unmoved() && old(disk.merging.value.theirs == hub.branch) ==>
                stops == old(stops) && (r.Done? <==> made.Some?)
    {
      made := None;
      if hopeless {
        r := GiveUp(ConflictUnresolved);
        return;
      }
      r, made := CommitAndPushMerge();
    }

    /** `paths` is what the output of `git merge` names; it may name any of the
        unmerged paths. `answers` are the contents that the resolver stages, and `ts` is
        the second in the names of marker copies. */
    method ResolveConflictMerge(paths: seq<Path>, answers: map<Path, Bytes>, ts: int)
      returns (r: Reply, ghost made: Option<Commit>)
      requires Valid() && inMerge == {}
      modifies `hub, `disk, `advances, `rejections, `faults, `rescues, `taken, `stops, `stoppedAt, `refusals
      modifies `failedAborts, `inMerge, `aborted, `overwritten
      ensures Stepped(r)
      ensures rescues <= old(rescues) + 1
      ensures faults == old(faults) && (old(disk).merging.Some? ==> OnlyMergeIsDirty(old(disk), ignored)) ==>
                rescues == old(rescues)
      ensures made.Some? ==>
                && old(disk).merging.Some? && made.value in Reach(disk.tip) && made.value.MergeCommit?
                && made.value.parent == old(disk).tip && made.value.second == old(disk).merging.value.theirs
      ensures faults == old(faults) && Settleable(old(disk), ignored, paths, ts) ==>
                && (made.Some? <==> Completes(old(disk), paths, answers))
                && (made.Some? ==> made.value.tree == SettleAll(old(disk), paths, answers, PlacesAt(paths, ts)).index)
      ensures Unmoved() && old(disk.merging.Some? && disk.merging.value.theirs == hub.branch) ==>
                stops == old(stops) && (r.Done? <==> made.Some?)
    {
      hide Dirty;
      hide OnlyMergeIsDirty;
      hide Held;
      hide Saved;
      hide Reach;
      hide Settleable;
      made := None;
      NothingNamed(disk, ignored, paths, answers, ts);
      if paths == [] || exists p :: p in paths && p !in UnmergedOf(disk) {
        r := GiveUp(CommandFailed);
        return;
      }
      assert paths[0] in paths;
      r, made := ResolveConflictPaths(paths, answers, ts);
    }

    method PullMergeAndPush(paths: seq<Path>, answers: map<Path, Bytes>, ts: int) returns (r: Reply)
      requires Valid() && disk.merging.None?
      modifies `hub, `disk, `advances, `rejections, `faults, `rescues, `taken, `stops, `stoppedAt, `refusals
      modifies `failedAborts, `inMerge, `aborted, `overwritten
      ensures Stepped(r)
      ensures faults == old(faults) ==> rescues <= old(rescues) + 1
      ensures faults == old(faults) && old(!Dirty(disk, ignored)) ==> rescues == old(rescues)
      ensures Unopposed() && old(disk.tracking == hub.branch && Related(disk.tip, hub.branch)) ==>
                SyncsTo(r, paths, answers, ts, old(hub).branch, old(stops))
    {
      hide Dirty;
      hide OnlyMergeIsDirty;
      hide Held;
      hide Saved;
      hide Reach;
      hide MergeStopped;
      var rescue: Reply;
      r, rescue := MergeWithDirtyTreeRescue();
      if r.Died? { return; }
      if !rescue.Done? { return Failed(CommandFailed); }
      if r.Done? {
        ghost var waited;
        r, waited := PushWithRetry();
        return;
      }
      ghost var made;
      r, made := ResolveConflictMerge(paths, answers, ts);
    }

    // --------------------------------------------------------------- pull

    /** Fetch and look up the merge base; it fails if the histories are unrelated. */
    method PullFetch() returns (r: Reply, base: Commit)
      requires Valid()
      modifies `hub, `disk, `advances, `faults
      ensures Valid() && Onward() && disk == old(disk).(tracking := disk.tracking)
      ensures Dirty(disk, ignored) == old(Dirty(disk, ignored))
      ensures r.Done? ==> disk.tracking == hub.branch && IsMergeBase(disk.tip, disk.tracking, base)
      ensures faults == old(faults) ==> !r.Died?
      ensures faults == old(faults) && advances == old(advances) && old(InLine(disk.tip, hub.branch)) ==>
                r.Done? && hub.branch == old(hub).branch
      ensures r != Failed(Unrecoverable)
      ensures Unmoved() && old(Related(disk.tip, hub.branch)) ==> r.Done? && hub.branch == old(hub).branch
    {
      base := disk.tip;
      r := Fetch();
      if !r.Done? { return; }
      var lookup := Luck();   // rev-parse HEAD, rev-parse @{u}, merge-base
      if !lookup.Fine? { return lookup.Outcome(), base; }
      assert InLine(disk.tip, disk.tracking) ==>
               var both := Reach(disk.tip) * Reach(disk.tracking); disk.tip in both || disk.tracking in both;
      if Reach(disk.tip) * Reach(disk.tracking) == {} { return Failed(CommandFailed), base; }
      MergeBaseExists(disk.tip, disk.tracking);
      base :| base in Reach(disk.tip) && IsMergeBase(disk.tip, disk.tracking, base);
    }

    method FastForwardOrRescue() returns (r: Reply, rescued: bool)
      requires Valid() && disk.merging.None? && disk.tip in Reach(disk.tracking)
      modifies `hub, `disk, `advances, `faults, `rescues, `taken, `stops, `stoppedAt, `refusals
      ensures Valid() && Onward() && disk.merging.None? && disk.tracking == old(disk).tracking
      ensures rescued ==> r.Done? && old(Dirty(disk, ignored)) && !Dirty(disk, ignored)
      ensures r.Done? && !rescued ==> disk.tip == disk.tracking && hub == old(hub)
      ensures rescues <= old(rescues) + 1
      ensures (!rescued && r.Done?) || old(!Dirty(disk, ignored)) ==> rescues == old(rescues)
      ensures faults == old(faults) && old(!Dirty(disk, ignored)) ==> r.Done?
      ensures faults == old(faults) ==> !r.Died?
      ensures r != Failed(Unrecoverable)
      ensures stops == old(stops) && (faults == old(faults) && taken == old(taken) ==> r.Done?)
      ensures advances == old(advances) ==> hub.branch == old(hub.branch)
      ensures faults == old(faults) && FfAllowed(old(disk), ignored) ==> !rescued && rescues == old(rescues)
    {
      rescued := false;
      var dirty := WorkingTreeDirty();
      r := MergeUpstream(true);
      if r.Done? || r.Died? || !dirty { return; }
      ghost var name;
      r, name := RescueDirtyTree(true);
      rescued := r.Done?;
    }

    /** The four-state sync. It rescues at most once, since the second pass finds a
        clean tree; that is also why it terminates. */
    method SyncWithUpstream(paths: seq<Path>, answers: map<Path, Bytes>, ts: int) returns (r: Reply)
      requires Valid() && disk.merging.None?
      modifies `hub, `disk, `advances, `rejections, `faults, `rescues, `taken, `stops, `stoppedAt, `refusals
      modifies `failedAborts, `inMerge, `aborted, `overwritten
      ensures Stepped(r)
      ensures faults == old(faults) ==> rescues <= old(rescues) + 1
      ensures faults == old(faults) && old(!Dirty(disk, ignored)) ==> rescues == old(rescues)
      ensures faults == old(faults) && advances == old(advances)
              && old(!Dirty(disk, ignored)) && old(InLine(disk.tip, hub.branch)) ==>
                r.Done?
      ensures Unopposed() && old(Related(disk.tip, hub.branch)) ==>
                SyncsTo(r, paths, answers, ts, old(hub).branch, old(stops))
      decreases Dirty(disk, ignored), 1
    {
      hide Dirty;
      hide Held;
      hide Saved;
      hide IsMergeBase;
      hide Reach;
      hide StagedPaths;
      hide Settleable;
      hide Completes;
      hide SettledIn;
      var base: Commit;
      r, base := PullFetch();
      if !r.Done? { return; }
      MergeBaseDecidesAncestry(disk.tip, disk.tracking, base);
      if disk.tip == disk.tracking { return; }
      if disk.tip == base {
        r := CatchUp(paths, answers, ts);
      } else if disk.tracking == base {
        ghost var waited;
        r, waited := PushWithRetry();
      } else {
        r := PullMergeAndPush(paths, answers, ts);
      }
    }

    /** The clone is behind. After a rescue there is a second pass, in a clean tree. */
    method CatchUp(paths: seq<Path>, answers: map<Path, Bytes>, ts: int) returns (r: Reply)
      requires Valid() && disk.merging.None? && disk.tip in Reach(disk.tracking) && hub.branch == disk.tracking
      modifies `hub, `disk, `advances, `rejections, `faults, `rescues, `taken, `stops, `stoppedAt, `refusals
      modifies `failedAborts, `inMerge, `aborted, `overwritten
      ensures Stepped(r)
      ensures faults == old(faults) ==> rescues <= old(rescues) + 1
      ensures faults == old(faults) && old(!Dirty(disk, ignored)) ==> r.Done? && rescues == old(rescues)
      ensures Unopposed() ==> SyncsTo(r, paths, answers, ts, old(hub).branch, old(stops))
      decreases Dirty(disk, ignored), 0
    {
      hide Dirty;
      hide Held;
      hide Saved;
      hide Reach;
      var rescued: bool;
      r, rescued := FastForwardOrRescue();
      if rescued {
        RelatedToItself(disk.tip);
        r := SyncWithUpstream(paths, answers, ts);
      }
    }

    /** An abandoned merge is aborted before anything else. */
    method RecoverRepoState() returns (r: Reply)
      requires Valid()
      modifies `disk, `faults, `failedAborts, `inMerge, `aborted
      ensures Valid() && Onward()
      ensures inMerge <= old(inMerge) && old(aborted) <= aborted <= old(aborted + inMerge)
      ensures r.Done? ==> disk.merging.None?
      ensures r.Failed? ==> r.reason == Unrecoverable
      ensures !r.Died? ==> disk.merging.None? || failedAborts > old(failedAborts)
      ensures faults == old(faults) ==> !r.Died? && (r.Done? <==> CanLeaveMerge(old(disk), ignored))
      ensures faults == old(faults) && !r.Done? ==> disk == old(disk)
      ensures old(disk.merging.None?) ==> r.Done? && disk == old(disk)
    {
      if disk.merging.None? { return Done; }
      r := Abort();
      if r.Failed? { r := Failed(Unrecoverable); }
    }

    /** On success with a remote the clone has everything the remote had when the pull
        began, and the remote has everything the clone has. */
    method Pull(paths: seq<Path>, answers: map<Path, Bytes>, ts: int)
      returns (r: Reply, ghost mid: nat, ghost theirs: Commit)
      requires Valid()
      modifies `hub, `disk, `pending, `advances, `rejections, `faults, `rescues, `taken, `stops, `stoppedAt, `refusals
      modifies `failedAborts, `inMerge, `aborted, `overwritten
      ensures Valid() && Onward() && Careful()
      ensures inMerge <= old(inMerge) && old(aborted) <= aborted <= old(aborted + inMerge)
      ensures r.Done? && config.hasRemote ==>
                && disk.tip == disk.tracking && disk.merging.None?
                && old(hub).branch in Reach(disk.tip) && disk.tip in Reach(hub.branch)
      ensures !r.Died? && (config.hasRemote || old(disk.merging.None?)) ==>
                disk.merging.None? || failedAborts > old(failedAborts)
      ensures faults == old(faults) && config.hasRemote ==>
                && (disk.merging.None? <==> CanLeaveMerge(old(disk), ignored) || old(FlushConcludes()))
                && (r == Failed(Unrecoverable) <==> disk.merging.Some?)
                && (disk.merging.Some? ==> disk == old(disk))
      ensures faults == old(faults) && old(disk.merging.None?) ==> disk.merging.None?
      ensures pending == map[] || pending == old(pending)
      ensures faults == old(faults) ==> !r.Died?
      ensures old(stops) <= mid <= stops && old(hub).branch in Reach(theirs)
              && (old(pending) == map[] ==> mid == old(stops) && theirs == old(hub).branch)
      ensures Unopposed() && config.hasRemote && old(Related(disk.tip, hub.branch)) && disk.merging.None? ==>
                SyncsTo(r, paths, answers, ts, theirs, mid)
    {
      hide Held;
      hide Saved;
      hide Kept;
      hide RescueReach;
      hide TimesOk;
      hide IsDestination;
      hide Dirty;
      hide AbortAllowed;
      hide OnlyMergeIsDirty;
      hide Settleable;
      hide Completes;
      hide SettledIn;
      r := FlushFirst();
      mid, theirs := stops, hub.branch;
      if r.Died? { return; }
      if !config.hasRemote { return Done, mid, theirs; }
      r := RecoverAndSync(paths, answers, ts);
    }

    /** The flush at the start of a pull, which may fail. */
    method FlushFirst() returns (r: Reply)
      requires Valid()
      modifies `hub, `disk, `advances, `rejections, `faults, `rescues, `taken, `stops, `stoppedAt, `refusals
      modifies `failedAborts, `inMerge, `aborted, `pending
      ensures Valid() && Onward() && aborted == old(aborted) && inMerge <= old(inMerge)
      ensures old(hub).branch in Reach(hub.branch) && (pending == map[] || pending == old(pending))
      ensures old(disk.merging.None?) ==> disk.merging.None? || failedAborts > old(failedAborts) || r.Died?
      ensures old(pending) == map[] ==> disk == old(disk) && hub == old(hub) && Unaffected()
      ensures faults == old(faults) && old(disk.merging.Some?) ==>
                if old(FlushConcludes()) then disk.merging.None? else disk == old(disk)
      ensures faults == old(faults) ==> !r.Died?
      ensures old(Related(disk.tip, hub.branch)) ==> Related(disk.tip, hub.branch)
    {
      ghost var made;
      r, made := FlushPendingLocked();
      if Related(old(disk).tip, old(hub).branch) {
        RelatedGrows(old(disk).tip, old(hub).branch, disk.tip, hub.branch);
      }
    }

    method RecoverAndSync(paths: seq<Path>, answers: map<Path, Bytes>, ts: int) returns (r: Reply)
      requires Valid()
      modifies `hub, `disk, `advances, `rejections, `faults, `rescues, `taken, `stops, `stoppedAt, `refusals
      modifies `failedAborts, `inMerge, `aborted, `overwritten
      ensures Valid() && Onward() && Careful()
      ensures inMerge <= old(inMerge) && old(aborted) <= aborted <= old(aborted + inMerge)
      ensures r.Done? ==> hub.branch == disk.tip == disk.tracking && disk.merging.None?
      ensures !r.Died? ==> disk.merging.None? || failedAborts > old(failedAborts)
      ensures faults == old(faults) && r == Failed(Unrecoverable) ==> disk == old(disk)
      ensures faults == old(faults) ==>
                !r.Died?
                && (r == Failed(Unrecoverable) <==> !CanLeaveMerge(old(disk), ignored))
                && (disk.merging.None? <==> CanLeaveMerge(old(disk), ignored))
      ensures Unopposed() && CanLeaveMerge(old(disk), ignored) && old(Related(disk.tip, hub.branch)) ==>
                SyncsTo(r, paths, answers, ts, old(hub).branch, old(stops))
    {
      hide Kept;
      hide Dirty;
      hide IsDestination;
      r := RecoverRepoState();
      if !r.Done? { return; }
      var lookup := Luck();   // rev-parse HEAD, rev-parse @{u}
      if !lookup.Fine? { return lookup.Outcome(); }
      r := SyncWithUpstream(paths, answers, ts);
    }

    // ------------------------------------------------------ boot recovery

    /** What `git add -A` stages in addition. */
    ghost function Swept(before: Disk, after: Disk): set<Path> {
      if before.merging.Some? then StagedPaths(after) - StagedPaths(before) else {}
    }

    /** `git add -A`. During a merge it stages everything, so an abort would then cost
        content that was safe in the working tree before. */
    method AddAll()
      requires Valid()
      modifies `disk, `inMerge, `swept
      ensures Valid() && Onward()
      ensures disk == AfterAddAll(old(disk), ignored)
      ensures inMerge == old(inMerge) + Swept(old(disk), disk) && swept == old(swept) + Swept(old(disk), disk)
    {
      var next := AfterAddAll(disk, ignored);
      inMerge, swept := inMerge + Swept(disk, next), swept + Swept(disk, next);
      forall p | AtStake(p) && Saved(hub, disk.tip, p, acked[p]) ensures Held(hub, next, p, acked[p]) {
        SavedGrows(hub, disk, hub, next, p, acked[p]);
      }
      disk := next;
    }

    /** Commit files that a crash left without `git add`. Only a death is reported. */
    method RecoverUntracked() returns (r: Reply)
      requires Valid()
      modifies `disk, `faults, `inMerge, `swept
      ensures Valid() && Onward() && old(swept) <= swept
      ensures forall p | p in inMerge :: p in old(inMerge) || p in swept
      ensures r.Done? || r.Died?
      ensures old(disk.merging.None?) ==> disk.merging.None? && swept == old(swept)
      ensures faults == old(faults) ==> r.Done?
      ensures r.Done? && faults == old(faults) && old(disk.merging.None?) ==> !HasUntracked(disk, ignored)
      ensures faults == old(faults) ==> disk == AfterRecovery(old(disk), ignored, disk.tip.stamp)
    {
      hide Held;
      hide Saved;
      hide Dirty;
      hide RescueReach;
      hide IsDestination;
      hide StagedPaths;
      hide Kept;
      hide Reach;
      hide AbortAllowed;
      var status := Luck();
      if !status.Fine? { return if status.died then Died else Done; }
      if !HasUntracked(disk, ignored) { return Done; }
      var f := Luck();
      if f.Applied() { AddAll(); }
      if !f.Fine? { return if f.died then Died else Done; }
      var nothing: bool;
      r, nothing := CommitIndex();
      r := if r.Died? then Died else Done;
    }

    /** Commit and push what a crash left staged. `made` is that commit. */
    method RecoverPendingWrites() returns (r: Reply, ghost made: Option<Commit>)
      requires Valid()
      modifies `hub, `disk, `pending, `advances, `rejections, `faults, `rescues, `taken, `stops, `stoppedAt, `refusals
      modifies `failedAborts, `inMerge, `aborted
      ensures aborted == old(aborted) && inMerge <= old(inMerge)
      ensures Valid() && Onward()
      ensures pending == map[] || pending == old(pending)
      ensures r.Done? ==> (made.Some? <==> StagedPaths(old(disk)) != {})
      ensures made.Some? ==> made.value in Reach(disk.tip) && made.value.tree == old(disk).index
      ensures UnmergedOf(old(disk)) != map[] ==> made.None? && disk == old(disk)
      ensures r.Done? && made.Some? && config.hasRemote ==> hub.branch == disk.tip
      ensures old(disk.merging.None?) && !r.Died? ==> disk.merging.None? || failedAborts > old(failedAborts)
      ensures faults == old(faults) ==> !r.Died?
      ensures faults == old(faults) && old(disk.merging.None?) ==> (made.Some? <==> StagedPaths(old(disk)) != {})
    {
      hide Held;
      hide Saved;
      hide Dirty;
      hide RescueReach;
      hide StagedPaths;
      hide AbortAllowed;
      hide Kept;
      hide Reach;
      hide C.CommitLocal;
      made := None;
      var diff := Luck();
      if !diff.Fine? { return diff.Outcome(), made; }
      if disk.merging.None? { NothingStaged(disk); }
      if StagedPaths(disk) == {} { return Done, made; }
      r, made := CommitAndPushIndex();
      if r.Done? { pending := map[]; }
    }

    /** Only what a recovery itself stages during a merge comes to depend on that merge. */
    twostate predicate Recovered()
      reads this
    {
      && Careful() && old(swept) <= swept
      && forall p | p in inMerge || p in aborted :: p in old(inMerge) || p in old(aborted) || p in swept
    }

    /** A commit of the branch has all that a crash left behind: every file that is not
        ignored if one of them was untracked, and otherwise what was staged. */
    twostate predicate Recorded()
      reads this
    {
      exists x :: x in Reach(disk.tip)
                  && if HasUntracked(old(disk), ignored)
                     then forall p | p in old(disk).work && !ignored(p) :: Get(x.tree, p) == Get(old(disk).work, p)
                     else x.tree == old(disk).index
    }

    method RecoverWrites() returns (r: Reply)
      requires Valid()
      modifies this
      ensures Valid() && Onward() && Recovered() && acked == old(acked)
      ensures faults == old(faults) ==> !r.Died?
      ensures old(disk.merging.None?) ==> swept == old(swept)
      ensures faults == old(faults) && old(disk.merging.None?) ==> disk.merging.None?
      ensures faults == old(faults) && old(disk.merging.None?) ==> Recorded()
      ensures old(pending) == map[] ==> pending == map[]
    {
      hide Held;
      hide Saved;
      hide StagedPaths;
      hide IsDestination;
      hide HasUntracked;
      r := RecoverUntracked();
      ghost var d1, made := disk, None;
      if r.Done? { r, made := RecoverPendingWrites(); }
      if faults == old(faults) && old(disk.merging.None?) {
        NothingStaged(d1);
        ghost var x := if made.Some? then made.value else d1.tip;
        assert x in Reach(disk.tip) && x.tree == d1.index;
      }
    }

    method Forget()
      requires Valid()
      modifies `pending, `now
      ensures Valid() && pending == map[] && now >= old(now)
    {
      pending := map[];
      Tick();
    }

    /** The process starts again: its memory is gone, disk and remote are not. */
    method Restart() returns (r: Reply)
      requires Valid()
      modifies this
      ensures Valid() && Onward() && Recovered() && acked == old(acked)
      ensures r.Done? || r.Died?
      ensures faults == old(faults) ==> r.Done?
      ensures old(disk.merging.None?) ==> swept == old(swept)
      ensures faults == old(faults) && old(disk.merging.None?) ==> disk.merging.None?
      ensures faults == old(faults) && old(disk.merging.None?) ==> Recorded()
      ensures pending == map[]
    {
      hide Held;
      hide Saved;
      hide Dirty;
      hide RescueReach;
      hide StagedPaths;
      hide IsDestination;
      hide Kept;
      hide Reach;
      Forget();
      r := RecoverWrites();
      if !r.Died? {
        var paths: seq<Path>, answers: map<Path, Bytes>, ts: int := *, *, *;
        ghost var mid, theirs;
        r, mid, theirs := Pull(paths, answers, ts);
      }
      if !r.Died? { r := Done; }
    }

    // --------------------------------------------------------- whole runs

    /** What clients have been told, see Ledger. */
    ghost predicate Records(ledger: map<Path, Bytes>)
      reads this
    {
      forall p | p in ledger :: p in acked && acked[p] == ledger[p]
    }

    /** Content comes to depend on a merge only if it is written during that merge, and
        stops to when it is written again; only quarantine destinations are written over. */
    twostate predicate Served(e: Event, r: Reply)
      reads this
    {
      && (forall p | p in overwritten :: p in old(overwritten) || IsDestination(p))
      && (forall p :: p in swept <==> p in old(swept) && !Acknowledged(e, r, p))
      && (forall p | p in inMerge || p in aborted ::
            if Acknowledged(e, r, p) then old(disk).merging.Some? else p in old(inMerge) || p in old(aborted))
    }

    method Answer(q: C.Request, ghost ledger: map<Path, Bytes>) returns (r: Reply)
      requires Valid() && Records(ledger)
      modifies this
      ensures Valid() && Onward() && Records(Noted(ledger, Asked(q), r)) && Served(Asked(q), r)
      ensures faults == old(faults) ==> !r.Died?
      ensures faults == old(faults) && old(disk.merging.None?) ==> disk.merging.None?
      ensures Quiet() ==> (View(), AnswerOf(r)) == C.Perform(old(View()), ignored, config.coalesce, q)
    {
      hide Held;
      hide Saved;
      hide Dirty;
      hide RescueReach;
      hide C.Perform;
      hide Normalized;
      hide IsDestination;
      match q {
        case Write(p, c) => r := WriteFile(p, c);
        case WriteIfAbsent(p, c) => r := WriteFileIfAbsent(p, c);
        case Delete(p) => r := DeleteFile(p);
      }
    }

    method Serve(e: Event, ghost ledger: map<Path, Bytes>) returns (r: Reply)
      requires Valid() && Records(ledger)
      modifies this
      ensures Valid() && Onward() && Records(Noted(ledger, e, r)) && Served(e, r)
      ensures faults == old(faults) && r.Died? ==> e.Kill?
      ensures faults == old(faults) && old(disk.merging.None?) ==> disk.merging.None?
      ensures Quiet() && e.Asked? ==>
                (View(), AnswerOf(r)) == C.Perform(old(View()), ignored, config.coalesce, e.request)
      ensures e.FlushTick? && r.Done? ==> WithinBounds(pending, now, config.delay, config.maxDelay)
      ensures e.FlushTick? && faults == old(faults) && old(disk.merging.None?) && old(C.CanCommit(View(), ignored)) ==>
                WithinBounds(pending, now, config.delay, config.maxDelay)
      ensures e.PullTick? && r.Done? && config.hasRemote ==>
                old(hub).branch in Reach(disk.tip) && disk.tip in Reach(hub.branch)
      ensures e.PullTick? && Unopposed() && config.hasRemote && old(Related(disk.tip, hub.branch))
              && stops == old(stops) && disk.merging.None? ==>
                r.Done?
    {
      hide Held;
      hide Saved;
      hide Dirty;
      hide RescueReach;
      hide Reach;
      hide IsDestination;
      match e {
        case Asked(q) => r := Answer(q, ledger);
        case FlushTick =>
          ghost var t, made;
          r, t, made := FlushPendingIfDue();
        case PullTick =>
          var paths: seq<Path>, answers: map<Path, Bytes>, ts: int := *, *, *;
          ghost var mid, theirs;
          r, mid, theirs := Pull(paths, answers, ts);
        case Kill => r := Died;
      }
    }

    /** Start the process, again and again if it dies while starting. `mid` says that one
        of the starts found a merge in progress. */
    method Boot() returns (up: bool, ghost mid: bool)
      requires Valid()
      modifies this
      ensures Valid() && Onward() && Recovered() && acked == old(acked)
      ensures !mid ==> swept == old(swept)
      ensures faults == old(faults) && old(disk.merging.None?) ==> disk.merging.None? && !mid
      ensures up ==> pending == map[]
      ensures up && faults == old(faults) && old(disk.merging.None?) ==> Recorded()
    {
      hide Held;
      hide IsDestination;
      var tries: nat := *;
      var r := Died;
      mid := false;
      while r.Died? && tries > 0
        invariant Valid() && Onward() && Recovered() && acked == old(acked)
        invariant !mid ==> swept == old(swept)
        invariant r.Done? ==> pending == map[]
        invariant faults == old(faults) && old(disk.merging.None?) ==> if r.Done? then Recorded() else disk == old(disk)
        invariant faults == old(faults) && old(disk.merging.None?) ==> disk.merging.None? && !mid
        decreases tries
      {
        if disk.merging.Some? { mid := true; }
        r := Restart();
        tries := tries - 1;
      }
      up := r.Done?;
    }

    /** What one event and, if it was the end of the process, the starts after it do to the
        exemptions. */
    twostate predicate Handled(e: Event, r: Reply, mid: bool)
      reads this
    {
      && (forall p | p in overwritten :: p in old(overwritten) || IsDestination(p))
      && (forall p | p in old(swept) && !Acknowledged(e, r, p) :: p in swept)
      && (forall p | p in swept :: mid || (p in old(swept) && !Acknowledged(e, r, p)))
      && (forall p | p in inMerge || p in aborted ::
            || p in swept
            || if Acknowledged(e, r, p) then old(disk).merging.Some? else p in old(inMerge) || p in old(aborted))
    }

    method Handle(e: Event, ghost ledger: map<Path, Bytes>) returns (r: Reply, up: bool, ghost mid: bool)
      requires Valid() && Records(ledger)
      modifies this
      ensures Valid() && Onward() && Records(Noted(ledger, e, r)) && Handled(e, r, mid)
      ensures mid ==> r.Died?
      ensures faults == old(faults) && old(disk.merging.None?) ==> disk.merging.None? && !mid
      ensures r.Died? && up ==> pending == map[]
    {
      hide Held;
      hide IsDestination;
      hide Noted;
      up, mid := true, false;
      r := Serve(e, ledger);
      if r.Died? { up, mid := Boot(); }
    }

    /** Any run: requests, ticks, crashes and restarts in any order, with any command
        breaking at any time and other clones pushing whenever they like. No history is
        ever lost, here or at the remote. What clients may count on is in a commit nobody
        can lose or in its file; and while a merge is in progress only content that was
        written in that merge, or swept up in it, depends on its not being aborted.
        Exempt are ignored paths, quarantine destinations, and paths of a merge that was
        aborted. `during` tells which requests came while a merge was in progress, and
        `mids` whether the starts before the first event, and those after each event,
        found one. */
    method Run(script: seq<Event>) returns (ghost replies: seq<Reply>, ghost during: seq<bool>, ghost mids: seq<bool>)
      requires Valid() && acked == map[] && NothingExempt()
      modifies this
      ensures Valid() && Onward()
      ensures |during| == |replies| <= |script| && |mids| == |replies| + 1
      ensures forall p | p in Ledger(script, replies) && !ignored(p) && p !in aborted && p !in overwritten ::
                || Held(hub, disk, p, Ledger(script, replies)[p])
                || (p in inMerge && Get(disk.work, p) == Some(Ledger(script, replies)[p]))
      ensures forall p | p in overwritten :: IsDestination(p)
      ensures forall p | p in inMerge || p in aborted ::
                SweptSince(script, replies, mids, p) || LastWriteInMerge(script, replies, during, p)
      ensures forall i | 0 <= i < |replies| && !replies[i].Died? :: !mids[i + 1]
      ensures disk.merging.None? ==> inMerge == {}
      ensures faults == old(faults) && old(disk.merging.None?) ==>
                && inMerge == {} && aborted == {}
                && (forall i | 0 <= i < |during| :: !during[i]) && (forall i | 0 <= i < |mids| :: !mids[i])
    {
      hide Held;
      hide IsDestination;
      hide Noted;
      hide Acknowledged;
      hide Saved;
      hide Reach;
      hide RescueReach;
      replies, during := [], [];
      ghost var mid;
      var up: bool;
      up, mid := Boot();
      mids := [mid];
      var i := 0;
      while i < |script| && up
        invariant i == |replies| && RunState(script, replies, during, mids) && Onward()
        invariant faults == old(faults) && old(disk.merging.None?) ==> Undisturbed(during, mids)
      {
        up, replies, during, mids := Step(script, i, replies, during, mids);
        i := i + 1;
      }
    }

    /** What holds of a run after each event: what clients may count on, and what is exempt. */
    ghost predicate RunState(script: seq<Event>, replies: seq<Reply>, during: seq<bool>, mids: seq<bool>)
      reads this
    {
      && |during| == |replies| <= |script| && |mids| == |replies| + 1
      && Valid() && Records(Ledger(script, replies))
      && (forall p | p in overwritten :: IsDestination(p))
      && (forall p | p in swept :: SweptSince(script, replies, mids, p))
      && (forall p | p in inMerge || p in aborted :: p in swept || LastWriteInMerge(script, replies, during, p))
      && forall k | 0 <= k < |replies| && !replies[k].Died? :: !mids[k + 1]
    }

    ghost predicate Undisturbed(during: seq<bool>, mids: seq<bool>)
      reads this
    {
      && disk.merging.None? && inMerge == {} && aborted == {} && swept == {}
      && (forall k | 0 <= k < |during| :: !during[k]) && (forall k | 0 <= k < |mids| :: !mids[k])
    }

    /** One event of a run. */
    method Step(script: seq<Event>, i: nat,
                ghost replies0: seq<Reply>, ghost during0: seq<bool>, ghost mids0: seq<bool>)
      returns (up: bool, ghost replies: seq<Reply>, ghost during: seq<bool>, ghost mids: seq<bool>)
      requires i == |replies0| < |script| && RunState(script, replies0, during0, mids0)
      modifies this
      ensures |replies| == i + 1 && RunState(script, replies, during, mids) && Onward()
      ensures faults == old(faults) && old(Undisturbed(during0, mids0)) ==> Undisturbed(during, mids)
    {
      hide Held;
      hide IsDestination;
      hide Noted;
      hide Acknowledged;
      during := during0 + [disk.merging.Some?];
      var r: Reply;
      ghost var mid;
      r, up, mid := Handle(script[i], Ledger(script, replies0));
      replies, mids := replies0 + [r], mids0 + [mid];
      assert replies[..i] == replies0 && during[..i] == during0 && mids[..i + 1] == mids0;
    }
  }

  /** The event was a write of `p`, and it was acknowledged. */
  predicate Acknowledged(e: Event, r: Reply, p: Path) {
    e.Asked? && !e.request.Delete? && e.request.path == p && r.Done?
  }

  /** The last acknowledged write of `p` came while a merge was in progress. */
  ghost predicate LastWriteInMerge(script: seq<Event>, replies: seq<Reply>, during: seq<bool>, p: Path)
    requires |during| == |replies| <= |script|
    decreases |replies|
  {
    |replies| > 0
    && var n := |replies| - 1;
    if Acknowledged(script[n], replies[n], p) then during[n] else LastWriteInMerge(script, replies[..n], during[..n], p)
  }

  /** A start of the process that found a merge in progress came after the last
      acknowledged write of `p`. */
  ghost predicate SweptSince(script: seq<Event>, replies: seq<Reply>, mids: seq<bool>, p: Path)
    requires |mids| == |replies| + 1 && |replies| <= |script|
    decreases |replies|
  {
    var n := |replies|;
    || mids[n]
    || (n > 0 && !Acknowledged(script[n - 1], replies[n - 1], p)
        && SweptSince(script, replies[..n - 1], mids[..n], p))
  }
}
