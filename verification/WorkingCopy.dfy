/** The state of one clone and of the remote it pushes to, the effect of each git
    command on it, and what every command must keep. */
module WorkingCopy {
  import opened GitObjects

  /** The three index stages of an unmerged path. */
  datatype Stages = Stages(base: Option<Bytes>, ours: Option<Bytes>, theirs: Option<Bytes>)

  /** MERGE_HEAD and the unmerged index entries. */
  datatype Merging = Merging(theirs: Commit, unmerged: map<Path, Stages>)

  /** One clone: the branch tip, the merged part of the index, the files of the
      working tree, a merge in progress, and the remote-tracking ref. */
  datatype Disk = Disk(tip: Commit, index: Tree, work: Tree, merging: Option<Merging>, tracking: Commit)

  /** What all clones share: the remote's branch, and its rescue branches by the
      second they are named after. */
  datatype Hub = Hub(branch: Commit, rescues: map<int, Commit>)

  type Ignore = Path -> bool

  lemma SameTree(s: Tree, t: Tree)
    requires forall p :: Get(s, p) == Get(t, p)
    ensures s == t
  {
    forall p ensures p in s <==> p in t { assert Get(s, p) == Get(t, p); }
    forall p | p in s ensures s[p] == t[p] { assert Get(s, p) == Get(t, p); }
  }

  // -------------------------------------------------------------- reading

  function UnmergedOf(d: Disk): map<Path, Stages> {
    if d.merging.Some? then d.merging.value.unmerged else map[]
  }

  /** The paths `git diff --cached` lists, unmerged ones included. */
  function StagedPaths(d: Disk): set<Path> {
    Changed(d.index, d.tip.tree) + UnmergedOf(d).Keys
  }

  /** Paths whose working copy differs from the index, as `git status` sees them. */
  function Unstaged(index: Tree, work: Tree, ignored: Ignore): set<Path> {
    set p | p in Changed(work, index) && (p in index || !ignored(p))
  }

  /** The paths `git status --porcelain` lists. */
  function StatusPaths(d: Disk, ignored: Ignore): set<Path> {
    StagedPaths(d) + Unstaged(d.index, d.work, ignored)
  }

  predicate Dirty(d: Disk, ignored: Ignore) { StatusPaths(d, ignored) != {} }

  /** git may overwrite the working copy of this path without losing a change. */
  predicate Expendable(d: Disk, ignored: Ignore, p: Path) {
    Get(d.work, p) == Get(d.index, p) || (p !in d.index && ignored(p))
  }

  function RescueReach(h: Hub): set<Commit> {
    set k, x | k in h.rescues && x in Reach(h.rescues[k]) :: x
  }

  // --------------------------------------------------------------- safety

  /** Content `c` of path `p` is in a commit nobody can lose: in the history of the
      branch, or on a rescue branch of the remote. */
  ghost predicate Saved(h: Hub, tip: Commit, p: Path, c: Bytes) {
    exists x :: x in Reach(tip) + RescueReach(h) && Get(x.tree, p) == Some(c)
  }

  /** Content `c` of path `p` is not lost: it is saved, or it is in the working tree;
      and while a merge is in progress the latter only counts if aborting that merge
      leaves the file alone. */
  ghost predicate Held(h: Hub, d: Disk, p: Path, c: Bytes) {
    Saved(h, d.tip, p, c)
    || (Get(d.work, p) == Some(c) && (d.merging.Some? ==> p !in StagedPaths(d)))
  }

  /** Content `c` of path `p` is not lost: it is held, or the file has it and it was
      acknowledged in the merge that is in progress. */
  ghost predicate Kept(h: Hub, d: Disk, inMerge: set<Path>, p: Path, c: Bytes) {
    Held(h, d, p, c) || (p in inMerge && Get(d.work, p) == Some(c))
  }

  /** The remote only gains: branch history and rescued commits. */
  predicate HubGrows(h0: Hub, h1: Hub) {
    Reach(h0.branch) <= Reach(h1.branch) && RescueReach(h0) <= RescueReach(h1)
  }

  /** ... and so does the history of the branch this clone is on. */
  predicate Grows(h0: Hub, d0: Disk, h1: Hub, d1: Disk) {
    HubGrows(h0, h1) && Reach(d0.tip) <= Reach(d1.tip)
  }

  lemma SavedGrows(h0: Hub, d0: Disk, h1: Hub, d1: Disk, p: Path, c: Bytes)
    requires Grows(h0, d0, h1, d1) && Saved(h0, d0.tip, p, c)
    ensures Saved(h1, d1.tip, p, c)
  {
    var x :| x in Reach(d0.tip) + RescueReach(h0) && Get(x.tree, p) == Some(c);
    assert x in Reach(d1.tip) + RescueReach(h1);
  }

  lemma TipIsSaved(h: Hub, d: Disk, p: Path, c: Bytes)
    requires Get(d.tip.tree, p) == Some(c)
    ensures Saved(h, d.tip, p, c)
  {
    assert d.tip in Reach(d.tip) + RescueReach(h);
  }

  /** A step that leaves the file alone and stages nothing new keeps its content. */
  lemma HeldInWork(h0: Hub, d0: Disk, h1: Hub, d1: Disk, p: Path, c: Bytes)
    requires Grows(h0, d0, h1, d1) && Held(h0, d0, p, c)
    requires Get(d1.work, p) == Get(d0.work, p)
    requires d1.merging.Some? ==> d0.merging.Some? && (p in StagedPaths(d1) ==> p in StagedPaths(d0))
    ensures Held(h1, d1, p, c)
  {
    if Saved(h0, d0.tip, p, c) { SavedGrows(h0, d0, h1, d1, p, c); }
  }

  /** Files may be overwritten in any way as long as HEAD has what was there. */
  lemma RewritingCleanFiles(h: Hub, d0: Disk, d1: Disk, which: set<Path>, p: Path, c: Bytes)
    requires Reach(d0.tip) <= Reach(d1.tip) && d0.merging.None? && Held(h, d0, p, c)
    requires p in which ==> Get(d0.work, p) == Get(d0.tip.tree, p)
    requires p !in which ==> Get(d1.work, p) == Get(d0.work, p)
    requires d1.merging.Some? ==> StagedPaths(d1) <= which
    ensures Held(h, d1, p, c)
  {
    if Saved(h, d0.tip, p, c) {
      SavedGrows(h, d0, h, d1, p, c);
    } else if p in which {
      TipIsSaved(h, d0, p, c);
      SavedGrows(h, d0, h, d1, p, c);
    }
  }

  // -------------------------------------------------------- `git commit`

  function AfterCommit(d: Disk, stamp: int): Disk {
    var c := if d.merging.Some? then MergeCommit(d.tip, d.merging.value.theirs, d.index, stamp)
             else ChildCommit(d.tip, d.index, stamp);
    d.(tip := c, merging := None)
  }

  lemma CommitKeeps(h: Hub, d: Disk, stamp: int, p: Path, c: Bytes)
    requires Held(h, d, p, c)
    ensures Held(h, AfterCommit(d, stamp), p, c)
  {
    HeldInWork(h, d, h, AfterCommit(d, stamp), p, c);
  }

  // --------------------------------------------- `git merge`, fast-forward

  function FfPaths(d: Disk): set<Path> { Changed(d.tip.tree, d.tracking.tree) }

  /** The files a fast-forward overwrites. */
  function FfRewritten(d: Disk): set<Path> {
    set p | p in FfPaths(d) && Get(d.index, p) != Get(d.tracking.tree, p)
  }

  predicate FfAllowed(d: Disk, ignored: Ignore) {
    && d.merging.None? && d.tip in Reach(d.tracking)
    && forall p | p in FfRewritten(d) :: Get(d.index, p) == Get(d.tip.tree, p) && Expendable(d, ignored, p)
  }

  function AfterFf(d: Disk): Disk {
    var up := d.tracking.tree;
    d.(tip := d.tracking, index := Mix(d.index, up, FfPaths(d)), work := Mix(d.work, up, FfRewritten(d)))
  }

  lemma FfKeeps(h: Hub, d: Disk, ignored: Ignore, p: Path, c: Bytes)
    requires FfAllowed(d, ignored) && !ignored(p) && Held(h, d, p, c)
    ensures Held(h, AfterFf(d), p, c)
  {
    ReachTransitive(d.tracking, d.tip);
    RewritingCleanFiles(h, d, AfterFf(d), FfRewritten(d), p, c);
  }

  /** Nothing but the working tree has content `c` of path `p`, and nothing upstream has it. */
  ghost predicate OnlyInWork(h: Hub, d: Disk, p: Path, c: Bytes) {
    && Get(d.work, p) == Some(c) && !Saved(h, d.tip, p, c)
    && forall x | x in Reach(d.tracking) :: Get(x.tree, p) != Some(c)
  }

  /** Exactly what a fast-forward discards: an ignored file that git did not track and
      upstream does. */
  lemma FfLosesExactly(h: Hub, d: Disk, ignored: Ignore, p: Path, c: Bytes)
    requires FfAllowed(d, ignored) && OnlyInWork(h, d, p, c)
    ensures Held(h, AfterFf(d), p, c) <==>
            !(ignored(p) && p !in d.index && p !in d.tip.tree && p in d.tracking.tree)
  {
    if Get(d.tip.tree, p) == Some(c) { TipIsSaved(h, d, p, c); }
    assert !Saved(h, AfterFf(d).tip, p, c) by {
      forall x | x in Reach(d.tracking) + RescueReach(h) ensures Get(x.tree, p) != Some(c) {
        if x in RescueReach(h) { assert x in Reach(d.tip) + RescueReach(h); }
      }
    }
  }

  /** The tree is clean, a fast-forward is allowed, nothing is reported, and an ignored
      file is written over. */
  lemma IgnoredFileIsOverwritten(ignored: Ignore)
    requires ignored("x.log")
    ensures exists h: Hub, d: Disk, c: Bytes ::
              && !Dirty(d, ignored) && FfAllowed(d, ignored) && Held(h, d, "x.log", c)
              && !Held(h, AfterFf(d), "x.log", c)
  {
    var tip := RootCommit(map[], 0);
    var up := ChildCommit(tip, map["x.log" := "theirs"], 1);
    var d := Disk(tip, map[], map["x.log" := "ours"], None, up);
    var h := Hub(up, map[]);
    assert RescueReach(h) == {} && Reach(tip) == {tip} && Reach(up) == {up, tip};
    forall p ensures p !in StatusPaths(d, ignored) {}
    CleanAllowsFf(d, ignored);
    FfLosesExactly(h, d, ignored, "x.log", "ours");
  }

  /** In a clean tree git never refuses a fast-forward. */
  lemma CleanAllowsFf(d: Disk, ignored: Ignore)
    requires d.merging.None? && !Dirty(d, ignored) && d.tip in Reach(d.tracking)
    ensures FfAllowed(d, ignored)
  {
    forall p | p in FfRewritten(d) ensures Get(d.index, p) == Get(d.tip.tree, p) && Expendable(d, ignored, p) {
      assert p !in StatusPaths(d, ignored);
    }
  }

  lemma FfStaysClean(d: Disk, ignored: Ignore)
    requires FfAllowed(d, ignored) && !Dirty(d, ignored)
    ensures !Dirty(AfterFf(d), ignored)
  {
    var d' := AfterFf(d);
    forall p ensures p !in StatusPaths(d', ignored) {
      assert p !in StatusPaths(d, ignored);
      assert Get(d.index, p) == Get(d.tip.tree, p);
      assert p in FfRewritten(d) <==> p in FfPaths(d);
      assert Get(d'.index, p) == Get(d.tracking.tree, p);
    }
  }

  // ----------------------------------------------- `git merge`, true merge

  /** What git works out: the paths it could merge, the ones it could not, and the
      working copies of the latter. */
  datatype Proposal = Proposal(merged: Tree, conflicts: map<Path, Stages>, drafts: Tree)

  function Touched(d: Disk, m: Proposal): set<Path> { Changed(d.index, m.merged) + m.conflicts.Keys }

  datatype Kind = BothSides | OursDeleted | TheirsDeleted

  function KindOf(s: Stages): Kind {
    if s.theirs.Some? && s.ours.None? then OursDeleted else
    if s.ours.Some? && s.theirs.None? then TheirsDeleted else BothSides
  }

  predicate MergeAllowed(d: Disk, ignored: Ignore, m: Proposal) {
    && d.merging.None? && d.index == d.tip.tree
    && m.merged.Keys !! m.conflicts.Keys
    && (forall p | p in Touched(d, m) :: Expendable(d, ignored, p))
  }

  /** In a clean tree git never refuses to start a merge. */
  lemma CleanAllowsMerge(d: Disk, ignored: Ignore, m: Proposal)
    requires d.merging.None? && !Dirty(d, ignored) && m.merged.Keys !! m.conflicts.Keys
    ensures MergeAllowed(d, ignored, m)
  {
    forall p ensures Get(d.index, p) == Get(d.tip.tree, p) && Expendable(d, ignored, p) {
      assert p !in StatusPaths(d, ignored);
    }
    SameTree(d.index, d.tip.tree);
  }

  function AfterMerge(d: Disk, m: Proposal, stamp: int): Disk {
    d.(tip := MergeCommit(d.tip, d.tracking, m.merged, stamp), index := m.merged,
       work := Mix(d.work, m.merged, Changed(d.index, m.merged)))
  }

  function Stopped(d: Disk, m: Proposal): Disk {
    d.(merging := Some(Merging(d.tracking, m.conflicts)),
       index := m.merged,
       work := Mix(Mix(d.work, m.merged, Changed(d.index, m.merged)), m.drafts, m.conflicts.Keys))
  }

  /** A merge that stopped on conflicts. The stages may be any: after a rename stage 2 is
      not what HEAD has at that path, and a path may have the base's stage only. */
  predicate MergeStopped(d: Disk) {
    d.merging.Some? && UnmergedOf(d) != map[] && UnmergedOf(d).Keys !! d.index.Keys
  }

  /** Apart from the merge itself the tree is clean. */
  predicate OnlyMergeIsDirty(d: Disk, ignored: Ignore) {
    forall p | p in Changed(d.work, d.index) :: p in UnmergedOf(d) || (p !in d.index && ignored(p))
  }

  lemma CommitIsClean(d: Disk, ignored: Ignore, stamp: int)
    requires OnlyMergeIsDirty(d, ignored) && UnmergedOf(d) == map[]
    ensures !Dirty(AfterCommit(d, stamp), ignored)
  {
    forall p ensures p !in StatusPaths(AfterCommit(d, stamp), ignored) {}
  }

  lemma MergeKeeps(h: Hub, d: Disk, ignored: Ignore, m: Proposal, stamp: int, p: Path, c: Bytes)
    requires MergeAllowed(d, ignored, m) && !ignored(p) && Held(h, d, p, c)
    ensures Held(h, AfterMerge(d, m, stamp), p, c)
  {
    RewritingCleanFiles(h, d, AfterMerge(d, m, stamp), Touched(d, m), p, c);
  }

  /** Exactly what a merge commit discards: an ignored file that git did not track and the
      merge has. */
  lemma MergeLosesExactly(h: Hub, d: Disk, ignored: Ignore, m: Proposal, stamp: int, p: Path, c: Bytes)
    requires MergeAllowed(d, ignored, m) && OnlyInWork(h, d, p, c) && Get(m.merged, p) != Some(c)
    ensures Held(h, AfterMerge(d, m, stamp), p, c) <==> !(ignored(p) && p !in d.index && p in m.merged)
  {
    var d' := AfterMerge(d, m, stamp);
    if Get(d.tip.tree, p) == Some(c) { TipIsSaved(h, d, p, c); }
    assert !Saved(h, d'.tip, p, c) by {
      forall x | x in Reach(d'.tip) + RescueReach(h) ensures Get(x.tree, p) != Some(c) {
        assert x in Reach(d.tip) + RescueReach(h) || x in Reach(d.tracking) || x == d'.tip;
      }
    }
    if p in Touched(d, m) { assert Expendable(d, ignored, p); }
  }

  /** ... and a merge that stops on conflicts: also one where there is a conflict. */
  lemma StopLosesExactly(h: Hub, d: Disk, ignored: Ignore, m: Proposal, p: Path, c: Bytes)
    requires MergeAllowed(d, ignored, m) && OnlyInWork(h, d, p, c)
    ensures Held(h, Stopped(d, m), p, c) <==>
            !(ignored(p) && p !in d.index && (p in m.merged || p in m.conflicts))
  {
    assert StagedPaths(Stopped(d, m)) == Touched(d, m);
    if Get(d.tip.tree, p) == Some(c) { TipIsSaved(h, d, p, c); }
    if p in Touched(d, m) { assert Expendable(d, ignored, p); }
  }

  lemma MergeStaysClean(d: Disk, ignored: Ignore, m: Proposal, stamp: int)
    requires MergeAllowed(d, ignored, m) && !Dirty(d, ignored)
    ensures !Dirty(AfterMerge(d, m, stamp), ignored)
  {
    forall p ensures p !in StatusPaths(AfterMerge(d, m, stamp), ignored) {
      assert p !in StatusPaths(d, ignored);
    }
  }

  lemma StopKeeps(h: Hub, d: Disk, ignored: Ignore, m: Proposal, p: Path, c: Bytes)
    requires MergeAllowed(d, ignored, m) && !ignored(p) && Held(h, d, p, c)
    ensures Held(h, Stopped(d, m), p, c)
  {
    assert StagedPaths(Stopped(d, m)) == Touched(d, m);
    RewritingCleanFiles(h, d, Stopped(d, m), Touched(d, m), p, c);
  }

  lemma StopShape(d: Disk, ignored: Ignore, m: Proposal)
    requires MergeAllowed(d, ignored, m) && m.conflicts != map[]
    ensures MergeStopped(Stopped(d, m))
  {
  }

  lemma StopIsOnlyMerge(d: Disk, ignored: Ignore, m: Proposal)
    requires MergeAllowed(d, ignored, m)
    ensures !Dirty(d, ignored) ==> OnlyMergeIsDirty(Stopped(d, m), ignored)
  {
    hide KindOf;
    var d' := Stopped(d, m);
    if !Dirty(d, ignored) {
      forall p | p in Changed(d'.work, d'.index) ensures p in UnmergedOf(d') || (p !in d'.index && ignored(p)) {
        assert p !in StatusPaths(d, ignored);
      }
    }
  }

  // -------------------------------------------------- `git merge --abort`

  /** git refuses to abort a merge if a staged path that is not unmerged has a file which is
      not as in the index. */
  predicate AbortAllowed(d: Disk, ignored: Ignore) {
    forall p | p in Changed(d.index, d.tip.tree) && p !in UnmergedOf(d) && p in d.work :: Expendable(d, ignored, p)
  }

  /** No merge is in progress, or it can be aborted. */
  predicate CanLeaveMerge(d: Disk, ignored: Ignore) { d.merging.None? || AbortAllowed(d, ignored) }

  lemma StopCanBeAborted(d: Disk, ignored: Ignore, m: Proposal)
    requires MergeAllowed(d, ignored, m)
    ensures AbortAllowed(Stopped(d, m), ignored)
  {
  }

  function AfterAbort(d: Disk): Disk {
    d.(merging := None, index := d.tip.tree, work := Mix(d.work, d.tip.tree, StagedPaths(d)))
  }

  lemma AbortKeeps(h: Hub, d: Disk, p: Path, c: Bytes)
    requires d.merging.Some? && Held(h, d, p, c)
    ensures Held(h, AfterAbort(d), p, c)
  {
    if Saved(h, d.tip, p, c) { SavedGrows(h, d, h, AfterAbort(d), p, c); }
  }

  /** Exactly what aborting a merge discards: content that is only in the working
      tree survives if and only if its path is not staged. */
  lemma AbortDiscardsExactlyStaged(h: Hub, d: Disk, p: Path, c: Bytes)
    requires d.merging.Some? && Get(d.work, p) == Some(c) && !Saved(h, d.tip, p, c)
    ensures Held(h, AfterAbort(d), p, c) <==> p !in StagedPaths(d)
  {
    assert Saved(h, AfterAbort(d).tip, p, c) <==> Saved(h, d.tip, p, c);
    if Get(d.tip.tree, p) == Some(c) { TipIsSaved(h, d, p, c); }
  }

  /** A merge in progress with one conflict. */
  function MergeLeftBehind(): Disk {
    var tip, up := RootCommit(map["q" := "1"], 0), RootCommit(map["q" := "2"], 1);
    Disk(tip, map[], map["q" := "<<<"], Some(Merging(up, map["q" := Stages(None, Some("1"), Some("2"))])), up)
  }

  /** A write that is staged while a merge is in progress is lost when the merge is
      aborted, although the client was told that it is stored. */
  lemma StagedDuringMergeIsLost(ignored: Ignore)
    ensures exists h: Hub, d: Disk, p: Path, c: Bytes ::
              d.merging.Some? && UnmergedOf(d) != map[]
              && var d1 := WithStaged(d, p, c);
              Get(d1.index, p) == Some(c) == Get(d1.work, p)
              && AbortAllowed(d1, ignored) && !Held(h, AfterAbort(d1), p, c)
  {
    var d := MergeLeftBehind();
    var h := Hub(d.tip, map[]);
    assert "q" in UnmergedOf(d);
    var d1 := WithStaged(d, "p", "new");
    assert "p" in StagedPaths(d1);
    assert RescueReach(h) == {};
    assert Reach(d.tip) == {d.tip};
    AbortDiscardsExactlyStaged(h, d1, "p", "new");
  }

  /** A file that is staged while a merge is in progress and written once more, without
      the `git add`: the merge can no longer be aborted. */
  lemma StagedThenChangedCannotAbort(ignored: Ignore)
    ensures var d := MergeLeftBehind();
            var d1 := WithStaged(d, "n.md", "1");
            var d2 := WithFile(d1, "n.md", Some("2"));
            && MergeStopped(d) && AbortAllowed(d, ignored) && AbortAllowed(d1, ignored)
            && d2.merging.Some? && !AbortAllowed(d2, ignored)
  {
    var d := MergeLeftBehind();
    var d2 := WithFile(WithStaged(d, "n.md", "1"), "n.md", Some("2"));
    assert "q" in UnmergedOf(d);
    assert "n.md" in Changed(d2.index, d2.tip.tree) && !Expendable(d2, ignored, "n.md");
  }

  // -------------------------------------------------- dirty-tree rescue

  /** `git add -A` into an index that does not exist yet, then `write-tree`. */
  function RescueTree(d: Disk, ignored: Ignore): Tree {
    map p | p in d.work && !ignored(p) :: d.work[p]
  }

  /** The remote takes a rescue branch if the name is new or it fast-forwards. */
  predicate RescueAccepted(h: Hub, name: int, c: Commit) {
    name in h.rescues ==> h.rescues[name] in Reach(c)
  }

  function Rescued(h: Hub, name: int, c: Commit): Hub { h.(rescues := h.rescues[name := c]) }

  /** Every file that is not ignored is in a commit nobody can lose. */
  ghost predicate Captured(h: Hub, d: Disk, ignored: Ignore) {
    forall p | p in d.work && !ignored(p) :: Saved(h, d.tip, p, d.work[p])
  }

  lemma RescueGrows(h: Hub, name: int, c: Commit)
    requires RescueAccepted(h, name, c)
    ensures HubGrows(h, Rescued(h, name, c)) && c in RescueReach(Rescued(h, name, c))
  {
    var h' := Rescued(h, name, c);
    forall x | x in RescueReach(h) ensures x in RescueReach(h') {
      var k :| k in h.rescues && x in Reach(h.rescues[k]);
      if k == name { ReachTransitive(c, h.rescues[k]); }
      assert k in h'.rescues && x in Reach(h'.rescues[k]);
    }
    assert name in h'.rescues && c in Reach(h'.rescues[name]);
  }

  lemma RescueCaptures(h: Hub, d: Disk, ignored: Ignore, c: Commit)
    requires c in RescueReach(h) && c.tree == RescueTree(d, ignored)
    ensures Captured(h, d, ignored)
  {
    forall p | p in d.work && !ignored(p) ensures Saved(h, d.tip, p, d.work[p]) {
      assert c in Reach(d.tip) + RescueReach(h) && Get(c.tree, p) == Some(d.work[p]);
    }
  }

  /** Once the working tree is captured, nothing local matters any more. */
  lemma CapturedIsEnough(h: Hub, d: Disk, ignored: Ignore, d': Disk, p: Path, c: Bytes)
    requires Captured(h, d, ignored) && Reach(d.tip) <= Reach(d'.tip)
    requires !ignored(p) && Held(h, d, p, c)
    ensures Saved(h, d'.tip, p, c) && Held(h, d', p, c)
  {
    SavedGrows(h, d, h, d', p, c);
  }

  /** The files a reset writes or removes. */
  function ResetPaths(d: Disk, target: Commit): set<Path> {
    target.tree.Keys + d.index.Keys + UnmergedOf(d).Keys
  }

  function AfterReset(d: Disk, target: Commit): Disk {
    var t := target.tree;
    d.(tip := target, index := t, merging := None, work := Mix(d.work, t, ResetPaths(d, target)))
  }

  function AfterClean(d: Disk, ignored: Ignore): Disk {
    d.(work := Mix(d.work, map[], set p | p in d.work && p !in d.index && !ignored(p)))
  }

  lemma ResetAndCleanIsClean(d: Disk, ignored: Ignore, target: Commit)
    ensures !Dirty(AfterClean(AfterReset(d, target), ignored), ignored)
  {
    var d1 := AfterReset(d, target);
    var d2 := AfterClean(d1, ignored);
    forall p ensures p !in StatusPaths(d2, ignored) {
      assert Get(d2.index, p) == Get(target.tree, p);
      if p in d2.index { assert Get(d1.work, p) == Get(d1.index, p); }
    }
  }

  function AfterRescue(d: Disk, ignored: Ignore, target: Commit): Disk {
    AfterClean(AfterReset(d, target), ignored)
  }

  /** Exactly what a rescue discards. The temporary index starts empty, so `git add -A`
      skips every ignored file, also one that git tracks; and the reset writes over it if
      git tracks it. So content that nothing else has survives if and only if its path is
      not ignored, or is tracked neither here nor at the target. */
  lemma RescueLosesExactly(h: Hub, d: Disk, ignored: Ignore, name: int, stamp: int, target: Commit, p: Path, c: Bytes)
    requires Get(d.work, p) == Some(c) && !Saved(h, d.tip, p, c) && name !in h.rescues
    requires d.tip in Reach(target) && forall x | x in Reach(target) :: Get(x.tree, p) != Some(c)
    ensures var h' := Rescued(h, name, ChildCommit(d.tip, RescueTree(d, ignored), stamp));
            Held(h', AfterRescue(d, ignored, target), p, c) <==> !ignored(p) || p !in ResetPaths(d, target)
  {
    var commit := ChildCommit(d.tip, RescueTree(d, ignored), stamp);
    var h', d' := Rescued(h, name, commit), AfterRescue(d, ignored, target);
    RescueGrows(h, name, commit);
    forall x ensures x in RescueReach(h') <==> x in RescueReach(h) || x in Reach(commit) {
      NewRescueReach(h, name, commit, x);
    }
    assert Saved(h', d'.tip, p, c) <==> !ignored(p) by {
      assert !ignored(p) ==> commit in Reach(d'.tip) + RescueReach(h') && Get(commit.tree, p) == Some(c);
      forall x | x in Reach(d'.tip) + RescueReach(h') && Get(x.tree, p) == Some(c) ensures !ignored(p) {
        assert x in Reach(d.tip) + RescueReach(h) ==> Saved(h, d.tip, p, c);
      }
    }
  }

  lemma NewRescueReach(h: Hub, name: int, c: Commit, x: Commit)
    requires name !in h.rescues
    ensures x in RescueReach(Rescued(h, name, c)) <==> x in RescueReach(h) || x in Reach(c)
  {
    var h' := Rescued(h, name, c);
    if x in RescueReach(h) {
      var k :| k in h.rescues && x in Reach(h.rescues[k]);
      assert k in h'.rescues && x in Reach(h'.rescues[k]);
    }
    if x in RescueReach(h') {
      var k :| k in h'.rescues && x in Reach(h'.rescues[k]);
      assert k != name ==> k in h.rescues && x in Reach(h.rescues[k]);
    }
    if x in Reach(c) { assert name in h'.rescues && x in Reach(h'.rescues[name]); }
  }

  /** A tracked file that is also ignored, edited and then lost by a rescue. */
  lemma IgnoredEditIsLost(ignored: Ignore)
    requires ignored("local.cfg")
    ensures exists h: Hub, d: Disk, c: Bytes ::
              && Held(h, d, "local.cfg", c) && Dirty(d, ignored)
              && var h' := Rescued(h, 1, ChildCommit(d.tip, RescueTree(d, ignored), 1));
              !Held(h', AfterRescue(d, ignored, d.tip), "local.cfg", c)
  {
    var tip := RootCommit(map["local.cfg" := "old"], 0);
    var d := Disk(tip, tip.tree, map["local.cfg" := "new"], None, tip);
    var h := Hub(tip, map[]);
    assert RescueReach(h) == {} && Reach(tip) == {tip};
    assert "local.cfg" in StatusPaths(d, ignored);
    RescueLosesExactly(h, d, ignored, 1, 1, tip, "local.cfg", "new");
  }

  // ---------------------------------------------------------- many clones

  /** What one push of any clone can do to the remote: fast-forward the branch, or
      create or fast-forward a rescue branch. */
  ghost predicate PushStep(h0: Hub, h1: Hub) {
    || (h1 == h0.(branch := h1.branch) && h0.branch in Reach(h1.branch))
    || exists name, c :: RescueAccepted(h0, name, c) && h1 == Rescued(h0, name, c)
  }

  lemma PushStepGrows(h0: Hub, h1: Hub)
    requires PushStep(h0, h1)
    ensures HubGrows(h0, h1)
  {
    if h1 == h0.(branch := h1.branch) && h0.branch in Reach(h1.branch) {
      ReachTransitive(h1.branch, h0.branch);
    } else {
      var name, c :| RescueAccepted(h0, name, c) && h1 == Rescued(h0, name, c);
      RescueGrows(h0, name, c);
    }
  }

  /** The commit is on the remote: in its branch or in one of the rescue branches. */
  predicate OnRemote(h: Hub, x: Commit) { x in Reach(h.branch) || x in RescueReach(h) }

  /** Whatever any clone ever pushed stays on the remote, and what was on the branch stays
      on the branch, for any number of clones in any order: `hubs` is the remote after
      each push. */
  lemma {:induction false} EverPushedStays(hubs: seq<Hub>, i: nat, j: nat, x: Commit)
    requires i <= j < |hubs| && forall k | 0 < k < |hubs| :: PushStep(hubs[k - 1], hubs[k])
    ensures OnRemote(hubs[i], x) ==> OnRemote(hubs[j], x)
    ensures x in Reach(hubs[i].branch) ==> x in Reach(hubs[j].branch)
    decreases j
  {
    if i < j {
      EverPushedStays(hubs, i, j - 1, x);
      PushStepGrows(hubs[j - 1], hubs[j]);
    }
  }

  // --------------------------------------------------- boot-time `add -A`

  predicate HasUntracked(d: Disk, ignored: Ignore) {
    exists p :: p in d.work && p !in d.index && p !in UnmergedOf(d) && !ignored(p)
  }

  function AfterAddAll(d: Disk, ignored: Ignore): Disk {
    var idx := map p | p in d.work && (p in d.index || p in UnmergedOf(d) || !ignored(p)) :: d.work[p];
    d.(index := idx, merging := if d.merging.Some? then Some(d.merging.value.(unmerged := map[])) else None)
  }

  lemma AddAllCanBeAborted(d: Disk, ignored: Ignore)
    ensures AbortAllowed(AfterAddAll(d, ignored), ignored)
  {
  }

  /** What the recovery of untracked files at the start of the process does if no command
      breaks: `add -A` and a commit, if there is an untracked file. */
  function AfterRecovery(d: Disk, ignored: Ignore, stamp: int): Disk {
    if !HasUntracked(d, ignored) then d else
      var d1 := AfterAddAll(d, ignored);
      if d1.merging.None? && d1.index == d1.tip.tree then d1 else AfterCommit(d1, stamp)
  }

  lemma NothingStaged(d: Disk)
    requires d.merging.None?
    ensures StagedPaths(d) == {} <==> d.index == d.tip.tree
  {
    if StagedPaths(d) == {} {
      forall p ensures Get(d.index, p) == Get(d.tip.tree, p) { assert p !in StagedPaths(d); }
      SameTree(d.index, d.tip.tree);
    }
  }

  /** A merge that a crash left behind: the draft of a conflicted file, markers and all, is
      committed at the file's own path if and only if some file is untracked. */
  lemma DraftIsCommittedExactly(d: Disk, ignored: Ignore, stamp: int, p: Path)
    requires p in UnmergedOf(d) && p in d.work && Get(d.tip.tree, p) != Get(d.work, p)
    ensures Get(AfterRecovery(d, ignored, stamp).tip.tree, p) == Get(d.work, p) <==> HasUntracked(d, ignored)
  {
  }

  /** A copy that a quarantine had not staged yet when the process died. */
  lemma CrashedQuarantineCommitsDraft(ignored: Ignore)
    requires !ignored("_conflicts/a.1.md")
    ensures exists d: Disk, stamp: int ::
              && MergeStopped(d) && Get(d.work, "b.md") == Some("<<<")
              && Get(AfterRecovery(d, ignored, stamp).tip.tree, "b.md") == Some("<<<")
  {
    var tip, up := RootCommit(map["b.md" := "1"], 0), RootCommit(map["b.md" := "2"], 1);
    var stages := map["b.md" := Stages(None, Some("1"), Some("2"))];
    var work := map["b.md" := "<<<", "_conflicts/a.1.md" := "<<<"];
    var d := Disk(tip, map[], work, Some(Merging(up, stages)), up);
    assert "b.md" in UnmergedOf(d);
    assert "_conflicts/a.1.md" in d.work;
    assert "_conflicts/a.1.md" != "b.md" by { assert |"_conflicts/a.1.md"| != |"b.md"|; }
    assert HasUntracked(d, ignored);
    DraftIsCommittedExactly(d, ignored, 2, "b.md");
    assert MergeStopped(d);
  }

  // ----------------------------------------------- single-path commands

  function Unmark(d: Disk, p: Path): Option<Merging> {
    if d.merging.Some? then Some(d.merging.value.(unmerged := d.merging.value.unmerged - {p})) else None
  }

  /** `git add p` */
  function AfterAdd(d: Disk, p: Path): Disk {
    d.(index := Mix(d.index, d.work, {p}), merging := Unmark(d, p))
  }

  /** `git rm p` */
  function AfterRm(d: Disk, p: Path): Disk {
    d.(index := d.index - {p}, work := d.work - {p}, merging := Unmark(d, p))
  }

  /** git refuses to add an ignored path it does not track, and a path that is not there. */
  predicate AddAllowed(d: Disk, ignored: Ignore, p: Path) {
    p in d.index || p in UnmergedOf(d) || (p in d.work && !ignored(p))
  }

  /** git refuses to remove a path that differs from HEAD, unless it is unmerged. */
  predicate RmAllowed(d: Disk, p: Path) {
    p in UnmergedOf(d)
    || (p in d.index && Get(d.tip.tree, p) == Get(d.index, p) && (p in d.work ==> Get(d.work, p) == Get(d.index, p)))
  }

  /** What `git checkout --theirs` or `--ours` writes to the file, if anything. */
  function SideOf(d: Disk, p: Path, theirs: bool): Option<Bytes> {
    if p !in UnmergedOf(d) then Get(d.index, p) else
    if theirs then UnmergedOf(d)[p].theirs else UnmergedOf(d)[p].ours
  }

  /** `git checkout HEAD -- p` */
  function AfterCheckoutHead(d: Disk, p: Path): Disk {
    d.(index := Mix(d.index, d.tip.tree, {p}), work := Mix(d.work, d.tip.tree, {p}), merging := Unmark(d, p))
  }

  function WithFile(d: Disk, p: Path, c: Option<Bytes>): Disk {
    d.(work := if c.Some? then d.work[p := c.value] else d.work - {p})
  }

  /** A file written and staged. */
  function WithStaged(d: Disk, p: Path, c: Bytes): Disk {
    d.(index := d.index[p := c], work := d.work[p := c], merging := Unmark(d, p))
  }

  lemma WriteThenAdd(d: Disk, p: Path, c: Bytes)
    ensures AfterAdd(WithFile(d, p, Some(c)), p) == WithStaged(d, p, c)
  {
    var d' := AfterAdd(WithFile(d, p, Some(c)), p);
    assert d'.index == d.index[p := c] by {
      forall q ensures Get(d'.index, q) == Get(d.index[p := c], q) {}
      SameTree(d'.index, d.index[p := c]);
    }
  }

  lemma StageStaysClean(d: Disk, ignored: Ignore, p: Path, c: Option<Bytes>)
    requires OnlyMergeIsDirty(d, ignored)
    ensures var d1 := WithFile(d, p, c);
            OnlyMergeIsDirty(if AddAllowed(d1, ignored, p) then AfterAdd(d1, p) else d1, ignored)
  {
  }

  lemma StageStaysAbortable(d: Disk, ignored: Ignore, p: Path, c: Option<Bytes>)
    requires CanLeaveMerge(d, ignored)
    ensures var d1 := WithFile(d, p, c);
            CanLeaveMerge(if AddAllowed(d1, ignored, p) then AfterAdd(d1, p) else d1, ignored)
    ensures CanLeaveMerge(AfterAdd(WithFile(d, p, c), p), ignored)
  {
  }

  /** Commands on one path leave every other path alone. */
  ghost predicate SameExcept(d0: Disk, d1: Disk, p: Path) {
    && d1.tip == d0.tip && d1.tracking == d0.tracking
    && (d1.merging.Some? <==> d0.merging.Some?)
    && (d1.merging.Some? ==> d1.merging.value.theirs == d0.merging.value.theirs)
    && UnmergedOf(d1) - {p} == UnmergedOf(d0) - {p}
    && (forall q | q != p :: Get(d1.index, q) == Get(d0.index, q) && Get(d1.work, q) == Get(d0.work, q))
  }

  lemma RmIsLocal(d: Disk, ignored: Ignore, p: Path)
    ensures SameExcept(d, AfterRm(d, p), p)
    ensures OnlyMergeIsDirty(d, ignored) ==> OnlyMergeIsDirty(AfterRm(d, p), ignored)
    ensures CanLeaveMerge(d, ignored) ==> CanLeaveMerge(AfterRm(d, p), ignored)
  {
  }

  lemma CheckoutIsLocal(d: Disk, ignored: Ignore, p: Path)
    ensures SameExcept(d, AfterCheckoutHead(d, p), p)
    ensures OnlyMergeIsDirty(d, ignored) ==> OnlyMergeIsDirty(AfterCheckoutHead(d, p), ignored)
    ensures CanLeaveMerge(d, ignored) ==> CanLeaveMerge(AfterCheckoutHead(d, p), ignored)
  {
  }

  lemma OtherPathsHeld(h: Hub, d0: Disk, d1: Disk, p: Path, q: Path, c: Bytes)
    requires SameExcept(d0, d1, p) && Held(h, d0, q, c)
    requires q == p ==> Saved(h, d0.tip, p, c)
    ensures Held(h, d1, q, c)
  {
    if Saved(h, d0.tip, q, c) {
      SavedGrows(h, d0, h, d1, q, c);
    } else {
      assert q in UnmergedOf(d1) <==> q in UnmergedOf(d1) - {p};
      assert q in UnmergedOf(d0) <==> q in UnmergedOf(d0) - {p};
    }
  }
}
