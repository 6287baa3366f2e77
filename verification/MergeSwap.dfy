/** Merging in the other direction: the same conflicted file with the two sides of every
    conflict exchanged. */
module MergeSwap {
  import opened GitObjects
  import opened Text
  import opened MarkerScanner
  import opened PartitionedMerge
  import S = ScalarMerge

  function SwapBlock(b: Block): Block { b.(ours := b.theirs, theirs := b.ours) }

  /** The conflicts of the file, each with its sides exchanged. */
  function SwappedConflicts(lines: seq<string>, regions: seq<Region>): (r: seq<seq<string>>)
    requires Layout(lines, regions, |lines|)
    ensures |r| == |regions|
    ensures forall k | 0 <= k < |r| :: r[k] == Conflict(SwapBlock(BlockAt(lines, regions, k)))
  {
    seq(|regions|, k requires 0 <= k < |regions| => Conflict(SwapBlock(BlockAt(lines, regions, k))))
  }

  function SwapFile(lines: seq<string>, regions: seq<Region>): seq<string>
    requires Layout(lines, regions, |lines|)
  {
    Final(lines, regions, SwappedConflicts(lines, regions))
  }

  function SwapPlan(plan: Plan): Plan { Plan(plan.close, S.SwapAll(plan.frontmatter), S.SwapAll(plan.body)) }

  /** The line numbers do not change. */
  lemma {:induction false} SameLength(lines: seq<string>, regions: seq<Region>, k: nat)
    requires Layout(lines, regions, |lines|) && k <= |regions|
    ensures |Spliced(lines, regions, SwappedConflicts(lines, regions), k)| == After(regions, k)
  {
    hide Layout;
    hide BlockAt;
    hide Conflict;
    hide MarkOf;
    if k > 0 {
      SameLength(lines, regions, k - 1);
      RegionIsBlock(lines, regions, k - 1);
      BlockSides(lines, regions, k - 1);
    }
  }

  lemma BlockSides(lines: seq<string>, regions: seq<Region>, k: nat)
    requires Layout(lines, regions, |lines|) && k < |regions|
    ensures BlockAt(lines, regions, k).ours == regions[k].ours && BlockAt(lines, regions, k).theirs == regions[k].theirs
  {
  }

  /** Gap `k` and the conflict after it, in their old places. */
  lemma SwappedAt(lines: seq<string>, regions: seq<Region>, k: nat)
    requires Layout(lines, regions, |lines|) && k <= |regions|
    ensures var swapped, from, until := SwapFile(lines, regions), After(regions, k), GapEnd(lines, regions, k);
            && from <= until <= |lines| && until <= |swapped| && swapped[from..until] == lines[from..until]
            && (k == |regions| ==> |swapped| == |lines|)
            && (k < |regions| ==> Conflict(SwapBlock(BlockAt(lines, regions, k))) <= swapped[until..])
  {
    hide Layout;
    hide BlockAt;
    hide Conflict;
    hide Spliced;
    hide Final;
    SameLength(lines, regions, k);
    GapKept(lines, regions, SwappedConflicts(lines, regions), k);
  }

  lemma SwappedFits(lines: seq<string>, regions: seq<Region>, k: nat)
    requires Layout(lines, regions, |lines|) && k < |regions|
    ensures InPlace(SwapFile(lines, regions), S.SwapAll(regions), k)
  {
    hide Layout;
    hide BlockAt;
    hide MarkOf;
    hide Fits;
    hide Conflict;
    hide SwapFile;
    var swapped, r, b := SwapFile(lines, regions), regions[k], SwapBlock(BlockAt(lines, regions, k));
    SwappedAt(lines, regions, k);
    RegionIsBlock(lines, regions, k);
    BlockSides(lines, regions, k);
    var before, tail := swapped[..r.start], swapped[r.start + |Conflict(b)|..];
    assert swapped[r.start..][..|Conflict(b)|] == Conflict(b);
    assert swapped == before + Conflict(b) + tail;
    BlockFits(before, b, tail);
    assert IsGap(swapped, After(regions, k), r.start);
    assert After(S.SwapAll(regions), k) == After(regions, k);
  }

  /** Scanning the file with exchanged sides finds the regions with exchanged sides. */
  lemma RegionsOfSwapped(lines: seq<string>, regions: seq<Region>)
    requires Regions(lines) == Some(regions)
    ensures Layout(lines, regions, |lines|)
    ensures Regions(SwapFile(lines, regions)) == Some(S.SwapAll(regions))
  {
    hide InPlace;
    hide SwapFile;
    hide Regions;
    hide MarkOf;
    RegionsExactly(lines, regions);
    var swapped, regions' := SwapFile(lines, regions), S.SwapAll(regions);
    forall k | 0 <= k < |regions'| ensures InPlace(swapped, regions', k) {
      SwappedFits(lines, regions, k);
    }
    SwappedAt(lines, regions, |regions|);
    assert After(regions', |regions'|) == After(regions, |regions|);
    assert IsGap(swapped, After(regions, |regions|), |swapped|);
    RegionsExactly(swapped, regions');
  }

  /** Outside the first `k` regions, and before the end of the last of them, nothing changes. */
  lemma {:induction false} SameOutsideRegions(lines: seq<string>, regions: seq<Region>, k: nat, i: nat)
    requires Layout(lines, regions, |lines|) && k <= |regions| && i < GapEnd(lines, regions, k)
    requires !S.Inside(regions[..k], i)
    ensures i < |lines| && i < |SwapFile(lines, regions)| && SwapFile(lines, regions)[i] == lines[i]
  {
    hide Layout;
    hide SwapFile;
    SwappedAt(lines, regions, k);
    if i >= After(regions, k) {
      var from, until := After(regions, k), GapEnd(lines, regions, k);
      assert SwapFile(lines, regions)[from..until][i - from] == lines[from..until][i - from];
    } else {
      var r := regions[k - 1];
      assert regions[..k][k - 1] == r;
      assert forall m | 0 <= m < k - 1 :: regions[..k - 1][m] == regions[..k][m];
      SameOutsideRegions(lines, regions, k - 1, i);
    }
  }

  lemma SwappedHasNoDelimiter(lines: seq<string>, regions: seq<Region>, k: nat, close: nat)
    requires Layout(lines, regions, |lines|) && k < |regions| && 0 < regions[k].start && regions[k].end < close
    requires FrontmatterClose(lines) == Some(close)
    ensures NoDelimiter(SwappedConflicts(lines, regions)[k])
  {
    hide Layout;
    hide BlockAt;
    hide MarkOf;
    hide IsDelimiter;
    RegionIsBlock(lines, regions, k);
    var b, r := BlockAt(lines, regions, k), regions[k];
    var c, swapped := Conflict(b), Conflict(SwapBlock(b));
    assert lines[..r.end + 1][r.start..] == c;
    assert forall i | 0 <= i < |c| :: c[i] == lines[r.start + i];
    assert NoDelimiter(c);
    forall i | 0 <= i < |swapped| ensures !IsDelimiter(swapped[i]) {
      SwappedLine(b, i);
    }
  }

  /** Every line of the exchanged conflict is a line of the conflict. */
  lemma SwappedLine(b: Block, i: nat)
    requires i < |Conflict(SwapBlock(b))|
    ensures exists j :: 0 <= j < |Conflict(b)| && Conflict(b)[j] == Conflict(SwapBlock(b))[i]
  {
    var c, o, t := Conflict(b), |b.ours|, |b.theirs|;
    var j := if i == 0 then 0 else if i <= t then o + 1 + i else if i == t + 1 then o + 1
             else if i <= t + 1 + o then i - t - 1 else o + t + 2;
    assert c[j] == Conflict(SwapBlock(b))[i];
  }

  lemma CloseOfSwapped(lines: seq<string>, plan: Plan)
    requires IsPlan(lines, plan)
    ensures Layout(lines, plan.frontmatter + plan.body, |lines|)
    ensures FrontmatterClose(SwapFile(lines, plan.frontmatter + plan.body)) == Some(plan.close)
  {
    hide Layout;
    hide Regions;
    hide Fits;
    hide MarkOf;
    hide IsDelimiter;
    hide Spliced;
    hide NoDelimiter;
    PlanLayout(lines, plan);
    var regions, f := plan.frontmatter + plan.body, |plan.frontmatter|;
    forall j | 0 <= j < f ensures NoDelimiter(SwappedConflicts(lines, regions)[j]) {
      assert regions[j] == plan.frontmatter[j] && plan.frontmatter[j] in plan.frontmatter;
      FirstLineOutside(lines, regions);
      if j > 0 { InOrder(lines, regions, 0, j); }
      SwappedHasNoDelimiter(lines, regions, j, plan.close);
    }
    SameLength(lines, regions, f);
    ClosingKept(lines, plan, SwappedConflicts(lines, regions));
  }

  lemma PlanOfSwapped(lines: seq<string>, plan: Plan)
    requires IsPlan(lines, plan)
    ensures Layout(lines, plan.frontmatter + plan.body, |lines|)
    ensures IsPlan(SwapFile(lines, plan.frontmatter + plan.body), SwapPlan(plan))
  {
    hide Layout;
    hide Regions;
    hide SwapFile;
    hide FrontmatterClose;
    var regions := plan.frontmatter + plan.body;
    RegionsOfSwapped(lines, regions);
    CloseOfSwapped(lines, plan);
    assert S.SwapAll(regions) == S.SwapAll(plan.frontmatter) + S.SwapAll(plan.body);
    forall r | r in S.SwapAll(plan.frontmatter) ensures r.end < plan.close {
      var k :| 0 <= k < |plan.frontmatter| && S.SwapAll(plan.frontmatter)[k] == r;
      assert plan.frontmatter[k] in plan.frontmatter && r == S.SwapRegion(plan.frontmatter[k]);
    }
    forall r | r in S.SwapAll(plan.body) ensures plan.close < r.start {
      var k :| 0 <= k < |plan.body| && S.SwapAll(plan.body)[k] == r;
      assert plan.body[k] in plan.body && r == S.SwapRegion(plan.body[k]);
    }
  }

  lemma SwappedFrontmatter(lines: seq<string>, plan: Plan)
    requires IsPlan(lines, plan)
    ensures Layout(lines, plan.frontmatter + plan.body, |lines|)
    ensures S.SameOutside(lines, SwapFile(lines, plan.frontmatter + plan.body), plan.frontmatter)
  {
    hide Layout;
    hide Regions;
    hide SwapFile;
    hide IsDelimiter;
    PlanLayout(lines, plan);
    CloseOfSwapped(lines, plan);
    var regions, f := plan.frontmatter + plan.body, |plan.frontmatter|;
    assert regions[..f] == plan.frontmatter;
    if f < |regions| { assert regions[f] == plan.body[0] && plan.body[0] in plan.body; }
    forall i | 1 <= i < plan.close && !S.Inside(plan.frontmatter, i)
      ensures SwapFile(lines, regions)[i] == lines[i]
    {
      SameOutsideRegions(lines, regions, f, i);
    }
  }

  /** With different committer times the direction of a merge does not matter: the file
      with exchanged sides has the exchanged plan, both are merged or both declined, and
      every key of the frontmatter gets the same line. */
  lemma EitherDirection(yaml: S.Yaml, lines: seq<string>, plan: Plan, times: S.Times, base: S.Base)
    requires IsPlan(lines, plan) && (times.Some? ==> times.value.0 != times.value.1)
    ensures Layout(lines, plan.frontmatter + plan.body, |lines|)
    ensures var swapped, regions := SwapFile(lines, plan.frontmatter + plan.body), plan.frontmatter;
            var there := S.Resolved(yaml, lines, regions, times, base);
            var back := S.Resolved(yaml, swapped, S.SwapAll(regions), S.SwapTimes(times), base);
            && IsPlan(swapped, SwapPlan(plan))
            && (there.Some? <==> back.Some?)
            && (there.Some? ==>
                  forall k | 0 <= k < |regions| ::
                    S.LineOf(S.SidesOf(yaml, regions[k]), times, base) ==
                    S.LineOf(S.SidesOf(yaml, S.SwapAll(regions)[k]), S.SwapTimes(times), base))
  {
    hide Regions;
    hide SwapFile;
    hide S.Resolved;
    hide S.LineOf;
    PlanOfSwapped(lines, plan);
    SwappedFrontmatter(lines, plan);
    S.MergeCommutes(yaml, lines, SwapFile(lines, plan.frontmatter + plan.body), plan.frontmatter, times, base);
  }
}
