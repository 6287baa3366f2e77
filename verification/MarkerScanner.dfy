/** Finding the conflict regions of a file that `git merge` has left with markers. */
module MarkerScanner {
  import opened GitObjects
  import opened Text

  datatype Mark = Opening | Separator | Closing | Content

  function MarkOf(line: string): Mark {
    if StartsWith(line, "<<<<<<<") then Opening else
    if StartsWith(line, "=======") then Separator else
    if StartsWith(line, ">>>>>>>") then Closing else Content
  }

  predicate AllContent(lines: seq<string>) { forall i | 0 <= i < |lines| :: MarkOf(lines[i]).Content? }

  /** A region with the indices of its first and last marker line and its two sides. */
  datatype Region = Region(start: nat, ours: seq<string>, theirs: seq<string>, end: nat)

  // -------------------------------------------------------------- scanner

  datatype State = State(regions: seq<Region>, current: Region, open: bool, separatorSeen: bool)

  const START := State([], Region(0, [], [], 0), false, false)

  /** One line further; None if the markers are unbalanced or nested. */
  function Consumed(s: State, line: string, index: nat): Option<State> {
    match MarkOf(line)
    case Opening => if s.open then None else Some(State(s.regions, Region(index, [], [], 0), true, false))
    case Separator => if !s.open || s.separatorSeen then None else Some(s.(separatorSeen := true))
    case Closing =>
      if !s.open || !s.separatorSeen then None else
        Some(State(s.regions + [s.current.(end := index)], s.current.(end := index), false, false))
    case Content =>
      if !s.open then Some(s) else
      if s.separatorSeen then Some(s.(current := s.current.(theirs := s.current.theirs + [line])))
      else Some(s.(current := s.current.(ours := s.current.ours + [line])))
  }

  function ScanTo(lines: seq<string>, i: nat): Option<State>
    requires i <= |lines|
  {
    if i == 0 then Some(START) else
      var s := ScanTo(lines, i - 1);
      if s.None? then None else Consumed(s.value, lines[i - 1], i - 1)
  }

  function Regions(lines: seq<string>): Option<seq<Region>> {
    var s := ScanTo(lines, |lines|);
    if s.None? || s.value.open || s.value.regions == [] then None else Some(s.value.regions)
  }

  class ConflictRegionScanner {
    var regions: seq<Region>
    var current: Region
    var open: bool
    var separatorSeen: bool

    function Now(): State
      reads this
    {
      State(regions, current, open, separatorSeen)
    }

    constructor ()
      ensures Now() == START
    {
      regions, current, open, separatorSeen := [], Region(0, [], [], 0), false, false;
    }

    method Consume(line: string, index: nat) returns (ok: bool)
      modifies this
      ensures Consumed(old(Now()), line, index) == if ok then Some(Now()) else None
    {
      match MarkOf(line) {
        case Opening =>
          if open { return false; }
          open := true;
          separatorSeen := false;
          current := Region(index, [], [], 0);
        case Separator =>
          if !open || separatorSeen { return false; }
          separatorSeen := true;
        case Closing =>
          if !open || !separatorSeen { return false; }
          current := current.(end := index);
          regions := regions + [current];
          open := false;
          separatorSeen := false;
        case Content =>
          AppendContentLine(line);
      }
      return true;
    }

    method AppendContentLine(line: string)
      modifies `current
      ensures current == if !open then old(current) else
                         if separatorSeen then old(current).(theirs := old(current).theirs + [line])
                         else old(current).(ours := old(current).ours + [line])
    {
      if !open { return; }
      if separatorSeen {
        current := current.(theirs := current.theirs + [line]);
        return;
      }
      current := current.(ours := current.ours + [line]);
    }
  }

  method EnumerateConflictRegions(lines: seq<string>) returns (r: Option<seq<Region>>)
    ensures r == Regions(lines)
  {
    var scanner := new ConflictRegionScanner();
    for i := 0 to |lines|
      invariant fresh(scanner) && ScanTo(lines, i) == Some(scanner.Now())
    {
      var ok := scanner.Consume(lines[i], i);
      if !ok {
        ScanStops(lines, i + 1, |lines|);
        return None;
      }
    }
    if scanner.open || |scanner.regions| == 0 { return None; }
    return Some(scanner.regions);
  }

  lemma {:induction false} ScanStops(lines: seq<string>, i: nat, j: nat)
    requires i <= j <= |lines| && ScanTo(lines, i).None?
    ensures ScanTo(lines, j).None?
    decreases j
  {
    hide MarkOf;
    if i < j { ScanStops(lines, i, j - 1); }
  }

  // --------------------------------------------------------------- layout

  function SepOf(r: Region): nat { r.start + 1 + |r.ours| }

  /** The region is where it says, with the sides it says. */
  predicate Fits(lines: seq<string>, r: Region) {
    && r.start < SepOf(r) < r.end < |lines| && r.end == SepOf(r) + 1 + |r.theirs|
    && MarkOf(lines[r.start]).Opening? && MarkOf(lines[SepOf(r)]).Separator? && MarkOf(lines[r.end]).Closing?
    && lines[r.start + 1..SepOf(r)] == r.ours && lines[SepOf(r) + 1..r.end] == r.theirs
    && AllContent(r.ours) && AllContent(r.theirs)
  }

  /** The first line after the first `k` regions. */
  function After(regions: seq<Region>, k: nat): nat
    requires k <= |regions|
  {
    if k == 0 then 0 else regions[k - 1].end + 1
  }

  predicate IsGap(lines: seq<string>, i: nat, j: nat) { i <= j <= |lines| && AllContent(lines[i..j]) }

  predicate InPlace(lines: seq<string>, regions: seq<Region>, k: nat)
    requires k < |regions|
  {
    Fits(lines, regions[k]) && IsGap(lines, After(regions, k), regions[k].start)
  }

  /** The first `i` lines are plain lines with exactly these regions between them, in
      order and apart from each other. */
  predicate Layout(lines: seq<string>, regions: seq<Region>, i: nat) {
    (forall k | 0 <= k < |regions| :: InPlace(lines, regions, k)) && IsGap(lines, After(regions, |regions|), i)
  }

  /** What the scanner has seen of the first `i` lines. */
  ghost predicate Seen(lines: seq<string>, i: nat, s: State)
    requires i <= |lines|
  {
    var c := s.current;
    if !s.open then !s.separatorSeen && Layout(lines, s.regions, i) else
      && c.start < i && Layout(lines, s.regions, c.start) && MarkOf(lines[c.start]).Opening?
      && AllContent(c.ours) && AllContent(c.theirs)
      && if s.separatorSeen then
           SepOf(c) < i && MarkOf(lines[SepOf(c)]).Separator?
           && lines[c.start + 1..SepOf(c)] == c.ours && lines[SepOf(c) + 1..i] == c.theirs
         else c.theirs == [] && lines[c.start + 1..i] == c.ours
  }

  lemma OneMoreRegion(lines: seq<string>, regions: seq<Region>, r: Region)
    requires Layout(lines, regions, r.start) && Fits(lines, r)
    ensures Layout(lines, regions + [r], r.end + 1)
  {
    hide MarkOf;
    var more := regions + [r];
    forall k | 0 <= k < |more| ensures InPlace(lines, more, k) {
      if k < |regions| { assert InPlace(lines, regions, k); }
    }
    assert lines[r.end + 1..r.end + 1] == [];
  }

  lemma OneMorePlainLine(lines: seq<string>, i: nat, j: nat)
    requires IsGap(lines, i, j) && j < |lines| && MarkOf(lines[j]).Content?
    ensures IsGap(lines, i, j + 1)
  {
    hide MarkOf;
    assert lines[i..j + 1] == lines[i..j] + [lines[j]];
  }

  lemma SeenOneMore(lines: seq<string>, i: nat, s: State)
    requires i < |lines| && Seen(lines, i, s) && Consumed(s, lines[i], i).Some?
    ensures Seen(lines, i + 1, Consumed(s, lines[i], i).value)
  {
    hide MarkOf;
    hide Layout;
    var c := s.current;
    match MarkOf(lines[i]) {
      case Opening => assert lines[i + 1..i + 1] == [];
      case Separator => assert lines[i + 1..i + 1] == c.theirs;
      case Closing => OneMoreRegion(lines, s.regions, c.(end := i));
      case Content =>
        if !s.open {
          LayoutOneMore(lines, s.regions, i);
        } else if s.separatorSeen {
          assert lines[SepOf(c) + 1..i + 1] == lines[SepOf(c) + 1..i] + [lines[i]];
        } else {
          assert lines[c.start + 1..i + 1] == lines[c.start + 1..i] + [lines[i]];
        }
    }
  }

  lemma LayoutOneMore(lines: seq<string>, regions: seq<Region>, i: nat)
    requires Layout(lines, regions, i) && i < |lines| && MarkOf(lines[i]).Content?
    ensures Layout(lines, regions, i + 1)
  {
    hide MarkOf;
    hide Fits;
    OneMorePlainLine(lines, After(regions, |regions|), i);
  }

  lemma {:induction false} ScanIsSound(lines: seq<string>, i: nat)
    requires i <= |lines| && ScanTo(lines, i).Some?
    ensures Seen(lines, i, ScanTo(lines, i).value)
  {
    hide MarkOf;
    if i > 0 {
      ScanIsSound(lines, i - 1);
      SeenOneMore(lines, i - 1, ScanTo(lines, i - 1).value);
    }
  }

  /** Plain lines outside regions change nothing. */
  lemma {:induction false} AcrossGap(lines: seq<string>, i: nat, j: nat)
    requires IsGap(lines, i, j) && ScanTo(lines, i).Some? && !ScanTo(lines, i).value.open
    ensures ScanTo(lines, j) == ScanTo(lines, i)
    decreases j
  {
    hide MarkOf;
    if i < j {
      assert lines[i..j - 1] == lines[i..j][..j - 1 - i];
      AcrossGap(lines, i, j - 1);
      assert lines[i..j][j - 1 - i] == lines[j - 1];
    }
  }

  /** Plain lines inside a region end up on the side that is open. */
  lemma {:induction false} AcrossSide(lines: seq<string>, i: nat, j: nat)
    requires IsGap(lines, i, j) && ScanTo(lines, i).Some? && ScanTo(lines, i).value.open
    ensures var s := ScanTo(lines, i).value;
            var c := if s.separatorSeen then s.current.(theirs := s.current.theirs + lines[i..j])
                     else s.current.(ours := s.current.ours + lines[i..j]);
            ScanTo(lines, j) == Some(s.(current := c))
    decreases j
  {
    hide MarkOf;
    var s := ScanTo(lines, i).value;
    if i == j {
      assert s.current.theirs + lines[i..j] == s.current.theirs && s.current.ours + lines[i..j] == s.current.ours;
    } else {
      assert lines[i..j] == lines[i..j - 1] + [lines[j - 1]];
      assert lines[i..j - 1] == lines[i..j][..j - 1 - i];
      AcrossSide(lines, i, j - 1);
      assert lines[i..j][j - 1 - i] == lines[j - 1];
      assert s.current.theirs + lines[i..j] == s.current.theirs + lines[i..j - 1] + [lines[j - 1]];
      assert s.current.ours + lines[i..j] == s.current.ours + lines[i..j - 1] + [lines[j - 1]];
    }
  }

  lemma AcrossRegion(lines: seq<string>, r: Region)
    requires Fits(lines, r) && ScanTo(lines, r.start).Some? && !ScanTo(lines, r.start).value.open
    ensures ScanTo(lines, r.end + 1) == Some(State(ScanTo(lines, r.start).value.regions + [r], r, false, false))
  {
    hide MarkOf;
    var s := ScanTo(lines, r.start).value;
    var sep := SepOf(r);
    assert ScanTo(lines, r.start + 1) == Some(State(s.regions, Region(r.start, [], [], 0), true, false));
    AcrossSide(lines, r.start + 1, sep);
    assert [] + lines[r.start + 1..sep] == r.ours && [] + lines[sep + 1..r.end] == r.theirs;
    assert ScanTo(lines, sep) == Some(State(s.regions, Region(r.start, r.ours, [], 0), true, false));
    assert ScanTo(lines, sep + 1) == Some(State(s.regions, Region(r.start, r.ours, [], 0), true, true));
    AcrossSide(lines, sep + 1, r.end);
    assert ScanTo(lines, r.end) == Some(State(s.regions, Region(r.start, r.ours, r.theirs, 0), true, true));
  }

  /** After the first `k` regions the scanner is closed and has exactly these. */
  lemma {:induction false} ScanIsComplete(lines: seq<string>, regions: seq<Region>, i: nat, k: nat)
    requires Layout(lines, regions, i) && k <= |regions|
    ensures var j := After(regions, k);
            j <= |lines| && ScanTo(lines, j).Some? && !ScanTo(lines, j).value.open
            && ScanTo(lines, j).value.regions == regions[..k]
  {
    hide MarkOf;
    hide AllContent;
    hide Consumed;
    if k > 0 {
      ScanIsComplete(lines, regions, i, k - 1);
      var r := regions[k - 1];
      assert InPlace(lines, regions, k - 1);
      AcrossGap(lines, After(regions, k - 1), r.start);
      AcrossRegion(lines, r);
      assert regions[..k] == regions[..k - 1] + [r];
    }
  }

  /** The scanner accepts exactly the files of this form, and finds their regions. */
  lemma RegionsExactly(lines: seq<string>, regions: seq<Region>)
    ensures Regions(lines) == Some(regions) <==> regions != [] && Layout(lines, regions, |lines|)
  {
    hide MarkOf;
    hide Fits;
    if Regions(lines) == Some(regions) { ScanIsSound(lines, |lines|); }
    if regions != [] && Layout(lines, regions, |lines|) {
      ScanIsComplete(lines, regions, |lines|, |regions|);
      AcrossGap(lines, After(regions, |regions|), |lines|);
      assert regions[..|regions|] == regions;
    }
  }

  // -------------------------------------------------------------- printer

  /** Plain lines and the conflict that follows them. */
  datatype Block =
    Block(gap: seq<string>, open: string, ours: seq<string>, sep: string, theirs: seq<string>, close: string)

  predicate IsBlock(b: Block) {
    && AllContent(b.gap) && AllContent(b.ours) && AllContent(b.theirs)
    && MarkOf(b.open).Opening? && MarkOf(b.sep).Separator? && MarkOf(b.close).Closing?
  }

  predicate AreBlocks(blocks: seq<Block>) { forall k | 0 <= k < |blocks| :: IsBlock(blocks[k]) }

  function Conflict(b: Block): (c: seq<string>)
    ensures |c| == |b.ours| + |b.theirs| + 3
  {
    [b.open] + b.ours + [b.sep] + b.theirs + [b.close]
  }

  /** The first `k` blocks, printed. */
  function Render(blocks: seq<Block>, k: nat): seq<string>
    requires k <= |blocks|
  {
    if k == 0 then [] else Render(blocks, k - 1) + blocks[k - 1].gap + Conflict(blocks[k - 1])
  }

  function RegionAt(blocks: seq<Block>, k: nat): Region
    requires k < |blocks|
  {
    var start := |Render(blocks, k)| + |blocks[k].gap|;
    Region(start, blocks[k].ours, blocks[k].theirs, start + |blocks[k].ours| + |blocks[k].theirs| + 2)
  }

  function RegionsOf(blocks: seq<Block>): (regions: seq<Region>)
    ensures |regions| == |blocks|
    ensures forall k | 0 <= k < |blocks| :: regions[k] == RegionAt(blocks, k)
  {
    seq(|blocks|, k requires 0 <= k < |blocks| => RegionAt(blocks, k))
  }

  lemma {:induction false} RenderedPrefix(blocks: seq<Block>, k: nat, n: nat)
    requires k <= n <= |blocks|
    ensures |Render(blocks, k)| <= |Render(blocks, n)|
    ensures Render(blocks, n)[..|Render(blocks, k)|] == Render(blocks, k)
    decreases n
  {
    hide Conflict;
    if k < n { RenderedPrefix(blocks, k, n - 1); }
  }

  lemma BlockFits(before: seq<string>, b: Block, after: seq<string>)
    requires IsBlock(b)
    ensures Fits(before + Conflict(b) + after, Region(|before|, b.ours, b.theirs, |before| + |b.ours| + |b.theirs| + 2))
  {
    hide MarkOf;
    var r := Region(|before|, b.ours, b.theirs, |before| + |b.ours| + |b.theirs| + 2);
    var lines := before + Conflict(b) + after;
    assert lines[r.start + 1..SepOf(r)] == b.ours;
    assert lines[SepOf(r) + 1..r.end] == b.theirs;
  }

  lemma BlockInPlace(blocks: seq<Block>, gap: seq<string>, k: nat)
    requires AreBlocks(blocks) && k < |blocks|
    ensures var lines, r := Render(blocks, |blocks|) + gap, RegionAt(blocks, k);
            Fits(lines, r) && IsGap(lines, |Render(blocks, k)|, r.start) && r.end + 1 == |Render(blocks, k + 1)|
  {
    hide MarkOf;
    hide Fits;
    hide Conflict;
    var lines, b := Render(blocks, |blocks|) + gap, blocks[k];
    var before := Render(blocks, k) + b.gap;
    RenderedPrefix(blocks, k + 1, |blocks|);
    var upTo := before + Conflict(b);
    assert lines[..|upTo|] == upTo;
    assert lines == upTo + lines[|upTo|..];
    BlockFits(before, b, lines[|upTo|..]);
    assert lines[|Render(blocks, k)|..|before|] == b.gap;
  }

  lemma RenderedFromStart(blocks: seq<Block>)
    ensures Render(blocks, 0) == []
  {
  }

  /** Scanning inverts printing. */
  lemma ScanOfRender(blocks: seq<Block>, gap: seq<string>)
    requires AreBlocks(blocks) && AllContent(gap) && |blocks| > 0
    ensures Regions(Render(blocks, |blocks|) + gap) == Some(RegionsOf(blocks))
  {
    hide Fits;
    hide Regions;
    hide AreBlocks;
    hide AllContent;
    hide Render;
    hide RegionAt;
    hide Conflict;
    RenderedFromStart(blocks);
    var lines, regions := Render(blocks, |blocks|) + gap, RegionsOf(blocks);
    forall k | 0 <= k < |blocks| ensures InPlace(lines, regions, k) {
      BlockInPlace(blocks, gap, k);
      if k > 0 { BlockInPlace(blocks, gap, k - 1); }
    }
    BlockInPlace(blocks, gap, |blocks| - 1);
    assert lines[|Render(blocks, |blocks|)|..|lines|] == gap;
    RegionsExactly(lines, regions);
  }

  function BlockAt(lines: seq<string>, regions: seq<Region>, k: nat): Block
    requires Layout(lines, regions, |lines|) && k < |regions|
  {
    assert InPlace(lines, regions, k);
    var r := regions[k];
    Block(lines[After(regions, k)..r.start], lines[r.start], r.ours, lines[SepOf(r)], r.theirs, lines[r.end])
  }

  function BlocksOf(lines: seq<string>, regions: seq<Region>): (blocks: seq<Block>)
    requires Layout(lines, regions, |lines|)
    ensures |blocks| == |regions|
    ensures forall k | 0 <= k < |regions| :: blocks[k] == BlockAt(lines, regions, k)
  {
    seq(|regions|, k requires 0 <= k < |regions| => BlockAt(lines, regions, k))
  }

  lemma RegionIsBlock(lines: seq<string>, regions: seq<Region>, k: nat)
    requires Layout(lines, regions, |lines|) && k < |regions|
    ensures var b, r := BlockAt(lines, regions, k), regions[k];
            IsBlock(b) && After(regions, k) <= r.start < |lines| && b.gap == lines[After(regions, k)..r.start]
            && r.end == r.start + |r.ours| + |r.theirs| + 2 < |lines|
            && lines[..r.end + 1] == lines[..After(regions, k)] + b.gap + Conflict(b)
  {
    hide MarkOf;
    assert InPlace(lines, regions, k);
    var r := regions[k];
    assert lines[r.start..r.end + 1] ==
           [lines[r.start]] + lines[r.start + 1..SepOf(r)] + [lines[SepOf(r)]] + lines[SepOf(r) + 1..r.end]
           + [lines[r.end]];
    assert lines[..r.end + 1] ==
           lines[..After(regions, k)] + lines[After(regions, k)..r.start] + lines[r.start..r.end + 1];
  }

  lemma {:induction false} RenderedBlocks(lines: seq<string>, regions: seq<Region>, k: nat)
    requires Layout(lines, regions, |lines|) && k <= |regions|
    ensures After(regions, k) <= |lines| && Render(BlocksOf(lines, regions), k) == lines[..After(regions, k)]
  {
    hide Layout;
    hide Conflict;
    hide BlockAt;
    if k > 0 {
      RenderedBlocks(lines, regions, k - 1);
      RegionIsBlock(lines, regions, k - 1);
    }
  }

  lemma RegionAtBlock(lines: seq<string>, regions: seq<Region>, k: nat)
    requires Layout(lines, regions, |lines|) && k < |regions|
    ensures RegionAt(BlocksOf(lines, regions), k) == regions[k]
  {
    hide MarkOf;
    hide Fits;
    hide Layout;
    hide Render;
    hide Conflict;
    RenderedBlocks(lines, regions, k);
    RegionIsBlock(lines, regions, k);
  }

  /** Printing inverts scanning: blocks and a gap print back to the scanned file. */
  lemma RenderOfScan(lines: seq<string>, regions: seq<Region>)
    requires Regions(lines) == Some(regions)
    ensures Layout(lines, regions, |lines|)
    ensures var blocks := BlocksOf(lines, regions);
            AreBlocks(blocks) && RegionsOf(blocks) == regions
            && lines == Render(blocks, |blocks|) + lines[After(regions, |regions|)..]
            && AllContent(lines[After(regions, |regions|)..])
  {
    hide MarkOf;
    hide BlockAt;
    hide RegionAt;
    hide Render;
    hide Regions;
    hide InPlace;
    RegionsExactly(lines, regions);
    var blocks := BlocksOf(lines, regions);
    forall k | 0 <= k < |regions| ensures IsBlock(blocks[k]) && RegionAt(blocks, k) == regions[k] {
      RegionAtBlock(lines, regions, k);
      RegionIsBlock(lines, regions, k);
    }
    RenderedBlocks(lines, regions, |regions|);
    assert lines[After(regions, |regions|)..|lines|] == lines[After(regions, |regions|)..];
  }
}
