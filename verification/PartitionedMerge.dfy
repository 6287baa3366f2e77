/** Resolving every conflict of a markdown file by position: frontmatter regions by
    the scalar rules, body regions by keeping both sides, and putting the results back
    between the untouched lines. */
module PartitionedMerge {
  import opened GitObjects
  import opened Text
  import opened TaskPhase
  import opened MarkerScanner
  import S = ScalarMerge

  // ------------------------------------------------------------ partition

  datatype Plan = Plan(close: nat, frontmatter: seq<Region>, body: seq<Region>)

  predicate Straddles(r: Region, close: nat) { r.start <= close <= r.end }

  /** The regions that lie before and after the closing delimiter of the frontmatter,
      and there are no others. */
  predicate IsPlan(lines: seq<string>, plan: Plan) {
    && FrontmatterClose(lines) == Some(plan.close)
    && Regions(lines) == Some(plan.frontmatter + plan.body)
    && (forall r | r in plan.frontmatter :: r.end < plan.close)
    && (forall r | r in plan.body :: plan.close < r.start)
  }

  method PlanConflictPartitions(lines: seq<string>) returns (plan: Option<Plan>)
    ensures plan.Some? ==> IsPlan(lines, plan.value)
    ensures plan.None? ==> forall p :: !IsPlan(lines, p)
    ensures plan.None? <==>
              || FrontmatterClose(lines).None? || Regions(lines).None?
              || exists r :: r in Regions(lines).value && Straddles(r, FrontmatterClose(lines).value)
  {
    hide Regions;
    var close := FrontmatterClose(lines);
    if close.None? { return None; }
    var conflicts := EnumerateConflictRegions(lines);
    if conflicts.None? { return None; }
    var regions := conflicts.value;
    RegionsExactly(lines, regions);
    var frontmatter: seq<Region>, body: seq<Region> := [], [];
    for k := 0 to |regions|
      invariant frontmatter + body == regions[..k]
      invariant forall r | r in frontmatter :: r.end < close.value
      invariant forall r | r in body :: close.value < r.start
      invariant |body| > 0 ==> k > 0 && regions[k - 1] == body[|body| - 1] && body[|body| - 1] in body
      invariant forall j | 0 <= j < k :: !Straddles(regions[j], close.value)
    {
      var r := regions[k];
      if k > 0 { InOrder(lines, regions, k - 1, k); }
      if r.end < close.value {
        assert |body| == 0;
        assert regions[..k] == frontmatter;
        frontmatter := frontmatter + [r];
      } else if r.start > close.value {
        body := body + [r];
      } else {
        assert r in regions && Straddles(r, close.value);
        forall p ensures !IsPlan(lines, p) {
          assert r in p.frontmatter + p.body ==> r in p.frontmatter || r in p.body;
        }
        return None;
      }
    }
    assert regions[..|regions|] == regions;
    return Some(Plan(close.value, frontmatter, body));
  }

  lemma {:induction false} InOrder(lines: seq<string>, regions: seq<Region>, j: nat, k: nat)
    requires Layout(lines, regions, |lines|) && j < k < |regions|
    ensures regions[j].start <= regions[j].end < regions[k].start <= regions[k].end < |lines|
    decreases k
  {
    hide MarkOf;
    assert InPlace(lines, regions, k) && InPlace(lines, regions, k - 1);
    if j < k - 1 { InOrder(lines, regions, j, k - 1); }
  }

  // ----------------------------------------------------------------- body

  function CombineBodies(ours: string, theirs: string): string {
    if theirs == "" && ours == "" then "" else
    if theirs == "" then ours else
    if ours == "" then theirs else
    if ours == theirs then ours else ours + "\n\n" + theirs
  }

  function ResolvedBodyLines(combined: string): seq<string> { if combined == "" then [] else Split(combined) }

  function BodyLines(r: Region): seq<string> { ResolvedBodyLines(CombineBodies(Join(r.ours), Join(r.theirs))) }

  method BodyReplacements(regions: seq<Region>) returns (r: seq<seq<string>>)
    ensures |r| == |regions| && forall k | 0 <= k < |r| :: r[k] == BodyLines(regions[k])
  {
    hide CombineBodies;
    hide ResolvedBodyLines;
    hide Join;
    r := [];
    for k := 0 to |regions|
      invariant |r| == k && forall j | 0 <= j < k :: r[j] == BodyLines(regions[j])
    {
      var combined := CombineBodies(Join(regions[k].ours), Join(regions[k].theirs));
      r := r + [ResolvedBodyLines(combined)];
    }
  }

  /** A side has text unless it has no lines or one empty line. */
  predicate HasText(side: seq<string>) { side != [] && side != [""] }

  lemma JoinEmptyExactly(side: seq<string>)
    ensures Join(side) == "" <==> !HasText(side)
  {
    if |side| > 1 { assert Join(side) == side[0] + "\n" + JoinWith(side[1..], "\n"); }
  }

  lemma SplitOfJoined(side: seq<string>)
    requires AreLines(side) && |side| > 0
    ensures Split(Join(side)) == side
  {
    SplitOfJoin(side, '\n');
  }

  lemma SplitOfBoth(ours: seq<string>, theirs: seq<string>)
    requires AreLines(ours) && AreLines(theirs) && |ours| > 0 && |theirs| > 0
    ensures Split(Join(ours) + "\n\n" + Join(theirs)) == ours + [""] + theirs
  {
    var all := ours + [""] + theirs;
    JoinOfBoth(ours, [""] + theirs);
    assert ([""] + theirs)[1..] == theirs;
    assert Join([""] + theirs) == "" + "\n" + Join(theirs);
    assert Join(all) == Join(ours) + "\n\n" + Join(theirs) by {
      assert all == ours + ([""] + theirs);
      assert Join(ours) + "\n" + ("" + "\n" + Join(theirs)) == Join(ours) + "\n\n" + Join(theirs);
    }
    SplitOfJoin(all, '\n');
  }

  lemma {:induction false} JoinOfBoth(a: seq<string>, b: seq<string>)
    requires |a| > 0 && |b| > 0
    ensures Join(a + b) == Join(a) + "\n" + Join(b)
  {
    assert (a + b)[1..] == a[1..] + b;
    if |a| > 1 {
      JoinOfBoth(a[1..], b);
    } else {
      assert a[1..] + b == b;
    }
  }

  /** Every side with text is there whole: once if both are equal, otherwise ours, an
      empty line and theirs; a region without text disappears. */
  lemma BothBodiesKept(r: Region)
    requires AreLines(r.ours) && AreLines(r.theirs)
    ensures BodyLines(r) ==
            if !HasText(r.ours) && !HasText(r.theirs) then []
            else if !HasText(r.theirs) || r.ours == r.theirs then r.ours
            else if !HasText(r.ours) then r.theirs
            else r.ours + [""] + r.theirs
  {
    JoinEmptyExactly(r.ours);
    JoinEmptyExactly(r.theirs);
    if HasText(r.ours) { SplitOfJoined(r.ours); }
    if HasText(r.theirs) { SplitOfJoined(r.theirs); }
    if HasText(r.ours) && HasText(r.theirs) { SplitOfBoth(r.ours, r.theirs); }
  }

  // --------------------------------------------------------------- splice

  /** The file up to the end of region `k - 1`, with the regions replaced. */
  function Spliced(lines: seq<string>, regions: seq<Region>, replacements: seq<seq<string>>, k: nat): seq<string>
    requires Layout(lines, regions, |lines|) && |replacements| == |regions| && k <= |regions|
  {
    if k == 0 then [] else
      assert InPlace(lines, regions, k - 1);
      Spliced(lines, regions, replacements, k - 1)
      + lines[After(regions, k - 1)..regions[k - 1].start] + replacements[k - 1]
  }

  function Final(lines: seq<string>, regions: seq<Region>, replacements: seq<seq<string>>): seq<string>
    requires Layout(lines, regions, |lines|) && |replacements| == |regions|
  {
    Spliced(lines, regions, replacements, |regions|) + lines[After(regions, |regions|)..]
  }

  method SpliceConflictRegions(lines: seq<string>, regions: seq<Region>, replacements: seq<seq<string>>)
    returns (out: seq<string>)
    requires Layout(lines, regions, |lines|) && |replacements| == |regions|
    ensures out == Final(lines, regions, replacements)
  {
    hide Layout;
    hide MarkOf;
    out := [];
    var cursor := 0;
    for k := 0 to |regions|
      invariant cursor == After(regions, k) <= |lines|
      invariant out == Spliced(lines, regions, replacements, k)
    {
      RegionBounds(lines, regions, k);
      out := out + lines[cursor..regions[k].start];
      out := out + replacements[k];
      cursor := regions[k].end + 1;
    }
    out := out + lines[cursor..];
  }

  lemma RegionBounds(lines: seq<string>, regions: seq<Region>, k: nat)
    requires Layout(lines, regions, |lines|) && k < |regions|
    ensures After(regions, k) <= regions[k].start < regions[k].end < |lines|
  {
    hide MarkOf;
    assert InPlace(lines, regions, k);
  }

  // ------------------------------------------------- what splicing keeps

  lemma {:induction false} SplicedFirst(lines: seq<string>, regions: seq<Region>, replacements: seq<seq<string>>,
                                        k: nat, n: nat)
    requires Layout(lines, regions, |lines|) && |replacements| == |regions| && k <= n <= |regions|
    ensures Spliced(lines, regions, replacements, k) <= Spliced(lines, regions, replacements, n)
    decreases n
  {
    hide Layout;
    hide MarkOf;
    if k < n {
      SplicedFirst(lines, regions, replacements, k, n - 1);
      RegionBounds(lines, regions, n - 1);
    }
  }

  /** The first line after the `k`-th gap: where region `k` starts, or the file ends. */
  function GapEnd(lines: seq<string>, regions: seq<Region>, k: nat): nat
    requires k <= |regions|
  {
    if k < |regions| then regions[k].start else |lines|
  }

  /** Each gap is there line by line, after the gaps and replacements before it, and
      followed by the replacement of its own region. */
  lemma GapKept(lines: seq<string>, regions: seq<Region>, replacements: seq<seq<string>>, k: nat)
    requires Layout(lines, regions, |lines|) && |replacements| == |regions| && k <= |regions|
    ensures var final, from, until := Final(lines, regions, replacements), After(regions, k), GapEnd(lines, regions, k);
            var at := |Spliced(lines, regions, replacements, k)|;
            && from <= until <= |lines| && at + (until - from) <= |final|
            && final[at..at + (until - from)] == lines[from..until]
            && (k < |regions| ==> replacements[k] <= final[at + (until - from)..])
            && (k == |regions| ==> at + (until - from) == |final|)
  {
    hide Layout;
    hide MarkOf;
    AfterInFile(lines, regions, k);
    if k < |regions| {
      RegionBounds(lines, regions, k);
      SplicedFirst(lines, regions, replacements, k + 1, |regions|);
      var gap := lines[After(regions, k)..regions[k].start];
      Between(Spliced(lines, regions, replacements, k), gap, replacements[k], Final(lines, regions, replacements));
    }
  }

  lemma Between(before: seq<string>, gap: seq<string>, next: seq<string>, all: seq<string>)
    requires before + gap + next <= all
    ensures all[|before|..|before| + |gap|] == gap && next <= all[|before| + |gap|..]
  {
    assert all[..|before + gap + next|] == before + gap + next;
    assert all[|before|..|before| + |gap|] == (before + gap + next)[|before|..|before| + |gap|];
  }

  lemma AfterInFile(lines: seq<string>, regions: seq<Region>, k: nat)
    requires Layout(lines, regions, |lines|) && k <= |regions|
    ensures After(regions, k) <= |lines|
  {
    hide MarkOf;
    if k > 0 { assert InPlace(lines, regions, k - 1); }
  }

  /** A conflict put in its own place gives the file back. */
  lemma {:induction false} SpliceOfConflicts(lines: seq<string>, regions: seq<Region>,
                                             replacements: seq<seq<string>>, k: nat)
    requires Layout(lines, regions, |lines|) && |replacements| == |regions| && k <= |regions|
    requires forall j | 0 <= j < k :: replacements[j] == Conflict(BlockAt(lines, regions, j))
    ensures After(regions, k) <= |lines| && Spliced(lines, regions, replacements, k) == lines[..After(regions, k)]
  {
    hide Layout;
    hide MarkOf;
    hide Conflict;
    hide BlockAt;
    hide IsBlock;
    if k > 0 {
      SpliceOfConflicts(lines, regions, replacements, k - 1);
      RegionIsBlock(lines, regions, k - 1);
    }
  }

  predicate Plain(replacements: seq<seq<string>>) { forall k | 0 <= k < |replacements| :: AllContent(replacements[k]) }

  lemma {:induction false} SplicedIsPlain(lines: seq<string>, regions: seq<Region>, replacements: seq<seq<string>>,
                                          k: nat)
    requires Layout(lines, regions, |lines|) && |replacements| == |regions| && k <= |regions| && Plain(replacements)
    ensures AllContent(Spliced(lines, regions, replacements, k))
  {
    hide MarkOf;
    if k > 0 {
      SplicedIsPlain(lines, regions, replacements, k - 1);
      assert InPlace(lines, regions, k - 1);
    }
  }

  // ------------------------------------------------- the closing delimiter

  predicate NoDelimiter(lines: seq<string>) { forall i | 0 <= i < |lines| :: !IsDelimiter(lines[i]) }

  lemma FirstLineOutside(lines: seq<string>, regions: seq<Region>)
    requires Layout(lines, regions, |lines|) && |lines| > 0 && IsDelimiter(lines[0]) && |regions| > 0
    ensures regions[0].start > 0
  {
    assert InPlace(lines, regions, 0);
    assert lines[0][0] == '-';
  }

  lemma GapHasNoDelimiter(lines: seq<string>, from: nat, until: nat, close: nat)
    requires from <= until <= |lines| && until <= close && FrontmatterClose(lines) == Some(close)
    ensures NoDelimiter(if from > 0 then lines[from..until] else if until > 0 then lines[from..until][1..] else [])
  {
    hide IsDelimiter;
  }

  lemma OneMoreStretch(before: seq<string>, gap: seq<string>, next: seq<string>)
    requires NoDelimiter(next)
    requires if before == [] then |gap| > 0 && NoDelimiter(gap[1..]) else NoDelimiter(before[1..]) && NoDelimiter(gap)
    ensures var s := before + gap + next;
            NoDelimiter(s[1..]) && s[0] == if before == [] then gap[0] else before[0]
  {
    hide IsDelimiter;
    if before == [] {
      assert (before + gap + next)[1..] == gap[1..] + next;
    } else {
      assert (before + gap + next)[1..] == before[1..] + gap + next;
    }
  }

  /** Up to region `k` of the frontmatter the spliced file starts with the same line and
      has no other delimiter. */
  lemma {:induction false} NoEarlyDelimiter(lines: seq<string>, regions: seq<Region>, replacements: seq<seq<string>>,
                                            k: nat, close: nat)
    requires Layout(lines, regions, |lines|) && |replacements| == |regions| && k <= |regions|
    requires FrontmatterClose(lines) == Some(close) && After(regions, k) <= close
    requires forall j | 0 <= j < k :: NoDelimiter(replacements[j])
    ensures var s := Spliced(lines, regions, replacements, k);
            if k == 0 then s == [] else |s| > 0 && s[0] == lines[0] && NoDelimiter(s[1..])
  {
    hide Layout;
    hide MarkOf;
    hide IsDelimiter;
    if k > 0 {
      RegionBounds(lines, regions, k - 1);
      NoEarlyDelimiter(lines, regions, replacements, k - 1, close);
      FirstLineOutside(lines, regions);
      var from, until := After(regions, k - 1), regions[k - 1].start;
      GapHasNoDelimiter(lines, from, until, close);
      OneMoreStretch(Spliced(lines, regions, replacements, k - 1), lines[from..until], replacements[k - 1]);
    }
  }

  /** The closing delimiter of the result is the same line as before, right where the
      untouched lines put it: frontmatter before it, body after it. */
  lemma ClosingKept(lines: seq<string>, plan: Plan, replacements: seq<seq<string>>)
    requires var regions := plan.frontmatter + plan.body;
             && Layout(lines, regions, |lines|) && |replacements| == |regions|
             && FrontmatterClose(lines) == Some(plan.close)
             && (forall r | r in plan.frontmatter :: r.end < plan.close)
             && (forall r | r in plan.body :: plan.close < r.start)
             && (forall j | 0 <= j < |plan.frontmatter| :: NoDelimiter(replacements[j]))
    ensures var regions, f := plan.frontmatter + plan.body, |plan.frontmatter|;
            var final := Final(lines, regions, replacements);
            After(regions, f) <= plan.close
            && var close := |Spliced(lines, regions, replacements, f)| + (plan.close - After(regions, f));
            FrontmatterClose(final) == Some(close) && final[close] == lines[plan.close] && final[0] == lines[0]
  {
    hide Layout;
    hide MarkOf;
    hide IsDelimiter;
    hide Spliced;
    hide Final;
    hide FrontmatterClose;
    var regions, f := plan.frontmatter + plan.body, |plan.frontmatter|;
    var final := Final(lines, regions, replacements);
    if f > 0 { assert regions[f - 1] == plan.frontmatter[f - 1] && plan.frontmatter[f - 1] in plan.frontmatter; }
    if f < |regions| { assert regions[f] == plan.body[0] && plan.body[0] in plan.body; }
    NoEarlyDelimiter(lines, regions, replacements, f, plan.close);
    GapKept(lines, regions, replacements, f);
    SplicedInFinal(lines, regions, replacements, f);
    var s, from, until := Spliced(lines, regions, replacements, f), After(regions, f), GapEnd(lines, regions, f);
    if f == 0 { assert s == []; }
    CloseShifts(final, lines, s, from, until, plan.close);
  }

  /** Lines without a delimiter and then a stretch of the file that has the closing one. */
  lemma CloseShifts(final: seq<string>, lines: seq<string>, s: seq<string>, from: nat, until: nat, close: nat)
    requires from <= close < until <= |lines| && s <= final && |s| + (until - from) <= |final|
    requires final[|s|..|s| + (until - from)] == lines[from..until]
    requires if s == [] then from == 0 else from > 0 && s[0] == lines[0] && NoDelimiter(s[1..])
    requires FrontmatterClose(lines) == Some(close)
    ensures var shifted := |s| + (close - from);
            FrontmatterClose(final) == Some(shifted) && final[shifted] == lines[close] && final[0] == lines[0]
  {
    hide IsDelimiter;
    hide FrontmatterClose;
    var shifted := |s| + (close - from);
    forall i | |s| <= i <= shifted ensures final[i] == lines[from + (i - |s|)] {
      assert final[|s|..|s| + (until - from)][i - |s|] == lines[from..until][i - |s|];
    }
    forall i | 1 <= i < |s| ensures !IsDelimiter(final[i]) {
      assert final[i] == s[i] == s[1..][i - 1];
    }
    assert s != [] ==> final[0] == s[0];
    CloseUnique(final, shifted);
  }

  lemma SplicedInFinal(lines: seq<string>, regions: seq<Region>, replacements: seq<seq<string>>, k: nat)
    requires Layout(lines, regions, |lines|) && |replacements| == |regions| && k <= |regions|
    ensures Spliced(lines, regions, replacements, k) <= Final(lines, regions, replacements)
  {
    hide Layout;
    SplicedFirst(lines, regions, replacements, k, |regions|);
    AfterInFile(lines, regions, |regions|);
  }

  // ------------------------------------------------ frontmatter lines

  lemma TrimmedStaysPlain(line: string)
    requires MarkOf(line).Content?
    ensures MarkOf(TrimCR(line)).Content? && TrimCR(TrimCR(line)) == TrimCR(line)
    ensures IsLine(line) ==> IsLine(TrimCR(line))
  {
    var t := TrimCR(line);
    assert StartsWith(t, "<<<<<<<") ==> StartsWith(line, "<<<<<<<");
    assert StartsWith(t, "=======") ==> StartsWith(line, "=======");
    assert StartsWith(t, ">>>>>>>") ==> StartsWith(line, ">>>>>>>");
  }

  /** A line that can stand in a merged frontmatter: no marker, no delimiter. */
  predicate IsHarmless(line: string) { MarkOf(line).Content? && !IsDelimiter(line) }

  lemma CounterLineIsHarmless(key: string, rest: string)
    requires S.IsCounterKey(key)
    ensures IsHarmless(key + rest)
  {
    var line := key + rest;
    assert line[0] == key[0] && (key[0] == 't' || key[0] == 'r' || key[0] == 'm');
    assert TrimCR(line) != "" ==> TrimCR(line)[0] == line[0];
  }

  lemma FoundIsHarmless(yaml: S.Yaml, lines: seq<string>, key: string)
    requires S.Parses(yaml, lines) && AllContent(lines) && yaml(DELIMITER).None?
    ensures var e := S.Find(S.Parsed(yaml, lines), key);
            e.Some? ==> IsHarmless(e.value.line)
  {
    hide MarkOf;
    var es := S.Parsed(yaml, lines);
    var e := S.Find(es, key);
    if e.Some? {
      var i :| 0 <= i < |es| && es[i] == e.value;
      TrimmedStaysPlain(lines[i]);
    }
  }

  /** A line the scalar rules emit carries no marker and is not a delimiter. All this
      asks of the YAML library is that `---` alone is not a mapping. */
  lemma ChoiceIsHarmless(yaml: S.Yaml, r: Region, key: string, times: S.Times, base: S.Base)
    requires S.SidesParse(yaml, r) && AllContent(r.ours) && AllContent(r.theirs) && yaml(DELIMITER).None?
    ensures var c := S.Choice(S.SidesOf(yaml, r), key, times, base);
            c.Some? ==> IsHarmless(c.value)
  {
    hide IsHarmless;
    hide S.Parses;
    hide S.Parsed;
    hide S.IsCounterKey;
    hide S.Max;
    hide Decimal;
    FoundIsHarmless(yaml, r.ours, key);
    FoundIsHarmless(yaml, r.theirs, key);
    var o, t := S.Find(S.Parsed(yaml, r.ours), key), S.Find(S.Parsed(yaml, r.theirs), key);
    if o.Some? && t.Some? && S.IsCounterKey(key) && o.value.number.Some? && t.value.number.Some? {
      var n := Decimal(S.Max(o.value.number.value, t.value.number.value));
      CounterLineIsHarmless(key, ": " + n);
      assert key + ": " + n == key + (": " + n);
    }
  }

  lemma BodyLinesArePlain(lines: seq<string>, r: Region)
    requires Fits(lines, r) && AreLines(lines)
    ensures AllContent(BodyLines(r))
  {
    assert forall i | 0 <= i < |r.ours| :: r.ours[i] == lines[r.start + 1 + i];
    assert forall i | 0 <= i < |r.theirs| :: r.theirs[i] == lines[SepOf(r) + 1 + i];
    BothBodiesKept(r);
  }

  // ------------------------------------------------------- the whole file

  predicate IsMarkdown(path: Path) {
    EndsWith(path, ".md") || EndsWith(path, ".MD") || EndsWith(path, ".Md") || EndsWith(path, ".mD")
  }

  function Bodies(regions: seq<Region>): (r: seq<seq<string>>)
    ensures |r| == |regions| && forall k | 0 <= k < |r| :: r[k] == BodyLines(regions[k])
  {
    seq(|regions|, k requires 0 <= k < |regions| => BodyLines(regions[k]))
  }

  lemma PlanLayout(lines: seq<string>, plan: Plan)
    requires IsPlan(lines, plan)
    ensures Layout(lines, plan.frontmatter + plan.body, |lines|)
    ensures forall r | r in plan.frontmatter || r in plan.body :: Fits(lines, r)
  {
    hide MarkOf;
    hide Regions;
    var regions := plan.frontmatter + plan.body;
    RegionsExactly(lines, regions);
    forall r | r in plan.frontmatter || r in plan.body ensures Fits(lines, r) {
      assert r in regions;
      var k :| 0 <= k < |regions| && regions[k] == r;
      assert InPlace(lines, regions, k);
    }
  }

  /** The lines of the merged file. */
  function Merged(lines: seq<string>, plan: Plan, scalar: seq<seq<string>>): seq<string>
    requires IsPlan(lines, plan) && |scalar| == |plan.frontmatter|
  {
    PlanLayout(lines, plan);
    Final(lines, plan.frontmatter + plan.body, scalar + Bodies(plan.body))
  }

  lemma {:induction false} PlanIsUnique(lines: seq<string>, p: Plan, q: Plan)
    requires IsPlan(lines, p) && IsPlan(lines, q)
    ensures p == q
  {
    hide Regions;
    hide Fits;
    PlanLayout(lines, p);
    var regions := p.frontmatter + p.body;
    forall k | 0 <= k < |regions|
      ensures regions[k].start <= regions[k].end && regions[k] == (q.frontmatter + q.body)[k]
    {
      RegionBounds(lines, regions, k);
    }
    SamePart(regions, p, q);
    SamePart(regions, q, p);
    assert p.frontmatter == regions[..|p.frontmatter|] == q.frontmatter;
    assert p.body == regions[|p.frontmatter|..] == q.body;
  }

  lemma BodyStartsLater(p: Plan, k: nat)
    requires |p.frontmatter| <= k < |p.frontmatter + p.body| && forall r | r in p.body :: p.close < r.start
    ensures p.close < (p.frontmatter + p.body)[k].start
  {
    assert (p.frontmatter + p.body)[k] == p.body[k - |p.frontmatter|] && p.body[k - |p.frontmatter|] in p.body;
  }

  lemma SamePart(regions: seq<Region>, p: Plan, q: Plan)
    requires p.frontmatter + p.body == regions == q.frontmatter + q.body && p.close == q.close
    requires forall k | 0 <= k < |regions| :: regions[k].start <= regions[k].end
    requires forall r | r in p.body :: p.close < r.start
    requires forall r | r in q.frontmatter :: r.end < q.close
    ensures |q.frontmatter| <= |p.frontmatter|
  {
    if |p.frontmatter| < |q.frontmatter| {
      var k := |q.frontmatter| - 1;
      assert regions[k] == q.frontmatter[k] && q.frontmatter[k] in q.frontmatter;
      BodyStartsLater(p, k);
    }
  }

  /** What becomes of a conflicted file that has a plan: nothing unless it is markdown
      and its frontmatter regions are all resolved. */
  function Outcome(yaml: S.Yaml, path: Path, raw: string, plan: Plan, times: S.Times, base: S.Base): Option<string>
    requires IsPlan(Split(raw), plan)
  {
    var scalar := S.Resolved(yaml, Split(raw), plan.frontmatter, times, base);
    if !IsMarkdown(path) || scalar.None? then None
    else Some(Normalized(path, Join(Merged(Split(raw), plan, scalar.value))))
  }

  /** Resolve a conflicted file, or decline; a declined frontmatter declines the whole
      file. */
  method ApplyPartitionedRules(yaml: S.Yaml, path: Path, raw: string, times: S.Times, base: S.Base)
    returns (r: Option<string>)
    ensures forall plan :: IsPlan(Split(raw), plan) ==> r == Outcome(yaml, path, raw, plan, times, base)
    ensures (forall plan :: !IsPlan(Split(raw), plan)) ==> r.None?
  {
    hide Normalized;
    hide Regions;
    hide Fits;
    hide Layout;
    if !IsMarkdown(path) { return None; }
    var lines := Split(raw);
    var found := PlanConflictPartitions(lines);
    if found.None? { return None; }
    var frontmatter, body := found.value.frontmatter, found.value.body;
    forall plan | IsPlan(lines, plan) ensures plan == found.value {
      PlanIsUnique(lines, plan, found.value);
    }
    PlanLayout(lines, found.value);
    var scalarReplacements: seq<seq<string>> := [];
    if |frontmatter| > 0 {
      forall k | 0 <= k < |frontmatter| ensures frontmatter[k].start <= frontmatter[k].end < |lines| {
        RegionBoundsOf(lines, frontmatter[k]);
      }
      var resolved := S.ResolveScalarRegions(yaml, lines, frontmatter, times, base);
      if resolved.None? { return None; }
      scalarReplacements := resolved.value;
    } else {
      NothingToResolve(yaml, lines, times, base);
      assert frontmatter == [];
    }
    var bodyReplacements := BodyReplacements(body);
    assert bodyReplacements == Bodies(body);
    var final := SpliceConflictRegions(lines, frontmatter + body, scalarReplacements + bodyReplacements);
    var content := NormalizeTaskPhase(path, Join(final));
    return Some(content);
  }

  lemma RegionBoundsOf(lines: seq<string>, r: Region)
    requires Fits(lines, r)
    ensures r.start <= r.end < |lines|
  {
  }

  lemma NothingToResolve(yaml: S.Yaml, lines: seq<string>, times: S.Times, base: S.Base)
    ensures S.Resolved(yaml, lines, [], times, base) == Some([])
  {
  }

  lemma LastGapIsPlain(lines: seq<string>, regions: seq<Region>)
    requires Layout(lines, regions, |lines|)
    ensures After(regions, |regions|) <= |lines| && AllContent(lines[After(regions, |regions|)..])
  {
    hide MarkOf;
    hide InPlace;
    assert lines[After(regions, |regions|)..] == lines[After(regions, |regions|)..|lines|];
  }
}
