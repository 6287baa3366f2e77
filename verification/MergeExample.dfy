/** One conflicted file from end to end: a title, a counter and a body. */
module MergeExample {
  import opened GitObjects
  import opened Text
  import opened TaskPhase
  import opened MarkerScanner
  import opened PartitionedMerge
  import opened MergedText
  import S = ScalarMerge

  const TITLE_X := "title: x"
  const TITLE_Y := "title: y"
  const COUNT_12 := "metrics_n: 12"
  const COUNT_7 := "metrics_n: 7"

  function Frontmatter(): Region { Region(1, [TITLE_X, COUNT_12], [TITLE_Y, COUNT_7], 7) }

  function Body(): Region { Region(9, ["ours"], ["theirs"], 13) }

  /** A conflict in the frontmatter and one in the body. */
  function Conflicted(): seq<string> {
    Document("---", "<<<<<<< a", TITLE_X, COUNT_12, "=======", TITLE_Y, COUNT_7, ">>>>>>> b", "ours", "theirs")
  }

  function ConflictedPlan(): Plan { Plan(8, [Frontmatter()], [Body()]) }

  /** What the YAML library says of the four lines. */
  ghost predicate ReadsPlainLines(yaml: S.Yaml) {
    && yaml(TITLE_X) == Some(("title", None)) == yaml(TITLE_Y)
    && yaml(COUNT_12) == Some(("metrics_n", Some(12))) && yaml(COUNT_7) == Some(("metrics_n", Some(7)))
  }

  // ------------------------------------------------------- lines and plan

  predicate IsPlain(line: string) {
    line != "" && 'a' <= line[0] <= 'z' && line[|line| - 1] != '\r' && '\n' !in line
  }

  lemma PlainLine(line: string)
    requires IsPlain(line)
    ensures IsLine(line) && MarkOf(line).Content? && !IsDelimiter(line) && TrimCR(line) == line
    ensures !IsBlank(line[0]) && !S.IsListOrComment(line)
  {
    assert TrimCR(line) == line && line[0] != DELIMITER[0];
    assert !StartsWith(line, "- ") && !StartsWith(line, "#");
  }

  lemma PlainLines()
    ensures IsPlain(TITLE_X) && IsPlain(TITLE_Y) && IsPlain(COUNT_12) && IsPlain(COUNT_7)
    ensures IsPlain("ours") && IsPlain("theirs")
  {
  }

  function Document(fence: string, open: string, a: string, b: string, sep: string, c: string, d: string,
                    close: string, ours: string, theirs: string): seq<string>
  {
    [fence, open, a, b, sep, c, d, close, fence, open, ours, sep, theirs, close]
  }

  lemma DocumentLines(fence: string, open: string, a: string, b: string, sep: string, c: string, d: string,
                      close: string, ours: string, theirs: string)
    requires IsLine(fence) && IsLine(open) && IsLine(a) && IsLine(b) && IsLine(sep) && IsLine(c) && IsLine(d)
    requires IsLine(close) && IsLine(ours) && IsLine(theirs) && IsDelimiter(fence) && !IsDelimiter(open)
    requires !IsDelimiter(a) && !IsDelimiter(b) && !IsDelimiter(sep) && !IsDelimiter(c) && !IsDelimiter(d)
    requires !IsDelimiter(close)
    ensures var lines := Document(fence, open, a, b, sep, c, d, close, ours, theirs);
            AreLines(lines) && Split(Join(lines)) == lines && FrontmatterClose(lines) == Some(8)
  {
    hide IsDelimiter;
    hide FrontmatterClose;
    hide IsLine;
    var lines := Document(fence, open, a, b, sep, c, d, close, ours, theirs);
    forall i | 1 <= i < 8 ensures !IsDelimiter(lines[i]) {
      assert lines[i] in {open, a, b, sep, c, d, close};
    }
    CloseUnique(lines, 8);
    forall i | 0 <= i < |lines| ensures IsLine(lines[i]) {
      assert lines[i] in {fence, open, a, b, sep, c, d, close, ours, theirs};
    }
    SplitLines(lines);
  }

  lemma ConflictedLines()
    ensures AreLines(Conflicted()) && Split(Join(Conflicted())) == Conflicted()
    ensures FrontmatterClose(Conflicted()) == Some(8)
  {
    PlainLines();
    PlainLine(TITLE_X);
    PlainLine(TITLE_Y);
    PlainLine(COUNT_12);
    PlainLine(COUNT_7);
    PlainLine("ours");
    PlainLine("theirs");
    DocMarks();
    DashesDelimit();
    MarkersAreLines();
    hide IsDelimiter;
    hide FrontmatterClose;
    hide MarkOf;
    hide IsLine;
    hide SplitOn;
    hide JoinWith;
    DocumentLines("---", "<<<<<<< a", TITLE_X, COUNT_12, "=======", TITLE_Y, COUNT_7, ">>>>>>> b", "ours", "theirs");
  }

  lemma SplitLines(lines: seq<string>)
    requires AreLines(lines) && |lines| > 0
    ensures Split(Join(lines)) == lines
  {
    SplitOfJoin(lines, '\n');
  }

  lemma MarkersAreLines()
    ensures IsLine("---") && IsLine("<<<<<<< a") && IsLine("=======") && IsLine(">>>>>>> b")
  {
  }

  lemma TwoConflicts(x: Block, y: Block)
    requires IsBlock(x) && IsBlock(y)
    ensures var lines := x.gap + Conflict(x) + y.gap + Conflict(y);
            var start := |x.gap| + |Conflict(x)| + |y.gap|;
            Regions(lines) ==
            Some([Region(|x.gap|, x.ours, x.theirs, |x.gap| + |x.ours| + |x.theirs| + 2)]
                 + [Region(start, y.ours, y.theirs, start + |y.ours| + |y.theirs| + 2)])
  {
    hide IsBlock;
    hide Conflict;
    var blocks := [x, y];
    assert Render(blocks, 0) == [];
    assert Render(blocks, 1) == x.gap + Conflict(x);
    assert Render(blocks, 2) + [] == x.gap + Conflict(x) + y.gap + Conflict(y);
    ScanOfRender(blocks, []);
    assert RegionsOf(blocks) == [RegionAt(blocks, 0)] + [RegionAt(blocks, 1)];
  }

  lemma DocumentIsPlanned(fence: string, open: string, a: string, b: string, sep: string, c: string, d: string,
                          close: string, ours: string, theirs: string)
    requires MarkOf(open).Opening? && MarkOf(sep).Separator? && MarkOf(close).Closing? && MarkOf(fence).Content?
    requires MarkOf(a).Content? && MarkOf(b).Content? && MarkOf(c).Content? && MarkOf(d).Content?
    requires MarkOf(ours).Content? && MarkOf(theirs).Content?
    requires FrontmatterClose(Document(fence, open, a, b, sep, c, d, close, ours, theirs)) == Some(8)
    ensures IsPlan(Document(fence, open, a, b, sep, c, d, close, ours, theirs),
                   Plan(8, [Region(1, [a, b], [c, d], 7)], [Region(9, [ours], [theirs], 13)]))
  {
    hide MarkOf;
    hide FrontmatterClose;
    hide Regions;
    var x, y := Block([fence], open, [a, b], sep, [c, d], close), Block([fence], open, [ours], sep, [theirs], close);
    TwoConflicts(x, y);
    assert x.gap + Conflict(x) + y.gap + Conflict(y) == Document(fence, open, a, b, sep, c, d, close, ours, theirs);
  }

  lemma ConflictedIsPlanned()
    ensures IsPlan(Conflicted(), ConflictedPlan())
  {
    ConflictedLines();
    PlainLines();
    PlainLine(TITLE_X);
    PlainLine(TITLE_Y);
    PlainLine(COUNT_12);
    PlainLine(COUNT_7);
    PlainLine("ours");
    PlainLine("theirs");
    DocMarks();
    hide MarkOf;
    hide IsDelimiter;
    hide IsPlan;
    hide FrontmatterClose;
    hide SplitOn;
    hide JoinWith;
    DocumentIsPlanned(
      "---", "<<<<<<< a", TITLE_X, COUNT_12, "=======", TITLE_Y, COUNT_7, ">>>>>>> b", "ours", "theirs");
  }

  // ------------------------------------------------------ the frontmatter

  lemma TwoEntries(yaml: S.Yaml, a: string, b: string, x: S.Entry, y: S.Entry)
    requires S.ParseScalarEntry(yaml, a) == Some(x) && S.ParseScalarEntry(yaml, b) == Some(y) && x.key != y.key
    ensures S.Parses(yaml, [a, b]) && S.Parsed(yaml, [a, b]) == [x, y]
  {
    hide S.ParseScalarEntry;
  }

  lemma OneRegion(yaml: S.Yaml, lines: seq<string>, r: Region, times: S.Times, base: S.Base, out: seq<string>)
    requires S.SidesParse(yaml, r) && S.Seed(lines, [r]) == {}
    requires var s := S.SidesOf(yaml, r);
             && |out| == |S.Order(s)|
             && forall i | 0 <= i < |out| :: S.Choice(s, S.Order(s)[i], times, base) == Some(out[i])
    ensures S.Resolved(yaml, lines, [r], times, base) == Some([out])
  {
    hide S.Order;
    hide S.Choice;
    hide S.SidesParse;
    hide S.Seed;
    hide S.Parsed;
    var s, sides := S.SidesOf(yaml, r), S.AllSides(yaml, [r]);
    assert sides == [s];
    assert S.Choices(s, S.Order(s), times, base) == out;
    assert S.AcceptedAt(sides, 0, times, base, {}) by {
      forall key | key in S.Order(s) ensures S.Choice(s, key, times, base).Some? {
        var i :| 0 <= i < |out| && S.Order(s)[i] == key;
      }
    }
    assert S.Replacements(sides, times, base) == [out];
  }

  lemma ConflictedIsResolved(yaml: S.Yaml, base: S.Base)
    requires ReadsPlainLines(yaml)
    ensures S.Resolved(yaml, Conflicted(), [Frontmatter()], Some((1, 2)), base) == Some([[TITLE_Y, COUNT_12]])
  {
    var x, y := S.Entry("title", TITLE_X, None), S.Entry("title", TITLE_Y, None);
    var m, n := S.Entry("metrics_n", COUNT_12, Some(12)), S.Entry("metrics_n", COUNT_7, Some(7));
    PlainLines();
    PlainLine(TITLE_X);
    PlainLine(TITLE_Y);
    PlainLine(COUNT_12);
    PlainLine(COUNT_7);
    assert "title" != "metrics_n" by { assert |"title"| != |"metrics_n"|; }
    TwoEntries(yaml, TITLE_X, COUNT_12, x, m);
    TwoEntries(yaml, TITLE_Y, COUNT_7, y, n);
    ChosenLines(S.SidesOf(yaml, Frontmatter()), x, y, m, n, base);
    NothingUntouched();
    hide *;
    OneRegionOf(yaml, base);
  }

  lemma OneRegionOf(yaml: S.Yaml, base: S.Base)
    requires S.SidesParse(yaml, Frontmatter()) && S.Seed(Conflicted(), [Frontmatter()]) == {}
    requires var s := S.SidesOf(yaml, Frontmatter());
             && S.Order(s) == ["title", "metrics_n"]
             && S.Choice(s, "title", Some((1, 2)), base) == Some(TITLE_Y)
             && S.Choice(s, "metrics_n", Some((1, 2)), base) == Some(COUNT_12)
    ensures S.Resolved(yaml, Conflicted(), [Frontmatter()], Some((1, 2)), base) == Some([[TITLE_Y, COUNT_12]])
  {
    hide S.Order;
    hide S.Choice;
    hide S.SidesParse;
    hide S.Seed;
    hide S.Resolved;
    OneRegion(yaml, Conflicted(), Frontmatter(), Some((1, 2)), base, [TITLE_Y, COUNT_12]);
  }

  lemma ChosenLines(s: S.Sides, x: S.Entry, y: S.Entry, m: S.Entry, n: S.Entry, base: S.Base)
    requires s == S.Sides([x, m], [y, n])
    requires x == S.Entry("title", TITLE_X, None) && y == S.Entry("title", TITLE_Y, None)
    requires m == S.Entry("metrics_n", COUNT_12, Some(12)) && n == S.Entry("metrics_n", COUNT_7, Some(7))
    ensures S.Order(s) == ["title", "metrics_n"]
    ensures S.Choice(s, "title", Some((1, 2)), base) == Some(TITLE_Y)
    ensures S.Choice(s, "metrics_n", Some((1, 2)), base) == Some(COUNT_12)
  {
    assert |"title"| != |"metrics_n"|;
    assert Decimal(12) == "12" by { assert Decimal(1) == "1"; }
    assert S.KeysOf(s.ours) == ["title", "metrics_n"];
    assert [y, n][..1] == [y] && [y][..0] == [];
    assert S.Without([y, n], ["title", "metrics_n"]) == S.Without([y], ["title", "metrics_n"]) == [];
    assert S.KeysOf([]) == [];
    assert [y, n][1..] == [n] && [x, m][1..] == [m];
    assert !S.IsCounterKey("title") && S.IsCounterKey("metrics_n");
    assert "metrics_n" + ": " + "12" == COUNT_12;
  }

  lemma NothingUntouched()
    ensures S.Seed(Conflicted(), [Frontmatter()]) == {}
  {
    var regions := [Frontmatter()];
    ConflictedLines();
    hide FrontmatterClose;
    hide S.TopLevelKey;
    assert regions[0].start == 1 && regions[0].end == 7;
    forall key ensures !S.IsUntouchedKey(Conflicted(), regions, key) {
      forall i: nat | 1 <= i < 8 ensures S.Inside(regions, i) {}
    }
  }

  // -------------------------------------------------------- the whole file

  lemma BodyKept()
    ensures BodyLines(Body()) == ["ours", "", "theirs"]
  {
    var r := Body();
    assert AreLines(r.ours) && AreLines(r.theirs);
    BothBodiesKept(r);
    assert r.ours != r.theirs by { assert |r.ours[0]| != |r.theirs[0]|; }
    assert ["ours"] + [""] + ["theirs"] == ["ours", "", "theirs"];
  }

  lemma FinalOfTwo(lines: seq<string>, regions: seq<Region>, rs: seq<seq<string>>)
    requires Layout(lines, regions, |lines|) && |rs| == |regions| == 2
    ensures regions[0].start <= regions[0].end + 1 <= regions[1].start <= regions[1].end + 1 <= |lines|
    ensures Final(lines, regions, rs) ==
            lines[..regions[0].start] + rs[0] + lines[regions[0].end + 1..regions[1].start] + rs[1]
            + lines[regions[1].end + 1..]
  {
    hide MarkOf;
    hide Layout;
    RegionBounds(lines, regions, 0);
    RegionBounds(lines, regions, 1);
    assert Spliced(lines, regions, rs, 0) == [];
    assert Spliced(lines, regions, rs, 1) == lines[..regions[0].start] + rs[0];
  }

  lemma ConflictedIsMerged()
    requires IsPlan(Conflicted(), ConflictedPlan())
    ensures Merged(Conflicted(), ConflictedPlan(), [[TITLE_Y, COUNT_12]]) ==
            ["---", TITLE_Y, COUNT_12, "---", "ours", "", "theirs"]
  {
    hide IsPlan;
    hide BodyLines;
    hide Layout;
    BodyKept();
    var lines, plan := Conflicted(), ConflictedPlan();
    var regions, rs := plan.frontmatter + plan.body, [[TITLE_Y, COUNT_12]] + Bodies(plan.body);
    PlanLayout(lines, plan);
    FinalOfTwo(lines, regions, rs);
    assert regions == [Frontmatter(), Body()] && rs == [[TITLE_Y, COUNT_12], ["ours", "", "theirs"]];
    assert lines[..1] == ["---"] && lines[8..9] == ["---"] && lines[14..] == [];
  }

  lemma NotInTasks()
    ensures !IsTaskFile("a.md") && IsMarkdown("a.md")
  {
    SplitPiece("a.md", '/', "");
    assert ParentName("a.md") == LastNamed([]) == ".";
    assert "a.md"[1..] == ".md";
  }

  /** Their title is newer, our counter is larger, and both bodies are kept. */
  lemma OneFileMerged(yaml: S.Yaml, base: S.Base)
    requires ReadsPlainLines(yaml)
    ensures var raw := Join(Conflicted());
            && IsPlan(Split(raw), ConflictedPlan())
            && Outcome(yaml, "a.md", raw, ConflictedPlan(), Some((1, 2)), base) ==
               Some(Join(["---", TITLE_Y, COUNT_12, "---", "ours", "", "theirs"]))
  {
    hide S.Resolved;
    hide JoinWith;
    hide SplitOn;
    hide IsTaskFile;
    hide IsMarkdown;
    hide IsPlan;
    hide Merged;
    hide Conflicted;
    hide NormalizedLines;
    ConflictedLines();
    ConflictedIsPlanned();
    ConflictedIsResolved(yaml, base);
    ConflictedIsMerged();
    NotInTasks();
    assert ConflictedPlan().frontmatter == [Frontmatter()];
  }
}
