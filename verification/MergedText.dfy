/** The merged file as it is written: which line breaks the scalar rules can bring in,
    and what they do to markers and to the end of the frontmatter. */
module MergedText {
  import opened GitObjects
  import opened Text
  import opened TaskPhase
  import opened MarkerScanner
  import opened PartitionedMerge
  import S = ScalarMerge

  // ----------------------------------------------------- lines of a text

  /** The lines of the joined text: every element gives as many as it has. */
  function Flat(ls: seq<string>): seq<string> {
    if |ls| == 0 then [] else Split(ls[0]) + Flat(ls[1..])
  }

  lemma OneMoreChar(c: char, s: string)
    ensures Split([c] + s) == if c == '\n' then [""] + Split(s) else [[c] + Split(s)[0]] + Split(s)[1..]
  {
    assert ([c] + s)[1..] == s;
  }

  lemma {:induction false} SplitAcross(a: string, b: string)
    ensures Split(a + "\n" + b) == Split(a) + Split(b)
  {
    hide SplitOn;
    if a == "" {
      SplitPiece("", '\n', b);
    } else {
      SplitAcross(a[1..], b);
      OneMoreChar(a[0], a[1..]);
      OneMoreChar(a[0], a[1..] + "\n" + b);
      assert [a[0]] + a[1..] == a && [a[0]] + (a[1..] + "\n" + b) == a + "\n" + b;
    }
  }

  lemma {:induction false} FlatIsSplit(ls: seq<string>)
    requires |ls| > 0
    ensures Split(Join(ls)) == Flat(ls)
  {
    if |ls| == 1 {
      assert Flat(ls[1..]) == [];
    } else {
      FlatIsSplit(ls[1..]);
      SplitAcross(ls[0], Join(ls[1..]));
    }
  }

  lemma {:induction false} FlatOfBoth(a: seq<string>, b: seq<string>)
    ensures Flat(a + b) == Flat(a) + Flat(b)
  {
    if |a| == 0 {
      assert a + b == b;
    } else {
      assert (a + b)[1..] == a[1..] + b;
      FlatOfBoth(a[1..], b);
    }
  }

  lemma {:induction false} FlatOfLines(ls: seq<string>)
    requires AreLines(ls)
    ensures Flat(ls) == ls
  {
    if |ls| > 0 {
      SplitPiece(ls[0], '\n', "");
      FlatOfLines(ls[1..]);
    }
  }

  lemma {:induction false} FlatIsHarmless(ls: seq<string>)
    ensures AllContent(Flat(ls)) <==> forall i | 0 <= i < |ls| :: AllContent(Split(ls[i]))
    ensures NoDelimiter(Flat(ls)) <==> forall i | 0 <= i < |ls| :: NoDelimiter(Split(ls[i]))
  {
    hide MarkOf;
    hide IsDelimiter;
    if |ls| > 0 {
      var rest := ls[1..];
      FlatIsHarmless(rest);
      BothHarmless(Split(ls[0]), Flat(rest));
      assert forall i | 0 < i < |ls| :: ls[i] == rest[i - 1];
      assert forall i | 0 <= i < |rest| :: rest[i] == ls[i + 1];
    }
  }

  lemma BothHarmless(a: seq<string>, b: seq<string>)
    ensures AllContent(a + b) <==> AllContent(a) && AllContent(b)
    ensures NoDelimiter(a + b) <==> NoDelimiter(a) && NoDelimiter(b)
  {
    hide MarkOf;
    hide IsDelimiter;
    assert forall i | 0 <= i < |a| :: (a + b)[i] == a[i];
    assert forall i | 0 <= i < |b| :: (a + b)[|a| + i] == b[i];
  }

  function FlatAll(rs: seq<seq<string>>): (r: seq<seq<string>>)
    ensures |r| == |rs| && forall k | 0 <= k < |rs| :: r[k] == Flat(rs[k])
  {
    seq(|rs|, k requires 0 <= k < |rs| => Flat(rs[k]))
  }

  lemma {:induction false} FlatOfSpliced(lines: seq<string>, regions: seq<Region>, rs: seq<seq<string>>, k: nat)
    requires Layout(lines, regions, |lines|) && AreLines(lines) && |rs| == |regions| && k <= |regions|
    ensures Flat(Spliced(lines, regions, rs, k)) == Spliced(lines, regions, FlatAll(rs), k)
  {
    hide Layout;
    hide MarkOf;
    hide Flat;
    if k == 0 {
      FlatOfLines([]);
    } else {
      RegionBounds(lines, regions, k - 1);
      FlatOfSpliced(lines, regions, rs, k - 1);
      var before, gap := Spliced(lines, regions, rs, k - 1), lines[After(regions, k - 1)..regions[k - 1].start];
      FlatOfBoth(before + gap, rs[k - 1]);
      FlatOfBoth(before, gap);
      FlatOfLines(gap);
    }
  }

  lemma FlatOfFinal(lines: seq<string>, regions: seq<Region>, rs: seq<seq<string>>)
    requires Layout(lines, regions, |lines|) && AreLines(lines) && |rs| == |regions|
    ensures Flat(Final(lines, regions, rs)) == Final(lines, regions, FlatAll(rs))
  {
    hide Layout;
    hide MarkOf;
    AfterInFile(lines, regions, |regions|);
    FlatOfSpliced(lines, regions, rs, |regions|);
    var tail := lines[After(regions, |regions|)..];
    FlatOfBoth(Spliced(lines, regions, rs, |regions|), tail);
    FlatOfLines(tail);
  }

  // ------------------------------------------------- counters with breaks

  /** No line of the key after its first one is a marker line. */
  predicate NoMarkerInside(key: string) { AllContent(Split(key)[1..]) }

  /** No line of the key between its first and its last one is a delimiter. */
  predicate NoDelimiterInside(key: string) { forall j | 0 < j < |Split(key)| - 1 :: !IsDelimiter(Split(key)[j]) }

  lemma OneMoreInFront(c: char, s: string, rest: string)
    requires var n := |Split(s)| - 1; Split(s + rest) == Split(s)[..n] + [Split(s)[n] + rest]
    requires Split(s)[0] <= s
    ensures var ps := Split([c] + s);
            var n := |ps| - 1; Split([c] + (s + rest)) == ps[..n] + [ps[n] + rest] && ps[0] <= [c] + s
  {
    hide SplitOn;
    OneMoreChar(c, s);
    OneMoreChar(c, s + rest);
    var ps := Split(s);
    var n := |ps| - 1;
    if c == '\n' {
      assert ([""] + ps)[..n + 1] == [""] + ps[..n];
    } else if n == 0 {
      assert ps[..n] == [] && [c] + (ps[0] + rest) == ([c] + ps[0]) + rest;
    } else {
      assert ([[c] + ps[0]] + ps[1..])[..n] == [[c] + ps[0]] + ps[1..n];
      assert (ps[..n] + [ps[n] + rest])[1..] == ps[1..n] + [ps[n] + rest];
    }
  }

  lemma {:induction false} SplitTail(s: string, rest: string)
    requires IsLine(rest)
    ensures var n := |Split(s)| - 1; Split(s + rest) == Split(s)[..n] + [Split(s)[n] + rest]
    ensures Split(s)[0] <= s
  {
    if s == "" {
      SplitPiece(rest, '\n', "");
      assert "" + rest == rest;
    } else {
      SplitTail(s[1..], rest);
      OneMoreInFront(s[0], s[1..], rest);
      assert [s[0]] + s[1..] == s && [s[0]] + (s[1..] + rest) == s + rest;
    }
  }

  /** A piece that `: <number>` is put after. */
  lemma NumberedPiece(piece: string, n: int)
    ensures MarkOf(piece + ": " + Decimal(n)) == MarkOf(piece) && !IsDelimiter(piece + ": " + Decimal(n))
    ensures IsLine(": " + Decimal(n)) && piece + (": " + Decimal(n)) == piece + ": " + Decimal(n)
  {
    hide Decimal;
    var line, d := piece + ": " + Decimal(n), Decimal(n);
    assert line[|piece|] == ':' && line[..|piece|] == piece;
    SamePrefix(line, piece, "<<<<<<<");
    SamePrefix(line, piece, "=======");
    SamePrefix(line, piece, ">>>>>>>");
    assert d[|d| - 1] in d && line[|line| - 1] == d[|d| - 1];
  }

  lemma SamePrefix(line: string, piece: string, mark: string)
    requires piece < line && line[|piece|] == ':' && ':' !in mark
    ensures StartsWith(line, mark) <==> StartsWith(piece, mark)
  {
    assert |piece| < |mark| ==> mark[|piece|] != ':';
  }

  lemma FirstPieceIsHarmless(key: string)
    requires S.IsCounterKey(key)
    ensures IsHarmless(Split(key)[0])
  {
    SplitTail(key, "");
    var p := Split(key)[0];
    if p != "" {
      assert p[0] == key[0] && (key[0] == 't' || key[0] == 'r' || key[0] == 'm');
      assert TrimCR(p) != "" ==> TrimCR(p)[0] == p[0];
    }
  }

  lemma CounterPieces(key: string, n: int)
    requires S.IsCounterKey(key)
    ensures var c := key + ": " + Decimal(n);
            && (AllContent(Split(c)) <==> NoMarkerInside(key))
            && (NoDelimiter(Split(c)) <==> NoDelimiterInside(key))
  {
    hide MarkOf;
    hide IsDelimiter;
    hide S.IsCounterKey;
    hide Decimal;
    var rest, ps := ": " + Decimal(n), Split(key);
    var m := |ps| - 1;
    FirstPieceIsHarmless(key);
    NumberedPiece(ps[m], n);
    NumberedPiece(key, n);
    SplitTail(key, rest);
    var cs := Split(key + rest);
    assert cs == ps[..m] + [ps[m] + rest];
    assert forall j | 0 <= j <= m :: MarkOf(cs[j]) == MarkOf(ps[j]);
    assert forall j | 0 < j <= m :: ps[1..][j - 1] == ps[j];
  }

  lemma FoundIsLine(yaml: S.Yaml, lines: seq<string>, key: string)
    requires S.Parses(yaml, lines) && AreLines(lines)
    ensures var e := S.Find(S.Parsed(yaml, lines), key);
            e.Some? ==> IsLine(e.value.line)
  {
    var es := S.Parsed(yaml, lines);
    var e := S.Find(es, key);
    if e.Some? {
      var i :| 0 <= i < |es| && es[i] == e.value;
      assert TrimCR(lines[i]) <= lines[i];
    }
  }

  lemma HarmlessLine(line: string)
    requires IsLine(line) && IsHarmless(line)
    ensures AllContent(Split(line)) && NoDelimiter(Split(line))
  {
    hide MarkOf;
    hide IsDelimiter;
    SplitPiece(line, '\n', "");
  }

  lemma ChoicePieces(yaml: S.Yaml, r: Region, key: string, times: S.Times, base: S.Base)
    requires S.SidesParse(yaml, r) && AllContent(r.ours) && AllContent(r.theirs) && yaml(DELIMITER).None?
    requires AreLines(r.ours) && AreLines(r.theirs) && S.Choice(S.SidesOf(yaml, r), key, times, base).Some?
    ensures var c := S.Choice(S.SidesOf(yaml, r), key, times, base).value;
            && (AllContent(Split(c)) <==> (S.IsMergedCounter(yaml, r, key) ==> NoMarkerInside(key)))
            && (NoDelimiter(Split(c)) <==> (S.IsMergedCounter(yaml, r, key) ==> NoDelimiterInside(key)))
  {
    hide AllContent;
    hide NoDelimiter;
    hide IsHarmless;
    hide NoMarkerInside;
    hide NoDelimiterInside;
    hide S.Parses;
    hide S.Parsed;
    hide S.IsCounterKey;
    hide Decimal;
    hide Split;
    FoundIsLine(yaml, r.ours, key);
    FoundIsLine(yaml, r.theirs, key);
    var o, t := S.Find(S.Parsed(yaml, r.ours), key), S.Find(S.Parsed(yaml, r.theirs), key);
    if S.IsMergedCounter(yaml, r, key) {
      CounterPieces(key, S.Max(o.value.number.value, t.value.number.value));
    } else {
      ChoiceIsHarmless(yaml, r, key, times, base);
      HarmlessLine(S.Choice(S.SidesOf(yaml, r), key, times, base).value);
    }
  }

  /** No merged counter of the regions has a marker line in its key. */
  ghost predicate MarkerFree(yaml: S.Yaml, regions: seq<Region>) {
    forall r, key | r in regions && S.IsMergedCounter(yaml, r, key) :: NoMarkerInside(key)
  }

  /** ... or a delimiter. */
  ghost predicate DelimiterFree(yaml: S.Yaml, regions: seq<Region>) {
    forall r, key | r in regions && S.IsMergedCounter(yaml, r, key) :: NoDelimiterInside(key)
  }

  lemma RegionPieces(yaml: S.Yaml, lines: seq<string>, regions: seq<Region>, times: S.Times, base: S.Base, k: nat)
    requires (forall r | r in regions :: Fits(lines, r)) && AreLines(lines) && yaml(DELIMITER).None?
    requires S.Resolved(yaml, lines, regions, times, base).Some? && k < |regions|
    ensures var scalar := S.Resolved(yaml, lines, regions, times, base).value;
            && |scalar| == |regions|
            && (AllContent(Flat(scalar[k])) <==>
                forall key | S.IsMergedCounter(yaml, regions[k], key) :: NoMarkerInside(key))
            && (NoDelimiter(Flat(scalar[k])) <==>
                forall key | S.IsMergedCounter(yaml, regions[k], key) :: NoDelimiterInside(key))
  {
    hide MarkOf;
    hide AllContent;
    hide NoDelimiter;
    hide NoMarkerInside;
    hide NoDelimiterInside;
    hide S.IsCounterKey;
    hide S.Choice;
    hide S.Order;
    hide S.Parses;
    hide S.Parsed;
    hide S.Seed;
    hide Split;
    hide Flat;
    var scalar, r := S.Resolved(yaml, lines, regions, times, base).value, regions[k];
    assert S.SidesParse(yaml, r) && r in regions;
    SidesAreLines(lines, r);
    S.KeySafety(yaml, lines, regions, times, base, k);
    FlatIsHarmless(scalar[k]);
    var keys := S.Order(S.SidesOf(yaml, r));
    forall i | 0 <= i < |keys|
      ensures AllContent(Split(scalar[k][i])) <==> (S.IsMergedCounter(yaml, r, keys[i]) ==> NoMarkerInside(keys[i]))
      ensures NoDelimiter(Split(scalar[k][i])) <==> (S.IsMergedCounter(yaml, r, keys[i]) ==> NoDelimiterInside(keys[i]))
    {
      ChoicePieces(yaml, r, keys[i], times, base);
    }
    forall key | S.IsMergedCounter(yaml, r, key) ensures exists i :: 0 <= i < |keys| && keys[i] == key {
      assert key in keys;
    }
  }

  lemma SidesAreLines(lines: seq<string>, r: Region)
    requires Fits(lines, r) && AreLines(lines)
    ensures AreLines(r.ours) && AreLines(r.theirs) && AllContent(r.ours) && AllContent(r.theirs)
  {
    hide MarkOf;
    assert forall i | 0 <= i < |r.ours| :: r.ours[i] == lines[r.start + 1 + i];
    assert forall i | 0 <= i < |r.theirs| :: r.theirs[i] == lines[SepOf(r) + 1 + i];
  }

  lemma BodyIsFlat(lines: seq<string>, r: Region)
    requires Fits(lines, r) && AreLines(lines)
    ensures Flat(BodyLines(r)) == BodyLines(r) && AllContent(BodyLines(r))
  {
    SidesAreLines(lines, r);
    BodyLinesArePlain(lines, r);
    BothBodiesKept(r);
    FlatOfLines(BodyLines(r));
  }

  // ------------------------------------------------------ the whole file

  /** A spliced file has no marker line exactly if no replacement has one. */
  lemma PlainExactly(lines: seq<string>, regions: seq<Region>, rs: seq<seq<string>>)
    requires Layout(lines, regions, |lines|) && |rs| == |regions|
    ensures AllContent(Final(lines, regions, rs)) <==> Plain(rs)
  {
    hide Layout;
    hide MarkOf;
    hide Spliced;
    var final := Final(lines, regions, rs);
    if Plain(rs) {
      SplicedIsPlain(lines, regions, rs, |regions|);
      LastGapIsPlain(lines, regions);
    }
    if AllContent(final) {
      forall k | 0 <= k < |rs| ensures AllContent(rs[k]) {
        GapKept(lines, regions, rs, k);
        var at := |Spliced(lines, regions, rs, k)| + (GapEnd(lines, regions, k) - After(regions, k));
        assert forall i | 0 <= i < |rs[k]| :: rs[k][i] == final[at..][i] == final[at + i];
      }
    }
  }

  /** Where the closing delimiter ends up in a spliced file. */
  function ShiftedClose(lines: seq<string>, plan: Plan, rs: seq<seq<string>>): int
    requires Layout(lines, plan.frontmatter + plan.body, |lines|) && |rs| == |plan.frontmatter + plan.body|
  {
    var regions, f := plan.frontmatter + plan.body, |plan.frontmatter|;
    |Spliced(lines, regions, rs, f)| + (plan.close - After(regions, f))
  }

  ghost predicate IsDivided(lines: seq<string>, plan: Plan, rs: seq<seq<string>>) {
    && Layout(lines, plan.frontmatter + plan.body, |lines|) && |rs| == |plan.frontmatter + plan.body|
    && FrontmatterClose(lines) == Some(plan.close)
    && (forall r | r in plan.frontmatter :: r.end < plan.close)
    && (forall r | r in plan.body :: plan.close < r.start)
  }

  lemma CloseIsThere(lines: seq<string>, plan: Plan, rs: seq<seq<string>>)
    requires IsDivided(lines, plan, rs)
    ensures var regions, close := plan.frontmatter + plan.body, ShiftedClose(lines, plan, rs);
            var final := Final(lines, regions, rs);
            0 <= |Spliced(lines, regions, rs, |plan.frontmatter|)| <= close < |final|
            && final[close] == lines[plan.close]
  {
    hide Layout;
    hide Spliced;
    hide Final;
    hide FrontmatterClose;
    var regions, f := plan.frontmatter + plan.body, |plan.frontmatter|;
    var final := Final(lines, regions, rs);
    if f > 0 { assert regions[f - 1] == plan.frontmatter[f - 1] && plan.frontmatter[f - 1] in plan.frontmatter; }
    if f < |regions| { assert regions[f] == plan.body[0] && plan.body[0] in plan.body; }
    assert plan.close < |lines| by { assert FrontmatterClose(lines).Some?; CloseInFile(lines); }
    GapKept(lines, regions, rs, f);
    var at, from, until := |Spliced(lines, regions, rs, f)|, After(regions, f), GapEnd(lines, regions, f);
    assert from <= plan.close < until;
    assert final[at..at + (until - from)][plan.close - from] == lines[from..until][plan.close - from];
  }

  lemma CloseInFile(lines: seq<string>)
    ensures FrontmatterClose(lines).Some? ==> 1 <= FrontmatterClose(lines).value < |lines| && IsDelimiter(lines[0])
                                              && IsDelimiter(lines[FrontmatterClose(lines).value])
  {
  }

  /** A delimiter in the replacement of a frontmatter region comes before the closing one. */
  lemma DelimiterIsEarly(lines: seq<string>, plan: Plan, rs: seq<seq<string>>, j: nat, i: nat)
    requires IsDivided(lines, plan, rs) && j < |plan.frontmatter| && i < |rs[j]| && IsDelimiter(rs[j][i])
    ensures FrontmatterClose(Final(lines, plan.frontmatter + plan.body, rs)) != Some(ShiftedClose(lines, plan, rs))
  {
    hide Layout;
    hide MarkOf;
    hide IsDelimiter;
    hide Spliced;
    hide Final;
    var regions, f := plan.frontmatter + plan.body, |plan.frontmatter|;
    var final := Final(lines, regions, rs);
    CloseInFile(lines);
    CloseIsThere(lines, plan, rs);
    FirstLineOutside(lines, regions);
    EndsWithReplacement(lines, regions, rs, j);
    SplicedFirst(lines, regions, rs, j + 1, f);
    SplicedInFinal(lines, regions, rs, f);
    var s := Spliced(lines, regions, rs, j + 1);
    var x := |s| - |rs[j]| + i;
    assert s[x] == rs[j][i] && final[x] == s[x];
    assert x >= 1 && x < ShiftedClose(lines, plan, rs);
  }

  lemma EndsWithReplacement(lines: seq<string>, regions: seq<Region>, rs: seq<seq<string>>, j: nat)
    requires Layout(lines, regions, |lines|) && |rs| == |regions| && j < |regions|
    ensures var s := Spliced(lines, regions, rs, j + 1);
            |s| >= regions[0].start + |rs[j]| && s[|s| - |rs[j]|..] == rs[j]
  {
    hide Layout;
    hide MarkOf;
    RegionBounds(lines, regions, j);
    if j > 0 {
      RegionBounds(lines, regions, 0);
      SplicedFirst(lines, regions, rs, 1, j);
      assert |Spliced(lines, regions, rs, 1)| >= regions[0].start by { FirstSpliced(lines, regions, rs); }
    }
  }

  lemma FirstSpliced(lines: seq<string>, regions: seq<Region>, rs: seq<seq<string>>)
    requires Layout(lines, regions, |lines|) && |rs| == |regions| && |regions| > 0
    ensures |Spliced(lines, regions, rs, 1)| == regions[0].start + |rs[0]|
  {
    hide Layout;
    hide MarkOf;
    RegionBounds(lines, regions, 0);
    assert Spliced(lines, regions, rs, 0) == [];
  }

  /** The frontmatter of a spliced file closes with the same line as before exactly if no
      replacement in it has a delimiter. */
  lemma CloseExactly(lines: seq<string>, plan: Plan, rs: seq<seq<string>>)
    requires IsDivided(lines, plan, rs)
    ensures FrontmatterClose(Final(lines, plan.frontmatter + plan.body, rs)) == Some(ShiftedClose(lines, plan, rs)) <==>
            forall j | 0 <= j < |plan.frontmatter| :: NoDelimiter(rs[j])
  {
    hide Layout;
    hide MarkOf;
    hide IsDelimiter;
    hide Spliced;
    hide Final;
    hide FrontmatterClose;
    if forall j | 0 <= j < |plan.frontmatter| :: NoDelimiter(rs[j]) {
      ClosingKept(lines, plan, rs);
    } else {
      var j :| 0 <= j < |plan.frontmatter| && !NoDelimiter(rs[j]);
      var i :| 0 <= i < |rs[j]| && IsDelimiter(rs[j][i]);
      DelimiterIsEarly(lines, plan, rs, j, i);
    }
  }

  /** The rewrite of a phase line touches no marker and no delimiter. */
  lemma NormalizedKeeps(lines: seq<string>)
    ensures var r := NormalizedLines(lines);
            && |r| == |lines| && FrontmatterClose(r) == FrontmatterClose(lines)
            && (AllContent(r) <==> AllContent(lines))
            && forall i | 0 <= i < |lines| && IsDelimiter(lines[i]) :: r[i] == lines[i]
  {
    NormalizationIsLocal(lines);
    var r := NormalizedLines(lines);
    if r != lines {
      var i := FirstAlias(lines, 1, FrontmatterClose(lines).value).value;
      AliasIsHarmless(lines[i]);
      assert forall j | 0 <= j < |lines| && j != i :: r[j] == lines[j];
      assert MarkOf(r[i]).Content? && MarkOf(lines[i]).Content?;
    }
  }

  lemma AliasIsHarmless(line: string)
    requires IsAlias(line)
    ensures IsHarmless(line) && MarkOf(Rewritten(line)).Content?
  {
    hide TrimBlanks;
    var text := DropOneCR(line);
    assert text[0] == KEY[0] == line[0];
    assert TrimCR(line) != "" ==> TrimCR(line)[0] == line[0];
    assert Rewritten(line)[0] == 'p';
  }

  lemma WrittenLines(path: Path, ls: seq<string>)
    requires |ls| > 0
    ensures var w := Split(Normalized(path, Join(ls)));
            && |w| == |Flat(ls)| && FrontmatterClose(w) == FrontmatterClose(Flat(ls))
            && (AllContent(w) <==> AllContent(Flat(ls)))
            && forall i | 0 <= i < |w| && IsDelimiter(Flat(ls)[i]) :: w[i] == Flat(ls)[i]
  {
    hide FrontmatterClose;
    hide AllContent;
    hide IsDelimiter;
    hide NormalizedLines;
    FlatIsSplit(ls);
    if IsTaskFile(path) {
      NormalizedContentLines(path, Join(ls));
      NormalizedKeeps(Flat(ls));
    }
  }

  /** The frontmatter replacements as lines of the file. */
  function WrittenClose(lines: seq<string>, plan: Plan, scalar: seq<seq<string>>): int
    requires IsPlan(lines, plan) && |scalar| == |plan.frontmatter|
  {
    PlanLayout(lines, plan);
    ShiftedClose(lines, plan, FlatAll(scalar + Bodies(plan.body)))
  }

  lemma MergedLines(lines: seq<string>, plan: Plan, scalar: seq<seq<string>>)
    requires IsPlan(lines, plan) && AreLines(lines) && |scalar| == |plan.frontmatter|
    ensures var flat, close := Flat(Merged(lines, plan, scalar)), WrittenClose(lines, plan, scalar);
            && 0 <= close < |flat| && flat[close] == lines[plan.close] && IsDelimiter(flat[close])
            && (AllContent(flat) <==> Plain(FlatAll(scalar)))
            && (FrontmatterClose(flat) == Some(close) <==> forall k | 0 <= k < |scalar| :: NoDelimiter(Flat(scalar[k])))
  {
    hide MarkOf;
    hide IsDelimiter;
    hide Regions;
    hide Fits;
    hide Layout;
    hide Final;
    hide NoDelimiter;
    hide BodyLines;
    hide Flat;
    hide AllContent;
    PlanLayout(lines, plan);
    CloseInFile(lines);
    var regions, rs := plan.frontmatter + plan.body, scalar + Bodies(plan.body);
    FlatOfFinal(lines, regions, rs);
    PlainExactly(lines, regions, FlatAll(rs));
    CloseIsThere(lines, plan, FlatAll(rs));
    CloseExactly(lines, plan, FlatAll(rs));
    forall k | |scalar| <= k < |rs| ensures AllContent(FlatAll(rs)[k]) {
      var r := plan.body[k - |scalar|];
      assert r in plan.body;
      BodyIsFlat(lines, r);
    }
    assert forall k | 0 <= k < |scalar| :: FlatAll(rs)[k] == FlatAll(scalar)[k] == Flat(scalar[k]);
  }

  /** What is written for a conflicted file. It has no marker line left if and only if no
      key of a counter written anew has a marker line in it. The closing delimiter is
      there, and it still closes the frontmatter if and only if no such key has a
      delimiter in it. All this asks of the YAML library is that `---` alone is not a
      mapping. */
  lemma MergedFile(yaml: S.Yaml, path: Path, raw: string, plan: Plan, times: S.Times, base: S.Base)
    requires IsPlan(Split(raw), plan) && yaml(DELIMITER).None?
    requires Outcome(yaml, path, raw, plan, times, base).Some?
    ensures var lines, written := Split(raw), Split(Outcome(yaml, path, raw, plan, times, base).value);
            var scalar := S.Resolved(yaml, lines, plan.frontmatter, times, base).value;
            && |scalar| == |plan.frontmatter|
            && (AllContent(written) <==> MarkerFree(yaml, plan.frontmatter))
            && var close := WrittenClose(lines, plan, scalar);
            && 0 <= close < |written| && written[close] == lines[plan.close]
            && (FrontmatterClose(written) == Some(close) <==> DelimiterFree(yaml, plan.frontmatter))
  {
    hide MarkOf;
    hide IsDelimiter;
    hide Regions;
    hide Fits;
    hide Layout;
    hide Normalized;
    hide AllContent;
    hide NoDelimiter;
    hide NoMarkerInside;
    hide NoDelimiterInside;
    hide S.IsMergedCounter;
    hide FrontmatterClose;
    hide WrittenClose;
    hide S.Resolved;
    hide Merged;
    var lines := Split(raw);
    var resolved := S.Resolved(yaml, lines, plan.frontmatter, times, base);
    PlanLayout(lines, plan);
    NothingLost(yaml, lines, plan.frontmatter, times, base);
    var scalar := resolved.value;
    forall k | 0 <= k < |scalar|
      ensures AllContent(Flat(scalar[k])) <==>
              forall key | S.IsMergedCounter(yaml, plan.frontmatter[k], key) :: NoMarkerInside(key)
      ensures NoDelimiter(Flat(scalar[k])) <==>
              forall key | S.IsMergedCounter(yaml, plan.frontmatter[k], key) :: NoDelimiterInside(key)
    {
      RegionPieces(yaml, lines, plan.frontmatter, times, base, k);
    }
    MergedLines(lines, plan, scalar);
    WrittenLines(path, Merged(lines, plan, scalar));
  }

  /** Exactly the files that are merged: markdown, every frontmatter region with entries on
      both sides, every key decided, and no key twice. The body never stands in the way. */
  lemma OutcomeExactly(yaml: S.Yaml, path: Path, raw: string, plan: Plan, times: S.Times, base: S.Base)
    requires IsPlan(Split(raw), plan)
    ensures var regions := plan.frontmatter;
            Outcome(yaml, path, raw, plan, times, base).Some? <==>
            && (EndsWith(path, ".md") || EndsWith(path, ".MD") || EndsWith(path, ".Md") || EndsWith(path, ".mD"))
            && S.AllParse(yaml, regions) && S.AllDecided(S.AllSides(yaml, regions), times, base)
            && S.KeysApart(S.AllSides(yaml, regions), S.Seed(Split(raw), regions))
  {
    hide S.AllDecided;
    hide S.KeysApart;
    hide S.Accepted;
    hide S.AllParse;
    hide Merged;
    hide IsPlan;
    S.AcceptedExactly(S.AllSides(yaml, plan.frontmatter), times, base, S.Seed(Split(raw), plan.frontmatter));
  }

  lemma NothingLost(yaml: S.Yaml, lines: seq<string>, regions: seq<Region>, times: S.Times, base: S.Base)
    requires S.Resolved(yaml, lines, regions, times, base).Some?
    ensures |S.Resolved(yaml, lines, regions, times, base).value| == |regions|
  {
  }

  // ----------------------------------------------------------- examples

  /** A document whose only conflict has the same line on both sides. */
  function Doc(side: string): seq<string> { ["---", "<<<<<<< a", side, "=======", side, ">>>>>>> b", "---"] }

  function DocPlan(side: string): Plan { Plan(6, [Region(1, [side], [side], 5)], []) }

  lemma DocIsPlanned(side: string)
    requires IsLine(side) && MarkOf(side).Content? && side != "" && side[0] == '"'
    ensures Split(Join(Doc(side))) == Doc(side) && IsPlan(Doc(side), DocPlan(side))
  {
    DocMarks();
    SplitOfJoin(Doc(side), '\n');
    DocCloses(side);
    hide FrontmatterClose;
    hide SplitOn;
    hide JoinWith;
    hide MarkOf;
    OneConflict("---", "<<<<<<< a", side, "=======", ">>>>>>> b");
  }

  lemma OneConflict(fence: string, open: string, side: string, sep: string, close: string)
    requires MarkOf(fence).Content? && MarkOf(side).Content?
    requires MarkOf(open).Opening? && MarkOf(sep).Separator? && MarkOf(close).Closing?
    ensures Regions([fence, open, side, sep, side, close, fence]) == Some([Region(1, [side], [side], 5)] + [])
  {
    hide MarkOf;
    var b := Block([fence], open, [side], sep, [side], close);
    assert Render([b], 0) == [];
    assert Render([b], 1) + [fence] == [fence, open, side, sep, side, close, fence];
    ScanOfRender([b], [fence]);
    assert RegionsOf([b]) == [RegionAt([b], 0)] == [Region(1, [side], [side], 5)] + [];
  }

  lemma DocCloses(side: string)
    requires side != "" && side[0] == '"'
    ensures FrontmatterClose(Doc(side)) == Some(6)
  {
    var lines := Doc(side);
    DashesDelimit();
    DocMarks();
    assert TrimCR(side) != "" ==> TrimCR(side)[0] == '"';
    assert !IsDelimiter(side);
    hide IsDelimiter;
    hide FrontmatterClose;
    assert forall i | 1 <= i < 6 :: lines[i] in {lines[1], lines[2], lines[3], lines[4], lines[5]};
    CloseUnique(lines, 6);
  }

  lemma DocMarks()
    ensures MarkOf("---").Content? && MarkOf("<<<<<<< a").Opening? && MarkOf("=======").Separator?
    ensures MarkOf(">>>>>>> b").Closing?
    ensures !IsDelimiter("<<<<<<< a") && !IsDelimiter("=======") && !IsDelimiter(">>>>>>> b")
  {
    assert "<<<<<<< a"[..7] == "<<<<<<<" && ">>>>>>> b"[..7] == ">>>>>>>";
    assert ">>>>>>> b"[0] == '>' && "---"[0] == '-';
    assert TrimCR("<<<<<<< a") == "<<<<<<< a" && TrimCR("=======") == "=======" && TrimCR(">>>>>>> b") == ">>>>>>> b";
  }

  lemma DocIsMerged(yaml: S.Yaml, side: string, key: string, times: S.Times, base: S.Base)
    requires S.ParseScalarEntry(yaml, side) == Some(S.Entry(key, side, Some(1))) && S.IsCounterKey(key)
    ensures S.Resolved(yaml, Doc(side), DocPlan(side).frontmatter, times, base).Some?
    ensures S.IsMergedCounter(yaml, DocPlan(side).frontmatter[0], key)
  {
    hide S.ParseScalarEntry;
    hide S.IsCounterKey;
    hide Decimal;
    var region, e := DocPlan(side).frontmatter[0], S.Entry(key, side, Some(1));
    assert S.Parsed(yaml, [side]) == [e];
    var s := S.SidesOf(yaml, region);
    assert s == S.Sides([e], [e]);
    assert S.KeysOf([e]) == [key];
    assert S.Without([e], [key]) == S.Without([e][..0], [key]) == [];
    assert S.KeysOf([]) == [];
    assert S.Order(s) == [key] + [] == [key];
    hide S.Order;
    hide S.Parsed;
    hide S.Seed;
    DocHasNoOtherKey(side);
    assert S.AllSides(yaml, [region])[0] == s;
  }

  lemma DocHasNoOtherKey(side: string)
    ensures S.Seed(Doc(side), DocPlan(side).frontmatter) == {}
  {
    var regions := DocPlan(side).frontmatter;
    assert regions[0].start == 1 && regions[0].end == 5;
    hide S.TopLevelKey;
    forall key ensures !S.IsUntouchedKey(Doc(side), regions, key) {
      forall i: nat | 1 <= i < 6 ensures S.Inside(regions, i) {}
    }
  }

  /** The YAML key of this line has a line break before `<<<<<<< x`. */
  const BREAKING := "\"metrics_\\n<<<<<<< x\": 1"
  const BREAKING_KEY := "metrics_\n<<<<<<< x"

  lemma BreakingKey()
    ensures S.IsCounterKey(BREAKING_KEY) && !NoMarkerInside(BREAKING_KEY) && IsQuoted(BREAKING)
  {
    hide SplitOn;
    hide MarkOf;
    var next := "<<<<<<< x";
    assert BREAKING_KEY == "metrics_" + "\n" + next;
    TwoLines("metrics_", next);
    assert MarkOf(next).Opening? by { StartsAsMarker(next); }
    assert Split(BREAKING_KEY)[1..][0] == next;
  }

  lemma StartsAsMarker(line: string)
    requires |line| >= 7 && line[..7] == "<<<<<<<"
    ensures MarkOf(line).Opening?
  {
  }

  lemma TwoLines(a: string, b: string)
    requires IsLine(a) && IsLine(b)
    ensures Split(a + "\n" + b) == [a, b]
  {
    hide SplitOn;
    SplitPiece(a, '\n', b);
    SplitPiece(b, '\n', "");
  }

  /** What the examples need of a side. */
  predicate IsQuoted(side: string) { IsLine(side) && |side| > 8 && side[0] == '"' && side[|side| - 1] == '1' }

  /** A conflict in a counter whose key has a line break: the written file has a marker
      line. */
  lemma CounterKeyBringsMarker(yaml: S.Yaml, times: S.Times, base: S.Base)
    requires yaml(BREAKING) == Some((BREAKING_KEY, Some(1))) && yaml(DELIMITER).None?
    ensures var raw := Join(Doc(BREAKING));
            && IsPlan(Split(raw), DocPlan(BREAKING))
            && var r := Outcome(yaml, "a.md", raw, DocPlan(BREAKING), times, base);
            r.Some? && !AllContent(Split(r.value))
  {
    BreakingKey();
    hide *;
    DocIsBroken(yaml, BREAKING, BREAKING_KEY, times, base);
  }

  /** The YAML key of this line has a line `---` in it. */
  const CLOSING := "\"metrics_\\n---\\nx\": 1"
  const CLOSING_KEY := "metrics_\n---\nx"

  lemma ClosingKey()
    ensures S.IsCounterKey(CLOSING_KEY) && !NoDelimiterInside(CLOSING_KEY) && IsQuoted(CLOSING)
  {
    hide SplitOn;
    var rest := "---" + "\n" + "x";
    assert CLOSING_KEY == "metrics_" + "\n" + rest;
    SplitPiece("metrics_", '\n', rest);
    TwoLines("---", "x");
    DashesDelimit();
    hide IsDelimiter;
    assert Split(CLOSING_KEY)[1] == "---";
  }

  /** ... and here the frontmatter of the written file closes too early. */
  lemma CounterKeyClosesEarly(yaml: S.Yaml, times: S.Times, base: S.Base)
    requires yaml(CLOSING) == Some((CLOSING_KEY, Some(1))) && yaml(DELIMITER).None?
    ensures var raw := Join(Doc(CLOSING));
            && IsPlan(Split(raw), DocPlan(CLOSING))
            && var r := Outcome(yaml, "a.md", raw, DocPlan(CLOSING), times, base);
            var scalar := S.Resolved(yaml, Split(raw), DocPlan(CLOSING).frontmatter, times, base);
            r.Some? && scalar.Some? && |scalar.value| == |DocPlan(CLOSING).frontmatter|
            && FrontmatterClose(Split(r.value)) != Some(WrittenClose(Split(raw), DocPlan(CLOSING), scalar.value))
  {
    ClosingKey();
    hide *;
    DocIsBroken(yaml, CLOSING, CLOSING_KEY, times, base);
  }

  lemma DocIsBroken(yaml: S.Yaml, side: string, key: string, times: S.Times, base: S.Base)
    requires yaml(side) == Some((key, Some(1))) && yaml(DELIMITER).None? && S.IsCounterKey(key)
    requires IsQuoted(side)
    ensures var lines, plan := Doc(side), DocPlan(side);
            && Split(Join(lines)) == lines && IsPlan(lines, plan)
            && var r := Outcome(yaml, "a.md", Join(lines), plan, times, base);
            var scalar := S.Resolved(yaml, lines, plan.frontmatter, times, base);
            r.Some? && scalar.Some? && |scalar.value| == |plan.frontmatter|
            && (!NoMarkerInside(key) ==> !AllContent(Split(r.value)))
            && (!NoDelimiterInside(key) ==>
                  FrontmatterClose(Split(r.value)) != Some(WrittenClose(lines, plan, scalar.value)))
  {
    hide NoMarkerInside;
    hide NoDelimiterInside;
    hide S.Resolved;
    hide IsPlan;
    hide Merged;
    hide AllContent;
    hide FrontmatterClose;
    hide WrittenClose;
    hide S.IsMergedCounter;
    assert TrimCR(side) == side;
    DocIsPlanned(side);
    DocIsMerged(yaml, side, key, times, base);
    assert "a.md"[1..] == ".md";
    MergedFile(yaml, "a.md", Join(Doc(side)), DocPlan(side), times, base);
    var region := DocPlan(side).frontmatter[0];
    assert region in DocPlan(side).frontmatter;
  }
}
