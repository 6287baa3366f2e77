/** The phase alias of a task file: `phase: in_progress` in the frontmatter is
    rewritten to `phase: execution` on every write. */
module TaskPhase {
  import opened GitObjects
  import opened Text

  const ALIAS := "in_progress"
  const CANONICAL := "execution"
  const KEY := "phase:"

  /** The name of the directory a file sits in, as filepath.Base(filepath.Dir(p))
      gives it for a path without `..` components. */
  function ParentName(path: Path): string {
    var parts := SplitOn(path, '/');
    LastNamed(parts[..|parts| - 1])
  }

  function LastNamed(parts: seq<string>): string {
    if |parts| == 0 then "." else
    var last := parts[|parts| - 1];
    if last == "" || last == "." then LastNamed(parts[..|parts| - 1]) else last
  }

  predicate IsTaskFile(path: Path) {
    ParentName(path) == "25 Tasks" || ParentName(path) == "tasks"
  }

  function TrimOneQuotePair(value: string): string {
    if |value| >= 2
       && ((value[0] == '"' && value[|value| - 1] == '"') || (value[0] == '\'' && value[|value| - 1] == '\''))
    then value[1..|value| - 1]
    else value
  }

  /** A top-level line of the form `phase: in_progress`, quoted or not. */
  predicate IsAlias(line: string) {
    var text := DropOneCR(line);
    && text != "" && !IsBlank(text[0]) && StartsWith(text, KEY)
    && TrimOneQuotePair(TrimBlanks(text[|KEY|..])) == ALIAS
  }

  function Rewritten(line: string): string {
    "phase: " + CANONICAL + (if EndsWith(line, "\r") then "\r" else "")
  }

  /** The first alias line in lines[from..to]. */
  function FirstAlias(lines: seq<string>, from: nat, end: nat): (r: Option<nat>)
    requires end <= |lines|
    ensures r.Some? ==>
              && from <= r.value < end && IsAlias(lines[r.value])
              && forall i | from <= i < r.value :: !IsAlias(lines[i])
    ensures r.None? ==> forall i | from <= i < end :: !IsAlias(lines[i])
    decreases end - from
  {
    if from >= end then None else
    if IsAlias(lines[from]) then Some(from) else FirstAlias(lines, from + 1, end)
  }

  function NormalizedLines(lines: seq<string>): seq<string> {
    var close := FrontmatterClose(lines);
    if close.None? then lines else
    var i := FirstAlias(lines, 1, close.value);
    if i.None? then lines else lines[i.value := Rewritten(lines[i.value])]
  }

  function Normalized(path: Path, content: Bytes): Bytes {
    if IsTaskFile(path) then Join(NormalizedLines(Split(content))) else content
  }

  method NormalizeTaskPhase(path: Path, content: Bytes) returns (r: Bytes)
    ensures r == Normalized(path, content)
  {
    JoinOfSplit(content, '\n');
    if !IsTaskFile(path) || !HasFrontmatter(content) { return content; }
    var parts := Split(content);
    var lines := new string[|parts|](i requires 0 <= i < |parts| => parts[i]);
    assert lines[..] == parts;
    RewriteFirstAlias(lines);
    return Join(lines[..]);
  }

  /** The in-place part: find the closing delimiter, then the first alias line. */
  method RewriteFirstAlias(lines: array<string>)
    requires FrontmatterClose(lines[..]).Some?
    modifies lines
    ensures lines[..] == NormalizedLines(old(lines[..]))
  {
    ghost var parts := lines[..];
    ghost var close := FrontmatterClose(parts).value;
    var closing := 1;
    while !IsDelimiter(lines[closing])
      invariant 1 <= closing <= close && lines[..] == parts
      decreases close - closing
    {
      closing := closing + 1;
    }
    assert closing == close by { assert IsDelimiter(parts[closing]); }
    var i := 1;
    while i < closing
      invariant 1 <= i <= closing && lines[..] == parts
      invariant FirstAlias(parts, 1, close) == FirstAlias(parts, i, close)
    {
      if IsAlias(lines[i]) {
        lines[i] := Rewritten(lines[i]);
        return;
      }
      i := i + 1;
    }
  }

  // -------------------------------------------------------------- results

  lemma RewrittenIsPlain(line: string)
    ensures !IsAlias(Rewritten(line)) && !IsDelimiter(Rewritten(line))
    ensures IsLine(Rewritten(line))
    ensures EndsWith(Rewritten(line), "\r") <==> EndsWith(line, "\r")
  {
    var r := Rewritten(line);
    assert r[0] == 'p' && r[|"phase: execution"| - 1] == 'n';
    assert DropOneCR(r) == "phase: execution";
    var v := "phase: execution"[|KEY|..];
    assert v == " execution";
    assert v[1..] == "execution";
    assert TrimBlanks(v) == TrimBlanks(v[1..]) == "execution";
    assert TrimCR(r) != "" ==> TrimCR(r)[0] == 'p';
  }

  /** Only one line can change, and only inside the frontmatter: the number of
      lines, both delimiters, the body and the line ending of the rewritten line
      survive. */
  lemma NormalizationIsLocal(lines: seq<string>)
    ensures var r := NormalizedLines(lines);
            && |r| == |lines|
            && FrontmatterClose(r) == FrontmatterClose(lines)
            && (r == lines || exists i :: 1 <= i < |lines|
                                          && FrontmatterClose(lines).Some? && i < FrontmatterClose(lines).value
                                          && IsAlias(lines[i]) && r == lines[i := r[i]]
                                          && (EndsWith(r[i], "\r") <==> EndsWith(lines[i], "\r")))
  {
    var close := FrontmatterClose(lines);
    if close.Some? {
      var i := FirstAlias(lines, 1, close.value);
      if i.Some? {
        RewrittenIsPlain(lines[i.value]);
        var r := NormalizedLines(lines);
        CloseUnique(r, close.value);
      }
    }
  }

  /** How many alias lines the frontmatter holds. */
  function AliasCount(lines: seq<string>): nat {
    var close := FrontmatterClose(lines);
    if close.None? then 0 else CountAliases(lines, close.value)
  }

  function CountAliases(lines: seq<string>, end: nat): nat
    requires end <= |lines|
  {
    if end <= 1 then 0 else CountAliases(lines, end - 1) + (if IsAlias(lines[end - 1]) then 1 else 0)
  }

  lemma {:induction false} CountOfUpdate(lines: seq<string>, i: nat, line: string, end: nat)
    requires 1 <= i < |lines| && end <= |lines| && IsAlias(lines[i]) && !IsAlias(line)
    ensures CountAliases(lines[i := line], end) == CountAliases(lines, end) - (if i < end then 1 else 0)
    decreases end
  {
    if end > 1 { CountOfUpdate(lines, i, line, end - 1); }
  }

  lemma {:induction false} NoneMeansZero(lines: seq<string>, end: nat)
    requires end <= |lines| && forall i | 1 <= i < end :: !IsAlias(lines[i])
    ensures CountAliases(lines, end) == 0
    decreases end
  {
    if end > 1 { NoneMeansZero(lines, end - 1); }
  }

  /** Each application removes exactly one alias line while there is one, and is
      the identity exactly when there is none. */
  lemma NormalizationCountsDown(lines: seq<string>)
    ensures AliasCount(NormalizedLines(lines)) == (if AliasCount(lines) == 0 then 0 else AliasCount(lines) - 1)
    ensures NormalizedLines(lines) == lines <==> AliasCount(lines) == 0
  {
    NormalizationIsLocal(lines);
    var close := FrontmatterClose(lines);
    if close.Some? {
      var i := FirstAlias(lines, 1, close.value);
      if i.Some? {
        RewrittenIsPlain(lines[i.value]);
        CountOfUpdate(lines, i.value, Rewritten(lines[i.value]), close.value);
      } else {
        NoneMeansZero(lines, close.value);
      }
    }
  }

  function Normalize2(lines: seq<string>): seq<string> { NormalizedLines(NormalizedLines(lines)) }

  /** Applying the rewrite a second time changes nothing exactly when the file
      has at most one alias line. */
  lemma IdempotentIffAtMostOneAlias(lines: seq<string>)
    ensures Normalize2(lines) == NormalizedLines(lines) <==> AliasCount(lines) <= 1
  {
    NormalizationCountsDown(lines);
    NormalizationCountsDown(NormalizedLines(lines));
  }

  /** Two alias lines show that the rewrite is not idempotent in general. */
  lemma TwoAliasesNeedTwoPasses()
    ensures var lines := ["---", "phase: in_progress", "phase: 'in_progress'", "---"];
            Normalize2(lines) != NormalizedLines(lines)
  {
    var lines := ["---", "phase: in_progress", "phase: 'in_progress'", "---"];
    CloseUnique(lines, 3) by { DashesDelimit(); NotDelimiters(); }
    AliasShapes();
    assert CountAliases(lines, 1) == 0;
    assert CountAliases(lines, 2) == 1;
    assert CountAliases(lines, 3) == 2;
    IdempotentIffAtMostOneAlias(lines);
  }

  lemma DashesDelimit() ensures IsDelimiter("---") { assert TrimCR("---") == "---"; }

  lemma NotDelimiters()
    ensures !IsDelimiter("phase: in_progress") && !IsDelimiter("phase: 'in_progress'")
  {
    assert "phase: in_progress"[0] != '-' && "phase: 'in_progress'"[0] != '-';
  }

  lemma AliasShapes()
    ensures IsAlias("phase: in_progress") && IsAlias("phase: 'in_progress'")
  {
    TrimOneBlank("in_progress");
    TrimOneBlank("'in_progress'");
    assert "phase: in_progress"[|KEY|..] == " " + "in_progress";
    assert "phase: 'in_progress'"[|KEY|..] == " " + "'in_progress'";
    assert "'in_progress'" == "'" + "in_progress" + "'";
    assert "'in_progress'"[1..|"'in_progress'"| - 1] == "in_progress";
  }

  lemma TrimOneBlank(value: string)
    requires value != "" && !IsBlank(value[0]) && !IsBlank(value[|value| - 1])
    ensures TrimBlanks(" " + value) == value
  {
    assert (" " + value)[1..] == value;
  }

  /** The same law for file contents: what is stored is stable under another
      write of it unless the frontmatter carried two aliases. */
  lemma NormalizedContentLines(path: Path, content: Bytes)
    requires IsTaskFile(path)
    ensures Split(Normalized(path, content)) == NormalizedLines(Split(content))
  {
    var lines := Split(content);
    NormalizationIsLocal(lines);
    var r := NormalizedLines(lines);
    var close := FrontmatterClose(lines);
    if r != lines { RewrittenIsPlain(lines[FirstAlias(lines, 1, close.value).value]); }
    assert forall i | 0 <= i < |r| :: '\n' !in r[i];
    SplitOfJoin(r, '\n');
  }

  lemma NormalizedKeepsFrontmatter(path: Path, content: Bytes)
    ensures HasFrontmatter(Normalized(path, content)) <==> HasFrontmatter(content)
  {
    if IsTaskFile(path) {
      NormalizedContentLines(path, content);
      NormalizationIsLocal(Split(content));
    }
  }

  // ------------------------------------------------- what an alias line is

  predicate AreBlanks(s: string) { forall i | 0 <= i < |s| :: IsBlank(s[i]) }

  predicate HasBareEnds(s: string) { s != "" && !IsBlank(s[0]) && !IsBlank(s[|s| - 1]) }

  lemma {:induction false} TrimBlanksSplits(s: string) returns (a: string, b: string)
    ensures AreBlanks(a) && AreBlanks(b) && s == a + TrimBlanks(s) + b
    ensures TrimBlanks(s) == "" || HasBareEnds(TrimBlanks(s))
    decreases |s|
  {
    a, b := "", "";
    if s != "" && IsBlank(s[0]) {
      a, b := TrimBlanksSplits(s[1..]);
      a := [s[0]] + a;
    } else if s != "" && IsBlank(s[|s| - 1]) {
      a, b := TrimBlanksSplits(s[..|s| - 1]);
      assert s == s[..|s| - 1] + [s[|s| - 1]];
      b := b + [s[|s| - 1]];
    }
  }

  lemma {:induction false} TrimBlanksOf(a: string, t: string, b: string)
    requires AreBlanks(a) && AreBlanks(b) && HasBareEnds(t)
    ensures TrimBlanks(a + t + b) == t
    decreases |a| + |b|
  {
    var s := a + t + b;
    if a != "" {
      TrimBlanksOf(a[1..], t, b);
      assert s[1..] == a[1..] + t + b;
    } else if b != "" {
      TrimBlanksOf(a, t, b[..|b| - 1]);
      assert s[..|s| - 1] == a + t + b[..|b| - 1];
      assert s[0] == t[0];
    } else {
      assert s == t;
    }
  }

  /** `phase:`, blanks, the alias bare or in one pair of quotes, blanks, and possibly a
      carriage return. */
  ghost predicate IsAliasText(line: string, a: string, q: string, b: string, cr: string) {
    && AreBlanks(a) && AreBlanks(b) && q in {"", "'", "\""} && cr in {"", "\r"}
    && line == KEY + a + (q + ALIAS + q) + b + cr
  }

  lemma QuotedAlias(v: string)
    ensures TrimOneQuotePair(v) == ALIAS <==> exists q :: q in {"", "'", "\""} && v == q + ALIAS + q
    ensures TrimOneQuotePair(v) == ALIAS ==> HasBareEnds(v) && v[|v| - 1] != '\r'
  {
    assert "" + ALIAS + "" == ALIAS;
    if TrimOneQuotePair(v) == ALIAS && v != ALIAS {
      var q := [v[0]];
      assert v == q + v[1..|v| - 1] + q;
      assert q in {"", "'", "\""} && v == q + ALIAS + q;
    }
    if q :| q in {"", "'", "\""} && v == q + ALIAS + q && q != "" { InQuotes(v, q[0]); }
  }

  lemma InQuotes(v: string, c: char)
    requires c in {'\'', '"'} && v == [c] + ALIAS + [c]
    ensures TrimOneQuotePair(v) == ALIAS
  {
    assert v[0] == c == v[|v| - 1] && v[1..|v| - 1] == ALIAS;
  }

  /** Exactly the lines that are rewritten. */
  lemma AliasExactly(line: string)
    ensures IsAlias(line) <==> exists a, q, b, cr :: IsAliasText(line, a, q, b, cr)
  {
    hide TrimOneQuotePair;
    hide TrimBlanks;
    if IsAlias(line) {
      var text := DropOneCR(line);
      var v := TrimBlanks(text[|KEY|..]);
      var a, b := TrimBlanksSplits(text[|KEY|..]);
      QuotedAlias(v);
      var q :| q in {"", "'", "\""} && v == q + ALIAS + q;
      var cr := line[|text|..];
      assert cr in {"", "\r"} && line == text + cr;
      assert text == KEY + text[|KEY|..];
      assert line == KEY + a + (q + ALIAS + q) + b + cr;
      assert IsAliasText(line, a, q, b, cr);
    }
    if a, q, b, cr :| IsAliasText(line, a, q, b, cr) {
      AliasTextIsAlias(line, a, q, b, cr);
    }
  }

  lemma AliasTextIsAlias(line: string, a: string, q: string, b: string, cr: string)
    requires IsAliasText(line, a, q, b, cr)
    ensures IsAlias(line)
  {
    var v := q + ALIAS + q;
    QuotedAlias(v);
    assert TrimOneQuotePair(v) == ALIAS;
    KeyedText(KEY, a, v, b);
    TrimBlanksOf(a, v, b);
    EndsInText(line, KEY + a + v + b, cr);
    assert KEY[0] == 'p';
  }

  lemma KeyedText(key: string, a: string, v: string, b: string)
    requires key != "" && AreBlanks(b) && HasBareEnds(v) && v[|v| - 1] != '\r'
    ensures var text := key + a + v + b;
            && text[|key|..] == a + v + b && StartsWith(text, key) && text[0] == key[0]
            && text[|text| - 1] != '\r'
  {
    var text := key + a + v + b;
    assert text[|text| - 1] == if b == "" then v[|v| - 1] else b[|b| - 1];
    assert text[|key|..] == a + v + b && text[..|key|] == key;
  }

  lemma EndsInText(line: string, text: string, cr: string)
    requires line == text + cr && cr in {"", "\r"} && text != "" && text[|text| - 1] != '\r'
    ensures DropOneCR(line) == text
  {
    if cr == "" {
      assert line == text && !EndsWith(text, "\r");
    } else {
      assert line[|line| - 1..] == "\r" && line[..|line| - 1] == text;
    }
  }

  /** What becomes of a document: its first alias line reads `phase: execution`. */
  lemma RewritesFirstAlias(lines: seq<string>, i: nat)
    requires FrontmatterClose(lines).Some? && 1 <= i < FrontmatterClose(lines).value && IsAlias(lines[i])
    requires forall j | 1 <= j < i :: !IsAlias(lines[j])
    ensures NormalizedLines(lines) ==
            lines[i := "phase: execution" + if EndsWith(lines[i], "\r") then "\r" else ""]
  {
    RewrittenText(lines[i]);
    hide IsAlias;
    hide IsDelimiter;
    hide Rewritten;
    hide FrontmatterClose;
    var first := FirstAlias(lines, 1, FrontmatterClose(lines).value);
    assert first == Some(i);
  }

  lemma RewrittenText(line: string)
    ensures Rewritten(line) == "phase: execution" + if EndsWith(line, "\r") then "\r" else ""
  {
    assert "phase: " + CANONICAL == "phase: execution";
  }

  /** One document, before and after. */
  lemma TaskDocument()
    ensures Normalized("tasks/a.md", "---\nphase: in_progress\n---\n") == "---\nphase: execution\n---\n"
  {
    var lines := ["---", "phase: in_progress", "---", ""];
    InTasks();
    DocumentText("phase: in_progress");
    DocumentText("phase: execution");
    DocumentLines();
    hide IsTaskFile;
    hide SplitOn;
    hide JoinWith;
    hide NormalizedLines;
    var before, after := "---\nphase: in_progress\n---\n", "---\nphase: execution\n---\n";
    assert before == "---\n" + "phase: in_progress" + "\n---\n" == Join(lines);
    assert after == "---\n" + "phase: execution" + "\n---\n";
    assert lines[1 := "phase: execution"] == ["---", "phase: execution", "---", ""];
    assert Normalized("tasks/a.md", before) == Join(NormalizedLines(Split(Join(lines))));
  }

  lemma InTasks()
    ensures IsTaskFile("tasks/a.md") && IsTaskFile("25 Tasks/a.md")
  {
    hide SplitOn;
    SplitPiece("tasks", '/', "a.md");
    SplitPiece("a.md", '/', "");
    assert "tasks/a.md" == "tasks" + ['/'] + "a.md";
    assert SplitOn("tasks/a.md", '/') == ["tasks", "a.md"];
    assert ["tasks", "a.md"][..1] == ["tasks"];
    SplitPiece("25 Tasks", '/', "a.md");
    assert "25 Tasks/a.md" == "25 Tasks" + ['/'] + "a.md";
    assert SplitOn("25 Tasks/a.md", '/') == ["25 Tasks", "a.md"];
    assert ["25 Tasks", "a.md"][..1] == ["25 Tasks"];
  }

  lemma DocumentLines()
    ensures var lines := ["---", "phase: in_progress", "---", ""];
            Split(Join(lines)) == lines && NormalizedLines(lines) == lines[1 := "phase: execution"]
  {
    var lines := ["---", "phase: in_progress", "---", ""];
    DashesDelimit();
    NotDelimiters();
    AliasShapes();
    hide IsAlias;
    hide IsDelimiter;
    CloseUnique(lines, 2);
    SplitOfJoin(lines, '\n');
    hide SplitOn;
    hide JoinWith;
    RewritesFirstAlias(lines, 1);
    assert !EndsWith("phase: in_progress", "\r") && "phase: execution" + "" == "phase: execution";
  }

  lemma DocumentText(line: string)
    ensures Join(["---", line, "---", ""]) == "---\n" + line + "\n---\n"
  {
    assert ["---", line, "---", ""][1..] == [line, "---", ""];
    assert [line, "---", ""][1..] == ["---", ""];
    assert ["---", ""][1..] == [""];
    assert Join(["---", ""]) == "---\n";
    assert Join([line, "---", ""]) == line + "\n" + "---\n";
  }
}
