/** Lines, trimming and the frontmatter block: the text primitives that the
    merge resolver and the phase normalizer share. */
module Text {
  import opened GitObjects

  predicate StartsWith(s: string, prefix: string) { prefix <= s }

  predicate EndsWith(s: string, suffix: string) {
    |suffix| <= |s| && s[|s| - |suffix|..] == suffix
  }

  /** The pieces of `s` between occurrences of `sep`; never empty. */
  function SplitOn(s: string, sep: char): (pieces: seq<string>)
    ensures |pieces| > 0
    ensures forall i | 0 <= i < |pieces| :: sep !in pieces[i]
  {
    if s == "" then [""] else
      var rest := SplitOn(s[1..], sep);
      if s[0] == sep then [""] + rest else [[s[0]] + rest[0]] + rest[1..]
  }

  function JoinWith(pieces: seq<string>, sep: string): string {
    if |pieces| == 0 then "" else
    if |pieces| == 1 then pieces[0] else pieces[0] + sep + JoinWith(pieces[1..], sep)
  }

  function Split(s: string): seq<string> { SplitOn(s, '\n') }

  function Join(lines: seq<string>): string { JoinWith(lines, "\n") }

  predicate IsLine(s: string) { '\n' !in s }

  predicate AreLines(lines: seq<string>) { forall i | 0 <= i < |lines| :: IsLine(lines[i]) }

  lemma {:induction false} JoinOfSplit(s: string, sep: char)
    ensures JoinWith(SplitOn(s, sep), [sep]) == s
  {
    if s != "" {
      JoinOfSplit(s[1..], sep);
      var rest := SplitOn(s[1..], sep);
      if s[0] == sep {
        assert ([""] + rest)[1..] == rest;
      } else {
        var pieces := [[s[0]] + rest[0]] + rest[1..];
        assert pieces[1..] == rest[1..];
        if |rest| > 1 {
          assert JoinWith(pieces, [sep]) == [s[0]] + (rest[0] + [sep] + JoinWith(rest[1..], [sep]));
        }
      }
    }
  }

  lemma {:induction false} SplitPiece(piece: string, sep: char, rest: string)
    requires sep !in piece
    ensures SplitOn(piece, sep) == [piece]
    ensures SplitOn(piece + [sep] + rest, sep) == [piece] + SplitOn(rest, sep)
  {
    if piece == "" {
      assert ("" + [sep] + rest)[1..] == rest;
    } else {
      SplitPiece(piece[1..], sep, rest);
      assert (piece + [sep] + rest)[1..] == piece[1..] + [sep] + rest;
      assert piece == [piece[0]] + piece[1..];
    }
  }

  lemma {:induction false} SplitOfJoin(pieces: seq<string>, sep: char)
    requires |pieces| > 0 && forall i | 0 <= i < |pieces| :: sep !in pieces[i]
    ensures SplitOn(JoinWith(pieces, [sep]), sep) == pieces
  {
    if |pieces| == 1 {
      SplitPiece(pieces[0], sep, "");
    } else {
      SplitOfJoin(pieces[1..], sep);
      SplitPiece(pieces[0], sep, JoinWith(pieces[1..], [sep]));
    }
  }

  // ------------------------------------------------------------- trimming

  /** strings.TrimRight(s, "\r") */
  function TrimCR(s: string): (t: string)
    ensures t <= s && (t != "" ==> t[|t| - 1] != '\r')
    ensures forall i | |t| <= i < |s| :: s[i] == '\r'
  {
    if s != "" && s[|s| - 1] == '\r' then TrimCR(s[..|s| - 1]) else s
  }

  /** strings.TrimSuffix(s, "\r") */
  function DropOneCR(s: string): string {
    if EndsWith(s, "\r") then s[..|s| - 1] else s
  }

  predicate IsBlank(c: char) { c == ' ' || c == '\t' }

  /** strings.Trim(s, " \t") */
  function TrimBlanks(s: string): string {
    if s == "" then s else
    if IsBlank(s[0]) then TrimBlanks(s[1..]) else
    if IsBlank(s[|s| - 1]) then TrimBlanks(s[..|s| - 1]) else s
  }

  // ---------------------------------------------------------- frontmatter

  const DELIMITER := "---"

  predicate IsDelimiter(line: string) { TrimCR(line) == DELIMITER }

  /** The first delimiter line at or after `from`. */
  function NextDelimiter(lines: seq<string>, from: nat): (r: Option<nat>)
    ensures r.Some? ==>
              && from <= r.value < |lines| && IsDelimiter(lines[r.value])
              && forall i | from <= i < r.value :: !IsDelimiter(lines[i])
    ensures r.None? ==> forall i | from <= i < |lines| :: !IsDelimiter(lines[i])
    decreases |lines| - from
  {
    if from >= |lines| then None else
    if IsDelimiter(lines[from]) then Some(from) else NextDelimiter(lines, from + 1)
  }

  /** The closing delimiter of a document that opens with one on line 0. */
  function FrontmatterClose(lines: seq<string>): (r: Option<nat>)
    ensures r.Some? <==> (|lines| > 0 && IsDelimiter(lines[0]) && exists i :: 1 <= i < |lines| && IsDelimiter(lines[i]))
    ensures r.Some? ==>
              && 1 <= r.value < |lines| && IsDelimiter(lines[r.value])
              && forall i | 1 <= i < r.value :: !IsDelimiter(lines[i])
  {
    if |lines| == 0 || !IsDelimiter(lines[0]) then None else NextDelimiter(lines, 1)
  }

  predicate HasFrontmatter(content: string) { FrontmatterClose(Split(content)).Some? }

  /** The close index is settled by the delimiter pattern of the lines up to it. */
  lemma CloseUnique(lines: seq<string>, k: nat)
    requires 1 <= k < |lines| && IsDelimiter(lines[0]) && IsDelimiter(lines[k])
    requires forall i | 1 <= i < k :: !IsDelimiter(lines[i])
    ensures FrontmatterClose(lines) == Some(k)
  {
    var r := FrontmatterClose(lines);
    assert r.Some?;
  }

  // -------------------------------------------------------------- numbers

  /** strconv.FormatInt(n, 10) */
  function Decimal(n: int): (s: string)
    ensures s != "" && forall c | c in s :: c == '-' || '0' <= c <= '9'
    decreases n < 0, if n < 0 then -n else n
  {
    if n < 0 then "-" + Decimal(-n) else
    if n < 10 then [('0' as int + n) as char] else Decimal(n / 10) + [('0' as int + n % 10) as char]
  }

  /** The number that a row of digits stands for, read from the left. */
  function ReadFrom(s: string, acc: int): int
    decreases |s|
  {
    if s == "" then acc else ReadFrom(s[1..], 10 * acc + (s[0] as int - '0' as int))
  }

  function ReadNumber(s: string): int {
    if s != "" && s[0] == '-' then -ReadFrom(s[1..], 0) else ReadFrom(s, 0)
  }

  /** Digits without a leading zero. */
  predicate AreDigits(s: string) {
    s != "" && (forall i | 0 <= i < |s| :: '0' <= s[i] <= '9') && (s[0] == '0' ==> s == "0")
  }

  /** The usual way to write an integer. */
  predicate IsNumeral(s: string) {
    AreDigits(s) || (|s| > 1 && s[0] == '-' && s[1] != '0' && AreDigits(s[1..]))
  }

  lemma {:induction false} ReadOneMore(s: string, c: char, acc: int)
    ensures ReadFrom(s + [c], acc) == 10 * ReadFrom(s, acc) + (c as int - '0' as int)
    decreases |s|
  {
    if s == "" {
      assert ("" + [c])[1..] == "";
    } else {
      assert (s + [c])[1..] == s[1..] + [c];
      ReadOneMore(s[1..], c, 10 * acc + (s[0] as int - '0' as int));
    }
  }

  lemma {:induction false} ReadOfDigits(n: nat)
    ensures AreDigits(Decimal(n)) && ReadFrom(Decimal(n), 0) == n && (Decimal(n)[0] == '0' ==> n == 0)
    decreases n
  {
    if n < 10 {
      assert Decimal(n)[1..] == "";
    } else {
      ReadOfDigits(n / 10);
      ReadOneMore(Decimal(n / 10), ('0' as int + n % 10) as char, 0);
    }
  }

  /** What is printed is a numeral, and reads as the number. */
  lemma ReadOfDecimal(n: int)
    ensures IsNumeral(Decimal(n)) && ReadNumber(Decimal(n)) == n
  {
    if n < 0 {
      ReadOfDigits(-n);
      assert Decimal(n)[1..] == Decimal(-n);
    } else {
      ReadOfDigits(n);
    }
  }
}
