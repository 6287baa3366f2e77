/** Merging conflicted frontmatter regions whose sides are plain `key: value` lines:
    the larger counter, otherwise the newer side, never a deleted or a duplicate key. */
module ScalarMerge {
  import opened GitObjects
  import opened Text
  import opened MarkerScanner

  /** The YAML library, as far as it is consulted for one line: the key if the line is
      a single mapping of a plain string key to a scalar, and the value if it is an
      integer that fits 64 bits. */
  type Yaml = string -> Option<(string, Option<int>)>

  datatype Entry = Entry(key: string, line: string, number: Option<int>)

  predicate IsListOrComment(s: string) { s == "-" || StartsWith(s, "- ") || StartsWith(s, "#") }

  function ParseScalarEntry(yaml: Yaml, line: string): Option<Entry> {
    var s := TrimCR(line);
    if s == "" || IsBlank(s[0]) || IsListOrComment(s) || yaml(s).None? || yaml(s).value.0 == "" then None
    else Some(Entry(yaml(s).value.0, s, yaml(s).value.1))
  }

  // ---------------------------------------------------------------- sides

  predicate DistinctKeys(es: seq<Entry>) { forall i, j | 0 <= i < j < |es| :: es[i].key != es[j].key }

  /** Every line is an entry, no key comes twice. */
  predicate Parses(yaml: Yaml, lines: seq<string>) {
    && (forall i | 0 <= i < |lines| :: ParseScalarEntry(yaml, lines[i]).Some?)
    && DistinctKeys(Parsed(yaml, lines))
  }

  function Parsed(yaml: Yaml, lines: seq<string>): seq<Entry> {
    seq(|lines|, i requires 0 <= i < |lines| =>
      var e := ParseScalarEntry(yaml, lines[i]);
      if e.Some? then e.value else Entry("", "", None))
  }

  method ParseScalarLines(yaml: Yaml, lines: seq<string>) returns (r: Option<seq<Entry>>)
    ensures r == if Parses(yaml, lines) then Some(Parsed(yaml, lines)) else None
  {
    var es: seq<Entry> := [];
    var seen: set<string> := {};
    for i := 0 to |lines|
      invariant forall k | 0 <= k < i :: ParseScalarEntry(yaml, lines[k]).Some?
      invariant es == Parsed(yaml, lines)[..i] && DistinctKeys(es)
      invariant seen == set e | e in es :: e.key
    {
      var e := ParseScalarEntry(yaml, lines[i]);
      if e.None? { return None; }
      assert Parsed(yaml, lines)[i] == e.value;
      if e.value.key in seen {
        var k :| 0 <= k < i && es[k].key == e.value.key;
        assert Parsed(yaml, lines)[k].key == Parsed(yaml, lines)[i].key;
        return None;
      }
      seen := seen + {e.value.key};
      es := es + [e.value];
    }
    assert Parsed(yaml, lines)[..|lines|] == Parsed(yaml, lines);
    return Some(es);
  }

  datatype Sides = Sides(ours: seq<Entry>, theirs: seq<Entry>)

  predicate AreSides(s: Sides) { DistinctKeys(s.ours) && DistinctKeys(s.theirs) }

  predicate SidesParse(yaml: Yaml, r: Region) {
    Parses(yaml, r.ours) && Parses(yaml, r.theirs) && |r.ours| > 0 && |r.theirs| > 0
  }

  function SidesOf(yaml: Yaml, r: Region): Sides { Sides(Parsed(yaml, r.ours), Parsed(yaml, r.theirs)) }

  method ParseScalarSide(yaml: Yaml, r: Region) returns (s: Option<Sides>)
    ensures s == if SidesParse(yaml, r) then Some(SidesOf(yaml, r)) else None
  {
    var ours := ParseScalarLines(yaml, r.ours);
    if ours.None? { return None; }
    var theirs := ParseScalarLines(yaml, r.theirs);
    if theirs.None? { return None; }
    if |ours.value| == 0 || |theirs.value| == 0 { return None; }
    return Some(Sides(ours.value, theirs.value));
  }

  // -------------------------------------------------------------- one key

  predicate IsCounterKey(key: string) { key == "trigger_count" || key == "retry_count" || StartsWith(key, "metrics_") }

  function Max(a: int, b: int): int { if b > a then b else a }

  /** The committer times of our and of their side, if they can be read. */
  type Times = Option<(int, int)>

  function ResolveScalarEntry(ours: Entry, theirs: Entry, times: Times): Option<string> {
    if IsCounterKey(ours.key) && ours.number.Some? && theirs.number.Some? then
      Some(ours.key + ": " + Decimal(Max(ours.number.value, theirs.number.value)))
    else if times.None? then None
    else Some(if times.value.1 > times.value.0 then theirs.line else ours.line)
  }

  /** The keys of the merge base, if it can be read. */
  type Base = Option<set<string>>

  predicate OneSidedKeyIsAdd(base: Base, key: string) { base.Some? && key !in base.value }

  function Find(es: seq<Entry>, key: string): (r: Option<Entry>)
    ensures r.Some? ==> r.value in es && r.value.key == key
    ensures r.None? ==> forall e | e in es :: e.key != key
  {
    if |es| == 0 then None else if es[0].key == key then Some(es[0]) else Find(es[1..], key)
  }

  /** The line for a key of the region, if it can be decided. */
  function Choice(s: Sides, key: string, times: Times, base: Base): Option<string> {
    match (Find(s.ours, key), Find(s.theirs, key))
    case (Some(o), Some(t)) => ResolveScalarEntry(o, t, times)
    case (Some(o), None) => if OneSidedKeyIsAdd(base, key) then Some(o.line) else None
    case (None, Some(t)) => if OneSidedKeyIsAdd(base, key) then Some(t.line) else None
    case (None, None) => None
  }

  // ----------------------------------------------------------- one region

  function KeysOf(es: seq<Entry>): seq<string> { seq(|es|, i requires 0 <= i < |es| => es[i].key) }

  function Without(es: seq<Entry>, keys: seq<string>): seq<Entry> {
    if |es| == 0 then [] else
    if es[|es| - 1].key in keys then Without(es[..|es| - 1], keys) else Without(es[..|es| - 1], keys) + [es[|es| - 1]]
  }

  /** The keys of our side in order, then those only their side has, in order. */
  function Order(s: Sides): seq<string> { KeysOf(s.ours) + KeysOf(Without(s.theirs, KeysOf(s.ours))) }

  function Choices(s: Sides, keys: seq<string>, times: Times, base: Base): (lines: seq<string>)
    ensures |lines| == |keys|
  {
    seq(|keys|, i requires 0 <= i < |keys| =>
      var c := Choice(s, keys[i], times, base);
      if c.Some? then c.value else "")
  }

  predicate Decided(s: Sides, keys: seq<string>, times: Times, base: Base, emitted: set<string>) {
    forall k | k in keys :: Choice(s, k, times, base).Some? && k !in emitted
  }

  class EmittedKeys {
    var keys: set<string>

    constructor (keys: set<string>)
      ensures this.keys == keys
    {
      this.keys := keys;
    }

    method Record(key: string) returns (ok: bool)
      modifies this
      ensures ok <==> key !in old(keys)
      ensures keys == old(keys) + {key}
    {
      ok := key !in keys;
      keys := keys + {key};
    }
  }

  function ToSet(keys: seq<string>): set<string> { set k | k in keys }

  lemma {:induction false} FindHere(es: seq<Entry>, i: nat)
    requires DistinctKeys(es) && i < |es|
    ensures Find(es, es[i].key) == Some(es[i])
  {
    if es[0].key != es[i].key { FindHere(es[1..], i - 1); }
  }

  lemma {:induction false} WithoutExactly(es: seq<Entry>, keys: seq<string>)
    requires DistinctKeys(es)
    ensures DistinctKeys(Without(es, keys))
    ensures forall e :: e in Without(es, keys) <==> e in es && e.key !in keys
  {
    if |es| > 0 {
      WithoutExactly(es[..|es| - 1], keys);
      assert es == es[..|es| - 1] + [es[|es| - 1]];
    }
  }

  lemma {:induction false} WithoutPrefix(es: seq<Entry>, keys: seq<string>, i: nat)
    requires i <= |es|
    ensures Without(es[..i], keys) <= Without(es, keys)
    decreases |es|
  {
    var n := |es| - 1;
    if i <= n {
      WithoutPrefix(es[..n], keys, i);
      assert es[..n][..i] == es[..i];
    } else {
      assert es[..i] == es;
    }
  }

  predicate Distinct(keys: seq<string>) { forall i, j | 0 <= i < j < |keys| :: keys[i] != keys[j] }

  lemma OrderIsDistinct(s: Sides)
    requires AreSides(s)
    ensures Distinct(Order(s))
    ensures forall k :: k in Order(s) <==> Find(s.ours, k).Some? || Find(s.theirs, k).Some?
  {
    var ours, rest := KeysOf(s.ours), Without(s.theirs, KeysOf(s.ours));
    WithoutExactly(s.theirs, ours);
    assert forall k :: k in ours <==> Find(s.ours, k).Some? by {
      forall k ensures k in ours <==> Find(s.ours, k).Some? { KeyFound(s.ours, k); }
    }
    forall k ensures k in KeysOf(rest) <==> Find(s.theirs, k).Some? && k !in ours {
      KeyFound(rest, k);
      if k in KeysOf(rest) {
        var i :| 0 <= i < |rest| && rest[i].key == k;
        assert rest[i] in rest;
      }
      if Find(s.theirs, k).Some? && k !in ours { assert Find(s.theirs, k).value in rest; }
    }
    forall i, j | 0 <= i < j < |Order(s)| ensures Order(s)[i] != Order(s)[j] {
      if i < |ours| <= j { assert Order(s)[j] in KeysOf(rest) && Order(s)[i] in ours; }
    }
  }

  lemma KeyFound(es: seq<Entry>, k: string)
    ensures k in KeysOf(es) <==> Find(es, k).Some?
  {
    if k in KeysOf(es) {
      var i :| 0 <= i < |es| && KeysOf(es)[i] == k;
      assert es[i] in es;
    }
    if Find(es, k).Some? {
      var i :| 0 <= i < |es| && es[i] == Find(es, k).value;
      assert KeysOf(es)[i] == k;
    }
  }

  lemma OneMoreKey(s: Sides, order: seq<string>, n: nat, times: Times, base: Base,
                   emitted0: set<string>, emitted: set<string>, resolved: seq<string>)
    requires Distinct(order) && n < |order| && Progress(s, order, n, times, base, emitted0, emitted, resolved)
    ensures order[n] in emitted <==> order[n] in emitted0
    ensures var c := Choice(s, order[n], times, base);
            if c.Some? && order[n] !in emitted
            then Progress(s, order, n + 1, times, base, emitted0, emitted + {order[n]}, resolved + [c.value])
            else !Decided(s, order, times, base, emitted0)
  {
    hide Choice;
    assert order[..n + 1] == order[..n] + [order[n]];
    assert order[n] in order;
  }

  /** Resolve one region. It is accepted exactly if every key can be decided and none
      has been emitted before; then there is one line for each key, in order. */
  method ResolveScalarRegion(s: Sides, times: Times, base: Base, emitted: EmittedKeys) returns (r: Option<seq<string>>)
    requires AreSides(s)
    modifies emitted
    ensures r == if Decided(s, Order(s), times, base, old(emitted.keys))
                 then Some(Choices(s, Order(s), times, base)) else None
    ensures r.Some? ==> emitted.keys == old(emitted.keys) + ToSet(Order(s))
  {
    hide Order;
    hide Without;
    hide Decided;
    hide Choices;
    hide ToSet;
    var resolved: seq<string> := [];
    ghost var emitted0, order := emitted.keys, Order(s);
    var ours := KeysOf(s.ours);
    OrderShape(s);
    OrderIsDistinct(s);
    NothingYet(s, order, times, base, emitted0);
    for i := 0 to |s.ours|
      invariant Progress(s, order, i, times, base, emitted0, emitted.keys, resolved)
    {
      var e := s.ours[i];
      FindHere(s.ours, i);
      OneMoreKey(s, order, i, times, base, emitted0, emitted.keys, resolved);
      var t := Find(s.theirs, e.key);
      if t.Some? {
        var line := ResolveScalarEntry(e, t.value, times);
        if line.None? { return None; }
        var ok := emitted.Record(e.key);
        if !ok { return None; }
        resolved := resolved + [line.value];
      } else {
        if !OneSidedKeyIsAdd(base, e.key) { return None; }
        var ok := emitted.Record(e.key);
        if !ok { return None; }
        resolved := resolved + [e.line];
      }
    }
    ghost var n := |s.ours|;
    for i := 0 to |s.theirs|
      invariant n == |s.ours| + |Without(s.theirs[..i], ours)| <= |order|
      invariant Progress(s, order, n, times, base, emitted0, emitted.keys, resolved)
    {
      var e := s.theirs[i];
      OneMoreWithout(s.theirs, ours, i);
      KeyFound(s.ours, e.key);
      if e.key in ours { continue; }
      FindHere(s.theirs, i);
      OrderOfTheirs(s, n);
      OneMoreKey(s, order, n, times, base, emitted0, emitted.keys, resolved);
      if !OneSidedKeyIsAdd(base, e.key) { return None; }
      var ok := emitted.Record(e.key);
      if !ok { return None; }
      resolved := resolved + [e.line];
      n := n + 1;
    }
    assert s.theirs[..|s.theirs|] == s.theirs;
    assert order[..n] == order;
    return Some(resolved);
  }

  lemma NothingYet(s: Sides, order: seq<string>, times: Times, base: Base, emitted0: set<string>)
    ensures Progress(s, order, 0, times, base, emitted0, emitted0, [])
  {
  }

  lemma OrderShape(s: Sides)
    ensures |Order(s)| == |s.ours| + |Without(s.theirs, KeysOf(s.ours))| && |Without([], KeysOf(s.ours))| == 0
    ensures forall i | 0 <= i < |s.ours| :: Order(s)[i] == s.ours[i].key
  {
  }

  lemma OrderOfTheirs(s: Sides, n: nat)
    requires |s.ours| <= n < |Order(s)|
    ensures Order(s)[n] == Without(s.theirs, KeysOf(s.ours))[n - |s.ours|].key
  {
  }

  lemma OneMoreWithout(es: seq<Entry>, keys: seq<string>, i: nat)
    requires i < |es|
    ensures var w, w' := Without(es[..i], keys), Without(es[..i + 1], keys);
            w' == (if es[i].key in keys then w else w + [es[i]]) && w' <= Without(es, keys)
  {
    assert es[..i + 1][..i] == es[..i];
    WithoutPrefix(es, keys, i + 1);
  }

  /** The first `n` keys of the order are decided and recorded. */
  ghost predicate Progress(s: Sides, order: seq<string>, n: nat, times: Times, base: Base,
                           emitted0: set<string>, emitted: set<string>, resolved: seq<string>)
  {
    && n <= |order| && Decided(s, order[..n], times, base, emitted0)
    && emitted == emitted0 + ToSet(order[..n]) && resolved == Choices(s, order[..n], times, base)
  }

  // -------------------------------------------- keys outside the regions

  predicate IsSpace(c: char) {
    c in {' ', '\t', '\n', '\r', '\U{B}', '\U{C}', '\U{85}', '\U{A0}', '\U{1680}', '\U{2028}', '\U{2029}',
          '\U{202F}', '\U{205F}', '\U{3000}'}
    || '\U{2000}' <= c <= '\U{200A}'
  }

  predicate IsQuote(c: char) { c == '"' || c == '\'' }

  function Trim(s: string, cut: char -> bool): string {
    if s == "" then s else
    if cut(s[0]) then Trim(s[1..], cut) else
    if cut(s[|s| - 1]) then Trim(s[..|s| - 1], cut) else s
  }

  function BeforeColon(s: string): Option<string> {
    if s == "" then None else if s[0] == ':' then Some("") else
      var rest := BeforeColon(s[1..]);
      if rest.None? then None else Some([s[0]] + rest.value)
  }

  /** The key of a top-level `key: value` line, whatever the value. */
  function TopLevelKey(line: string): Option<string> {
    var s := TrimCR(line);
    if s == "" || IsBlank(s[0]) || IsListOrComment(s) || BeforeColon(s).None? then None else
      var key := Trim(Trim(BeforeColon(s).value, IsSpace), IsQuote);
      if key == "" then None else Some(key)
  }

  /** A key as it stands in a plain line: without a colon, and with nothing at its ends that
      is cut off or makes the line something else. */
  predicate IsPlainKey(key: string) {
    && key != "" && ':' !in key && key[0] != '#' && !StartsWith(key, "- ")
    && !IsSpace(key[0]) && !IsSpace(key[|key| - 1]) && !IsQuote(key[0]) && !IsQuote(key[|key| - 1])
  }

  lemma {:induction false} KeyBeforeColon(key: string, rest: string)
    requires ':' !in key
    ensures BeforeColon(key + ":" + rest) == Some(key)
  {
    if key == "" {
      assert ("" + ":" + rest)[0] == ':';
    } else {
      KeyBeforeColon(key[1..], rest);
      assert (key + ":" + rest)[1..] == key[1..] + ":" + rest;
      assert [key[0]] + key[1..] == key;
    }
  }

  lemma TrimmedAfterColon(head: string, rest: string)
    ensures TrimCR(head + ":" + rest) == head + ":" + TrimCR(rest)
    decreases |rest|
  {
    var s := head + ":" + rest;
    if rest != "" && rest[|rest| - 1] == '\r' {
      TrimmedAfterColon(head, rest[..|rest| - 1]);
      assert s[..|s| - 1] == head + ":" + rest[..|rest| - 1];
    }
  }

  /** The key of a plain line, and of one whose key is in quotes. */
  lemma TopLevelKeyOf(key: string, rest: string)
    requires IsPlainKey(key)
    ensures TopLevelKey(key + ":" + rest) == Some(key)
    ensures forall q | q in {"'", "\""} :: TopLevelKey(q + key + q + ":" + rest) == Some(key)
  {
    TrimmedAfterColon(key, rest);
    KeyBeforeColon(key, TrimCR(rest));
    PlainHead(key, TrimCR(rest));
    assert Trim(Trim(key, IsSpace), IsQuote) == key;
    forall q | q in {"'", "\""} ensures TopLevelKey(q + key + q + ":" + rest) == Some(key) {
      var head := q + key + q;
      TrimmedAfterColon(head, rest);
      KeyBeforeColon(head, TrimCR(rest));
      PlainHead(head, TrimCR(rest));
      assert Trim(head, IsSpace) == head;
      TrimQuotes(q[0], key);
    }
  }

  lemma PlainHead(head: string, rest: string)
    requires head != "" && ':' !in head && head[0] != '#' && !StartsWith(head, "- ") && !IsSpace(head[0])
    ensures var s := head + ":" + rest; s != "" && !IsBlank(s[0]) && !IsListOrComment(s)
  {
    var s := head + ":" + rest;
    assert s[0] == head[0] && s[|head|] == ':';
    assert s[1] == if |head| == 1 then ':' else head[1];
    if |head| > 1 { assert head[..2] == s[..2]; }
  }

  lemma TrimQuotes(q: char, key: string)
    requires IsQuote(q) && key != "" && !IsQuote(key[0]) && !IsQuote(key[|key| - 1])
    ensures Trim([q] + key + [q], IsQuote) == key
  {
    var s := [q] + key + [q];
    assert s[1..] == key + [q];
    assert (key + [q])[..|key|] == key;
    assert Trim(key + [q], IsQuote) == Trim(key, IsQuote) == key;
  }

  predicate Inside(regions: seq<Region>, i: nat) {
    exists k :: 0 <= k < |regions| && regions[k].start <= i <= regions[k].end
  }

  predicate IsUntouchedKey(lines: seq<string>, regions: seq<Region>, key: string) {
    FrontmatterClose(lines).Some?
    && exists i :: 1 <= i < FrontmatterClose(lines).value && !Inside(regions, i) && TopLevelKey(lines[i]) == Some(key)
  }

  function Seed(lines: seq<string>, regions: seq<Region>): (seed: set<string>)
    ensures forall key :: key in seed <==> IsUntouchedKey(lines, regions, key)
  {
    var close := FrontmatterClose(lines);
    if close.None? then {} else
      set i | 1 <= i < close.value && !Inside(regions, i) && TopLevelKey(lines[i]).Some? :: TopLevelKey(lines[i]).value
  }

  method SeedEmittedOutsideRegions(lines: seq<string>, regions: seq<Region>) returns (emitted: EmittedKeys)
    requires forall k | 0 <= k < |regions| :: regions[k].start <= regions[k].end < |lines|
    ensures fresh(emitted) && emitted.keys == Seed(lines, regions)
  {
    hide TopLevelKey;
    var close := FrontmatterClose(lines);
    if close.None? {
      emitted := new EmittedKeys({});
      return;
    }
    var inside := new bool[|lines|](i => false);
    for k := 0 to |regions|
      invariant forall i | 0 <= i < |lines| :: inside[i] <==> Inside(regions[..k], i)
    {
      var r := regions[k];
      for i := r.start to r.end + 1
        invariant r.start <= i
        invariant forall j | 0 <= j < |lines| :: inside[j] <==> Inside(regions[..k], j) || r.start <= j < i
      {
        inside[i] := true;
      }
      InsideOneMore(regions, k, |lines|);
    }
    assert regions[..|regions|] == regions;
    var keys: set<string> := {};
    for i := 1 to close.value
      invariant forall key :: key in keys <==>
                exists j :: 1 <= j < i && !Inside(regions, j) && TopLevelKey(lines[j]) == Some(key)
    {
      var key := TopLevelKey(lines[i]);
      if !inside[i] && key.Some? { keys := keys + {key.value}; }
    }
    emitted := new EmittedKeys(keys);
  }

  lemma InsideOneMore(regions: seq<Region>, k: nat, n: nat)
    requires k < |regions|
    ensures forall j: nat | j < n ::
              Inside(regions[..k + 1], j) <==> Inside(regions[..k], j) || regions[k].start <= j <= regions[k].end
  {
    var less, more := regions[..k], regions[..k + 1];
    forall j: nat ensures Inside(more, j) <==> Inside(less, j) || more[k].start <= j <= more[k].end {
      if Inside(less, j) {
        var m :| 0 <= m < k && less[m].start <= j <= less[m].end;
        assert more[m] == less[m];
      }
      if Inside(more, j) && !(more[k].start <= j <= more[k].end) {
        var m :| 0 <= m < k && more[m].start <= j <= more[m].end;
        assert more[m] == less[m];
      }
    }
  }

  // ---------------------------------------------------------- all regions

  predicate AllParse(yaml: Yaml, regions: seq<Region>) { forall k | 0 <= k < |regions| :: SidesParse(yaml, regions[k]) }

  function AllSides(yaml: Yaml, regions: seq<Region>): seq<Sides> {
    seq(|regions|, k requires 0 <= k < |regions| => SidesOf(yaml, regions[k]))
  }

  function EmittedBefore(sides: seq<Sides>, k: nat, seed: set<string>): set<string>
    requires k <= |sides|
  {
    if k == 0 then seed else EmittedBefore(sides, k - 1, seed) + ToSet(Order(sides[k - 1]))
  }

  predicate AcceptedAt(sides: seq<Sides>, k: nat, times: Times, base: Base, seed: set<string>)
    requires k < |sides|
  {
    Decided(sides[k], Order(sides[k]), times, base, EmittedBefore(sides, k, seed))
  }

  predicate Accepted(sides: seq<Sides>, times: Times, base: Base, seed: set<string>) {
    forall k | 0 <= k < |sides| :: AcceptedAt(sides, k, times, base, seed)
  }

  function Replacement(s: Sides, times: Times, base: Base): seq<string> { Choices(s, Order(s), times, base) }

  function Replacements(sides: seq<Sides>, times: Times, base: Base): (r: seq<seq<string>>)
    ensures |r| == |sides|
  {
    seq(|sides|, k requires 0 <= k < |sides| => Replacement(sides[k], times, base))
  }

  /** What becomes of the frontmatter regions of a file: all are resolved, or none. */
  function Resolved(
      yaml: Yaml, lines: seq<string>, regions: seq<Region>, times: Times, base: Base): Option<seq<seq<string>>>
  {
    var sides := AllSides(yaml, regions);
    if AllParse(yaml, regions) && Accepted(sides, times, base, Seed(lines, regions)) then
      Some(Replacements(sides, times, base))
    else None
  }

  method ParseRegions(yaml: Yaml, regions: seq<Region>) returns (r: Option<seq<Sides>>)
    ensures r == if AllParse(yaml, regions) then Some(AllSides(yaml, regions)) else None
  {
    hide Parses;
    hide Parsed;
    var parsed: seq<Sides> := [];
    for k := 0 to |regions|
      invariant forall j | 0 <= j < k :: SidesParse(yaml, regions[j])
      invariant parsed == AllSides(yaml, regions)[..k]
    {
      var s := ParseScalarSide(yaml, regions[k]);
      if s.None? { return None; }
      parsed := parsed + [s.value];
    }
    assert parsed == AllSides(yaml, regions);
    return Some(parsed);
  }

  method ResolveScalarRegions(yaml: Yaml, lines: seq<string>, regions: seq<Region>, times: Times, base: Base)
    returns (r: Option<seq<seq<string>>>)
    requires forall k | 0 <= k < |regions| :: regions[k].start <= regions[k].end < |lines|
    ensures r == Resolved(yaml, lines, regions, times, base)
  {
    hide Parses;
    hide Parsed;
    hide Seed;
    hide Decided;
    hide Choices;
    hide Order;
    hide ToSet;
    var all := ParseRegions(yaml, regions);
    if all.None? { return None; }
    var parsed := all.value;
    var emitted := SeedEmittedOutsideRegions(lines, regions);
    ghost var seed := emitted.keys;
    r := Some([]);
    for k := 0 to |parsed|
      invariant r.Some? && r.value == Replacements(parsed, times, base)[..k]
      invariant emitted.keys == EmittedBefore(parsed, k, seed)
      invariant forall j | 0 <= j < k :: AcceptedAt(parsed, j, times, base, seed)
    {
      assert parsed[k] == SidesOf(yaml, regions[k]) && SidesParse(yaml, regions[k]);
      SidesAreDistinct(yaml, regions[k]);
      var resolved := ResolveScalarRegion(parsed[k], times, base, emitted);
      assert resolved.Some? <==> AcceptedAt(parsed, k, times, base, seed);
      if resolved.None? { return None; }
      r := Some(r.value + [resolved.value]);
    }
    assert r.value == Replacements(parsed, times, base);
  }

  lemma SidesAreDistinct(yaml: Yaml, r: Region)
    requires SidesParse(yaml, r)
    ensures AreSides(SidesOf(yaml, r))
  {
  }

  // ----------------------------------------------------------- key safety

  /** No key is emitted by two regions, or by a region and an untouched line. */
  predicate KeysApart(sides: seq<Sides>, seed: set<string>) {
    && (forall k, key | 0 <= k < |sides| && key in Order(sides[k]) :: key !in seed)
    && (forall j, k, key | 0 <= j < k < |sides| && key in Order(sides[j]) :: key !in Order(sides[k]))
  }

  predicate AllDecided(sides: seq<Sides>, times: Times, base: Base) {
    forall k, key | 0 <= k < |sides| && key in Order(sides[k]) :: Choice(sides[k], key, times, base).Some?
  }

  lemma {:induction false} EmittedBeforeExactly(sides: seq<Sides>, k: nat, seed: set<string>, key: string)
    requires k <= |sides|
    ensures key in EmittedBefore(sides, k, seed) <==> key in seed || exists j :: 0 <= j < k && key in Order(sides[j])
  {
    hide Order;
    if k > 0 { EmittedBeforeExactly(sides, k - 1, seed, key); }
  }

  /** The running duplicate guard declines exactly the files in which some key cannot
      be decided or would come twice. */
  lemma AcceptedExactly(sides: seq<Sides>, times: Times, base: Base, seed: set<string>)
    ensures Accepted(sides, times, base, seed) <==> AllDecided(sides, times, base) && KeysApart(sides, seed)
  {
    hide Order;
    hide Choice;
    forall k | 0 <= k < |sides|
      ensures AcceptedAt(sides, k, times, base, seed) <==>
              forall key | key in Order(sides[k]) ::
                Choice(sides[k], key, times, base).Some? && key !in seed
                && forall j | 0 <= j < k :: key !in Order(sides[j])
    {
      forall key
        ensures key in EmittedBefore(sides, k, seed) <==>
                key in seed || exists j :: 0 <= j < k && key in Order(sides[j])
      {
        EmittedBeforeExactly(sides, k, seed, key);
      }
    }
    if Accepted(sides, times, base, seed) {
      forall k, key | 0 <= k < |sides| && key in Order(sides[k])
        ensures Choice(sides[k], key, times, base).Some? && key !in seed
        ensures forall j | 0 <= j < k :: key !in Order(sides[j])
      {
        assert AcceptedAt(sides, k, times, base, seed);
      }
    }
    if AllDecided(sides, times, base) && KeysApart(sides, seed) {
      forall k | 0 <= k < |sides| ensures AcceptedAt(sides, k, times, base, seed) {}
    }
  }

  /** Exactly the keys that can be decided: a counter with two integers, any other shared
      key if the times are known, and a key of one side if the base is known not to have it. */
  lemma DecidedExactly(s: Sides, key: string, times: Times, base: Base)
    ensures Choice(s, key, times, base).Some? <==>
            var o, t := Find(s.ours, key), Find(s.theirs, key);
            if o.Some? && t.Some?
            then times.Some? || (o.value.number.Some? && t.value.number.Some?
                                 && (key in {"trigger_count", "retry_count"} || StartsWith(key, "metrics_")))
            else (o.Some? || t.Some?) && base.Some? && key !in base.value
  {
  }

  /** An accepted merge has one line for every key of every region and for nothing
      else, brings back no deleted key, and emits no key twice. */
  lemma KeySafety(yaml: Yaml, lines: seq<string>, regions: seq<Region>, times: Times, base: Base, k: nat)
    requires Resolved(yaml, lines, regions, times, base).Some? && k < |regions|
    ensures var s, resolved := SidesOf(yaml, regions[k]), Resolved(yaml, lines, regions, times, base).value;
            && |resolved| == |regions| && |resolved[k]| == |Order(s)| && Distinct(Order(s))
            && (forall key :: key in Order(s) <==> Find(s.ours, key).Some? || Find(s.theirs, key).Some?)
            && (forall i | 0 <= i < |Order(s)| :: Choice(s, Order(s)[i], times, base) == Some(resolved[k][i]))
            && (forall key | key in Order(s) ::
                  && (Find(s.ours, key).None? || Find(s.theirs, key).None? ==> base.Some? && key !in base.value)
                  && !IsUntouchedKey(lines, regions, key)
                  && forall j | 0 <= j < |regions| && j != k :: key !in Order(SidesOf(yaml, regions[j])))
  {
    hide Order;
    hide Parses;
    hide IsUntouchedKey;
    hide ResolveScalarEntry;
    var sides := AllSides(yaml, regions);
    var s := sides[k];
    assert SidesParse(yaml, regions[k]);
    SidesAreDistinct(yaml, regions[k]);
    OrderIsDistinct(s);
    AcceptedExactly(sides, times, base, Seed(lines, regions));
    forall key, j | key in Order(s) && 0 <= j < |regions| && j != k ensures key !in Order(SidesOf(yaml, regions[j])) {
      assert sides[j] == SidesOf(yaml, regions[j]);
    }
  }

  /** In the merged frontmatter no key comes twice, as far as the emitted lines show their
      keys the way untouched lines do. */
  lemma NoKeyTwice(yaml: Yaml, lines: seq<string>, regions: seq<Region>, times: Times, base: Base, k: nat, i: nat)
    requires Resolved(yaml, lines, regions, times, base).Some? && k < |regions|
    requires var resolved := Resolved(yaml, lines, regions, times, base).value;
             |resolved| == |regions| && i < |resolved[k]| && ShowKeys(yaml, regions, resolved)
    ensures var resolved := Resolved(yaml, lines, regions, times, base).value;
            var key := TopLevelKey(resolved[k][i]);
            && key.Some? && !IsUntouchedKey(lines, regions, key.value)
            && forall m, j | 0 <= m < |regions| && 0 <= j < |resolved[m]| && TopLevelKey(resolved[m][j]) == key ::
                 m == k && j == i
  {
    hide Order;
    hide TopLevelKey;
    hide IsUntouchedKey;
    hide Choice;
    var resolved := Resolved(yaml, lines, regions, times, base).value;
    KeySafety(yaml, lines, regions, times, base, k);
    var key := TopLevelKey(resolved[k][i]);
    forall m, j | 0 <= m < |regions| && 0 <= j < |resolved[m]| && TopLevelKey(resolved[m][j]) == key
      ensures m == k && j == i
    {
      KeySafety(yaml, lines, regions, times, base, m);
      assert Order(SidesOf(yaml, regions[m]))[j] in Order(SidesOf(yaml, regions[m]));
      assert Order(SidesOf(yaml, regions[k]))[i] in Order(SidesOf(yaml, regions[k]));
    }
  }

  /** Every emitted line has its key at the top level. */
  predicate ShowKeys(yaml: Yaml, regions: seq<Region>, resolved: seq<seq<string>>)
    requires |resolved| == |regions|
  {
    forall k, i | 0 <= k < |regions| && 0 <= i < |resolved[k]| && i < |Order(SidesOf(yaml, regions[k]))| ::
      TopLevelKey(resolved[k][i]) == Some(Order(SidesOf(yaml, regions[k]))[i])
  }

  /** The scalar rules write the key of this counter anew. */
  predicate IsMergedCounter(yaml: Yaml, r: Region, key: string) {
    var o, t := Find(Parsed(yaml, r.ours), key), Find(Parsed(yaml, r.theirs), key);
    o.Some? && t.Some? && IsCounterKey(key) && o.value.number.Some? && t.value.number.Some?
  }

  /** The line gives the key this number. */
  predicate Tells(line: string, key: string, n: int) {
    var head := key + ": ";
    StartsWith(line, head) && IsNumeral(line[|head|..]) && ReadNumber(line[|head|..]) == n
  }

  /** The line has the larger of two counts, or it is the line of the given side. */
  predicate FromSide(yaml: Yaml, r: Region, key: string, line: string, side: bool) {
    var o, t := Find(Parsed(yaml, r.ours), key), Find(Parsed(yaml, r.theirs), key);
    o.Some? && t.Some? ==>
      if IsMergedCounter(yaml, r, key) then
        var a, b := o.value.number.value, t.value.number.value;
        Tells(line, key, if a >= b then a else b)
      else line == if side then t.value.line else o.value.line
  }

  /** Every counter with two integers gets the larger one; all other shared keys of
      all regions take one and the same side: theirs exactly if it is strictly newer. */
  lemma OneSideForAll(yaml: Yaml, lines: seq<string>, regions: seq<Region>, times: Times, base: Base)
    requires Resolved(yaml, lines, regions, times, base).Some?
    ensures var resolved := Resolved(yaml, lines, regions, times, base).value;
            var theirs := times.Some? && times.value.1 > times.value.0;
            |resolved| == |regions|
            && forall k, i | 0 <= k < |regions| && 0 <= i < |resolved[k]| ::
                 && |resolved[k]| == |Order(SidesOf(yaml, regions[k]))|
                 && FromSide(yaml, regions[k], Order(SidesOf(yaml, regions[k]))[i], resolved[k][i], theirs)
  {
    hide Order;
    hide Parsed;
    hide Seed;
    hide Decimal;
    hide IsCounterKey;
    hide FromSide;
    hide Choice;
    hide SidesParse;
    var resolved := Resolved(yaml, lines, regions, times, base).value;
    var theirs := times.Some? && times.value.1 > times.value.0;
    forall k, i | 0 <= k < |regions| && 0 <= i < |resolved[k]|
      ensures |resolved[k]| == |Order(SidesOf(yaml, regions[k]))|
      ensures FromSide(yaml, regions[k], Order(SidesOf(yaml, regions[k]))[i], resolved[k][i], theirs)
    {
      KeySafety(yaml, lines, regions, times, base, k);
      ChoiceFromSide(yaml, regions[k], Order(SidesOf(yaml, regions[k]))[i], times, base);
    }
  }

  lemma ChoiceFromSide(yaml: Yaml, r: Region, key: string, times: Times, base: Base)
    requires Choice(SidesOf(yaml, r), key, times, base).Some?
    ensures var theirs := times.Some? && times.value.1 > times.value.0;
            FromSide(yaml, r, key, Choice(SidesOf(yaml, r), key, times, base).value, theirs)
  {
    hide Parsed;
    hide IsCounterKey;
    var o, t := Find(Parsed(yaml, r.ours), key), Find(Parsed(yaml, r.theirs), key);
    if IsMergedCounter(yaml, r, key) {
      var m, head := Max(o.value.number.value, t.value.number.value), key + ": ";
      ReadOfDecimal(m);
      assert (head + Decimal(m))[|head|..] == Decimal(m);
    }
  }

  // -------------------------------------------------------- commutativity

  function Swap(s: Sides): Sides { Sides(s.theirs, s.ours) }

  function SwapRegion(r: Region): Region { Region(r.start, r.theirs, r.ours, r.end) }

  function SwapTimes(times: Times): Times { if times.Some? then Some((times.value.1, times.value.0)) else None }

  function SwapAll(regions: seq<Region>): (r: seq<Region>)
    ensures |r| == |regions|
  {
    seq(|regions|, k requires 0 <= k < |regions| => SwapRegion(regions[k]))
  }

  /** Swapping the sides changes the choice for a shared key exactly if the times are
      equal and decide between two different lines. */
  lemma SwapKeepsChoice(s: Sides, key: string, times: Times, base: Base)
    ensures Choice(Swap(s), key, SwapTimes(times), base) == Choice(s, key, times, base) <==>
            !(var o, t := Find(s.ours, key), Find(s.theirs, key);
              o.Some? && t.Some? && times.Some? && times.value.0 == times.value.1 && o.value.line != t.value.line
              && !(IsCounterKey(key) && o.value.number.Some? && t.value.number.Some?))
  {
    hide IsCounterKey;
  }

  /** At equal times each direction keeps its own side. */
  lemma EqualTimesKeepOurs(base: Base)
    ensures var s := Sides([Entry("k", "k: 1", None)], [Entry("k", "k: 2", None)]);
            && Choice(s, "k", Some((5, 5)), base) == Some("k: 1")
            && Choice(Swap(s), "k", SwapTimes(Some((5, 5))), base) == Some("k: 2")
  {
    assert !IsCounterKey("k");
  }

  /** The keys of a region with the line each one gets. */
  function LineOf(s: Sides, times: Times, base: Base): map<string, Option<string>> {
    map key | key in Order(s) :: Choice(s, key, times, base)
  }

  lemma SwapKeepsKeys(s: Sides)
    requires AreSides(s)
    ensures forall key :: key in Order(Swap(s)) <==> key in Order(s)
  {
    hide Order;
    OrderIsDistinct(s);
    OrderIsDistinct(Swap(s));
  }

  /** The frontmatters of the two files differ only inside the regions. */
  predicate SameOutside(lines: seq<string>, swapped: seq<string>, regions: seq<Region>) {
    var close := FrontmatterClose(lines);
    && close == FrontmatterClose(swapped)
    && (close.Some? ==> forall i | 1 <= i < close.value && !Inside(regions, i) :: lines[i] == swapped[i])
  }

  lemma SwapKeepsUntouched(lines: seq<string>, swapped: seq<string>, regions: seq<Region>)
    requires SameOutside(lines, swapped, regions)
    ensures Seed(lines, regions) == Seed(swapped, SwapAll(regions))
  {
    hide TopLevelKey;
    hide FrontmatterClose;
    forall i: nat ensures Inside(SwapAll(regions), i) <==> Inside(regions, i) {
      if Inside(regions, i) {
        var k :| 0 <= k < |regions| && regions[k].start <= i <= regions[k].end;
        assert SwapAll(regions)[k] == SwapRegion(regions[k]);
      }
      if Inside(SwapAll(regions), i) {
        var k :| 0 <= k < |regions| && SwapAll(regions)[k].start <= i <= SwapAll(regions)[k].end;
        assert SwapAll(regions)[k] == SwapRegion(regions[k]);
      }
    }
  }

  /** With different committer times the merge is commutative: both directions are
      accepted or both declined, and every key gets the same line. */
  lemma MergeCommutes(yaml: Yaml, lines: seq<string>, swapped: seq<string>, regions: seq<Region>, times: Times,
                      base: Base)
    requires times.Some? ==> times.value.0 != times.value.1
    requires SameOutside(lines, swapped, regions)
    ensures Resolved(yaml, lines, regions, times, base).Some? <==>
            Resolved(yaml, swapped, SwapAll(regions), SwapTimes(times), base).Some?
    ensures Resolved(yaml, lines, regions, times, base).Some? ==>
              forall k | 0 <= k < |regions| ::
                LineOf(SidesOf(yaml, regions[k]), times, base) ==
                LineOf(SidesOf(yaml, SwapAll(regions)[k]), SwapTimes(times), base)
  {
    hide Order;
    hide Parses;
    hide IsUntouchedKey;
    hide Choice;
    var sides, sides' := AllSides(yaml, regions), AllSides(yaml, SwapAll(regions));
    hide SameOutside;
    hide Seed;
    SwapKeepsUntouched(lines, swapped, regions);
    AcceptedExactly(sides, times, base, Seed(lines, regions));
    AcceptedExactly(sides', SwapTimes(times), base, Seed(lines, regions));
    assert AllParse(yaml, regions) <==> AllParse(yaml, SwapAll(regions)) by {
      assert forall k | 0 <= k < |regions| :: SidesParse(yaml, regions[k]) <==> SidesParse(yaml, SwapAll(regions)[k]);
    }
    if AllParse(yaml, regions) {
      forall k | 0 <= k < |regions|
        ensures forall key :: key in Order(sides'[k]) <==> key in Order(sides[k])
        ensures forall key :: Choice(sides'[k], key, SwapTimes(times), base) == Choice(sides[k], key, times, base)
      {
        assert SidesParse(yaml, regions[k]);
        SidesAreDistinct(yaml, regions[k]);
        SwapKeepsKeys(sides[k]);
        forall key ensures Choice(sides'[k], key, SwapTimes(times), base) == Choice(sides[k], key, times, base) {
          SwapKeepsChoice(sides[k], key, times, base);
        }
      }
      forall k | 0 <= k < |regions|
        ensures LineOf(SidesOf(yaml, regions[k]), times, base) ==
                LineOf(SidesOf(yaml, SwapAll(regions)[k]), SwapTimes(times), base)
      {
        assert sides[k] == SidesOf(yaml, regions[k]) && sides'[k] == SidesOf(yaml, SwapAll(regions)[k]);
      }
    }
  }
}
