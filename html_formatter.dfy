/**
 * `HTMLFormatter._parse_news_data`: splits the newsletter markdown into an
 * insertion-ordered map from section title to section body.
 *
 * The text is cut at every "\n## ". The first piece (the intro) gives a
 * "Market Update" entry (the text before the first "**Sports Check**" marker,
 * without a leading "# Lithrop Ledger" title) and a "Sports Check" entry (the
 * text from the marker on, with the marker text removed). Every later piece
 * gives an entry keyed by its first line.
 */
module HtmlFormatter {
  import opened Wrappers
  import opened PyStr
  import opened SectionMap

  /** The literal the markdown is split on. */
  const Delimiter: string := "\n## "
  /** The bold heading that starts the sports part of the intro. */
  const SportsMarker: string := "**Sports Check**"
  const MarketKey: string := "Market Update"
  const SportsKey: string := "Sports Check"
  /** The newsletter title the anchored pattern removes, in lower case. */
  const TitleName: string := "lithrop ledger"

  /** ASCII lower-casing, the case folding the title pattern is matched under. */
  function Lower(c: char): char {
    if 'A' <= c <= 'Z' then (c as int + 32) as char else c
  }

  predicate SameIgnoringCase(a: string, b: string) {
    |a| == |b| && forall i :: 0 <= i < |a| ==> Lower(a[i]) == Lower(b[i])
  }

  predicate StarFree(s: string) {
    forall i :: 0 <= i < |s| ==> s[i] != '*'
  }

  /** `\s*` from index `i`: the end of the run of whitespace starting there. */
  function SkipSpace(s: string, i: nat): (j: nat)
    requires i <= |s|
    ensures i <= j <= |s| && (j == |s| || !IsSpace(s[j]))
    decreases |s| - i
  {
    if i < |s| && IsSpace(s[i]) then SkipSpace(s, i + 1) else i
  }

  /** `SkipSpace` passes over whitespace only. */
  lemma {:induction false} SkipSpaceSkipsSpace(s: string, i: nat)
    requires i <= |s|
    ensures forall k :: i <= k < SkipSpace(s, i) ==> IsSpace(s[k])
    decreases |s| - i
  {
    if i < |s| && IsSpace(s[i]) {
      SkipSpaceSkipsSpace(s, i + 1);
    }
  }

  /** `\*?` at index `i`. */
  function SkipStar(s: string, i: nat): (j: nat)
    requires i <= |s|
    ensures j == if i < |s| && s[i] == '*' then i + 1 else i
  {
    if i < |s| && s[i] == '*' then i + 1 else i
  }

  /**
   * Where a match of the anchored, case-insensitive pattern
   * `^#\s*\*?Lithrop Ledger\*?\s*\n*` ends, or None when `s` does not start
   * with one. The greedy `\s*` already takes every newline, so `\n*` matches
   * the empty string; a whitespace run never begins with `*` or `L`, so no
   * backtracking can produce another match.
   */
  function TitleEnd(s: string): (r: Option<nat>)
    ensures r.Some? ==> 1 + |TitleName| <= r.value <= |s| && s[0] == '#'
    ensures r.Some? ==> r.value == |s| || !IsSpace(s[r.value])
    ensures s == [] || s[0] != '#' ==> r.None?
  {
    if s == [] || s[0] != '#' then None
    else
      var a := SkipStar(s, SkipSpace(s, 1));
      if a + |TitleName| <= |s| && SameIgnoringCase(s[a..a + |TitleName|], TitleName)
      then Some(SkipSpace(s, SkipStar(s, a + |TitleName|)))
      else None
  }

  /** `re.sub(title_pattern, '', s, flags=re.IGNORECASE)`: drops a leading newsletter title. */
  function RemoveTitle(s: string): (r: string)
    ensures |r| <= |s| && r == s[|s| - |r|..]
  {
    match TitleEnd(s)
    case None => s
    case Some(e) => s[e..]
  }

  /** A title line as the pattern describes it, built from its parts. */
  function Heading(gap: string, open: bool, name: string, close: bool, trail: string): string {
    "#" + gap + (if open then "*" else "") + name + (if close then "*" else "") + trail
  }

  predicate HeadingParts(gap: string, name: string, trail: string) {
    AllSpace(gap) && SameIgnoringCase(name, TitleName) && AllSpace(trail)
  }

  lemma SkipSpaceAt(s: string, i: nat, j: nat)
    requires i <= j <= |s|
    requires forall k :: i <= k < j ==> IsSpace(s[k])
    requires j == |s| || !IsSpace(s[j])
    ensures SkipSpace(s, i) == j
  {
    SkipSpaceSkipsSpace(s, i);
  }

  lemma NameStart(name: string)
    requires SameIgnoringCase(name, TitleName)
    ensures |name| == |TitleName| && (name[0] == 'l' || name[0] == 'L')
  {
    assert Lower(name[0]) == 'l';
  }

  /** The text an optional `*` of the pattern matches. */
  predicate OptionalStar(o: string) {
    o == [] || o == "*"
  }

  /** `#`, whitespace and an optional `*`, followed by a character that is neither. */
  lemma SkipOpening(x: string, gap: string, o: string, y: string)
    requires AllSpace(gap) && OptionalStar(o) && y != [] && !IsSpace(y[0]) && y[0] != '*'
    requires x == ("#" + gap + o) + y
    ensures SkipStar(x, SkipSpace(x, 1)) == 1 + |gap| + |o|
  {
    var g := 1 + |gap|;
    forall k | 1 <= k < g ensures IsSpace(x[k]) {
      assert x[k] == gap[k - 1];
    }
    if o == [] {
      assert x[g] == y[0];
    } else {
      assert x[g] == '*';
    }
    SkipSpaceAt(x, 1, g);
  }

  /** Whitespace, up to the first character that is not whitespace. */
  lemma SkipTrail(x: string, b: nat, trail: string, rest: string)
    requires b <= |x| && x[b..] == trail + rest
    requires AllSpace(trail) && (rest == [] || !IsSpace(rest[0]))
    ensures SkipSpace(x, b) == |x| - |rest|
  {
    var e := b + |trail|;
    forall j | b <= j < e ensures IsSpace(x[j]) {
      assert x[j] == x[b..][j - b];
    }
    if e < |x| {
      assert x[e] == x[b..][|trail|];
    }
    SkipSpaceAt(x, b, e);
  }

  /** An optional `*`, then whitespace, up to the first character that is not whitespace. */
  lemma SkipClosing(x: string, k: nat, c: string, trail: string, rest: string)
    requires OptionalStar(c) && k <= |x| && x[k..] == c + (trail + rest)
    requires AllSpace(trail) && (rest == [] || !IsSpace(rest[0]))
    requires c == [] && trail == [] && rest != [] ==> rest[0] != '*'
    ensures SkipSpace(x, SkipStar(x, k)) == |x| - |rest|
  {
    var y := trail + rest;
    if c == [] {
      assert x[k..] == y;
      assert y != [] ==> y[0] != '*';
      if k < |x| {
        assert x[k] == y[0];
      }
      SkipTrail(x, k, trail, rest);
    } else {
      assert x[k] == '*';
      assert x[k + 1..] == y;
      SkipTrail(x, k + 1, trail, rest);
    }
  }

  /** Every title line the pattern describes is removed, whatever follows it. */
  lemma TitleRemovedFromHeading(gap: string, open: bool, name: string, close: bool, trail: string, rest: string)
    requires HeadingParts(gap, name, trail)
    requires rest == [] || !IsSpace(rest[0])
    requires !close && trail == [] && rest != [] ==> rest[0] != '*'
    ensures RemoveTitle(Heading(gap, open, name, close, trail) + rest) == rest
  {
    NameStart(name);
    var pre: string := "#" + gap + (if open then "*" else "");
    var c: string := if close then "*" else "";
    var y := name + (c + (trail + rest));
    HeadingAssoc(gap, open, name, close, trail, rest);
    SkipOpening(pre + y, gap, if open then "*" else "", y);
    SliceAfter(pre, y);
    TitleEndFromName(pre + y, |pre|, name, c, trail, rest);
  }

  lemma SliceAfter(x: string, y: string)
    ensures (x + y)[|x|..] == y
    ensures x != [] ==> (x + y)[0] == x[0]
    ensures y != [] ==> (x + y)[|x + y| - 1] == y[|y| - 1]
  {
  }

  /** Once the opening is skipped, the name, closing and trailing space end the match. */
  lemma TitleEndFromName(s: string, a: nat, name: string, c: string, trail: string, rest: string)
    requires s != [] && s[0] == '#' && SkipStar(s, SkipSpace(s, 1)) == a
    requires a <= |s| && s[a..] == name + (c + (trail + rest))
    requires SameIgnoringCase(name, TitleName) && AllSpace(trail) && OptionalStar(c)
    requires rest == [] || !IsSpace(rest[0])
    requires c == [] && trail == [] && rest != [] ==> rest[0] != '*'
    ensures RemoveTitle(s) == rest
  {
    var post := c + (trail + rest);
    TitleEndAfterName(s, a, name, post);
    SkipClosing(s, a + |name|, c, trail, rest);
    TitleEndAt(s, a, |s| - |rest|);
    SuffixOfSlice(s, a, name, c, trail, rest);
  }

  lemma SuffixOfSlice(s: string, a: nat, x: string, y: string, z: string, rest: string)
    requires a <= |s| && s[a..] == x + (y + (z + rest))
    ensures s[|s| - |rest|..] == rest
  {
    assert s[|s| - |rest|..] == s[a..][|x| + |y| + |z|..];
  }

  lemma HeadingAssoc(gap: string, open: bool, name: string, close: bool, trail: string, rest: string)
    ensures Heading(gap, open, name, close, trail) + rest
         == ("#" + gap + (if open then "*" else "")) + (name + ((if close then "*" else "") + (trail + rest)))
  {
  }

  /** The match ends where the pieces of the pattern say it does. */
  lemma TitleEndAt(s: string, a: nat, e: nat)
    requires s != [] && s[0] == '#'
    requires SkipStar(s, SkipSpace(s, 1)) == a && a + |TitleName| <= |s|
    requires SameIgnoringCase(s[a..a + |TitleName|], TitleName)
    requires SkipSpace(s, SkipStar(s, a + |TitleName|)) == e
    ensures TitleEnd(s) == Some(e)
  {
  }

  lemma TitleEndAfterName(s: string, a: nat, name: string, post: string)
    requires a <= |s| && s[a..] == name + post
    ensures a + |name| <= |s| && s[a..a + |name|] == name && s[a + |name|..] == post
  {
    assert s[a..][..|name|] == name;
    assert s[a..][|name|..] == post;
  }

  lemma SliceJoin(s: string, i: nat, j: nat, k: nat)
    requires i <= j <= k <= |s|
    ensures s[i..k] == s[i..j] + s[j..k]
  {
  }

  /** Conversely, whatever the pattern removes is a title line made of such parts. */
  lemma RemovedIsHeading(s: string)
    requires TitleEnd(s).Some?
    ensures exists gap, open, name, close, trail ::
      HeadingParts(gap, name, trail) && s[..TitleEnd(s).value] == Heading(gap, open, name, close, trail)
  {
    var g := SkipSpace(s, 1);
    var a := SkipStar(s, g);
    var q := a + |TitleName|;
    var b := SkipStar(s, q);
    var e := SkipSpace(s, b);
    SkipSpaceSkipsSpace(s, 1);
    SkipSpaceSkipsSpace(s, b);
    SpaceSlice(s, 1, g);
    SpaceSlice(s, b, e);
    StarSlice(s, g);
    StarSlice(s, q);
    HeadingOfSlices(s, g, a, q, b, e);
    assert HeadingParts(s[1..g], s[a..q], s[b..e]);
  }

  lemma SpaceSlice(s: string, i: nat, j: nat)
    requires i <= j <= |s| && forall k :: i <= k < j ==> IsSpace(s[k])
    ensures AllSpace(s[i..j])
  {
  }

  /** What `\*?` consumed at `i`. */
  lemma StarSlice(s: string, i: nat)
    requires i <= |s|
    ensures SkipStar(s, i) <= |s| && s[i..SkipStar(s, i)] == if SkipStar(s, i) > i then "*" else ""
  {
    if SkipStar(s, i) > i {
      assert s[i..i + 1] == [s[i]];
    }
  }

  /** The slices the pattern's pieces consume, glued back together, make a heading. */
  lemma HeadingOfSlices(s: string, g: nat, a: nat, q: nat, b: nat, e: nat)
    requires 1 <= g <= a <= q <= b <= e <= |s| && s[0] == '#'
    requires s[g..a] == (if a > g then "*" else "") && s[q..b] == (if b > q then "*" else "")
    ensures s[..e] == Heading(s[1..g], a > g, s[a..q], b > q, s[b..e])
  {
    assert s[..1] == "#";
    SliceJoin(s, 0, 1, g);
    SliceJoin(s, 0, g, a);
    SliceJoin(s, 0, a, q);
    SliceJoin(s, 0, q, b);
    SliceJoin(s, 0, b, e);
  }

  /** The end of the part of the intro before the first sports marker. */
  function MarketCut(intro: string): (cut: nat)
    ensures cut <= |intro|
  {
    match Find(intro, SportsMarker)
    case None => |intro|
    case Some(i) => i
  }

  /**
   * The cut splits the intro into a part with no marker and, when there is a
   * marker, a part starting with it.
   */
  lemma MarketCutSplits(intro: string)
    ensures !Contains(intro[..MarketCut(intro)], SportsMarker)
    ensures Contains(intro, SportsMarker) ==> OccursAt(intro, SportsMarker, MarketCut(intro))
    ensures !Contains(intro, SportsMarker) ==> MarketCut(intro) == |intro|
  {
    FindNoneIffAbsent(intro, SportsMarker);
    NoOccurrenceInPrefix(intro, SportsMarker, MarketCut(intro));
  }

  /** The "Market Update" body: the intro before the marker, stripped, title removed, stripped again. */
  function MarketText(intro: string): (r: string)
    ensures IsStripped(r)
  {
    Strip(RemoveTitle(Strip(intro[..MarketCut(intro)])))
  }

  /** The "Sports Check" body, when the intro has the marker. */
  function SportsText(intro: string): (r: Option<string>)
    ensures r.Some? <==> Contains(intro, SportsMarker)
    ensures r.Some? ==> IsStripped(r.value)
  {
    FindNoneIffAbsent(intro, SportsMarker);
    match Find(intro, SportsMarker)
    case None => None
    case Some(i) => Some(Strip(RemoveAll(intro[i..], SportsMarker)))
  }

  /** `news_data['Market Update'] = ...`, made only when the market text is not empty. */
  function MarketEntries(intro: string): (r: seq<Entry>)
    ensures |r| <= 1 && (r != [] <==> MarketText(intro) != "")
    ensures forall i :: 0 <= i < |r| ==> r[i] == Entry(MarketKey, MarketText(intro))
  {
    var market := MarketText(intro);
    if market == "" then [] else [Entry(MarketKey, market)]
  }

  /** `news_data['Sports Check'] = ...`, made only when the intro has the marker. */
  function SportsEntries(intro: string): (r: seq<Entry>)
    ensures |r| <= 1 && (r != [] <==> Contains(intro, SportsMarker))
    ensures forall i :: 0 <= i < |r| ==> SportsText(intro).Some? && r[i] == Entry(SportsKey, SportsText(intro).value)
  {
    match SportsText(intro)
    case None => []
    case Some(sports) => [Entry(SportsKey, sports)]
  }

  /** The assignments the intro makes, in order: market data first, then sports. */
  function IntroEntries(intro: string): (r: seq<Entry>)
    ensures |r| <= 2
  {
    MarketEntries(intro) + SportsEntries(intro)
  }

  /**
   * "Market Update" is assigned exactly when the market text is not empty,
   * "Sports Check" exactly when the intro has the marker; every value is
   * trimmed and neither title has a `*`.
   */
  lemma IntroEntriesFacts(intro: string)
    ensures HasKey(IntroEntries(intro), MarketKey) <==> MarketText(intro) != ""
    ensures HasKey(IntroEntries(intro), SportsKey) <==> Contains(intro, SportsMarker)
    ensures forall i :: 0 <= i < |IntroEntries(intro)| ==> IsStripped(IntroEntries(intro)[i].value) && StarFree(IntroEntries(intro)[i].key)
    ensures forall i :: 0 <= i < |IntroEntries(intro)| && IntroEntries(intro)[i].key == MarketKey ==> IntroEntries(intro)[i].value != ""
    ensures forall i :: 0 <= i < |IntroEntries(intro)| ==> IntroEntries(intro)[i].key == MarketKey || IntroEntries(intro)[i].key == SportsKey
  {
    IntroKeys(MarketEntries(intro), SportsEntries(intro), MarketText(intro), SportsText(intro));
  }

  lemma IntroKeys(first: seq<Entry>, second: seq<Entry>, market: string, sports: Option<string>)
    requires |first| <= 1 && (first != [] <==> market != "")
    requires forall i :: 0 <= i < |first| ==> first[i] == Entry(MarketKey, market)
    requires |second| <= 1 && (second != [] <==> sports.Some?)
    requires forall i :: 0 <= i < |second| ==> sports.Some? && second[i] == Entry(SportsKey, sports.value)
    requires IsStripped(market) && (sports.Some? ==> IsStripped(sports.value))
    ensures HasKey(first + second, MarketKey) <==> market != ""
    ensures HasKey(first + second, SportsKey) <==> sports.Some?
    ensures forall i :: 0 <= i < |first + second| ==> IsStripped((first + second)[i].value) && StarFree((first + second)[i].key)
    ensures forall i :: 0 <= i < |first + second| && (first + second)[i].key == MarketKey ==> (first + second)[i].value != ""
    ensures forall i :: 0 <= i < |first + second| ==> (first + second)[i].key == MarketKey || (first + second)[i].key == SportsKey
  {
    var r := first + second;
    assert MarketKey != SportsKey && StarFree(MarketKey) && StarFree(SportsKey);
    forall i | 0 <= i < |r|
      ensures r[i] == Entry(MarketKey, market) || (sports.Some? && r[i] == Entry(SportsKey, sports.value))
    {
      if i < |first| { assert r[i] == first[i]; } else { assert r[i] == second[i - |first|]; }
    }
    if first != [] { assert r[0] == first[0]; }
    if second != [] { assert r[|r| - 1] == second[0]; }
  }

  /** What `(.+)` captures at the start of a section: everything before the first newline. */
  function FirstLine(chunk: string): (line: string)
    ensures |line| <= |chunk| && line == chunk[..|line|]
    ensures forall i :: 0 <= i < |line| ==> line[i] != '\n'
    ensures |line| == |chunk| || chunk[|line|] == '\n'
  {
    if chunk == [] || chunk[0] == '\n' then [] else [chunk[0]] + FirstLine(chunk[1..])
  }

  /**
   * The assignment one section makes: its first line, stripped and with every
   * '*' removed, as key; the rest of the section, stripped, as value. A section
   * that is empty or starts with a newline makes none.
   */
  function SectionEntry(chunk: string): (r: Option<Entry>)
    ensures r.None? <==> chunk == [] || chunk[0] == '\n'
  {
    if chunk == [] || chunk[0] == '\n' then None
    else
      var line := FirstLine(chunk);
      Some(Entry(RemoveAll(Strip(line), "*"), Strip(chunk[|line|..])))
  }

  /** A section's body is trimmed and its title has no `*` left. */
  lemma SectionEntryClean(chunk: string)
    requires SectionEntry(chunk).Some?
    ensures IsStripped(SectionEntry(chunk).value.value) && StarFree(SectionEntry(chunk).value.key)
  {
    RemoveCharGone(Strip(FirstLine(chunk)), '*');
  }

  /** The assignments the sections make, in order. */
  function SectionEntries(chunks: seq<string>): (r: seq<Entry>)
    ensures |r| <= |chunks|
  {
    if chunks == [] then []
    else
      var init := SectionEntries(chunks[..|chunks| - 1]);
      match SectionEntry(chunks[|chunks| - 1])
      case None => init
      case Some(e) => init + [e]
  }

  lemma {:induction false} SectionEntriesClean(chunks: seq<string>)
    ensures forall i :: 0 <= i < |SectionEntries(chunks)| ==>
      IsStripped(SectionEntries(chunks)[i].value) && StarFree(SectionEntries(chunks)[i].key)
    decreases |chunks|
  {
    if chunks != [] {
      var last := chunks[|chunks| - 1];
      SectionEntriesClean(chunks[..|chunks| - 1]);
      if SectionEntry(last).Some? {
        SectionEntryClean(last);
      }
    }
  }

  /** The text before the first `"\n## "`: what `sections.pop(0)` takes. */
  function Intro(content: string): string {
    SplitOn(content, Delimiter)[0]
  }

  /** The chunks after each `"\n## "`, each without its delimiter. */
  function Sections(content: string): seq<string> {
    SplitOn(content, Delimiter)[1..]
  }

  /** A section chunk whose first line makes the title `k`. */
  predicate Titled(chunk: string, k: string) {
    SectionEntry(chunk).Some? && SectionEntry(chunk).value.key == k
  }

  /** Every assignment `_parse_news_data` makes to its dict, in order. */
  function Assignments(content: string): seq<Entry> {
    IntroEntries(Intro(content)) + SectionEntries(Sections(content))
  }

  /** The dict `_parse_news_data` returns, in insertion order. */
  function Parsed(content: string): seq<Entry> {
    PutAll([], Assignments(content))
  }

  /** Empty input gives an empty dict. */
  lemma ParsedEmpty()
    ensures Parsed("") == []
  {
    assert Find("", SportsMarker).None?;
    assert Find("", Delimiter).None?;
    assert SplitOn("", Delimiter) == [""];
    assert TitleEnd("").None?;
    assert MarketText("") == "";
  }

  /** A dict: no title appears twice, however often the input repeats it. */
  lemma ParsedDistinct(content: string)
    ensures DistinctKeys(Parsed(content))
  {
    PutAllDistinct([], Assignments(content));
  }

  /** Each value is the last one assigned to its title (the silent overwrite of duplicate sections). */
  lemma ParsedLastWins(content: string, k: string)
    ensures Get(Parsed(content), k) == LastValue(Assignments(content), k)
  {
    PutAllLastWins([], Assignments(content), k);
  }

  /** At most "Market Update", "Sports Check" and one entry per delimiter. */
  lemma ParsedSize(content: string)
    ensures |Parsed(content)| <= 2 + CountOccurrences(content, Delimiter)
  {
    var chunks := SplitOn(content, Delimiter);
    SplitCount(content, Delimiter);
    PutAllSize([], Assignments(content));
    assert |SectionEntries(Sections(content))| <= |chunks| - 1;
  }

  /** Every body is whitespace-trimmed and no title keeps a `*`. */
  lemma ParsedClean(content: string)
    ensures forall i :: 0 <= i < |Parsed(content)| ==> IsStripped(Parsed(content)[i].value)
    ensures forall i :: 0 <= i < |Parsed(content)| ==> StarFree(Parsed(content)[i].key)
  {
    var es := Assignments(content);
    var r := Parsed(content);
    AssignmentsClean(Intro(content), Sections(content));
    PutAllValues([], es);
    forall i | 0 <= i < |r| ensures IsStripped(r[i].value) && StarFree(r[i].key) {
      var j :| 0 <= j < |es| && es[j].value == r[i].value;
      assert HasKey(r, r[i].key);
      PutAllKeys([], es, r[i].key);
      var l :| 0 <= l < |es| && es[l].key == r[i].key;
    }
  }

  lemma AssignmentsClean(intro: string, sections: seq<string>)
    ensures forall i :: 0 <= i < |IntroEntries(intro) + SectionEntries(sections)| ==>
      IsStripped((IntroEntries(intro) + SectionEntries(sections))[i].value) &&
      StarFree((IntroEntries(intro) + SectionEntries(sections))[i].key)
  {
    IntroEntriesFacts(intro);
    SectionEntriesClean(sections);
    CleanAppend(IntroEntries(intro), SectionEntries(sections));
  }

  lemma CleanAppend(a: seq<Entry>, b: seq<Entry>)
    requires forall i :: 0 <= i < |a| ==> IsStripped(a[i].value) && StarFree(a[i].key)
    requires forall i :: 0 <= i < |b| ==> IsStripped(b[i].value) && StarFree(b[i].key)
    ensures forall i :: 0 <= i < |a + b| ==> IsStripped((a + b)[i].value) && StarFree((a + b)[i].key)
  {
    forall i | 0 <= i < |a + b| ensures IsStripped((a + b)[i].value) && StarFree((a + b)[i].key) {
      if i < |a| { assert (a + b)[i] == a[i]; } else { assert (a + b)[i] == b[i - |a|]; }
    }
  }

  /** The titles the sections make are exactly those of the chunks that have a first line. */
  lemma SectionEntriesKeys(chunks: seq<string>, k: string)
    ensures HasKey(SectionEntries(chunks), k) <==> exists j :: 0 <= j < |chunks| && Titled(chunks[j], k)
  {
    if HasKey(SectionEntries(chunks), k) {
      var j := TitledChunk(chunks, k);
    }
    if exists j :: 0 <= j < |chunks| && Titled(chunks[j], k) {
      var j :| 0 <= j < |chunks| && Titled(chunks[j], k);
      TitledChunkKey(chunks, j, k);
    }
  }

  /** A title among the sections' assignments comes from some chunk's first line. */
  lemma {:induction false} TitledChunk(chunks: seq<string>, k: string) returns (j: nat)
    requires HasKey(SectionEntries(chunks), k)
    ensures j < |chunks| && Titled(chunks[j], k)
    decreases |chunks|
  {
    var init := chunks[..|chunks| - 1];
    SectionEntriesLastKey(chunks, k);
    if Titled(chunks[|chunks| - 1], k) {
      j := |chunks| - 1;
    } else {
      j := TitledChunk(init, k);
      assert chunks[j] == init[j];
    }
  }

  /** The title of every chunk with a first line is among the sections' assignments. */
  lemma {:induction false} TitledChunkKey(chunks: seq<string>, j: nat, k: string)
    requires j < |chunks| && Titled(chunks[j], k)
    ensures HasKey(SectionEntries(chunks), k)
    decreases |chunks|
  {
    var init := chunks[..|chunks| - 1];
    SectionEntriesLastKey(chunks, k);
    if j < |init| {
      assert init[j] == chunks[j];
      TitledChunkKey(init, j, k);
    }
  }

  lemma SectionEntriesLastKey(chunks: seq<string>, k: string)
    requires chunks != []
    ensures HasKey(SectionEntries(chunks), k) <==>
      HasKey(SectionEntries(chunks[..|chunks| - 1]), k) || Titled(chunks[|chunks| - 1], k)
  {
    var r := SectionEntries(chunks);
    if SectionEntry(chunks[|chunks| - 1]).Some? {
      HasKeyInit(r, k);
      assert r[..|r| - 1] == SectionEntries(chunks[..|chunks| - 1]);
    }
  }

  /** The intro makes only the two fixed titles. */
  lemma IntroEntriesKeys(intro: string, k: string)
    ensures HasKey(IntroEntries(intro), k) <==>
      (k == MarketKey && MarketText(intro) != "") || (k == SportsKey && Contains(intro, SportsMarker))
  {
    IntroEntriesFacts(intro);
  }

  lemma HasKeyAppend(a: seq<Entry>, b: seq<Entry>, k: string)
    ensures HasKey(a + b, k) <==> HasKey(a, k) || HasKey(b, k)
  {
    if HasKey(a + b, k) {
      var i :| 0 <= i < |a + b| && (a + b)[i].key == k;
      if i < |a| { assert a[i].key == k; } else { assert b[i - |a|].key == k; }
    }
    if HasKey(a, k) {
      var i :| 0 <= i < |a| && a[i].key == k;
      assert (a + b)[i].key == k;
    }
    if HasKey(b, k) {
      var i :| 0 <= i < |b| && b[i].key == k;
      assert (a + b)[|a| + i].key == k;
    }
  }

  /**
   * The titles of the dict: "Market Update" when the intro has market text,
   * "Sports Check" when it has the marker, and the title of every section.
   */
  lemma ParsedKeys(content: string, k: string)
    ensures HasKey(Parsed(content), k) <==>
      (k == MarketKey && MarketText(Intro(content)) != "") ||
      (k == SportsKey && Contains(Intro(content), SportsMarker)) ||
      (exists j :: 0 <= j < |Sections(content)| && Titled(Sections(content)[j], k))
  {
    PutAllKeys([], Assignments(content), k);
    HasKeyAppend(IntroEntries(Intro(content)), SectionEntries(Sections(content)), k);
    IntroEntriesKeys(Intro(content), k);
    SectionEntriesKeys(Sections(content), k);
  }

  /** Without a delimiter and without the marker, the dict holds at most the market text. */
  lemma NoDelimiterNoMarker(content: string)
    requires !Contains(content, Delimiter) && !Contains(content, SportsMarker)
    ensures Parsed(content) == if MarketText(content) == "" then [] else [Entry(MarketKey, MarketText(content))]
  {
    SplitWithoutDelimiter(content, Delimiter);
    assert Intro(content) == content && Sections(content) == [];
    var es := Assignments(content);
    assert SportsEntries(content) == [];
    assert es == MarketEntries(content);
    if es != [] {
      assert es == [Entry(MarketKey, MarketText(content))];
    }
    PutAllFresh([], es);
  }

  /**
   * A title line the pattern describes, then a body with no space at either
   * end and no marker: the market text is exactly the body.
   */
  lemma MarketOfTitledIntro(gap: string, open: bool, name: string, close: bool, trail: string, body: string)
    requires HeadingParts(gap, name, trail)
    requires body != [] && !IsSpace(body[0]) && !IsSpace(body[|body| - 1])
    requires !close && trail == [] ==> body[0] != '*'
    requires !Contains(Heading(gap, open, name, close, trail) + body, SportsMarker)
    ensures MarketText(Heading(gap, open, name, close, trail) + body) == body
  {
    var h := Heading(gap, open, name, close, trail);
    assert h[0] == '#';
    TitleRemovedFromHeading(gap, open, name, close, trail, body);
    MarketOfHeadedText(h, body);
  }

  /** A marker-free intro that starts with `#` and ends with a body the title removal leaves: the body. */
  lemma MarketOfHeadedText(h: string, body: string)
    requires h != [] && h[0] == '#' && body != [] && IsStripped(body)
    requires RemoveTitle(h + body) == body && !Contains(h + body, SportsMarker)
    ensures MarketText(h + body) == body
  {
    assert !IsSpace(h[0]);
    StrippedConcat(h, body);
    StripStripped(h + body);
    MarketTextWithoutMarker(h + body);
    StripStripped(body);
  }

  /** Without a marker the whole intro is the market part. */
  lemma MarketTextWithoutMarker(intro: string)
    requires !Contains(intro, SportsMarker)
    ensures MarketText(intro) == Strip(RemoveTitle(Strip(intro)))
  {
    MarketCutSplits(intro);
    assert intro[..|intro|] == intro;
  }

  /**
   * The sports text is everything after the first marker, with every further
   * marker the left-to-right scan finds removed, whitespace-trimmed.
   */
  lemma SportsAfterMarker(intro: string, i: nat)
    requires Find(intro, SportsMarker) == Some(i)
    ensures SportsText(intro) == Some(Strip(Concat(SplitOn(intro[i + |SportsMarker|..], SportsMarker))))
  {
    var t := intro[i..];
    assert OccursAt(t, SportsMarker, 0);
    assert t[|SportsMarker|..] == intro[i + |SportsMarker|..];
    RemoveAllIsConcatOfSplit(t[|SportsMarker|..], SportsMarker);
  }

  /** With a single marker, the sports text is the rest of the intro after it, trimmed. */
  lemma SportsAfterOnlyMarker(intro: string, i: nat)
    requires Find(intro, SportsMarker) == Some(i)
    requires !Contains(intro[i + |SportsMarker|..], SportsMarker)
    ensures SportsText(intro) == Some(Strip(intro[i + |SportsMarker|..]))
  {
    var rest := intro[i + |SportsMarker|..];
    SportsAfterMarker(intro, i);
    SplitWithoutDelimiter(rest, SportsMarker);
    assert [rest][1..] == [];
    assert Concat([rest]) == rest + Concat([]);
    assert Concat([rest]) == rest;
  }

  /** The dict after the intro's assignments, as the method builds it. */
  lemma IntroPuts(intro: string)
    ensures PutAll([], MarketEntries(intro)) == if MarketText(intro) != "" then Put([], MarketKey, MarketText(intro)) else []
    ensures PutAll([], IntroEntries(intro)) ==
      match SportsText(intro)
      case None => PutAll([], MarketEntries(intro))
      case Some(sports) => Put(PutAll([], MarketEntries(intro)), SportsKey, sports)
  {
    OptionalPuts(MarketEntries(intro), SportsEntries(intro), MarketText(intro), SportsText(intro));
  }

  /** At most one market assignment, then at most one sports assignment, on a fresh dict. */
  lemma OptionalPuts(first: seq<Entry>, second: seq<Entry>, market: string, sports: Option<string>)
    requires first == if market != "" then [Entry(MarketKey, market)] else []
    requires second == match sports case None => [] case Some(x) => [Entry(SportsKey, x)]
    ensures PutAll([], first) == if market != "" then Put([], MarketKey, market) else []
    ensures PutAll([], first + second) ==
      match sports
      case None => PutAll([], first)
      case Some(x) => Put(PutAll([], first), SportsKey, x)
  {
    if first != [] {
      PutAllLast([], [], first[0]);
      assert [] + [first[0]] == first;
    }
    match sports
    case None =>
      assert first + second == first;
    case Some(x) =>
      PutAllLast([], first, Entry(SportsKey, x));
  }

  /** One more section chunk assigns its entry, if it makes one, after everything assigned so far. */
  lemma SectionStep(pre: seq<Entry>, chunks: seq<string>, i: nat)
    requires i < |chunks|
    ensures PutAll([], pre + SectionEntries(chunks[..i + 1])) ==
      match SectionEntry(chunks[i])
      case None => PutAll([], pre + SectionEntries(chunks[..i]))
      case Some(e) => Put(PutAll([], pre + SectionEntries(chunks[..i])), e.key, e.value)
  {
    assert chunks[..i + 1][..i] == chunks[..i];
    var a := SectionEntries(chunks[..i]);
    match SectionEntry(chunks[i])
    case None =>
      assert SectionEntries(chunks[..i + 1]) == a;
    case Some(e) =>
      assert SectionEntries(chunks[..i + 1]) == a + [e];
      assert pre + (a + [e]) == (pre + a) + [e];
      PutAllLast([], pre + a, e);
  }

  /**
   * `HTMLFormatter._parse_news_data`: fills the dict step by step, as the
   * method does, and ends with exactly the dict `Parsed` describes. `None`
   * stands for the Python `None` the caller may pass.
   */
  method ParseNewsData(markdownContent: Option<string>) returns (newsData: seq<Entry>)
    ensures markdownContent.None? ==> newsData == []
    ensures markdownContent.Some? ==> newsData == Parsed(markdownContent.value)
  {
    if markdownContent.None? || markdownContent.value == "" {
      if markdownContent.Some? {
        ParsedEmpty();
      }
      return [];
    }
    var content := markdownContent.value;
    var sections := SplitOn(content, Delimiter);
    var introContent := sections[0];
    sections := sections[1..];
    newsData := ParseIntro(introContent);
    newsData := ParseSections(newsData, sections, IntroEntries(introContent));
  }

  /**
   * The section loop of `_parse_news_data`: each chunk with a first line
   * assigns its body to its title, in order, after the intro's
   * assignments.
   */
  method ParseSections(start: seq<Entry>, sections: seq<string>, ghost done: seq<Entry>) returns (newsData: seq<Entry>)
    requires start == PutAll([], done)
    ensures newsData == PutAll([], done + SectionEntries(sections))
  {
    newsData := start;
    assert done + SectionEntries(sections[..0]) == done;
    var i := 0;
    while i < |sections|
      invariant 0 <= i <= |sections|
      invariant newsData == PutAll([], done + SectionEntries(sections[..i]))
    {
      SectionStep(done, sections, i);
      newsData := ParseSection(newsData, sections[i]);
      i := i + 1;
    }
    assert sections[..i] == sections;
  }

  /**
   * One pass of the section loop of `_parse_news_data`: a chunk with a first
   * line assigns its body to its title; any other chunk changes nothing.
   */
  method ParseSection(newsData: seq<Entry>, sectionContent: string) returns (r: seq<Entry>)
    ensures SectionEntry(sectionContent).None? ==> r == newsData
    ensures SectionEntry(sectionContent).Some? ==>
      r == Put(newsData, SectionEntry(sectionContent).value.key, SectionEntry(sectionContent).value.value)
  {
    r := newsData;
    if sectionContent != [] && sectionContent[0] != '\n' {
      var titleLine := FirstLine(sectionContent);
      var title := RemoveAll(Strip(titleLine), "*");
      var body := Strip(sectionContent[|titleLine|..]);
      r := Put(r, title, body);
    }
  }

  /** The intro block of `_parse_news_data`: the market and sports assignments on a fresh dict. */
  method ParseIntro(introContent: string) returns (newsData: seq<Entry>)
    ensures newsData == PutAll([], IntroEntries(introContent))
  {
    newsData := [];
    IntroPuts(introContent);
    var sportsCheckStart := Find(introContent, SportsMarker);
    var cut := if sportsCheckStart.Some? then sportsCheckStart.value else |introContent|;
    var marketDataRaw := Strip(introContent[..cut]);
    var marketData := Strip(RemoveTitle(marketDataRaw));
    if marketData != "" {
      newsData := Put(newsData, MarketKey, marketData);
    }
    if sportsCheckStart.Some? {
      var sportsDataRaw := introContent[sportsCheckStart.value..];
      var sportsData := Strip(RemoveAll(sportsDataRaw, SportsMarker));
      newsData := Put(newsData, SportsKey, sportsData);
    }
  }
}
