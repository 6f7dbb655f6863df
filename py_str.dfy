/**
 * The handful of Python `str` operations the section parser relies on:
 * `str.isspace`, `str.strip()`, `str.find`, `str.replace(p, "")` and
 * `re.split` on a pattern that is a plain literal.
 * Python strings are sequences of code points; here they are `seq<char>`.
 */
module PyStr {
  import opened Wrappers

  /** Python's `str.isspace` for a single code point (also what `\s` matches in a `str` regex). */
  predicate IsSpace(c: char) {
    var n := c as int;
    (0x09 <= n <= 0x0D) || (0x1C <= n <= 0x20) || n == 0x85 || n == 0xA0 || n == 0x1680
    || (0x2000 <= n <= 0x200A) || n == 0x2028 || n == 0x2029 || n == 0x202F
    || n == 0x205F || n == 0x3000
  }

  predicate AllSpace(s: string) {
    forall i :: 0 <= i < |s| ==> IsSpace(s[i])
  }

  /** Neither end of `s` is whitespace: what `str.strip()` guarantees of its result. */
  predicate IsStripped(s: string) {
    s == [] || (!IsSpace(s[0]) && !IsSpace(s[|s| - 1]))
  }

  /** `r` sits in `s` at offset `a`, and everything around it is whitespace. */
  predicate SpaceFramed(s: string, r: string, a: int) {
    && 0 <= a && a + |r| <= |s| && s[a..a + |r|] == r
    && (forall i :: 0 <= i < a ==> IsSpace(s[i]))
    && (forall i :: a + |r| <= i < |s| ==> IsSpace(s[i]))
  }

  /** `str.lstrip()`: drops leading whitespace. */
  function TrimStart(s: string): (r: string)
    ensures |r| <= |s| && (r == [] || !IsSpace(r[0]))
  {
    if s != [] && IsSpace(s[0]) then TrimStart(s[1..]) else s
  }

  /** `TrimStart` drops a prefix, and only whitespace. */
  lemma {:induction false} TrimStartDropsSpace(s: string)
    ensures TrimStart(s) == s[|s| - |TrimStart(s)|..]
    ensures forall i :: 0 <= i < |s| - |TrimStart(s)| ==> IsSpace(s[i])
  {
    if s != [] && IsSpace(s[0]) {
      TrimStartDropsSpace(s[1..]);
    }
  }

  /** `str.rstrip()`: drops trailing whitespace. */
  function TrimEnd(s: string): (r: string)
    ensures |r| <= |s| && (r == [] || !IsSpace(r[|r| - 1]))
  {
    if s != [] && IsSpace(s[|s| - 1]) then TrimEnd(s[..|s| - 1]) else s
  }

  /** `TrimEnd` drops a suffix, and only whitespace. */
  lemma {:induction false} TrimEndDropsSpace(s: string)
    ensures TrimEnd(s) == s[..|TrimEnd(s)|]
    ensures forall i :: |TrimEnd(s)| <= i < |s| ==> IsSpace(s[i])
  {
    if s != [] && IsSpace(s[|s| - 1]) {
      TrimEndDropsSpace(s[..|s| - 1]);
    }
  }

  /** `str.strip()` with no argument. */
  function Strip(s: string): (r: string)
    ensures IsStripped(r) && |r| <= |s|
  {
    var t := TrimStart(s);
    TrimEndDropsSpace(t);
    TrimEnd(t)
  }

  /** What `Strip` removes is whitespace, from both ends and nowhere else. */
  lemma StripFramed(s: string)
    ensures SpaceFramed(s, Strip(s), |s| - |TrimStart(s)|)
  {
    var t := TrimStart(s);
    TrimStartDropsSpace(s);
    TrimEndDropsSpace(t);
    SuffixFramed(s, t, TrimEnd(t));
  }

  /** Whitespace before a suffix `t`, and whitespace after a prefix `r` of `t`, frame `r` in `s`. */
  lemma SuffixFramed(s: string, t: string, r: string)
    requires |t| <= |s| && t == s[|s| - |t|..] && (forall i :: 0 <= i < |s| - |t| ==> IsSpace(s[i]))
    requires |r| <= |t| && r == t[..|r|] && (forall i :: |r| <= i < |t| ==> IsSpace(t[i]))
    ensures SpaceFramed(s, r, |s| - |t|)
  {
    var a := |s| - |t|;
    assert s[a..a + |r|] == t[..|r|];
    forall i | a + |r| <= i < |s| ensures IsSpace(s[i]) {
      assert s[i] == t[i - a];
    }
  }

  /** Leading whitespace up to a non-space character is exactly what `TrimStart` drops. */
  lemma {:induction false} TrimStartUnique(s: string, a: nat)
    requires a <= |s| && (forall i :: 0 <= i < a ==> IsSpace(s[i]))
    requires a == |s| || !IsSpace(s[a])
    ensures TrimStart(s) == s[a..]
  {
    if a > 0 {
      TrimStartUnique(s[1..], a - 1);
    }
  }

  /** Trailing whitespace back to a non-space character is exactly what `TrimEnd` drops. */
  lemma {:induction false} TrimEndUnique(s: string, b: nat)
    requires b <= |s| && (forall i :: b <= i < |s| ==> IsSpace(s[i]))
    requires b == 0 || !IsSpace(s[b - 1])
    ensures TrimEnd(s) == s[..b]
  {
    if b < |s| {
      TrimEndUnique(s[..|s| - 1], b);
      assert s[..|s| - 1][..b] == s[..b];
    }
  }

  /**
   * `Strip` is the only reading of `s` as whitespace, then a stripped infix, then whitespace:
   * an independent characterisation of what `str.strip()` returns.
   */
  lemma StripUnique(s: string, a: nat, b: nat)
    requires a <= b <= |s|
    requires (forall i :: 0 <= i < a ==> IsSpace(s[i])) && (forall i :: b <= i < |s| ==> IsSpace(s[i]))
    requires IsStripped(s[a..b])
    ensures Strip(s) == s[a..b]
  {
    if a < b {
      StripUniqueNonEmpty(s, a, b);
    } else {
      TrimStartUnique(s, |s|);
      TrimEndUnique([], 0);
    }
  }

  lemma StripUniqueNonEmpty(s: string, a: nat, b: nat)
    requires a < b <= |s|
    requires (forall i :: 0 <= i < a ==> IsSpace(s[i])) && (forall i :: b <= i < |s| ==> IsSpace(s[i]))
    requires !IsSpace(s[a]) && !IsSpace(s[b - 1])
    ensures Strip(s) == s[a..b]
  {
    TrimStartUnique(s, a);
    TrimEndOfSuffix(s, a, b);
  }

  lemma TrimEndOfSuffix(s: string, a: nat, b: nat)
    requires a < b <= |s|
    requires forall i :: b <= i < |s| ==> IsSpace(s[i])
    requires !IsSpace(s[b - 1])
    ensures TrimEnd(s[a..]) == s[a..b]
  {
    var t := s[a..];
    forall i | b - a <= i < |t| ensures IsSpace(t[i]) {
      assert t[i] == s[a + i];
    }
    assert t[b - a - 1] == s[b - 1];
    TrimEndUnique(t, b - a);
  }

  /** Stripping twice changes nothing. */
  lemma StripIdempotent(s: string)
    ensures Strip(Strip(s)) == Strip(s)
  {
    StripStripped(Strip(s));
  }

  /** Gluing a text that starts with no whitespace before a non-empty stripped one gives a stripped text. */
  lemma StrippedConcat(x: string, y: string)
    requires x != [] && !IsSpace(x[0]) && y != [] && IsStripped(y)
    ensures IsStripped(x + y)
  {
    assert (x + y)[0] == x[0];
    assert (x + y)[|x + y| - 1] == y[|y| - 1];
  }

  /** A text with no whitespace at either end is its own strip. */
  lemma StripStripped(s: string)
    requires IsStripped(s)
    ensures Strip(s) == s
  {
    assert s[0..|s|] == s;
    StripUnique(s, 0, |s|);
  }

  /** An occurrence of `p` in `s` starting at index `i`. */
  predicate OccursAt(s: string, p: string, i: int) {
    0 <= i && i + |p| <= |s| && s[i..i + |p|] == p
  }

  /** Python's `p in s`. */
  predicate Contains(s: string, p: string) {
    exists i :: 0 <= i <= |s| && OccursAt(s, p, i)
  }

  function FindFrom(s: string, p: string, i: nat): (r: Option<nat>)
    requires i <= |s|
    ensures r.Some? ==> i <= r.value && OccursAt(s, p, r.value)
    ensures r.Some? ==> forall j :: i <= j < r.value ==> !OccursAt(s, p, j)
    ensures r.None? ==> forall j :: i <= j ==> !OccursAt(s, p, j)
    decreases |s| - i
  {
    if |s| < i + |p| then None
    else if s[i..i + |p|] == p then Some(i)
    else FindFrom(s, p, i + 1)
  }

  /** `s.find(p)`: the first index of `p` in `s`; None stands for Python's -1. */
  function Find(s: string, p: string): (r: Option<nat>)
    ensures r.Some? ==> OccursAt(s, p, r.value) && forall j :: 0 <= j < r.value ==> !OccursAt(s, p, j)
    ensures r.None? ==> forall j :: 0 <= j ==> !OccursAt(s, p, j)
  {
    FindFrom(s, p, 0)
  }

  /** `s.find(p) == -1` exactly when `p not in s`. */
  lemma FindNoneIffAbsent(s: string, p: string)
    ensures Find(s, p).None? <==> !Contains(s, p)
  {
    if Find(s, p).Some? {
      assert OccursAt(s, p, Find(s, p).value);
    }
  }

  /**
   * `re.split(d, s)` for a pattern `d` that matches only itself: the pieces between
   * the non-overlapping occurrences of `d`, scanning left to right.
   */
  function SplitOn(s: string, d: string): (r: seq<string>)
    requires |d| > 0
    ensures |r| >= 1
    decreases |s|
  {
    match Find(s, d)
    case None => [s]
    case Some(i) => [s[..i]] + SplitOn(s[i + |d|..], d)
  }

  /** `d.join(parts)`. */
  function Join(parts: seq<string>, d: string): string
    requires |parts| >= 1
  {
    if |parts| == 1 then parts[0] else parts[0] + d + Join(parts[1..], d)
  }

  /** `"".join(parts)`. */
  function Concat(parts: seq<string>): string {
    if parts == [] then "" else parts[0] + Concat(parts[1..])
  }

  /** One step of a split: the piece before the first delimiter, then the split of the rest. */
  lemma SplitStep(s: string, d: string, i: nat)
    requires |d| > 0 && Find(s, d) == Some(i)
    ensures SplitOn(s, d) == [s[..i]] + SplitOn(s[i + |d|..], d)
  {
  }

  lemma JoinStep(parts: seq<string>, d: string)
    requires |parts| >= 2
    ensures Join(parts, d) == parts[0] + d + Join(parts[1..], d)
  {
  }

  lemma SplitJoinStep(s: string, d: string, i: nat)
    requires |d| > 0 && Find(s, d) == Some(i)
    ensures Join(SplitOn(s, d), d) == s[..i] + d + Join(SplitOn(s[i + |d|..], d), d)
    ensures s == s[..i] + d + s[i + |d|..]
  {
    SplitStep(s, d, i);
    JoinCons(s[..i], SplitOn(s[i + |d|..], d), d);
    OccurrenceSplits(s, d, i);
  }

  lemma JoinCons(x: string, rest: seq<string>, d: string)
    requires |rest| >= 1
    ensures Join([x] + rest, d) == x + d + Join(rest, d)
  {
    assert ([x] + rest)[1..] == rest;
  }

  lemma OccurrenceSplits(s: string, d: string, i: nat)
    requires OccursAt(s, d, i)
    ensures s == s[..i] + d + s[i + |d|..]
  {
    assert s[..i] + d == s[..i + |d|];
  }

  /** Splitting loses nothing: joining the pieces with the delimiter gives back the input. */
  lemma {:induction false} SplitJoin(s: string, d: string)
    requires |d| > 0
    ensures Join(SplitOn(s, d), d) == s
    decreases |s|
  {
    match Find(s, d)
    case None =>
    case Some(i) =>
      SplitJoin(s[i + |d|..], d);
      SplitJoinStep(s, d, i);
  }

  lemma NoOccurrenceInPrefix(s: string, p: string, i: nat)
    requires i <= |s|
    requires forall j :: 0 <= j < i ==> !OccursAt(s, p, j)
    requires |p| > 0
    ensures !Contains(s[..i], p)
  {
    forall j | OccursAt(s[..i], p, j) ensures false {
      assert s[..i][j..j + |p|] == s[j..j + |p|];
      assert OccursAt(s, p, j);
    }
  }

  /** No piece of a split contains the delimiter. */
  lemma {:induction false} SplitPiecesFree(s: string, d: string)
    requires |d| > 0
    ensures forall k :: 0 <= k < |SplitOn(s, d)| ==> !Contains(SplitOn(s, d)[k], d)
    decreases |s|
  {
    match Find(s, d)
    case None =>
    case Some(i) =>
      NoOccurrenceInPrefix(s, d, i);
      SplitPiecesFree(s[i + |d|..], d);
      SplitStep(s, d, i);
      PiecesFreeCons(s[..i], SplitOn(s[i + |d|..], d), d);
  }

  lemma PiecesFreeCons(x: string, rest: seq<string>, d: string)
    requires !Contains(x, d)
    requires forall k :: 0 <= k < |rest| ==> !Contains(rest[k], d)
    ensures forall k :: 0 <= k < |[x] + rest| ==> !Contains(([x] + rest)[k], d)
  {
    forall k | 1 <= k < |[x] + rest| ensures !Contains(([x] + rest)[k], d) {
      assert ([x] + rest)[k] == rest[k - 1];
    }
  }

  /** A text without the delimiter is one piece: the whole text. */
  lemma SplitWithoutDelimiter(s: string, d: string)
    requires |d| > 0 && !Contains(s, d)
    ensures SplitOn(s, d) == [s]
  {
  }

  /**
   * `s.replace(p, "")`: removes the non-overlapping occurrences of `p` found
   * by a left-to-right scan (occurrences the removal itself creates stay).
   */
  function RemoveAll(s: string, p: string): string
    requires |p| > 0
    decreases |s|
  {
    if s == [] then []
    else if OccursAt(s, p, 0) then RemoveAll(s[|p|..], p)
    else [s[0]] + RemoveAll(s[1..], p)
  }

  lemma {:induction false} RemoveAllSkip(s: string, p: string, k: nat)
    requires |p| > 0 && k <= |s|
    requires forall j :: 0 <= j < k ==> !OccursAt(s, p, j)
    ensures RemoveAll(s, p) == s[..k] + RemoveAll(s[k..], p)
    decreases k
  {
    if k > 0 {
      assert !OccursAt(s, p, 0);
      forall j | 0 <= j < k - 1 ensures !OccursAt(s[1..], p, j) {
        if OccursAt(s[1..], p, j) {
          assert s[1..][j..j + |p|] == s[j + 1..j + 1 + |p|];
          assert OccursAt(s, p, j + 1);
        }
      }
      RemoveAllSkip(s[1..], p, k - 1);
      assert s[1..][k - 1..] == s[k..];
      assert s[..k] == [s[0]] + s[1..][..k - 1];
    }
  }

  /** `s.replace(p, "")` equals `"".join(re.split(p, s))`: the scan and the split agree. */
  lemma {:induction false} RemoveAllIsConcatOfSplit(s: string, p: string)
    requires |p| > 0
    ensures RemoveAll(s, p) == Concat(SplitOn(s, p))
    decreases |s|
  {
    match Find(s, p)
    case None =>
      RemoveAllSkip(s, p, |s|);
      assert s[..|s|] == s;
    case Some(i) =>
      RemoveAllSkip(s, p, i);
      RemoveAllAtOccurrence(s[i..], p);
      assert s[i..][|p|..] == s[i + |p|..];
      RemoveAllIsConcatOfSplit(s[i + |p|..], p);
      SplitStep(s, p, i);
      ConcatCons(s[..i], SplitOn(s[i + |p|..], p));
  }

  lemma RemoveAllAtOccurrence(t: string, p: string)
    requires |p| > 0 && OccursAt(t, p, 0)
    ensures RemoveAll(t, p) == RemoveAll(t[|p|..], p)
  {
  }

  lemma ConcatCons(x: string, rest: seq<string>)
    ensures Concat([x] + rest) == x + Concat(rest)
  {
    assert ([x] + rest)[1..] == rest;
  }

  /** Removing a one-character pattern leaves no occurrence of that character. */
  lemma {:induction false} RemoveCharGone(s: string, c: char)
    ensures forall i :: 0 <= i < |RemoveAll(s, [c])| ==> RemoveAll(s, [c])[i] != c
    decreases |s|
  {
    if s != [] {
      RemoveCharGone(s[1..], c);
      if OccursAt(s, [c], 0) {
        assert s[1..] == s[|[c]|..];
      } else {
        assert s[0..1] == [s[0]];
      }
    }
  }

  /** The number of (possibly overlapping) positions at which `d` occurs in `s`. */
  function CountOccurrences(s: string, d: string): nat
    requires |d| > 0
    decreases |s|
  {
    if |s| < |d| then 0
    else (if OccursAt(s, d, 0) then 1 else 0) + CountOccurrences(s[1..], d)
  }

  /** A delimiter whose first character does not occur again in it cannot overlap itself. */
  predicate NonSelfOverlapping(d: string) {
    |d| > 0 && forall m :: 0 < m < |d| ==> d[m] != d[0]
  }

  lemma {:induction false} CountSkip(s: string, d: string, k: nat)
    requires |d| > 0 && k <= |s|
    requires forall j :: 0 <= j < k ==> !OccursAt(s, d, j)
    ensures CountOccurrences(s, d) == CountOccurrences(s[k..], d)
    decreases k
  {
    if k > 0 {
      forall j | 0 <= j < k - 1 ensures !OccursAt(s[1..], d, j) {
        if OccursAt(s[1..], d, j) {
          assert s[1..][j..j + |d|] == s[j + 1..j + 1 + |d|];
          assert OccursAt(s, d, j + 1);
        }
      }
      CountSkip(s[1..], d, k - 1);
      assert s[1..][k - 1..] == s[k..];
      if |s| < |d| {
        assert |s[k..]| < |d|;
      }
    }
  }

  /** An occurrence of a non-self-overlapping `d` at the start accounts for exactly one count. */
  lemma CountAtOccurrence(t: string, d: string)
    requires NonSelfOverlapping(d) && OccursAt(t, d, 0)
    ensures CountOccurrences(t, d) == 1 + CountOccurrences(t[|d|..], d)
  {
    var u := t[1..];
    ShiftedOccurrenceFree(t, d);
    assert CountOccurrences(t, d) == 1 + CountOccurrences(u, d);
    CountSkip(u, d, |d| - 1);
    assert u[|d| - 1..] == t[|d|..];
  }

  /** Right after an occurrence of a non-self-overlapping `d` starts, `d` cannot start again inside it. */
  lemma ShiftedOccurrenceFree(t: string, d: string)
    requires NonSelfOverlapping(d) && OccursAt(t, d, 0)
    ensures forall j :: 0 <= j < |d| - 1 ==> !OccursAt(t[1..], d, j)
  {
    forall j | 0 <= j < |d| - 1 ensures !OccursAt(t[1..], d, j) {
      assert t[1..][j] == t[..|d|][j + 1];
    }
  }

  lemma CountStep(s: string, d: string, i: nat)
    requires NonSelfOverlapping(d) && Find(s, d) == Some(i)
    ensures CountOccurrences(s, d) == 1 + CountOccurrences(s[i + |d|..], d)
  {
    CountSkip(s, d, i);
    assert s[i..][..|d|] == s[i..i + |d|];
    CountAtOccurrence(s[i..], d);
    assert s[i..][|d|..] == s[i + |d|..];
  }

  lemma CountNone(s: string, d: string)
    requires |d| > 0 && Find(s, d) == None
    ensures CountOccurrences(s, d) == 0
  {
    CountSkip(s, d, |s|);
    assert s[|s|..] == [];
  }

  /** For a delimiter that cannot overlap itself, a split has one more piece than there are occurrences. */
  lemma {:induction false} SplitCount(s: string, d: string)
    requires NonSelfOverlapping(d)
    ensures |SplitOn(s, d)| == 1 + CountOccurrences(s, d)
    decreases |s|
  {
    match Find(s, d)
    case None =>
      CountNone(s, d);
    case Some(i) =>
      SplitCount(s[i + |d|..], d);
      CountStep(s, d, i);
      SplitStep(s, d, i);
  }
}
