/** The fixed regular expressions of the analyzer and its display helpers.
    Each one is a sequence of atoms, an atom being a character class repeated
    between a minimum and a maximum number of times, greedily (most
    repetitions first) or lazily (fewest first). `MatchAt` tries the
    repetition counts of each atom in that order and backtracks into them when
    the rest of the pattern fails, which is how a JavaScript RegExp matches a
    pattern without alternation or groups; `InLang` is the set of strings a
    pattern describes, and the two are tied by `Sound` and `Complete`. */
module Patterns {
  import opened Wrappers
  import opened Strings

  /** The character classes the patterns use. */
  datatype CharClass =
    | Single(c: char)          // one literal character
    | AnyOf(cs: seq<char>)     // a bracket class such as `[AP]`
    | Digit                    // `\d`
    | NonSpace                 // `[^\s]`
    | NotLineTerminator        // `.` (no `s` flag)

  predicate InClass(k: CharClass, c: char) {
    match k
    case Single(d) => c == d
    case AnyOf(cs) => c in cs
    case Digit => IsDigit(c)
    case NonSpace => !IsWhitespace(c)
    case NotLineTerminator => !IsLineTerminator(c)
  }

  /** `cls{min,max}` (`max == None` is unbounded), greedy or lazy. */
  datatype Atom = Atom(cls: CharClass, min: nat, max: Option<nat>, greedy: bool)

  type Pattern = seq<Atom>

  /** A match: the text `s[start..end]`. */
  datatype Span = Span(start: nat, end: nat)

  function Lit(c: char): Atom { Atom(Single(c), 1, Some(1), true) }
  function Digits(min: nat, max: nat): Atom { Atom(Digit, min, Some(max), true) }
  function Optional(c: char): Atom { Atom(Single(c), 0, Some(1), true) }
  function OneOf(cs: seq<char>): Atom { Atom(AnyOf(cs), 1, Some(1), true) }
  const NonSpaces: Atom := Atom(NonSpace, 1, None, true)   // `[^\s]+`
  const LazyDots: Atom := Atom(NotLineTerminator, 0, None, false)   // `.*?`

  /** The most repetitions an atom may take when `room` characters are left. */
  function Limit(a: Atom, room: nat): (n: nat)
    ensures n <= room && (a.max.Some? ==> n <= a.max.value)
    ensures a.max.None? || room <= a.max.value ==> n == room
  {
    match a.max
    case None => room
    case Some(m) => if m < room then m else room
  }

  /** The length of the run of `k`-characters at `i`, at most `limit`. */
  function Run(s: string, i: nat, k: CharClass, limit: nat): (n: nat)
    requires i + limit <= |s|
    ensures n <= limit
    ensures forall m :: i <= m < i + n ==> InClass(k, s[m])
    ensures n == limit || !InClass(k, s[i + n])
    decreases limit
  {
    if limit == 0 || !InClass(k, s[i]) then 0 else 1 + Run(s, i + 1, k, limit - 1)
  }

  /** `hi, hi - 1, ..., lo`. */
  function Down(hi: nat, lo: nat): (r: seq<nat>)
    requires lo <= hi
    ensures |r| == hi - lo + 1 && forall k :: 0 <= k < |r| ==> r[k] == hi - k
  {
    seq(hi - lo + 1, k requires 0 <= k <= hi - lo => hi - k)
  }

  /** `lo, lo + 1, ..., hi`. */
  function Up(lo: nat, hi: nat): (r: seq<nat>)
    requires lo <= hi
    ensures |r| == hi - lo + 1 && forall k :: 0 <= k < |r| ==> r[k] == lo + k
  {
    seq(hi - lo + 1, k requires 0 <= k <= hi - lo => lo + k)
  }

  /** The repetition counts an atom tries, in the order it tries them, when
      the run of its class is `run` long: each count once, none outside
      `[min, run]`. */
  function Counts(a: Atom, run: nat): (r: seq<nat>)
    requires a.min <= run
    ensures forall k :: 0 <= k < |r| ==> a.min <= r[k] <= run
    ensures forall n :: a.min <= n <= run ==> n in r
  {
    var r := if a.greedy then Down(run, a.min) else Up(a.min, run);
    forall n | a.min <= n <= run ensures n in r {
      assert r[if a.greedy then run - n else n - a.min] == n;
    }
    r
  }

  /** `t[..n]` is `n` characters of atom `a`'s class, a count `a` allows. */
  ghost predicate Fits(a: Atom, t: string, n: nat) {
    && a.min <= n <= |t|
    && (a.max.None? || n <= a.max.value)
    && forall m :: 0 <= m < n ==> InClass(a.cls, t[m])
  }

  /** The repetition counts the first atom of `p` tries at `i`, in order. */
  function Tries(p: Pattern, s: string, i: nat): (r: seq<nat>)
    requires i <= |s|
    ensures |r| <= |s| - i + 1
    ensures p != [] ==> forall k :: 0 <= k < |r| ==> p[0].min <= r[k] && i + r[k] <= |s|
  {
    if p == [] then []
    else
      var run := Run(s, i, p[0].cls, Limit(p[0], |s| - i));
      if run < p[0].min then [] else Counts(p[0], run)
  }

  /** Every count tried fits. */
  lemma TriesFit(p: Pattern, s: string, i: nat, k: nat)
    requires i <= |s| && p != [] && k < |Tries(p, s, i)|
    ensures Fits(p[0], s[i..], Tries(p, s, i)[k])
  {
    var n := Tries(p, s, i)[k];
    forall m | 0 <= m < n ensures InClass(p[0].cls, s[i..][m]) {
      assert s[i..][m] == s[i + m];
    }
  }

  /** Every count that fits is tried. */
  lemma TriesCover(p: Pattern, s: string, i: nat, n: nat) returns (k: nat)
    requires i <= |s| && p != [] && Fits(p[0], s[i..], n)
    ensures k < |Tries(p, s, i)| && Tries(p, s, i)[k] == n
  {
    var run := Run(s, i, p[0].cls, Limit(p[0], |s| - i));
    assert n <= run;
    var r := Tries(p, s, i);
    assert n in r;
    k :| 0 <= k < |r| && r[k] == n;
  }

  /** Where the match of `p` that starts at `i` ends, trying the first atom's
      counts from index `c` of `Tries(p, s, i)` on and backtracking to the
      next count whenever the rest of the pattern fails. */
  function MatchFrom(p: Pattern, s: string, i: nat, c: nat): (r: Option<nat>)
    requires i <= |s|
    ensures r.Some? ==> i <= r.value <= |s|
    ensures r.Some? && p != [] ==> i + p[0].min <= r.value
    decreases |p|, |s| + 1 - c
  {
    if p == [] then Some(i)
    else
      var counts := Tries(p, s, i);
      if c >= |counts| then None
      else
        var r := MatchFrom(p[1..], s, i + counts[c], 0);
        if r.Some? then r else MatchFrom(p, s, i, c + 1)
  }

  /** Where the leftmost-priority match of `p` starting at `i` ends, if any. */
  function MatchAt(p: Pattern, s: string, i: nat): (r: Option<nat>)
    requires i <= |s|
    ensures r.Some? ==> i <= r.value <= |s|
    ensures r.Some? && p != [] ==> i + p[0].min <= r.value
  {
    MatchFrom(p, s, i, 0)
  }

  /** The rest of `p` matches after the first atom takes count number `m`. */
  predicate RestMatches(p: Pattern, s: string, i: nat, m: nat)
    requires i <= |s| && p != []
  {
    m < |Tries(p, s, i)| && MatchAt(p[1..], s, i + Tries(p, s, i)[m]).Some?
  }

  /** Backtracking into the first atom: the first count index `k`, from `c`
      on, after whose count the rest of the pattern matches (or the number of
      counts when there is none). */
  lemma {:induction false} FirstFit(p: Pattern, s: string, i: nat, c: nat) returns (k: nat)
    requires i <= |s| && p != []
    ensures c <= k
    ensures k < |Tries(p, s, i)| ==> RestMatches(p, s, i, k)
    ensures forall m :: c <= m < k ==> !RestMatches(p, s, i, m)
    ensures MatchFrom(p, s, i, c) ==
      if k < |Tries(p, s, i)| then MatchAt(p[1..], s, i + Tries(p, s, i)[k]) else None
    decreases |Tries(p, s, i)| - c
  {
    if c >= |Tries(p, s, i)| || RestMatches(p, s, i, c) {
      k := c;
    } else {
      ghost var here := RestMatches(p, s, i, c);
      k := FirstFit(p, s, i, c + 1);
      forall m | c <= m < k ensures !RestMatches(p, s, i, m) {
        if m == c {
          assert !here;
        }
      }
    }
    FitResult(p, s, i, c, k);
  }

  /** `MatchFrom` goes past the counts whose rest fails and returns the
      match after the first one whose rest succeeds. */
  lemma FitResult(p: Pattern, s: string, i: nat, c: nat, k: nat)
    requires i <= |s| && p != [] && c <= k
    requires k < |Tries(p, s, i)| ==> RestMatches(p, s, i, k)
    requires forall m :: c <= m < k ==> !RestMatches(p, s, i, m)
    ensures MatchFrom(p, s, i, c) ==
      if k < |Tries(p, s, i)| then MatchAt(p[1..], s, i + Tries(p, s, i)[k]) else None
  {
    var t := |Tries(p, s, i)|;
    if k < t {
      SkipMany(p, s, i, c, k);
      CountFits(p, s, i, k);
    } else if c >= t {
      NoCountLeft(p, s, i, c);
    } else {
      SkipMany(p, s, i, c, t);
      NoCountLeft(p, s, i, t);
    }
  }

  /** The counts from `c` to `k` whose rest fails are all skipped. */
  lemma SkipMany(p: Pattern, s: string, i: nat, c: nat, k: nat)
    requires i <= |s| && p != [] && c <= k <= |Tries(p, s, i)|
    requires forall m :: c <= m < k ==> !RestMatches(p, s, i, m)
    ensures MatchFrom(p, s, i, c) == MatchFrom(p, s, i, k)
  {
    forall m | c <= m < k ensures MatchFrom(p, s, i, m) == MatchFrom(p, s, i, m + 1) {
      SkipOne(p, s, i, m);
    }
    var f := (m: nat) => MatchFrom(p, s, i, m);
    SameAlong(f, c, k);
  }

  /** Equal neighbours from `c` to `k`: the ends agree. */
  lemma {:induction false} SameAlong<T>(f: nat -> T, c: nat, k: nat)
    requires c <= k && forall m :: c <= m < k ==> f(m) == f(m + 1)
    ensures f(c) == f(k)
    decreases k - c
  {
    if c < k {
      SameAlong(f, c + 1, k);
    }
  }

  /** Past the last count there is no match. */
  lemma NoCountLeft(p: Pattern, s: string, i: nat, c: nat)
    requires i <= |s| && p != [] && |Tries(p, s, i)| <= c
    ensures MatchFrom(p, s, i, c).None?
  {
  }

  /** A count after which the rest matches gives the match. */
  lemma CountFits(p: Pattern, s: string, i: nat, c: nat)
    requires i <= |s| && p != [] && RestMatches(p, s, i, c)
    ensures MatchFrom(p, s, i, c) == MatchAt(p[1..], s, i + Tries(p, s, i)[c])
  {
  }

  /** A count whose rest fails is skipped. */
  lemma SkipOne(p: Pattern, s: string, i: nat, c: nat)
    requires i <= |s| && p != [] && c < |Tries(p, s, i)| && !RestMatches(p, s, i, c)
    ensures MatchFrom(p, s, i, c) == MatchFrom(p, s, i, c + 1)
  {
  }

  /** The strings pattern `p` describes: each atom in turn takes a count it
      allows of characters of its class. */
  ghost predicate InLang(p: Pattern, t: string)
    decreases |p|
  {
    if p == [] then t == []
    else exists n: nat :: Fits(p[0], t, n) && InLang(p[1..], t[n..])
  }

  /** Whether a count fits depends only on the characters it covers. */
  lemma FitsPrefix(a: Atom, t: string, u: string, n: nat)
    requires n <= |t| && n <= |u| && t[..n] == u[..n]
    ensures Fits(a, t, n) <==> Fits(a, u, n)
  {
    assert forall m :: 0 <= m < n ==> t[m] == t[..n][m] && u[m] == u[..n][m];
  }

  /** One step of the language: a fitting count followed by a string of the rest. */
  lemma InLangCons(p: Pattern, t: string, n: nat)
    requires p != [] && Fits(p[0], t, n) && InLang(p[1..], t[n..])
    ensures InLang(p, t)
  {
  }

  /** A match of `p` is a fitting count of its first atom followed by a match
      of the rest. */
  lemma FirstStep(p: Pattern, s: string, i: nat) returns (n: nat)
    requires i <= |s| && p != [] && MatchAt(p, s, i).Some?
    ensures i + n <= |s| && Fits(p[0], s[i..], n)
    ensures MatchAt(p[1..], s, i + n) == MatchAt(p, s, i)
  {
    var k := MatchCount(p, s, i);
    n := Tries(p, s, i)[k];
    TriesFit(p, s, i, k);
  }

  /** A match of `p` goes through the count number `k` of the first atom,
      the first count after which the rest of the pattern matches. */
  lemma MatchCount(p: Pattern, s: string, i: nat) returns (k: nat)
    requires i <= |s| && p != [] && MatchAt(p, s, i).Some?
    ensures k < |Tries(p, s, i)| && MatchAt(p[1..], s, i + Tries(p, s, i)[k]) == MatchAt(p, s, i)
    ensures forall m :: 0 <= m < k ==> !RestMatches(p, s, i, m)
  {
    k := FirstFit(p, s, i, 0);
  }

  /** What `MatchAt` matches is a string of the pattern's language. */
  lemma {:induction false} Sound(p: Pattern, s: string, i: nat)
    requires i <= |s| && MatchAt(p, s, i).Some?
    ensures InLang(p, s[i..MatchAt(p, s, i).value])
    decreases |p|, 1
  {
    var j := MatchAt(p, s, i).value;
    if p == [] {
      EmptyPattern(s, i);
    } else {
      var n := FirstStep(p, s, i);
      SoundCons(p, s, i, n, j);
    }
  }

  /** A fitting count of the first atom followed by a match of the rest is a
      string of the pattern. */
  lemma {:induction false} SoundCons(p: Pattern, s: string, i: nat, n: nat, j: nat)
    requires p != [] && i + n <= |s| && Fits(p[0], s[i..], n)
    requires MatchAt(p[1..], s, i + n) == Some(j)
    ensures i + n <= j <= |s| && InLang(p, s[i..j])
    decreases |p|, 0
  {
    Sound(p[1..], s, i + n);
    JoinStep(p, s, i, n, j);
  }

  /** The empty pattern matches the empty string, and only that. */
  lemma EmptyPattern(s: string, i: nat)
    requires i <= |s|
    ensures MatchAt([], s, i) == Some(i) && InLang([], s[i..i])
  {
  }

  /** A fitting count at `i` followed by a string of the rest of the pattern
      makes a string of the pattern. */
  lemma JoinStep(p: Pattern, s: string, i: nat, n: nat, j: nat)
    requires p != [] && i + n <= j <= |s|
    requires Fits(p[0], s[i..], n) && InLang(p[1..], s[i + n..j])
    ensures InLang(p, s[i..j])
  {
    var t := s[i..j];
    assert t[n..] == s[i + n..j];
    assert t[..n] == s[i..][..n];
    FitsPrefix(p[0], t, s[i..], n);
    InLangCons(p, t, n);
  }

  /** The converse step: a string of the language splits after a fitting
      count of the first atom. */
  lemma InLangUncons(p: Pattern, t: string) returns (n: nat)
    requires p != [] && InLang(p, t)
    ensures Fits(p[0], t, n) && InLang(p[1..], t[n..])
  {
    n :| Fits(p[0], t, n) && InLang(p[1..], t[n..]);
  }

  /** If the rest matches after some count the first atom tries, the whole
      pattern matches. */
  lemma BacktrackFinds(p: Pattern, s: string, i: nat, c: nat)
    requires i <= |s| && p != [] && RestMatches(p, s, i, c)
    ensures MatchAt(p, s, i).Some?
  {
    var k := FirstFit(p, s, i, 0);
    assert k <= c;
  }

  /** Whenever some string of the language starts at `i`, `MatchAt` finds a
      match there: the backtracking misses nothing. */
  lemma {:induction false} Complete(p: Pattern, s: string, i: nat, j: nat)
    requires i <= j <= |s| && InLang(p, s[i..j])
    ensures MatchAt(p, s, i).Some?
    decreases |p|
  {
    if p != [] {
      var n := SplitStep(p, s, i, j);
      Complete(p[1..], s, i + n, j);
      CompleteStep(p, s, i, n);
    }
  }

  /** A fitting count after which the rest matches is one the backtracking
      reaches. */
  lemma CompleteStep(p: Pattern, s: string, i: nat, n: nat)
    requires p != [] && i + n <= |s| && Fits(p[0], s[i..], n)
    requires MatchAt(p[1..], s, i + n).Some?
    ensures MatchAt(p, s, i).Some?
  {
    var c := TriesCover(p, s, i, n);
    assert i + Tries(p, s, i)[c] == i + n;
    assert RestMatches(p, s, i, c);
    BacktrackFinds(p, s, i, c);
  }

  /** A string of the pattern at `i` is a fitting count of the first atom
      followed by a string of the rest. */
  lemma SplitStep(p: Pattern, s: string, i: nat, j: nat) returns (n: nat)
    requires p != [] && i <= j <= |s| && InLang(p, s[i..j])
    ensures i + n <= j && Fits(p[0], s[i..], n) && InLang(p[1..], s[i + n..j])
  {
    var t := s[i..j];
    n := InLangUncons(p, t);
    assert t[n..] == s[i + n..j];
    assert t[..n] == s[i..][..n];
    FitsPrefix(p[0], t, s[i..], n);
  }

  /** `s.match(re)` without the `g` flag: the leftmost position, from `from`
      on, where the pattern matches, and the end of that match. */
  function FindFirst(p: Pattern, s: string, from: nat): (r: Option<Span>)
    requires from <= |s|
    ensures r.Some? ==> from <= r.value.start <= r.value.end <= |s|
    ensures r.Some? ==> MatchAt(p, s, r.value.start) == Some(r.value.end)
    decreases |s| - from
  {
    match MatchAt(p, s, from)
    case Some(e) => Some(Span(from, e))
    case None => if from == |s| then None else FindFirst(p, s, from + 1)
  }

  /** No match starts before the one `FindFirst` reports, nor anywhere from
      `from` on when it reports none. */
  lemma {:induction false} NoEarlierMatch(p: Pattern, s: string, from: nat, k: nat)
    requires from <= k <= |s|
    requires FindFirst(p, s, from).None? || k < FindFirst(p, s, from).value.start
    ensures MatchAt(p, s, k).None?
    decreases |s| - from
  {
    FindFirstStep(p, s, from);
    if from < k {
      NoEarlierMatch(p, s, from + 1, k);
    }
  }

  /** One step of the scan: a match at `from`, or the scan from `from + 1`. */
  lemma FindFirstStep(p: Pattern, s: string, from: nat)
    requires from <= |s|
    ensures MatchAt(p, s, from).Some? ==> FindFirst(p, s, from) == Some(Span(from, MatchAt(p, s, from).value))
    ensures MatchAt(p, s, from).None? && from < |s| ==> FindFirst(p, s, from) == FindFirst(p, s, from + 1)
  {
  }

  /** The scan from 0 finds the match at 1 when none starts at 0. */
  lemma SecondStart(p: Pattern, s: string, e: nat)
    requires 1 <= |s| && MatchAt(p, s, 0).None? && MatchAt(p, s, 1) == Some(e)
    ensures FindFirst(p, s, 0) == Some(Span(1, e))
  {
    FindFirstStep(p, s, 0);
    FindFirstStep(p, s, 1);
  }

  /** `s[q..j]` is a string of the language and none starts further left. */
  ghost predicate FirstIn(p: Pattern, s: string, q: nat, j: nat) {
    && q <= j <= |s| && InLang(p, s[q..j])
    && forall q': nat, j': nat :: q' < q && q' <= j' <= |s| ==> !InLang(p, s[q'..j'])
  }

  /** No substring of `s` is a string of the language. */
  ghost predicate Absent(p: Pattern, s: string) {
    forall q: nat, j: nat :: q <= j <= |s| ==> !InLang(p, s[q..j])
  }

  /** A string of the language inside `s` means `s` is not free of it. */
  lemma Present(p: Pattern, s: string, q: nat, j: nat)
    requires q <= j <= |s| && InLang(p, s[q..j])
    ensures !Absent(p, s)
  {
  }

  /** The match `FindFirst` reports is a string of the language, and no
      string of the language starts further left. */
  lemma Leftmost(p: Pattern, s: string)
    ensures FindFirst(p, s, 0).Some? ==>
      FirstIn(p, s, FindFirst(p, s, 0).value.start, FindFirst(p, s, 0).value.end)
    ensures FindFirst(p, s, 0).None? <==> Absent(p, s)
  {
    var r := FindFirst(p, s, 0);
    if r.Some? {
      Sound(p, s, r.value.start);
    }
    forall q: nat, j: nat | q <= j <= |s| && (r.None? || q < r.value.start) ensures !InLang(p, s[q..j]) {
      if InLang(p, s[q..j]) {
        Complete(p, s, q, j);
        NoEarlierMatch(p, s, 0, q);
      }
    }
  }

  /** `s.match(re)` with the `g` flag, for a pattern whose matches are never
      empty: the leftmost match from `from` on, then the matches after it. */
  function AllMatches(p: Pattern, s: string, from: nat): (r: seq<Span>)
    requires from <= |s| && p != [] && p[0].min >= 1
    ensures Within(r, from, |s|)
    decreases |s| - from
  {
    var f := FindFirst(p, s, from);
    if f.None? then []
    else
      var rest := AllMatches(p, s, f.value.end);
      WithinCons(f.value, rest, from, |s|);
      [f.value] + rest
  }

  /** Every span of `r` is non-empty and lies in `[from, n)`. */
  predicate Within(r: seq<Span>, from: nat, n: nat) {
    forall k :: 0 <= k < |r| ==> from <= r[k].start < r[k].end <= n
  }

  lemma WithinCons(f: Span, rest: seq<Span>, from: nat, n: nat)
    requires from <= f.start < f.end <= n && Within(rest, f.end, n)
    ensures Within([f] + rest, from, n)
  {
    forall k | 0 <= k < |rest| + 1 ensures from <= ([f] + rest)[k].start < ([f] + rest)[k].end <= n {
      if k > 0 {
        assert ([f] + rest)[k] == rest[k - 1];
      }
    }
  }

  /** The spans of the global match come in order and do not overlap. */
  lemma AllMatchesOrdered(p: Pattern, s: string, from: nat)
    requires from <= |s| && p != [] && p[0].min >= 1
    ensures forall k :: 0 <= k < |AllMatches(p, s, from)| - 1 ==>
      AllMatches(p, s, from)[k].end <= AllMatches(p, s, from)[k + 1].start
  {
    forall k | 0 <= k < |AllMatches(p, s, from)| - 1
      ensures AllMatches(p, s, from)[k].end <= AllMatches(p, s, from)[k + 1].start
    {
      SpanOrdered(p, s, from, k);
    }
  }

  lemma {:induction false} SpanOrdered(p: Pattern, s: string, from: nat, k: nat)
    requires from <= |s| && p != [] && p[0].min >= 1 && k + 1 < |AllMatches(p, s, from)|
    ensures AllMatches(p, s, from)[k].end <= AllMatches(p, s, from)[k + 1].start
    decreases k
  {
    var f := FindFirst(p, s, from).value;
    var rest := AllMatches(p, s, f.end);
    var r := AllMatches(p, s, from);
    assert r == [f] + rest;
    assert r[k + 1] == rest[k];
    if k > 0 {
      assert r[k] == rest[k - 1];
      SpanOrdered(p, s, f.end, k - 1);
    } else {
      assert r[k] == f;
    }
  }

  /** Each span of the global match is a match of the pattern. */
  lemma AllMatchesMatch(p: Pattern, s: string, from: nat)
    requires from <= |s| && p != [] && p[0].min >= 1
    ensures forall k :: 0 <= k < |AllMatches(p, s, from)| ==>
      MatchAt(p, s, AllMatches(p, s, from)[k].start) == Some(AllMatches(p, s, from)[k].end)
  {
    forall k | 0 <= k < |AllMatches(p, s, from)|
      ensures MatchAt(p, s, AllMatches(p, s, from)[k].start) == Some(AllMatches(p, s, from)[k].end)
    {
      SpanMatches(p, s, from, k);
    }
  }

  lemma {:induction false} SpanMatches(p: Pattern, s: string, from: nat, k: nat)
    requires from <= |s| && p != [] && p[0].min >= 1 && k < |AllMatches(p, s, from)|
    ensures MatchAt(p, s, AllMatches(p, s, from)[k].start) == Some(AllMatches(p, s, from)[k].end)
    decreases k
  {
    var f := FindFirst(p, s, from).value;
    var rest := AllMatches(p, s, f.end);
    var r := AllMatches(p, s, from);
    assert r == [f] + rest;
    if k > 0 {
      assert r[k] == rest[k - 1];
      SpanMatches(p, s, f.end, k - 1);
    } else {
      assert r[k] == f;
    }
  }

  /** No match is skipped: every position where the pattern matches lies in
      one of the spans of the global match. */
  lemma {:induction false} AllMatchesCover(p: Pattern, s: string, from: nat, q: nat)
    requires from <= q <= |s| && p != [] && p[0].min >= 1 && MatchAt(p, s, q).Some?
    ensures Covers(AllMatches(p, s, from), q)
    decreases |s| - from
  {
    var f := FindFirst(p, s, from);
    if f.None? || q < f.value.start {
      NoEarlierMatch(p, s, from, q);
      assert false;
    } else {
      var rest := AllMatches(p, s, f.value.end);
      assert AllMatches(p, s, from) == [f.value] + rest;
      if f.value.end <= q {
        AllMatchesCover(p, s, f.value.end, q);
      }
      CoverCons(f.value, rest, q);
    }
  }

  /** A position inside the first span, or covered by the others, is
      covered by all of them. */
  lemma CoverCons(f: Span, rest: seq<Span>, q: nat)
    requires f.start <= q < f.end || Covers(rest, q)
    ensures Covers([f] + rest, q)
  {
    if f.start <= q < f.end {
      assert ([f] + rest)[0] == f;
    } else {
      var k :| 0 <= k < |rest| && rest[k].start <= q < rest[k].end;
      assert ([f] + rest)[k + 1] == rest[k];
    }
  }

  /** Position `q` lies inside one of the spans. */
  predicate Covers(r: seq<Span>, q: nat) {
    exists k :: 0 <= k < |r| && r[k].start <= q < r[k].end
  }

  /** The global match starts with the leftmost match and is empty exactly
      when nothing matches from `from` on. */
  lemma AllMatchesFirst(p: Pattern, s: string, from: nat)
    requires from <= |s| && p != [] && p[0].min >= 1
    ensures FindFirst(p, s, from).None? ==> AllMatches(p, s, from) == []
    ensures FindFirst(p, s, from).Some? ==>
      AllMatches(p, s, from) != [] && AllMatches(p, s, from)[0] == FindFirst(p, s, from).value
    ensures AllMatches(p, s, from) == [] <==>
      forall k: nat :: from <= k <= |s| ==> MatchAt(p, s, k).None?
  {
    var f := FindFirst(p, s, from);
    if f.None? {
      forall k: nat | from <= k <= |s| ensures MatchAt(p, s, k).None? {
        NoEarlierMatch(p, s, from, k);
      }
    } else {
      assert AllMatches(p, s, from)[0] == f.value;
    }
  }

  /** The texts of the spans. */
  function Texts(s: string, spans: seq<Span>): (r: seq<string>)
    requires forall k :: 0 <= k < |spans| ==> spans[k].start <= spans[k].end <= |s|
    ensures |r| == |spans|
    ensures forall k :: 0 <= k < |r| ==> r[k] == s[spans[k].start..spans[k].end]
  {
    seq(|spans|, k requires 0 <= k < |spans| => s[spans[k].start..spans[k].end])
  }

  /** A string of `p + q` is a string of `p` followed by a string of `q`. */
  lemma {:induction false} LangSplit(p: Pattern, q: Pattern, t: string) returns (n: nat)
    requires InLang(p + q, t)
    ensures n <= |t| && InLang(p, t[..n]) && InLang(q, t[n..])
    decreases |p|
  {
    if p == [] {
      LangSplitNil(q, t);
      n := 0;
    } else {
      var m := UnconsAppend(p, q, t);
      var n' := LangSplit(p[1..], q, t[m..]);
      n := m + n';
      ConsPrefixLang(p, t, m, n');
    }
  }

  lemma LangSplitNil(q: Pattern, t: string)
    requires InLang([] + q, t)
    ensures InLang([], t[..0]) && InLang(q, t[0..])
  {
    assert [] + q == q && t[0..] == t && t[..0] == [];
  }

  /** A string of `p + q` starts with a fitting count of the first atom of `p`. */
  lemma UnconsAppend(p: Pattern, q: Pattern, t: string) returns (m: nat)
    requires p != [] && InLang(p + q, t)
    ensures Fits(p[0], t, m) && InLang(p[1..] + q, t[m..])
  {
    assert (p + q)[0] == p[0] && (p + q)[1..] == p[1..] + q;
    m := InLangUncons(p + q, t);
  }

  /** A fitting count followed by a string of the rest of the pattern, taken
      as a prefix of `t`. */
  lemma ConsPrefixLang(p: Pattern, t: string, m: nat, n': nat)
    requires p != [] && m + n' <= |t| && Fits(p[0], t, m) && InLang(p[1..], t[m..][..n'])
    ensures InLang(p, t[..m + n'])
  {
    var u := t[..m + n'];
    assert u[..m] == t[..m] && u[m..] == t[m..][..n'];
    FitsPrefix(p[0], u, t, m);
    InLangCons(p, u, m);
  }

  /** Some atom of `p` admits `c`. */
  predicate Admits(p: Pattern, c: char)
    decreases |p|
  {
    p != [] && (InClass(p[0].cls, c) || Admits(p[1..], c))
  }

  /** Every character of a string of the language is admitted by an atom. */
  lemma {:induction false} LangChars(p: Pattern, t: string)
    requires InLang(p, t)
    ensures forall m :: 0 <= m < |t| ==> Admits(p, t[m])
    decreases |p|
  {
    if p != [] {
      var n := InLangUncons(p, t);
      LangChars(p[1..], t[n..]);
      forall m | 0 <= m < |t| ensures Admits(p, t[m]) {
        if m >= n {
          assert t[m] == t[n..][m - n];
        }
      }
    }
  }

  /** A literal atom takes exactly its character. */
  lemma LitLang(p: Pattern, t: string)
    requires p != [] && p[0].cls.Single? && p[0].min == 1 && p[0].max == Some(1)
    requires InLang(p, t)
    ensures t != [] && t[0] == p[0].cls.c && InLang(p[1..], t[1..])
  {
    var n := InLangUncons(p, t);
  }

  /** A string of `[Lit(c)] + p + q` holds a string of `p` right after its
      first character. */
  lemma MiddleLang(c: char, p: Pattern, q: Pattern, t: string) returns (n: nat)
    requires InLang([Lit(c)] + p + q, t)
    ensures 1 + n <= |t| && t[0] == c && InLang(p, t[1..1 + n]) && InLang(q, t[1 + n..])
  {
    var w := [Lit(c)] + p + q;
    assert w[0] == Lit(c) && w[1..] == p + q;
    LitLang(w, t);
    var u := t[1..];
    n := LangSplit(p, q, u);
    assert u[..n] == t[1..1 + n];
  }

  /** A greedy first atom tries the longest count first: when `n` is all it
      can take and the rest matches after it, the match goes through `n`. */
  lemma GreedyFirst(p: Pattern, s: string, i: nat, n: nat)
    requires i + n <= |s| && p != [] && p[0].greedy && Fits(p[0], s[i..], n)
    requires i + n == |s| || !InClass(p[0].cls, s[i + n]) || p[0].max == Some(n)
    requires MatchAt(p[1..], s, i + n).Some?
    ensures MatchAt(p, s, i) == MatchAt(p[1..], s, i + n)
  {
    var a := p[0];
    var run := Run(s, i, a.cls, Limit(a, |s| - i));
    FitsAt(a, s, i, n);
    RunReaches(s, i, a.cls, Limit(a, |s| - i), n);
    assert run == n;
    assert Tries(p, s, i)[0] == n;
    CountFits(p, s, i, 0);
  }

  /** A run is at least as long as any stretch of the class it may take. */
  lemma {:induction false} RunReaches(s: string, i: nat, k: CharClass, limit: nat, n: nat)
    requires i + limit <= |s| && n <= limit
    requires forall m :: i <= m < i + n ==> InClass(k, s[m])
    ensures Run(s, i, k, limit) >= n
    decreases limit
  {
    if n > 0 {
      RunReaches(s, i + 1, k, limit - 1, n - 1);
    }
  }

  /** A fitting count at `i`, read on `s` itself. */
  lemma FitsAt(x: Atom, s: string, i: nat, n: nat)
    requires i <= |s| && Fits(x, s[i..], n)
    ensures i + n <= |s| && x.min <= n && (x.max.None? || n <= x.max.value)
    ensures forall m :: i <= m < i + n ==> InClass(x.cls, s[m])
  {
    forall m | i <= m < i + n ensures InClass(x.cls, s[m]) {
      assert s[m] == s[i..][m - i];
    }
  }

  /** The converse: `n` characters of the atom's class at `i`, a count it
      allows, fit. */
  lemma AtomFits(x: Atom, s: string, i: nat, n: nat)
    requires i + n <= |s| && x.min <= n && (x.max.None? || n <= x.max.value)
    requires forall m :: i <= m < i + n ==> InClass(x.cls, s[m])
    ensures Fits(x, s[i..], n)
  {
    forall m | 0 <= m < n ensures InClass(x.cls, s[i..][m]) {
      assert s[i..][m] == s[i + m];
    }
  }

  /** A greedy atom that takes all `n` characters of its class at `i`,
      followed by a rest that matches from there: the match goes through. */
  lemma GreedyStep(x: Atom, q: Pattern, s: string, i: nat, n: nat, e: nat)
    requires x.greedy && i + n <= |s| && x.min <= n && (x.max.None? || n <= x.max.value)
    requires forall m :: i <= m < i + n ==> InClass(x.cls, s[m])
    requires i + n == |s| || !InClass(x.cls, s[i + n]) || x.max == Some(n)
    requires MatchAt(q, s, i + n) == Some(e)
    ensures MatchAt([x] + q, s, i) == Some(e)
  {
    AtomFits(x, s, i, n);
    assert ([x] + q)[1..] == q;
    GreedyFirst([x] + q, s, i, n);
  }

  /** A `/`, then a greedy atom taking all `n` characters of its class, then
      a rest that matches. */
  lemma SlashThenMatch(y: Atom, q: Pattern, s: string, i: nat, n: nat, e: nat)
    requires y.greedy && i + 1 + n <= |s| && s[i] == '/'
    requires y.min <= n && (y.max.None? || n <= y.max.value)
    requires forall m :: i + 1 <= m < i + 1 + n ==> InClass(y.cls, s[m])
    requires i + 1 + n == |s| || !InClass(y.cls, s[i + 1 + n]) || y.max == Some(n)
    requires MatchAt(q, s, i + 1 + n) == Some(e)
    ensures MatchAt([Lit('/'), y] + q, s, i) == Some(e)
  {
    GreedyStep(y, q, s, i + 1, n, e);
    SlashStep([y] + q, s, i, e);
    ConsTwo(Lit('/'), y, q);
  }

  lemma ConsTwo(a: Atom, b: Atom, q: Pattern)
    ensures [a] + ([b] + q) == [a, b] + q
  {
  }

  /** A `/` at `i`, then a rest that matches after it. */
  lemma SlashStep(q: Pattern, s: string, i: nat, e: nat)
    requires i < |s| && s[i] == '/' && MatchAt(q, s, i + 1) == Some(e)
    ensures MatchAt([Lit('/')] + q, s, i) == Some(e)
  {
    assert InClass(Lit('/').cls, s[i]);
    GreedyStep(Lit('/'), q, s, i, 1, e);
  }

  /** A string of the language that starts at `i` of `s`: a fitting count of
      the first atom there, and a string of the rest after it. */
  lemma UnconsAt(p: Pattern, s: string, i: nat) returns (n: nat)
    requires p != [] && i <= |s| && InLang(p, s[i..])
    ensures i + n <= |s| && Fits(p[0], s[i..], n) && InLang(p[1..], s[i + n..])
  {
    n := InLangUncons(p, s[i..]);
    assert s[i..][n..] == s[i + n..];
  }

  /** A first atom that needs a character of its class cannot start where
      there is none. */
  lemma NoStart(p: Pattern, s: string, i: nat)
    requires i <= |s| && p != [] && p[0].min >= 1
    requires i == |s| || !InClass(p[0].cls, s[i])
    ensures MatchAt(p, s, i).None?
  {
    assert Run(s, i, p[0].cls, Limit(p[0], |s| - i)) == 0;
    NoCountLeft(p, s, i, 0);
  }

  /** A literal that fits takes one character, its own. */
  lemma LitFits(c: char, t: string, n: nat)
    requires Fits(Lit(c), t, n)
    ensures n == 1 && t[0] == c
  {
  }

  /** A pattern whose first atom takes at least one character describes
      no empty string. */
  lemma NonEmptyLang(p: Pattern, t: string)
    requires p != [] && p[0].min >= 1 && InLang(p, t)
    ensures |t| >= 1
  {
    var n := InLangUncons(p, t);
  }

  /** An optional character is taken or not. */
  lemma OptionalLang(p: Pattern, t: string)
    requires p != [] && p[0].cls.Single? && p[0].min == 0 && p[0].max == Some(1)
    requires InLang(p, t)
    ensures (t != [] && t[0] == p[0].cls.c && InLang(p[1..], t[1..])) || InLang(p[1..], t)
  {
    var n := InLangUncons(p, t);
    if n == 0 {
      assert t[0..] == t;
    }
  }

  /** The last atom takes all that is left. */
  lemma LastLang(p: Pattern, t: string)
    requires |p| == 1 && InLang(p, t)
    ensures |t| >= p[0].min && (p[0].max.None? || |t| <= p[0].max.value)
    ensures forall m :: 0 <= m < |t| ==> InClass(p[0].cls, t[m])
  {
    var n := InLangUncons(p, t);
    assert p[1..] == [];
  }

  /** A tail of the pattern matches to the same end. */
  lemma {:induction false} SuffixMatch(p: Pattern, s: string, i: nat, m: nat) returns (j: nat)
    requires i <= |s| && m <= |p| && MatchAt(p, s, i).Some?
    ensures i <= j <= |s| && MatchAt(p[m..], s, j) == MatchAt(p, s, i)
    decreases m
  {
    if m == 0 {
      assert p[0..] == p;
      j := i;
    } else {
      var n := FirstStep(p, s, i);
      j := SuffixMatch(p[1..], s, i + n, m - 1);
      assert p[1..][m - 1..] == p[m..];
    }
  }

  /** A last atom that is greedy and unbounded takes the whole run of its
      class: the match ends at the end of the string or before a character
      outside the class. */
  lemma GreedyLast(p: Pattern, s: string, i: nat)
    requires i <= |s| && p != [] && MatchAt(p, s, i).Some?
    requires p[|p| - 1].greedy && p[|p| - 1].max.None?
    ensures var e := MatchAt(p, s, i).value;
      e == |s| || !InClass(p[|p| - 1].cls, s[e])
  {
    var j := SuffixMatch(p, s, i, |p| - 1);
    assert p[|p| - 1..] == [p[|p| - 1]];
    GreedyOnly(p[|p| - 1], s, j);
  }

  /** The same for a pattern of that one atom. */
  lemma GreedyOnly(x: Atom, s: string, j: nat)
    requires j <= |s| && x.greedy && x.max.None? && MatchAt([x], s, j).Some?
    ensures var e := MatchAt([x], s, j).value;
      e == |s| || !InClass(x.cls, s[e])
  {
    var q := [x];
    var k := MatchCount(q, s, j);
    var run := Run(s, j, x.cls, Limit(x, |s| - j));
    assert Tries(q, s, j)[0] == run;
    EmptyPattern(s, j + run);
    assert q[1..] == [];
    CountFits(q, s, j, 0);
  }

  /** `open`, then the fewest characters other than line terminators, then
      `close`: the lazy group `open(.*?)close`. */
  function Delimited(open: char, close: char): Pattern {
    [Lit(open), LazyDots, Lit(close)]
  }

  /** `open`, a text with no line terminator, `close`: the strings of the
      pattern `Delimited(open, close)`. */
  predicate IsDelimited(open: char, close: char, t: string) {
    && |t| >= 2 && t[0] == open && t[|t| - 1] == close
    && forall m :: 1 <= m < |t| - 1 ==> !IsLineTerminator(t[m])
  }

  /** The strings of the delimited pattern are delimited texts. */
  lemma DelimitedShape(open: char, close: char, t: string)
    requires InLang(Delimited(open, close), t)
    ensures IsDelimited(open, close, t)
  {
    var p := Delimited(open, close);
    assert p[1..] == [LazyDots, Lit(close)] && p[1..][1..] == [Lit(close)];
    LitLang(p, t);
    var u := t[1..];
    var n := InLangUncons(p[1..], u);
    LitLang(p[1..][1..], u[n..]);
    assert p[1..][1..][1..] == [];
    assert u[n..][1..] == [];
    forall m | 1 <= m < |t| - 1 ensures !IsLineTerminator(t[m]) {
      assert t[m] == u[m - 1];
    }
  }

  /** Every delimited text is a string of the delimited pattern. */
  lemma DelimitedInLang(open: char, close: char, t: string)
    requires IsDelimited(open, close, t)
    ensures InLang(Delimited(open, close), t)
  {
    var p := Delimited(open, close);
    assert p[1..] == [LazyDots, Lit(close)] && p[1..][1..] == [Lit(close)];
    assert p[1..][1..][1..] == [];
    var u := t[1..];
    var n := |t| - 2;
    assert u[n..] == [close] && u[n..][1..] == [];
    InLangCons(p[1..][1..], u[n..], 1);
    forall m | 0 <= m < n ensures InClass(LazyDots.cls, u[m]) {
      assert u[m] == t[m + 1];
    }
    InLangCons(p[1..], u, n);
    InLangCons(p, t, 1);
  }

  /** The delimited pattern describes exactly the delimited texts. */
  lemma DelimitedLang(open: char, close: char, t: string)
    ensures InLang(Delimited(open, close), t) <==> IsDelimited(open, close, t)
  {
    if InLang(Delimited(open, close), t) {
      DelimitedShape(open, close, t);
    }
    if IsDelimited(open, close, t) {
      DelimitedInLang(open, close, t);
    }
  }

  /** A single literal matches exactly where its character is. */
  lemma LitMatch(c: char, s: string, j: nat)
    requires j <= |s|
    ensures MatchAt([Lit(c)], s, j) == if j < |s| && s[j] == c then Some(j + 1) else None
  {
    var q := [Lit(c)];
    if j < |s| && s[j] == c {
      assert Run(s, j, Single(c), 1) == 1;
      assert Tries(q, s, j) == [1];
      assert q[1..] == [];
      assert MatchFrom(q[1..], s, j + 1, 0) == Some(j + 1);
    } else {
      assert Tries(q, s, j) == [];
    }
  }

  /** The counts `.*?` tries at `j`: none first, then one more at a time up
      to the run of characters other than line terminators. */
  lemma LazyTries(close: char, s: string, j: nat)
    requires j <= |s|
    ensures var t := Tries([LazyDots, Lit(close)], s, j);
      && (forall c :: 0 <= c < |t| ==> t[c] == c)
      && (forall m :: j <= m < j + |t| - 1 ==> !IsLineTerminator(s[m]))
  {
    var run := Run(s, j, NotLineTerminator, |s| - j);
    assert Tries([LazyDots, Lit(close)], s, j) == Up(0, run);
  }

  /** The counts `.*?` skipped failed because no `close` came after them. */
  lemma LazySkipped(close: char, s: string, j: nat, k: nat)
    requires j + k <= |s| && k <= |Tries([LazyDots, Lit(close)], s, j)|
    requires forall c :: 0 <= c < k ==> !RestMatches([LazyDots, Lit(close)], s, j, c)
    ensures forall m :: j <= m < j + k ==> s[m] != close
  {
    var q := [LazyDots, Lit(close)];
    assert q[1..] == [Lit(close)];
    LazyTries(close, s, j);
    forall m | j <= m < j + k ensures s[m] != close {
      assert Tries(q, s, j)[m - j] == m - j;
      assert !RestMatches(q, s, j, m - j);
      LitMatch(close, s, m);
    }
  }

  /** `.*?` followed by `close` ends just after the first `close`, with no
      line terminator before it. */
  lemma LazyMatch(close: char, s: string, j: nat)
    requires j <= |s| && MatchAt([LazyDots, Lit(close)], s, j).Some?
    ensures var e := MatchAt([LazyDots, Lit(close)], s, j).value;
      && j + 1 <= e && s[e - 1] == close
      && forall m :: j <= m < e - 1 ==> s[m] != close && !IsLineTerminator(s[m])
  {
    var q := [LazyDots, Lit(close)];
    assert q[1..] == [Lit(close)];
    LazyTries(close, s, j);
    var k := MatchCount(q, s, j);
    LitMatch(close, s, j + k);
    LazySkipped(close, s, j, k);
  }

  /** What the lazy group takes: the match runs from `open` to the first
      `close` after it, with no line terminator between. */
  lemma DelimitedMatch(open: char, close: char, s: string, i: nat)
    requires i <= |s| && MatchAt(Delimited(open, close), s, i).Some?
    ensures var e := MatchAt(Delimited(open, close), s, i).value;
      && i + 2 <= e
      && s[i] == open && s[e - 1] == close
      && forall m :: i + 1 <= m < e - 1 ==> s[m] != close && !IsLineTerminator(s[m])
  {
    var d := Delimited(open, close);
    var n := FirstStep(d, s, i);
    LitFits(open, s[i..], n);
    assert s[i..][0] == s[i];
    assert d[1..] == [LazyDots, Lit(close)];
    LazyMatch(close, s, i + 1);
  }

  /** A run of literal atoms takes exactly its characters. */
  lemma {:induction false} LitsLang(p: Pattern, cs: string, t: string)
    requires |cs| <= |p| && forall k :: 0 <= k < |cs| ==> p[k] == Lit(cs[k])
    requires InLang(p, t)
    ensures |cs| <= |t| && t[..|cs|] == cs && InLang(p[|cs|..], t[|cs|..])
    decreases |cs|
  {
    if cs == [] {
      assert p[0..] == p && t[0..] == t;
    } else {
      assert p[0] == Lit(cs[0]);
      LitLang(p, t);
      assert forall k :: 0 <= k < |cs| - 1 ==> p[1..][k] == p[k + 1];
      LitsLang(p[1..], cs[1..], t[1..]);
      assert p[1..][|cs| - 1..] == p[|cs|..];
      assert t[1..][|cs| - 1..] == t[|cs|..];
      ConsPrefix(t, cs);
    }
  }

  /** `t` starts with `cs` when its first character is that of `cs` and the
      rest of `t` starts with the rest of `cs`. */
  lemma ConsPrefix(t: string, cs: string)
    requires cs != [] && |cs| <= |t| && t[0] == cs[0] && t[1..][..|cs| - 1] == cs[1..]
    ensures t[..|cs|] == cs
  {
    assert t[..|cs|] == [t[0]] + t[1..][..|cs| - 1];
    assert cs == [cs[0]] + cs[1..];
  }

  /** No atom admits `c` when no atom's class holds it. */
  lemma {:induction false} NotAdmitted(p: Pattern, c: char)
    requires forall k :: 0 <= k < |p| ==> !InClass(p[k].cls, c)
    ensures !Admits(p, c)
    decreases |p|
  {
    if p != [] {
      assert forall k :: 0 <= k < |p| - 1 ==> p[1..][k] == p[k + 1];
      NotAdmitted(p[1..], c);
    }
  }
}
