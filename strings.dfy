/** The JavaScript string operations the analyzer relies on, over `seq<char>`:
    `includes`/`indexOf`, `split` with a string separator, `trim`, and
    `replace` with a string pattern (which replaces only the first occurrence). */
module Strings {
  import opened Wrappers

  /** ECMAScript LineTerminator: LF, CR, LINE SEPARATOR, PARAGRAPH SEPARATOR. */
  predicate IsLineTerminator(c: char) {
    c == '\n' || c == '\r' || c == '\U{2028}' || c == '\U{2029}'
  }

  /** ECMAScript WhiteSpace or LineTerminator: the characters `\s` matches
      and the characters `trim` removes. */
  predicate IsWhitespace(c: char) {
    || c == '\t' || c == '\U{B}' || c == '\U{C}' || c == ' ' || c == '\U{A0}' || c == '\U{FEFF}'
    || c == '\U{1680}' || ('\U{2000}' <= c <= '\U{200A}') || c == '\U{202F}' || c == '\U{205F}'
    || c == '\U{3000}'
    || IsLineTerminator(c)
  }

  predicate IsDigit(c: char) {
    '0' <= c <= '9'
  }

  predicate AllWhitespace(s: string) {
    forall k :: 0 <= k < |s| ==> IsWhitespace(s[k])
  }

  /** `p` occurs in `s` starting at index `i`. */
  predicate OccursAt(s: string, p: string, i: nat) {
    i + |p| <= |s| && s[i..i + |p|] == p
  }

  /** `s.indexOf(p, from)`: the leftmost occurrence of `p` at or after `from`. */
  function IndexOf(s: string, p: string, from: nat): (r: Option<nat>)
    requires from <= |s|
    ensures r.Some? ==> from <= r.value && OccursAt(s, p, r.value)
    ensures forall k: nat :: from <= k && (r.None? || k < r.value) ==> !OccursAt(s, p, k)
    decreases |s| - from
  {
    if OccursAt(s, p, from) then Some(from)
    else if from == |s| then None
    else IndexOf(s, p, from + 1)
  }

  /** `s.includes(p)`. */
  function Contains(s: string, p: string): (b: bool)
    ensures b <==> exists i: nat :: OccursAt(s, p, i)
  {
    IndexOf(s, p, 0).Some?
  }

  /** `s.startsWith(p)`. */
  predicate StartsWith(s: string, p: string) {
    OccursAt(s, p, 0)
  }

  /** The inverse of `split`: the parts with `sep` between neighbours. */
  function Join(parts: seq<string>, sep: string): string
  {
    if |parts| == 0 then ""
    else if |parts| == 1 then parts[0]
    else parts[0] + sep + Join(parts[1..], sep)
  }

  /** The part of a `split` that precedes a separator ends at the separator's
      LEFTMOST occurrence: `sep` does not occur in `part` followed by all
      but the last character of `sep`. */
  predicate EndsAtFirstSeparator(part: string, sep: string)
    requires |sep| > 0
  {
    !Contains(part + sep[..|sep| - 1], sep)
  }

  /** `s.split(sep)` for a non-empty string separator: the pieces between the
      leftmost non-overlapping occurrences of `sep`, scanning left to right. */
  function Split(s: string, sep: string): (r: seq<string>)
    requires |sep| > 0
    ensures |r| >= 1
    ensures Join(r, sep) == s
    ensures |r| == 1 <==> !Contains(s, sep)
    ensures forall k :: 0 <= k < |r| ==> !Contains(r[k], sep)
    ensures forall k :: 0 <= k < |r| - 1 ==> EndsAtFirstSeparator(r[k], sep)
    decreases |s|
  {
    match IndexOf(s, sep, 0)
    case None => [s]
    case Some(q) =>
      var rest := Split(s[q + |sep|..], sep);
      SplitStep(s, sep, q, rest);
      [s[..q]] + rest
  }

  /** One step of `Split`: the piece before the leftmost separator, followed
      by the pieces of what comes after it. */
  lemma SplitStep(s: string, sep: string, q: nat, rest: seq<string>)
    requires |sep| > 0 && OccursAt(s, sep, q)
    requires forall k: nat :: k < q ==> !OccursAt(s, sep, k)
    requires |rest| >= 1 && Join(rest, sep) == s[q + |sep|..]
    requires forall k :: 0 <= k < |rest| ==> !Contains(rest[k], sep)
    requires forall k :: 0 <= k < |rest| - 1 ==> EndsAtFirstSeparator(rest[k], sep)
    ensures Join([s[..q]] + rest, sep) == s
    ensures forall k :: 0 <= k < |rest| + 1 ==> !Contains(([s[..q]] + rest)[k], sep)
    ensures forall k :: 0 <= k < |rest| ==> EndsAtFirstSeparator(([s[..q]] + rest)[k], sep)
  {
    JoinStep(s, sep, q, rest);
    PiecesStep(s, sep, q, rest);
  }

  lemma JoinStep(s: string, sep: string, q: nat, rest: seq<string>)
    requires OccursAt(s, sep, q)
    requires |rest| >= 1 && Join(rest, sep) == s[q + |sep|..]
    ensures Join([s[..q]] + rest, sep) == s
  {
    JoinCons(s[..q], rest, sep);
    Around(s, q, q + |sep|);
  }

  /** A string is its prefix, its middle and its suffix. */
  lemma Around(s: string, i: nat, j: nat)
    requires i <= j <= |s|
    ensures s == s[..i] + s[i..j] + s[j..]
  {
    assert s[..j] == s[..i] + s[i..j];
  }

  lemma PiecesStep(s: string, sep: string, q: nat, rest: seq<string>)
    requires |sep| > 0 && OccursAt(s, sep, q)
    requires forall k: nat :: k < q ==> !OccursAt(s, sep, k)
    requires forall k :: 0 <= k < |rest| ==> !Contains(rest[k], sep)
    requires forall k :: 0 <= k < |rest| - 1 ==> EndsAtFirstSeparator(rest[k], sep)
    ensures forall k :: 0 <= k < |rest| + 1 ==> !Contains(([s[..q]] + rest)[k], sep)
    ensures forall k :: 0 <= k < |rest| ==> EndsAtFirstSeparator(([s[..q]] + rest)[k], sep)
  {
    var r := [s[..q]] + rest;
    FirstPiece(s, sep, q);
    forall k | 0 <= k < |r| ensures !Contains(r[k], sep) && (k < |r| - 1 ==> EndsAtFirstSeparator(r[k], sep)) {
      if k > 0 {
        assert r[k] == rest[k - 1];
      } else {
        assert r[k] == s[..q];
      }
    }
  }

  /** The piece before the leftmost separator holds no separator, not even
      one that would run into the separator itself. */
  lemma FirstPiece(s: string, sep: string, q: nat)
    requires |sep| > 0 && OccursAt(s, sep, q)
    requires forall k: nat :: k < q ==> !OccursAt(s, sep, k)
    ensures !Contains(s[..q], sep)
    ensures EndsAtFirstSeparator(s[..q], sep)
  {
    NoOccurrenceInPrefix(s, sep, q + |sep| - 1);
    assert s[..q + |sep| - 1] == s[..q] + sep[..|sep| - 1];
    NoOccurrenceInPrefix(s, sep, q);
  }

  /** A text around an occurrence of `p` at `i`. */
  lemma AtOccurrence(s: string, p: string, i: nat)
    requires OccursAt(s, p, i)
    ensures s == s[..i] + p + s[i + |p|..]
  {
    Around(s, i, i + |p|);
  }

  lemma JoinCons(head: string, rest: seq<string>, sep: string)
    requires |rest| >= 1
    ensures Join([head] + rest, sep) == head + sep + Join(rest, sep)
  {
    assert ([head] + rest)[1..] == rest;
  }

  /** An occurrence inside `s[..n]` is an occurrence inside `s`. */
  lemma NoOccurrenceInPrefix(s: string, p: string, n: nat)
    requires n <= |s|
    requires forall k: nat :: k + |p| <= n ==> !OccursAt(s, p, k)
    ensures !Contains(s[..n], p)
  {
    forall i: nat ensures !OccursAt(s[..n], p, i) {
      if i + |p| <= n {
        assert s[..n][i..i + |p|] == s[i..i + |p|];
        assert !OccursAt(s, p, i);
      }
    }
  }

  /** Splitting text whose first separator follows `head` gives `head` and
      then the split of the rest. */
  lemma {:induction false} SplitAfterFirst(head: string, sep: string, rest: string)
    requires |sep| > 0 && EndsAtFirstSeparator(head, sep)
    ensures Split(head + sep + rest, sep) == [head] + Split(rest, sep)
  {
    var s := head + sep + rest;
    var u := head + sep[..|sep| - 1];
    assert s[..|head| + |sep| - 1] == u;
    forall k: nat | k < |head| ensures !OccursAt(s, sep, k) {
      assert !OccursAt(u, sep, k);
      assert u[k..k + |sep|] == s[k..k + |sep|];
    }
    assert s[|head|..|head| + |sep|] == sep;
    assert OccursAt(s, sep, |head|);
    assert IndexOf(s, sep, 0) == Some(|head|);
    assert s[..|head|] == head;
    assert s[|head| + |sep|..] == rest;
  }

  /** `s.trimStart()`. */
  function TrimStart(s: string): (r: string)
    ensures |r| <= |s| && r == s[|s| - |r|..]
    ensures AllWhitespace(s[..|s| - |r|])
    ensures r == [] || !IsWhitespace(r[0])
  {
    if s != [] && IsWhitespace(s[0]) then
      var r := TrimStart(s[1..]);
      StartStep(s, r);
      r
    else s
  }

  /** A whitespace character in front of a cut run of whitespace. */
  lemma StartStep(s: string, r: string)
    requires s != [] && IsWhitespace(s[0]) && |r| <= |s| - 1
    requires r == s[1..][|s| - 1 - |r|..] && AllWhitespace(s[1..][..|s| - 1 - |r|])
    ensures r == s[|s| - |r|..] && AllWhitespace(s[..|s| - |r|])
  {
    var n := |s| - |r|;
    forall k | 0 <= k < n ensures IsWhitespace(s[..n][k]) {
      if k > 0 {
        assert s[..n][k] == s[1..][..n - 1][k - 1];
      }
    }
  }

  /** `s.trimEnd()`. */
  function TrimEnd(s: string): (r: string)
    ensures |r| <= |s| && r == s[..|r|]
    ensures AllWhitespace(s[|r|..])
    ensures r == [] || !IsWhitespace(r[|r| - 1])
  {
    if s != [] && IsWhitespace(s[|s| - 1]) then
      var r := TrimEnd(s[..|s| - 1]);
      EndStep(s, r);
      r
    else s
  }

  /** A cut run of whitespace followed by a whitespace character. */
  lemma EndStep(s: string, r: string)
    requires s != [] && IsWhitespace(s[|s| - 1]) && |r| <= |s| - 1
    requires r == s[..|s| - 1][..|r|] && AllWhitespace(s[..|s| - 1][|r|..])
    ensures r == s[..|r|] && AllWhitespace(s[|r|..])
  {
    var n := |r|;
    forall k | 0 <= k < |s| - n ensures IsWhitespace(s[n..][k]) {
      if k < |s| - 1 - n {
        assert s[n..][k] == s[..|s| - 1][n..][k];
      }
    }
  }

  /** `r` is `s` with a whitespace run of length `i` cut from the front and
      the whitespace after `r` cut from the back. */
  predicate TrimmedAt(s: string, r: string, i: nat) {
    i + |r| <= |s| && s[i..i + |r|] == r && AllWhitespace(s[..i]) && AllWhitespace(s[i + |r|..])
  }

  /** `s.trim()`: `s` without its leading and trailing whitespace. */
  function Trim(s: string): (r: string)
    ensures r == [] || (!IsWhitespace(r[0]) && !IsWhitespace(r[|r| - 1]))
    ensures exists i: nat :: TrimmedAt(s, r, i)
  {
    TrimParts(s);
    TrimEnd(TrimStart(s))
  }

  /** The two cuts of `trim` are whitespace, with the kept part between. */
  lemma TrimParts(s: string)
    ensures TrimmedAt(s, TrimEnd(TrimStart(s)), |s| - |TrimStart(s)|)
  {
    TrimmedOf(s, TrimStart(s), TrimEnd(TrimStart(s)));
  }

  /** Cutting whitespace from the front of `s` to get `t`, and from the back
      of `t` to get `r`, trims `s` to `r`. */
  lemma TrimmedOf(s: string, t: string, r: string)
    requires |t| <= |s| && t == s[|s| - |t|..] && AllWhitespace(s[..|s| - |t|])
    requires |r| <= |t| && r == t[..|r|] && AllWhitespace(t[|r|..])
    ensures TrimmedAt(s, r, |s| - |t|)
  {
    var i := |s| - |t|;
    assert s[i..i + |r|] == r;
    assert s[i + |r|..] == t[|r|..];
  }

  /** Trimming is idempotent. */
  lemma TrimIdempotent(s: string)
    ensures Trim(Trim(s)) == Trim(s)
  {
    var r := Trim(s);
    assert TrimmedAt(r, r, 0) by { assert r[..0] == [] && r[|r|..] == []; }
    TrimUnique(r, r, 0);
  }

  /** `trim` is determined by its two promises: whitespace on both sides
      cut away, and none left at either end. */
  lemma TrimUnique(s: string, r: string, i: nat)
    requires TrimmedAt(s, r, i)
    requires r == [] || (!IsWhitespace(r[0]) && !IsWhitespace(r[|r| - 1]))
    ensures Trim(s) == r
  {
    var tail := s[i..];
    assert s[..i] + tail == s;
    if r == [] {
      WhitespaceJoin(s[..i], tail);
      TrimStartOf(s, []);
      assert s + [] == s;
    } else {
      Around(s, i, i + |r|);
      assert tail == r + s[i + |r|..];
      TrimStartOf(s[..i], tail);
      TrimEndOf(r, s[i + |r|..]);
    }
  }

  lemma WhitespaceJoin(a: string, b: string)
    requires AllWhitespace(a) && AllWhitespace(b)
    ensures AllWhitespace(a + b)
  {
    forall k | 0 <= k < |a + b| ensures IsWhitespace((a + b)[k]) {
      if k < |a| {
        assert (a + b)[k] == a[k];
      } else {
        assert (a + b)[k] == b[k - |a|];
      }
    }
  }

  /** `trimStart` removes exactly a leading whitespace run. */
  lemma {:induction false} TrimStartOf(w: string, t: string)
    requires AllWhitespace(w) && (t == [] || !IsWhitespace(t[0]))
    ensures TrimStart(w + t) == t
    decreases |w|
  {
    if w != [] {
      assert (w + t)[1..] == w[1..] + t;
      TrimStartOf(w[1..], t);
    } else {
      assert w + t == t;
    }
  }

  /** `trimEnd` removes exactly a trailing whitespace run. */
  lemma {:induction false} TrimEndOf(t: string, w: string)
    requires AllWhitespace(w) && (t == [] || !IsWhitespace(t[|t| - 1]))
    ensures TrimEnd(t + w) == t
    decreases |w|
  {
    if w != [] {
      assert (t + w)[..|t + w| - 1] == t + w[..|w| - 1];
      TrimEndOf(t, w[..|w| - 1]);
    } else {
      assert t + w == t;
    }
  }

  /** The occurrence of `p` at `i` is the leftmost one in `s`. */
  predicate FirstOccurrence(s: string, p: string, i: nat) {
    OccursAt(s, p, i) && forall k: nat :: k < i ==> !OccursAt(s, p, k)
  }

  /** `s.replace(p, rep)` with a string pattern: only the leftmost occurrence
      of `p` is replaced (a replacement without `$` patterns). */
  function ReplaceFirst(s: string, p: string, rep: string): (r: string)
    ensures !Contains(s, p) ==> r == s
    ensures forall i: nat :: FirstOccurrence(s, p, i) ==> r == s[..i] + rep + s[i + |p|..]
  {
    match IndexOf(s, p, 0)
    case None => s
    case Some(i) => s[..i] + rep + s[i + |p|..]
  }
}
