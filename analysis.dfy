/** The local analysis of a chat log (`analysisLocal` in lib/analysis.ts):
    the log is cut into entries at blank lines, each entry is sorted into
    links, a quote, reading-list items or a personal note by the first of
    these tests it meets, its first timestamp is collected, and the
    timestamps are counted per date. */
module Analysis {
  import opened Wrappers
  import opened Strings
  import opened Patterns

  // ---------------------------------------------------------------------
  // The fixed regular expressions of the analysis
  // ---------------------------------------------------------------------

  /** `\d{1,2}\/\d{1,2}\/\d{2,4}`: a date such as `3/14/2024`. */
  const DatePattern: Pattern :=
    [Digits(1, 2), Lit('/'), Digits(1, 2), Lit('/'), Digits(2, 4)]

  /** `, \d{1,2}:\d{2}:\d{2} [AP]M`: the time of day after the date. */
  const TimePattern: Pattern :=
    [Lit(','), Lit(' '), Digits(1, 2), Lit(':'), Digits(2, 2), Lit(':'), Digits(2, 2),
     Lit(' '), OneOf("AP"), Lit('M')]

  /** `\[\d{1,2}\/\d{1,2}\/\d{2,4}, \d{1,2}:\d{2}:\d{2} [AP]M\]`. */
  const TimestampPattern: Pattern := [Lit('[')] + DatePattern + TimePattern + [Lit(']')]

  /** `https?:\/\/[^\s]+`. */
  const UrlPattern: Pattern :=
    [Lit('h'), Lit('t'), Lit('t'), Lit('p'), Optional('s'), Lit(':'), Lit('/'), Lit('/'), NonSpaces]

  /** `"(.*?)"`. */
  const QuotePattern: Pattern := Delimited('"', '"')

  /** A bracketed chat timestamp such as `[3/14/2024, 9:05:07 PM]`. */
  ghost predicate IsTimestamp(t: string) {
    InLang(TimestampPattern, t)
  }

  /** A web address as the link pattern takes it: `http://` or `https://`,
      then at least one more character, and no whitespace anywhere. */
  predicate IsUrl(t: string) {
    && ((|t| > 7 && t[..7] == "http://") || (|t| > 8 && t[..8] == "https://"))
    && forall m :: 0 <= m < |t| ==> !IsWhitespace(t[m])
  }

  /** A scheme prefix followed by non-whitespace is a web address. */
  lemma UrlOf(scheme: string, tail: string)
    requires scheme == "http://" || scheme == "https://"
    requires |tail| >= 1 && forall m :: 0 <= m < |tail| ==> !IsWhitespace(tail[m])
    ensures IsUrl(scheme + tail)
  {
    var t := scheme + tail;
    assert t[..|scheme|] == scheme;
    forall m | 0 <= m < |t| ensures !IsWhitespace(t[m]) {
      if m >= |scheme| {
        assert t[m] == tail[m - |scheme|];
      }
    }
  }

  /** The `://` and the address after the scheme name. */
  lemma UrlTail(t: string)
    requires InLang([Lit(':'), Lit('/'), Lit('/'), NonSpaces], t)
    ensures |t| >= 4 && t[..3] == "://"
    ensures forall m :: 3 <= m < |t| ==> !IsWhitespace(t[m])
  {
    var p := [Lit(':'), Lit('/'), Lit('/'), NonSpaces];
    LitsLang(p, "://", t);
    assert p[3..] == [NonSpaces];
    LastLang(p[3..], t[3..]);
    assert forall m :: 3 <= m < |t| ==> t[m] == t[3..][m - 3];
  }

  /** `http` or `https`, followed by a string of `UrlTail`. */
  lemma UrlWithTail(scheme: string, r: string)
    requires scheme == "http" || scheme == "https"
    requires InLang([Lit(':'), Lit('/'), Lit('/'), NonSpaces], r)
    ensures IsUrl(scheme + r)
  {
    UrlTail(r);
    assert r == "://" + r[3..];
    assert scheme + r == (scheme + "://") + r[3..];
    assert forall m :: 0 <= m < |r| - 3 ==> r[3..][m] == r[m + 3];
    UrlOf(scheme + "://", r[3..]);
  }

  /** The strings of the link pattern are web addresses. */
  lemma UrlLang(t: string)
    requires InLang(UrlPattern, t)
    ensures IsUrl(t)
  {
    var p := UrlPattern;
    LitsLang(p, "http", t);
    var p4, t4 := p[4..], t[4..];
    assert t == "http" + t4;
    assert p4 == [Optional('s'), Lit(':'), Lit('/'), Lit('/'), NonSpaces];
    assert p4[1..] == [Lit(':'), Lit('/'), Lit('/'), NonSpaces];
    OptionalLang(p4, t4);
    if t4 != [] && t4[0] == 's' && InLang(p4[1..], t4[1..]) {
      assert t == "https" + t4[1..];
      UrlWithTail("https", t4[1..]);
    } else {
      UrlWithTail("http", t4);
    }
  }

  /** The characters of a timestamp between its brackets: digits, `/`, `,`,
      space, `:`, `A`, `P` and `M`. */
  lemma BodyAdmitsNo(c: char)
    requires c == ']' || c == '"' || IsLineTerminator(c)
    ensures !Admits(DatePattern + TimePattern, c)
  {
    var body := DatePattern + TimePattern;
    forall k | 0 <= k < |body| ensures !InClass(body[k].cls, c) {
      assert body[k].cls in {Digit, Single('/'), Single(','), Single(' '), Single(':'), AnyOf("AP"), Single('M')};
    }
    NotAdmitted(body, c);
  }

  /** A timestamp is `[`, then text with no `]`, no `"` and no line
      terminator, then `]`. */
  lemma TimestampShape(t: string)
    requires IsTimestamp(t)
    ensures |t| >= 3 && t[0] == '[' && t[|t| - 1] == ']'
    ensures forall m :: 1 <= m < |t| - 1 ==> t[m] != ']' && t[m] != '"' && !IsLineTerminator(t[m])
  {
    var body := DatePattern + TimePattern;
    var tp := TimestampPattern;
    assert tp[0] == Lit('[') && tp[1..] == body + [Lit(']')];
    LitLang(tp, t);
    var u := t[1..];
    var n := LangSplit(body, [Lit(']')], u);
    assert [Lit(']')][1..] == [];
    LitLang([Lit(']')], u[n..]);
    assert u[n..][1..] == [];
    assert |t| == n + 2;
    var mid := u[..n];
    assert body[0] == Digits(1, 2);
    NonEmptyLang(body, mid);
    LangChars(body, mid);
    forall m | 1 <= m < |t| - 1 ensures t[m] != ']' && t[m] != '"' && !IsLineTerminator(t[m]) {
      assert t[m] == mid[m - 1];
      if t[m] == ']' || t[m] == '"' || IsLineTerminator(t[m]) {
        BodyAdmitsNo(t[m]);
      }
    }
  }

  // ---------------------------------------------------------------------
  // What one entry yields
  // ---------------------------------------------------------------------

  /** `entry.match(timestampRegex)?.[0]`: the leftmost timestamp of the entry. */
  function FirstTimestamp(entry: string): Option<string> {
    match FindFirst(TimestampPattern, entry, 0)
    case Some(m) => Some(entry[m.start..m.end])
    case None => None
  }

  /** The timestamp found is a timestamp, the leftmost one of the entry, and
      none is found exactly when the entry holds no timestamp. */
  lemma FirstTimestampSpec(entry: string)
    ensures var r := FirstTimestamp(entry);
      && (r.Some? ==> IsTimestamp(r.value))
      && (r.Some? ==> exists q: nat, j: nat :: FirstIn(TimestampPattern, entry, q, j) && r.value == entry[q..j])
      && (r.None? <==> Absent(TimestampPattern, entry))
  {
    Leftmost(TimestampPattern, entry);
  }

  /** Where the links of the entry lie. */
  function LinkSpans(entry: string): (r: seq<Span>)
    ensures forall k :: 0 <= k < |r| ==> r[k].start < r[k].end <= |entry|
  {
    AllMatches(UrlPattern, entry, 0)
  }

  /** `entry.match(urlRegex /g)`: every link of the entry, left to right. */
  function Links(entry: string): seq<string> {
    Texts(entry, LinkSpans(entry))
  }

  /** Every link is a web address, and there are none exactly when no web
      address occurs in the entry. */
  lemma LinksSpec(entry: string)
    ensures forall k :: 0 <= k < |Links(entry)| ==> IsUrl(Links(entry)[k])
    ensures Links(entry) == [] <==> Absent(UrlPattern, entry)
  {
    var spans := LinkSpans(entry);
    AllMatchesMatch(UrlPattern, entry, 0);
    AllMatchesFirst(UrlPattern, entry, 0);
    Leftmost(UrlPattern, entry);
    var r := Links(entry);
    forall k | 0 <= k < |r| ensures IsUrl(r[k]) {
      Sound(UrlPattern, entry, spans[k].start);
      UrlLang(r[k]);
    }
  }

  /** Each link runs on to the next whitespace character or the end of the
      entry, and the links come in order without overlapping. */
  lemma LinksWhole(entry: string)
    ensures |Links(entry)| == |LinkSpans(entry)|
    ensures forall k :: 0 <= k < |LinkSpans(entry)| ==>
      var sp := LinkSpans(entry)[k];
      && Links(entry)[k] == entry[sp.start..sp.end]
      && (sp.end == |entry| || IsWhitespace(entry[sp.end]))
    ensures forall k :: 0 <= k < |LinkSpans(entry)| - 1 ==>
      LinkSpans(entry)[k].end <= LinkSpans(entry)[k + 1].start
  {
    var spans := LinkSpans(entry);
    AllMatchesMatch(UrlPattern, entry, 0);
    AllMatchesOrdered(UrlPattern, entry, 0);
    forall k | 0 <= k < |spans| ensures spans[k].end == |entry| || IsWhitespace(entry[spans[k].end]) {
      GreedyLast(UrlPattern, entry, spans[k].start);
    }
  }

  /** Every web address in the entry is taken: a string of the link pattern
      starting at `q` lies inside one of the links. */
  lemma LinksCover(entry: string, q: nat, j: nat) returns (k: nat)
    requires q <= j <= |entry| && InLang(UrlPattern, entry[q..j])
    ensures k < |LinkSpans(entry)| && LinkSpans(entry)[k].start <= q < LinkSpans(entry)[k].end
    ensures Links(entry)[k] == entry[LinkSpans(entry)[k].start..LinkSpans(entry)[k].end]
  {
    var spans := LinkSpans(entry);
    Complete(UrlPattern, entry, q, j);
    AllMatchesCover(UrlPattern, entry, 0, q);
    k :| 0 <= k < |spans| && spans[k].start <= q < spans[k].end;
  }

  /** `entry.match(quoteRegex)?.[1]`: the text inside the leftmost pair of
      double quotes on one line, stopping at the first closing quote. */
  function FirstQuote(entry: string): Option<string> {
    match FindFirst(QuotePattern, entry, 0)
    case Some(m) =>
      DelimitedMatch('"', '"', entry, m.start);
      Some(entry[m.start + 1..m.end - 1])
    case None => None
  }

  /** The quote found is the inside of the leftmost quoted text, it holds no
      double quote and no line break, and none is found exactly when no
      quoted text occurs in the entry. */
  lemma FirstQuoteSpec(entry: string)
    ensures var r := FirstQuote(entry);
      && (r.Some? ==> IsInlineText(r.value))
      && (r.Some? ==> exists q: nat, j: nat ::
            FirstIn(QuotePattern, entry, q, j) && q + 2 <= j && r.value == entry[q + 1..j - 1])
      && (r.None? <==> Absent(QuotePattern, entry))
  {
    var f := FindFirst(QuotePattern, entry, 0);
    if f.Some? {
      var q, j := f.value.start, f.value.end;
      QuoteFound(entry);
      assert FirstIn(QuotePattern, entry, q, j) by { Leftmost(QuotePattern, entry); }
      assert !Absent(QuotePattern, entry) by { Leftmost(QuotePattern, entry); }
    } else {
      assert Absent(QuotePattern, entry) by { Leftmost(QuotePattern, entry); }
    }
  }

  /** The quote found is the inside of the leftmost quoted text, which is
      text on one line without a double quote. */
  lemma QuoteFound(entry: string)
    requires FindFirst(QuotePattern, entry, 0).Some?
    ensures var m := FindFirst(QuotePattern, entry, 0).value;
      && m.start + 2 <= m.end
      && FirstQuote(entry) == Some(entry[m.start + 1..m.end - 1])
      && IsInlineText(entry[m.start + 1..m.end - 1])
  {
    var m := FindFirst(QuotePattern, entry, 0).value;
    DelimitedMatch('"', '"', entry, m.start);
    var v := entry[m.start + 1..m.end - 1];
    assert forall k :: 0 <= k < |v| ==> v[k] == entry[m.start + 1 + k];
  }

  /** The lines of a list entry that begin with `-`, in order. */
  function DashLines(lines: seq<string>): (r: seq<string>)
    ensures |r| <= |lines|
    ensures forall k :: 0 <= k < |r| ==> StartsWith(r[k], "-") && r[k] in lines
    ensures forall k :: 0 <= k < |lines| && StartsWith(lines[k], "-") ==> lines[k] in r
  {
    if lines == [] then []
    else
      var rest := DashLines(lines[1..]);
      assert forall k :: 1 <= k < |lines| ==> lines[k] == lines[1..][k - 1];
      if StartsWith(lines[0], "-") then [lines[0]] + rest else rest
  }

  /** Filtering keeps the order of the lines. */
  lemma {:induction false} DashLinesAppend(a: seq<string>, b: seq<string>)
    ensures DashLines(a + b) == DashLines(a) + DashLines(b)
    decreases |a|
  {
    if a == [] {
      assert a + b == b;
    } else {
      assert (a + b)[0] == a[0] && (a + b)[1..] == a[1..] + b;
      DashLinesAppend(a[1..], b);
    }
  }

  /** `replace("-", "")` on a line that begins with `-` drops that dash. */
  lemma DropDash(line: string)
    requires StartsWith(line, "-")
    ensures ReplaceFirst(line, "-", "") == line[1..]
  {
    assert FirstOccurrence(line, "-", 0);
  }

  /** `entry.split("\n").filter(startsWith "-").map(replace("-", "").trim())`:
      each dash line without its dash, trimmed. */
  function ReadingItems(entry: string): (r: seq<string>)
    ensures var d := DashLines(Split(entry, "\n"));
      |r| == |d| && forall k :: 0 <= k < |r| ==> r[k] == Trim(d[k][1..])
  {
    var d := DashLines(Split(entry, "\n"));
    var r := seq(|d|, k requires 0 <= k < |d| => Trim(ReplaceFirst(d[k], "-", "")));
    forall k | 0 <= k < |d| ensures r[k] == Trim(d[k][1..]) {
      DropDash(d[k]);
    }
    r
  }

  /** Which of the four tests of the loop an entry meets first. */
  datatype Kind = LinkEntry | QuoteEntry | ReadingEntry | NoteEntry

  function KindOf(entry: string): Kind {
    if Contains(entry, "http") then LinkEntry
    else if Contains(entry, "\"") then QuoteEntry
    else if Contains(entry, "Reading list:") || Contains(entry, "Need to finish these") then ReadingEntry
    else NoteEntry
  }

  /** The five lists of the analysis. */
  datatype Categories = Categories(
    links: seq<string>,
    quotes: seq<string>,
    personalNotes: seq<string>,
    readingLists: seq<string>,
    timestamps: seq<string>)

  const NoCategories: Categories := Categories([], [], [], [], [])

  /** Each list of `a` followed by the same list of `b`. */
  function Concat(a: Categories, b: Categories): Categories {
    Categories(a.links + b.links, a.quotes + b.quotes, a.personalNotes + b.personalNotes,
      a.readingLists + b.readingLists, a.timestamps + b.timestamps)
  }

  function OptionToSeq(o: Option<string>): seq<string> {
    if o.Some? then [o.value] else []
  }

  /** What one entry adds to each list. */
  function Contribution(entry: string): (c: Categories)
    ensures |c.timestamps| <= 1 && |c.quotes| <= 1 && |c.personalNotes| <= 1
  {
    var kind := KindOf(entry);
    Categories(
      if kind == LinkEntry then Links(entry) else [],
      if kind == QuoteEntry then OptionToSeq(FirstQuote(entry)) else [],
      if kind == NoteEntry then [Trim(entry)] else [],
      if kind == ReadingEntry then ReadingItems(entry) else [],
      OptionToSeq(FirstTimestamp(entry)))
  }

  /** What each entry adds, entry by entry. */
  function Contributions(entries: seq<string>): (r: seq<Categories>)
    ensures |r| == |entries|
  {
    seq(|entries|, k requires 0 <= k < |entries| => Contribution(entries[k]))
  }

  /** The lists of several contributions, one after the other. */
  function Gather(cs: seq<Categories>): Categories {
    if cs == [] then NoCategories
    else Concat(Gather(cs[..|cs| - 1]), cs[|cs| - 1])
  }

  /** The lists after the entries, one entry after the other. */
  function Categorize(entries: seq<string>): Categories {
    Gather(Contributions(entries))
  }

  /** Each list of `Concat(a, b)` is the list of `a` followed by that of `b`,
      and concatenation groups either way. */
  lemma ConcatAssoc(a: Categories, b: Categories, c: Categories)
    ensures Concat(Concat(a, b), c) == Concat(a, Concat(b, c))
  {
    assert a.links + b.links + c.links == a.links + (b.links + c.links);
    assert a.quotes + b.quotes + c.quotes == a.quotes + (b.quotes + c.quotes);
    assert a.personalNotes + b.personalNotes + c.personalNotes == a.personalNotes + (b.personalNotes + c.personalNotes);
    assert a.readingLists + b.readingLists + c.readingLists == a.readingLists + (b.readingLists + c.readingLists);
    assert a.timestamps + b.timestamps + c.timestamps == a.timestamps + (b.timestamps + c.timestamps);
  }

  /** The entries are handled one after the other: categorizing two runs of
      entries gives the lists of the first run followed by those of the
      second, so every list keeps the order of the log. */
  lemma CategorizeAppend(a: seq<string>, b: seq<string>)
    ensures Categorize(a + b) == Concat(Categorize(a), Categorize(b))
  {
    var x, y, z := Contributions(a + b), Contributions(a), Contributions(b);
    forall k | 0 <= k < |x| ensures x[k] == (y + z)[k] {
      if k < |a| {
        assert (a + b)[k] == a[k];
      } else {
        assert (a + b)[k] == b[k - |a|];
      }
    }
    assert x == y + z;
    GatherAppend(Contributions(a), Contributions(b));
  }

  lemma {:induction false} GatherAppend(x: seq<Categories>, y: seq<Categories>)
    ensures Gather(x + y) == Concat(Gather(x), Gather(y))
    decreases |y|
  {
    if y == [] {
      assert x + y == x;
      ConcatNone(Gather(x));
    } else {
      var n := |y| - 1;
      assert (x + y)[..|x| + n] == x + y[..n];
      GatherAppend(x, y[..n]);
      ConcatAssoc(Gather(x), Gather(y[..n]), y[n]);
    }
  }

  /** Adding no entries changes nothing. */
  lemma ConcatNone(c: Categories)
    ensures Concat(c, NoCategories) == c
  {
    assert c.links + [] == c.links && c.quotes + [] == c.quotes && c.personalNotes + [] == c.personalNotes;
    assert c.readingLists + [] == c.readingLists && c.timestamps + [] == c.timestamps;
  }

  /** No whitespace at either end, as `trim` leaves a string. */
  predicate IsTrimmed(s: string) {
    s == [] || (!IsWhitespace(s[0]) && !IsWhitespace(s[|s| - 1]))
  }

  /** Text on one line with no double quote in it. */
  predicate IsInlineText(s: string) {
    forall m :: 0 <= m < |s| ==> s[m] != '"' && !IsLineTerminator(s[m])
  }

  /** What every list holds: links are web addresses, quotes are text on one
      line without a double quote, timestamps are chat timestamps, and notes
      and reading-list items are trimmed. */
  ghost predicate WellFormed(c: Categories) {
    && (forall k :: 0 <= k < |c.links| ==> IsUrl(c.links[k]))
    && (forall k :: 0 <= k < |c.quotes| ==> IsInlineText(c.quotes[k]))
    && (forall k :: 0 <= k < |c.personalNotes| ==> IsTrimmed(c.personalNotes[k]))
    && (forall k :: 0 <= k < |c.readingLists| ==> IsTrimmed(c.readingLists[k]))
    && (forall k :: 0 <= k < |c.timestamps| ==> IsTimestamp(c.timestamps[k]))
  }

  lemma ConcatWellFormed(a: Categories, b: Categories)
    requires WellFormed(a) && WellFormed(b)
    ensures WellFormed(Concat(a, b))
  {
    var c := Concat(a, b);
    assert forall k :: |a.links| <= k < |c.links| ==> c.links[k] == b.links[k - |a.links|];
    assert forall k :: |a.quotes| <= k < |c.quotes| ==> c.quotes[k] == b.quotes[k - |a.quotes|];
    assert forall k :: |a.personalNotes| <= k < |c.personalNotes| ==>
      c.personalNotes[k] == b.personalNotes[k - |a.personalNotes|];
    assert forall k :: |a.readingLists| <= k < |c.readingLists| ==>
      c.readingLists[k] == b.readingLists[k - |a.readingLists|];
    assert forall k :: |a.timestamps| <= k < |c.timestamps| ==>
      c.timestamps[k] == b.timestamps[k - |a.timestamps|];
  }

  /** Reading-list items are trimmed. */
  lemma ReadingItemsTrimmed(entry: string)
    ensures forall k :: 0 <= k < |ReadingItems(entry)| ==> IsTrimmed(ReadingItems(entry)[k])
  {
    var d := DashLines(Split(entry, "\n"));
    var r := ReadingItems(entry);
    forall k | 0 <= k < |r| ensures IsTrimmed(r[k]) {
      assert r[k] == Trim(d[k][1..]);
    }
  }

  lemma ContributionLinks(entry: string)
    ensures forall k :: 0 <= k < |Contribution(entry).links| ==> IsUrl(Contribution(entry).links[k])
  {
    LinksSpec(entry);
  }

  lemma ContributionQuotes(entry: string)
    ensures forall k :: 0 <= k < |Contribution(entry).quotes| ==> IsInlineText(Contribution(entry).quotes[k])
  {
    FirstQuoteSpec(entry);
  }

  lemma ContributionNotes(entry: string)
    ensures forall k :: 0 <= k < |Contribution(entry).personalNotes| ==>
      IsTrimmed(Contribution(entry).personalNotes[k])
  {
    var notes := Contribution(entry).personalNotes;
    assert notes == [] || notes == [Trim(entry)];
    assert IsTrimmed(Trim(entry));
  }

  lemma ContributionReading(entry: string)
    ensures forall k :: 0 <= k < |Contribution(entry).readingLists| ==>
      IsTrimmed(Contribution(entry).readingLists[k])
  {
    ReadingItemsTrimmed(entry);
  }

  lemma ContributionTimestamps(entry: string)
    ensures forall k :: 0 <= k < |Contribution(entry).timestamps| ==>
      IsTimestamp(Contribution(entry).timestamps[k])
  {
    FirstTimestampSpec(entry);
  }

  /** What one entry adds is well formed. */
  lemma ContributionWellFormed(entry: string)
    ensures WellFormed(Contribution(entry))
  {
    ContributionLinks(entry);
    ContributionQuotes(entry);
    ContributionNotes(entry);
    ContributionReading(entry);
    ContributionTimestamps(entry);
  }

  /** Whatever the log, the lists are well formed. */
  lemma CategorizeWellFormed(entries: seq<string>)
    ensures WellFormed(Categorize(entries))
  {
    var cs := Contributions(entries);
    forall k | 0 <= k < |cs| ensures WellFormed(cs[k]) {
      ContributionWellFormed(entries[k]);
    }
    GatherWellFormed(cs);
  }

  lemma {:induction false} GatherWellFormed(cs: seq<Categories>)
    requires forall k :: 0 <= k < |cs| ==> WellFormed(cs[k])
    ensures WellFormed(Gather(cs))
    decreases |cs|
  {
    if cs != [] {
      var n := |cs| - 1;
      assert forall k :: 0 <= k < n ==> cs[..n][k] == cs[k];
      GatherWellFormed(cs[..n]);
      ConcatWellFormed(Gather(cs[..n]), cs[n]);
    }
  }

  /** Each entry adds at most one timestamp, one quote and one note, so
      none of those lists is longer than the log has entries. */
  lemma CategorizeBounds(entries: seq<string>)
    ensures |Categorize(entries).timestamps| <= |entries|
    ensures |Categorize(entries).quotes| <= |entries|
    ensures |Categorize(entries).personalNotes| <= |entries|
  {
    GatherBounds(Contributions(entries));
  }

  lemma {:induction false} GatherBounds(cs: seq<Categories>)
    requires forall k :: 0 <= k < |cs| ==>
      |cs[k].timestamps| <= 1 && |cs[k].quotes| <= 1 && |cs[k].personalNotes| <= 1
    ensures |Gather(cs).timestamps| <= |cs| && |Gather(cs).quotes| <= |cs|
    ensures |Gather(cs).personalNotes| <= |cs|
    decreases |cs|
  {
    if cs != [] {
      var n := |cs| - 1;
      assert forall k :: 0 <= k < n ==> cs[..n][k] == cs[k];
      GatherBounds(cs[..n]);
    }
  }

  /** One more entry: its contribution goes after the lists so far. */
  lemma CategorizeSnoc(entries: seq<string>, i: nat)
    requires i < |entries|
    ensures Categorize(entries[..i + 1]) == Concat(Categorize(entries[..i]), Contribution(entries[i]))
  {
    var cs := Contributions(entries[..i + 1]);
    assert cs[..i] == Contributions(entries[..i]);
  }

  /** An entry lands in at most one of links, quotes, reading list and
      notes, and it becomes a note, the whole entry trimmed, exactly when it
      has neither `http`, nor a double quote, nor either reading-list marker. */
  lemma OneCategory(entry: string)
    ensures var c := Contribution(entry);
      (if c.links != [] then 1 else 0) + (if c.quotes != [] then 1 else 0)
        + (if c.readingLists != [] then 1 else 0) + (if c.personalNotes != [] then 1 else 0) <= 1
    ensures var c := Contribution(entry);
      c.personalNotes == (if !Contains(entry, "http") && !Contains(entry, "\"")
        && !Contains(entry, "Reading list:") && !Contains(entry, "Need to finish these")
        then [Trim(entry)] else [])
    ensures Contains(entry, "http") ==> Contribution(entry).links == Links(entry)
  {
  }

  // ---------------------------------------------------------------------
  // Counting timestamps per date
  // ---------------------------------------------------------------------

  /** `ts.match(dateRegex)?.[0]`: the leftmost date in the text. */
  function DateOf(ts: string): Option<string> {
    match FindFirst(DatePattern, ts, 0)
    case Some(m) => Some(ts[m.start..m.end])
    case None => None
  }

  /** The date found is the leftmost date of the text, and none is found
      exactly when the text holds no date. */
  lemma DateOfSpec(ts: string)
    ensures var r := DateOf(ts);
      && (r.Some? ==> InLang(DatePattern, r.value))
      && (r.Some? ==> exists q: nat, j: nat :: FirstIn(DatePattern, ts, q, j) && r.value == ts[q..j])
      && (r.None? <==> Absent(DatePattern, ts))
  {
    Leftmost(DatePattern, ts);
  }

  /** Every timestamp holds a date, so every collected timestamp is counted. */
  lemma TimestampHasDate(t: string)
    requires IsTimestamp(t)
    ensures DateOf(t).Some?
  {
    var n := DateInTimestamp(t);
    Present(DatePattern, t, 1, 1 + n);
    DateOfSpec(t);
  }

  /** A timestamp holds a date right after its opening bracket. */
  lemma DateInTimestamp(t: string) returns (n: nat)
    requires IsTimestamp(t)
    ensures 1 + n <= |t| && t[0] == '[' && InLang(DatePattern, t[1..1 + n])
    ensures InLang(TimePattern + [Lit(']')], t[1 + n..])
  {
    assert TimestampPattern == [Lit('[')] + DatePattern + (TimePattern + [Lit(']')]);
    n := MiddleLang('[', DatePattern, TimePattern + [Lit(']')], t);
  }

  /** A string of the date pattern: one or two digits, `/`, one or two
      digits, `/`, two to four digits; `a` and `b` are the slashes. */
  lemma DateShape(u: string) returns (a: nat, b: nat)
    requires InLang(DatePattern, u)
    ensures 1 <= a <= 2 && a + 2 <= b <= a + 3 && b + 3 <= |u| <= b + 5
    ensures u[a] == '/' && u[b] == '/'
    ensures forall m :: 0 <= m < |u| && m != a && m != b ==> IsDigit(u[m])
  {
    a, b := SlashedShape(Digits(1, 2), Digits(1, 2), Digits(2, 4), u);
  }

  /** A string of `x`, `/`, `y`, `/`, `z`: the slashes are at `a` and `b`. */
  lemma SlashedShape(x: Atom, y: Atom, z: Atom, u: string) returns (a: nat, b: nat)
    requires InLang([x, Lit('/'), y, Lit('/'), z], u)
    ensures a < b < |u| && u[a] == '/' && u[b] == '/'
    ensures x.min <= a && (x.max.None? || a <= x.max.value)
    ensures y.min <= b - a - 1 && (y.max.None? || b - a - 1 <= y.max.value)
    ensures z.min <= |u| - b - 1 && (z.max.None? || |u| - b - 1 <= z.max.value)
    ensures forall m :: 0 <= m < a ==> InClass(x.cls, u[m])
    ensures forall m :: a < m < b ==> InClass(y.cls, u[m])
    ensures forall m :: b < m < |u| ==> InClass(z.cls, u[m])
  {
    var p := [x, Lit('/'), y, Lit('/'), z];
    var p3 := [Lit('/'), z];
    assert p[1..] == [Lit('/'), y] + p3;
    assert u[0..] == u;
    a := UnconsAt(p, u, 0);
    FitsAt(x, u, 0, a);
    var n2 := SlashThen(y, p3, u, a);
    b := a + 1 + n2;
    SlashLast(z, u, b);
  }

  /** A string of `/`, then atom `x`, then `q`, starting at `i` of `u`. */
  lemma SlashThen(x: Atom, q: Pattern, u: string, i: nat) returns (n: nat)
    requires i <= |u| && InLang([Lit('/'), x] + q, u[i..])
    ensures i + 1 + n <= |u| && u[i] == '/' && x.min <= n && (x.max.None? || n <= x.max.value)
    ensures forall m :: i + 1 <= m < i + 1 + n ==> InClass(x.cls, u[m])
    ensures InLang(q, u[i + 1 + n..])
  {
    var p := [Lit('/'), x] + q;
    assert p[1..] == [x] + q && p[1..][1..] == q;
    var one := UnconsAt(p, u, i);
    FitsAt(Lit('/'), u, i, one);
    n := UnconsAt(p[1..], u, i + 1);
    FitsAt(x, u, i + 1, n);
  }

  /** A string of `/` and then atom `x`, from `i` to the end of `u`. */
  lemma SlashLast(x: Atom, u: string, i: nat)
    requires i <= |u| && InLang([Lit('/'), x], u[i..])
    ensures i + 1 + x.min <= |u| && u[i] == '/' && (x.max.None? || |u| <= i + 1 + x.max.value)
    ensures forall m :: i + 1 <= m < |u| ==> InClass(x.cls, u[m])
  {
    var p := [Lit('/'), x];
    assert p == [Lit('/'), x] + [];
    var n := SlashThen(x, [], u, i);
    assert u[i + 1 + n..] == [];
  }

  /** The date pattern at `i` takes a whole date: when the date at `i` ends
      at `e` and is not followed by a digit, the match ends at `e`. */
  lemma DateMatchAt(s: string, i: nat, a: nat, b: nat, e: nat)
    requires 1 <= a <= 2 && a + 2 <= b <= a + 3 && b + 3 <= e - i <= b + 5 && e <= |s|
    requires s[i + a] == '/' && s[i + b] == '/'
    requires forall m :: i <= m < e && m != i + a && m != i + b ==> IsDigit(s[m])
    requires e == |s| || !IsDigit(s[e])
    ensures MatchAt(DatePattern, s, i) == Some(e)
  {
    SlashedMatch(Digits(1, 2), Digits(1, 2), Digits(2, 4), s, i, a, b, e);
  }

  /** `x`, `/`, `y`, `/`, `z`, each greedy atom taking all it can, match
      from `i` to `e`. */
  lemma SlashedMatch(x: Atom, y: Atom, z: Atom, s: string, i: nat, a: nat, b: nat, e: nat)
    requires x.greedy && y.greedy && z.greedy
    requires 0 < a < b < e - i && e <= |s| && s[i + a] == '/' && s[i + b] == '/'
    requires x.min <= a && (x.max.None? || a <= x.max.value)
    requires y.min <= b - a - 1 && (y.max.None? || b - a - 1 <= y.max.value)
    requires z.min <= e - i - b - 1 && (z.max.None? || e - i - b - 1 <= z.max.value)
    requires forall m :: i <= m < i + a ==> InClass(x.cls, s[m])
    requires forall m :: i + a < m < i + b ==> InClass(y.cls, s[m])
    requires forall m :: i + b < m < e ==> InClass(z.cls, s[m])
    requires !InClass(x.cls, '/') && !InClass(y.cls, '/')
    requires e == |s| || !InClass(z.cls, s[e])
    ensures MatchAt([x, Lit('/'), y, Lit('/'), z], s, i) == Some(e)
  {
    EmptyPattern(s, e);
    SlashThenMatch(z, [], s, i + b, e - i - b - 1, e);
    RunsBefore(x, y, [Lit('/'), z] + [], s, i, a, b, e);
    assert [x] + ([Lit('/'), y] + ([Lit('/'), z] + [])) == [x, Lit('/'), y, Lit('/'), z];
  }

  /** `x`, `/`, `y` taking all they can, then a rest matching from `i + b`. */
  lemma RunsBefore(x: Atom, y: Atom, q: Pattern, s: string, i: nat, a: nat, b: nat, e: nat)
    requires x.greedy && y.greedy
    requires 0 < a < b < |s| - i && s[i + a] == '/' && s[i + b] == '/'
    requires x.min <= a && (x.max.None? || a <= x.max.value)
    requires y.min <= b - a - 1 && (y.max.None? || b - a - 1 <= y.max.value)
    requires forall m :: i <= m < i + a ==> InClass(x.cls, s[m])
    requires forall m :: i + a < m < i + b ==> InClass(y.cls, s[m])
    requires !InClass(x.cls, '/') && !InClass(y.cls, '/')
    requires MatchAt(q, s, i + b) == Some(e)
    ensures MatchAt([x] + ([Lit('/'), y] + q), s, i) == Some(e)
  {
    SlashThenMatch(y, q, s, i + a, b - a - 1, e);
    GreedyStep(x, [Lit('/'), y] + q, s, i, a, e);
  }

  /** The date counted for a timestamp is its date part: the text between
      the opening `[` and the first `,`. */
  lemma DateOfTimestamp(t: string)
    requires IsTimestamp(t)
    ensures var c := IndexOf(t, ",", 0);
      c.Some? && 1 <= c.value && DateOf(t) == Some(t[1..c.value])
  {
    var e, a, b := DateEnd(t);
    DateMatchAt(t, 1, a, b, e);
    assert DatePattern[0] == Digits(1, 2);
    NoStart(DatePattern, t, 0);
    SecondStart(DatePattern, t, e);
    FirstComma(t, e);
  }

  /** Where the date of a timestamp lies: digits from 1 to `e` but for the
      slashes at `1 + a` and `1 + b`, and the `,` at `e`. */
  lemma DateEnd(t: string) returns (e: nat, a: nat, b: nat)
    requires IsTimestamp(t)
    ensures 1 <= a <= 2 && a + 2 <= b <= a + 3 && b + 3 <= e - 1 <= b + 5 && e < |t|
    ensures t[0] == '[' && t[e] == ',' && t[1 + a] == '/' && t[1 + b] == '/'
    ensures forall m :: 1 <= m < e && m != 1 + a && m != 1 + b ==> IsDigit(t[m])
  {
    var n := DateInTimestamp(t);
    e := 1 + n;
    CommaAfterDate(t[e..]);
    var u := t[1..e];
    a, b := DateShape(u);
    DigitsInside(t, u, e, a, b);
  }

  /** The time of a timestamp starts with `,`. */
  lemma CommaAfterDate(v: string)
    requires InLang(TimePattern + [Lit(']')], v)
    ensures v != [] && v[0] == ','
  {
    assert TimePattern[0] == Lit(',');
    LitLang(TimePattern + [Lit(']')], v);
  }

  /** The digits of the date `u == t[1..e]`, read on `t`. */
  lemma DigitsInside(t: string, u: string, e: nat, a: nat, b: nat)
    requires 1 <= e <= |t| && u == t[1..e] && a < |u| && b < |u|
    requires forall m :: 0 <= m < |u| && m != a && m != b ==> IsDigit(u[m])
    ensures forall m :: 1 <= m < e && m != 1 + a && m != 1 + b ==> IsDigit(t[m])
  {
    forall m | 1 <= m < e && m != 1 + a && m != 1 + b ensures IsDigit(t[m]) {
      assert t[m] == u[m - 1];
    }
  }

  /** The first `,` of a text: none before `e` and one at `e`. */
  lemma FirstComma(t: string, e: nat)
    requires e < |t| && t[e] == ','
    requires forall m :: 0 <= m < e ==> t[m] != ','
    ensures IndexOf(t, ",", 0) == Some(e)
  {
    assert OccursAt(t, ",", e);
    forall k: nat | k < e ensures !OccursAt(t, ",", k) {
      assert t[k..k + 1][0] == t[k];
    }
  }

  /** How many of the timestamps have date `d`. */
  function NumWithDate(ts: seq<string>, d: string): nat {
    if ts == [] then 0
    else NumWithDate(ts[..|ts| - 1], d) + (if DateOf(ts[|ts| - 1]) == Some(d) then 1 else 0)
  }

  /** The `reduce` over the timestamps: `acc[date] = (acc[date] || 0) + 1`
      for the date of each timestamp that has one. */
  function DateCounts(ts: seq<string>): map<string, nat>
  {
    if ts == [] then map[]
    else
      var acc := DateCounts(ts[..|ts| - 1]);
      match DateOf(ts[|ts| - 1])
      case Some(d) => acc[d := (if d in acc then acc[d] else 0) + 1]
      case None => acc
  }

  /** The counts are the number of timestamps with each date, and a date is
      a key exactly when some timestamp has it. */
  lemma {:induction false} DateCountsCount(ts: seq<string>)
    ensures forall d :: d in DateCounts(ts) <==> NumWithDate(ts, d) > 0
    ensures forall d :: d in DateCounts(ts) ==> DateCounts(ts)[d] == NumWithDate(ts, d)
    decreases |ts|
  {
    if ts != [] {
      DateCountsCount(ts[..|ts| - 1]);
    }
  }

  /** A date counted at least once is the date of one of the timestamps. */
  lemma {:induction false} CountedDateOccurs(ts: seq<string>, d: string)
    requires NumWithDate(ts, d) > 0
    ensures exists k :: 0 <= k < |ts| && DateOf(ts[k]) == Some(d)
    decreases |ts|
  {
    var last := |ts| - 1;
    if DateOf(ts[last]) != Some(d) {
      CountedDateOccurs(ts[..last], d);
      var k :| 0 <= k < last && DateOf(ts[..last][k]) == Some(d);
      assert ts[..last][k] == ts[k];
    }
  }

  /** Every key of the counts is a date that one of the timestamps holds. */
  lemma DateKeys(ts: seq<string>)
    ensures forall d :: d in DateCounts(ts) ==>
      InLang(DatePattern, d) && exists k :: 0 <= k < |ts| && DateOf(ts[k]) == Some(d)
  {
    DateCountsCount(ts);
    forall d | d in DateCounts(ts)
      ensures InLang(DatePattern, d) && exists k :: 0 <= k < |ts| && DateOf(ts[k]) == Some(d)
    {
      CountedDateOccurs(ts, d);
      var k :| 0 <= k < |ts| && DateOf(ts[k]) == Some(d);
      DateOfSpec(ts[k]);
    }
  }

  /** Every timestamp's date is a key of the counts. */
  lemma {:induction false} EveryTimestampCounted(ts: seq<string>, k: nat)
    requires k < |ts| && IsTimestamp(ts[k])
    ensures DateOf(ts[k]).Some? && DateOf(ts[k]).value in DateCounts(ts)
    decreases |ts|
  {
    TimestampHasDate(ts[k]);
    var init := ts[..|ts| - 1];
    if k < |ts| - 1 {
      EveryTimestampCounted(init, k);
      assert init[k] == ts[k];
      DateCountsGrow(ts);
    }
  }

  /** The counts of a longer list keep every date of the shorter one. */
  lemma DateCountsGrow(ts: seq<string>)
    requires ts != []
    ensures DateCounts(ts[..|ts| - 1]).Keys <= DateCounts(ts).Keys
  {
  }

  /** One more timestamp: the count of its date goes up by one. */
  lemma DateCountsSnoc(ts: seq<string>, i: nat)
    requires i < |ts|
    ensures DateCounts(ts[..i + 1]) ==
      var acc := DateCounts(ts[..i]);
      match DateOf(ts[i])
      case Some(d) => acc[d := (if d in acc then acc[d] else 0) + 1]
      case None => acc
  {
    assert ts[..i + 1][..i] == ts[..i];
    assert ts[..i + 1][i] == ts[i];
  }

  /** The sum of the counts of the dates in `keys`. */
  ghost function SumOver(m: map<string, nat>, keys: set<string>): nat
    requires keys <= m.Keys
    decreases keys
  {
    if keys == {} then 0
    else
      var d :| d in keys;
      m[d] + SumOver(m, keys - {d})
  }

  /** The sum of all the counts. */
  ghost function Total(m: map<string, nat>): nat {
    SumOver(m, m.Keys)
  }

  /** The sum does not depend on which key is taken first. */
  lemma {:induction false} SumOverPick(m: map<string, nat>, keys: set<string>, x: string)
    requires keys <= m.Keys && x in keys
    ensures SumOver(m, keys) == m[x] + SumOver(m, keys - {x})
    decreases keys
  {
    var d :| d in keys && SumOver(m, keys) == m[d] + SumOver(m, keys - {d});
    if d != x {
      SumOverPick(m, keys - {d}, x);
      SumOverPick(m, keys - {x}, d);
      assert keys - {d} - {x} == keys - {x} - {d};
    }
  }

  /** Two maps that agree on `keys` have the same sum over them. */
  lemma {:induction false} SumOverAgree(m1: map<string, nat>, m2: map<string, nat>, keys: set<string>)
    requires keys <= m1.Keys && keys <= m2.Keys
    requires forall d :: d in keys ==> m1[d] == m2[d]
    ensures SumOver(m1, keys) == SumOver(m2, keys)
    decreases keys
  {
    if keys != {} {
      var d :| d in keys && SumOver(m1, keys) == m1[d] + SumOver(m1, keys - {d});
      SumOverPick(m2, keys, d);
      SumOverAgree(m1, m2, keys - {d});
    }
  }

  /** `acc[date] = (acc[date] || 0) + 1` adds one to the sum of the counts. */
  lemma TotalUpdate(m: map<string, nat>, d: string)
    ensures Total(m[d := (if d in m then m[d] else 0) + 1]) == Total(m) + 1
  {
    var m' := m[d := (if d in m then m[d] else 0) + 1];
    SumOverPick(m', m'.Keys, d);
    if d in m {
      SumOverPick(m, m.Keys, d);
      assert m'.Keys - {d} == m.Keys - {d};
      SumOverAgree(m', m, m.Keys - {d});
    } else {
      assert m'.Keys - {d} == m.Keys;
      SumOverAgree(m', m, m.Keys);
    }
  }

  /** How many of the timestamps hold a date. */
  function NumDated(ts: seq<string>): nat {
    if ts == [] then 0
    else NumDated(ts[..|ts| - 1]) + (if DateOf(ts[|ts| - 1]).Some? then 1 else 0)
  }

  /** The counts add up to the number of timestamps that hold a date. */
  lemma {:induction false} DateCountsTotal(ts: seq<string>)
    ensures Total(DateCounts(ts)) == NumDated(ts)
    decreases |ts|
  {
    if ts != [] {
      var init := ts[..|ts| - 1];
      DateCountsTotal(init);
      match DateOf(ts[|ts| - 1])
      case Some(d) => TotalUpdate(DateCounts(init), d);
      case None =>
    }
  }

  /** Every chat timestamp holds a date. */
  lemma {:induction false} AllDated(ts: seq<string>)
    requires forall k :: 0 <= k < |ts| ==> IsTimestamp(ts[k])
    ensures NumDated(ts) == |ts|
    decreases |ts|
  {
    if ts != [] {
      var n := |ts| - 1;
      assert forall k :: 0 <= k < n ==> ts[..n][k] == ts[k];
      AllDated(ts[..n]);
      TimestampHasDate(ts[n]);
    }
  }

  /** For collected timestamps every count is at least one and the counts
      add up to the number of timestamps. */
  lemma CountsAddUp(ts: seq<string>)
    requires forall k :: 0 <= k < |ts| ==> IsTimestamp(ts[k])
    ensures forall d :: d in DateCounts(ts) ==> DateCounts(ts)[d] >= 1
    ensures Total(DateCounts(ts)) == |ts|
  {
    DateCountsCount(ts);
    DateCountsTotal(ts);
    AllDated(ts);
  }

  /** The `reduce`: one pass over the timestamps, counting each date. */
  method CountTimestamps(timestamps: seq<string>) returns (counts: map<string, nat>)
    ensures counts == DateCounts(timestamps)
  {
    counts := map[];
    for i := 0 to |timestamps|
      invariant counts == DateCounts(timestamps[..i])
    {
      DateCountsSnoc(timestamps, i);
      var date := DateOf(timestamps[i]);
      if date.Some? {
        var d := date.value;
        counts := counts[d := (if d in counts then counts[d] else 0) + 1];
      }
    }
    assert timestamps[..|timestamps|] == timestamps;
  }

  // ---------------------------------------------------------------------
  // analysisLocal
  // ---------------------------------------------------------------------

  /** The result of the analysis. */
  datatype LogAnalysis = LogAnalysis(categories: Categories, timestampCounts: map<string, nat>)

  /** What one entry adds, written as the chain of tests of the loop. */
  lemma ContributionByTests(entry: string)
    ensures var c := Contribution(entry);
      var http, quote := Contains(entry, "http"), Contains(entry, "\"");
      var reading := Contains(entry, "Reading list:") || Contains(entry, "Need to finish these");
      && c.timestamps == OptionToSeq(FirstTimestamp(entry))
      && c.links == (if http then Links(entry) else [])
      && c.quotes == (if !http && quote then OptionToSeq(FirstQuote(entry)) else [])
      && c.readingLists == (if !http && !quote && reading then ReadingItems(entry) else [])
      && c.personalNotes == (if !http && !quote && !reading then [Trim(entry)] else [])
  {
  }

  /** The `forEach` callback: the entry's first timestamp is pushed, then the
      first test the entry meets decides whether its links, its quote, its
      reading-list items or the trimmed entry itself are pushed. */
  method AddEntry(categories: Categories, entry: string) returns (r: Categories)
    ensures var http, quote := Contains(entry, "http"), Contains(entry, "\"");
      var reading := Contains(entry, "Reading list:") || Contains(entry, "Need to finish these");
      && r.timestamps == categories.timestamps + OptionToSeq(FirstTimestamp(entry))
      && r.links == categories.links + (if http then Links(entry) else [])
      && r.quotes == categories.quotes + (if !http && quote then OptionToSeq(FirstQuote(entry)) else [])
      && r.readingLists == categories.readingLists + (if !http && !quote && reading then ReadingItems(entry) else [])
      && r.personalNotes == categories.personalNotes + (if !http && !quote && !reading then [Trim(entry)] else [])
  {
    var links, quotes, personalNotes, readingLists, timestamps :=
      categories.links, categories.quotes, categories.personalNotes,
      categories.readingLists, categories.timestamps;
    var timestamp := FirstTimestamp(entry);
    if timestamp.Some? {
      timestamps := timestamps + [timestamp.value];
    }
    if Contains(entry, "http") {
      links := links + Links(entry);
    } else if Contains(entry, "\"") {
      var quote := FirstQuote(entry);
      if quote.Some? {
        quotes := quotes + [quote.value];
      }
    } else if Contains(entry, "Reading list:") || Contains(entry, "Need to finish these") {
      readingLists := readingLists + ReadingItems(entry);
    } else {
      personalNotes := personalNotes + [Trim(entry)];
    }
    r := Categories(links, quotes, personalNotes, readingLists, timestamps);
  }

  /** `analysisLocal(logs)`: nothing for an empty log; otherwise the log is
      split at blank lines and every entry is sorted into the lists, then the
      timestamps are counted per date. */
  method AnalysisLocal(logs: string) returns (result: Option<LogAnalysis>)
    ensures result.None? <==> logs == []
    ensures result.Some? ==> result.value.categories == Categorize(Split(logs, "\n\n"))
    ensures result.Some? ==> result.value.timestampCounts == DateCounts(result.value.categories.timestamps)
    ensures result.Some? ==> WellFormed(result.value.categories)
    ensures result.Some? ==> Total(result.value.timestampCounts) == |result.value.categories.timestamps|
  {
    if logs == [] {
      return None;
    }
    var entries := Split(logs, "\n\n");
    var categories := NoCategories;
    assert entries[..0] == [];
    for i := 0 to |entries|
      invariant categories == Categorize(entries[..i])
    {
      CategorizeSnoc(entries, i);
      ContributionByTests(entries[i]);
      categories := AddEntry(categories, entries[i]);
    }
    assert entries[..|entries|] == entries;
    CategorizeWellFormed(entries);
    var timestampCounts := CountTimestamps(categories.timestamps);
    CountsAddUp(categories.timestamps);
    return Some(LogAnalysis(categories, timestampCounts));
  }
}
