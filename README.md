# Local chat-log analysis and its display helpers

This project models the local, offline half of a chat-log analyzer and proves properties of it in Dafny:

- `analysisLocal` (lib/analysis.ts).
  - It cuts an exported chat log into entries at blank lines (`"\n\n"`).
  - It collects the first bracketed timestamp `[M/D/YY, H:MM:SS AM]` of each entry.
  - It sorts each entry by the first of four tests it meets:
    1. links, when the entry contains `http`;
    2. a quote, when it contains `"`;
    3. reading-list items, when it contains `Reading list:` or `Need to finish these`;
    4. a personal note otherwise.
  - It counts the collected timestamps per date.
- Two display helpers of the categorized view (components/categorize-content.tsx):
  - `formatTimestamp` shows the text inside the leftmost `[...]`;
  - `parseNote` cuts a personal note into a timestamp label and its message.

The project has five modules, one per file:

- `Wrappers` (wrappers.dfy): `Option` and `Result`.
- `Strings` (strings.dfy): the JavaScript string built-ins the code relies on.
  - `includes`, by way of `indexOf`.
  - `split` on a separator, proved to be the inverse of `join`.
  - `trim`, using the ECMAScript whitespace and line-terminator sets.
  - `replace` with a string pattern, which replaces only the first occurrence.
- `Patterns` (patterns.dfy): the fixed regular expressions of the code, written as sequences of atoms.
  - An atom is a character class with a repetition range, matched greedily or lazily.
  - `MatchAt` is the backtracking matcher a JavaScript RegExp uses for such patterns.
  - `InLang` is the set of strings a pattern describes. `Sound` and `Complete` tie the two together.
  - `FindFirst` is `String.prototype.match` without the `g` flag: the leftmost match.
  - `AllMatches` is `match` with the `g` flag: the successive matches, left to right.
- `Analysis` (analysis.dfy): `analysisLocal`.
  - `AnalysisLocal` is imperative, like the source. It has a loop over the entries, and each entry goes through `AddEntry`, which applies the source's chain of tests.
  - `CountTimestamps` is a loop over the timestamps that updates a map, playing the `reduce` that bumps `acc[date]`.
  - Each method is proved against a specification function: `Categorize` for the categories and `DateCounts` for the counts. The properties are then proved about those functions.
- `Display` (display.dfy): `formatTimestamp` and `parseNote` as pure functions.

Two consequences of the code's branches:

- The code puts an entry in at most one bucket, not always in exactly one:
  - an entry that contains `http` but no `http://` or `https://` address adds nothing, and it does not fall through to the notes;
  - an entry whose `"` is never closed on its line adds nothing;
  - a reading-list entry without `-` lines adds nothing.

  `Analysis.OneCategory` states "at most one".
- An entry without a timestamp adds none, so there are at most as many timestamps as entries.

## Model

| member | source | states |
|---|---|---|
| Analysis.AnalysisLocal | lib/analysis.ts:77-129 | An empty log gives no result (`None`). For any other log, the result holds four facts. Its categories are `Categorize` of the log split at `"\n\n"`. Its counts are `DateCounts` of the collected timestamps. The categories are well formed: links are web addresses, quotes hold no `"` or line break, notes and items are trimmed, and timestamps match the timestamp pattern. The counts add up to the number of timestamps. |
| Analysis.AddEntry | lib/analysis.ts:89-116 | One pass of the `forEach` body. The entry's first timestamp, if any, is appended to `timestamps`. Only the bucket of the first test the entry meets can grow. It grows by exactly what that test takes: every address, the first quote, the dash lines without their dash and trimmed, or the trimmed entry. The other buckets stay as they were. |
| Analysis.ContributionByTests | lib/analysis.ts:95-115 | What one entry adds to each of the five lists, written as the source's `if`/`else if` chain over `includes`. |
| Analysis.CategorizeSnoc | lib/analysis.ts:89-116 | Processing entries one by one, in order, gives `Categorize` of the prefix. This is the loop invariant of `AnalysisLocal`. |
| Analysis.CategorizeAppend | lib/analysis.ts:89-116 | Categorizing two logs of entries one after the other is the concatenation of their categorizations, bucket by bucket. Entry order is kept. |
| Analysis.OneCategory | lib/analysis.ts:97-115 | An entry adds to at most one of links, quotes, readingLists and personalNotes. It adds the note `Trim(entry)` exactly when none of the four tests holds, and that includes empty entries. An entry that contains `http` adds `Links(entry)` to the links. |
| Analysis.CategorizeBounds | lib/analysis.ts:90-95 | Each entry adds at most one timestamp, one quote and one note, so their list lengths are bounded by the number of entries. |
| Analysis.CategorizeWellFormed | lib/analysis.ts:89-116 | Every pushed link, quote, item, note and timestamp has the form its extraction guarantees. |
| Analysis.FirstTimestampSpec | lib/analysis.ts:90-93 | The timestamp taken is a string of the bracketed date-and-time pattern, and it is the leftmost one. It is absent exactly when the entry holds none. |
| Analysis.LinksSpec | lib/analysis.ts:97-99 | Every link taken starts with `http://` or `https://`, has at least one more character and holds no whitespace. No link is taken exactly when the entry holds no address. |
| Analysis.LinksWhole | lib/analysis.ts:98 | The links are the texts of successive non-overlapping matches, left to right. Each match runs up to whitespace or the end of the entry. |
| Analysis.LinksCover | lib/analysis.ts:98-99 | No address is skipped: every string of the link pattern in the entry starts inside one of the pushed links. |
| Analysis.UrlLang | lib/analysis.ts:98 | A string of the pattern `https?:\/\/[^\s]+` is a web address in the sense above. |
| Analysis.FirstQuoteSpec | lib/analysis.ts:100-102 | The quote taken is the text strictly between the first `"` that is closed on its line and the next `"`. It holds no `"` and no line break. There is no quote exactly when no quoted text occurs. |
| Analysis.QuoteFound | lib/analysis.ts:101-102 | The group `quoteMatch[1]` is the inside of the leftmost match. |
| Analysis.ReadingItems | lib/analysis.ts:107-111 | The items are the entry's `-` lines in line order, one item each, with the dash removed and the rest trimmed. |
| Analysis.DashLines | lib/analysis.ts:108-109 | The filter keeps exactly the lines that start with `-`. Each kept line comes from the input, and every dash line is kept. |
| Analysis.DashLinesAppend | lib/analysis.ts:109 | The filter distributes over concatenation, so order is kept. |
| Analysis.DropDash | lib/analysis.ts:111 | On a dash line, `replace("-", "")` removes the leading dash. |
| Analysis.ReadingItemsTrimmed | lib/analysis.ts:111 | Every reading-list item is trimmed. |
| Analysis.TimestampShape | lib/analysis.ts:91 | A timestamp starts with `[` and ends with `]`. Between them there is no `]`, no `"` and no line break. |
| Analysis.DateOfSpec | lib/analysis.ts:120-122 | The date taken from a timestamp is the leftmost string of the date pattern. It is absent exactly when there is none. |
| Analysis.TimestampHasDate | lib/analysis.ts:120-121 | Every collected timestamp yields a date, so the `if (match)` guard never skips one. |
| Analysis.DateOfTimestamp | lib/analysis.ts:120-122 | The date counted for a timestamp is its date part: the text between the `[` and the first `,`. |
| Analysis.DateShape | lib/analysis.ts:120 | A string of `\d{1,2}\/\d{1,2}\/\d{2,4}` is digits with two slashes, the run sizes within the pattern's bounds. |
| Analysis.DateMatchAt | lib/analysis.ts:120 | The greedy date pattern, applied at a date that no digit follows, takes the whole date. |
| Analysis.CountTimestamps | lib/analysis.ts:119-126 | The accumulator built by the loop is `DateCounts` of the timestamps. |
| Analysis.DateCountsSnoc | lib/analysis.ts:122-123 | One step of the `reduce`: the count of the new timestamp's date goes up by one from 0 or its old value, and a timestamp without a date changes nothing. |
| Analysis.DateCountsCount | lib/analysis.ts:119-126 | A date is a key exactly when some timestamp has that date. Its count is the number of timestamps with that date. |
| Analysis.DateKeys | lib/analysis.ts:120-123 | Every key is a string of the date pattern and is the date of one of the timestamps. |
| Analysis.EveryTimestampCounted | lib/analysis.ts:119-126 | The date of every collected timestamp is a key. |
| Analysis.DateCountsTotal | lib/analysis.ts:119-126 | The counts add up to the number of timestamps that yield a date. |
| Analysis.CountsAddUp | lib/analysis.ts:119-126 | For collected timestamps, every count is at least 1 and the counts add up to the number of timestamps. |
| Analysis.TotalUpdate | lib/analysis.ts:123 | `acc[date] = (acc[date] \|\| 0) + 1` raises the sum of the counts by exactly one. |
| Strings.Split | lib/analysis.ts:87 | `split(sep)` gives at least one piece, and joining the pieces with `sep` gives back the input. There is one piece exactly when `sep` does not occur. No piece contains `sep`, and every piece but the last ends at the first `sep` after it. |
| Strings.SplitAfterFirst | components/categorize-content.tsx:26 | Splitting `head + sep + rest`, where `sep` does not occur in `head` and does not begin at its end, gives `head` followed by the pieces of `rest`. |
| Strings.Trim | lib/analysis.ts:114 | `trim()` gives text that neither starts nor ends with whitespace. It stands in the input with only whitespace before and after it. |
| Strings.TrimUnique | lib/analysis.ts:114 | Only one text has that property, so it is the result of `trim()`. |
| Strings.TrimIdempotent | lib/analysis.ts:111 | Trimming twice is trimming once. |
| Strings.ReplaceFirst | components/categorize-content.tsx:29 | `replace(p, rep)` with a string `p` changes only its first occurrence. A text without `p` is returned unchanged. |
| Strings.Contains | lib/analysis.ts:97-105 | `includes(p)` holds exactly when `p` occurs somewhere in the text. |
| Patterns.Sound | lib/analysis.ts:90-92 | What the backtracking matcher finds at a position is a string of the pattern's language. |
| Patterns.Complete | lib/analysis.ts:90-92 | Whenever some string of the pattern's language starts at a position, the matcher finds a match there. |
| Patterns.Leftmost | lib/analysis.ts:90-92 | `match` without `g` reports the leftmost position where a string of the pattern starts. It reports nothing exactly when none starts anywhere. |
| Patterns.FindFirst | lib/analysis.ts:101 | A reported match lies inside the text and is what the matcher finds at its start. |
| Patterns.AllMatches | lib/analysis.ts:98 | `match` with `g` gives spans inside the text. |
| Patterns.AllMatchesOrdered | lib/analysis.ts:98 | The matches of `match` with `g` do not overlap and come left to right. |
| Patterns.AllMatchesMatch | lib/analysis.ts:98 | Each of them is what the matcher finds at its start. |
| Patterns.AllMatchesFirst | lib/analysis.ts:98 | The first of them is the leftmost match. There are none exactly when the pattern matches nowhere, which is the `null` of `match`. |
| Patterns.AllMatchesCover | lib/analysis.ts:98 | Every position where the pattern matches lies inside one of the spans of the global match. |
| Patterns.DelimitedLang | lib/analysis.ts:101 | A string of `"(.*?)"` (or of `\[(.*?)\]`) is the opening character, then text without a line break, then the closing character. Stopping at the first closing character is the lazy matcher's behaviour, stated by `Patterns.DelimitedMatch`. |
| Patterns.DelimitedMatch | components/categorize-content.tsx:22 | The lazy match of such a pattern closes at the first closing character after the opening one. |
| Patterns.GreedyLast | lib/analysis.ts:98 | An unbounded greedy last atom, such as `[^\s]+`, runs until a character outside its class or the end of the text. |
| Display.FormatTimestampSpec | components/categorize-content.tsx:21-23 | `FormatTimestamp` returns its input when no bracketed text occurs anywhere in it. Otherwise it returns the inside of the leftmost string of `\[(.*?)\]`, which holds no `]` and no line break. When that inside is empty, it returns the whole input. |
| Display.FormatOfTimestamp | components/categorize-content.tsx:22 | A timestamp collected by the analysis is shown without its brackets. |
| Display.ParseNote | components/categorize-content.tsx:25-31 | `parseNote` fails exactly when the note holds no `"] "`. With no second piece, `content.replace` would throw. |
| Display.ParseTimestampedNote | components/categorize-content.tsx:26-29 | For a note that starts with a timestamp and a space, the label is the timestamp without brackets. The content is the text up to the next `"] "`, and everything after it is dropped. Only the first `you: ` is removed. |
| Display.ParseNoteParts | components/categorize-content.tsx:26-29 | For any note cut at its first `"] "`, the label is `FormatTimestamp` of the text before it with `]` put back. The content is the text up to the next `"] "`, without its first `you: `, and the text after that is dropped. |
| Display.ParseNoteAt | components/categorize-content.tsx:25-31 | Every note that holds `"] "` is cut at the position `indexOf` finds. The label is `FormatTimestamp` of the text before it with `]` put back. The content is the text up to the next `"] "`, without its first `you: `. |
| Display.ParseOwnNote | components/categorize-content.tsx:25-31 | The user's own note `[timestamp] you: message` gives the label without brackets and the message alone. |

## Left out

- `analysisWithAI` (lib/analysis.ts:131-353): a request to an external chat-completion service and a JSON parse of its answer. It is foreign code and network I/O.
- The `DataAnalysis` and `ContentData` type shapes: they carry no behaviour.
- components/ai-analysis.tsx: chart rendering, including floating-point percentage rounding.
- `formatUrl` (components/categorize-content.tsx:9-19): it depends on the browser's `URL` parser, which is not part of this model.
- components/upload-text.tsx, lib/context.tsx, app/provider.tsx, components/navbar.tsx, app/page.tsx and components/content.tsx: file reading, React state and layout. `AnalysisLocal` takes the log as a plain string argument.
- The `async` wrapper of `analysisLocal`: the model is the synchronous computation inside the promise.
- General regular expressions: only the fixed patterns of the code are modelled. They have no alternation and at most one capture group, around `.*?`, so a pattern is a sequence of atoms. The captures `quoteMatch[1]` and `[1]` are the inside of the delimited match.
- Text is a sequence of Dafny `char`, not of UTF-16 code units. Characters outside the Basic Multilingual Plane, and code-unit positions, are not modelled.
- The key order of the `timestampCounts` object is not modelled: it is a Dafny `map`.
- Analysis.AddEntry: the source pushes onto the arrays of one shared `categories` object, but the model returns the updated record as a value, which `AnalysisLocal` threads through its loop. It does not model aliasing of those arrays.
- Analysis.AnalysisLocal: `logs` being `undefined` is not modelled, because a Dafny string is always defined. The empty string is the falsy input that gives no result.
