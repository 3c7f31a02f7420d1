/** The two helpers the categorized view uses to show a chat line
    (`formatTimestamp` and `parseNote` in components/categorize-content.tsx):
    the first takes the text between the leftmost pair of square brackets,
    the second cuts a personal note into its timestamp and its message. */
module Display {
  import opened Wrappers
  import opened Strings
  import opened Patterns
  import opened Analysis

  /** `\[(.*?)\]`. */
  const BracketPattern: Pattern := Delimited('[', ']')

  /** Text that can stand between the brackets of a match: no `]` and no
      line terminator. */
  predicate InsideBrackets(s: string) {
    forall m :: 0 <= m < |s| ==> s[m] != ']' && !IsLineTerminator(s[m])
  }

  /** `timestamp.match(/\[(.*?)\]/)?.[1] || timestamp`: the group of the
      leftmost bracketed text, or the input itself when nothing matches or
      the group is the (falsy) empty string. */
  function FormatTimestamp(timestamp: string): string {
    match FindFirst(BracketPattern, timestamp, 0)
    case Some(m) =>
      DelimitedMatch('[', ']', timestamp, m.start);
      var inner := timestamp[m.start + 1..m.end - 1];
      if inner == "" then timestamp else inner
    case None => timestamp
  }

  /** With no bracketed text the input is shown as it is; otherwise the
      result is the inside of the leftmost bracketed text, which ends at the
      first `]` after the `[`, or the input when that inside is empty. */
  lemma FormatTimestampSpec(ts: string)
    ensures Absent(BracketPattern, ts) ==> FormatTimestamp(ts) == ts
    ensures !Absent(BracketPattern, ts) ==>
      exists q: nat, j: nat ::
        && FirstIn(BracketPattern, ts, q, j) && q + 2 <= j
        && InsideBrackets(ts[q + 1..j - 1])
        && FormatTimestamp(ts) == (if q + 2 == j then ts else ts[q + 1..j - 1])
  {
    var f := FindFirst(BracketPattern, ts, 0);
    if f.Some? {
      var q, j := f.value.start, f.value.end;
      BracketFound(ts);
      assert FirstIn(BracketPattern, ts, q, j) by { Leftmost(BracketPattern, ts); }
      assert !Absent(BracketPattern, ts) by { Leftmost(BracketPattern, ts); }
    } else {
      assert Absent(BracketPattern, ts) by { Leftmost(BracketPattern, ts); }
    }
  }

  /** What the match found holds and what is shown for it. */
  lemma BracketFound(ts: string)
    requires FindFirst(BracketPattern, ts, 0).Some?
    ensures var m := FindFirst(BracketPattern, ts, 0).value;
      && m.start + 2 <= m.end
      && InsideBrackets(ts[m.start + 1..m.end - 1])
      && FormatTimestamp(ts) == (if m.start + 2 == m.end then ts else ts[m.start + 1..m.end - 1])
  {
    var m := FindFirst(BracketPattern, ts, 0).value;
    DelimitedMatch('[', ']', ts, m.start);
    var v := ts[m.start + 1..m.end - 1];
    assert forall k :: 0 <= k < |v| ==> v[k] == ts[m.start + 1 + k];
  }

  /** A chat timestamp is shown without its brackets. */
  lemma FormatOfTimestamp(t: string)
    requires IsTimestamp(t)
    ensures |t| >= 3 && FormatTimestamp(t) == t[1..|t| - 1]
  {
    TimestampShape(t);
    var e := WholeBracketMatch(t);
    BracketFound(t);
  }

  /** A timestamp is one bracketed text from end to end, so the match of
      the bracket pattern is all of it. */
  lemma WholeBracketMatch(t: string) returns (e: nat)
    requires |t| >= 3 && t[0] == '[' && t[|t| - 1] == ']'
    requires forall m :: 1 <= m < |t| - 1 ==> t[m] != ']' && !IsLineTerminator(t[m])
    ensures e == |t| && FindFirst(BracketPattern, t, 0) == Some(Span(0, e))
  {
    assert IsDelimited('[', ']', t);
    DelimitedInLang('[', ']', t);
    assert t[0..|t|] == t;
    Complete(BracketPattern, t, 0, |t|);
    e := MatchAt(BracketPattern, t, 0).value;
    FindFirstStep(BracketPattern, t, 0);
    DelimitedMatch('[', ']', t, 0);
  }

  /** A personal note as the view shows it. */
  datatype Note = Note(timestamp: string, content: string)

  /** `parseNote`: the note is split at `"] "`; the first piece, with its
      `]` put back, gives the timestamp and the second piece, without its
      first `"you: "`, the content. Pieces after the second are dropped.
      With no `"] "` in the note the second piece is `undefined` and
      `content.replace` throws; that is the failure. */
  function ParseNote(note: string): (r: Result<Note, string>)
    ensures r.Failure? <==> !Contains(note, "] ")
  {
    var pieces := Split(note, "] ");
    if |pieces| < 2 then Failure("TypeError: cannot read properties of undefined (reading 'replace')")
    else Success(Note(FormatTimestamp(pieces[0] + "]"), ReplaceFirst(pieces[1], "you: ", "")))
  }

  /** A note that starts with a chat timestamp and a space: the timestamp is
      shown without its brackets and the content is the text up to the next
      `"] "`, with its first `"you: "` removed. */
  lemma ParseTimestampedNote(t: string, text: string)
    requires IsTimestamp(t)
    ensures |t| >= 3 && ParseNote(t + " " + text) ==
      Success(Note(t[1..|t| - 1], ReplaceFirst(Split(text, "] ")[0], "you: ", "")))
  {
    TimestampShape(t);
    var head := t[..|t| - 1];
    assert head + "]" == t;
    NoSeparatorInTimestamp(t);
    assert t + " " + text == head + "] " + text;
    ParseNoteParts(head, text);
    FormatOfTimestamp(t);
  }

  /** Any note cut at its first `"] "`: the label is `FormatTimestamp` of the
      text before it with `]` put back, and the content is the text up to the
      next `"] "`, with its first `"you: "` removed; the rest is dropped. */
  lemma ParseNoteParts(head: string, rest: string)
    requires EndsAtFirstSeparator(head, "] ")
    ensures ParseNote(head + "] " + rest) ==
      Success(Note(FormatTimestamp(head + "]"), ReplaceFirst(Split(rest, "] ")[0], "you: ", "")))
  {
    SplitAfterFirst(head, "] ", rest);
  }

  /** The same read on the note itself: it is cut at the position of its
      first `"] "`. */
  lemma ParseNoteAt(note: string)
    requires Contains(note, "] ")
    ensures var i := IndexOf(note, "] ", 0);
      && i.Some? && i.value + 2 <= |note|
      && ParseNote(note) == Success(Note(FormatTimestamp(note[..i.value] + "]"),
           ReplaceFirst(Split(note[i.value + 2..], "] ")[0], "you: ", "")))
  {
    var i := IndexOf(note, "] ", 0).value;
    var head, rest := note[..i], note[i + 2..];
    FirstPiece(note, "] ", i);
    AtOccurrence(note, "] ", i);
    ParseNoteParts(head, rest);
  }

  /** `"] "` does not occur in a timestamp: its only `]` is the last character. */
  lemma NoSeparatorInTimestamp(t: string)
    requires |t| >= 3 && t[0] == '[' && t[|t| - 1] == ']'
    requires forall m :: 1 <= m < |t| - 1 ==> t[m] != ']'
    ensures EndsAtFirstSeparator(t[..|t| - 1], "] ")
  {
    assert "] "[..1] == "]";
    assert t[..|t| - 1] + "] "[..1] == t;
    forall k: nat ensures !OccursAt(t, "] ", k) {
      if k + 2 <= |t| {
        assert t[k..k + 2][0] == t[k];
      }
    }
  }

  /** The user's own note, `[timestamp] you: message`, shows the timestamp
      without brackets and the message alone. */
  lemma ParseOwnNote(t: string, msg: string)
    requires IsTimestamp(t) && !Contains(msg, "] ")
    ensures |t| >= 3 && ParseNote(t + " you: " + msg) == Success(Note(t[1..|t| - 1], msg))
  {
    var text := "you: " + msg;
    assert t + " you: " + msg == t + " " + text;
    ParseTimestampedNote(t, text);
    OwnText(msg);
  }

  /** The text after an own note's timestamp keeps its message whole. */
  lemma OwnText(msg: string)
    requires !Contains(msg, "] ")
    ensures Split("you: " + msg, "] ") == ["you: " + msg]
    ensures ReplaceFirst("you: " + msg, "you: ", "") == msg
  {
    var text := "you: " + msg;
    forall k: nat ensures !OccursAt(text, "] ", k) {
      if k + 2 <= |text| {
        if k < 5 {
          assert text[k..k + 2][0] == text[k];
        } else {
          assert text[k..k + 2] == msg[k - 5..k - 3];
          assert !OccursAt(msg, "] ", k - 5);
        }
      }
    }
    assert OccursAt(text, "you: ", 0);
    assert FirstOccurrence(text, "you: ", 0);
    assert text[..0] + "" + text[5..] == msg;
  }
}
