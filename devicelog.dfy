/**
 * The device description as a change log: editing prepends a stamped entry
 * `"[<time> - <user>] <text>"`, newest first, paragraphs separated by a blank
 * line; the edit form shows the text of the newest entry. Shared by main.py
 * and app.py, whose code for this is the same.
 */
module DeviceLog {
  import opened Text

  /** One stamped log entry. */
  function LogEntry(timestamp: string, user: string, text: string): string {
    "[" + timestamp + " - " + user + "] " + text
  }

  /**
   * The description stored by an edit: unchanged when the submitted text equals
   * the stored one, otherwise a new entry in front of the old log (or alone when
   * the log was empty).
   */
  function UpdatedDescription(current: string, submitted: string, timestamp: string, user: string): (r: string)
    ensures submitted == current ==> r == current
    ensures submitted != current ==> |r| > |current| && r[|r| - |current|..] == current
    ensures submitted != current ==>
      |r| >= |LogEntry(timestamp, user, submitted)| && r[..|LogEntry(timestamp, user, submitted)|] == LogEntry(timestamp, user, submitted)
    ensures submitted != current && current == [] ==> r == LogEntry(timestamp, user, submitted)
    ensures submitted != current && current != [] ==>
      var n := |LogEntry(timestamp, user, submitted)|;
      |r| == n + 2 + |current| && r[n..n + 2] == "\n\n" && r[n + 2..] == current
  {
    if submitted != current then
      var entry := LogEntry(timestamp, user, submitted);
      if current != [] then entry + "\n\n" + current else entry
    else
      current
  }

  /** The text of one entry: after its first `]`, stripped, when it starts with `[`; otherwise empty. */
  function EntryText(entry: string): (r: string)
    ensures r != [] ==> entry != [] && entry[0] == '[' && ']' in entry
    ensures r == Strip(r)
  {
    if entry != [] && entry[0] == '[' && ']' in entry then
      var text := entry[IndexOf(entry, ']') + 1..];
      StripStrip(text);
      Strip(text)
    else
      ""
  }

  /** The text the edit form shows: that of the newest entry, the first paragraph. */
  function CurrentDescription(log: string): (r: string)
    ensures r != [] ==> log != [] && log[0] == '[' && ']' in log
    ensures r == Strip(r)
  {
    if log == [] then "" else EntryText(FirstParagraph(log))
  }

  lemma StripStrip(s: string)
    ensures Strip(Strip(s)) == Strip(s)
  {
    StripTight(Strip(s));
  }

  /** A prefix without newlines cannot create a paragraph break in front of `t`. */
  lemma NoBreakAfterPrefix(p: string, t: string)
    requires '\n' !in p && !HasBreak(t + "\n")
    ensures !HasBreak(p + (t + "\n"))
  {
    var s := p + (t + "\n");
    forall i | 0 <= i < |s| ensures !BreakAt(s, i) {
      if i < |p| {
        assert s[i] == p[i];
      } else {
        assert !BreakAt(t + "\n", i - |p|);
      }
    }
  }

  lemma StampFree(timestamp: string, user: string)
    requires ']' !in timestamp && ']' !in user && '\n' !in timestamp && '\n' !in user
    ensures var head := "[" + timestamp + " - " + user; ']' !in head && '\n' !in head
  {
    var head := "[" + timestamp + " - " + user;
    forall i | 0 <= i < |head| ensures head[i] != ']' && head[i] != '\n' {
      if 1 <= i < 1 + |timestamp| {
        assert head[i] == timestamp[i - 1];
      } else if 4 + |timestamp| <= i {
        assert head[i] == user[i - 4 - |timestamp|];
      }
    }
  }

  /** The text of a stamped entry whose first `]` is at `i`. */
  lemma EntryTextAt(entry: string, i: nat)
    requires entry != [] && entry[0] == '[' && ']' in entry && IndexOf(entry, ']') == i
    ensures EntryText(entry) == Strip(entry[i + 1..])
  {
    var text := entry[IndexOf(entry, ']') + 1..];
    assert text == entry[i + 1..];
    assert EntryText(entry) == Strip(text);
  }

  /** What follows the first `]` of a stamped entry: the space, then the text. */
  lemma AfterStamp(head: string, text: string)
    ensures (head + ("] " + text))[|head| + 1..] == [' '] + text
  {
    var tail := "] " + text;
    assert (head + tail)[|head|..] == tail;
    assert tail[1..] == [' '] + text;
  }

  /** The text shown for a newest entry `head + "] " + text`. */
  lemma ShownOfEntry(head: string, text: string)
    requires head != [] && head[0] == '[' && ']' !in head
    ensures EntryText(head + "] " + text) == Strip(text)
  {
    var entry := head + ("] " + text);
    assert head + "] " + text == entry;
    IndexOfAfter(head, "] " + text, ']');
    EntryTextAt(entry, |head|);
    AfterStamp(head, text);
    StripLeadingSpace(' ', text);
  }

  /** After a change the new entry is the first paragraph. */
  lemma NewestEntryFirst(current: string, submitted: string, timestamp: string, user: string)
    requires submitted != current
    requires ']' !in timestamp && ']' !in user && '\n' !in timestamp && '\n' !in user
    requires !HasBreak(submitted + "\n")
    ensures FirstParagraph(UpdatedDescription(current, submitted, timestamp, user)) == LogEntry(timestamp, user, submitted)
  {
    var entry := LogEntry(timestamp, user, submitted);
    var p := "[" + timestamp + " - " + user + "] ";
    StampFree(timestamp, user);
    assert '\n' !in p;
    assert entry == p + submitted;
    NoBreakAfterPrefix(p, submitted);
    assert entry + "\n" == p + (submitted + "\n");
    if current != [] {
      assert UpdatedDescription(current, submitted, timestamp, user) == entry + ("\n\n" + current);
      FirstParagraphOfPrefix(entry, "\n\n" + current);
    } else {
      assert UpdatedDescription(current, submitted, timestamp, user) == entry + [];
      FirstParagraphOfPrefix(entry, []);
    }
  }

  /**
   * Round trip: after a change, the form shows the submitted text again
   * (stripped), provided the stamp has no `]` and no newline and the text
   * contains no paragraph break.
   */
  lemma EditedDescriptionShown(current: string, submitted: string, timestamp: string, user: string)
    requires submitted != current
    requires ']' !in timestamp && ']' !in user && '\n' !in timestamp && '\n' !in user
    requires !HasBreak(submitted + "\n")
    ensures CurrentDescription(UpdatedDescription(current, submitted, timestamp, user)) == Strip(submitted)
  {
    NewestEntryFirst(current, submitted, timestamp, user);
    StampFree(timestamp, user);
    var head := "[" + timestamp + " - " + user;
    assert LogEntry(timestamp, user, submitted) == head + "] " + submitted;
    ShownOfEntry(head, submitted);
  }

  /** A log no edit has touched yet shows nothing unless it starts with a stamped entry. */
  lemma UnstampedShowsNothing(log: string)
    requires log == [] || log[0] != '['
    ensures CurrentDescription(log) == ""
  {
  }
}
