/**
 Following a log file that grows: lines are sent once they are complete, from an offset that only
 ever stands at the start of a line.
 */
module Tail {
  import opened Ints
  import opened Sequences
  import opened Strings

  const TAIL_INITIAL_BYTES := 262144
  const MAX_LINE_BYTES := 65536

  const LINE_ENDS := {'\r', '\n'}

  // ---- What is to be sent ----

  /** The text of a line of which `raw` is every byte, the newline included. */
  function Text(raw: string): string {
    TrimRight(Kept(raw), LINE_ENDS)
  }

  /** The bytes of a line that are kept at all. */
  function Kept(raw: string): string {
    if |raw| <= MAX_LINE_BYTES then raw else raw[..MAX_LINE_BYTES]
  }

  /** The bytes up to and including the first newline. */
  function FirstLine(s: string): (raw: string)
    requires '\n' in s
    ensures raw <= s && raw != "" && raw[|raw| - 1] == '\n' && '\n' !in raw[..|raw| - 1]
  {
    var i := IndexOf(s, '\n');
    assert s[..i + 1][..i] == s[..i];
    s[..i + 1]
  }

  /** The texts of the complete lines. */
  function LinesOf(s: string): seq<string>
    decreases |s|
  {
    if '\n' in s then [Text(FirstLine(s))] + LinesOf(s[|FirstLine(s)|..]) else []
  }

  /** The number of bytes in complete lines. */
  function Complete(s: string): (n: nat)
    ensures n <= |s|
    decreases |s|
  {
    if '\n' in s then |FirstLine(s)| + Complete(s[|FirstLine(s)|..]) else 0
  }

  /** `off` is 0 or just past a newline. */
  predicate AtLineStart(content: string, off: int) {
    off == 0 || (0 < off <= |content| && content[off - 1] == '\n')
  }

  // ---- Reading ----

  datatype Status = Found | BufferFull | EndOfFile

  /** A buffered reader over what the file holds, with a buffer of `size` bytes. */
  class Reader {
    const content: string
    const size: nat
    var pos: nat

    ghost predicate Valid()
      reads this
    {
      pos <= |content| && size > 0
    }

    constructor (content: string, size: nat, pos: nat)
      requires size > 0 && pos <= |content|
      ensures Valid() && this.content == content && this.size == size && this.pos == pos
    {
      this.content, this.size, this.pos := content, size, pos;
    }

    /** Up to and including the newline; at most one buffer full; or what is left at the end of the file. */
    method ReadSlice() returns (chunk: string, status: Status)
      requires Valid()
      modifies this`pos
      ensures Valid() && pos == old(pos) + |chunk| && chunk == content[old(pos)..pos]
      ensures status == Found ==> '\n' in content[old(pos)..] && chunk == FirstLine(content[old(pos)..])
      ensures status == BufferFull ==> |chunk| == size && '\n' !in chunk
      ensures status == EndOfFile ==> pos == |content| && '\n' !in chunk
    {
      var rest := content[pos..];
      var i := IndexOf(rest, '\n');
      if 0 <= i < size {
        chunk, status := rest[..i + 1], Found;
        assert '\n' in rest;
      } else if |rest| >= size {
        chunk, status := rest[..size], BufferFull;
        if i >= 0 {
          assert chunk == rest[..i][..size];
        }
      } else {
        chunk, status := rest, EndOfFile;
      }
      pos := pos + |chunk|;
    }

    /** One line: its text, the bytes it takes up, and whether a newline ended it. */
    method ReadLine() returns (text: string, n: nat, complete: bool)
      requires Valid()
      modifies this`pos
      ensures Valid() && pos == old(pos) + n
      ensures complete == ('\n' in content[old(pos)..])
      ensures complete ==> var raw := FirstLine(content[old(pos)..]); n == |raw| && text == Text(raw)
      ensures !complete ==> text == "" && pos == |content|
    {
      hide FirstLine, Kept, TrimRight, IndexOf, Gathered;
      ghost var start := pos;
      var b := "";
      n := 0;
      NothingGathered(content, pos);
      while true
        invariant Valid() && pos == start + n && Gathered(content, start, pos, b)
        decreases |content| - pos
      {
        ghost var from := pos;
        ghost var b0 := b;
        var chunk, status := ReadSlice();
        n := n + |chunk|;
        var room := MAX_LINE_BYTES - |b|;
        if room > 0 {
          b := b + chunk[..Min(|chunk|, room)];
        }
        if status == Found {
          GatheredLine(content, start, from, pos, b0);
          return TrimRight(b, LINE_ENDS), n, true;
        }
        GatherMore(content, start, from, pos, b0);
        if status == EndOfFile {
          NothingFound(content, start, b);
          return "", n, false;
        }
      }
    }
  }

  /** `b` holds what is kept of the bytes from `start` to `pos`, in which there is no newline. */
  ghost predicate Gathered(content: string, start: nat, pos: nat, b: string) {
    start <= pos <= |content| && '\n' !in content[start..pos] && b == Kept(content[start..pos])
  }

  lemma NothingGathered(content: string, start: nat)
    requires start <= |content|
    ensures Gathered(content, start, start, "")
  {
  }

  lemma NothingFound(content: string, start: nat, b: string)
    requires Gathered(content, start, |content|, b)
    ensures start <= |content| && '\n' !in content[start..]
  {
    assert content[start..|content|] == content[start..];
  }

  /** The bytes kept once one more chunk is read. */
  function WithChunk(b: string, chunk: string): string {
    if |b| < MAX_LINE_BYTES then b + chunk[..Min(|chunk|, MAX_LINE_BYTES - |b|)] else b
  }

  lemma GatherMore(content: string, start: nat, from: nat, to: nat, b: string)
    requires Gathered(content, start, from, b) && from <= to <= |content| && '\n' !in content[from..to]
    ensures Gathered(content, start, to, WithChunk(b, content[from..to]))
  {
    KeptGrows(content[start..from], content[from..to]);
    SliceGrows(content, start, from, to);
    assert content[start..to] == content[start..from] + content[from..to];
  }

  lemma GatheredLine(content: string, start: nat, from: nat, to: nat, b: string)
    requires Gathered(content, start, from, b) && from < to <= |content|
    requires '\n' in content[from..] && content[from..to] == FirstLine(content[from..])
    ensures '\n' in content[start..] && FirstLine(content[start..]) == content[start..to]
    ensures Text(content[start..to]) == TrimRight(WithChunk(b, content[from..to]), LINE_ENDS)
  {
    hide FirstLine, Kept, TrimRight;
    KeptGrows(content[start..from], content[from..to]);
    SliceGrows(content, start, from, to);
    LineSplit(content, start, from, to);
  }

  lemma SliceGrows(s: string, i: nat, j: nat, k: nat)
    requires i <= j <= k <= |s|
    ensures s[i..j] + s[j..k] == s[i..k]
  {
  }

  /** What one more chunk makes of the bytes kept. */
  lemma KeptGrows(line: string, chunk: string)
    ensures Kept(line + chunk) == WithChunk(Kept(line), chunk)
  {
  }

  /** A line read in pieces is the first line of the whole. */
  lemma LineSplit(content: string, start: nat, from: nat, to: nat)
    requires start <= from < to <= |content|
    requires '\n' !in content[start..from]
    requires '\n' in content[from..] && content[from..to] == FirstLine(content[from..])
    ensures '\n' in content[start..] && FirstLine(content[start..]) == content[start..to]
  {
    var s := content[start..];
    var i := to - start - 1;
    assert s[i] == content[from..to][to - from - 1] == '\n';
    forall k | 0 <= k < i
      ensures s[k] != '\n'
    {
      if start + k < from {
        assert s[k] == content[start..from][k];
      } else {
        assert s[k] == content[from..to][..to - from - 1][start + k - from];
      }
    }
    IndexOfUnique(s, '\n', i);
  }

  // ---- Following ----

  /** Sends the complete lines from `off` on; a file that shrank is read from its start. */
  method Emit(content: string, off: nat, size: nat) returns (off': nat, sent: seq<string>)
    requires size > 0
    ensures var start := if |content| < off then 0 else off;
            && sent == LinesOf(content[start..])
            && off' == start + Complete(content[start..])
    ensures sent == SentAt(content, off) && off' == NextOffset(content, off)
  {
    hide LinesOf, Complete, FirstLine, Text;
    off' := if |content| < off then 0 else off;
    ghost var start := off';
    var r := new Reader(content, size, off');
    sent := [];
    while true
      invariant r.Valid() && r.content == content && r.pos == off' && fresh(r)
      invariant start <= off'
      invariant sent + LinesOf(content[off'..]) == LinesOf(content[start..])
      invariant off' + Complete(content[off'..]) == start + Complete(content[start..])
      decreases |content| - off'
    {
      LineStep(content, off');
      var text, n, complete := r.ReadLine();
      if !complete {
        return;
      }
      Assoc(sent, [text], LinesOf(content[off' + n..]));
      off' := off' + n;
      sent := sent + [text];
    }
  }

  /** Taking one line off the front. */
  lemma LineStep(content: string, from: nat)
    requires from <= |content|
    ensures var rest := content[from..];
            if '\n' in rest then
              var n := |FirstLine(rest)|;
              && LinesOf(rest) == [Text(FirstLine(rest))] + LinesOf(content[from + n..])
              && Complete(rest) == n + Complete(content[from + n..])
            else LinesOf(rest) == [] && Complete(rest) == 0
  {
    hide FirstLine, Text;
    var rest := content[from..];
    if '\n' in rest {
      assert rest[|FirstLine(rest)|..] == content[from + |FirstLine(rest)|..];
    }
  }

  /** Where following starts: past the first newline of the last TAIL_INITIAL_BYTES, or at 0 when there is none. */
  method SeekTail(content: string, size: nat) returns (off: nat)
    requires size > 0
    ensures off == StartOffset(content)
  {
    var from := |content| - TAIL_INITIAL_BYTES;
    if from <= 0 {
      return 0;
    }
    var r := new Reader(content, size, from);
    var _, n, complete := r.ReadLine();
    if !complete {
      return 0;
    }
    return from + n;
  }

  function StartOffset(content: string): (off: nat)
    ensures AtLineStart(content, off) && off <= |content|
  {
    var from := |content| - TAIL_INITIAL_BYTES;
    if from <= 0 || '\n' !in content[from..] then 0
    else
      var raw := FirstLine(content[from..]);
      assert content[from + |raw| - 1] == raw[|raw| - 1];
      from + |raw|
  }

  /** The start offset is the earliest start of a line in the last part of the file that does not begin it. */
  lemma StartOffsetIsEarliest(content: string)
    requires |content| > 262144
    ensures var off, from := StartOffset(content), |content| - 262144;
            if off == 0 then forall i :: from <= i < |content| ==> content[i] != '\n'
            else from < off && forall i :: from <= i < off - 1 ==> content[i] != '\n'
  {
    var from := |content| - TAIL_INITIAL_BYTES;
    var rest := content[from..];
    assert forall i :: from <= i < |content| ==> content[i] == rest[i - from];
    if '\n' in rest {
      var raw := FirstLine(rest);
      assert forall i :: 0 <= i < |raw| - 1 ==> rest[i] == raw[..|raw| - 1][i];
    }
  }

  /** A file no longer than the initial part is read from its start. */
  lemma ShortFromStart(content: string)
    requires |content| <= 262144
    ensures StartOffset(content) == 0
  {
  }

  lemma {:induction false} CompletePrefix(s: string, more: string)
    ensures var n := Complete(s);
            && LinesOf(s + more) == LinesOf(s) + LinesOf((s + more)[n..])
            && Complete(s + more) == n + Complete((s + more)[n..])
            && (n == 0 || s[n - 1] == '\n')
    decreases |s|
  {
    hide LinesOf, Complete, FirstLine, Text;
    var all := s + more;
    assert s[0..] == s && all[0..] == all;
    LineStep(s, 0);
    if '\n' in s {
      var raw := FirstLine(s);
      var rest := s[|raw|..];
      FirstLineExtended(s, more);
      LineStep(all, 0);
      assert all[|raw|..] == rest + more;
      CompletePrefix(rest, more);
      assert all[|raw|..][Complete(rest)..] == all[Complete(s)..];
      Assoc([Text(raw)], LinesOf(rest), LinesOf(all[Complete(s)..]));
      assert raw[|raw| - 1] == s[|raw| - 1];
    }
  }

  lemma FirstLineExtended(s: string, more: string)
    requires '\n' in s
    ensures '\n' in s + more && FirstLine(s + more) == FirstLine(s)
  {
    var i := IndexOf(s, '\n');
    assert (s + more)[i] == '\n' && (s + more)[..i] == s[..i];
    IndexOfUnique(s + more, '\n', i);
    assert (s + more)[..i + 1] == s[..i + 1];
  }

  /** Where a poll leaves the offset. */
  function NextOffset(content: string, off: nat): (r: nat)
    ensures r <= |content|
  {
    var start := if |content| < off then 0 else off;
    start + Complete(content[start..])
  }

  /** What a poll sends. */
  function SentAt(content: string, off: nat): seq<string> {
    LinesOf(content[if |content| < off then 0 else off..])
  }

  /** The offset never leaves the starts of lines, growing or truncated. */
  lemma OffsetAtLineStart(content: string, off: nat)
    requires off > |content| || AtLineStart(content, off)
    ensures AtLineStart(content, NextOffset(content, off))
  {
    var start := if |content| < off then 0 else off;
    var rest := content[start..];
    CompletePrefix(rest, "");
    var n := Complete(rest);
    if n > 0 {
      assert content[start + n - 1] == rest[n - 1];
    }
  }

  /** Polling once more in between sends the same lines in the same order. */
  lemma PollInBetween(before: string, after: string, off: nat)
    requires before <= after && off <= |before|
    ensures SentAt(before, off) + SentAt(after, NextOffset(before, off)) == SentAt(after, off)
    ensures NextOffset(after, NextOffset(before, off)) == NextOffset(after, off)
  {
    hide LinesOf, Complete;
    var s, more := before[off..], after[|before|..];
    assert after[off..] == s + more;
    CompletePrefix(s, more);
    assert (s + more)[Complete(s)..] == after[off + Complete(s)..];
  }

  /** The contents of a file that only grows, as successive polls find them. */
  ghost predicate Growing(contents: seq<string>) {
    forall i :: 0 < i < |contents| ==> contents[i - 1] <= contents[i]
  }

  /** What successive polls send. */
  function SentBy(contents: seq<string>, off: nat): seq<string> {
    if contents == [] then []
    else SentAt(contents[0], off) + SentBy(contents[1..], NextOffset(contents[0], off))
  }

  /** Where successive polls leave the offset. */
  function OffsetAfter(contents: seq<string>, off: nat): nat {
    if contents == [] then off else OffsetAfter(contents[1..], NextOffset(contents[0], off))
  }

  /**
   However the growth is cut into polls, what is sent is every complete line from the start offset on,
   once and in order, and each with the text it has in the finished file.
   */
  lemma {:induction false} PollsDoNotMatter(contents: seq<string>, off: nat)
    requires contents != [] && Growing(contents) && off <= |contents[0]|
    ensures |contents[0]| <= |contents[|contents| - 1]|
    ensures SentBy(contents, off) == LinesOf(contents[|contents| - 1][off..])
  {
    hide LinesOf, Complete, NextOffset;
    var first := contents[0];
    if |contents| == 1 {
      assert contents[1..] == [];
    } else {
      var next := contents[1..];
      var off' := NextOffset(first, off);
      PollsDoNotMatter(next, off');
      assert contents[0] <= contents[1] && Growing(next);
      PrefixOfLast(next);
      PollInBetween(first, contents[|contents| - 1], off);
    }
  }

  lemma {:induction false} PrefixOfLast(contents: seq<string>)
    requires contents != [] && Growing(contents)
    ensures contents[0] <= contents[|contents| - 1]
  {
    if |contents| > 1 {
      PrefixOfLast(contents[1..]);
      assert contents[0] <= contents[1];
    }
  }

  // ---- Files that are created anew ----

  /**
   A notification about the path: the open file changed, now holding `held`; or a file was created,
   which could not be opened, so that the old one is read on; or which was opened in its place, and
   whose end was found or not.
   */
  datatype Event = Change(held: string) | CreateFailed(held: string) | CreateOpened(content: string, sought: bool)

  function Reopened(e: Event): nat
    requires e.CreateOpened?
  {
    if e.sought then StartOffset(e.content) else 0
  }

  /** What the rest of the events makes the loop send. */
  function SentOn(events: seq<Event>, off: nat): seq<string> {
    if events == [] then []
    else match events[0]
      case Change(held) => SentAt(held, off) + SentOn(events[1..], NextOffset(held, off))
      case CreateFailed(held) => SentAt(held, off) + SentOn(events[1..], NextOffset(held, off))
      case CreateOpened(content, _) =>
        var start := Reopened(events[0]);
        SentAt(content, start) + SentOn(events[1..], NextOffset(content, start))
  }

  method Reopen(e: Event, off: nat, size: nat) returns (content: string, start: nat)
    requires size > 0
    ensures content == if e.CreateOpened? then e.content else e.held
    ensures start == if e.CreateOpened? then Reopened(e) else off
  {
    if !e.CreateOpened? {
      return e.held, off;
    }
    content, start := e.content, 0;
    if e.sought {
      start := SeekTail(content, size);
    }
  }

  /** The whole of following: the file found first, then one notification after the other. */
  method Follow(first: string, events: seq<Event>, size: nat) returns (out: seq<string>)
    requires size > 0
    ensures var start := StartOffset(first);
            out == SentAt(first, start) + SentOn(events, NextOffset(first, start))
  {
    hide SentAt, NextOffset, StartOffset;
    var off := SeekTail(first, size);
    off, out := Emit(first, off, size);
    ghost var all := out + SentOn(events, off);
    for i := 0 to |events|
      invariant out + SentOn(events[i..], off) == all
    {
      DropDrop(events, i, 1);
      var content, start := Reopen(events[i], off, size);
      var sent: seq<string>;
      off, sent := Emit(content, start, size);
      Assoc(out, sent, SentOn(events[i + 1..], off));
      out := out + sent;
    }
  }

  /** Following a file that is short at first starts with every complete line it holds. */
  lemma ShortFileWhole(first: string, events: seq<Event>)
    requires |first| <= 262144
    ensures var sent := SentAt(first, StartOffset(first)) + SentOn(events, NextOffset(first, StartOffset(first)));
            LinesOf(first) <= sent
  {
    ShortFromStart(first);
    assert first[0..] == first;
  }

  /** So does following one that takes its place, and one whose end part could not be found. */
  lemma ShortReplacementWhole(content: string, sought: bool, events: seq<Event>, off: nat)
    requires |content| <= 262144 || !sought
    ensures LinesOf(content) <= SentOn([CreateOpened(content, sought)] + events, off)
  {
    var e := CreateOpened(content, sought);
    assert ([e] + events)[1..] == events;
    if sought {
      ShortFromStart(content);
    }
    assert content[0..] == content;
  }

  /** A longer one is read from the earliest start of a line in its last 256 KiB, once that was looked for. */
  lemma LongReplacementFromEnd(content: string, events: seq<Event>, off: nat) returns (start: nat)
    requires |content| > 262144
    ensures start <= |content| && LinesOf(content[start..]) <= SentOn([CreateOpened(content, true)] + events, off)
    ensures if start == 0 then forall i :: |content| - 262144 <= i < |content| ==> content[i] != '\n'
            else |content| - 262144 < start && content[start - 1] == '\n' &&
                 forall i :: |content| - 262144 <= i < start - 1 ==> content[i] != '\n'
  {
    var e := CreateOpened(content, true);
    start := StartOffset(content);
    StartOffsetIsEarliest(content);
    assert ([e] + events)[1..] == events;
  }

  /** One file as it is followed: where reading starts, and its contents as the polls find them. */
  datatype Followed = Followed(start: nat, contents: seq<string>)

  /** Where a poll starts to read. */
  function StartIn(held: string, off: nat): (start: nat)
    ensures start <= |held|
  {
    if |held| < off then 0 else off
  }

  /**
   The files followed one after the other, `current` being the one that is open. A file that was
   rewritten or truncated in place is another one from then on; it is read where the offset stands,
   or from its start when it is too short for that.
   */
  function Files(current: Followed, events: seq<Event>): seq<Followed>
    requires current.contents != []
    decreases |events|
  {
    if events == [] then [current]
    else if events[0].CreateOpened? then
      [current] + Files(Followed(Reopened(events[0]), [events[0].content]), events[1..])
    else
      var held := events[0].held;
      if current.contents[|current.contents| - 1] <= held then
        Files(current.(contents := current.contents + [held]), events[1..])
      else
        var off := OffsetAfter(current.contents, current.start);
        [current] + Files(Followed(StartIn(held, off), [held]), events[1..])
  }

  function SentByAll(files: seq<Followed>): seq<string> {
    if files == [] then [] else SentBy(files[0].contents, files[0].start) + SentByAll(files[1..])
  }

  lemma {:induction false} SentByAppend(contents: seq<string>, held: string, off: nat)
    ensures SentBy(contents + [held], off) == SentBy(contents, off) + SentAt(held, OffsetAfter(contents, off))
    ensures OffsetAfter(contents + [held], off) == NextOffset(held, OffsetAfter(contents, off))
  {
    hide SentAt, NextOffset;
    if contents == [] {
      assert [held][1..] == [] && [] + [held] == [held];
      assert SentAt(held, off) + [] == SentAt(held, off) == [] + SentAt(held, off);
    } else {
      var next := NextOffset(contents[0], off);
      assert (contents + [held])[1..] == contents[1..] + [held];
      SentByAppend(contents[1..], held, next);
      Assoc(SentAt(contents[0], off), SentBy(contents[1..], next), SentAt(held, OffsetAfter(contents[1..], next)));
    }
  }

  /** What the events send is what the files send one after the other. */
  lemma {:induction false} FileByFile(current: Followed, events: seq<Event>)
    requires current.contents != []
    ensures SentByAll(Files(current, events)) ==
            SentBy(current.contents, current.start) + SentOn(events, OffsetAfter(current.contents, current.start))
    decreases |events|, 2
  {
    hide SentAt, NextOffset, SentBy, OffsetAfter, StartOffset;
    var sent, off := SentBy(current.contents, current.start), OffsetAfter(current.contents, current.start);
    if events == [] {
      assert [current][1..] == [];
    } else if events[0].CreateOpened? {
      NextFile(current, Followed(Reopened(events[0]), [events[0].content]), events[1..]);
    } else {
      var held := events[0].held;
      if current.contents[|current.contents| - 1] <= held {
        FileByFile(current.(contents := current.contents + [held]), events[1..]);
        SentByAppend(current.contents, held, current.start);
        Assoc(sent, SentAt(held, off), SentOn(events[1..], NextOffset(held, off)));
      } else {
        NextFile(current, Followed(StartIn(held, off), [held]), events[1..]);
        SameStart(held, off);
      }
    }
  }

  lemma NextFile(current: Followed, next: Followed, events: seq<Event>)
    requires |next.contents| == 1
    ensures var content, off := next.contents[0], next.start;
            SentByAll([current] + Files(next, events)) ==
            SentBy(current.contents, current.start) + (SentAt(content, off) + SentOn(events, NextOffset(content, off)))
    decreases |events|, 3
  {
    hide SentAt, NextOffset, SentBy, OffsetAfter, StartOffset, SentOn, Files;
    FileByFile(next, events);
    OnePoll(next.contents[0], next.start);
    assert next.contents == [next.contents[0]];
    assert ([current] + Files(next, events))[1..] == Files(next, events);
  }

  lemma SameStart(held: string, off: nat)
    ensures SentAt(held, StartIn(held, off)) == SentAt(held, off)
    ensures NextOffset(held, StartIn(held, off)) == NextOffset(held, off)
  {
  }

  lemma OnePoll(content: string, off: nat)
    ensures SentBy([content], off) == SentAt(content, off) && OffsetAfter([content], off) == NextOffset(content, off)
  {
    hide SentAt, NextOffset;
    assert [content][1..] == [];
    assert SentAt(content, off) + [] == SentAt(content, off);
  }

  /** Each file is there when it is opened and only grows while it is followed. */
  ghost predicate AllGrow(files: seq<Followed>) {
    forall k :: 0 <= k < |files| ==> Grows(files[k])
  }

  ghost predicate Grows(f: Followed) {
    f.contents != [] && Growing(f.contents) && f.start <= |f.contents[0]|
  }

  lemma {:induction false} FilesGrow(current: Followed, events: seq<Event>)
    requires Grows(current)
    ensures AllGrow(Files(current, events))
    decreases |events|
  {
    hide OffsetAfter, StartOffset;
    if events != [] {
      if events[0].CreateOpened? {
        FilesGrow(Followed(Reopened(events[0]), [events[0].content]), events[1..]);
      } else {
        var held := events[0].held;
        if current.contents[|current.contents| - 1] <= held {
          FilesGrow(current.(contents := current.contents + [held]), events[1..]);
        } else {
          FilesGrow(Followed(StartIn(held, OffsetAfter(current.contents, current.start)), [held]), events[1..]);
        }
      }
    }
  }

  /** The complete lines of every file from its start offset on, file after file. */
  function LinesOfAll(files: seq<Followed>): seq<string>
    requires forall k :: 0 <= k < |files| ==>
               files[k].contents != [] && files[k].start <= |files[k].contents[|files[k].contents| - 1]|
  {
    if files == [] then []
    else LinesOf(files[0].contents[|files[0].contents| - 1][files[0].start..]) + LinesOfAll(files[1..])
  }

  lemma {:induction false} EachFileOnce(files: seq<Followed>)
    requires AllGrow(files)
    ensures forall k :: 0 <= k < |files| ==>
              files[k].contents != [] && files[k].start <= |files[k].contents[|files[k].contents| - 1]|
    ensures SentByAll(files) == LinesOfAll(files)
  {
    hide LinesOf, SentBy, Growing;
    if files != [] {
      PollsDoNotMatter(files[0].contents, files[0].start);
      EachFileOnce(files[1..]);
    }
  }

  /**
   A whole run, over any notifications: what is sent is every complete line of each file from where
   reading it started, once and in order, file after file.
   */
  lemma FollowedOnce(first: string, events: seq<Event>)
    ensures var start := StartOffset(first); var files := Files(Followed(start, [first]), events);
            && (forall k :: 0 <= k < |files| ==>
                  files[k].contents != [] && files[k].start <= |files[k].contents[|files[k].contents| - 1]|)
            && SentAt(first, start) + SentOn(events, NextOffset(first, start)) == LinesOfAll(files)
  {
    hide SentAt, NextOffset, StartOffset, SentOn, Files, AllGrow;
    var current := Followed(StartOffset(first), [first]);
    FilesGrow(current, events);
    EachFileOnce(Files(current, events));
    FileByFile(current, events);
    OnePoll(first, current.start);
  }

  // ---- Files that are rewritten in place ----

  /** The complete lines end with the last newline. */
  lemma {:induction false} CompleteEnds(s: string)
    ensures var n := Complete(s);
            && (n == 0 <==> '\n' !in s) && (n > 0 ==> s[n - 1] == '\n')
            && forall i :: n <= i < |s| ==> s[i] != '\n'
    decreases |s|
  {
    hide FirstLine;
    if '\n' in s {
      var n := |FirstLine(s)|;
      var rest := s[n..];
      CompleteEnds(rest);
      assert FirstLine(s)[n - 1] == s[n - 1];
      assert forall i :: n <= i < |s| ==> s[i] == rest[i - n];
    }
  }

  /** Of a file's complete lines every byte is read, from whatever offset. */
  ghost predicate ReadWhole(content: string, start: nat)
    requires start <= |content|
  {
    LinesOf(content[start..]) == LinesOf(content) && Complete(content[start..]) == Complete(content)
  }

  /**
   A file rewritten in place, which the next poll finds as `held` and the last one as `content`: its
   lines are all sent if and only if it was found shorter than the offset, or there was nothing to miss.
   */
  lemma RewrittenIff(held: string, content: string, off: nat)
    requires held <= content
    ensures ReadWhole(content, StartIn(held, off)) <==> |held| < off || off == 0 || '\n' !in content
  {
    hide LinesOf, Complete;
    var start := StartIn(held, off);
    var rest := content[start..];
    CompleteEnds(content);
    CompleteEnds(rest);
    if start == 0 {
      assert rest == content;
    } else if '\n' !in content {
      NoLines(content);
      NoLines(rest);
    } else if '\n' in rest {
      var n := Complete(rest);
      assert content[start + n - 1] == rest[n - 1];
      assert forall i :: start + n <= i < |content| ==> content[i] == rest[i - start];
      assert Complete(content) == start + n;
    }
  }

  lemma NoLines(s: string)
    requires '\n' !in s
    ensures LinesOf(s) == [] && Complete(s) == 0
  {
  }

  // ---- What a line is ----

  /** Bytes that each are one line with its newline. */
  predicate AreRaw(raws: seq<string>) {
    forall i :: 0 <= i < |raws| ==>
      raws[i] != "" && raws[i][|raws[i]| - 1] == '\n' && '\n' !in raws[i][..|raws[i]| - 1]
  }

  function Concat(raws: seq<string>): string {
    if raws == [] then "" else raws[0] + Concat(raws[1..])
  }

  function Texts(raws: seq<string>): (r: seq<string>)
    ensures |r| == |raws| && forall i :: 0 <= i < |r| ==> r[i] == Text(raws[i])
  {
    seq(|raws|, i requires 0 <= i < |raws| => Text(raws[i]))
  }

  lemma TakeRaw(raw: string, more: string)
    requires raw != "" && raw[|raw| - 1] == '\n' && '\n' !in raw[..|raw| - 1]
    ensures '\n' in raw + more && FirstLine(raw + more) == raw && (raw + more)[|raw|..] == more
  {
    var s, n := raw + more, |raw| - 1;
    assert s[n] == '\n' && s[..n] == raw[..n];
    IndexOfUnique(s, '\n', n);
    assert s[..n + 1] == raw;
  }

  /** A file is cut behind every newline; what stands behind the last one is no line yet. */
  lemma {:induction false} LinesAre(raws: seq<string>, rest: string)
    requires AreRaw(raws) && '\n' !in rest
    ensures LinesOf(Concat(raws) + rest) == Texts(raws) && Complete(Concat(raws) + rest) == |Concat(raws)|
  {
    hide Text, FirstLine;
    if raws == [] {
      assert Concat(raws) + rest == rest;
    } else {
      var raw, more := raws[0], Concat(raws[1..]) + rest;
      LinesAre(raws[1..], rest);
      TakeRaw(raw, more);
      Assoc(raw, Concat(raws[1..]), rest);
      hide LinesOf, Complete, Concat;
      LineStep(raw + more, 0);
      assert (raw + more)[0..] == raw + more;
      TextsStep(raws);
    }
  }

  lemma TextsStep(raws: seq<string>)
    requires raws != []
    ensures Texts(raws) == [Text(raws[0])] + Texts(raws[1..])
  {
    hide Text;
  }

  /**
   Of a line its first 64 KiB are sent, without the line ends that stand at the end of them, whatever there
   is of these.
   */
  lemma TextIs(raw: string, t: string, ends: string)
    requires t + ends == if |raw| <= 65536 then raw else raw[..65536]
    requires t == "" || (t[|t| - 1] != '\r' && t[|t| - 1] != '\n')
    requires forall c :: c in ends ==> c == '\r' || c == '\n'
    ensures Text(raw) == t
  {
    TrimRightBehind(t, ends, LINE_ENDS);
  }
}
