/**
 Editing `.env` files without losing anything: every line is kept as it stands, and an edit touches
 only the lines of its key.
 */
module EnvFile {
  import opened Sequences
  import opened Strings

  const BLANKS := {' ', '\t'}
  const LF := "\n"
  const CRLF := "\r\n"

  /** One line: its text, its terminator (LF, CRLF or nothing), and its key, empty for lines that set nothing. */
  datatype Line = Line(text: string, eol: string, key: string)

  // ---- Parsing and printing ----

  /** The first line of a non-empty text, and the rest. */
  function CutLine(s: string): (string, string, string) {
    var i := IndexOf(s, '\n');
    if i < 0 then (s, "", "")
    else if EndsInReturn(s[..i]) then (s[..i - 1], CRLF, s[i + 1..])
    else (s[..i], LF, s[i + 1..])
  }

  lemma CutLineParts(s: string)
    requires s != ""
    ensures var (text, eol, rest) := CutLine(s);
            s == text + eol + rest && |rest| < |s| && '\n' !in text
  {
  }

  predicate EndsInReturn(t: string) {
    t != "" && t[|t| - 1] == '\r'
  }

  function KeyOf(text: string): string {
    var s := TrimLeft(text, BLANKS);
    if s == "" || s[0] == '#' || IndexOf(s, '=') <= 0 then ""
    else TrimRight(s[..IndexOf(s, '=')], BLANKS)
  }

  function LineOf(text: string, eol: string): Line {
    Line(text, eol, KeyOf(text))
  }

  function ParseLines(s: string): seq<Line>
    decreases |s|
  {
    if s == "" then []
    else
      var (text, eol, rest) := CutLine(s);
      [LineOf(text, eol)] + ParseLines(rest)
  }

  function BytesOf(lines: seq<Line>): string {
    if lines == [] then "" else lines[0].text + lines[0].eol + BytesOf(lines[1..])
  }

  /** What was parsed prints back to every byte of the input, whatever the input. */
  lemma {:induction false} ParsePrint(s: string)
    ensures BytesOf(ParseLines(s)) == s
    decreases |s|
  {
    hide CutLine, KeyOf;
    if s != "" {
      var (text, eol, rest) := CutLine(s);
      CutLineParts(s);
      ParsePrint(rest);
      assert ParseLines(s)[1..] == ParseLines(rest);
    }
  }

  /** Lines that printing and parsing again leaves as they are, but for an empty last one. */
  ghost predicate Tidy(lines: seq<Line>) {
    forall i :: 0 <= i < |lines| ==> TidyLine(lines[i], i == |lines| - 1)
  }

  ghost predicate TidyLine(l: Line, last: bool) {
    && '\n' !in l.text && l.key == KeyOf(l.text)
    && (l.eol == LF || l.eol == CRLF || (l.eol == "" && last))
    && (l.eol == LF ==> !EndsInReturn(l.text))
  }

  lemma {:induction false} ParsedIsTidy(s: string)
    ensures Tidy(ParseLines(s))
    decreases |s|
  {
    if s != "" {
      CutLineParts(s);
      ParsedIsTidy(CutLine(s).2);
    }
  }

  /** The lines without an empty, unterminated last one, which prints as nothing. */
  function Printed(lines: seq<Line>): seq<Line> {
    if lines != [] && lines[|lines| - 1].text == "" && lines[|lines| - 1].eol == "" then lines[..|lines| - 1] else lines
  }

  lemma CutPrinted(l: Line, rest: string)
    requires TidyLine(l, rest == "") && (l.eol != "" || l.text != "")
    ensures l.text + l.eol + rest != ""
    ensures CutLine(l.text + l.eol + rest) == (l.text, l.eol, rest)
  {
    if l.eol == LF {
      CutLf(l.text, rest);
    } else if l.eol == CRLF {
      CutCrlf(l.text, rest);
    } else {
      assert l.text + l.eol + rest == l.text;
    }
  }

  lemma CutLf(text: string, rest: string)
    requires '\n' !in text && !EndsInReturn(text)
    ensures CutLine(text + LF + rest) == (text, LF, rest)
  {
    var s := text + LF + rest;
    assert s[..|text|] == text && s[|text| + 1..] == rest;
    IndexOfUnique(s, '\n', |text|);
  }

  lemma CutCrlf(text: string, rest: string)
    requires '\n' !in text
    ensures CutLine(text + CRLF + rest) == (text, CRLF, rest)
  {
    var s := text + CRLF + rest;
    assert s[..|text| + 1] == text + "\r" && s[|text| + 2..] == rest;
    IndexOfUnique(s, '\n', |text| + 1);
    assert s[..|text|] == text;
  }

  /** Printing tidy lines and parsing the bytes again gives the same lines. */
  lemma {:induction false} PrintParse(lines: seq<Line>)
    requires Tidy(lines)
    ensures ParseLines(BytesOf(lines)) == Printed(lines)
  {
    hide CutLine, KeyOf;
    if lines != [] {
      var l, rest := lines[0], lines[1..];
      assert Tidy(rest) && TidyLine(l, rest == []);
      PrintParse(rest);
      if l.eol != "" || l.text != "" {
        CutPrinted(l, BytesOf(rest));
        PrintedStep(lines);
      }
    }
  }

  lemma PrintedStep(lines: seq<Line>)
    requires lines != [] && (lines[0].eol != "" || lines[0].text != "")
    ensures Printed(lines) == [lines[0]] + Printed(lines[1..])
  {
  }

  // ---- Reading ----

  /** The first line of `key`, or -1. */
  function Index(lines: seq<Line>, key: string): (i: int)
    ensures -1 <= i < |lines|
    ensures i >= 0 ==> key != "" && lines[i].key == key && forall j :: 0 <= j < i ==> lines[j].key != key
    ensures i < 0 && key != "" ==> forall j :: 0 <= j < |lines| ==> lines[j].key != key
  {
    if key == "" || lines == [] then -1
    else if lines[0].key == key then 0
    else
      var i := Index(lines[1..], key);
      if i < 0 then -1 else i + 1
  }

  function GetIn(lines: seq<Line>, key: string): Option<string> {
    var i := Index(lines, key);
    if i < 0 then None else Some(ValueOf(lines[i].text))
  }

  /** What follows the first equals sign. */
  function ValueOf(text: string): string {
    text[IndexOf(text, '=') + 1..]
  }

  /** The keys in order of first appearance, those in `seen` left out. */
  function KeysIn(lines: seq<Line>, seen: set<string>): seq<string> {
    if lines == [] then []
    else if lines[0].key == "" || lines[0].key in seen then KeysIn(lines[1..], seen)
    else [lines[0].key] + KeysIn(lines[1..], seen + {lines[0].key})
  }

  // ---- Writing ----

  /** The terminator the file uses. */
  function FileEol(lines: seq<Line>): (eol: string)
    ensures eol == LF || exists i :: 0 <= i < |lines| && lines[i].eol == eol != ""
  {
    if lines == [] then LF else if lines[0].eol != "" then lines[0].eol else FileEol(lines[1..])
  }

  function IndentOf(text: string): string {
    text[..|text| - |TrimLeft(text, BLANKS)|]
  }

  function Terminated(lines: seq<Line>): seq<Line> {
    var n := |lines|;
    if n > 0 && lines[n - 1].eol == "" then lines[n - 1 := lines[n - 1].(eol := FileEol(lines))] else lines
  }

  function AfterSet(lines: seq<Line>, key: string, value: string): seq<Line> {
    var i := Index(lines, key);
    if i >= 0 then lines[i := lines[i].(text := IndentOf(lines[i].text) + key + "=" + value)]
    else Terminated(lines) + [Line(key + "=" + value, FileEol(lines), key)]
  }

  function WithoutKey(lines: seq<Line>, key: string): seq<Line> {
    if lines == [] then []
    else (if lines[0].key == key then [] else [lines[0]]) + WithoutKey(lines[1..], key)
  }

  function AfterUnset(lines: seq<Line>, key: string): seq<Line> {
    if Index(lines, key) < 0 then lines
    else
      var out := WithoutKey(lines, key);
      if out != [] && lines[|lines| - 1].eol == "" then out[|out| - 1 := out[|out| - 1].(eol := "")] else out
  }

  /** A key that stands for itself when it is written in front of an equals sign. */
  predicate WellFormedKey(key: string) {
    && key != "" && key[0] !in BLANKS && key[0] != '#' && key[|key| - 1] !in BLANKS
    && '=' !in key && '\n' !in key
  }

  /** A value that fits on a line. */
  predicate LineValue(value: string) {
    '\n' !in value && !EndsInReturn(value)
  }

  lemma WithoutStep(lines: seq<Line>, key: string, k: nat)
    requires k < |lines| && key != ""
    ensures WithoutKey(lines[k..], key) ==
            (if lines[k].key == key then [] else [lines[k]]) + WithoutKey(lines[k + 1..], key)
  {
    DropDrop(lines, k, 1);
    assert [] + WithoutKey(lines[k + 1..], key) == WithoutKey(lines[k + 1..], key);
  }

  class File {
    var lines: seq<Line>

    constructor (lines: seq<Line>)
      ensures this.lines == lines
    {
      this.lines := lines;
    }

    static method Parse(b: string) returns (f: File)
      ensures fresh(f) && f.lines == ParseLines(b)
    {
      hide CutLine, LineOf;
      var s := b;
      var out: seq<Line> := [];
      while s != ""
        invariant out + ParseLines(s) == ParseLines(b)
        decreases |s|
      {
        var (text, eol, rest) := CutLine(s);
        CutLineParts(s);
        Assoc(out, [LineOf(text, eol)], ParseLines(rest));
        out := out + [LineOf(text, eol)];
        s := rest;
      }
      f := new File(out);
    }

    method Bytes() returns (buf: string)
      ensures buf == BytesOf(lines)
    {
      buf := "";
      for i := 0 to |lines|
        invariant buf + BytesOf(lines[i..]) == BytesOf(lines)
      {
        assert lines[i..][1..] == lines[i + 1..];
        assert buf + (lines[i].text + lines[i].eol + BytesOf(lines[i + 1..])) ==
               buf + lines[i].text + lines[i].eol + BytesOf(lines[i + 1..]);
        buf := buf + lines[i].text;
        buf := buf + lines[i].eol;
      }
    }

    method IndexOfKey(key: string) returns (i: int)
      ensures i == Index(lines, key)
    {
      if key == "" {
        return -1;
      }
      for k := 0 to |lines|
        invariant forall j :: 0 <= j < k ==> lines[j].key != key
      {
        if lines[k].key == key {
          return k;
        }
      }
      return -1;
    }

    method Get(key: string) returns (value: Option<string>)
      ensures value == GetIn(lines, key)
    {
      var i := IndexOfKey(key);
      if i < 0 {
        return None;
      }
      var text := lines[i].text;
      return Some(text[IndexOf(text, '=') + 1..]);
    }

    method Keys() returns (out: seq<string>)
      ensures out == KeysIn(lines, {})
    {
      out := [];
      var seen: set<string> := {};
      for i := 0 to |lines|
        invariant out + KeysIn(lines[i..], seen) == KeysIn(lines, {})
      {
        assert lines[i..][1..] == lines[i + 1..];
        var key := lines[i].key;
        if key == "" || key in seen {
          continue;
        }
        Assoc(out, [key], KeysIn(lines[i + 1..], seen + {key}));
        seen := seen + {key};
        out := out + [key];
      }
    }

    method Set(key: string, value: string)
      modifies this
      ensures lines == AfterSet(old(lines), key, value)
    {
      var i := IndexOfKey(key);
      if i >= 0 {
        lines := lines[i := lines[i].(text := IndentOf(lines[i].text) + key + "=" + value)];
        return;
      }
      AppendLine(key + "=" + value, key);
    }

    method AppendLine(text: string, key: string)
      modifies this
      ensures lines == Terminated(old(lines)) + [Line(text, FileEol(old(lines)), key)]
    {
      var eol := FileEol(lines);
      var n := |lines|;
      if n > 0 && lines[n - 1].eol == "" {
        lines := lines[n - 1 := lines[n - 1].(eol := eol)];
      }
      lines := lines + [Line(text, eol, key)];
    }

    method Unset(key: string)
      modifies this
      ensures lines == AfterUnset(old(lines), key)
    {
      var i := IndexOfKey(key);
      if i < 0 {
        return;
      }
      var last := lines[|lines| - 1].eol;
      var out := Others(key);
      if |out| > 0 && last == "" {
        out := out[|out| - 1 := out[|out| - 1].(eol := "")];
      }
      lines := out;
    }

    /** The lines of other keys. */
    method Others(key: string) returns (out: seq<Line>)
      requires key != ""
      ensures out == WithoutKey(lines, key)
    {
      out := [];
      for k := 0 to |lines|
        invariant out + WithoutKey(lines[k..], key) == WithoutKey(lines, key)
      {
        WithoutStep(lines, key, k);
        hide WithoutKey;
        if lines[k].key != "" && lines[k].key == key {
          continue;
        }
        Assoc(out, [lines[k]], WithoutKey(lines[k + 1..], key));
        out := out + [lines[k]];
      }
    }
  }

  // ---- What an edit changes ----

  lemma WrittenLine(indent: string, key: string, value: string)
    requires WellFormedKey(key) && forall i :: 0 <= i < |indent| ==> indent[i] in BLANKS
    ensures var text := indent + key + "=" + value;
            KeyOf(text) == key && ValueOf(text) == value
  {
    var s := key + ['='] + value;
    Assoc(indent, key, ['=']);
    Assoc(indent, key + ['='], value);
    StartsWithKey(key, value);
    assert key != "" && key[0] !in BLANKS && key[0] != '#' && key[|key| - 1] !in BLANKS && '=' !in key;
    assert forall c :: c in indent ==> c in BLANKS;
    NoEqualsInIndent(indent, key);
    EqualsAt(key, value);
    EqualsAt(indent + key, value);
    TrimLeftBehind(indent, s, BLANKS);
    KeyIs(indent + s, s, key);
    hide KeyOf, WellFormedKey;
  }

  lemma NoIndent(key: string, value: string)
    ensures "" + key + "=" + value == key + "=" + value
  {
  }

  lemma NoEqualsInIndent(indent: string, key: string)
    requires (forall c :: c in indent ==> c in BLANKS) && '=' !in key
    ensures '=' !in indent + key
  {
  }

  lemma KeyIs(text: string, s: string, key: string)
    requires s != "" && TrimLeft(text, BLANKS) == s && s[0] != '#'
    requires key != "" && IndexOf(s, '=') == |key| && s[..|key|] == key && key[|key| - 1] !in BLANKS
    ensures KeyOf(text) == key
  {
    assert TrimRight(key, BLANKS) == key;
  }

  lemma StartsWithKey(key: string, value: string)
    requires key != ""
    ensures var s := key + ['='] + value; s != "" && s[0] == key[0]
  {
  }

  lemma EqualsAt(before: string, value: string)
    requires '=' !in before
    ensures var s := before + ['='] + value;
            IndexOf(s, '=') == |before| && s[..|before|] == before && s[|before| + 1..] == value
  {
    var s := before + ['='] + value;
    assert s[..|before|] == before;
    IndexOfUnique(s, '=', |before|);
  }

  lemma IndentIsBlank(text: string)
    ensures forall i :: 0 <= i < |IndentOf(text)| ==> IndentOf(text)[i] in BLANKS
  {
    TrimLeftEnd(text, BLANKS);
  }

  lemma {:induction false} IndexIs(lines: seq<Line>, key: string, i: nat)
    requires i < |lines| && key != "" && lines[i].key == key && forall j :: 0 <= j < i ==> lines[j].key != key
    ensures Index(lines, key) == i
  {
  }

  /** Lookups see only the keys of the lines. */
  lemma SameKeysSameIndex(a: seq<Line>, b: seq<Line>, key: string)
    requires |a| == |b| && forall i :: 0 <= i < |a| ==> a[i].key == b[i].key
    ensures Index(a, key) == Index(b, key)
  {
    var i := Index(a, key);
    if i >= 0 {
      IndexIs(b, key, i);
    }
  }

  lemma {:induction false} IndexAppended(lines: seq<Line>, l: Line, key: string)
    ensures Index(lines + [l], key) ==
            if Index(lines, key) >= 0 then Index(lines, key)
            else if key != "" && l.key == key then |lines| else -1
  {
    var i := Index(lines, key);
    if i >= 0 {
      IndexIs(lines + [l], key, i);
    } else if key != "" && l.key == key {
      IndexIs(lines + [l], key, |lines|);
    }
  }

  /** Setting a key gives it the value and leaves the value of every other key. */
  lemma GetAfterSet(lines: seq<Line>, key: string, value: string, other: string)
    requires WellFormedKey(key)
    ensures GetIn(AfterSet(lines, key, value), other) == if other == key then Some(value) else GetIn(lines, other)
  {
    hide KeyOf, ValueOf, IndentOf, WellFormedKey, FileEol;
    var after := AfterSet(lines, key, value);
    var i := Index(lines, key);
    assert key != "" by { NotEmpty(key); }
    if i >= 0 {
      IndentIsBlank(lines[i].text);
      WrittenLine(IndentOf(lines[i].text), key, value);
      SameKeysSameIndex(lines, after, other);
    } else {
      var t := Terminated(lines);
      WrittenLine("", key, value);
      NoIndent(key, value);
      SameKeysSameIndex(lines, t, other);
      IndexAppended(t, Line(key + "=" + value, FileEol(lines), key), other);
    }
  }

  lemma NotEmpty(key: string)
    requires WellFormedKey(key)
    ensures key != ""
  {
  }

  /** The first line decides unless it is of another key. */
  lemma GetStep(l: Line, rest: seq<Line>, key: string)
    ensures GetIn([l] + rest, key) == if key != "" && l.key == key then Some(ValueOf(l.text)) else GetIn(rest, key)
  {
    hide ValueOf;
    assert ([l] + rest)[1..] == rest;
  }

  lemma {:induction false} GetWithoutKey(lines: seq<Line>, key: string, other: string)
    requires key != ""
    ensures GetIn(WithoutKey(lines, key), other) == if other == key then None else GetIn(lines, other)
  {
    if lines != [] {
      var rest := WithoutKey(lines[1..], key);
      GetWithoutKey(lines[1..], key, other);
      GetStep(lines[0], lines[1..], other);
      GetStep(lines[0], rest, other);
      HeadAndTail(lines);
      assert [] + rest == rest;
      hide GetIn;
    }
  }

  /** Unsetting a key leaves no value for it and leaves the value of every other key. */
  lemma GetAfterUnset(lines: seq<Line>, key: string, other: string)
    requires key != ""
    ensures GetIn(AfterUnset(lines, key), other) == if other == key then None else GetIn(lines, other)
  {
    hide ValueOf;
    GetWithoutKey(lines, key, other);
    if Index(lines, key) >= 0 {
      SameKeysSameIndex(WithoutKey(lines, key), AfterUnset(lines, key), other);
    }
  }

  // ---- The keys ----

  lemma {:induction false} KeysSame(a: seq<Line>, b: seq<Line>, seen: set<string>)
    requires |a| == |b| && forall i :: 0 <= i < |a| ==> a[i].key == b[i].key
    ensures KeysIn(a, seen) == KeysIn(b, seen)
    decreases |a|
  {
    if a != [] {
      KeysSame(a[1..], b[1..], seen);
      KeysSame(a[1..], b[1..], seen + {a[0].key});
    }
  }

  lemma {:induction false} KeysAppended(lines: seq<Line>, l: Line, seen: set<string>)
    requires l.key != "" && l.key !in seen && forall i :: 0 <= i < |lines| ==> lines[i].key != l.key
    ensures KeysIn(lines + [l], seen) == KeysIn(lines, seen) + [l.key]
    decreases |lines|
  {
    var all := lines + [l];
    if lines == [] {
      assert all == [l] && [l][1..] == [];
    } else {
      assert all[0] == lines[0] && all[1..] == lines[1..] + [l];
      KeysAppended(lines[1..], l, seen);
      KeysAppended(lines[1..], l, seen + {lines[0].key});
    }
  }

  /** Setting a key adds it behind the others unless it was there already. */
  lemma KeysAfterSet(lines: seq<Line>, key: string, value: string)
    requires key != ""
    ensures KeysIn(AfterSet(lines, key, value), {}) ==
            if Index(lines, key) >= 0 then KeysIn(lines, {}) else KeysIn(lines, {}) + [key]
  {
    hide FileEol, IndentOf;
    if Index(lines, key) >= 0 {
      KeysSame(lines, AfterSet(lines, key, value), {});
    } else {
      KeysSame(lines, Terminated(lines), {});
      KeysAppended(Terminated(lines), Line(key + "=" + value, FileEol(lines), key), {});
    }
  }

  function Minus(keys: seq<string>, key: string): seq<string> {
    if keys == [] then [] else (if keys[0] == key then [] else [keys[0]]) + Minus(keys[1..], key)
  }

  lemma {:induction false} KeysWithoutKey(lines: seq<Line>, key: string, seen: set<string>, seen': set<string>)
    requires key != "" && (seen' == seen || (seen == seen' + {key} && key !in seen'))
    ensures KeysIn(WithoutKey(lines, key), seen') == Minus(KeysIn(lines, seen), key)
    decreases |lines|
  {
    if lines != [] {
      var k, rest := lines[0].key, WithoutKey(lines[1..], key);
      KeysWithoutKey(lines[1..], key, seen, seen');
      if k == key {
        assert [] + rest == rest;
        if k !in seen {
          KeysWithoutKey(lines[1..], key, seen + {key}, seen' + {key});
          KeysDropSeen(lines[1..], key, seen');
          assert ([key] + KeysIn(lines[1..], seen + {key}))[1..] == KeysIn(lines[1..], seen + {key});
        }
      } else {
        assert ([lines[0]] + rest)[1..] == rest;
        if k != "" && k !in seen {
          KeysWithoutKey(lines[1..], key, seen + {k}, seen' + {k});
          assert ([k] + KeysIn(lines[1..], seen + {k}))[1..] == KeysIn(lines[1..], seen + {k});
        }
      }
    }
  }

  /** Once its lines are gone it makes no difference whether a key was seen. */
  lemma {:induction false} KeysDropSeen(lines: seq<Line>, key: string, seen: set<string>)
    ensures KeysIn(WithoutKey(lines, key), seen + {key}) == KeysIn(WithoutKey(lines, key), seen)
    decreases |lines|
  {
    if lines != [] {
      var k, rest := lines[0].key, WithoutKey(lines[1..], key);
      KeysDropSeen(lines[1..], key, seen);
      if k == key {
        assert [] + rest == rest;
      } else {
        assert ([lines[0]] + rest)[1..] == rest;
        KeysDropSeen(lines[1..], key, seen + {k});
        assert seen + {key} + {k} == seen + {k} + {key};
      }
    }
  }

  /** Unsetting a key takes it out of the keys and keeps the order of the others. */
  lemma KeysAfterUnset(lines: seq<Line>, key: string)
    requires key != ""
    ensures KeysIn(AfterUnset(lines, key), {}) == Minus(KeysIn(lines, {}), key)
  {
    KeysWithoutKey(lines, key, {}, {});
    if Index(lines, key) >= 0 {
      KeysSame(WithoutKey(lines, key), AfterUnset(lines, key), {});
    } else {
      NoLineNoDifference(lines, key);
    }
  }

  lemma {:induction false} NoLineNoDifference(lines: seq<Line>, key: string)
    requires key != "" && Index(lines, key) < 0
    ensures WithoutKey(lines, key) == lines
  {
    if lines != [] {
      NoLineNoDifference(lines[1..], key);
    }
  }

  // ---- Edits survive being written and read again ----

  /** Reading the printed lines again gives the same answers as the lines in memory. */
  lemma ReadBack(lines: seq<Line>, key: string)
    requires Tidy(lines)
    ensures var again := ParseLines(BytesOf(lines));
            GetIn(again, key) == GetIn(lines, key) && KeysIn(again, {}) == KeysIn(lines, {})
  {
    hide ParseLines, BytesOf, ValueOf, KeyOf;
    PrintParse(lines);
    var again := Printed(lines);
    if again != lines {
      var l := lines[|lines| - 1];
      assert lines == again + [l];
      assert TidyLine(l, true) && l.key == KeyOf("");
      EmptyHasNoKey();
      IndexAppended(again, l, key);
      KeysNotAppended(again, l, {});
    }
  }

  lemma EmptyHasNoKey()
    ensures KeyOf("") == ""
  {
  }

  lemma {:induction false} KeysNotAppended(lines: seq<Line>, l: Line, seen: set<string>)
    requires l.key == ""
    ensures KeysIn(lines + [l], seen) == KeysIn(lines, seen)
    decreases |lines|
  {
    var all := lines + [l];
    if lines == [] {
      assert all == [l] && [l][1..] == [];
    } else {
      assert all[0] == lines[0] && all[1..] == lines[1..] + [l];
      KeysNotAppended(lines[1..], l, seen);
      KeysNotAppended(lines[1..], l, seen + {lines[0].key});
    }
  }

  /** Appending would turn a carriage return that ends the last line's text into part of its terminator. */
  predicate LosesReturn(lines: seq<Line>) {
    && lines != [] && lines[|lines| - 1].eol == "" && EndsInReturn(lines[|lines| - 1].text)
    && FileEol(lines) == LF
  }

  lemma {:induction false} FileEolTidy(lines: seq<Line>)
    requires Tidy(lines)
    ensures FileEol(lines) == LF || FileEol(lines) == CRLF
  {
    hide KeyOf;
    if lines != [] {
      assert TidyLine(lines[0], |lines| == 1);
      FileEolTidy(lines[1..]);
    }
  }

  lemma SetKeepsTidy(lines: seq<Line>, key: string, value: string)
    requires Tidy(lines) && WellFormedKey(key) && LineValue(value)
    requires Index(lines, key) >= 0 || !LosesReturn(lines)
    ensures Tidy(AfterSet(lines, key, value))
  {
    hide KeyOf, ValueOf, IndentOf, FileEol, WellFormedKey, LineValue, Tidy, Terminated;
    var i := Index(lines, key);
    if i >= 0 {
      var indent := IndentOf(lines[i].text);
      IndentIsBlank(lines[i].text);
      WrittenLine(indent, key, value);
      WrittenIsPlain(indent, key, value);
      RewrittenIsTidy(lines, i, indent + key + "=" + value);
    } else {
      WrittenLine("", key, value);
      WrittenIsPlain("", key, value);
      NoIndent(key, value);
      AppendedIsTidy(lines, key + "=" + value);
    }
  }

  lemma RewrittenIsTidy(lines: seq<Line>, i: nat, text: string)
    requires Tidy(lines) && i < |lines|
    requires KeyOf(text) == lines[i].key && '\n' !in text && !EndsInReturn(text)
    ensures Tidy(lines[i := lines[i].(text := text)])
  {
    hide KeyOf, EndsInReturn;
  }

  lemma AppendedIsTidy(lines: seq<Line>, text: string)
    requires Tidy(lines) && !LosesReturn(lines) && '\n' !in text && !EndsInReturn(text)
    ensures Tidy(Terminated(lines) + [Line(text, FileEol(lines), KeyOf(text))])
  {
    hide KeyOf, FileEol, EndsInReturn;
    FileEolTidy(lines);
    var after := Terminated(lines) + [Line(text, FileEol(lines), KeyOf(text))];
    forall j | 0 <= j < |after|
      ensures TidyLine(after[j], j == |after| - 1)
    {
      if j < |lines| {
        assert TidyLine(lines[j], j == |lines| - 1);
      }
    }
  }

  lemma WrittenIsPlain(indent: string, key: string, value: string)
    requires WellFormedKey(key) && LineValue(value) && forall i :: 0 <= i < |indent| ==> indent[i] in BLANKS
    ensures var text := indent + key + "=" + value; '\n' !in text && !EndsInReturn(text)
  {
    var text := indent + key + "=" + value;
    assert '\n' !in indent;
    assert text[|text| - 1] == if value == "" then '=' else value[|value| - 1];
  }

  lemma {:induction false} WithoutKeyTidy(lines: seq<Line>, key: string)
    requires Tidy(lines)
    ensures Tidy(WithoutKey(lines, key))
    ensures lines != [] && lines[|lines| - 1].eol != "" ==>
              forall i :: 0 <= i < |WithoutKey(lines, key)| ==> WithoutKey(lines, key)[i].eol != ""
  {
    hide KeyOf;
    if lines != [] {
      var rest := lines[1..];
      assert Tidy(rest);
      WithoutKeyTidy(rest, key);
      var out := WithoutKey(lines, key);
      assert TidyLine(lines[0], |lines| == 1);
      if lines[0].key == key {
        assert out == WithoutKey(rest, key);
      } else {
        forall i | 0 <= i < |out|
          ensures TidyLine(out[i], i == |out| - 1)
        {
          if i > 0 { assert out[i] == WithoutKey(rest, key)[i - 1]; }
        }
      }
    }
  }

  lemma {:induction false} WithoutMembers(lines: seq<Line>, key: string)
    ensures forall l :: l in WithoutKey(lines, key) ==> l in lines
  {
    if lines != [] {
      WithoutMembers(lines[1..], key);
    }
  }

  lemma UnsetKeepsTidy(lines: seq<Line>, key: string)
    requires Tidy(lines)
    ensures Tidy(AfterUnset(lines, key))
  {
    hide KeyOf;
    WithoutKeyTidy(lines, key);
    var out, after := WithoutKey(lines, key), AfterUnset(lines, key);
    forall i | 0 <= i < |after|
      ensures TidyLine(after[i], i == |after| - 1)
    {
      if Index(lines, key) < 0 {
        assert TidyLine(lines[i], i == |lines| - 1);
      } else {
        assert TidyLine(out[i], i == |out| - 1);
      }
    }
  }

  // ---- What an edit leaves alone, byte by byte ----

  lemma {:induction false} BytesAppend(a: seq<Line>, b: seq<Line>)
    ensures BytesOf(a + b) == BytesOf(a) + BytesOf(b)
  {
    if a == [] {
      assert a + b == b;
    } else {
      assert (a + b)[0] == a[0] && (a + b)[1..] == a[1..] + b;
      BytesAppend(a[1..], b);
      Assoc(a[0].text + a[0].eol, BytesOf(a[1..]), BytesOf(b));
    }
  }

  lemma BytesAround(lines: seq<Line>, i: nat)
    requires i < |lines|
    ensures BytesOf(lines) == BytesOf(lines[..i]) + (lines[i].text + lines[i].eol) + BytesOf(lines[i + 1..])
  {
    assert lines == lines[..i] + lines[i..];
    DropDrop(lines, i, 1);
    BytesAppend(lines[..i], lines[i..]);
    assert BytesOf(lines[i..]) == lines[i].text + lines[i].eol + BytesOf(lines[i + 1..]);
    hide BytesOf;
    Assoc(BytesOf(lines[..i]), lines[i].text + lines[i].eol, BytesOf(lines[i + 1..]));
  }

  /** The terminator the last line is given before a line is appended. */
  function MissingEol(lines: seq<Line>): string {
    if lines != [] && lines[|lines| - 1].eol == "" then FileEol(lines) else ""
  }

  /** Setting a key rewrites the text of its first line, or appends a line; every other byte stays. */
  lemma SetTouchesOneLine(lines: seq<Line>, key: string, value: string)
    ensures var i, after := Index(lines, key), BytesOf(AfterSet(lines, key, value));
            if i >= 0 then
              && BytesOf(lines) == BytesOf(lines[..i]) + (lines[i].text + lines[i].eol) + BytesOf(lines[i + 1..])
              && after == BytesOf(lines[..i]) +
                          (IndentOf(lines[i].text) + key + "=" + value + lines[i].eol) + BytesOf(lines[i + 1..])
            else after == BytesOf(lines) + MissingEol(lines) + (key + "=" + value + FileEol(lines))
  {
    hide IndentOf, FileEol, BytesOf;
    var i, after := Index(lines, key), AfterSet(lines, key, value);
    if i >= 0 {
      BytesAround(lines, i);
      BytesAround(after, i);
      assert after[..i] == lines[..i] && after[i + 1..] == lines[i + 1..];
    } else {
      var l := Line(key + "=" + value, FileEol(lines), key);
      BytesAppend(Terminated(lines), [l]);
      BytesOfOne(l);
      TerminatedBytes(lines);
    }
  }

  lemma BytesOfOne(l: Line)
    ensures BytesOf([l]) == l.text + l.eol
  {
    assert [l][1..] == [];
  }

  lemma TerminatedBytes(lines: seq<Line>)
    ensures BytesOf(Terminated(lines)) == BytesOf(lines) + MissingEol(lines)
  {
    hide FileEol, BytesOf;
    if lines != [] && lines[|lines| - 1].eol == "" {
      EolChanged(lines, FileEol(lines));
    } else {
      assert BytesOf(lines) + "" == BytesOf(lines);
    }
  }

  /** Only the terminator of the last line differs. */
  lemma EolChanged(lines: seq<Line>, eol: string)
    requires lines != [] && lines[|lines| - 1].eol == ""
    ensures var n := |lines| - 1; BytesOf(lines[n := lines[n].(eol := eol)]) == BytesOf(lines) + eol
  {
    hide BytesOf;
    var n := |lines| - 1;
    var l := lines[n].(eol := eol);
    var after := lines[n := l];
    assert lines == lines[..n] + [lines[n]] && after == lines[..n] + [l];
    BytesAppend(lines[..n], [lines[n]]);
    BytesAppend(lines[..n], [l]);
    BytesOfOne(lines[n]);
    BytesOfOne(l);
    assert lines[n].text + "" == lines[n].text;
    Assoc(BytesOf(lines[..n]), l.text, eol);
  }

  /**
   Unsetting a key leaves the other lines byte for byte, but for the terminator of the last one when the
   file had none.
   */
  lemma UnsetTouchesItsLines(lines: seq<Line>, key: string)
    requires key != ""
    ensures var out := WithoutKey(lines, key);
            BytesOf(out) == BytesOf(AfterUnset(lines, key)) +
                            (if Index(lines, key) >= 0 && out != [] && lines[|lines| - 1].eol == ""
                             then out[|out| - 1].eol else "")
  {
    hide BytesOf;
    var out, after := WithoutKey(lines, key), AfterUnset(lines, key);
    if Index(lines, key) < 0 {
      NoLineNoDifference(lines, key);
    } else if out != [] && lines[|lines| - 1].eol == "" {
      EolChanged(after, out[|out| - 1].eol);
      assert after[|out| - 1 := after[|out| - 1].(eol := out[|out| - 1].eol)] == out;
    }
    assert BytesOf(after) + "" == BytesOf(after);
  }

  // ---- Whole editing sessions ----

  datatype Edit = SetTo(key: string, value: string) | Remove(key: string)

  predicate WellFormedEdit(e: Edit) {
    match e
    case SetTo(key, value) => WellFormedKey(key) && LineValue(value)
    case Remove(key) => key != ""
  }

  function Apply(lines: seq<Line>, e: Edit): seq<Line> {
    match e
    case SetTo(key, value) => AfterSet(lines, key, value)
    case Remove(key) => AfterUnset(lines, key)
  }

  function ApplyAll(lines: seq<Line>, edits: seq<Edit>): seq<Line> {
    if edits == [] then lines else Apply(ApplyAll(lines, edits[..|edits| - 1]), edits[|edits| - 1])
  }

  /** The value the last edit of a key gave it; before any edit, what the file held. */
  function LastWritten(lines: seq<Line>, edits: seq<Edit>, key: string): Option<string> {
    if edits == [] then GetIn(lines, key)
    else
      var e := edits[|edits| - 1];
      if e.key == key then (if e.SetTo? then Some(e.value) else None)
      else LastWritten(lines, edits[..|edits| - 1], key)
  }

  /** Every carriage return belongs to a CRLF. */
  predicate OnlyCrlf(s: string) {
    forall i :: 0 <= i < |s| && s[i] == '\r' ==> i + 1 < |s| && s[i + 1] == '\n'
  }

  /** No text ends in a carriage return that is not part of its terminator. */
  ghost predicate NoLooseReturns(lines: seq<Line>) {
    forall i :: 0 <= i < |lines| ==> !EndsInReturn(lines[i].text)
  }

  lemma {:induction false} OnlyCrlfParsed(s: string)
    requires OnlyCrlf(s)
    ensures NoLooseReturns(ParseLines(s))
    decreases |s|
  {
    hide KeyOf;
    if s != "" {
      var (text, eol, rest) := CutLine(s);
      CutLineParts(s);
      assert rest == s[|s| - |rest|..];
      assert forall i :: 0 <= i < |rest| ==> rest[i] == s[|s| - |rest| + i];
      OnlyCrlfParsed(rest);
      if EndsInReturn(text) {
        LooseReturn(s);
        assert false;
      }
    }
  }

  lemma LooseReturn(s: string)
    requires s != "" && EndsInReturn(CutLine(s).0)
    ensures !OnlyCrlf(s)
  {
    var text := CutLine(s).0;
    assert s[|text| - 1] == '\r';
    assert |text| < |s| ==> s[|text|] == '\r';
  }

  lemma ApplyKeeps(lines: seq<Line>, e: Edit)
    requires Tidy(lines) && NoLooseReturns(lines) && WellFormedEdit(e)
    ensures Tidy(Apply(lines, e)) && NoLooseReturns(Apply(lines, e))
  {
    hide KeyOf, WellFormedKey, LineValue, FileEol, IndentOf, EndsInReturn;
    match e {
      case SetTo(key, value) =>
        SetKeepsTidy(lines, key, value);
        var i := Index(lines, key);
        if i >= 0 {
          IndentIsBlank(lines[i].text);
          WrittenIsPlain(IndentOf(lines[i].text), key, value);
        } else {
          WrittenIsPlain("", key, value);
          NoIndent(key, value);
        }
      case Remove(key) =>
        UnsetKeepsTidy(lines, key);
        WithoutMembers(lines, key);
        var out := WithoutKey(lines, key);
        forall i | 0 <= i < |out|
          ensures !EndsInReturn(out[i].text)
        {
          assert out[i] in lines;
        }
    }
  }

  lemma {:induction false} ApplyAllKeeps(lines: seq<Line>, edits: seq<Edit>)
    requires Tidy(lines) && NoLooseReturns(lines) && forall i :: 0 <= i < |edits| ==> WellFormedEdit(edits[i])
    ensures Tidy(ApplyAll(lines, edits)) && NoLooseReturns(ApplyAll(lines, edits))
    decreases |edits|
  {
    hide Tidy, NoLooseReturns, Apply;
    if edits != [] {
      ApplyAllKeeps(lines, edits[..|edits| - 1]);
      ApplyKeeps(ApplyAll(lines, edits[..|edits| - 1]), edits[|edits| - 1]);
    }
  }

  lemma {:induction false} ReadsLastWritten(lines: seq<Line>, edits: seq<Edit>, key: string)
    requires forall i :: 0 <= i < |edits| ==> WellFormedEdit(edits[i])
    ensures GetIn(ApplyAll(lines, edits), key) == LastWritten(lines, edits, key)
    decreases |edits|
  {
    hide GetIn, WellFormedKey, LineValue;
    if edits != [] {
      var before, e := edits[..|edits| - 1], edits[|edits| - 1];
      ReadsLastWritten(lines, before, key);
      match e {
        case SetTo(k, value) => GetAfterSet(ApplyAll(lines, before), k, value, key);
        case Remove(k) => GetAfterUnset(ApplyAll(lines, before), k, key);
      }
    }
  }

  // ---- Whole editing sessions, byte by byte ----

  /** The lines of no key in `keys`: comments, blank lines and the like, and the lines of other keys. */
  function OthersOf(lines: seq<Line>, keys: set<string>): seq<Line> {
    if lines == [] then []
    else (if lines[0].key in keys then [] else [lines[0]]) + OthersOf(lines[1..], keys)
  }

  /** The lines without their terminators. */
  function Bare(lines: seq<Line>): (r: seq<Line>)
    ensures |r| == |lines| && forall i :: 0 <= i < |r| ==> r[i] == lines[i].(eol := "")
  {
    seq(|lines|, i requires 0 <= i < |lines| => lines[i].(eol := ""))
  }

  ghost predicate OnlyKeys(edits: seq<Edit>, keys: set<string>) {
    forall i :: 0 <= i < |edits| ==> edits[i].key in keys
  }

  predicate Unterminated(lines: seq<Line>) {
    lines != [] && lines[|lines| - 1].eol == ""
  }

  /** Every line ends in a newline, but for the last one perhaps. */
  ghost predicate Ended(lines: seq<Line>) {
    forall i :: 0 <= i < |lines| - 1 ==> lines[i].eol != ""
  }

  /** `lines` without terminator on the last one, or with one. */
  function LastEol(lines: seq<Line>, eol: string): seq<Line>
    requires lines != []
  {
    lines[|lines| - 1 := lines[|lines| - 1].(eol := eol)]
  }

  /** The last line is one of those that are left alone. */
  predicate LastIsOther(lines: seq<Line>, keys: set<string>) {
    lines != [] && lines[|lines| - 1].key !in keys
  }

  lemma {:induction false} OthersAppend(a: seq<Line>, b: seq<Line>, keys: set<string>)
    ensures OthersOf(a + b, keys) == OthersOf(a, keys) + OthersOf(b, keys)
  {
    if a == [] {
      assert a + b == b && OthersOf(a, keys) + OthersOf(b, keys) == OthersOf(b, keys);
    } else {
      assert (a + b)[0] == a[0] && (a + b)[1..] == a[1..] + b;
      OthersAppend(a[1..], b, keys);
      Assoc(if a[0].key in keys then [] else [a[0]], OthersOf(a[1..], keys), OthersOf(b, keys));
    }
  }

  lemma OthersOne(l: Line, keys: set<string>)
    ensures OthersOf([l], keys) == if l.key in keys then [] else [l]
  {
    assert [l][1..] == [];
  }

  /** The last of the other lines, when it is the last line of all. */
  lemma OthersLast(lines: seq<Line>, keys: set<string>)
    requires lines != []
    ensures OthersOf(lines, keys) ==
            OthersOf(lines[..|lines| - 1], keys) + if LastIsOther(lines, keys) then [lines[|lines| - 1]] else []
  {
    var n := |lines| - 1;
    assert lines == lines[..n] + [lines[n]];
    OthersAppend(lines[..n], [lines[n]], keys);
    OthersOne(lines[n], keys);
  }

  lemma OthersLastEol(lines: seq<Line>, eol: string, keys: set<string>)
    requires lines != []
    ensures var out := OthersOf(lines, keys);
            LastIsOther(lines, keys) ==> out != [] && out[|out| - 1] == lines[|lines| - 1]
    ensures var out := OthersOf(lines, keys);
            OthersOf(LastEol(lines, eol), keys) == if LastIsOther(lines, keys) then LastEol(out, eol) else out
  {
    hide OthersOf;
    OthersLast(lines, keys);
    OthersLast(LastEol(lines, eol), keys);
    assert LastEol(lines, eol)[..|lines| - 1] == lines[..|lines| - 1];
  }

  lemma OthersAt(lines: seq<Line>, i: nat, l: Line, keys: set<string>)
    requires i < |lines| && lines[i].key in keys && l.key in keys
    ensures OthersOf(lines[i := l], keys) == OthersOf(lines, keys)
  {
    hide OthersOf;
    var after := lines[i := l];
    assert lines == lines[..i] + ([lines[i]] + lines[i + 1..]) && after == lines[..i] + ([l] + lines[i + 1..]);
    OthersAppend(lines[..i], [lines[i]] + lines[i + 1..], keys);
    OthersAppend(lines[..i], [l] + lines[i + 1..], keys);
    OthersAppend([lines[i]], lines[i + 1..], keys);
    OthersAppend([l], lines[i + 1..], keys);
    OthersOne(lines[i], keys);
    OthersOne(l, keys);
  }

  lemma {:induction false} OthersWithout(lines: seq<Line>, key: string, keys: set<string>)
    requires key in keys
    ensures OthersOf(WithoutKey(lines, key), keys) == OthersOf(lines, keys)
  {
    if lines != [] {
      var rest := WithoutKey(lines[1..], key);
      OthersWithout(lines[1..], key, keys);
      if lines[0].key == key {
        assert [] + rest == rest && [] + OthersOf(lines[1..], keys) == OthersOf(lines[1..], keys);
      } else {
        assert ([lines[0]] + rest)[1..] == rest;
      }
    }
  }

  /** The edit appends a line. */
  predicate Appends(lines: seq<Line>, e: Edit) {
    e.SetTo? && Index(lines, e.key) < 0
  }

  /** What one edit does to the lines of other keys: at most the terminator of the file's last line changes. */
  lemma OthersAfter(lines: seq<Line>, e: Edit, keys: set<string>)
    requires e.key in keys
    ensures LastIsOther(lines, keys) ==> OthersOf(lines, keys) != []
    ensures LastIsOther(Apply(lines, e), keys) ==> OthersOf(lines, keys) != []
    ensures var out, after := OthersOf(lines, keys), Apply(lines, e);
            OthersOf(after, keys) ==
            if !Unterminated(lines) then out
            else if Appends(lines, e) && LastIsOther(lines, keys) then LastEol(out, FileEol(lines))
            else if e.Remove? && Index(lines, e.key) >= 0 && LastIsOther(after, keys) then LastEol(out, "")
            else out
  {
    hide OthersOf, Index, FileEol, IndentOf;
    var out, after := OthersOf(lines, keys), Apply(lines, e);
    if LastIsOther(lines, keys) {
      OthersLastEol(lines, "", keys);
    }
    if LastIsOther(after, keys) {
      OthersLastEol(after, "", keys);
    }
    match e {
      case SetTo(key, value) =>
        var i := Index(lines, key);
        if i >= 0 {
          OthersAt(lines, i, lines[i].(text := IndentOf(lines[i].text) + key + "=" + value), keys);
        } else {
          var l := Line(key + "=" + value, FileEol(lines), key);
          OthersAppend(Terminated(lines), [l], keys);
          OthersOne(l, keys);
          if Unterminated(lines) {
            OthersLastEol(lines, FileEol(lines), keys);
          }
        }
      case Remove(key) =>
        OthersWithout(lines, key, keys);
        if Index(lines, key) >= 0 && Unterminated(lines) && WithoutKey(lines, key) != [] {
          OthersLastEol(WithoutKey(lines, key), "", keys);
        }
    }
  }

  lemma WithoutEnded(lines: seq<Line>, key: string)
    requires Ended(lines)
    ensures Ended(WithoutKey(lines, key))
    ensures lines != [] && !Unterminated(lines) ==> !Unterminated(WithoutKey(lines, key))
    decreases |lines|
  {
    if |lines| > 1 {
      assert forall i :: 0 <= i < |lines[1..]| - 1 ==> lines[1..][i] == lines[i + 1];
      WithoutEnded(lines[1..], key);
    }
  }

  lemma ApplyEnded(lines: seq<Line>, e: Edit)
    requires Ended(lines)
    ensures Ended(Apply(lines, e))
    ensures !Unterminated(lines) || Appends(lines, e) ==> !Unterminated(Apply(lines, e))
  {
    hide Index, IndentOf, FileEol;
    FileEolNotEmpty(lines);
    if e.Remove? {
      WithoutEnded(lines, e.key);
    }
  }

  lemma FileEolNotEmpty(lines: seq<Line>)
    ensures FileEol(lines) != ""
  {
  }

  /** A line without terminator can only be the last one. */
  lemma {:induction false} OthersEnded(lines: seq<Line>, keys: set<string>)
    requires Ended(lines)
    ensures var out := OthersOf(lines, keys);
            && (forall i :: 0 <= i < |out| - 1 ==> out[i].eol != "")
            && (out != [] && out[|out| - 1].eol == "" ==> Unterminated(lines) && LastIsOther(lines, keys))
  {
    if lines != [] {
      var n := |lines| - 1;
      OthersLast(lines, keys);
      AllEnded(lines[..n], keys);
    }
  }

  lemma {:induction false} AllEnded(lines: seq<Line>, keys: set<string>)
    requires forall i :: 0 <= i < |lines| ==> lines[i].eol != ""
    ensures forall l :: l in OthersOf(lines, keys) ==> l.eol != ""
  {
    if lines != [] {
      AllEnded(lines[1..], keys);
    }
  }

  /** Every line of another key is as it was before, but for the terminator of the last line of either file. */
  ghost predicate Intact(before: seq<Line>, after: seq<Line>, keys: set<string>) {
    var a, b := OthersOf(before, keys), OthersOf(after, keys);
    && Bare(a) == Bare(b)
    && forall i :: 0 <= i < |a| ==>
         a[i] == b[i] || (i == |a| - 1 && (LastIsOther(before, keys) || LastIsOther(after, keys)))
  }

  /**
   The edit appends a line behind one that edits before it made the last one, and that therefore lost
   its terminator, which is not the one that the file uses now.
   */
  predicate StrikesAt(before: seq<Line>, now: seq<Line>, e: Edit, keys: set<string>) {
    var out := OthersOf(before, keys);
    && Appends(now, e) && Unterminated(now) && LastIsOther(now, keys)
    && !LastIsOther(before, keys) && out != [] && out[|out| - 1].eol != FileEol(now)
  }

  ghost predicate Strikes(lines: seq<Line>, edits: seq<Edit>, keys: set<string>) {
    exists m :: 0 <= m < |edits| && StrikesAt(lines, ApplyAll(lines, edits[..m]), edits[m], keys)
  }

  lemma StrikesStep(lines: seq<Line>, edits: seq<Edit>, keys: set<string>)
    requires edits != []
    ensures var m := |edits| - 1;
            Strikes(lines, edits, keys) <==>
            Strikes(lines, edits[..m], keys) || StrikesAt(lines, ApplyAll(lines, edits[..m]), edits[m], keys)
  {
    hide StrikesAt, ApplyAll;
    var m := |edits| - 1;
    assert forall k :: 0 <= k <= m ==> edits[..m][..k] == edits[..k];
    if Strikes(lines, edits[..m], keys) {
      var k :| 0 <= k < m && StrikesAt(lines, ApplyAll(lines, edits[..m][..k]), edits[..m][k], keys);
      assert StrikesAt(lines, ApplyAll(lines, edits[..k]), edits[k], keys);
    }
    if Strikes(lines, edits, keys) {
      var k :| 0 <= k < |edits| && StrikesAt(lines, ApplyAll(lines, edits[..k]), edits[k], keys);
      assert k < m ==> StrikesAt(lines, ApplyAll(lines, edits[..m][..k]), edits[..m][k], keys);
    }
  }

  /** Over any session, for any file: the other lines keep their texts, their keys and their order. */
  lemma {:induction false} SessionKeepsTexts(lines: seq<Line>, edits: seq<Edit>, keys: set<string>)
    requires OnlyKeys(edits, keys)
    ensures Bare(OthersOf(ApplyAll(lines, edits), keys)) == Bare(OthersOf(lines, keys))
    decreases |edits|
  {
    hide OthersOf, Apply;
    if edits != [] {
      var before, e := edits[..|edits| - 1], edits[|edits| - 1];
      SessionKeepsTexts(lines, before, keys);
      OthersAfter(ApplyAll(lines, before), e, keys);
    }
  }

  /**
   Over any session, in a file that is empty or ends in a newline: the other lines stay as they are, byte
   for byte.
   */
  lemma {:induction false} SessionKeepsLines(lines: seq<Line>, edits: seq<Edit>, keys: set<string>)
    requires OnlyKeys(edits, keys) && Ended(lines) && !Unterminated(lines)
    ensures OthersOf(ApplyAll(lines, edits), keys) == OthersOf(lines, keys)
    ensures Ended(ApplyAll(lines, edits)) && !Unterminated(ApplyAll(lines, edits))
    decreases |edits|
  {
    hide OthersOf, Apply, Ended, Unterminated;
    if edits != [] {
      var before, e := edits[..|edits| - 1], edits[|edits| - 1];
      SessionKeepsLines(lines, before, keys);
      OthersAfter(ApplyAll(lines, before), e, keys);
      ApplyEnded(ApplyAll(lines, before), e);
    }
  }

  /** What is left of the other lines after a session, and when the last of them has another terminator. */
  ghost predicate SessionState(lines: seq<Line>, edits: seq<Edit>, keys: set<string>) {
    var now := ApplyAll(lines, edits);
    var a, b := OthersOf(lines, keys), OthersOf(now, keys);
    var n := |a| - 1;
    && Ended(now) && Bare(a) == Bare(b) && (forall i :: 0 <= i < n ==> a[i] == b[i])
    && (Strikes(lines, edits, keys) ==> !Unterminated(now))
    && (a != [] && !LastIsOther(lines, keys) ==>
          (Strikes(lines, edits, keys) <==> b[n].eol != "" && b[n].eol != a[n].eol))
  }

  lemma SessionStep(lines: seq<Line>, edits: seq<Edit>, keys: set<string>)
    requires edits != [] && OnlyKeys(edits, keys) && Ended(lines)
    requires SessionState(lines, edits[..|edits| - 1], keys)
    ensures SessionState(lines, edits, keys)
  {
    hide OthersOf, Apply, ApplyAll, Ended, Strikes, FileEol, Index, LastEol, Bare;
    var before, e := edits[..|edits| - 1], edits[|edits| - 1];
    var now := ApplyAll(lines, before);
    var a, b := OthersOf(lines, keys), OthersOf(now, keys);
    ApplyLast(lines, edits);
    OthersAfter(now, e, keys);
    ApplyEnded(now, e);
    StrikesStep(lines, edits, keys);
    OthersEnded(lines, keys);
    OthersEnded(now, keys);
    FileEolNotEmpty(now);
    assert |b| == |Bare(b)| == |Bare(a)| == |a|;
    if b != [] {
      LastEolOnly(b, FileEol(now));
      LastEolOnly(b, "");
    }
    if LastIsOther(now, keys) {
      OthersLastEol(now, "", keys);
    }
  }

  lemma ApplyLast(lines: seq<Line>, edits: seq<Edit>)
    requires edits != []
    ensures ApplyAll(lines, edits) == Apply(ApplyAll(lines, edits[..|edits| - 1]), edits[|edits| - 1])
  {
  }

  lemma LastEolOnly(lines: seq<Line>, eol: string)
    requires lines != []
    ensures var n, r := |lines| - 1, LastEol(lines, eol);
            && Bare(r) == Bare(lines) && |r| == |lines| && r[n].eol == eol
            && forall i :: 0 <= i < n ==> r[i] == lines[i]
  {
  }

  lemma {:induction false} SessionStates(lines: seq<Line>, edits: seq<Edit>, keys: set<string>)
    requires OnlyKeys(edits, keys) && Ended(lines)
    ensures SessionState(lines, edits, keys)
    decreases |edits|
  {
    if edits == [] {
      OthersEnded(lines, keys);
    } else {
      hide SessionState;
      SessionStates(lines, edits[..|edits| - 1], keys);
      SessionStep(lines, edits, keys);
    }
  }

  /**
   After any session with any file: the lines of other keys are intact if and only if no line was
   appended behind one of them that had lost a different terminator, or that one is the last line now.
   */
  lemma IntactIff(b: string, edits: seq<Edit>, keys: set<string>)
    requires OnlyKeys(edits, keys)
    ensures var lines := ParseLines(b);
            var now := ApplyAll(lines, edits);
            Intact(lines, now, keys) <==> !Strikes(lines, edits, keys) || LastIsOther(now, keys)
  {
    hide Ended, Intact, Strikes, ApplyAll, LastIsOther, ParseLines;
    ParsedEnded(b);
    EndedIntactIff(ParseLines(b), edits, keys);
  }
  lemma EndedIntactIff(lines: seq<Line>, edits: seq<Edit>, keys: set<string>)
    requires OnlyKeys(edits, keys) && Ended(lines)
    ensures var now := ApplyAll(lines, edits);
            Intact(lines, now, keys) <==> !Strikes(lines, edits, keys) || LastIsOther(now, keys)
  {
    hide OthersOf, Strikes, ApplyAll, Ended, Bare;
    var now := ApplyAll(lines, edits);
    SessionStates(lines, edits, keys);
    OthersEnded(now, keys);
    if LastIsOther(lines, keys) || OthersOf(lines, keys) == [] {
      NothingToStrike(lines, edits, keys);
    }
    var a, b := OthersOf(lines, keys), OthersOf(now, keys);
    LastDecides(a, b);
    IntactByLast(a, b, LastIsOther(lines, keys), LastIsOther(now, keys), Strikes(lines, edits, keys));
  }

  lemma IntactByLast(a: seq<Line>, b: seq<Line>, wasLast: bool, isLast: bool, strikes: bool)
    requires |a| == |b| && forall i :: 0 <= i < |a| - 1 ==> a[i] == b[i]
    requires a != [] && a[|a| - 1].eol == b[|a| - 1].eol ==> a[|a| - 1] == b[|a| - 1]
    requires a != [] && b[|a| - 1].eol == "" ==> isLast
    requires a == [] || wasLast ==> !strikes
    requires a != [] && !wasLast ==> (strikes <==> b[|a| - 1].eol != "" && b[|a| - 1].eol != a[|a| - 1].eol)
    ensures (forall i :: 0 <= i < |a| ==> a[i] == b[i] || (i == |a| - 1 && (wasLast || isLast))) <==> !strikes || isLast
  {
  }

  lemma LastDecides(a: seq<Line>, b: seq<Line>)
    requires Bare(a) == Bare(b) && forall i :: 0 <= i < |a| - 1 ==> a[i] == b[i]
    ensures |a| == |b| && (a != [] && a[|a| - 1].eol == b[|a| - 1].eol ==> a[|a| - 1] == b[|a| - 1])
  {
    assert |a| == |Bare(a)| == |Bare(b)| == |b|;
    if a != [] {
      assert Bare(a)[|a| - 1] == Bare(b)[|a| - 1];
    }
  }

  lemma NothingToStrike(lines: seq<Line>, edits: seq<Edit>, keys: set<string>)
    requires LastIsOther(lines, keys) || OthersOf(lines, keys) == []
    ensures !Strikes(lines, edits, keys)
  {
  }

  /** A parsed file ends in a newline unless its last line has no terminator. */
  lemma ParsedEnded(b: string)
    ensures Ended(ParseLines(b))
    ensures Unterminated(ParseLines(b)) <==> b != "" && b[|b| - 1] != '\n'
  {
    hide KeyOf, ParseLines, Unterminated;
    ParsedIsTidy(b);
    var lines := ParseLines(b);
    forall i | 0 <= i < |lines| - 1
      ensures lines[i].eol != ""
    {
      assert TidyLine(lines[i], false);
    }
    ParsedUnterminated(b);
  }

  lemma {:induction false} ParsedUnterminated(b: string)
    ensures ParseLines(b) == [] <==> b == ""
    ensures Unterminated(ParseLines(b)) <==> b != "" && b[|b| - 1] != '\n'
    decreases |b|
  {
    hide KeyOf, CutLine;
    if b != "" {
      var rest := CutLine(b).2;
      CutLineParts(b);
      ParsedUnterminated(rest);
      if rest == "" {
        LastOfLine(b);
      } else {
        assert b[|b| - 1] == rest[|rest| - 1];
      }
    }
  }

  lemma LastOfLine(b: string)
    requires b != "" && CutLine(b).2 == ""
    ensures CutLine(b).1 == "" <==> b[|b| - 1] != '\n'
  {
  }

  /** The same at every moment: the lines of other keys are intact after each edit if and only if none strikes. */
  lemma AlwaysIntactIff(b: string, edits: seq<Edit>, keys: set<string>)
    requires OnlyKeys(edits, keys)
    ensures var lines := ParseLines(b);
            (forall m :: 0 <= m <= |edits| ==> Intact(lines, ApplyAll(lines, edits[..m]), keys)) <==>
            !Strikes(lines, edits, keys)
  {
    hide ParseLines, Intact, Apply, ApplyAll, StrikesAt, LastIsOther;
    var lines := ParseLines(b);
    forall m | 0 <= m <= |edits|
      ensures !Strikes(lines, edits, keys) ==> Intact(lines, ApplyAll(lines, edits[..m]), keys)
    {
      IntactIff(b, edits[..m], keys);
      if Strikes(lines, edits[..m], keys) {
        StrikesInPart(lines, edits, m, keys);
      }
    }
    if Strikes(lines, edits, keys) {
      var m :| 0 <= m < |edits| && StrikesAt(lines, ApplyAll(lines, edits[..m]), edits[m], keys);
      assert edits[..m + 1][..m] == edits[..m];
      StrikesStep(lines, edits[..m + 1], keys);
      ApplyLast(lines, edits[..m + 1]);
      StruckIsNotLast(lines, ApplyAll(lines, edits[..m]), edits[m], keys);
      IntactIff(b, edits[..m + 1], keys);
    }
  }

  lemma StrikesInPart(lines: seq<Line>, edits: seq<Edit>, m: nat, keys: set<string>)
    requires m <= |edits| && Strikes(lines, edits[..m], keys)
    ensures Strikes(lines, edits, keys)
  {
    hide StrikesAt, ApplyAll;
    var k :| 0 <= k < m && StrikesAt(lines, ApplyAll(lines, edits[..m][..k]), edits[..m][k], keys);
    assert edits[..m][..k] == edits[..k];
    assert StrikesAt(lines, ApplyAll(lines, edits[..k]), edits[k], keys);
  }

  /** An edit that strikes leaves its own line as the last one. */
  lemma StruckIsNotLast(before: seq<Line>, now: seq<Line>, e: Edit, keys: set<string>)
    requires e.key in keys && StrikesAt(before, now, e, keys)
    ensures !LastIsOther(Apply(now, e), keys)
  {
  }

  /**
   It does happen: a file of two lines that ends without a newline. Removing its last key and setting
   a new one turns the first line's CRLF, which no edit named, into LF.
   */
  lemma CrlfLost()
    ensures var b, edits := "B=2\r\nC=3", [Remove("C"), SetTo("D", "4")];
            OnlyCrlf(b) && BytesOf(ApplyAll(ParseLines(b), edits)) == "B=2\nD=4\n"
  {
    hide ParseLines, Tidy, ApplyAll, AfterSet, AfterUnset, BytesOf, Printed, KeyOf;
    var edits := [Remove("C"), SetTo("D", "4")];
    var first, second, new_ := Line("B=2", CRLF, "B"), Line("C=3", "", "C"), Line("D=4", LF, "D");
    ShortLine("B", "2");
    ShortLine("C", "3");
    assert "B" + "=" + "2" == "B=2" && "C" + "=" + "3" == "C=3" && "D" + "=" + "4" == "D=4";
    assert Tidy([first, second]) by { TwoTidy(first, second); }
    PrintParse([first, second]);
    TwoLines(first, second);
    assert first.text + first.eol + (second.text + second.eol) == "B=2\r\nC=3";
    RemoveLast(first, second, "C");
    AppendToOne(first.(eol := ""), "D", "4");
    TwoLines(first.(eol := LF), new_);
    TwoEdits([first, second], Remove("C"), SetTo("D", "4"));
    assert ApplyAll([first, second], edits) == [first.(eol := LF), new_];
    assert first.text + LF + (new_.text + LF) == "B=2\nD=4\n";
  }

  lemma TwoEdits(lines: seq<Line>, a: Edit, b: Edit)
    ensures ApplyAll(lines, [a, b]) == Apply(Apply(lines, a), b)
  {
    assert [a, b][..1] == [a] && [a][..0] == [];
    assert ApplyAll(lines, [a]) == Apply(lines, a);
  }

  lemma ShortLine(key: string, value: string)
    requires WellFormedKey(key)
    ensures KeyOf(key + "=" + value) == key
  {
    WrittenLine("", key, value);
    NoIndent(key, value);
  }

  lemma TwoTidy(a: Line, b: Line)
    requires TidyLine(a, false) && TidyLine(b, true)
    ensures Tidy([a, b])
  {
  }

  lemma TwoLines(a: Line, b: Line)
    ensures BytesOf([a, b]) == a.text + a.eol + (b.text + b.eol)
    ensures b.text != "" ==> Printed([a, b]) == [a, b]
  {
    BytesAppend([a], [b]);
    BytesOfOne(a);
    BytesOfOne(b);
    assert [a] + [b] == [a, b];
  }

  lemma RemoveLast(a: Line, b: Line, key: string)
    requires a.key != key && b.key == key != "" && b.eol == ""
    ensures AfterUnset([a, b], key) == [a.(eol := "")]
  {
    assert [a, b][1..] == [b] && [b][1..] == [];
    assert WithoutKey([b], key) == [];
    assert WithoutKey([a, b], key) == [a] + [] == [a];
    IndexIs([a, b], key, 1);
  }

  lemma AppendToOne(l: Line, key: string, value: string)
    requires l.key != key && l.eol == ""
    ensures AfterSet([l], key, value) == [l.(eol := LF), Line(key + "=" + value, LF, key)]
  {
    assert [l][1..] == [];
  }

  // ---- The one way an edit can change another value ----

  lemma FirstStays(s: string)
    ensures s + "\r" != "" && (s != "" ==> (s + "\r")[0] == s[0])
  {
  }

  lemma KeyBeforeReturn(t: string)
    ensures KeyOf(t + "\r") == KeyOf(t)
    ensures KeyOf(t) != "" ==> ValueOf(t + "\r") == ValueOf(t) + "\r"
  {
    hide TrimRight, TrimLeft, IndexOf;
    var s := TrimLeft(t, BLANKS);
    TrimLeftAppended(t);
    EqualsAppended(s);
    FirstStays(s);
    if KeyOf(t) != "" {
      EqualsTrimmed(t);
      EqualsAppended(t);
    }
  }

  lemma {:induction false} TrimLeftAppended(t: string)
    ensures TrimLeft(t + "\r", BLANKS) == TrimLeft(t, BLANKS) + "\r"
  {
    var r := t + "\r";
    if t == "" {
      assert r == "\r" && r[0] !in BLANKS;
    } else {
      assert r[0] == t[0] && r[1..] == t[1..] + "\r";
      if t[0] in BLANKS {
        TrimLeftAppended(t[1..]);
      }
    }
  }

  lemma EqualsAppended(t: string)
    ensures IndexOf(t + "\r", '=') == IndexOf(t, '=')
    ensures IndexOf(t, '=') >= 0 ==> (t + "\r")[..IndexOf(t, '=')] == t[..IndexOf(t, '=')]
    ensures IndexOf(t, '=') >= 0 ==> (t + "\r")[IndexOf(t, '=') + 1..] == t[IndexOf(t, '=') + 1..] + "\r"
  {
    var i := IndexOf(t, '=');
    if i >= 0 {
      assert (t + "\r")[..i] == t[..i];
      IndexOfUnique(t + "\r", '=', i);
    }
  }

  lemma EqualsTrimmed(t: string)
    ensures KeyOf(t) != "" ==> '=' in t
  {
    var s := TrimLeft(t, BLANKS);
    TrimLeftEnd(t, BLANKS);
  }

  /** The carriage return at the end of the text would be read back as part of the terminator. */
  predicate Loose(l: Line) {
    l.eol == LF && EndsInReturn(l.text)
  }

  /** Lines that print and parse back to themselves, but for carriage returns that go over into the terminator. */
  ghost predicate AlmostTidy(lines: seq<Line>) {
    Ended(lines) && forall i :: 0 <= i < |lines| ==> PlainLine(lines[i])
  }

  predicate PlainLine(l: Line) {
    '\n' !in l.text && l.key == KeyOf(l.text) && (l.eol == LF || l.eol == CRLF || l.eol == "")
  }

  function RereadLine(l: Line): Line {
    if Loose(l) then LineOf(l.text[..|l.text| - 1], CRLF) else l
  }

  /** The lines that the printed bytes read back to. */
  function Reread(lines: seq<Line>): (r: seq<Line>)
    ensures |r| == |lines| && forall i :: 0 <= i < |r| ==> r[i] == RereadLine(lines[i])
  {
    seq(|lines|, i requires 0 <= i < |lines| => RereadLine(lines[i]))
  }

  lemma RereadLineIs(l: Line, last: bool)
    requires PlainLine(l) && (l.eol == "" ==> last)
    ensures var r := RereadLine(l);
            && TidyLine(r, last) && r.text + r.eol == l.text + l.eol && r.key == l.key
            && (l.key != "" ==> (ValueOf(r.text) == ValueOf(l.text) <==> !Loose(l)))
  {
    hide KeyOf, ValueOf;
    if Loose(l) {
      var text := l.text[..|l.text| - 1];
      assert l.text == text + "\r" && CRLF == "\r" + LF;
      KeyBeforeReturn(text);
    }
  }

  lemma {:induction false} RereadBytes(lines: seq<Line>)
    requires AlmostTidy(lines)
    ensures BytesOf(Reread(lines)) == BytesOf(lines)
  {
    hide KeyOf, RereadLine;
    if lines != [] {
      RereadLineIs(lines[0], |lines| == 1);
      RereadBytes(lines[1..]);
      assert Reread(lines)[1..] == Reread(lines[1..]);
    }
  }

  lemma RereadTidy(lines: seq<Line>)
    requires AlmostTidy(lines)
    ensures Tidy(Reread(lines))
    ensures forall i :: 0 <= i < |lines| ==> Reread(lines)[i].key == lines[i].key
    ensures forall i :: 0 <= i < |lines| && lines[i].key != "" ==>
              (ValueOf(Reread(lines)[i].text) == ValueOf(lines[i].text) <==> !Loose(lines[i]))
  {
    hide KeyOf, RereadLine, Loose, ValueOf;
    forall i | 0 <= i < |lines|
      ensures TidyLine(Reread(lines)[i], i == |lines| - 1) && Reread(lines)[i].key == lines[i].key
      ensures lines[i].key != "" ==> (ValueOf(Reread(lines)[i].text) == ValueOf(lines[i].text) <==> !Loose(lines[i]))
    {
      RereadLineIs(lines[i], i == |lines| - 1);
    }
  }

  /** The line decides the value of its key, and its last character would be lost. */
  predicate Decides(lines: seq<Line>, i: nat)
    requires i < |lines|
  {
    lines[i].key != "" && Index(lines, lines[i].key) == i
  }

  ghost predicate Survives(lines: seq<Line>) {
    forall k :: GetIn(ParseLines(BytesOf(lines)), k) == GetIn(lines, k)
  }

  /** Written bytes read back to the same keys, and to the same values unless a line that decides one loses its end. */
  lemma SurvivesIff(lines: seq<Line>)
    requires AlmostTidy(lines)
    ensures Survives(lines) <==> forall i :: 0 <= i < |lines| && Loose(lines[i]) ==> !Decides(lines, i)
    ensures KeysIn(ParseLines(BytesOf(lines)), {}) == KeysIn(lines, {})
  {
    hide ParseLines, BytesOf, Tidy, ValueOf, Loose, Reread, Index;
    var r := Reread(lines);
    RereadBytes(lines);
    RereadTidy(lines);
    ReadBack(r, "");
    KeysSame(r, lines, {});
    forall k
      ensures GetIn(ParseLines(BytesOf(lines)), k) == GetIn(r, k)
      ensures Index(r, k) == Index(lines, k)
    {
      ReadBack(r, k);
      SameKeysSameIndex(r, lines, k);
    }
    forall i | 0 <= i < |lines| && Loose(lines[i]) && Decides(lines, i)
      ensures !Survives(lines)
    {
      var k := lines[i].key;
      assert GetIn(r, k) == Some(ValueOf(r[i].text)) && GetIn(lines, k) == Some(ValueOf(lines[i].text));
    }
  }


  // ---- Any session, written and read back ----

  /** An edit whose line says what is meant: a key that stands for itself, and a value on one line. */
  predicate PlainEdit(e: Edit) {
    e.SetTo? ==> WellFormedKey(e.key) && '\n' !in e.value
  }

  lemma WrittenIsPlainLine(indent: string, key: string, value: string, eol: string)
    requires WellFormedKey(key) && '\n' !in value && forall i :: 0 <= i < |indent| ==> indent[i] in BLANKS
    requires eol == LF || eol == CRLF || eol == ""
    ensures PlainLine(Line(indent + key + "=" + value, eol, key))
    ensures EndsInReturn(indent + key + "=" + value) <==> EndsInReturn(value)
  {
    hide KeyOf, ValueOf;
    WrittenLine(indent, key, value);
    var text := indent + key + "=" + value;
    assert '\n' !in indent;
    assert text[|text| - 1] == if value == "" then '=' else value[|value| - 1];
  }

  lemma ApplyAlmostTidy(lines: seq<Line>, e: Edit)
    requires AlmostTidy(lines) && PlainEdit(e)
    ensures AlmostTidy(Apply(lines, e))
  {
    hide Ended, PlainLine, FileEol, IndentOf, WellFormedKey;
    ApplyEnded(lines, e);
    match e {
      case SetTo(key, value) => SetPlainLines(lines, key, value);
      case Remove(key) => UnsetPlainLines(lines, key);
    }
  }

  lemma SetPlainLines(lines: seq<Line>, key: string, value: string)
    requires (forall i :: 0 <= i < |lines| ==> PlainLine(lines[i])) && WellFormedKey(key) && '\n' !in value
    ensures var after := AfterSet(lines, key, value); forall i :: 0 <= i < |after| ==> PlainLine(after[i])
  {
    hide KeyOf, WellFormedKey, FileEol, IndentOf;
    var i := Index(lines, key);
    if i >= 0 {
      IndentIsBlank(lines[i].text);
      WrittenIsPlainLine(IndentOf(lines[i].text), key, value, lines[i].eol);
    } else {
      WrittenIsPlainLine("", key, value, FileEol(lines));
      NoIndent(key, value);
    }
  }

  lemma UnsetPlainLines(lines: seq<Line>, key: string)
    requires forall i :: 0 <= i < |lines| ==> PlainLine(lines[i])
    ensures var after := AfterUnset(lines, key); forall i :: 0 <= i < |after| ==> PlainLine(after[i])
  {
    hide KeyOf;
    WithoutMembers(lines, key);
    var out, after := WithoutKey(lines, key), AfterUnset(lines, key);
    forall i | 0 <= i < |after|
      ensures PlainLine(after[i])
    {
      assert Index(lines, key) >= 0 ==> out[i] in lines && PlainLine(out[i]);
    }
  }

  lemma {:induction false} ApplyAllAlmostTidy(lines: seq<Line>, edits: seq<Edit>)
    requires AlmostTidy(lines) && forall i :: 0 <= i < |edits| ==> PlainEdit(edits[i])
    ensures AlmostTidy(ApplyAll(lines, edits))
    decreases |edits|
  {
    hide AlmostTidy, Apply, PlainEdit;
    if edits != [] {
      ApplyAllAlmostTidy(lines, edits[..|edits| - 1]);
      ApplyAlmostTidy(ApplyAll(lines, edits[..|edits| - 1]), edits[|edits| - 1]);
    }
  }

  lemma TidyIsAlmost(lines: seq<Line>)
    requires Tidy(lines)
    ensures AlmostTidy(lines) && forall i :: 0 <= i < |lines| ==> !Loose(lines[i])
  {
    hide KeyOf;
    forall i | 0 <= i < |lines|
      ensures PlainLine(lines[i]) && !Loose(lines[i]) && (i < |lines| - 1 ==> lines[i].eol != "")
    {
      assert TidyLine(lines[i], i == |lines| - 1);
    }
  }

  /**
   For any input at all and any session of edits: the written bytes read back to the keys and values in
   memory if and only if no line that decides a value ends in a carriage return followed by a mere LF.
   */
  lemma SessionSurvivesIff(b: string, edits: seq<Edit>)
    requires forall i :: 0 <= i < |edits| ==> PlainEdit(edits[i])
    ensures var now := ApplyAll(ParseLines(b), edits);
            && (Survives(now) <==> forall i :: 0 <= i < |now| && Loose(now[i]) ==> !Decides(now, i))
            && KeysIn(ParseLines(BytesOf(now)), {}) == KeysIn(now, {})
  {
    hide ParseLines, Tidy, AlmostTidy, PlainEdit, Loose, Decides, Survives;
    ParsedIsTidy(b);
    TidyIsAlmost(ParseLines(b));
    ApplyAllAlmostTidy(ParseLines(b), edits);
    SurvivesIff(ApplyAll(ParseLines(b), edits));
  }

  /** The terminator of the line that setting a key writes. */
  function WrittenEol(lines: seq<Line>, key: string): string {
    if Index(lines, key) >= 0 then lines[Index(lines, key)].eol else FileEol(lines)
  }

  /** The last line is the one a lookup of its key finds. */
  predicate LastLineCounts(lines: seq<Line>) {
    lines != [] && Decides(lines, |lines| - 1)
  }

  /**
   For any input at all: setting a key keeps every value through writing and reading again, unless the
   value itself ends in a carriage return and its line in LF; or the key is new, the file ends without
   a newline in a carriage return, its first terminator is not CRLF, and the last line is the one that
   counts for its key.
   */
  lemma SetSurvivesIff(b: string, key: string, value: string)
    requires WellFormedKey(key) && '\n' !in value
    ensures var lines := ParseLines(b);
            Survives(AfterSet(lines, key, value)) <==>
            && !(EndsInReturn(value) && WrittenEol(lines, key) == LF)
            && !(Index(lines, key) < 0 && LosesReturn(lines) && LastLineCounts(lines))
  {
    hide ParseLines, Tidy, AlmostTidy, WellFormedKey, Survives, AfterSet, Decides, Loose, LosesReturn;
    var lines := ParseLines(b);
    ParsedIsTidy(b);
    TidyIsAlmost(lines);
    ApplyAlmostTidy(lines, SetTo(key, value));
    SurvivesIff(AfterSet(lines, key, value));
    if Index(lines, key) >= 0 {
      RewrittenLoose(lines, key, value);
    } else {
      AppendedLoose(lines, key, value);
    }
  }

  lemma RewrittenLoose(lines: seq<Line>, key: string, value: string)
    requires WellFormedKey(key) && '\n' !in value && Index(lines, key) >= 0
    requires AlmostTidy(lines) && forall i :: 0 <= i < |lines| ==> !Loose(lines[i])
    ensures var after := AfterSet(lines, key, value);
            (forall i :: 0 <= i < |after| && Loose(after[i]) ==> !Decides(after, i)) <==>
            !(EndsInReturn(value) && WrittenEol(lines, key) == LF)
  {
    hide KeyOf, WellFormedKey, IndentOf, Index, EndsInReturn;
    var i := Index(lines, key);
    var after := AfterSet(lines, key, value);
    IndentIsBlank(lines[i].text);
    WrittenIsPlainLine(IndentOf(lines[i].text), key, value, LF);
    SameKeysSameIndex(lines, after, key);
    assert Decides(after, i);
  }

  lemma AppendedLoose(lines: seq<Line>, key: string, value: string)
    requires WellFormedKey(key) && '\n' !in value && Index(lines, key) < 0
    requires AlmostTidy(lines) && forall i :: 0 <= i < |lines| ==> !Loose(lines[i])
    ensures var after := AfterSet(lines, key, value);
            (forall i :: 0 <= i < |after| && Loose(after[i]) ==> !Decides(after, i)) <==>
            && !(EndsInReturn(value) && WrittenEol(lines, key) == LF)
            && !(LosesReturn(lines) && LastLineCounts(lines))
  {
    var l := Line(key + "=" + value, FileEol(lines), key);
    WrittenIsPlainLine("", key, value, LF);
    NoIndent(key, value);
    NotEmpty(key);
    AppendedDecides(lines, l);
    var after, n := AfterSet(lines, key, value), |lines| - 1;
    hide KeyOf, WellFormedKey, FileEol, Index, EndsInReturn, Terminated, LosesReturn, Decides;
    assert after == Terminated(lines) + [l];
    assert Decides(after, n + 1) && (Loose(after[n + 1]) <==> EndsInReturn(value) && FileEol(lines) == LF);
    assert lines != [] ==> (Loose(after[n]) <==> LosesReturn(lines)) && (Decides(after, n) <==> Decides(lines, n));
  }

  lemma AppendedDecides(lines: seq<Line>, l: Line)
    requires l.key != "" && Index(lines, l.key) < 0
    ensures var n, after := |lines|, Terminated(lines) + [l];
            && |after| == n + 1 && after[n] == l && Decides(after, n)
            && forall i :: 0 <= i < n ==> after[i].key == lines[i].key && (Decides(after, i) <==> Decides(lines, i))
    ensures forall i :: 0 <= i < |lines| && !Loose(lines[i]) ==>
              (Loose(Terminated(lines)[i]) <==> i == |lines| - 1 && LosesReturn(lines))
  {
    hide FileEol, Index, EndsInReturn;
    var n, t := |lines|, Terminated(lines);
    var after := t + [l];
    forall k: string
      ensures Index(after, k) ==
              if Index(lines, k) >= 0 then Index(lines, k) else if k != "" && l.key == k then n else -1
    {
      SameKeysSameIndex(lines, t, k);
      IndexAppended(t, l, k);
    }
  }

  predicate EndsInNewline(b: string) {
    b == "" || b[|b| - 1] == '\n'
  }

  lemma {:induction false} EndedStaysTidy(lines: seq<Line>, edits: seq<Edit>)
    requires Tidy(lines) && Ended(lines) && !Unterminated(lines)
    requires forall i :: 0 <= i < |edits| ==> WellFormedEdit(edits[i])
    ensures Tidy(ApplyAll(lines, edits)) && Ended(ApplyAll(lines, edits)) && !Unterminated(ApplyAll(lines, edits))
    decreases |edits|
  {
    hide Tidy, AfterSet, AfterUnset, Ended, WellFormedKey, LineValue;
    if edits != [] {
      var before, e := edits[..|edits| - 1], edits[|edits| - 1];
      var now := ApplyAll(lines, before);
      EndedStaysTidy(lines, before);
      ApplyEnded(now, e);
      match e {
        case SetTo(key, value) => SetKeepsTidy(now, key, value);
        case Remove(key) => UnsetKeepsTidy(now, key);
      }
    }
  }

  /**
   After any sequence of edits of a file that ends in a newline, or whose carriage returns all belong
   to CRLF, the written bytes read back to the same keys and values as the file in memory, and every
   key has the value written to it last.
   */
  lemma EditsSurvive(b: string, edits: seq<Edit>, key: string)
    requires (EndsInNewline(b) || OnlyCrlf(b)) && forall i :: 0 <= i < |edits| ==> WellFormedEdit(edits[i])
    ensures var lines := ApplyAll(ParseLines(b), edits);
            var again := ParseLines(BytesOf(lines));
            && GetIn(again, key) == GetIn(lines, key) == LastWritten(ParseLines(b), edits, key)
            && KeysIn(again, {}) == KeysIn(lines, {})
  {
    hide Tidy, NoLooseReturns, WellFormedEdit, OnlyCrlf;
    ParsedIsTidy(b);
    if EndsInNewline(b) {
      ParsedEnded(b);
      EndedStaysTidy(ParseLines(b), edits);
    } else {
      OnlyCrlfParsed(b);
      ApplyAllKeeps(ParseLines(b), edits);
    }
    ReadBack(ApplyAll(ParseLines(b), edits), key);
    ReadsLastWritten(ParseLines(b), edits, key);
  }

  /**
   A file that ends in a newline, edited, written and read again: the lines of other keys, comments
   and blank lines included, are the ones that were read first, terminators and all.
   */
  lemma WrittenLinesStay(b: string, edits: seq<Edit>, keys: set<string>)
    requires EndsInNewline(b) && OnlyKeys(edits, keys) && forall i :: 0 <= i < |edits| ==> WellFormedEdit(edits[i])
    ensures OthersOf(ParseLines(BytesOf(ApplyAll(ParseLines(b), edits))), keys) == OthersOf(ParseLines(b), keys)
  {
    hide ParseLines, BytesOf, Tidy, OthersOf, OnlyKeys, WellFormedEdit;
    var lines := ParseLines(b);
    ParsedIsTidy(b);
    ParsedEnded(b);
    EndedStaysTidy(lines, edits);
    SessionKeepsLines(lines, edits, keys);
    PrintParse(ApplyAll(lines, edits));
  }

  /** No file reads back a value with a newline, or anything for a key that does not stand for itself. */
  lemma ReadsOnlyPlain(b: string, key: string)
    ensures var value := GetIn(ParseLines(b), key);
            value.Some? ==> WellFormedKey(key) && '\n' !in value.value
  {
    hide KeyOf, ValueOf, WellFormedKey, ParseLines;
    var lines := ParseLines(b);
    ParsedIsTidy(b);
    var i := Index(lines, key);
    if i >= 0 {
      assert TidyLine(lines[i], i == |lines| - 1);
      KeyIsWellFormed(lines[i].text);
      ValueWithin(lines[i].text);
    }
  }

  lemma KeyIsWellFormed(text: string)
    requires KeyOf(text) != "" && '\n' !in text
    ensures WellFormedKey(KeyOf(text))
  {
    TrimLeftEnd(text, BLANKS);
  }

  lemma ValueWithin(text: string)
    ensures forall c :: c in ValueOf(text) ==> c in text
  {
  }

  // ---- What a line sets ----

  /** Spaces and tabs only. */
  predicate Blanks(s: string) {
    forall i :: 0 <= i < |s| ==> s[i] == ' ' || s[i] == '\t'
  }

  /** `key=value` with blanks allowed around the key, which is no comment. */
  predicate Assigns(text: string, indent: string, key: string, pad: string, value: string) {
    && text == indent + (key + pad + "=" + value) && Blanks(indent) && Blanks(pad)
    && key != "" && !Blanks([key[0]]) && !Blanks([key[|key| - 1]]) && key[0] != '#' && '=' !in key
  }

  lemma BlankChar(c: char)
    ensures c in BLANKS <==> Blanks([c])
  {
    assert [c][0] == c;
  }

  /** Such a line has that key, that value and that indent. */
  lemma AssignmentIs(text: string, indent: string, key: string, pad: string, value: string)
    requires Assigns(text, indent, key, pad, value)
    ensures KeyOf(text) == key && IndentOf(text) == indent && ValueOf(text) == value
  {
    hide TrimLeft, TrimRight, IndexOf;
    BlankChar(key[0]);
    BlankChar(key[|key| - 1]);
    var s := key + pad + "=" + value;
    assert s[0] == key[0];
    TrimLeftBehind(indent, s, BLANKS);
    assert '=' !in key + pad && '=' !in indent + (key + pad);
    EqualsAt(key + pad, value);
    TrimRightBehind(key, pad, BLANKS);
    EqualsAt(indent + (key + pad), value);
    assert text == indent + (key + pad) + ['='] + value;
    assert text[..|indent|] == indent;
  }

  /** Every line with a key is such a line. */
  lemma KeyShape(text: string) returns (indent: string, pad: string, value: string)
    requires KeyOf(text) != ""
    ensures Assigns(text, indent, KeyOf(text), pad, value)
  {
    hide KeyOf, Assigns, TrimLeft;
    var s := TrimLeft(text, BLANKS);
    TrimLeftEnd(text, BLANKS);
    indent := text[..|text| - |s|];
    pad, value := KeyAtStart(text, s);
    Indented(text, indent, s, KeyOf(text), pad, value);
  }

  lemma Indented(text: string, indent: string, s: string, key: string, pad: string, value: string)
    requires text == indent + s && (forall i :: 0 <= i < |indent| ==> indent[i] in BLANKS)
    requires Assigns(s, "", key, pad, value)
    ensures Assigns(text, indent, key, pad, value)
  {
    assert "" + (key + pad + "=" + value) == key + pad + "=" + value;
    forall i | 0 <= i < |indent|
      ensures Blanks([indent[i]])
    {
      BlankChar(indent[i]);
    }
    assert forall i :: 0 <= i < |indent| ==> [indent[i]][0] == ' ' || [indent[i]][0] == '\t';
  }

  lemma KeyAtStart(text: string, s: string) returns (pad: string, value: string)
    requires s == TrimLeft(text, BLANKS) && KeyOf(text) != ""
    ensures Assigns(s, "", KeyOf(text), pad, value)
  {
    var front := s[..IndexOf(s, '=')];
    var key := TrimRight(front, BLANKS);
    assert key == KeyOf(text) && s[0] != '#' && s[0] !in BLANKS && '=' !in front;
    hide TrimLeft, TrimRight;
    pad, value := front[|key|..], s[|front| + 1..];
    assert s == front + "=" + value;
    hide IndexOf, KeyOf, Assigns;
    PaddedKey(s, front, key, value);
  }

  lemma PaddedKey(s: string, front: string, key: string, value: string)
    requires s == front + "=" + value && s[0] != '#' && s[0] !in BLANKS && '=' !in front
    requires key <= front && key != "" && key[|key| - 1] !in BLANKS
    requires forall i :: |key| <= i < |front| ==> front[i] in BLANKS
    ensures Assigns(s, "", key, front[|key|..], value)
  {
    var pad := front[|key|..];
    assert front == key + pad && key[0] == s[0];
    BlankChar(key[0]);
    BlankChar(key[|key| - 1]);
    assert forall m :: 0 <= m < |pad| ==> pad[m] == front[|key| + m];
    assert forall c :: c in key ==> c in front;
    assert "" + (key + pad + "=" + value) == s;
  }

  /** The terminator a file uses is that of its first line that has one, and LF when none has. */
  lemma {:induction false} FileEolIs(lines: seq<Line>, i: nat)
    requires i <= |lines| && forall j :: 0 <= j < i ==> lines[j].eol == ""
    ensures i == |lines| ==> FileEol(lines) == "\n"
    ensures i < |lines| && lines[i].eol != "" ==> FileEol(lines) == lines[i].eol
  {
    if i > 0 {
      FileEolIs(lines[1..], i - 1);
    }
  }

  /** The keys of a file: every key of a line, each once, in the order of their first lines. */
  lemma {:induction false} KeysAre(lines: seq<Line>, seen: set<string>)
    ensures forall k :: k in KeysIn(lines, seen) <==> k !in seen && Index(lines, k) >= 0
    ensures forall a, b :: 0 <= a < b < |KeysIn(lines, seen)| ==>
              Index(lines, KeysIn(lines, seen)[a]) < Index(lines, KeysIn(lines, seen)[b])
    decreases |lines|
  {
    if lines != [] {
      var k := lines[0].key;
      if k == "" || k in seen {
        KeysAre(lines[1..], seen);
      } else {
        KeysAre(lines[1..], seen + {k});
      }
    }
  }
}
