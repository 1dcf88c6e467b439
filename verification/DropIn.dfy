/** The systemd drop-in file: directives of one section, rendered and parsed, and edited in place. */
module DropIn {
  import opened Sequences
  import opened Strings

  const SPACES := {' ', '\t', '\n', '\r', '\U{000B}', '\U{000C}'}
  const SECTION := "[Service]"

  datatype Directive = Directive(key: string, value: string)

  /** The comment every generated file starts with, up to the name of the program. */
  function Header(): (h: string)
    ensures h != "" && h[0] == '#' && '\n' !in h
  {
    "# gsr-helper"
  }

  /** strings.TrimSpace on ASCII. */
  function TrimSpace(s: string): string {
    Trim(s, SPACES)
  }

  /** strings.EqualFold on ASCII. */
  predicate EqualFold(a: string, b: string) {
    |a| == |b| && forall i :: 0 <= i < |a| ==> LowerChar(a[i]) == LowerChar(b[i])
  }

  // ---- Rendering and parsing ----

  function RenderDirectives(ds: seq<Directive>): string {
    if ds == [] then "" else ds[0].key + "=" + ds[0].value + "\n" + RenderDirectives(ds[1..])
  }

  function Render(ds: seq<Directive>): string {
    Header() + "\n" + (SECTION + "\n" + RenderDirectives(ds))
  }

  /** The part of a raw line that counts. */
  function Content(raw: string): string {
    TrimSpace(TrimSuffix(raw, '\r'))
  }

  predicate Ignored(l: string) {
    l == "" || l[0] == '#' || l[0] == ';'
  }

  /** The directive a line of the section holds, if it holds one. */
  function DirectiveOf(l: string): seq<Directive> {
    var p := Cut(l, '=');
    if p.found then [Directive(TrimSpace(p.before), TrimSpace(p.after))] else []
  }

  function ParseFrom(lines: seq<string>, inService: bool): seq<Directive> {
    if lines == [] then []
    else
      var l := Content(lines[0]);
      if Ignored(l) then ParseFrom(lines[1..], inService)
      else if l[0] == '[' then ParseFrom(lines[1..], EqualFold(l, SECTION))
      else if inService then DirectiveOf(l) + ParseFrom(lines[1..], inService)
      else ParseFrom(lines[1..], inService)
  }

  lemma NothingLeft(inService: bool)
    ensures ParseFrom([], inService) == []
  {
  }

  function Parsed(s: string): seq<Directive> {
    ParseFrom(Split(s, '\n'), false)
  }

  /** A directive that a line of the file can hold. */
  predicate WellFormed(d: Directive) {
    && Trimmed(d.key, SPACES) && Trimmed(d.value, SPACES) && '\n' !in d.key && '\n' !in d.value && '=' !in d.key
    && (d.key != "" ==> d.key[0] !in {'#', ';', '['})
  }

  lemma DirectiveWellFormed(l: string)
    requires l != "" && l[0] !in {'#', ';', '['} && Trimmed(l, SPACES) && '\n' !in l
    ensures forall d :: d in DirectiveOf(l) ==> WellFormed(d)
  {
    hide Trim;
    var p := Cut(l, '=');
    TrimTrims(p.before, SPACES);
    TrimTrims(p.after, SPACES);
    if p.before == "" {
      TrimmedStays("", SPACES);
    } else {
      TrimKeepsHead(p.before, SPACES);
    }
  }

  lemma ContentIsClean(raw: string)
    requires '\n' !in raw
    ensures Trimmed(Content(raw), SPACES) && '\n' !in Content(raw)
  {
    hide Trim;
    TrimTrims(TrimSuffix(raw, '\r'), SPACES);
  }

  /** Whatever is parsed, only well-formed directives come out. */
  lemma {:induction false} ParsedWellFormed(lines: seq<string>, inService: bool)
    requires forall i :: 0 <= i < |lines| ==> '\n' !in lines[i]
    ensures forall d :: d in ParseFrom(lines, inService) ==> WellFormed(d)
    decreases |lines|
  {
    hide Content, DirectiveOf, EqualFold, WellFormed;
    if lines != [] {
      var l := Content(lines[0]);
      ContentIsClean(lines[0]);
      ParsedWellFormed(lines[1..], inService);
      if !Ignored(l) {
        ParsedWellFormed(lines[1..], EqualFold(l, SECTION));
        if l[0] != '[' {
          DirectiveWellFormed(l);
        }
      }
    }
  }

  lemma SplitLine(l: string, rest: string)
    requires '\n' !in l
    ensures Split(l + "\n" + rest, '\n') == [l] + Split(rest, '\n')
  {
    CutAt(l, '\n', rest);
  }

  /** A rendered directive is read as itself. */
  lemma RenderedLine(d: Directive)
    requires WellFormed(d)
    ensures var l := d.key + "=" + d.value;
            && '\n' !in l && Content(l) == l && !Ignored(l) && l[0] != '['
            && DirectiveOf(l) == [d]
  {
    hide Trim;
    var l := d.key + "=" + d.value;
    assert l[0] == if d.key == "" then '=' else d.key[0];
    assert l[|l| - 1] == if d.value == "" then '=' else d.value[|d.value| - 1];
    TrimmedStays(l, SPACES);
    TrimmedStays(d.key, SPACES);
    TrimmedStays(d.value, SPACES);
    CutAt(d.key, '=', d.value);
  }

  lemma {:induction false} ParseRendered(ds: seq<Directive>)
    requires forall d :: d in ds ==> WellFormed(d)
    ensures ParseFrom(Split(RenderDirectives(ds), '\n'), true) == ds
  {
    hide WellFormed, Content, DirectiveOf, EqualFold;
    if ds == [] {
      NothingParsed();
    } else {
      var l, rest := ds[0].key + "=" + ds[0].value, RenderDirectives(ds[1..]);
      RenderedLine(ds[0]);
      SplitLine(l, rest);
      ParseRendered(ds[1..]);
      HeadAndTail(ds);
      hide Split;
      assert ([l] + Split(rest, '\n'))[1..] == Split(rest, '\n');
    }
  }

  lemma NothingParsed()
    ensures ParseFrom(Split("", '\n'), true) == []
  {
    assert Split("", '\n') == [""];
    assert Content("") == "";
    assert [""][1..] == [];
  }

  lemma HeaderLines(body: string)
    ensures Parsed(Header() + "\n" + (SECTION + "\n" + body)) == ParseFrom(Split(body, '\n'), true)
  {
    hide Header, Content, EqualFold, Split, ParseFrom;
    HeaderContent();
    SplitLine(Header(), SECTION + "\n" + body);
    SplitLine(SECTION, body);
    var lines := Split(body, '\n');
    ParseOne(Header(), [SECTION] + lines, false);
    ParseOne(SECTION, lines, false);
  }

  lemma ParseOne(raw: string, lines: seq<string>, inService: bool)
    ensures var l := Content(raw);
            ParseFrom([raw] + lines, inService) ==
            if Ignored(l) then ParseFrom(lines, inService)
            else if l[0] == '[' then ParseFrom(lines, EqualFold(l, SECTION))
            else if inService then DirectiveOf(l) + ParseFrom(lines, inService)
            else ParseFrom(lines, inService)
  {
    hide Content, EqualFold, DirectiveOf;
    assert ([raw] + lines)[1..] == lines;
  }

  lemma HeaderContent()
    ensures Content(Header()) != "" && Content(Header())[0] == '#'
    ensures Content(SECTION) == SECTION && EqualFold(SECTION, SECTION)
    ensures SECTION != "" && SECTION[0] == '['
  {
    hide Header, Trim;
    TrimKeepsHead(TrimSuffix(Header(), '\r'), SPACES);
    TrimmedStays(SECTION, SPACES);
  }

  /** Rendering and parsing again gives the same directives exactly when each is well formed. */
  lemma RenderParseIff(ds: seq<Directive>)
    ensures Parsed(Render(ds)) == ds <==> forall d :: d in ds ==> WellFormed(d)
  {
    hide WellFormed, ParseFrom, Header;
    HeaderLines(RenderDirectives(ds));
    if forall d :: d in ds ==> WellFormed(d) {
      ParseRendered(ds);
    }
    ParsedWellFormed(Split(Render(ds), '\n'), false);
  }

  /** Whatever was parsed survives being rendered: only what parsing drops is lost. */
  lemma ParseRenderParse(s: string)
    ensures Parsed(Render(Parsed(s))) == Parsed(s)
  {
    hide WellFormed, ParseFrom, Render;
    ParsedWellFormed(Split(s, '\n'), false);
    RenderParseIff(Parsed(s));
  }

  // ---- Editing ----

  function Index(ds: seq<Directive>, key: string): (i: int)
    ensures -1 <= i < |ds|
    ensures i >= 0 ==> ds[i].key == key && forall j :: 0 <= j < i ==> ds[j].key != key
    ensures i < 0 ==> forall j :: 0 <= j < |ds| ==> ds[j].key != key
  {
    if ds == [] then -1
    else if ds[0].key == key then 0
    else
      var i := Index(ds[1..], key);
      if i < 0 then -1 else i + 1
  }

  /** The directives of other keys, in their order. */
  function Others(ds: seq<Directive>, key: string): seq<Directive> {
    if ds == [] then []
    else if ds[0].key == key then Others(ds[1..], key)
    else [ds[0]] + Others(ds[1..], key)
  }

  lemma {:induction false} OthersAreOthers(ds: seq<Directive>, key: string)
    ensures forall d :: d in Others(ds, key) ==> d in ds && d.key != key
  {
    if ds != [] { OthersAreOthers(ds[1..], key); }
  }

  function GetIn(ds: seq<Directive>, key: string): Option<string> {
    var i := Index(ds, key);
    if i < 0 then None else Some(ds[i].value)
  }

  lemma {:induction false} OthersConcat(a: seq<Directive>, b: seq<Directive>, key: string)
    ensures Others(a + b, key) == Others(a, key) + Others(b, key)
  {
    if a == [] {
      assert a + b == b;
    } else {
      assert (a + b)[1..] == a[1..] + b && (a + b)[0] == a[0];
      OthersConcat(a[1..], b, key);
      Assoc([a[0]], Others(a[1..], key), Others(b, key));
    }
  }

  lemma {:induction false} OthersOnly(ds: seq<Directive>, key: string)
    requires forall i :: 0 <= i < |ds| ==> ds[i].key != key
    ensures Others(ds, key) == ds
  {
    if ds != [] { OthersOnly(ds[1..], key); }
  }

  function AfterSet(ds: seq<Directive>, key: string, value: string): seq<Directive> {
    var i := Index(ds, key);
    if i < 0 then ds + [Directive(key, value)] else ds[..i] + [Directive(key, value)] + Others(ds[i + 1..], key)
  }

  lemma UpdateTake<T>(s: seq<T>, n: nat, x: T)
    requires n < |s|
    ensures s[n := x][..n + 1] == s[..n] + [x]
  {
  }

  lemma OthersNext(ds: seq<Directive>, from: nat, r: nat, key: string)
    requires from <= r < |ds|
    ensures Others(ds[from..r + 1], key) == Others(ds[from..r], key) + (if ds[r].key == key then [] else [ds[r]])
  {
    assert ds[from..r + 1] == ds[from..r] + [ds[r]];
    OthersConcat(ds[from..r], [ds[r]], key);
    assert [ds[r]][1..] == [];
  }

  class File {
    var directives: seq<Directive>

    constructor (directives: seq<Directive>)
      ensures this.directives == directives
    {
      this.directives := directives;
    }

    static method Parse(s: string) returns (f: File)
      ensures fresh(f) && f.directives == Parsed(s)
    {
      var out := ParseLines(Split(s, '\n'));
      f := new File(out);
    }

    static method ParseLines(lines: seq<string>) returns (out: seq<Directive>)
      ensures out == ParseFrom(lines, false)
    {
      hide Content, DirectiveOf, EqualFold, ParseFrom;
      out := [];
      var inService := false;
      NothingLeft(inService);
      for i := 0 to |lines|
        invariant out + ParseFrom(lines[i..], inService) == ParseFrom(lines, false)
      {
        assert lines[i..] == [lines[i]] + lines[i + 1..];
        ParseOne(lines[i], lines[i + 1..], inService);
        var l := Content(lines[i]);
        if Ignored(l) {
          continue;
        }
        if l[0] == '[' {
          inService := EqualFold(l, SECTION);
        } else if inService {
          Assoc(out, DirectiveOf(l), ParseFrom(lines[i + 1..], inService));
          out := out + DirectiveOf(l);
        }
      }
      assert lines[|lines|..] == [];
      NothingLeft(inService);
    }

    method IndexOfKey(key: string) returns (i: int)
      ensures i == Index(directives, key)
    {
      for k := 0 to |directives|
        invariant forall j :: 0 <= j < k ==> directives[j].key != key
      {
        if directives[k].key == key {
          return k;
        }
      }
      return -1;
    }

    method Get(key: string) returns (value: Option<string>)
      ensures value == GetIn(directives, key)
    {
      var i := IndexOfKey(key);
      value := if i >= 0 then Some(directives[i].value) else None;
    }

    /**
     Gives the first directive of the key the value and drops the later ones, moving the rest down
     within the same slice.
     */
    method Set(key: string, value: string)
      modifies this
      ensures directives == AfterSet(old(directives), key, value)
    {
      var i := IndexOfKey(key);
      if i < 0 {
        directives := directives + [Directive(key, value)];
        return;
      }
      ghost var ds := directives;
      directives := directives[i := directives[i].(value := value)];
      CompactAfter(i + 1, key);
      assert directives == ds[..i] + [Directive(key, value)] + Others(ds[i + 1..], key);
    }

    /** Drops the directives of the key from position `from` on: each one kept moves down over those dropped. */
    method CompactAfter(from: nat, key: string)
      requires from <= |directives|
      modifies this
      ensures directives == old(directives)[..from] + Others(old(directives)[from..], key)
    {
      hide Others;
      NoOthers(key);
      ghost var ds := directives;
      var n := from;
      assert ds[from..from] == [];
      for r := from to |directives|
        invariant |directives| == |ds| && from <= n <= r
        invariant directives[..n] == ds[..from] + Others(ds[from..r], key)
        invariant forall k :: r <= k < |ds| ==> directives[k] == ds[k]
      {
        OthersNext(ds, from, r, key);
        ghost var others := Others(ds[from..r], key);
        if directives[r].key == key {
          continue;
        }
        UpdateTake(directives, n, ds[r]);
        directives := directives[n := directives[r]];
        n := n + 1;
        Assoc(ds[..from], others, [ds[r]]);
      }
      assert ds[from..|ds|] == ds[from..];
      directives := directives[..n];
    }

    method Unset(key: string)
      modifies this
      ensures directives == Others(old(directives), key)
    {
      var out: seq<Directive> := [];
      for k := 0 to |directives|
        invariant directives == old(directives)
        invariant out + Others(directives[k..], key) == Others(directives, key)
      {
        assert directives[k..][1..] == directives[k + 1..];
        if directives[k].key == key {
          continue;
        }
        Assoc(out, [directives[k]], Others(directives[k + 1..], key));
        out := out + [directives[k]];
      }
      directives := out;
    }
  }

  /**
   Setting leaves exactly one directive of the key, at its first place, reads back the value and keeps all
   others in order.
   */
  lemma SetLeavesOne(ds: seq<Directive>, key: string, value: string)
    ensures var after := AfterSet(ds, key, value);
            var at := if Index(ds, key) < 0 then |ds| else Index(ds, key);
            && at < |after| && after[at] == Directive(key, value)
            && (forall i :: 0 <= i < |after| && i != at ==> after[i].key != key)
            && GetIn(after, key) == Some(value)
            && Others(after, key) == Others(ds, key)
  {
    hide Index, Others;
    var i, d := Index(ds, key), Directive(key, value);
    var at := if i < 0 then |ds| else i;
    var rest := if i < 0 then [] else Others(ds[i + 1..], key);
    if i >= 0 {
      OthersAreOthers(ds[i + 1..], key);
    }
    assert AfterSet(ds, key, value) == ds[..at] + [d] + rest;
    OnePlace(ds[..at], d, rest);
    SetKeepsOthers(ds, key, value);
  }

  lemma SetKeepsOthers(ds: seq<Directive>, key: string, value: string)
    ensures Others(AfterSet(ds, key, value), key) == Others(ds, key)
  {
    hide Index, Others;
    var i, d := Index(ds, key), Directive(key, value);
    if i >= 0 {
      var tail := ds[i + 1..];
      OthersAround(ds[..i], d, Others(tail, key), key);
      OthersAreOthers(tail, key);
      OthersOnly(Others(tail, key), key);
      assert ds == ds[..i] + [ds[i]] + tail;
      OthersAround(ds[..i], ds[i], tail, key);
    } else {
      NoOthers(key);
      assert ds + [d] == ds + [d] + [];
      OthersAround(ds, d, [], key);
      assert Others(ds, key) + [] == Others(ds, key);
    }
  }

  lemma NoOthers(key: string)
    ensures Others([], key) == []
  {
  }

  lemma OthersAround(a: seq<Directive>, d: Directive, b: seq<Directive>, key: string)
    requires d.key == key
    ensures Others(a + [d] + b, key) == Others(a, key) + Others(b, key)
  {
    OthersConcat(a + [d], b, key);
    OthersConcat(a, [d], key);
    assert [d][1..] == [];
  }

  lemma OnePlace(a: seq<Directive>, d: Directive, b: seq<Directive>)
    requires (forall i :: 0 <= i < |a| ==> a[i].key != d.key) && (forall e :: e in b ==> e.key != d.key)
    ensures var all := a + [d] + b;
            (forall i :: 0 <= i < |all| && i != |a| ==> all[i].key != d.key) && Index(all, d.key) == |a|
  {
    var all := a + [d] + b;
    assert all[|a|] == d;
    forall i | 0 <= i < |all| && i != |a|
      ensures all[i].key != d.key
    {
      if i > |a| { assert all[i] in b; }
    }
  }

  lemma AfterSetWellFormed(ds: seq<Directive>, key: string, value: string)
    requires WellFormed(Directive(key, value)) && forall d :: d in ds ==> WellFormed(d)
    ensures forall d :: d in AfterSet(ds, key, value) ==> WellFormed(d)
  {
    hide WellFormed, Index, Others;
    var i := Index(ds, key);
    if i >= 0 {
      var rest := Others(ds[i + 1..], key);
      OthersAreOthers(ds[i + 1..], key);
      forall d | d in rest
        ensures WellFormed(d)
      {
        assert d in ds[i + 1..];
      }
    }
  }

  /** An edited file reads back what was set, once it is rendered and parsed again. */
  lemma SetSurvives(ds: seq<Directive>, key: string, value: string)
    requires WellFormed(Directive(key, value)) && forall d :: d in ds ==> WellFormed(d)
    ensures Parsed(Render(AfterSet(ds, key, value))) == AfterSet(ds, key, value)
  {
    AfterSetWellFormed(ds, key, value);
    hide WellFormed, Parsed, Render, AfterSet;
    RenderParseIff(AfterSet(ds, key, value));
  }

  // ---- What a line means ----

  /** Space, tab, newline, vertical tab, form feed and carriage return. */
  predicate Blank(s: string) {
    forall i :: 0 <= i < |s| ==> s[i] == ' ' || '\t' <= s[i] <= '\r'
  }

  /** Neither starts nor ends in white space. */
  predicate Bare(s: string) {
    s != "" ==> !Blank([s[0]]) && !Blank([s[|s| - 1]])
  }

  lemma SpaceIff(c: char)
    ensures c in SPACES <==> Blank([c])
  {
    assert [c][0] == c;
    assert '\t' < '\n' < '\U{000B}' < '\U{000C}' < '\r';
    if '\t' <= c <= '\r' {
      assert c as int == 9 || c as int == 10 || c as int == 11 || c as int == 12 || c as int == 13;
      assert c == 9 as char || c == 10 as char || c == 11 as char || c == 12 as char || c == 13 as char;
    }
  }

  lemma BlankIff(s: string)
    ensures Blank(s) <==> forall c :: c in s ==> c in SPACES
    ensures Bare(s) <==> Trimmed(s, SPACES)
  {
    forall c
      ensures c in SPACES <==> Blank([c])
    {
      SpaceIff(c);
    }
    assert forall i :: 0 <= i < |s| ==> (Blank([s[i]]) <==> [s[i]][0] == ' ' || '\t' <= [s[i]][0] <= '\r');
  }

  lemma SpaceTrimmed(front: string, s: string, back: string)
    requires Blank(front) && Bare(s) && Blank(back)
    ensures TrimSpace(front + s + back) == s
  {
    BlankIff(front);
    BlankIff(s);
    BlankIff(back);
    TrimIs(front, s, back, SPACES);
  }

  /** White space around a line does not count, a carriage return at its end included. */
  lemma ContentIs(front: string, l: string, back: string)
    requires Blank(front) && Bare(l) && Blank(back)
    ensures Content(front + l + back) == l
  {
    hide TrimSpace;
    var raw := front + l + back;
    if back == "" && l != "" {
      assert raw[|raw| - 1] == l[|l| - 1];
      assert [l[|l| - 1]][0] == l[|l| - 1];
      SpaceTrimmed(front, l, back);
    } else if raw == "" || raw[|raw| - 1] != '\r' {
      SpaceTrimmed(front, l, back);
    } else if back != "" {
      assert raw[..|raw| - 1] == front + l + back[..|back| - 1];
      SpaceTrimmed(front, l, back[..|back| - 1]);
    } else {
      assert raw[..|raw| - 1] == front[..|front| - 1] + "" + "";
      SpaceTrimmed(front[..|front| - 1], "", "");
    }
  }

  /**
   A line with an equals sign sets what stands in front of the first to what stands behind it; other lines
   set nothing.
   */
  lemma DirectiveIs(key: string, before: string, after: string, value: string)
    requires '=' !in key && Bare(key) && Blank(before) && Blank(after) && Bare(value)
    ensures DirectiveOf(key + before + "=" + (after + value)) == [Directive(key, value)]
  {
    hide TrimSpace;
    var l := key + before + "=" + (after + value);
    CutAt(key + before, '=', after + value);
    assert "" + key + before == key + before && after + value + "" == after + value;
    SpaceTrimmed("", key, before);
    SpaceTrimmed(after, value, "");
  }

  lemma NoDirective(l: string)
    requires '=' !in l
    ensures DirectiveOf(l) == []
  {
  }

  /** The line opens a section. */
  predicate Opens(raw: string) {
    Content(raw) != "" && Content(raw)[0] == '['
  }

  /** The line opens the section of services, in any letter case. */
  predicate OpensService(raw: string) {
    Spells(Content(raw), "[service]")
  }

  /** The last section opened in the first `n` lines is that of services. */
  ghost predicate InService(lines: seq<string>, n: nat)
    requires n <= |lines|
  {
    exists h :: 0 <= h < n && OpensService(lines[h]) && forall k :: h < k < n ==> !Opens(lines[k])
  }

  lemma ServiceIff(l: string)
    ensures EqualFold(l, SECTION) <==> Spells(l, "[service]")
    ensures Spells(l, "[service]") ==> l != "" && l[0] == '['
  {
    LoweredSpells(l, "[service]");
    assert forall i :: 0 <= i < |SECTION| ==> LowerChar(SECTION[i]) == "[service]"[i];
  }

  /** Whether the lines leave the parser inside the section of services. */
  function StateAfter(lines: seq<string>, inService: bool): bool {
    if lines == [] then inService
    else
      StateAfter(lines[1..], if Opens(lines[0]) then EqualFold(Content(lines[0]), SECTION) else inService)
  }

  lemma {:induction false} ParseInParts(a: seq<string>, b: seq<string>, inService: bool)
    ensures ParseFrom(a + b, inService) == ParseFrom(a, inService) + ParseFrom(b, StateAfter(a, inService))
    ensures StateAfter(a + b, inService) == StateAfter(b, StateAfter(a, inService))
    decreases |a|
  {
    hide Content, EqualFold, DirectiveOf;
    if a == [] {
      assert a + b == b;
    } else {
      var l := Content(a[0]);
      var next := if Opens(a[0]) then EqualFold(l, SECTION) else inService;
      assert (a + b)[0] == a[0] && (a + b)[1..] == a[1..] + b;
      ParseInParts(a[1..], b, next);
      Assoc(DirectiveOf(l), ParseFrom(a[1..], next), ParseFrom(b, StateAfter(a[1..], next)));
    }
  }

  lemma {:induction false} InServiceIff(lines: seq<string>, n: nat)
    requires n <= |lines|
    ensures StateAfter(lines[..n], false) <==> InService(lines, n)
  {
    hide Content, EqualFold, Spells;
    if n > 0 {
      var raw := lines[n - 1];
      InServiceIff(lines, n - 1);
      assert lines[..n] == lines[..n - 1] + [raw];
      ParseInParts(lines[..n - 1], [raw], false);
      assert [raw][1..] == [];
      ServiceIff(Content(raw));
      if Opens(raw) {
        if OpensService(raw) {
          assert InService(lines, n);
        }
      } else if InService(lines, n - 1) {
        var h :| 0 <= h < n - 1 && OpensService(lines[h]) && forall k :: h < k < n - 1 ==> !Opens(lines[k]);
        assert InService(lines, n);
      }
    }
  }

  /**
   What one more line adds: the directive it holds, when the last section opened before it is that of
   services and it is neither blank nor a comment nor opens a section itself; else nothing.
   */
  lemma LineParsed(lines: seq<string>, n: nat, front: string, l: string, back: string)
    requires n < |lines| && lines[n] == front + l + back && Blank(front) && Bare(l) && Blank(back)
    ensures ParseFrom(lines[..n + 1], false) ==
            ParseFrom(lines[..n], false) +
            if InService(lines, n) && l != "" && l[0] != '#' && l[0] != ';' && l[0] != '[' then DirectiveOf(l) else []
  {
    hide Content, EqualFold, DirectiveOf;
    ContentIs(front, l, back);
    InServiceIff(lines, n);
    assert lines[..n + 1] == lines[..n] + [lines[n]];
    ParseInParts(lines[..n], [lines[n]], false);
    assert [lines[n]][1..] == [];
    assert DirectiveOf(l) + [] == DirectiveOf(l);
  }

  /** A text is parsed as the lines between its newlines. */
  lemma ParsedText(s: string) returns (lines: seq<string>)
    ensures lines != [] && Joined(lines, '\n') == s && forall i :: 0 <= i < |lines| ==> '\n' !in lines[i]
    ensures Parsed(s) == ParseFrom(lines, false)
  {
    lines := Split(s, '\n');
    JoinedSplit(s, '\n');
  }

  /** A rendered file is the comment, the section, and a line for each directive. */
  lemma {:induction false} RenderIs(ds: seq<Directive>, d: Directive)
    ensures Render([]) == Header() + "\n[Service]\n"
    ensures Render(ds + [d]) == Render(ds) + (d.key + "=" + d.value + "\n")
  {
    RenderLast(ds, d);
    Assoc(Header() + "\n", SECTION + "\n" + RenderDirectives(ds), d.key + "=" + d.value + "\n");
    Assoc(SECTION + "\n", RenderDirectives(ds), d.key + "=" + d.value + "\n");
  }

  lemma {:induction false} RenderLast(ds: seq<Directive>, d: Directive)
    ensures RenderDirectives(ds + [d]) == RenderDirectives(ds) + (d.key + "=" + d.value + "\n")
  {
    var line := d.key + "=" + d.value + "\n";
    if ds == [] {
      assert [] + [d] == [d] && [d][1..] == [] && line + "" == line && "" + line == line;
    } else {
      assert (ds + [d])[0] == ds[0] && (ds + [d])[1..] == ds[1..] + [d];
      RenderLast(ds[1..], d);
      Assoc(ds[0].key + "=" + ds[0].value + "\n", RenderDirectives(ds[1..]), line);
    }
  }

  /** Exactly the directives of other keys stay, in their order and as often as they were there. */
  lemma {:induction false} OthersCount(ds: seq<Directive>, key: string, d: Directive)
    ensures multiset(Others(ds, key))[d] == if d.key != key then multiset(ds)[d] else 0
    ensures Subsequence(Others(ds, key), ds)
  {
    if ds != [] {
      OthersCount(ds[1..], key, d);
      HeadAndTail(ds);
      SubsequenceCons(ds[0], Others(ds[1..], key), ds[1..]);
    }
  }
}
