/**
 Masking of secrets in argument lists and error texts: first by option and header names, then by
 the values of the secrets themselves.
 */
module Mask {
  import opened Sequences
  import opened Strings

  const PLACEHOLDER := "***"

  /** Shorter secrets are not replaced. */
  const MIN_SECRET_LEN := 8

  const SECRET_KEYS: seq<string> := ["token", "pat", "jitconfig", "password", "secret"]
  const SECRET_SUBSTRINGS: seq<string> := ["authorization", "bearer", "apikey", "api-key", "api_key"]
  const HEADER_KEYS: seq<string> := ["h", "header"]

  // ---- Replacement by value ----

  /** strings.ReplaceAll(s, secret, PLACEHOLDER): leftmost occurrences first, never overlapping. */
  function ReplaceAll(s: string, secret: string): string
    requires secret != ""
    decreases |s|
  {
    if secret <= s then PLACEHOLDER + ReplaceAll(s[|secret|..], secret)
    else if s == "" then ""
    else [s[0]] + ReplaceAll(s[1..], secret)
  }

  /** The specification of `String`: each long enough secret replaced in turn. */
  function Masked(s: string, secrets: seq<string>): string
    decreases |secrets|
  {
    if secrets == [] then s
    else if |secrets[0]| < MIN_SECRET_LEN then Masked(s, secrets[1..])
    else Masked(ReplaceAll(s, secrets[0]), secrets[1..])
  }

  method String(s: string, secrets: seq<string>) returns (r: string)
    ensures r == Masked(s, secrets)
  {
    r := s;
    for i := 0 to |secrets|
      invariant Masked(r, secrets[i..]) == Masked(s, secrets)
    {
      assert secrets[i..][1..] == secrets[i + 1..];
      if |secrets[i]| < MIN_SECRET_LEN {
        continue;
      }
      r := ReplaceAll(r, secrets[i]);
    }
  }

  /** No mark put in the place of a secret can become part of `t`. */
  ghost predicate NoMarkFits(t: string) {
    t != "" && t[0] != '*' && t[|t| - 1] != '*' && !Contains(t, PLACEHOLDER)
  }

  lemma StarFreeFits(t: string)
    requires t != "" && '*' !in t
    ensures NoMarkFits(t)
  {
    if Contains(t, PLACEHOLDER) {
      var k :| OccursAt(t, PLACEHOLDER, k);
      OccursIndex(t, PLACEHOLDER, k, 0);
      assert false;
    }
  }

  lemma OccursIndex(s: string, t: string, k: nat, i: nat)
    requires OccursAt(s, t, k) && i < |t|
    ensures k + |t| <= |s| && s[k + i] == t[i]
  {
    assert s[k..][i] == t[i];
  }

  lemma OccursBounds(s: string, t: string, k: int)
    requires OccursAt(s, t, k)
    ensures 0 <= k <= |s|
  {
  }

  lemma OccursIf(s: string, t: string, k: nat)
    requires k + |t| <= |s| && forall i :: 0 <= i < |t| ==> s[k + i] == t[i]
    ensures OccursAt(s, t, k)
  {
    assert forall i :: 0 <= i < |t| ==> s[k..][i] == t[i];
  }

  /** A text at the start of the result that no mark fits into was already at the start of the input. */
  lemma {:induction false} PrefixSurvives(s: string, secret: string, t: string)
    requires secret != "" && (t != "" ==> t[|t| - 1] != '*') && !Contains(t, PLACEHOLDER)
    requires t <= ReplaceAll(s, secret)
    ensures t <= s
    decreases |s|
  {
    var r := ReplaceAll(s, secret);
    if t != "" {
      if secret <= s {
        MarkInFront(r, t);
        assert false;
      } else {
        assert r[1..] == ReplaceAll(s[1..], secret);
        NoneInRest(t, PLACEHOLDER);
        PrefixSurvives(s[1..], secret, t[1..]);
        assert t == [t[0]] + t[1..] && s == [s[0]] + s[1..];
      }
    }
  }

  lemma MarkInFront(r: string, t: string)
    requires PLACEHOLDER <= r && t <= r && t != ""
    ensures t[|t| - 1] == '*' || Contains(t, PLACEHOLDER)
  {
    if |t| >= 3 {
      assert OccursAt(t, PLACEHOLDER, 0);
    } else {
      assert t[|t| - 1] == r[|t| - 1];
    }
  }

  lemma NoneInRest(s: string, t: string)
    requires s != "" && !Contains(s, t)
    ensures !Contains(s[1..], t)
  {
    if Contains(s[1..], t) {
      var j :| OccursAt(s[1..], t, j);
      OccursInRest(s, 1, t, j);
    }
  }

  lemma OccursBehind(a: string, b: string, t: string, k: nat)
    requires |a| <= k && OccursAt(a + b, t, k)
    ensures OccursAt(b, t, k - |a|)
  {
    DropBehind(a, b, k);
  }

  /** Replacing one secret recreates no text that no mark fits into, and leaves no copy of the secret itself. */
  lemma {:induction false} NothingRecreated(s: string, secret: string, t: string, k: nat)
    requires secret != "" && NoMarkFits(t)
    requires OccursAt(ReplaceAll(s, secret), t, k)
    ensures t != secret && Contains(s, t)
    decreases |s|
  {
    FitsParts(t);
    hide NoMarkFits, Contains, OccursAt;
    OccursIndex(ReplaceAll(s, secret), t, k, 0);
    if secret <= s {
      BehindMark(ReplaceAll(s[|secret|..], secret), t, k);
      NothingRecreated(s[|secret|..], secret, t, k - 3);
      ContainsInRest(s, |secret|, t);
    } else if s != "" {
      if k == 0 {
        OccursFirst(ReplaceAll(s, secret), t);
        PrefixSurvives(s, secret, t);
        ContainsAtStart(s, t);
      } else {
        OccursBehind([s[0]], ReplaceAll(s[1..], secret), t, k);
        NothingRecreated(s[1..], secret, t, k - 1);
        ContainsInRest(s, 1, t);
      }
    }
  }

  lemma BehindMark(r: string, t: string, k: nat)
    requires t != "" && t[0] != '*' && OccursAt(PLACEHOLDER + r, t, k)
    ensures k >= 3 && OccursAt(r, t, k - 3)
  {
    OccursIndex(PLACEHOLDER + r, t, k, 0);
    hide OccursAt;
    OccursBehind(PLACEHOLDER, r, t, k);
  }

  lemma OccursFirst(s: string, t: string)
    requires OccursAt(s, t, 0)
    ensures t <= s
  {
    assert s[0..] == s;
  }

  lemma FitsParts(t: string)
    requires NoMarkFits(t)
    ensures t != "" && t[0] != '*' && t[|t| - 1] != '*' && !Contains(t, PLACEHOLDER)
  {
  }

  lemma ContainsAtStart(s: string, t: string)
    requires t <= s
    ensures Contains(s, t)
  {
    assert OccursAt(s, t, 0);
  }

  lemma ContainsInRest(s: string, n: nat, t: string)
    requires n <= |s| && Contains(s[n..], t)
    ensures Contains(s, t)
  {
    var j :| OccursAt(s[n..], t, j);
    OccursInRest(s, n, t, j);
  }

  lemma OccursInRest(s: string, n: nat, t: string, j: nat)
    requires n <= |s| && OccursAt(s[n..], t, j)
    ensures OccursAt(s, t, n + j)
  {
    assert s[n..][j..] == s[n + j..];
  }

  /** No later replacement brings back a text that no mark fits into. */
  lemma {:induction false} MaskedContains(s: string, secrets: seq<string>, t: string)
    requires NoMarkFits(t) && Contains(Masked(s, secrets), t)
    ensures Contains(s, t)
    ensures t in secrets ==> |t| < MIN_SECRET_LEN
    decreases |secrets|
  {
    hide NoMarkFits;
    if secrets != [] {
      if |secrets[0]| < MIN_SECRET_LEN {
        MaskedContains(s, secrets[1..], t);
      } else {
        var r := ReplaceAll(s, secrets[0]);
        MaskedContains(r, secrets[1..], t);
        var k :| OccursAt(r, t, k);
        NothingRecreated(s, secrets[0], t, k);
      }
    }
  }

  /**
   Among any secrets, in any order, overlapping or nested: no result contains a long enough one that no
   mark fits into.
   */
  lemma NoSecretSurvives(s: string, secrets: seq<string>, t: string)
    requires t in secrets && |t| >= 8 && NoMarkFits(t)
    ensures !Contains(Masked(s, secrets), t)
  {
    if Contains(Masked(s, secrets), t) {
      MaskedContains(s, secrets, t);
    }
  }

  // ---- Which secrets leak ----

  /** Whatever the text and whatever the other secrets, no result contains the secret. */
  ghost predicate NeverLeaks(t: string) {
    forall s: string, secrets: seq<string> :: t in secrets ==> !Contains(Masked(s, secrets), t)
  }

  /** A long enough secret never shows in a result exactly when no mark fits into it. */
  lemma NeverLeaksIff(t: string)
    requires |t| >= 8
    ensures NeverLeaks(t) <==> NoMarkFits(t)
  {
    hide NoMarkFits, Contains, Masked;
    if NoMarkFits(t) {
      forall s: string, secrets: seq<string> | t in secrets
        ensures !Contains(Masked(s, secrets), t)
      {
        NoSecretSurvives(s, secrets, t);
      }
    } else {
      var s := MarkBreaks(t);
      MaskedOnce(s, t);
      assert t in [t] && Contains(Masked(s, [t]), t);
    }
  }

  lemma MaskedOnce(x: string, s: string)
    requires |s| >= MIN_SECRET_LEN
    ensures Masked(x, [s]) == ReplaceAll(x, s)
  {
    assert [s][1..] == [];
  }

  /** A text around a secret that a mark fits into, such that the mark completes the secret again. */
  lemma MarkBreaks(t: string) returns (s: string)
    requires |t| >= MIN_SECRET_LEN && !NoMarkFits(t)
    ensures Contains(ReplaceAll(s, t), t)
    ensures forall i :: 0 <= i < |s| ==> s[i] in t
  {
    if t[0] == '*' {
      s := "" + t + t[1..];
      StarInFront(t);
    } else if t[|t| - 1] == '*' {
      s := t[..|t| - 1] + t + "";
      StarAtEnd(t);
    } else {
      var k := FirstOccurrence(t, PLACEHOLDER);
      s := t[..k] + t + t[k + 3..];
      MarkInside(t, k);
    }
  }

  lemma InMiddle(a: string, t: string, b: string, i: nat)
    requires i < |t|
    ensures (a + t + b)[|a| + i] == t[i]
  {
  }

  lemma InFront(a: string, t: string, b: string, i: nat)
    requires i < |a|
    ensures (a + t + b)[i] == a[i]
  {
  }

  lemma StarInFront(t: string)
    requires |t| >= MIN_SECRET_LEN && t[0] == '*'
    ensures Contains(ReplaceAll("" + t + t[1..], t), t)
  {
    hide ReplaceAll;
    ReplaceOnly("", t, t[1..]);
    OccursIf("" + PLACEHOLDER + t[1..], t, 2);
  }

  lemma StarAtEnd(t: string)
    requires |t| >= MIN_SECRET_LEN && t[0] != '*' && t[|t| - 1] == '*'
    ensures Contains(ReplaceAll(t[..|t| - 1] + t + "", t), t)
  {
    hide ReplaceAll, OccursAt;
    var a := t[..|t| - 1];
    forall j | 0 <= j < |a|
      ensures !OccursAt(a + t + "", t, j)
    {
      if OccursAt(a + t + "", t, j) {
        FirstIsLast(t, j);
        assert false;
      }
    }
    ReplaceOnly(a, t, "");
    OccursIf(a + PLACEHOLDER + "", t, 0);
  }

  /** A copy that starts before the second one makes the first character of the secret its last one. */
  lemma FirstIsLast(t: string, j: nat)
    requires |t| >= MIN_SECRET_LEN && j < |t| - 1 && OccursAt(t[..|t| - 1] + t + "", t, j)
    ensures t[|t| - 1] == t[0]
  {
    var a := t[..|t| - 1];
    OccursIndex(a + t + "", t, j, 0);
    OccursIndex(a + t + "", t, j, |t| - 1);
    hide OccursAt;
    InFront(a, t, "", j);
    InMiddle(a, t, "", j);
    assert j + (|t| - 1) == |a| + j;
  }

  lemma MarkInside(t: string, k: nat)
    requires |t| >= MIN_SECRET_LEN && OccursAt(t, PLACEHOLDER, k)
    requires forall j :: 0 <= j < k ==> !OccursAt(t, PLACEHOLDER, j)
    ensures k + 3 <= |t| && Contains(ReplaceAll(t[..k] + t + t[k + 3..], t), t)
  {
    hide ReplaceAll, OccursAt;
    OccursIndex(t, PLACEHOLDER, k, 0);
    var a, b := t[..k], t[k + 3..];
    forall j | 0 <= j < |a|
      ensures !OccursAt(a + t + b, t, j)
    {
      if OccursAt(a + t + b, t, j) {
        EarlierMark(t, k, j);
        assert false;
      }
    }
    ReplaceOnly(a, t, b);
    MarkFills(t, k);
    ContainsAtStart(t, t);
  }

  lemma MarkFills(t: string, k: nat)
    requires OccursAt(t, PLACEHOLDER, k) && k + 3 <= |t|
    ensures t[..k] + PLACEHOLDER + t[k + 3..] == t
  {
    assert t[k..][..3] == PLACEHOLDER;
    DropTake(t, k, 3);
    assert t == t[..k] + t[k..k + 3] + t[k + 3..];
  }

  /** A copy that starts before the second one holds its mark earlier. */
  lemma EarlierMark(t: string, k: nat, j: nat)
    requires k + 3 <= |t| && j < k && OccursAt(t, PLACEHOLDER, k) && OccursAt(t[..k] + t + t[k + 3..], t, j)
    ensures OccursAt(t, PLACEHOLDER, j)
  {
    var a, b := t[..k], t[k + 3..];
    forall i | 0 <= i < 3
      ensures t[j + i] == PLACEHOLDER[i]
    {
      OccursIndex(t, PLACEHOLDER, k, i);
      OccursIndex(a + t + b, t, j, k + i);
      InMiddle(a, t, b, j + i);
      assert j + (k + i) == |a| + (j + i);
    }
    OccursIf(t, PLACEHOLDER, j);
  }

  lemma FirstOccurrence(s: string, t: string) returns (k: nat)
    requires Contains(s, t)
    ensures OccursAt(s, t, k) && forall j :: 0 <= j < k ==> !OccursAt(s, t, j)
  {
    k := 0;
    while !OccursAt(s, t, k)
      invariant forall j :: 0 <= j < k ==> !OccursAt(s, t, j)
      invariant k <= |s|
      decreases |s| - k
    {
      if k == |s| {
        assert false;
      }
      k := k + 1;
    }
  }

  /** The secret is replaced where it stands first, and what is too short for another one behind it stays. */
  lemma ReplaceOnly(a: string, t: string, b: string)
    requires |b| < |t| && forall j :: 0 <= j < |a| ==> !OccursAt(a + t + b, t, j)
    ensures ReplaceAll(a + t + b, t) == a + PLACEHOLDER + b
  {
    hide OccursAt, ReplaceAll;
    ReplaceAtFirst(a, t, b);
    ShortUnreplaced(b, t);
  }

  /** The secret is replaced where it stands first, and what follows is treated in the same way. */
  lemma {:induction false} ReplaceAtFirst(a: string, t: string, b: string)
    requires t != "" && forall j :: 0 <= j < |a| ==> !OccursAt(a + t + b, t, j)
    ensures ReplaceAll(a + t + b, t) == a + PLACEHOLDER + ReplaceAll(b, t)
    decreases |a|
  {
    if a == "" {
      assert "" + t + b == t + b;
      SecretInFront(t, b);
    } else {
      var c, rest := [a[0]], a[1..];
      var x := rest + t + b;
      FourParts(a, t, b);
      FourParts(a, PLACEHOLDER, ReplaceAll(b, t));
      hide OccursAt;
      forall j | 0 <= j < |rest|
        ensures !OccursAt(x, t, j)
      {
        if OccursAt(x, t, j) {
          OccursFurther(c, x, t, j);
        }
      }
      ReplaceAtFirst(rest, t, b);
      ReplaceOne(c + x, t);
    }
  }

  lemma FourParts(a: string, t: string, b: string)
    requires a != ""
    ensures a + t + b == [a[0]] + (a[1..] + t + b)
  {
    HeadAndTail(a);
  }

  lemma OccursFurther(c: string, x: string, t: string, j: nat)
    requires OccursAt(x, t, j)
    ensures OccursAt(c + x, t, |c| + j)
  {
    DropBehind(c, x, |c| + j);
  }

  lemma ReplaceOne(s: string, t: string)
    requires t != "" && s != "" && !OccursAt(s, t, 0)
    ensures ReplaceAll(s, t) == [s[0]] + ReplaceAll(s[1..], t)
  {
    assert s[0..] == s;
  }

  lemma SecretInFront(s: string, rest: string)
    requires s != ""
    ensures ReplaceAll(s + rest, s) == PLACEHOLDER + ReplaceAll(rest, s)
  {
    DropBehind(s, rest, |s|);
  }

  lemma {:induction false} ShortUnreplaced(s: string, secret: string)
    requires |s| < |secret|
    ensures ReplaceAll(s, secret) == s
    decreases |s|
  {
    if s != "" { ShortUnreplaced(s[1..], secret); }
  }

  lemma {:induction false} NothingToReplace(s: string, secret: string)
    requires secret != "" && !Contains(s, secret)
    ensures ReplaceAll(s, secret) == s
  {
    hide Contains;
    if secret <= s {
      ContainsAtStart(s, secret);
    } else if s != "" {
      NoneInRest(s, secret);
      NothingToReplace(s[1..], secret);
      HeadAndTail(s);
    }
  }

  lemma {:induction false} NothingToMask(s: string, secrets: seq<string>)
    requires forall t :: t in secrets && |t| >= MIN_SECRET_LEN ==> !Contains(s, t)
    ensures Masked(s, secrets) == s
  {
    if secrets != [] {
      if |secrets[0]| >= MIN_SECRET_LEN {
        NothingToReplace(s, secrets[0]);
      }
      NothingToMask(s, secrets[1..]);
    }
  }

  // ---- Names ----

  /** strings.ToLower on ASCII. */
  function ToLower(s: string): (r: string)
    ensures |r| == |s|
    ensures forall i :: 0 <= i < |s| ==> r[i] == LowerChar(s[i])
  {
    seq(|s|, i requires 0 <= i < |s| => LowerChar(s[i]))
  }

  function NormalizeKey(name: string): string {
    ToLower(TrimLeft(name, {'-'}))
  }

  predicate HasSubstring(s: string, t: string)
    ensures HasSubstring(s, t) <==> Contains(s, t)
  {
    exists k :: 0 <= k <= |s| && OccursAt(s, t, k)
  }

  predicate IsSecretKey(name: string) {
    var key := NormalizeKey(name);
    IsExactKey(key) || HasSecretWord(key)
  }

  predicate IsExactKey(key: string) {
    key in SECRET_KEYS
  }

  predicate HasSecretWord(key: string) {
    exists i :: 0 <= i < |SECRET_SUBSTRINGS| && HasSubstring(key, SECRET_SUBSTRINGS[i])
  }

  predicate IsHeaderKey(name: string) {
    NormalizeKey(name) in HEADER_KEYS
  }

  predicate IsNameChar(c: char) {
    'A' <= c <= 'Z' || 'a' <= c <= 'z' || '0' <= c <= '9' || c == '.' || c == '_' || c == '-'
  }

  /** The name of an element that is nothing but an option name. */
  function OptionName(arg: string): (name: Option<string>)
    ensures name.Some? ==> forall i :: 0 <= i < |arg| ==> IsNameChar(arg[i])
  {
    var name := TrimLeft(arg, {'-'});
    TrimLeftEnd(arg, {'-'});
    if !("-" <= arg) || name == "" || exists i :: 0 <= i < |name| && !IsNameChar(name[i]) then None
    else Some(name)
  }

  function MaskHeader(v: string): string {
    var p := Cut(v, ':');
    if !p.found || !IsSecretKey(p.before) then v else p.before + ": " + PLACEHOLDER
  }

  function MaskInline(key: string, val: string): string {
    if IsHeaderKey(key) then key + "=" + MaskHeader(val)
    else if IsSecretKey(key) then key + "=" + PLACEHOLDER
    else key + "=" + val
  }

  function MaskElement(arg: string): string {
    var p := Cut(arg, '=');
    if !p.found then MaskHeader(arg)
    else if ':' in p.before && MaskHeader(arg) != arg then MaskHeader(arg)
    else MaskInline(p.before, p.after)
  }

  // ---- Argument lists ----

  /** What masking by key makes of the element at position `i`, given the raw list. */
  function KeyMaskedAt(args: seq<string>, i: nat): string
    requires i < |args|
  {
    if i == 0 then MaskElement(args[i]) else MaskAfter(args[i - 1], MaskElement(args[i]))
  }

  /** What the second pass makes of an element, given the raw element before it. */
  function MaskAfter(prev: string, e: string): string {
    match OptionName(prev)
    case None => e
    case Some(name) =>
      if IsHeaderKey(name) then MaskHeader(e)
      else if IsSecretKey(name) then PLACEHOLDER
      else e
  }

  function KeyMasked(args: seq<string>): (out: seq<string>)
    ensures |out| == |args|
    ensures forall i :: 0 <= i < |args| ==> out[i] == KeyMaskedAt(args, i)
  {
    seq(|args|, i requires 0 <= i < |args| => KeyMaskedAt(args, i))
  }

  method MaskEach(args: seq<string>) returns (out: array<string>)
    ensures fresh(out) && out.Length == |args| && forall k :: 0 <= k < |args| ==> out[k] == MaskElement(args[k])
  {
    hide MaskElement;
    out := new string[|args|](i requires 0 <= i < |args| => args[i]);
    for i := 0 to |args|
      invariant forall k :: 0 <= k < i ==> out[k] == MaskElement(args[k])
    {
      out[i] := MaskElement(args[i]);
    }
  }

  /** First pass: every element by its own content. Second pass: the element after an option name. */
  method ByKey(args: seq<string>) returns (out: array<string>)
    ensures fresh(out) && out[..] == KeyMasked(args)
  {
    hide OptionName, MaskElement, MaskAfter;
    out := MaskEach(args);
    for i := 0 to |args|
      invariant forall k :: 0 <= k <= i && k < |args| ==> out[k] == KeyMaskedAt(args, k)
      invariant forall k :: i < k < |args| ==> out[k] == MaskElement(args[k])
    {
      hide KeyMaskedAt;
      MaskNext(out, i, args[i]);
      if i + 1 < |args| {
        AfterIsMasked(args, i);
      }
    }
  }

  lemma AfterIsMasked(args: seq<string>, i: nat)
    requires i + 1 < |args|
    ensures KeyMaskedAt(args, i + 1) == MaskAfter(args[i], MaskElement(args[i + 1]))
  {
  }

  /** The element after position `i`, if there is one and the raw element at `i` is an option name. */
  method MaskNext(out: array<string>, i: nat, arg: string)
    requires i < out.Length
    modifies out
    ensures forall k :: 0 <= k < out.Length && k != i + 1 ==> out[k] == old(out[k])
    ensures i + 1 < out.Length ==> out[i + 1] == MaskAfter(arg, old(out[i + 1]))
  {
    hide IsSecretKey, IsHeaderKey, OptionName, MaskHeader;
    var name := OptionName(arg);
    if name.None? || i + 1 >= out.Length {
      return;
    }
    if IsHeaderKey(name.value) {
      out[i + 1] := MaskHeader(out[i + 1]);
    } else if IsSecretKey(name.value) {
      out[i + 1] := PLACEHOLDER;
    }
  }

  function EachMasked(args: seq<string>, secrets: seq<string>): (out: seq<string>)
    ensures |out| == |args|
    ensures forall i :: 0 <= i < |args| ==> out[i] == Masked(args[i], secrets)
  {
    seq(|args|, i requires 0 <= i < |args| => Masked(args[i], secrets))
  }

  /** Replaces every secret in every element, in place. */
  method ByValue(args: array<string>, secrets: seq<string>)
    modifies args
    ensures args[..] == EachMasked(old(args[..]), secrets)
  {
    for j := 0 to |secrets|
      invariant forall k :: 0 <= k < args.Length ==>
                  Masked(args[k], secrets[j..]) == Masked(old(args[k]), secrets)
    {
      if |secrets[j]| < MIN_SECRET_LEN {
        assert secrets[j..][1..] == secrets[j + 1..];
        continue;
      }
      ghost var before := args[..];
      for i := 0 to args.Length
        invariant forall k :: 0 <= k < i ==> args[k] == ReplaceAll(before[k], secrets[j])
        invariant forall k :: i <= k < args.Length ==> args[k] == before[k]
      {
        if HasSubstring(args[i], secrets[j]) {
          args[i] := ReplaceAll(args[i], secrets[j]);
        } else {
          NothingToReplace(args[i], secrets[j]);
        }
      }
      assert secrets[j..][1..] == secrets[j + 1..];
    }
  }

  /** The specification of `Args`: masking by key, then by value. */
  function ArgsMasked(args: seq<string>, secrets: seq<string>): seq<string> {
    EachMasked(KeyMasked(args), secrets)
  }

  method Args(args: seq<string>, secrets: seq<string>) returns (out: array<string>)
    ensures fresh(out) && out[..] == ArgsMasked(args, secrets)
  {
    out := ByKey(args);
    ByValue(out, secrets);
  }

  // ---- Masking by key is idempotent ----

  lemma CutParts(s: string, sep: char)
    ensures var p := Cut(s, sep); p.found ==> s == p.before + [sep] + p.after
  {
  }

  lemma CutSame(s: string, sep: char)
    requires sep !in s
    ensures Cut(s, sep) == Pieces(s, "", false)
  {
  }

  /** A masked header is masked again to itself. */
  lemma HeaderShape(name: string)
    requires ':' !in name
    ensures Cut(name + ": " + PLACEHOLDER, ':') == Pieces(name, " " + PLACEHOLDER, true)
  {
    CutAt(name, ':', " " + PLACEHOLDER);
    assert name + ": " + PLACEHOLDER == name + [':'] + (" " + PLACEHOLDER);
  }

  lemma HeaderStable(v: string)
    ensures MaskHeader(MaskHeader(v)) == MaskHeader(v)
  {
    HeaderShape(Cut(v, ':').before);
  }

  lemma InlineShape(key: string, val: string)
    requires '=' !in key
    ensures Cut(key + "=" + val, '=') == Pieces(key, val, true)
  {
    CutAt(key, '=', val);
  }

  lemma ElementStable(x: string)
    ensures MaskElement(MaskElement(x)) == MaskElement(x)
  {
    hide IsSecretKey, IsHeaderKey, MaskInline, MaskHeader;
    var p := Cut(x, '=');
    if !p.found || (':' in p.before && MaskHeader(x) != x) {
      HeaderReading(x);
    } else {
      InlineStable(x, p.before, p.after);
    }
  }

  /** Read as a header, the masked element holds no equals sign and is read as a header again. */
  lemma HeaderReading(x: string)
    requires var p := Cut(x, '='); p.found ==> ':' in p.before && MaskHeader(x) != x
    ensures MaskElement(MaskHeader(x)) == MaskHeader(x)
  {
    hide IsSecretKey, IsHeaderKey, MaskInline, MaskHeader;
    HeaderStable(x);
    if Cut(x, '=').found {
      ColonFirst(x);
    }
    MaskedHeaderKeepsName(x, '=');
    CutSame(MaskHeader(x), '=');
  }

  lemma MaskedHeaderKeepsName(x: string, c: char)
    requires c !in Cut(x, ':').before && c !in ": ***"
    requires c !in x || MaskHeader(x) != x
    ensures c !in MaskHeader(x)
  {
    hide IsSecretKey;
  }

  /** When a colon precedes the first equals sign, the header name holds no equals sign. */
  lemma ColonFirst(x: string)
    requires Cut(x, '=').found && ':' in Cut(x, '=').before
    ensures Cut(x, ':').found && '=' !in Cut(x, ':').before
  {
    CutTwice(x);
  }

  /** The name before a colon in the key does not depend on the value. */
  lemma ColonInKey(key: string, val: string)
    requires ':' in key && '=' !in key
    ensures var q := Cut(key + "=" + val, ':');
            q.found && q.before == Cut(key, ':').before && '=' in q.after
  {
    var q := Cut(key, ':');
    assert key + "=" + val == q.before + [':'] + (q.after + ['='] + val);
    CutAt(q.before, ':', q.after + ['='] + val);
  }

  /** A key with a colon whose header reading masks nothing has no secret name before the colon. */
  lemma ColonInKeyStable(key: string, val: string, val': string)
    requires ':' in key && '=' !in key
    requires MaskHeader(key + "=" + val) == key + "=" + val
    ensures MaskHeader(key + "=" + val') == key + "=" + val'
  {
    hide IsSecretKey, IsHeaderKey, Cut;
    var name := Cut(key, ':').before;
    ColonInKey(key, val);
    ColonInKey(key, val');
    HeaderShape(name);
    assert '=' !in " " + PLACEHOLDER;
    assert !IsSecretKey(name);
  }

  lemma InlineStable(x: string, key: string, val: string)
    requires '=' !in key && x == key + "=" + val
    requires ':' in key ==> MaskHeader(x) == x
    ensures MaskElement(MaskInline(key, val)) == MaskInline(key, val)
  {
    hide IsSecretKey, IsHeaderKey, MaskHeader;
    var val' := if IsHeaderKey(key) then MaskHeader(val) else if IsSecretKey(key) then PLACEHOLDER else val;
    InlineShape(key, val');
    HeaderStable(val);
    if ':' in key {
      ColonInKeyStable(key, val, val');
    }
  }

  /** Masking an element as a header after masking it by itself leaves nothing for a second round. */
  lemma HeaderOfElementStable(x: string)
    ensures MaskElement(MaskHeader(MaskElement(x))) == MaskHeader(MaskElement(x))
  {
    hide IsSecretKey, IsHeaderKey, MaskElement;
    var y := MaskElement(x);
    ElementStable(x);
    if MaskHeader(y) != y {
      StableElementAsHeader(y);
    }
  }

  lemma StableElementAsHeader(y: string)
    requires MaskElement(y) == y && MaskHeader(y) != y
    ensures MaskElement(MaskHeader(y)) == MaskHeader(y)
  {
    hide IsSecretKey, IsHeaderKey, MaskElement, MaskInline;
    var q := Cut(y, ':');
    if '=' in q.before {
      var p := Cut(q.before, '=');
      CutParts(y, ':');
      CutParts(q.before, '=');
      hide Cut;
      EqualsInName(p.before, p.after, q.after);
    } else {
      HeaderAlone(q.before);
    }
  }

  /** The header name itself reads `key=name`. */
  lemma EqualsInName(key: string, name: string, rest: string)
    requires '=' !in key && ':' !in key && ':' !in name && rest != " " + PLACEHOLDER
    requires var y := key + ['='] + name + [':'] + rest; MaskElement(y) == y
    ensures var z := key + ['='] + name + ": " + PLACEHOLDER; MaskElement(z) == z
  {
    hide IsSecretKey, IsHeaderKey, MaskElement, MaskInline;
    InlineElement(key, name + [':'] + rest);
    InlineElement(key, name + ": " + PLACEHOLDER);
    assert key + ['='] + name + [':'] + rest == key + "=" + (name + [':'] + rest);
    assert key + ['='] + name + ": " + PLACEHOLDER == key + "=" + (name + ": " + PLACEHOLDER);
    StableInline(key, name, rest);
  }

  /** Without a colon in the key the element is read as KEY=VALUE. */
  lemma InlineElement(key: string, val: string)
    requires '=' !in key && ':' !in key
    ensures MaskElement(key + "=" + val) == MaskInline(key, val)
  {
    hide IsSecretKey, IsHeaderKey, MaskInline, MaskHeader;
    InlineShape(key, val);
  }

  lemma HeaderAlone(name: string)
    requires ':' !in name && '=' !in name
    ensures MaskElement(name + ": " + PLACEHOLDER) == name + ": " + PLACEHOLDER
  {
    hide IsSecretKey, IsHeaderKey, MaskInline;
    HeaderShape(name);
    CutSame(name + ": " + PLACEHOLDER, '=');
  }

  lemma StableInline(key: string, name: string, rest: string)
    requires ':' !in name
    requires MaskInline(key, name + [':'] + rest) == key + "=" + (name + [':'] + rest)
    requires rest != " " + PLACEHOLDER
    ensures MaskInline(key, name + ": " + PLACEHOLDER) == key + "=" + (name + ": " + PLACEHOLDER)
  {
    hide IsSecretKey, IsHeaderKey;
    var val := name + [':'] + rest;
    CutAt(name, ':', rest);
    HeaderShape(name);
    assert (key + "=" + val)[|key| + 1..] == val;
    assert val[|name|] == ':' && val[|name| + 1..] == rest;
    assert (name + ": " + PLACEHOLDER)[|name| + 1..] == " " + PLACEHOLDER;
    assert (key + "=" + MaskHeader(val))[|key| + 1..] == MaskHeader(val);
    assert (key + "=" + PLACEHOLDER)[|key| + 1..] == PLACEHOLDER;
    assert ':' !in PLACEHOLDER && ':' in val;
  }

  lemma NotAName(x: string, i: nat)
    requires i < |x| && !IsNameChar(x[i])
    ensures OptionName(x).None?
  {
  }

  /** An element that masking changed is no option name. */
  lemma MaskedHeaderIsNoOption(x: string)
    requires MaskHeader(x) != x
    ensures OptionName(MaskHeader(x)).None?
  {
    hide IsSecretKey, IsHeaderKey, OptionName;
    NotAName(MaskHeader(x), |Cut(x, ':').before|);
  }

  lemma MaskedIsNoOption(x: string)
    ensures OptionName(MaskHeader(x)).Some? ==> MaskHeader(x) == x
    ensures OptionName(MaskElement(x)).Some? ==> MaskElement(x) == x
    ensures OptionName(PLACEHOLDER).None?
  {
    hide IsSecretKey, IsHeaderKey, MaskHeader, OptionName;
    var p := Cut(x, '=');
    if MaskHeader(x) != x {
      MaskedHeaderIsNoOption(x);
    }
    if p.found {
      InlineIsNoOption(p.before, p.after);
    }
    NotAName(PLACEHOLDER, 0);
  }

  lemma InlineIsNoOption(key: string, val: string)
    ensures OptionName(MaskInline(key, val)).None?
  {
    hide IsSecretKey, IsHeaderKey, MaskHeader, OptionName;
    NotAName(MaskInline(key, val), |key|);
  }

  /** An option name is left alone by itself. */
  lemma OptionUnmasked(x: string)
    requires OptionName(x).Some?
    ensures MaskElement(x) == x && MaskHeader(x) == x
    ensures '*' !in x && '=' !in x && ':' !in x
  {
    hide IsSecretKey, IsHeaderKey;
    assert !IsNameChar('*') && !IsNameChar('=') && !IsNameChar(':');
  }

  /** What masking by key leaves at one place is left alone by each of the maskings that may meet it. */
  lemma KeyMaskedAtStable(args: seq<string>, i: nat)
    requires i < |args|
    ensures MaskElement(KeyMaskedAt(args, i)) == KeyMaskedAt(args, i)
    ensures OptionName(KeyMaskedAt(args, i)).Some? ==> KeyMaskedAt(args, i) == args[i]
  {
    hide IsSecretKey, IsHeaderKey, MaskElement, MaskHeader, OptionName;
    ElementStable(args[i]);
    HeaderOfElementStable(args[i]);
    MaskedIsNoOption(args[i]);
    MaskedIsNoOption(MaskElement(args[i]));
    PlaceholderStable();
  }

  lemma PlaceholderStable()
    ensures MaskElement(PLACEHOLDER) == PLACEHOLDER
  {
    CutSame(PLACEHOLDER, '=');
    CutSame(PLACEHOLDER, ':');
  }

  /** A list every element of which is stable, by itself and after its neighbour, is left alone. */
  ghost predicate Settled(args: seq<string>) {
    && (forall i :: 0 <= i < |args| ==> MaskElement(args[i]) == args[i])
    && (forall i :: 0 < i < |args| ==> SettledAfter(args[i - 1], args[i]))
  }

  ghost predicate SettledAfter(prev: string, x: string) {
    match OptionName(prev)
    case None => true
    case Some(name) =>
      if IsHeaderKey(name) then MaskHeader(x) == x
      else IsSecretKey(name) ==> x == PLACEHOLDER
  }

  lemma SettledIsFixed(args: seq<string>)
    requires Settled(args)
    ensures KeyMasked(args) == args
  {
    hide IsSecretKey, IsHeaderKey, MaskElement, MaskHeader, OptionName;
    forall i | 0 <= i < |args|
      ensures KeyMaskedAt(args, i) == args[i]
    {
      assert i > 0 ==> SettledAfter(args[i - 1], args[i]);
    }
  }

  lemma KeyMaskedSettled(args: seq<string>)
    ensures Settled(KeyMasked(args))
  {
    hide IsSecretKey, IsHeaderKey, MaskElement, MaskHeader, OptionName;
    var out := KeyMasked(args);
    forall i | 0 <= i < |args|
      ensures MaskElement(out[i]) == out[i]
      ensures i > 0 ==> SettledAfter(out[i - 1], out[i])
    {
      KeyMaskedAtStable(args, i);
      if i > 0 {
        KeyMaskedAtStable(args, i - 1);
        HeaderStable(MaskElement(args[i]));
      }
    }
  }

  /** Masking by key twice is masking by key once, for every argument list. */
  lemma ByKeyIdempotent(args: seq<string>)
    ensures KeyMasked(KeyMasked(args)) == KeyMasked(args)
  {
    KeyMaskedSettled(args);
    SettledIsFixed(KeyMasked(args));
  }

  /** The value after a secret option never shows: any two values give the same masked list. */
  lemma SecretValueInvisible(args: seq<string>, i: nat, v: string)
    requires 0 < i < |args|
    requires var name := OptionName(args[i - 1]);
             name.Some? && IsSecretKey(name.value) && !IsHeaderKey(name.value)
    requires OptionName(args[i]) == OptionName(v)
    ensures KeyMasked(args[i := v]) == KeyMasked(args)
  {
    hide IsSecretKey, IsHeaderKey, MaskElement, MaskHeader, OptionName;
    var other := args[i := v];
    forall k | 0 <= k < |args|
      ensures KeyMaskedAt(other, k) == KeyMaskedAt(args, k)
    {
    }
  }

  // ---- Replacing values keeps a settled list settled ----

  /** The text in front of the first `=` or `:`. */
  function Lead(t: string): string {
    Cut(Cut(t, '=').before, ':').before
  }

  predicate HasSeparator(t: string) {
    '=' in t || ':' in t
  }

  /**
   No mark fits into the secret, and if it holds a separator, a word in front of the first one makes
   any name that ends there a secret one.
   */
  ghost predicate Harmless(t: string) {
    NoMarkFits(t) && (HasSeparator(t) ==> HasSecretWord(NormalizeKey(Lead(t))))
  }

  lemma {:induction false} ReplaceAddsOnlyStars(s: string, secret: string, c: char)
    requires secret != "" && c != '*' && c !in s
    ensures c !in ReplaceAll(s, secret)
    decreases |s|
  {
    if secret <= s {
      ReplaceAddsOnlyStars(s[|secret|..], secret, c);
    } else if s != "" {
      ReplaceAddsOnlyStars(s[1..], secret, c);
    }
  }

  /** What cutting at `sep` gives after the replacement when the first `sep` stays. */
  predicate CutCommutes(v: string, sep: char, t: string)
    requires t != ""
  {
    var p := Cut(v, sep);
    Cut(ReplaceAll(v, t), sep) ==
    if p.found then Pieces(ReplaceAll(p.before, t), ReplaceAll(p.after, t), true)
    else Pieces(ReplaceAll(v, t), "", false)
  }

  /** The first `sep` goes with a copy of the secret that is replaced at `k`. */
  predicate Swallows(v: string, sep: char, t: string, k: nat)
    requires t != ""
  {
    && OccursAt(v, t, k) && sep in t && sep !in v[..k]
    && ReplaceAll(v, t) == ReplaceAll(v[..k], t) + PLACEHOLDER + ReplaceAll(v[k + |t|..], t)
  }

  /** Cutting and replacing commute, unless the first separator is part of a copy of the secret. */
  lemma {:induction false} CutReplaced(v: string, sep: char, t: string)
    requires t != "" && sep != '*'
    ensures CutCommutes(v, sep, t) || exists k :: Swallows(v, sep, t, k)
    decreases |v|
  {
    hide CutCommutes, Swallows;
    if sep !in v {
      AbsentCommutes(v, sep, t);
    } else if t <= v {
      if sep in t {
        SwallowsAtStart(v, sep, t);
      } else {
        var rest := v[|t|..];
        assert v == t + rest;
        CutReplaced(rest, sep, t);
        if !CutCommutes(rest, sep, t) {
          var k :| Swallows(rest, sep, t, k);
          SwallowedIn(rest, sep, t, k);
          assert false;
        }
        AfterMark(rest, sep, t);
      }
    } else if v[0] == sep {
      SeparatorInFront(v, sep, t);
    } else {
      HeadAndTail(v);
      CutReplaced(v[1..], sep, t);
      AfterChar([v[0]], v[1..], sep, t);
    }
  }

  lemma AbsentCommutes(v: string, sep: char, t: string)
    requires t != "" && sep != '*' && sep !in v
    ensures CutCommutes(v, sep, t)
  {
    ReplaceAddsOnlyStars(v, t, sep);
    CutSame(ReplaceAll(v, t), sep);
    CutSame(v, sep);
  }

  lemma SwallowsAtStart(v: string, sep: char, t: string)
    requires t != "" && t <= v && sep in t
    ensures Swallows(v, sep, t, 0)
  {
    assert v[0..] == v && v[..0] == "";
    assert ReplaceAll("", t) == "";
    assert ReplaceAll(v, t) == "" + PLACEHOLDER + ReplaceAll(v[|t|..], t);
  }

  lemma SeparatorInFront(v: string, sep: char, t: string)
    requires t != "" && v != "" && v[0] == sep && !(t <= v)
    ensures CutCommutes(v, sep, t)
  {
    assert v == "" + [sep] + v[1..];
    CutAt("", sep, v[1..]);
    assert ReplaceAll(v, t) == "" + [sep] + ReplaceAll(v[1..], t);
    CutAt("", sep, ReplaceAll(v[1..], t));
  }

  lemma {:induction false} CutBehind(a: string, v: string, sep: char)
    requires sep !in a && sep in v
    ensures var p := Cut(v, sep); Cut(a + v, sep) == Pieces(a + p.before, p.after, true)
  {
    var p := Cut(v, sep);
    assert a + v == (a + p.before) + [sep] + p.after;
    CutAt(a + p.before, sep, p.after);
  }

  lemma SwallowedIn(v: string, sep: char, t: string, k: nat)
    requires t != "" && Swallows(v, sep, t, k)
    ensures sep in t
  {
  }

  /** The step over a copy of the secret that holds no separator. */
  lemma AfterMark(rest: string, sep: char, t: string)
    requires t != "" && sep != '*' && sep !in t && sep in rest && CutCommutes(rest, sep, t)
    ensures CutCommutes(t + rest, sep, t)
  {
    SecretInFront(t, rest);
    SecretInFront(t, Cut(rest, sep).before);
    FoundReplaced(rest, sep, t);
    CutsBehind(t, PLACEHOLDER, rest, ReplaceAll(rest, t), sep);
  }

  lemma CutsBehind(a: string, b: string, v: string, w: string, sep: char)
    requires sep !in a && sep !in b && sep in v && sep in w
    ensures Cut(a + v, sep) == Pieces(a + Cut(v, sep).before, Cut(v, sep).after, true)
    ensures Cut(b + w, sep) == Pieces(b + Cut(w, sep).before, Cut(w, sep).after, true)
    ensures Cut(v, sep).found && Cut(w, sep).found
  {
    CutBehind(a, v, sep);
    CutBehind(b, w, sep);
  }

  lemma FoundReplaced(v: string, sep: char, t: string)
    requires t != "" && CutCommutes(v, sep, t) && sep in v
    ensures sep in ReplaceAll(v, t)
  {
    assert Cut(ReplaceAll(v, t), sep).found;
  }

  /** The step over one other character. */
  lemma AfterChar(c: string, rest: string, sep: char, t: string)
    requires t != "" && |c| == 1 && !(t <= c + rest) && sep !in c && sep in rest
    requires CutCommutes(rest, sep, t) || exists k :: Swallows(rest, sep, t, k)
    ensures CutCommutes(c + rest, sep, t) || exists k :: Swallows(c + rest, sep, t, k)
  {
    hide CutCommutes, Swallows;
    if CutCommutes(rest, sep, t) {
      AfterCharCommutes(c, rest, sep, t);
    } else {
      var k :| Swallows(rest, sep, t, k);
      AfterCharSwallows(c, rest, sep, t, k);
    }
  }

  lemma AfterCharCommutes(c: string, rest: string, sep: char, t: string)
    requires t != "" && |c| == 1 && !(t <= c + rest) && sep !in c && sep in rest && CutCommutes(rest, sep, t)
    ensures CutCommutes(c + rest, sep, t)
  {
    var p := Cut(rest, sep);
    ReplaceBehindChar(c, rest, t, rest);
    ReplaceBehindChar(c, rest, t, p.before);
    hide ReplaceAll;
    FoundReplaced(rest, sep, t);
    CutBehind(c, rest, sep);
    CutBehind(c, ReplaceAll(rest, t), sep);
  }

  /** Replacing in the first characters of a text that the secret does not start. */
  lemma ReplaceBehindChar(c: string, rest: string, t: string, front: string)
    requires t != "" && |c| == 1 && !(t <= c + rest) && front <= rest
    ensures ReplaceAll(c + front, t) == c + ReplaceAll(front, t)
  {
    DropBehind(c, front, 1);
    if t <= c + front {
      PrefixOfPrefix(t, c + front, c + rest);
    }
  }

  lemma AfterCharSwallows(c: string, rest: string, sep: char, t: string, k: nat)
    requires t != "" && |c| == 1 && !(t <= c + rest) && sep !in c && Swallows(rest, sep, t, k)
    ensures Swallows(c + rest, sep, t, 1 + k)
  {
    OccursFurther(c, rest, t, k);
    OccursIndex(rest, t, k, 0);
    ReplaceBehindChar(c, rest, t, rest);
    ReplaceBehindChar(c, rest, t, rest[..k]);
    hide ReplaceAll, OccursAt;
    TakeBehind(c, rest, 1 + k);
    DropBehind(c, rest, 1 + k + |t|);
    Regroup(c, ReplaceAll(rest[..k], t), ReplaceAll(rest[k + |t|..], t));
  }

  lemma Regroup(x: string, a: string, b: string)
    ensures x + (a + PLACEHOLDER + b) == (x + a) + PLACEHOLDER + b
  {
  }

  lemma PlaceholderHasStar(rest: string)
    ensures '*' in PLACEHOLDER + rest
  {
    assert (PLACEHOLDER + rest)[0] == '*';
  }

  lemma {:induction false} StarFreeUnreplaced(s: string, secret: string)
    requires secret != "" && '*' !in ReplaceAll(s, secret)
    ensures ReplaceAll(s, secret) == s
    decreases |s|
  {
    if secret <= s {
      PlaceholderHasStar(ReplaceAll(s[|secret|..], secret));
      assert false;
    } else if s != "" {
      assert ReplaceAll(s, secret)[1..] == ReplaceAll(s[1..], secret);
      StarFreeUnreplaced(s[1..], secret);
    }
  }

  /** A star-free word of a normalised name stands in the name itself, past the leading hyphens. */
  lemma WordInKey(k: string, secret: string, w: string)
    requires secret != "" && w != "" && '*' !in w && w[0] != '-'
    requires Contains(NormalizeKey(ReplaceAll(k, secret)), w)
    ensures Contains(NormalizeKey(k), w)
  {
    var u, at := RawWord(ReplaceAll(k, secret), w);
    StarFreeFits(u);
    NothingRecreated(k, secret, u, at);
    var p :| OccursAt(k, u, p);
    LowerOccurrence(k, u, w, p);
  }

  /** The text a word of a normalised name comes from. */
  lemma RawWord(r: string, w: string) returns (u: string, at: nat)
    requires w != "" && '*' !in w
    requires Contains(NormalizeKey(r), w)
    ensures OccursAt(r, u, at) && |u| == |w| && '*' !in u
    ensures forall i :: 0 <= i < |w| ==> w[i] == LowerChar(u[i])
  {
    hide OccursAt, TrimLeft, ToLower;
    var name := TrimLeft(r, {'-'});
    var j :| OccursAt(ToLower(name), w, j);
    OccursBounds(ToLower(name), w, j);
    u := OccursLowered(name, w, j);
    hide NormalizeKey, Contains;
    at := |r| - |name| + j;
    TrimLeftEnd(r, {'-'});
    OccursInRest(r, |r| - |name|, u, j);
  }

  lemma OccursLowered(name: string, w: string, j: nat) returns (u: string)
    requires OccursAt(ToLower(name), w, j) && '*' !in w
    ensures OccursAt(name, u, j) && |u| == |w| && '*' !in u
    ensures forall i :: 0 <= i < |w| ==> w[i] == LowerChar(u[i])
  {
    assert j + |w| <= |name|;
    u := name[j..j + |w|];
    forall i | 0 <= i < |w|
      ensures w[i] == LowerChar(u[i]) && u[i] != '*' && name[j + i] == u[i]
    {
      OccursIndex(ToLower(name), w, j, i);
      assert w[i] != '*';
    }
    OccursIf(name, u, j);
  }

  lemma LowerOccurrence(k: string, u: string, w: string, p: nat)
    requires OccursAt(k, u, p) && |u| == |w| > 0 && w[0] != '-'
    requires forall i :: 0 <= i < |w| ==> w[i] == LowerChar(u[i])
    ensures Contains(NormalizeKey(k), w)
  {
    var name := TrimLeft(k, {'-'});
    var skipped := |k| - |name|;
    TrimLeftEnd(k, {'-'});
    assert k[p] == u[0] != '-';
    assert p >= skipped;
    var lower := ToLower(name);
    assert forall i :: 0 <= i < |w| ==> lower[p - skipped..][i] == w[i];
    assert OccursAt(lower, w, p - skipped);
  }

  /** Replacement never makes a name a secret or a header one. */
  lemma KeyReplaced(k: string, secret: string)
    requires secret != ""
    ensures IsSecretKey(ReplaceAll(k, secret)) ==> IsSecretKey(k)
    ensures IsHeaderKey(ReplaceAll(k, secret)) ==> ReplaceAll(k, secret) == k
  {
    hide NormalizeKey, IsExactKey, HasSecretWord;
    var r := ReplaceAll(k, secret);
    if '*' !in NormalizeKey(r) {
      NormalizedStars(r);
      StarFreeUnreplaced(k, secret);
    } else {
      NamesAreStarFree(NormalizeKey(r));
      if HasSecretWord(NormalizeKey(r)) {
        SecretWordReplaced(k, secret);
      }
    }
  }

  lemma SecretWordReplaced(k: string, secret: string)
    requires secret != "" && HasSecretWord(NormalizeKey(ReplaceAll(k, secret)))
    ensures HasSecretWord(NormalizeKey(k))
  {
    hide NormalizeKey, Contains;
    var i :| 0 <= i < |SECRET_SUBSTRINGS| && HasSubstring(NormalizeKey(ReplaceAll(k, secret)), SECRET_SUBSTRINGS[i]);
    WordInKey(k, secret, SECRET_SUBSTRINGS[i]);
    assert HasSubstring(NormalizeKey(k), SECRET_SUBSTRINGS[i]);
  }

  lemma NormalizedStars(r: string)
    requires '*' !in NormalizeKey(r)
    ensures '*' !in r
  {
    var name := TrimLeft(r, {'-'});
    LoweredStars(name);
    StarsTrimmed(r, {'-'});
  }

  lemma {:induction false} StarsTrimmed(r: string, cut: set<char>)
    requires '*' !in cut && '*' !in TrimLeft(r, cut)
    ensures '*' !in r
  {
    if r != "" && r[0] in cut {
      StarsTrimmed(r[1..], cut);
      HeadAndTail(r);
    }
  }

  lemma LoweredStars(name: string)
    requires '*' !in ToLower(name)
    ensures '*' !in name
  {
    forall i | 0 <= i < |name|
      ensures name[i] != '*'
    {
      assert ToLower(name)[i] == LowerChar(name[i]);
    }
  }

  lemma NamesAreStarFree(key: string)
    requires '*' in key
    ensures !IsExactKey(key) && key !in HEADER_KEYS
  {
  }

  /** No name is both a header name and a secret one. */
  lemma HeaderKeyIsNoSecretKey(k: string)
    requires IsHeaderKey(k)
    ensures !IsSecretKey(k)
  {
    hide NormalizeKey;
    var key := NormalizeKey(k);
    assert |key| <= 6 && key[0] == 'h';
    forall i | 0 <= i < |SECRET_SUBSTRINGS|
      ensures !HasSubstring(key, SECRET_SUBSTRINGS[i])
    {
      TooLong(key, SECRET_SUBSTRINGS[i]);
    }
  }

  lemma TooLong(key: string, w: string)
    requires key != "" && key[0] == 'h' && |key| <= |w| && w[0] != 'h'
    ensures !HasSubstring(key, w)
  {
  }

  // ---- The whole of Args is idempotent for harmless secrets ----

  /** A name whose end is that of a swallowed separator's name is secret. */
  lemma SwallowedIsSecret(v: string, sep: char, t: string, k: nat)
    requires t != "" && (sep == '=' || sep == ':') && Swallows(v, sep, t, k)
    requires HasSecretWord(NormalizeKey(Lead(t)))
    ensures var p := Cut(v, sep);
            && p.found && |p.before| < k + |t| <= |v| && IsSecretKey(p.before)
  {
    hide IsExactKey, NormalizeKey, HasSubstring, ReplaceAll;
    var w := Cut(t, sep);
    SwallowedName(v, sep, t, k);
    LeadInFront(t, sep);
    var i :| 0 <= i < |SECRET_SUBSTRINGS| && HasSubstring(NormalizeKey(Lead(t)), SECRET_SUBSTRINGS[i]);
    WordCarries(Lead(t), v[..k] + w.before, k, SECRET_SUBSTRINGS[i]);
  }

  lemma SwallowedName(v: string, sep: char, t: string, k: nat)
    requires t != "" && Swallows(v, sep, t, k)
    ensures var w := Cut(t, sep);
            k + |t| <= |v| && Cut(v, sep) == Pieces(v[..k] + w.before, w.after + v[k + |t|..], true)
  {
    hide ReplaceAll;
    var w := Cut(t, sep);
    var a, b := v[..k], v[k + |t|..];
    OccursIndex(v, t, k, 0);
    OccursSplits(v, t, k);
    assert w.found;
    hide Cut, OccursAt, Swallows;
    JoinPieces(a, w.before, [sep], w.after, b);
    CutAt(a + w.before, sep, w.after + b);
  }

  lemma OccursSplits(v: string, t: string, k: nat)
    requires OccursAt(v, t, k) && k + |t| <= |v|
    ensures v == v[..k] + t + v[k + |t|..]
  {
    DropTake(v, k, |t|);
    assert v[k..][..|t|] == t;
  }

  lemma JoinPieces(a: string, b: string, c: string, d: string, e: string)
    ensures a + (b + c + d) + e == (a + b) + c + (d + e)
  {
  }

  /** The text in front of the first separator starts the text in front of either separator. */
  lemma LeadInFront(t: string, sep: char)
    requires (sep == '=' || sep == ':') && sep in t
    ensures Lead(t) <= Cut(t, sep).before
  {
    var p := Cut(t, '=');
    var q := Cut(p.before, ':');
    if sep == ':' && p.found {
      if q.found {
        CutTwice(t);
      } else {
        ColonBehind(p.before, p.after);
      }
    }
  }

  /** A colon in front of the first equals sign is the first colon. */
  lemma CutTwice(t: string)
    requires Cut(t, '=').found && ':' in Cut(t, '=').before
    ensures var p := Cut(t, '='); var q := Cut(p.before, ':');
            Cut(t, ':') == Pieces(q.before, q.after + (['='] + p.after), true)
  {
    var p := Cut(t, '=');
    var q := Cut(p.before, ':');
    hide Cut;
    JoinPieces("", q.before, [':'], q.after, ['='] + p.after);
    assert t == p.before + (['='] + p.after);
    assert "" + p.before == p.before && "" + q.before == q.before;
    CutAt(q.before, ':', q.after + (['='] + p.after));
  }

  lemma ColonBehind(a: string, b: string)
    requires ':' !in a && ':' in a + ['='] + b
    ensures a <= Cut(a + ['='] + b, ':').before
  {
    var rest := ['='] + b;
    assert a + ['='] + b == a + rest;
    CutBehind(a, rest, ':');
  }

  /** A word of a normalised name is a word of every name that continues it in front or behind. */
  lemma WordCarries(lead: string, name: string, k: nat, w: string)
    requires k + |lead| <= |name| && lead <= name[k..]
    requires w in SECRET_SUBSTRINGS && HasSubstring(NormalizeKey(lead), w)
    ensures HasSubstring(NormalizeKey(name), w)
  {
    hide NormalizeKey;
    WordsArePlain(w);
    var u, at := RawWord(lead, w);
    forall i | 0 <= i < |u|
      ensures name[k + at + i] == u[i]
    {
      OccursIndex(lead, u, at, i);
      assert name[k..][at + i] == lead[at + i];
    }
    OccursIndex(lead, u, at, 0);
    OccursIf(name, u, k + at);
    LowerOccurrence(name, u, w, k + at);
  }

  lemma WordsArePlain(w: string)
    requires w in SECRET_SUBSTRINGS
    ensures |w| >= 6 && '*' !in w && w[0] in {'a', 'b'}
  {
  }

  lemma HeaderReplaced(v: string, secret: string)
    requires |secret| >= MIN_SECRET_LEN && Harmless(secret) && MaskHeader(v) == v
    ensures MaskHeader(ReplaceAll(v, secret)) == ReplaceAll(v, secret)
  {
    hide IsSecretKey, IsHeaderKey, ReplaceAll, NoMarkFits, Swallows, CutCommutes, Lead, HasSecretWord, NormalizeKey;
    CutReplaced(v, ':', secret);
    if CutCommutes(v, ':', secret) {
      HeaderCommutes(v, secret);
    } else {
      var k :| Swallows(v, ':', secret, k);
      SwallowedSeparator(v, ':', secret, k);
      SwallowedIsSecret(v, ':', secret, k);
      SecretHeaderRest(v);
      SwallowedForGood(v, ':', secret, k);
      CutSame(ReplaceAll(v, secret), ':');
    }
  }

  lemma SwallowedSeparator(v: string, sep: char, t: string, k: nat)
    requires t != "" && (sep == '=' || sep == ':') && Swallows(v, sep, t, k)
    ensures HasSeparator(t)
  {
    hide ReplaceAll;
  }

  lemma SecretHeaderRest(v: string)
    requires MaskHeader(v) == v && Cut(v, ':').found && IsSecretKey(Cut(v, ':').before)
    ensures Cut(v, ':').after == " " + PLACEHOLDER
  {
    hide IsSecretKey;
    var p := Cut(v, ':');
    HeaderShape(p.before);
  }

  /** When nothing behind the swallowed separator is another one, none is left. */
  lemma SwallowedForGood(v: string, sep: char, t: string, k: nat)
    requires t != "" && sep != '*' && Swallows(v, sep, t, k)
    requires var p := Cut(v, sep); p.found && |p.before| < k + |t| <= |v| && sep !in p.after
    ensures sep !in ReplaceAll(v, t)
  {
    hide ReplaceAll;
    var p := Cut(v, sep);
    var rest := v[k + |t|..];
    assert forall i :: 0 <= i < |rest| ==> rest[i] == p.after[k + |t| - |p.before| - 1 + i];
    ReplaceAddsOnlyStars(v[..k], t, sep);
    ReplaceAddsOnlyStars(rest, t, sep);
  }

  lemma HeaderCommutes(v: string, secret: string)
    requires |secret| >= MIN_SECRET_LEN && MaskHeader(v) == v && CutCommutes(v, ':', secret)
    ensures MaskHeader(ReplaceAll(v, secret)) == ReplaceAll(v, secret)
  {
    hide IsSecretKey, IsHeaderKey, ReplaceAll;
    var p := Cut(v, ':');
    if p.found {
      KeyReplaced(p.before, secret);
      if IsSecretKey(p.before) {
        SecretHeaderRest(v);
        ShortUnreplaced(" " + PLACEHOLDER, secret);
        HeaderShape(ReplaceAll(p.before, secret));
        CutParts(ReplaceAll(v, secret), ':');
      }
    }
  }

  lemma InlineReplaced(key: string, val: string, secret: string)
    requires |secret| >= MIN_SECRET_LEN && Harmless(secret) && MaskInline(key, val) == key + "=" + val
    ensures MaskInline(ReplaceAll(key, secret), ReplaceAll(val, secret)) ==
            ReplaceAll(key, secret) + "=" + ReplaceAll(val, secret)
  {
    hide IsSecretKey, IsHeaderKey, MaskHeader, Harmless;
    KeyReplaced(key, secret);
    assert (key + "=" + val)[|key| + 1..] == val;
    assert (key + "=" + PLACEHOLDER)[|key| + 1..] == PLACEHOLDER;
    assert (key + "=" + MaskHeader(val))[|key| + 1..] == MaskHeader(val);
    if IsHeaderKey(ReplaceAll(key, secret)) {
      HeaderReplaced(val, secret);
    } else if IsSecretKey(ReplaceAll(key, secret)) {
      if IsHeaderKey(key) {
        HeaderKeyIsNoSecretKey(key);
      }
      ShortUnreplaced(PLACEHOLDER, secret);
    }
  }

  lemma ElementReplaced(v: string, secret: string)
    requires |secret| >= MIN_SECRET_LEN && Harmless(secret) && MaskElement(v) == v
    ensures MaskElement(ReplaceAll(v, secret)) == ReplaceAll(v, secret)
  {
    hide IsSecretKey, IsHeaderKey, MaskHeader, MaskElement, MaskInline, ReplaceAll, Swallows, CutCommutes, NoMarkFits,
      Lead, HasSecretWord, NormalizeKey;
    CutReplaced(v, '=', secret);
    if CutCommutes(v, '=', secret) {
      ElementCommutes(v, secret);
    } else {
      var k :| Swallows(v, '=', secret, k);
      SwallowedSeparator(v, '=', secret, k);
      SwallowedIsSecret(v, '=', secret, k);
      SecretInlineRest(v);
      SwallowedForGood(v, '=', secret, k);
      HeaderReplaced(v, secret);
      NoEquals(ReplaceAll(v, secret));
    }
  }

  lemma NoEquals(v: string)
    requires '=' !in v
    ensures MaskElement(v) == MaskHeader(v)
  {
    hide MaskHeader;
  }

  /** A stable element with a secret name has its value masked, and is stable as a header too. */
  lemma SecretInlineRest(v: string)
    requires MaskElement(v) == v && Cut(v, '=').found && IsSecretKey(Cut(v, '=').before)
    ensures Cut(v, '=').after == PLACEHOLDER && MaskHeader(v) == v
  {
    hide IsSecretKey, IsHeaderKey;
    var p := Cut(v, '=');
    if IsHeaderKey(p.before) {
      HeaderKeyIsNoSecretKey(p.before);
    }
    InlineShape(p.before, PLACEHOLDER);
    if ':' !in p.before {
      assert ':' !in v;
    }
  }

  lemma ElementCommutes(v: string, secret: string)
    requires |secret| >= MIN_SECRET_LEN && Harmless(secret) && MaskElement(v) == v && CutCommutes(v, '=', secret)
    ensures MaskElement(ReplaceAll(v, secret)) == ReplaceAll(v, secret)
  {
    hide IsSecretKey, IsHeaderKey, MaskHeader, MaskInline, ReplaceAll, Harmless;
    var p := Cut(v, '=');
    if MaskHeader(v) == v {
      HeaderReplaced(v, secret);
    }
    if p.found {
      if ':' !in p.before {
        ReplaceAddsOnlyStars(p.before, secret, ':');
      }
      InlineReplaced(p.before, p.after, secret);
    }
  }

  lemma {:induction false} SettledMasked(v: string, secrets: seq<string>)
    requires forall t :: t in secrets && |t| >= MIN_SECRET_LEN ==> Harmless(t)
    ensures MaskElement(v) == v ==> MaskElement(Masked(v, secrets)) == Masked(v, secrets)
    ensures MaskHeader(v) == v ==> MaskHeader(Masked(v, secrets)) == Masked(v, secrets)
    ensures v == PLACEHOLDER ==> Masked(v, secrets) == PLACEHOLDER
    ensures '*' !in Masked(v, secrets) ==> Masked(v, secrets) == v
    decreases |secrets|
  {
    hide MaskElement, MaskHeader, Harmless;
    if secrets != [] {
      var secret := secrets[0];
      if |secret| >= MIN_SECRET_LEN {
        var r := ReplaceAll(v, secret);
        assert Harmless(secret);
        SettledMasked(r, secrets[1..]);
        if MaskElement(v) == v { ElementReplaced(v, secret); }
        if MaskHeader(v) == v { HeaderReplaced(v, secret); }
        if v == PLACEHOLDER { ShortUnreplaced(v, secret); }
        if '*' !in r { StarFreeUnreplaced(v, secret); }
      } else {
        SettledMasked(v, secrets[1..]);
      }
    }
  }

  lemma ArgsMaskedSettled(args: seq<string>, secrets: seq<string>)
    requires forall t :: t in secrets && |t| >= MIN_SECRET_LEN ==> Harmless(t)
    ensures Settled(ArgsMasked(args, secrets))
  {
    hide MaskElement, MaskHeader, OptionName, Masked, Harmless;
    var k := KeyMasked(args);
    var out := ArgsMasked(args, secrets);
    KeyMaskedSettled(args);
    forall i | 0 <= i < |args|
      ensures MaskElement(out[i]) == out[i]
      ensures i > 0 ==> SettledAfter(out[i - 1], out[i])
    {
      SettledMasked(k[i], secrets);
      if i > 0 {
        SettledMasked(k[i - 1], secrets);
        assert SettledAfter(k[i - 1], k[i]);
        if OptionName(out[i - 1]).Some? {
          OptionUnmasked(out[i - 1]);
        }
      }
    }
  }

  /** Masking twice is masking once, for every argument list and all harmless secrets. */
  lemma ArgsIdempotent(args: seq<string>, secrets: seq<string>)
    requires forall t :: t in secrets && |t| >= 8 ==> Harmless(t)
    ensures ArgsMasked(ArgsMasked(args, secrets), secrets) == ArgsMasked(args, secrets)
  {
    hide Settled, Masked, NoMarkFits, HasSeparator, HasSecretWord;
    var out := ArgsMasked(args, secrets);
    ArgsMaskedSettled(args, secrets);
    SettledIsFixed(out);
    forall i | 0 <= i < |out|
      ensures Masked(out[i], secrets) == out[i]
    {
      forall t | t in secrets && |t| >= MIN_SECRET_LEN
        ensures !Contains(out[i], t)
      {
        assert Harmless(t);
        NoSecretSurvives(KeyMasked(args)[i], secrets, t);
      }
      NothingToMask(out[i], secrets);
    }
  }

  /** No masked argument contains a long enough secret that no mark fits into. */
  lemma NoSecretInArgs(args: seq<string>, secrets: seq<string>, i: nat, t: string)
    requires i < |args| && t in secrets && |t| >= 8 && NoMarkFits(t)
    ensures !Contains(ArgsMasked(args, secrets)[i], t)
  {
    hide NoMarkFits;
    NoSecretSurvives(KeyMasked(args)[i], secrets, t);
  }

  // ---- Secrets that are not harmless ----

  ghost predicate Idempotent(secrets: seq<string>) {
    forall args: seq<string> :: ArgsMasked(ArgsMasked(args, secrets), secrets) == ArgsMasked(args, secrets)
  }

  /** Masking is idempotent with a long enough secret, for all argument lists, exactly when the secret is harmless. */
  lemma IdempotentIff(t: string)
    requires |t| >= 8
    ensures Idempotent([t]) <==> Harmless(t)
  {
    hide Masked, ArgsMasked, NoMarkFits, HasSecretWord, NormalizeKey, HasSeparator, Lead;
    if Harmless(t) {
      forall args: seq<string>
        ensures ArgsMasked(ArgsMasked(args, [t]), [t]) == ArgsMasked(args, [t])
      {
        ArgsIdempotent(args, [t]);
      }
    } else if HasSeparator(t) && !HasSecretWord(NormalizeKey(Lead(t))) {
      var x := SeparatorBreaks(t);
      assert !Idempotent([t]);
    } else {
      var x := LeakBreaks(t);
      assert !Idempotent([t]);
    }
  }

  /** A one-element list. */
  lemma OneArg(x: string, t: string)
    requires |t| >= MIN_SECRET_LEN
    ensures ArgsMasked([x], [t]) == [ReplaceAll(MaskElement(x), t)]
  {
    hide ReplaceAll, Masked, MaskElement;
    MaskedOnce(MaskElement(x), t);
  }

  /** A character that is neither the first one of `t` nor of any name that is masked. */
  function Pad(t: string): (c: char)
    ensures (c == '0' || c == '1') && (t != "" ==> c != t[0])
  {
    if "0" <= t then '1' else '0'
  }

  lemma PaddedName(c: char, u: string)
    requires (c == '0' || c == '1') && !HasSecretWord(NormalizeKey(u))
    ensures !IsSecretKey([c] + u) && !IsHeaderKey([c] + u)
  {
    hide NormalizeKey;
    var name := [c] + u;
    PaddedKey(c, u);
    var key := NormalizeKey(name);
    NotAKey(key, c);
    forall i | 0 <= i < |SECRET_SUBSTRINGS|
      ensures !HasSubstring(key, SECRET_SUBSTRINGS[i])
    {
      assert !HasSubstring(NormalizeKey(u), SECRET_SUBSTRINGS[i]);
      if HasSubstring(key, SECRET_SUBSTRINGS[i]) {
        WordBehindPad(c, u, SECRET_SUBSTRINGS[i]);
      }
    }
  }

  lemma PaddedKey(c: char, u: string)
    requires c == '0' || c == '1'
    ensures NormalizeKey([c] + u) != "" && NormalizeKey([c] + u)[0] == c
  {
  }

  lemma NotAKey(key: string, c: char)
    requires key != "" && key[0] == c && (c == '0' || c == '1')
    ensures !IsExactKey(key) && key !in HEADER_KEYS
  {
  }

  lemma WordBehindPad(c: char, u: string, w: string)
    requires (c == '0' || c == '1') && w in SECRET_SUBSTRINGS && HasSubstring(NormalizeKey([c] + u), w)
    ensures HasSubstring(NormalizeKey(u), w)
  {
    hide NormalizeKey;
    var name := [c] + u;
    WordsArePlain(w);
    var r, at := RawWord(name, w);
    OccursIndex(name, r, at, 0);
    assert name[0] == c && LowerChar(c) == c;
    assert at > 0;
    forall i | 0 <= i < |r|
      ensures u[at - 1 + i] == r[i]
    {
      OccursIndex(name, r, at, i);
    }
    OccursIf(u, r, at - 1);
    LowerOccurrence(u, r, w, at - 1);
  }

  /** Short names hold no secret word. */
  lemma ShortNameHasNoWord(u: string)
    requires |u| < 6
    ensures !HasSecretWord(NormalizeKey(u))
  {
    hide HasSubstring;
    var key := NormalizeKey(u);
    forall i | 0 <= i < |SECRET_SUBSTRINGS|
      ensures !HasSubstring(key, SECRET_SUBSTRINGS[i])
    {
      WordsArePlain(SECRET_SUBSTRINGS[i]);
      TooShort(key, SECRET_SUBSTRINGS[i]);
    }
  }

  lemma TooShort(s: string, t: string)
    requires |s| < |t|
    ensures !HasSubstring(s, t)
  {
  }

  /** The value of a name that is neither secret nor that of a header stays as it is. */
  lemma PlainInline(name: string, val: string)
    requires '=' !in name && ':' !in name && !IsSecretKey(name) && !IsHeaderKey(name)
    ensures MaskElement(name + "=" + val) == name + "=" + val
  {
    hide MaskHeader, IsSecretKey, IsHeaderKey;
    InlineShape(name, val);
  }

  lemma PadIsPlain(c: char)
    requires c == '0' || c == '1'
    ensures !IsSecretKey([c]) && !IsHeaderKey([c])
  {
    hide IsSecretKey, IsHeaderKey, HasSecretWord, NormalizeKey;
    ShortNameHasNoWord("");
    PaddedName(c, "");
    assert [c] + "" == [c];
  }

  /** Masked once, the element still holds the secret, so that masking again shortens it. */
  lemma LeakBreaks(t: string) returns (x: string)
    requires |t| >= MIN_SECRET_LEN && !NoMarkFits(t)
    requires HasSeparator(t) ==> HasSecretWord(NormalizeKey(Lead(t)))
    ensures ArgsMasked(ArgsMasked([x], [t]), [t]) != ArgsMasked([x], [t])
  {
    hide NoMarkFits, ArgsMasked, MaskElement, Contains, HasSecretWord, NormalizeKey, ReplaceAll, IsSecretKey,
      IsHeaderKey;
    var s := MarkBreaks(t);
    var c := Pad(t);
    x := [c] + "=" + s;
    var y := [c] + "=" + ReplaceAll(s, t);
    PadIsPlain(c);
    PlainInline([c], s);
    PlainInline([c], ReplaceAll(s, t));
    NoEqualsInFront(t);
    ReplaceBehind(c, s, t);
    OneArg(x, t);
    OneArg(y, t);
    assert y[2..] == ReplaceAll(s, t);
    ContainsInRest(y, 2, t);
    Shrinks(y, t);
  }

  lemma NoEqualsInFront(t: string)
    requires t != "" && (HasSeparator(t) ==> HasSecretWord(NormalizeKey(Lead(t))))
    ensures t[0] != '='
  {
    hide HasSecretWord, NormalizeKey;
    if t[0] == '=' {
      assert t == "" + ['='] + t[1..];
      CutAt("", '=', t[1..]);
      CutSame("", ':');
      ShortNameHasNoWord("");
    }
  }

  lemma ReplaceBehind(c: char, s: string, t: string)
    requires t != "" && t[0] != c && t[0] != '='
    ensures ReplaceAll([c] + "=" + s, t) == [c] + "=" + ReplaceAll(s, t)
  {
    var x := [c] + "=" + s;
    assert x[1..] == "=" + s && x[1..][1..] == s;
    assert ReplaceAll(x[1..], t) == "=" + ReplaceAll(s, t);
  }

  lemma {:induction false} Shrinks(s: string, t: string)
    requires |t| >= MIN_SECRET_LEN
    ensures |ReplaceAll(s, t)| <= |s| && (Contains(s, t) ==> |ReplaceAll(s, t)| < |s|)
    decreases |s|
  {
    if t <= s {
      Shrinks(s[|t|..], t);
    } else if s != "" {
      Shrinks(s[1..], t);
      if Contains(s, t) {
        var k :| OccursAt(s, t, k);
        assert s[0..] == s;
        assert s[k..] == s[1..][k - 1..];
        assert OccursAt(s[1..], t, k - 1);
      }
    }
  }

  const BEARER := "bearer:"

  /**
   A secret with a separator and no secret word in front of it: the element around it is left alone by
   name, and the mark that replaces the secret leaves a header that is masked the next time.
   */
  lemma SeparatorBreaks(t: string) returns (x: string)
    requires |t| >= MIN_SECRET_LEN && HasSeparator(t) && !HasSecretWord(NormalizeKey(Lead(t)))
    ensures ArgsMasked(ArgsMasked([x], [t]), [t]) != ArgsMasked([x], [t])
  {
    hide ArgsMasked, MaskElement, MaskHeader, HasSecretWord, NormalizeKey, ReplaceAll, HasSeparator, Lead;
    var front := if '=' in t && ':' !in Cut(t, '=').before then [Pad(t)] else "h=" + [Pad(t)];
    x := front + t + BEARER;
    var y, z := front + PLACEHOLDER + BEARER, front + PLACEHOLDER + BEARER + " " + PLACEHOLDER;
    if '=' in t && ':' !in Cut(t, '=').before {
      EqualsFirst(t);
      HeaderMasked(front);
    } else {
      ColonLeads(t);
      HeaderMasked([Pad(t)]);
      ValueOfHeader(front, [Pad(t)]);
    }
    OneArg(x, t);
    OneArg(y, t);
    EndsInStar(z, t);
    EndsInColon(front + PLACEHOLDER);
  }

  lemma EndsInColon(front: string)
    ensures var y := front + BEARER; y != "" && y[|y| - 1] == ':'
  {
  }

  lemma LastOfConcat(a: string, b: string)
    requires b != ""
    ensures (a + b)[|a + b| - 1] == b[|b| - 1]
  {
  }

  lemma {:induction false} EndsInStar(s: string, t: string)
    requires t != "" && s != "" && s[|s| - 1] == '*'
    ensures ReplaceAll(s, t) != "" && ReplaceAll(s, t)[|ReplaceAll(s, t)| - 1] == '*'
    decreases |s|
  {
    if t <= s {
      var rest := s[|t|..];
      if rest != "" {
        assert rest[|rest| - 1] == s[|s| - 1];
        EndsInStar(rest, t);
        LastOfConcat(PLACEHOLDER, ReplaceAll(rest, t));
      } else {
        assert PLACEHOLDER + ReplaceAll("", t) == PLACEHOLDER;
      }
    } else if |s| > 1 {
      EndsInStar(s[1..], t);
      LastOfConcat([s[0]], ReplaceAll(s[1..], t));
    }
  }

  /** The name of the header that is left ends in a secret word. */
  lemma HeaderMasked(front: string)
    requires '=' !in front && ':' !in front && front != "" && front[0] != '-'
    requires forall i :: 0 <= i < |front| ==> !('A' <= front[i] <= 'Z')
    ensures var y := front + PLACEHOLDER + BEARER;
            && MaskHeader(y) == front + PLACEHOLDER + BEARER + " " + PLACEHOLDER
            && MaskElement(y) == MaskHeader(y)
  {
    hide IsSecretKey;
    var name := front + PLACEHOLDER + "bearer";
    BearerSplits(front + PLACEHOLDER);
    BearerIsSecret(name, |front| + 3);
    HeaderShown(name);
  }

  lemma BearerSplits(front: string)
    ensures front + BEARER == front + "bearer" + [':'] + ""
    ensures front + BEARER + " " + PLACEHOLDER == front + "bearer" + ": " + PLACEHOLDER
  {
  }

  lemma HeaderShown(name: string)
    requires '=' !in name && ':' !in name && IsSecretKey(name)
    ensures var y := name + [':'] + ""; MaskHeader(y) == name + ": " + PLACEHOLDER && MaskElement(y) == MaskHeader(y)
  {
    hide IsSecretKey;
    CutAt(name, ':', "");
    assert '=' !in name + [':'] + "";
  }

  lemma BearerIsSecret(name: string, k: nat)
    requires k + 6 <= |name| && name[k..] == "bearer"
    ensures IsSecretKey(name)
  {
    hide NormalizeKey, IsExactKey;
    var w := "bearer";
    assert SECRET_SUBSTRINGS[1] == w;
    assert OccursAt(name, w, k);
    assert forall i :: 0 <= i < |w| ==> w[i] == LowerChar(w[i]);
    LowerOccurrence(name, w, w, k);
    assert HasSubstring(NormalizeKey(name), SECRET_SUBSTRINGS[1]);
  }

  /** The secret's first separator is an equals sign: the element is a name and a value. */
  lemma EqualsFirst(t: string)
    requires |t| >= MIN_SECRET_LEN && '=' in t && ':' !in Cut(t, '=').before
    requires !HasSecretWord(NormalizeKey(Lead(t)))
    ensures var x := [Pad(t)] + t + BEARER;
            && MaskElement(x) == x && ReplaceAll(x, t) == [Pad(t)] + PLACEHOLDER + BEARER
  {
    hide IsSecretKey, IsHeaderKey, HasSecretWord, NormalizeKey, ReplaceAll, MaskElement;
    var c, p := Pad(t), Cut(t, '=');
    CutSame(p.before, ':');
    PaddedName(c, p.before);
    PadNotFirst(t);
    ReplaceOnly([c], t, BEARER);
    hide Lead, OccursAt;
    JoinPieces([c], p.before, ['='], p.after, BEARER);
    PlainInline([c] + p.before, p.after + BEARER);
  }

  lemma PadNotFirst(t: string)
    requires t != ""
    ensures !OccursAt([Pad(t)] + t + BEARER, t, 0)
  {
    assert ([Pad(t)] + t + BEARER)[0..][0] == Pad(t);
  }

  lemma ColonCut(t: string)
    requires HasSeparator(t) && !('=' in t && ':' !in Cut(t, '=').before)
    ensures Cut(t, ':').found && Cut(t, ':').before == Lead(t) && '=' !in Lead(t)
  {
    if Cut(t, '=').found {
      CutTwice(t);
    }
  }

  /** The secret's first separator is a colon: the element is the value of a header option. */
  lemma ColonLeads(t: string)
    requires |t| >= MIN_SECRET_LEN && HasSeparator(t) && !('=' in t && ':' !in Cut(t, '=').before)
    requires !HasSecretWord(NormalizeKey(Lead(t)))
    ensures var front := "h=" + [Pad(t)]; var x := front + t + BEARER;
            && MaskElement(x) == x && ReplaceAll(x, t) == front + PLACEHOLDER + BEARER
  {
    hide IsSecretKey, IsHeaderKey, HasSecretWord, NormalizeKey, ReplaceAll, HasSeparator, Lead, MaskElement,
      MaskInline, MaskHeader;
    var c := Pad(t);
    var front, val := "h=" + [c], [c] + t + BEARER;
    ColonCut(t);
    UnmaskedValue(c, t);
    OptionValue(val);
    assert front + t + BEARER == "h=" + val;
    forall j | 0 <= j < |front|
      ensures !OccursAt(front + t + BEARER, t, j)
    {
      if OccursAt(front + t + BEARER, t, j) {
        OccursIndex(front + t + BEARER, t, j, 0);
        OccursIndex(front + t + BEARER, t, j, 1);
        ShortBeforeEquals(t);
        assert false;
      }
    }
    ReplaceOnly(front, t, BEARER);
  }

  lemma ShortBeforeEquals(t: string)
    requires |t| > 1 && Cut(t, ':').found && '=' !in Cut(t, ':').before
    ensures t[0] != '=' && !(t[0] == 'h' && t[1] == '=')
  {
    var p := Cut(t, ':');
    assert t == p.before + [':'] + p.after;
    if |p.before| > 1 {
      assert t[0] == p.before[0] && t[1] == p.before[1];
    } else if |p.before| == 1 {
      assert t[0] == p.before[0] && t[1] == ':';
    } else {
      assert t[0] == ':';
    }
  }

  lemma UnmaskedValue(c: char, t: string)
    requires (c == '0' || c == '1') && Cut(t, ':').found && !HasSecretWord(NormalizeKey(Cut(t, ':').before))
    ensures var val := [c] + t + BEARER; MaskHeader(val) == val
  {
    hide IsSecretKey, HasSecretWord, NormalizeKey;
    var p := Cut(t, ':');
    PaddedName(c, p.before);
    assert [c] + t + BEARER == ([c] + p.before) + [':'] + (p.after + BEARER);
    CutAt([c] + p.before, ':', p.after + BEARER);
  }

  /** The value of a header option is read as a header. */
  lemma OptionValue(val: string)
    ensures MaskElement("h=" + val) == "h=" + MaskHeader(val)
  {
    hide IsSecretKey, MaskHeader;
    assert "h=" + val == "h" + "=" + val;
    InlineShape("h", val);
    HeaderName();
  }

  lemma HeaderName()
    ensures IsHeaderKey("h")
  {
    assert TrimLeft("h", {'-'}) == "h";
    assert NormalizeKey("h") == "h";
    assert HEADER_KEYS[0] == "h";
  }

  lemma ValueOfHeader(front: string, rest: string)
    requires front == "h=" + rest &&
             MaskHeader(rest + PLACEHOLDER + BEARER) == rest + PLACEHOLDER + BEARER + " " + PLACEHOLDER
    ensures MaskElement(front + PLACEHOLDER + BEARER) == front + PLACEHOLDER + BEARER + " " + PLACEHOLDER
  {
    hide MaskHeader, MaskElement;
    OptionValue(rest + PLACEHOLDER + BEARER);
    assert front + PLACEHOLDER + BEARER == "h=" + (rest + PLACEHOLDER + BEARER);
    assert "h=" + (rest + PLACEHOLDER + BEARER + " " + PLACEHOLDER) == front + PLACEHOLDER + BEARER + " " + PLACEHOLDER;
  }

  // ---- Lists of several secrets ----

  /** The secrets are long enough to be replaced only when they are harmless. */
  ghost predicate AllHarmless(secrets: seq<string>) {
    forall t :: t in secrets && |t| >= MIN_SECRET_LEN ==> Harmless(t)
  }

  lemma HarmlessIsIdempotent(secrets: seq<string>)
    requires AllHarmless(secrets)
    ensures Idempotent(secrets)
  {
    forall args: seq<string>
      ensures ArgsMasked(ArgsMasked(args, secrets), secrets) == ArgsMasked(args, secrets)
    {
      hide Harmless, ArgsMasked;
      ArgsIdempotent(args, secrets);
    }
  }

  /**
   Whichever secrets are drawn from a pool, however many, in whatever order: masking is idempotent for
   all argument lists exactly when every long enough secret of the pool is harmless.
   */
  lemma PoolIdempotentIff(pool: iset<string>)
    ensures (forall secrets: seq<string> :: (forall t :: t in secrets ==> t in pool) ==> Idempotent(secrets)) <==>
            forall t :: t in pool && |t| >= 8 ==> Harmless(t)
  {
    hide Harmless, Idempotent;
    forall t | t in pool && |t| >= MIN_SECRET_LEN && !Harmless(t)
      ensures exists secrets: seq<string> :: (forall u :: u in secrets ==> u in pool) && !Idempotent(secrets)
    {
      IdempotentIff(t);
      assert forall u :: u in [t] ==> u in pool;
    }
    if forall t :: t in pool && |t| >= MIN_SECRET_LEN ==> Harmless(t) {
      forall secrets: seq<string> | forall t :: t in secrets ==> t in pool
        ensures Idempotent(secrets)
      {
        HarmlessIsIdempotent(secrets);
      }
    }
  }

  /** An earlier secret, which no replacement brings back, stands in the secret at `j`. */
  ghost predicate CutUp(secrets: seq<string>, j: nat)
    requires j < |secrets|
  {
    exists i :: 0 <= i < j && |secrets[i]| >= MIN_SECRET_LEN && NoMarkFits(secrets[i]) &&
      Contains(secrets[j], secrets[i])
  }

  function Dropped(secrets: seq<string>, j: nat): seq<string>
    requires j < |secrets|
  {
    secrets[..j] + secrets[j + 1..]
  }

  lemma {:induction false} MaskedInParts(s: string, a: seq<string>, b: seq<string>)
    ensures Masked(s, a + b) == Masked(Masked(s, a), b)
    decreases |a|
  {
    if a == [] {
      assert a + b == b;
    } else {
      assert (a + b)[0] == a[0] && (a + b)[1..] == a[1..] + b;
      MaskedInParts(if |a[0]| < MIN_SECRET_LEN then s else ReplaceAll(s, a[0]), a[1..], b);
    }
  }

  lemma ContainsInside(s: string, t: string, u: string)
    requires Contains(s, t) && Contains(t, u)
    ensures Contains(s, u)
  {
    var k :| OccursAt(s, t, k);
    var i :| OccursAt(t, u, i);
    OccursBounds(s, t, k);
    OccursBounds(t, u, i);
    forall n | 0 <= n < |u|
      ensures s[k + i + n] == u[n]
    {
      OccursIndex(t, u, i, n);
      OccursIndex(s, t, k, i + n);
    }
    OccursIf(s, u, k + i);
  }

  /** A secret that an earlier one cuts up masks nothing any more, whatever else it may be. */
  lemma CutUpIsIdle(s: string, secrets: seq<string>, j: nat)
    requires j < |secrets| && CutUp(secrets, j)
    ensures Masked(s, secrets) == Masked(s, Dropped(secrets, j))
  {
    hide Contains, NoMarkFits, Masked;
    var i :| 0 <= i < j && |secrets[i]| >= MIN_SECRET_LEN && NoMarkFits(secrets[i]) && Contains(secrets[j], secrets[i]);
    var v := Masked(s, secrets[..j]);
    assert secrets[..j][i] == secrets[i];
    NoSecretSurvives(s, secrets[..j], secrets[i]);
    if Contains(v, secrets[j]) {
      ContainsInside(v, secrets[j], secrets[i]);
    }
    OneIdle(v, secrets[j]);
    assert secrets == secrets[..j] + ([secrets[j]] + secrets[j + 1..]);
    MaskedInParts(s, secrets[..j], [secrets[j]] + secrets[j + 1..]);
    MaskedInParts(v, [secrets[j]], secrets[j + 1..]);
    MaskedInParts(s, secrets[..j], secrets[j + 1..]);
  }

  /** A secret of fewer than 8 characters masks nothing. */
  lemma ShortIsIdle(s: string, secrets: seq<string>, j: nat)
    requires j < |secrets| && |secrets[j]| < 8
    ensures Masked(s, secrets) == Masked(s, Dropped(secrets, j))
  {
    assert secrets == secrets[..j] + ([secrets[j]] + secrets[j + 1..]);
    MaskedInParts(s, secrets[..j], [secrets[j]] + secrets[j + 1..]);
    MaskedInParts(Masked(s, secrets[..j]), [secrets[j]], secrets[j + 1..]);
    MaskedInParts(s, secrets[..j], secrets[j + 1..]);
    assert [secrets[j]][1..] == [];
  }

  lemma OneIdle(v: string, t: string)
    requires !Contains(v, t)
    ensures Masked(v, [t]) == v
  {
    hide ReplaceAll, Contains;
    if |t| >= MIN_SECRET_LEN {
      NothingToReplace(v, t);
      MaskedOnce(v, t);
    } else {
      assert [t][1..] == [];
    }
  }

  /** It can be left out of the list: what is idempotent without it is idempotent with it, and the other way round. */
  lemma CutUpDropped(secrets: seq<string>, j: nat)
    requires j < |secrets| && CutUp(secrets, j)
    ensures Idempotent(secrets) <==> Idempotent(Dropped(secrets, j))
  {
    forall args: seq<string>
      ensures ArgsMasked(args, secrets) == ArgsMasked(args, Dropped(secrets, j))
    {
      EachIdle(KeyMasked(args), secrets, j);
    }
  }

  lemma EachIdle(items: seq<string>, secrets: seq<string>, j: nat)
    requires j < |secrets| && CutUp(secrets, j)
    ensures EachMasked(items, secrets) == EachMasked(items, Dropped(secrets, j))
  {
    hide CutUp, Masked;
    forall i | 0 <= i < |items|
      ensures Masked(items[i], secrets) == Masked(items[i], Dropped(secrets, j))
    {
      CutUpIsIdle(items[i], secrets, j);
    }
  }

  // ---- Which characters secrets must be free of ----

  /** No secret holds a character of `banned`. */
  ghost predicate Avoids(secrets: seq<string>, banned: set<char>) {
    forall s, c :: s in secrets && c in s ==> c !in banned
  }

  function Run(c: char, n: nat): (r: string)
    ensures |r| == n && forall i :: 0 <= i < n ==> r[i] == c
  {
    seq(n, _ => c)
  }

  /** Eight of the same: a star is a mark's own, a separator has no word in front of it. */
  lemma RunIsNotHarmless(c: char)
    requires c in {'*', '=', ':'}
    ensures !Harmless(Run(c, MIN_SECRET_LEN))
  {
    var t := Run(c, MIN_SECRET_LEN);
    if c != '*' {
      assert t == "" + [c] + t[1..];
      CutAt("", c, t[1..]);
      if c == ':' { CutSame(t, '='); }
      ShortNameHasNoWord(Lead(t));
      assert t[0] == c;
    }
  }

  /**
   Which characters must be kept out of all secrets: masking is idempotent for all argument lists
   just when secrets hold none of `*`, `=` and `:`.
   */
  lemma IdempotentCharacters(banned: set<char>)
    ensures (forall secrets :: Avoids(secrets, banned) ==> Idempotent(secrets)) <==> {'*', '=', ':'} <= banned
  {
    hide Idempotent, Harmless, Run;
    forall c | c in {'*', '=', ':'} && c !in banned
      ensures exists secrets :: Avoids(secrets, banned) && !Idempotent(secrets)
    {
      var t := Run(c, MIN_SECRET_LEN);
      RunIsNotHarmless(c);
      IdempotentIff(t);
      assert Avoids([t], banned);
    }
    if {'*', '=', ':'} <= banned {
      forall secrets | Avoids(secrets, banned)
        ensures Idempotent(secrets)
      {
        AvoidingIsIdempotent(secrets, banned);
      }
    }
  }

  lemma AvoidingIsIdempotent(secrets: seq<string>, banned: set<char>)
    requires {'*', '=', ':'} <= banned && Avoids(secrets, banned)
    ensures Idempotent(secrets)
  {
    hide NoMarkFits, Idempotent;
    forall t | t in secrets && |t| >= MIN_SECRET_LEN
      ensures Harmless(t)
    {
      StarFreeFits(t);
    }
    HarmlessIsIdempotent(secrets);
  }

  // ---- Which names are secret, and what is shown behind them ----

  /** `name` reads as the word `w`, in any letter case, behind any number of hyphens. */
  ghost predicate Reads(name: string, w: string) {
    exists k :: ReadsFrom(name, w, k)
  }

  predicate ReadsFrom(name: string, w: string, k: int) {
    0 <= k <= |name| && (forall i :: 0 <= i < k ==> name[i] == '-') && Spells(name[k..], w)
  }

  /** The word `w` stands somewhere in `name`, in any letter case. */
  ghost predicate Holds(name: string, w: string) {
    exists k :: HoldsAt(name, w, k)
  }

  predicate HoldsAt(name: string, w: string, k: int) {
    0 <= k && k + |w| <= |name| && Spells(name[k..k + |w|], w)
  }

  /** The names behind which a secret stands. */
  ghost predicate Secretive(name: string) {
    || Reads(name, "token") || Reads(name, "pat") || Reads(name, "jitconfig")
    || Reads(name, "password") || Reads(name, "secret")
    || Holds(name, "authorization") || Holds(name, "bearer")
    || Holds(name, "apikey") || Holds(name, "api-key") || Holds(name, "api_key")
  }

  /** The names behind which a header line stands. */
  ghost predicate Headerish(name: string) {
    Reads(name, "h") || Reads(name, "header")
  }

  /** An option name and nothing else: hyphens, then letters, digits, dots, underscores and hyphens. */
  predicate IsOption(arg: string) {
    && arg != "" && arg[0] == '-' && (exists i :: 0 <= i < |arg| && arg[i] != '-')
    && forall i :: 0 <= i < |arg| ==>
         'a' <= arg[i] <= 'z' || 'A' <= arg[i] <= 'Z' || '0' <= arg[i] <= '9' || arg[i] in "._-"
  }

  /** A word as the lists have them: lower case, and no hyphen in front. */
  predicate IsWord(w: string) {
    w != "" && w[0] != '-' && forall i :: 0 <= i < |w| ==> !('A' <= w[i] <= 'Z')
  }

  lemma ReadsIff(name: string, w: string)
    requires IsWord(w)
    ensures NormalizeKey(name) == w <==> Reads(name, w)
  {
    var bare := TrimLeft(name, {'-'});
    var k := |name| - |bare|;
    TrimLeftEnd(name, {'-'});
    LoweredSpells(bare, w);
    if NormalizeKey(name) == w {
      assert ReadsFrom(name, w, k);
    }
    if j :| ReadsFrom(name, w, j) {
      assert name == name[..j] + name[j..];
      assert name[j] != '-';
      TrimLeftBehind(name[..j], name[j..], {'-'});
      assert ToLower(bare) == w;
    }
  }

  lemma HoldsIff(name: string, w: string)
    requires IsWord(w)
    ensures HasSubstring(NormalizeKey(name), w) <==> Holds(name, w)
  {
    var bare := TrimLeft(name, {'-'});
    var n := |name| - |bare|;
    TrimLeftEnd(name, {'-'});
    var key := ToLower(bare);
    if i :| OccursAt(key, w, i) {
      assert |w| <= |key[i..]| && key[i..][..|w|] == w;
      assert forall m :: 0 <= m < |w| ==> LowerChar(name[n + i..n + i + |w|][m]) == w[m];
      LoweredSpells(name[n + i..n + i + |w|], w);
      assert HoldsAt(name, w, n + i);
    }
    if k :| HoldsAt(name, w, k) {
      assert name[k] != '-';
      assert n <= k;
      LoweredSpells(name[k..k + |w|], w);
      forall m | 0 <= m < |w|
        ensures key[k - n + m] == w[m]
      {
        assert name[k..k + |w|][m] == bare[k - n + m];
      }
      OccursIf(key, w, k - n);
    }
  }

  lemma SecretKeyIff(name: string)
    ensures IsSecretKey(name) <==> Secretive(name)
  {
    hide Reads, Holds, NormalizeKey, HasSubstring;
    ReadsIff(name, "token");
    ReadsIff(name, "pat");
    ReadsIff(name, "jitconfig");
    ReadsIff(name, "password");
    ReadsIff(name, "secret");
    SecretWordIff(name);
  }

  lemma SecretWordIff(name: string)
    ensures HasSecretWord(NormalizeKey(name)) <==>
            || Holds(name, "authorization") || Holds(name, "bearer")
            || Holds(name, "apikey") || Holds(name, "api-key") || Holds(name, "api_key")
  {
    hide Holds, NormalizeKey, HasSubstring;
    HoldsIff(name, "authorization");
    HoldsIff(name, "bearer");
    HoldsIff(name, "apikey");
    HoldsIff(name, "api-key");
    HoldsIff(name, "api_key");
    var key := NormalizeKey(name);
    assert HasSubstring(key, SECRET_SUBSTRINGS[0]) <==> Holds(name, "authorization");
    assert HasSubstring(key, SECRET_SUBSTRINGS[1]) <==> Holds(name, "bearer");
    assert HasSubstring(key, SECRET_SUBSTRINGS[2]) <==> Holds(name, "apikey");
    assert HasSubstring(key, SECRET_SUBSTRINGS[3]) <==> Holds(name, "api-key");
    assert HasSubstring(key, SECRET_SUBSTRINGS[4]) <==> Holds(name, "api_key");
  }

  lemma HeaderKeyIff(name: string)
    ensures IsHeaderKey(name) <==> Headerish(name)
  {
    hide Reads, NormalizeKey;
    ReadsIff(name, "h");
    ReadsIff(name, "header");
  }

  lemma OptionIff(arg: string)
    ensures OptionName(arg).Some? <==> IsOption(arg)
    ensures var name := OptionName(arg);
            && (name.Some? ==> (IsSecretKey(name.value) <==> Secretive(arg)))
            && (name.Some? ==> (IsHeaderKey(name.value) <==> Headerish(arg)))
  {
    hide Secretive, Headerish, IsSecretKey, IsHeaderKey, IsOption, NormalizeKey;
    SecretKeyIff(arg);
    HeaderKeyIff(arg);
    OptionShape(arg);
    if IsOption(arg) {
      SameKey(arg, OptionName(arg).value);
    }
  }

  lemma OptionShape(arg: string)
    ensures OptionName(arg).Some? <==> IsOption(arg)
    ensures IsOption(arg) ==> NormalizeKey(OptionName(arg).value) == NormalizeKey(arg)
  {
    var bare := TrimLeft(arg, {'-'});
    var n := |arg| - |bare|;
    TrimLeftEnd(arg, {'-'});
    assert TrimLeft(bare, {'-'}) == bare;
    hide TrimLeft;
    assert forall m :: 0 <= m < |bare| ==> bare[m] == arg[n + m];
    assert bare == "" <==> forall i :: 0 <= i < |arg| ==> arg[i] == '-' by {
      if bare != "" { assert arg[n] == bare[0]; }
    }
    if OptionName(arg).Some? {
      assert forall i :: 0 <= i < |arg| ==> IsNameChar(arg[i]);
    }
  }

  lemma SameKey(arg: string, bare: string)
    requires NormalizeKey(arg) == NormalizeKey(bare)
    ensures IsSecretKey(arg) <==> IsSecretKey(bare)
    ensures IsHeaderKey(arg) <==> IsHeaderKey(bare)
  {
    hide NormalizeKey, HasSecretWord, IsExactKey;
  }

  /** A header line shows its name, and its value unless the name is secret. */
  lemma HeaderIs(name: string, value: string)
    requires ':' !in name
    ensures MaskHeader(name + ":" + value) == if Secretive(name) then name + ": ***" else name + ":" + value
  {
    hide Secretive, IsSecretKey;
    SecretKeyIff(name);
    CutAt(name, ':', value);
  }

  lemma NoHeader(v: string)
    requires ':' !in v
    ensures MaskHeader(v) == v
  {
    CutSame(v, ':');
  }

  /** What stands in front of the first colon is a secret name. */
  ghost predicate SecretHeader(v: string) {
    exists k :: 0 <= k < |v| && v[k] == ':' && ':' !in v[..k] && Secretive(v[..k])
  }

  lemma SecretHeaderIff(v: string)
    ensures MaskHeader(v) == v || SecretHeader(v)
    ensures SecretHeader(v) ==> exists k :: 0 <= k < |v| && v[k] == ':' && MaskHeader(v) == v[..k] + ": ***"
  {
    hide Secretive, IsSecretKey;
    if ':' !in v {
      NoHeader(v);
    } else {
      var k := IndexOf(v, ':');
      assert v == v[..k] + ":" + v[k + 1..];
      HeaderIs(v[..k], v[k + 1..]);
      if m :| 0 <= m < |v| && v[m] == ':' && ':' !in v[..m] && Secretive(v[..m]) {
        IndexOfUnique(v, ':', m);
      }
    }
  }

  /**
   `name=value`, unless a secret header name stands in front: a secret name hides the value, a header name
   masks it as a header.
   */
  lemma AssignmentIs(key: string, val: string)
    requires '=' !in key && !(':' in key && SecretHeader(key + "=" + val))
    ensures MaskElement(key + "=" + val) ==
            if Headerish(key) then key + "=" + MaskHeader(val)
            else if Secretive(key) then key + "=" + "***"
            else key + "=" + val
  {
    hide Secretive, Headerish, IsSecretKey, IsHeaderKey, MaskHeader, SecretHeader;
    InlineShape(key, val);
    SecretKeyIff(key);
    HeaderKeyIff(key);
    SecretHeaderIff(key + "=" + val);
  }

  /** A secret header name in front of any equals sign hides all that follows it. */
  lemma SecretHeaderShown(name: string, value: string)
    requires ':' !in name && '=' !in name && Secretive(name)
    ensures MaskElement(name + ":" + value) == name + ": ***"
  {
    hide Secretive, IsSecretKey, IsHeaderKey, MaskInline;
    var x := name + ":" + value;
    HeaderIs(name, value);
    HeaderAlone(name);
    var p := Cut(x, '=');
    if p.found {
      ColonInFront(name, value);
    }
  }

  lemma ColonInFront(name: string, value: string)
    requires '=' !in name && Cut(name + ":" + value, '=').found
    ensures ':' in Cut(name + ":" + value, '=').before && name + ":" + value != name + ": ***"
  {
    var x := name + ":" + value;
    var i := IndexOf(x, '=');
    assert x[..i][|name|] == ':';
    assert (name + ": ***")[|name| + 1..] == " ***" && x[|name| + 1..] == value;
    assert '=' in value && '=' !in " ***";
  }

  /** Every other element is shown as it is. */
  lemma PlainElementIs(x: string)
    requires '=' !in x && !SecretHeader(x)
    ensures MaskElement(x) == x
  {
    hide SecretHeader, MaskHeader;
    CutSame(x, '=');
    SecretHeaderIff(x);
  }

  /**
   The element behind an option: hidden when the option's name is secret, masked as a header when it
   is a header option, and by itself behind everything else.
   */
  lemma BehindOption(args: seq<string>, i: nat)
    requires 0 < i < |args|
    ensures var own := MaskElement(args[i]);
            KeyMasked(args)[i] ==
            if IsOption(args[i - 1]) && Headerish(args[i - 1]) then MaskHeader(own)
            else if IsOption(args[i - 1]) && Secretive(args[i - 1]) then "***"
            else own
  {
    hide MaskElement, MaskHeader, OptionName, IsOption, Secretive, Headerish, IsSecretKey, IsHeaderKey;
    OptionIff(args[i - 1]);
  }

  /**
   No header option has a secret name, so that a value behind a secret option is hidden, whatever the
   secrets known.
   */
  lemma SecretOptionHides(args: seq<string>, i: nat, secrets: seq<string>)
    requires 0 < i < |args| && IsOption(args[i - 1]) && Secretive(args[i - 1])
    ensures ArgsMasked(args, secrets)[i] == "***"
  {
    hide KeyMasked, IsOption, Secretive, Headerish, MaskElement, MaskHeader, Masked;
    BehindOption(args, i);
    SecretIsNoHeader(args[i - 1]);
    PlaceholderStays(secrets);
  }

  lemma SecretIsNoHeader(name: string)
    requires Secretive(name)
    ensures !Headerish(name)
  {
    hide Secretive, Headerish, IsSecretKey;
    SecretKeyIff(name);
    HeaderKeyIff(name);
    if IsHeaderKey(name) {
      HeaderKeyIsNoSecretKey(name);
    }
  }

  lemma {:induction false} PlaceholderStays(secrets: seq<string>)
    ensures Masked("***", secrets) == "***"
    decreases |secrets|
  {
    if secrets != [] {
      if |secrets[0]| >= MIN_SECRET_LEN {
        ShortUnreplaced("***", secrets[0]);
      }
      PlaceholderStays(secrets[1..]);
    }
  }
}
