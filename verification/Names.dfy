/** Numbering new runners: the next free index after the existing names, and the names from there on. */
module Names {
  import opened Ints
  import opened Strings

  const MAX_INT := 0x7FFF_FFFF_FFFF_FFFF
  const MIN_INT := -0x8000_0000_0000_0000

  /** Addition of the program's 64-bit integers wraps around. */
  function Wrap(n: int): (r: int)
    ensures MIN_INT <= r <= MAX_INT
    ensures MIN_INT <= n <= MAX_INT ==> r == n
    ensures (n - r) % 0x1_0000_0000_0000_0000 == 0
  {
    (n - MIN_INT) % 0x1_0000_0000_0000_0000 + MIN_INT
  }

  // ---- Decimal numbers ----

  predicate IsDigit(c: char) {
    '0' <= c <= '9'
  }

  predicate AllDigits(s: string) {
    s != "" && forall i :: 0 <= i < |s| ==> IsDigit(s[i])
  }

  function DigitValue(c: char): nat
    requires IsDigit(c)
  {
    (c - '0') as int
  }

  function DigitOf(n: nat): (c: char)
    requires n < 10
    ensures IsDigit(c) && DigitValue(c) == n
  {
    '0' + n as char
  }

  function Digits(n: nat): (s: string)
    ensures AllDigits(s)
  {
    (if n < 10 then "" else Digits(n / 10)) + [DigitOf(n % 10)]
  }

  /** strconv.Itoa. */
  function Itoa(n: int): string {
    if n < 0 then "-" + Digits(-n) else Digits(n)
  }

  function ValueOf(s: string): nat
    requires forall i :: 0 <= i < |s| ==> IsDigit(s[i])
  {
    if s == "" then 0 else ValueOf(s[..|s| - 1]) * 10 + DigitValue(s[|s| - 1])
  }

  /** strconv.Atoi on a string of digits: leading zeros are read over, too large a number is an error. */
  function Atoi(s: string): Option<nat>
    requires AllDigits(s)
  {
    if ValueOf(s) <= MAX_INT then Some(ValueOf(s)) else None
  }

  lemma {:induction false} DigitsValue(n: nat)
    ensures ValueOf(Digits(n)) == n
  {
    if n >= 10 {
      DigitsValue(n / 10);
    }
    var front := if n < 10 then "" else Digits(n / 10);
    assert Digits(n)[..|Digits(n)| - 1] == front;
  }

  lemma ItoaInjective(m: int, n: int)
    requires Itoa(m) == Itoa(n)
    ensures m == n
  {
    DigitsValue(if m < 0 then -m else m);
    DigitsValue(if n < 0 then -n else n);
    assert (m < 0 ==> Itoa(m)[0] == '-') && (m >= 0 ==> IsDigit(Itoa(m)[0]));
    assert (n < 0 ==> Itoa(n)[0] == '-') && (n >= 0 ==> IsDigit(Itoa(n)[0]));
    if m < 0 {
      assert Itoa(m)[1..] == Digits(-m) && Itoa(n)[1..] == Digits(-n);
    }
  }

  // ---- Indices of names ----

  /** The index a name of the form `<prefix>-<digits>` carries; 0 for every other name. */
  function IndexOfName(name: string, prefix: string): nat {
    var head := prefix + "-";
    if head <= name && AllDigits(name[|head|..]) then Atoi(name[|head|..]).UnwrapOr(0) else 0
  }

  function MaxIndex(existing: seq<string>, prefix: string): nat {
    if existing == [] then 0
    else Max(MaxIndex(existing[..|existing| - 1], prefix), IndexOfName(existing[|existing| - 1], prefix))
  }

  function Next(existing: seq<string>, prefix: string): int {
    if prefix == "" then 1 else Wrap(MaxIndex(existing, prefix) + 1)
  }

  function RunnerName(prefix: string, index: int): string {
    prefix + "-" + Itoa(index)
  }

  function NamesFrom(prefix: string, start: int, count: nat): (out: seq<string>)
    ensures |out| == count && forall i :: 0 <= i < count ==> out[i] == RunnerName(prefix, Wrap(start + i))
  {
    seq(count, i requires 0 <= i < count => RunnerName(prefix, Wrap(start + i)))
  }

  method NextIndex(existing: seq<string>, prefix: string) returns (r: int)
    ensures r == Next(existing, prefix)
  {
    if prefix == "" {
      return 1;
    }
    var head := prefix + "-";
    var maxIdx: nat := 0;
    for i := 0 to |existing|
      invariant maxIdx == MaxIndex(existing[..i], prefix)
    {
      var name := existing[i];
      assert existing[..i + 1][..i] == existing[..i];
      if !(head <= name) || !AllDigits(name[|head|..]) {
        continue;
      }
      var n := Atoi(name[|head|..]);
      if n.None? || n.value < 1 {
        continue;
      }
      if n.value > maxIdx {
        maxIdx := n.value;
      }
    }
    assert existing[..|existing|] == existing;
    return Wrap(maxIdx + 1);
  }

  method Names(prefix: string, start: int, count: nat) returns (out: seq<string>)
    ensures out == NamesFrom(prefix, start, count)
  {
    out := [];
    for i := 0 to count
      invariant out == NamesFrom(prefix, start, i)
    {
      NamesNext(prefix, start, i);
      hide NamesFrom;
      out := out + [RunnerName(prefix, Wrap(start + i))];
    }
  }

  lemma NamesNext(prefix: string, start: int, i: nat)
    ensures NamesFrom(prefix, start, i + 1) == NamesFrom(prefix, start, i) + [RunnerName(prefix, Wrap(start + i))]
  {
    hide RunnerName, Wrap;
  }

  // ---- The new names are new ----

  /** No name is taken: neither by an existing runner nor by one planned before it. */
  ghost predicate Fresh(names: seq<string>, existing: seq<string>) {
    forall i :: 0 <= i < |names| ==> names[i] !in existing + names[..i]
  }

  lemma NameIndex(prefix: string, n: nat)
    ensures IndexOfName(RunnerName(prefix, n), prefix) == if n <= MAX_INT then n else 0
  {
    DigitsValue(n);
    var head := prefix + "-";
    assert RunnerName(prefix, n)[|head|..] == Digits(n);
  }

  lemma NegativeNameIndex(prefix: string, n: int)
    requires n < 0
    ensures IndexOfName(RunnerName(prefix, n), prefix) == 0
  {
    var head := prefix + "-";
    var rest := RunnerName(prefix, n)[|head|..];
    assert rest == Itoa(n) && rest[0] == '-' && !IsDigit('-');
  }

  lemma NameInjective(prefix: string, m: int, n: int)
    requires RunnerName(prefix, m) == RunnerName(prefix, n)
    ensures m == n
  {
    var head := prefix + "-";
    assert RunnerName(prefix, m)[|head|..] == Itoa(m) && RunnerName(prefix, n)[|head|..] == Itoa(n);
    ItoaInjective(m, n);
  }

  lemma {:induction false} MaxIndexBounds(existing: seq<string>, prefix: string, name: string)
    requires name in existing
    ensures IndexOfName(name, prefix) <= MaxIndex(existing, prefix)
  {
    if name != existing[|existing| - 1] {
      assert name in existing[..|existing| - 1];
      MaxIndexBounds(existing[..|existing| - 1], prefix, name);
    }
  }

  lemma {:induction false} MaxIndexInRange(existing: seq<string>, prefix: string)
    ensures MaxIndex(existing, prefix) <= MAX_INT
  {
    if existing != [] { MaxIndexInRange(existing[..|existing| - 1], prefix); }
  }

  /** What must hold of the prefix, the largest index in use and the number of new runners. */
  predicate Safe(prefix: string, largest: nat, count: nat) {
    count == 0 || (largest + count <= MAX_INT && (prefix != "" || largest == 0))
  }

  /** Leading zeros, overlong digits and foreign prefixes notwithstanding, safe numbering gives unused names. */
  lemma SafeIsFresh(existing: seq<string>, prefix: string, count: nat)
    requires Safe(prefix, MaxIndex(existing, prefix), count)
    ensures Fresh(NamesFrom(prefix, Next(existing, prefix), count), existing)
  {
    hide RunnerName, IndexOfName, MaxIndex;
    var start := Next(existing, prefix);
    var names := NamesFrom(prefix, start, count);
    forall i | 0 <= i < count
      ensures names[i] !in existing + names[..i]
    {
      hide NamesFrom, Next, Wrap;
      NameIndex(prefix, start + i);
      InEither(names[i], existing, names[..i]);
      if names[i] in existing {
        MaxIndexBounds(existing, prefix, names[i]);
        assert false;
      }
      if names[i] in names[..i] {
        var k :| 0 <= k < i && names[k] == names[i];
        NameInjective(prefix, start + k, start + i);
        assert false;
      }
    }
  }

  ghost predicate AlwaysFresh(prefix: string, largest: nat, count: nat) {
    forall existing :: MaxIndex(existing, prefix) == largest ==>
      Fresh(NamesFrom(prefix, Next(existing, prefix), count), existing)
  }

  lemma TwoNames(prefix: string, a: string, b: string)
    ensures MaxIndex([a, b], prefix) == Max(IndexOfName(a, prefix), IndexOfName(b, prefix))
  {
    hide IndexOfName;
    assert [a, b][..1] == [a] && [a][..0] == [];
    assert MaxIndex([a], prefix) == IndexOfName(a, prefix);
  }

  /** A name in use at the position where numbering would give it again. */
  lemma Taken(existing: seq<string>, prefix: string, largest: nat, count: nat, i: nat)
    requires MaxIndex(existing, prefix) == largest && i < count
    requires RunnerName(prefix, Wrap(Next(existing, prefix) + i)) in existing
    ensures !AlwaysFresh(prefix, largest, count)
  {
    hide MaxIndex, RunnerName, Next, Wrap;
    var names := NamesFrom(prefix, Next(existing, prefix), count);
    InEither(names[i], existing, names[..i]);
    assert !Fresh(names, existing);
  }

  lemma InEither(x: string, a: seq<string>, b: seq<string>)
    ensures x in a + b <==> x in a || x in b
  {
  }

  /**
   Numbering gives unused names for every list of existing names with a given largest index exactly
   when it is safe: no overflow, and no empty prefix once an index is in use.
   */
  lemma FreshIffSafe(prefix: string, largest: nat, count: nat)
    requires largest <= MAX_INT
    ensures AlwaysFresh(prefix, largest, count) <==> Safe(prefix, largest, count)
  {
    hide RunnerName, IndexOfName, MaxIndex, NamesFrom, Fresh;
    if Safe(prefix, largest, count) {
      forall existing | MaxIndex(existing, prefix) == largest
        ensures Fresh(NamesFrom(prefix, Next(existing, prefix), count), existing)
      {
        SafeIsFresh(existing, prefix, count);
      }
    } else {
      var last := RunnerName(prefix, largest);
      NameIndex(prefix, largest);
      if prefix == "" && largest > 0 {
        NameIndex(prefix, 1);
        TwoNames(prefix, RunnerName(prefix, 1), last);
        Taken([RunnerName(prefix, 1), last], prefix, largest, count, 0);
      } else {
        NegativeNameIndex(prefix, MIN_INT);
        TwoNames(prefix, last, RunnerName(prefix, MIN_INT));
        Taken([last, RunnerName(prefix, MIN_INT)], prefix, largest, count, MAX_INT - largest) by { OneTooFar(largest); }
      }
    }
  }

  lemma OneTooFar(largest: nat)
    requires largest <= MAX_INT
    ensures Wrap(Wrap(largest + 1) + (MAX_INT - largest)) == MIN_INT
  {
  }

  // ---- The plan ----

  const MAX_ADD_COUNT := 50
  const MAX_NAME_LEN := 64

  /** Why a plan is refused; `BadPlace` stands for the checks of URL, directory and labels. */
  datatype Refusal =
    BadCount | BadStart | BadPlace | EmptyName | LeadingDash | NameTooLong | BadNameChar | DuplicateName

  /**
   What is asked for: names given one by one, or a prefix, a start index and a count. `placed` says
   whether URL, directory and labels pass their own checks.
   */
  datatype Spec = Spec(given: seq<string>, prefix: string, start: int, count: int, placed: bool,
                       group: string, user: string, workDir: string)

  predicate LeadsDash(s: string) {
    s != "" && s[0] == '-'
  }

  predicate IsSafeChar(c: char) {
    'a' <= c <= 'z' || 'A' <= c <= 'Z' || IsDigit(c) || c == '-' || c == '_' || c == '.'
  }

  /** The check of one name against those in use and those planned before it. */
  function NameRefusal(name: string, taken: seq<string>): Option<Refusal> {
    if name == "" then Some(EmptyName)
    else if name[0] == '-' then Some(LeadingDash)
    else if |name| > MAX_NAME_LEN then Some(NameTooLong)
    else if exists i :: 0 <= i < |name| && !IsSafeChar(name[i]) then Some(BadNameChar)
    else if name in taken then Some(DuplicateName)
    else None
  }

  /** The refusal of the first name that is refused. */
  function FirstRefusal(names: seq<string>, existing: seq<string>): Option<Refusal> {
    if names == [] then None
    else
      var n := |names| - 1;
      var before := FirstRefusal(names[..n], existing);
      if before.Some? then before else NameRefusal(names[n], existing + names[..n])
  }

  /** The refusal of what is asked for, before any name is looked at. Given names need neither count nor start. */
  function GuardRefusal(spec: Spec): Option<Refusal> {
    var count := if spec.given != [] then |spec.given| else spec.count;
    var start := if spec.given != [] then 1 else spec.start;
    if count < 1 || count > MAX_ADD_COUNT then Some(BadCount)
    else if start < 1 then Some(BadStart)
    else if !spec.placed then Some(BadPlace)
    else if spec.prefix == "" && spec.given == [] then Some(EmptyName)
    else if LeadsDash(spec.prefix) || LeadsDash(spec.group) || LeadsDash(spec.user) || LeadsDash(spec.workDir) then
      Some(LeadingDash)
    else None
  }

  function Planned(spec: Spec): seq<string>
    requires GuardRefusal(spec) == None
  {
    if spec.given != [] then spec.given else NamesFrom(spec.prefix, spec.start, spec.count)
  }

  function PlanRefusal(spec: Spec, existing: seq<string>): Option<Refusal> {
    var guard := GuardRefusal(spec);
    if guard.Some? then guard else FirstRefusal(Planned(spec), existing)
  }

  method PlanAdd(spec: Spec, existing: seq<string>) returns (names: seq<string>, refusal: Option<Refusal>)
    ensures refusal == PlanRefusal(spec, existing)
    ensures refusal.None? ==> names == Planned(spec) && Fresh(names, existing)
  {
    names := [];
    refusal := Prepare(spec);
    if refusal.Some? {
      return;
    }
    if |spec.given| > 0 {
      names := spec.given;
    } else {
      names := Names(spec.prefix, spec.start, spec.count);
    }
    refusal := CheckNames(names, existing);
    if refusal.None? {
      NoRefusalIff(names, existing);
    }
  }

  method Prepare(spec: Spec) returns (refusal: Option<Refusal>)
    ensures refusal == GuardRefusal(spec)
  {
    var count, start := spec.count, spec.start;
    if |spec.given| > 0 {
      count, start := |spec.given|, 1;
    }
    if count < 1 || count > MAX_ADD_COUNT {
      return Some(BadCount);
    }
    if start < 1 {
      return Some(BadStart);
    }
    if !spec.placed {
      return Some(BadPlace);
    }
    if spec.prefix == "" && |spec.given| == 0 {
      return Some(EmptyName);
    }
    if LeadsDash(spec.prefix) {
      return Some(LeadingDash);
    }
    if spec.group != "" && LeadsDash(spec.group) {
      return Some(LeadingDash);
    }
    if spec.user != "" && LeadsDash(spec.user) {
      return Some(LeadingDash);
    }
    if LeadsDash(spec.workDir) {
      return Some(LeadingDash);
    }
    return None;
  }

  method CheckNames(names: seq<string>, existing: seq<string>) returns (refusal: Option<Refusal>)
    ensures refusal == FirstRefusal(names, existing)
  {
    for i := 0 to |names|
      invariant FirstRefusal(names[..i], existing) == None
    {
      hide FirstRefusal, NameRefusal;
      RefusalStep(names, existing, i);
      refusal := NameRefusal(names[i], existing + names[..i]);
      if refusal.Some? {
        RefusalStays(names, existing, i + 1);
        return;
      }
    }
    assert names[..|names|] == names;
    refusal := None;
  }

  lemma RefusalStep(names: seq<string>, existing: seq<string>, i: nat)
    requires i < |names|
    ensures FirstRefusal(names[..i + 1], existing) ==
            if FirstRefusal(names[..i], existing).Some? then FirstRefusal(names[..i], existing)
            else NameRefusal(names[i], existing + names[..i])
  {
    assert names[..i + 1][..i] == names[..i];
  }

  lemma {:induction false} RefusalStays(names: seq<string>, existing: seq<string>, i: nat)
    requires i <= |names| && FirstRefusal(names[..i], existing).Some?
    ensures FirstRefusal(names, existing) == FirstRefusal(names[..i], existing)
    decreases |names| - i
  {
    if i < |names| {
      RefusalStep(names, existing, i);
      RefusalStays(names, existing, i + 1);
    } else {
      assert names[..i] == names;
    }
  }

  /** A name that could be registered if nobody had it. */
  predicate WellFormedName(name: string) {
    && name != "" && name[0] != '-' && |name| <= MAX_NAME_LEN
    && forall i :: 0 <= i < |name| ==> IsSafeChar(name[i])
  }

  lemma RefusalOfName(name: string, taken: seq<string>)
    ensures NameRefusal(name, taken) == None <==> WellFormedName(name) && name !in taken
    ensures NameRefusal(name, taken) == Some(DuplicateName) <==> WellFormedName(name) && name in taken
  {
  }

  /**
   A plan goes through exactly when nothing is wrong with what is asked for and its names are well formed,
   distinct and unused.
   */
  lemma PlannedIff(spec: Spec, existing: seq<string>)
    ensures PlanRefusal(spec, existing) == None <==>
            && GuardRefusal(spec) == None && Fresh(Planned(spec), existing)
            && forall i :: 0 <= i < |Planned(spec)| ==> WellFormedName(Planned(spec)[i])
  {
    hide FirstRefusal, NameRefusal, WellFormedName, Planned;
    if GuardRefusal(spec) == None {
      NoRefusalIff(Planned(spec), existing);
    }
  }

  lemma {:induction false} NoRefusalIff(names: seq<string>, existing: seq<string>)
    ensures FirstRefusal(names, existing) == None <==>
            Fresh(names, existing) && forall i :: 0 <= i < |names| ==> WellFormedName(names[i])
  {
    hide NameRefusal, WellFormedName;
    if names != [] {
      var n := |names| - 1;
      NoRefusalIff(names[..n], existing);
      RefusalOfName(names[n], existing + names[..n]);
      forall i | 0 <= i < n
        ensures names[..n][..i] == names[..i] && names[..n][i] == names[i]
      {
        TakeOfTake(names, n, i);
      }
      assert Fresh(names, existing) <==> Fresh(names[..n], existing) && names[n] !in existing + names[..n];
    }
  }

  /** A plan that is refused for a duplicate has a name in it that is well formed and taken. */
  lemma {:induction false} DuplicateIsTaken(names: seq<string>, existing: seq<string>) returns (i: nat)
    requires FirstRefusal(names, existing) == Some(DuplicateName)
    ensures i < |names| && WellFormedName(names[i]) && names[i] in existing + names[..i]
  {
    hide NameRefusal, WellFormedName;
    var n := |names| - 1;
    if FirstRefusal(names[..n], existing).Some? {
      i := DuplicateIsTaken(names[..n], existing);
      TakeOfTake(names, n, i);
    } else {
      RefusalOfName(names[n], existing + names[..n]);
      i := n;
    }
  }

  lemma TakeOfTake(names: seq<string>, n: nat, i: nat)
    requires i <= n <= |names|
    ensures names[..n][..i] == names[..i]
  {
  }

  /** The largest index in use leaves room for one more name but not for all that are planned. */
  predicate RunsOver(largest: nat, count: int) {
    largest < MAX_INT < largest + count
  }

  /** The plan from the next free index. */
  function FromNext(spec: Spec, existing: seq<string>): Spec {
    spec.(start := Next(existing, spec.prefix))
  }

  /** Every name up to the largest 64-bit number, and those after it, is short enough and well formed. */
  predicate FitsAllNames(prefix: string) {
    prefix != "" && prefix[0] != '-' && |prefix| <= 43 && forall i :: 0 <= i < |prefix| ==> IsSafeChar(prefix[i])
  }

  /** Some names in use, with the given largest index, make the duplicate check strike. */
  ghost predicate CanStrike(spec: Spec, largest: nat) {
    exists existing ::
      MaxIndex(existing, spec.prefix) == largest &&
      PlanRefusal(FromNext(spec, existing), existing) == Some(DuplicateName)
  }

  /**
   Planning from the next free index strikes the duplicate check for some names in use exactly when the
   indices run over the largest 64-bit number half way, all names there are well formed, and nothing
   else is wrong.
   */
  lemma DuplicateIff(spec: Spec, largest: nat)
    requires spec.given == []
    ensures CanStrike(spec, largest) <==>
            GuardRefusal(spec.(start := 1)) == None && FitsAllNames(spec.prefix) && RunsOver(largest, spec.count)
  {
    hide MaxIndex, FirstRefusal, FitsAllNames, NamesFrom;
    if CanStrike(spec, largest) {
      var existing :| MaxIndex(existing, spec.prefix) == largest &&
                      PlanRefusal(FromNext(spec, existing), existing) == Some(DuplicateName);
      StrikesOnlyThen(spec, existing);
    }
    if GuardRefusal(spec.(start := 1)) == None && FitsAllNames(spec.prefix) && RunsOver(largest, spec.count) {
      var existing := RunsOverStrikes(spec, largest);
    }
  }

  /** Whatever names are in use and whatever else is refused: never a duplicate unless the indices run over. */
  lemma NeverDuplicate(spec: Spec, existing: seq<string>)
    requires spec.given == [] && !RunsOver(MaxIndex(existing, spec.prefix), spec.count)
    ensures PlanRefusal(FromNext(spec, existing), existing) != Some(DuplicateName)
  {
    hide PlanRefusal, MaxIndex, FromNext;
    if PlanRefusal(FromNext(spec, existing), existing) == Some(DuplicateName) {
      StrikesOnlyThen(spec, existing);
    }
  }

  lemma StrikesOnlyThen(spec: Spec, existing: seq<string>)
    requires spec.given == [] && PlanRefusal(FromNext(spec, existing), existing) == Some(DuplicateName)
    ensures RunsOver(MaxIndex(existing, spec.prefix), spec.count) && FitsAllNames(spec.prefix)
    ensures GuardRefusal(spec.(start := 1)) == None
  {
    hide FirstRefusal, MaxIndex, NamesFrom, WellFormedName, FitsAllNames, RunnerName;
    var start, largest := Next(existing, spec.prefix), MaxIndex(existing, spec.prefix);
    MaxIndexInRange(existing, spec.prefix);
    assert Wrap(MAX_INT + 1) < 1;
    var names := NamesFrom(spec.prefix, start, spec.count);
    var i := DuplicateIsTaken(names, existing);
    if largest + i + 1 <= MAX_INT {
      LowNameIsNew(existing, spec.prefix, spec.count, i);
      assert false;
    }
    assert names[i] == RunnerName(spec.prefix, Wrap(start + i));
    LowNameFits(spec.prefix, Wrap(start + i));
  }

  /** A name whose index does not wrap is not taken. */
  lemma LowNameIsNew(existing: seq<string>, prefix: string, count: nat, i: nat)
    requires i < count && prefix != "" && MaxIndex(existing, prefix) + i + 1 <= MAX_INT
    ensures var names := NamesFrom(prefix, Next(existing, prefix), count); names[i] !in existing + names[..i]
  {
    hide MaxIndex, NamesFrom;
    var start := Next(existing, prefix);
    var names := NamesFrom(prefix, start, count);
    SafeIsFresh(existing, prefix, i + 1);
    NamesTake(prefix, start, count, i + 1);
    FreshAt(names[..i + 1], existing, i);
    TakeOfTake(names, i + 1, i);
  }

  /** A name with an index that wrapped is well formed only when the prefix leaves it room. */
  lemma LowNameFits(prefix: string, index: int)
    requires MIN_INT <= index < MIN_INT + MAX_ADD_COUNT && prefix != "" && prefix[0] != '-'
    requires WellFormedName(RunnerName(prefix, index))
    ensures FitsAllNames(prefix)
  {
    hide Digits, TenTo;
    TenTo18();
    DigitsFill(-index, 18);
    var name := RunnerName(prefix, index);
    assert |Itoa(index)| >= 20;
    assert forall i :: 0 <= i < |prefix| ==> prefix[i] == name[i];
  }

  lemma {:induction false} DigitsFill(n: nat, k: nat)
    requires n >= TenTo(k)
    ensures |Digits(n)| > k
  {
    if n >= 10 && k > 0 {
      assert n / 10 >= TenTo(k - 1);
      DigitsFill(n / 10, k - 1);
    }
  }

  lemma TenTo18()
    ensures TenTo(18) < MAX_INT - MAX_ADD_COUNT
  {
    assert TenTo(5) == 100000;
    assert TenTo(10) == 10000000000;
    assert TenTo(15) == 1000000000000000;
  }

  /** When the indices do run over, some names in use make the duplicate check strike. */
  lemma RunsOverStrikes(spec: Spec, largest: nat) returns (existing: seq<string>)
    requires spec.given == [] && GuardRefusal(spec.(start := 1)) == None
    requires FitsAllNames(spec.prefix) && RunsOver(largest, spec.count)
    ensures MaxIndex(existing, spec.prefix) == largest
    ensures PlanRefusal(FromNext(spec, existing), existing) == Some(DuplicateName)
  {
    var prefix, count := spec.prefix, spec.count;
    hide MaxIndex, IndexOfName, RunnerName, NamesFrom, FirstRefusal;
    var low := RunnerName(prefix, MIN_INT);
    existing := [RunnerName(prefix, largest), low];
    NameIndex(prefix, largest);
    NegativeNameIndex(prefix, MIN_INT);
    TwoNames(prefix, existing[0], low);
    var start := Next(existing, prefix);
    assert start == largest + 1;
    var names := NamesFrom(prefix, start, count);
    var n := MAX_INT - largest;
    assert names[n] == low by { assert Wrap(start + n) == MIN_INT; }
    SafeIsFresh(existing, prefix, n);
    NamesTake(prefix, start, count, n);
    forall i | 0 <= i < n
      ensures NameRefusal(names[i], existing + names[..i]) == None
    {
      assert names[..n][i] == names[i];
      TakeOfTake(names, n, i);
      FreshAt(names[..n], existing, i);
      PassesAlone(prefix, start + i, existing + names[..i]);
    }
    NoRefusal(names, existing, n);
    PassesAlone(prefix, MIN_INT, []);
    InEither(low, existing, names[..n]);
    RefusalStep(names, existing, n);
    RefusalStays(names, existing, n + 1);
  }

  lemma FreshAt(names: seq<string>, existing: seq<string>, i: nat)
    requires Fresh(names, existing) && i < |names|
    ensures names[i] !in existing + names[..i]
  {
  }

  lemma NamesTake(prefix: string, start: int, count: nat, n: nat)
    requires n <= count
    ensures NamesFrom(prefix, start, count)[..n] == NamesFrom(prefix, start, n)
  {
  }

  lemma {:induction false} NoRefusal(names: seq<string>, existing: seq<string>, n: nat)
    requires n <= |names| && forall i :: 0 <= i < n ==> NameRefusal(names[i], existing + names[..i]) == None
    ensures FirstRefusal(names[..n], existing) == None
  {
    hide NameRefusal;
    if n > 0 {
      NoRefusal(names, existing, n - 1);
      RefusalStep(names, existing, n - 1);
    }
  }

  /** A name of a well-formed prefix is refused only when it is taken. */
  lemma PassesAlone(prefix: string, index: int, taken: seq<string>)
    requires FitsAllNames(prefix) && MIN_INT <= index <= MAX_INT
    ensures var name := RunnerName(prefix, index);
            NameRefusal(name, taken) == if name in taken then Some(DuplicateName) else None
  {
    ItoaFits(index);
    var name := RunnerName(prefix, index);
    hide Itoa;
    assert name[0] == prefix[0];
    forall i | 0 <= i < |name|
      ensures IsSafeChar(name[i])
    {
      if i > |prefix| {
        assert name[i] == Itoa(index)[i - |prefix| - 1];
      }
    }
  }

  lemma ItoaFits(index: int)
    requires MIN_INT <= index <= MAX_INT
    ensures |Itoa(index)| <= 20 && forall i :: 0 <= i < |Itoa(index)| ==> IsSafeChar(Itoa(index)[i])
  {
    var n := if index < 0 then -index else index;
    TenTo19();
    DigitsFit(n, 19);
    hide Digits;
    assert index < 0 ==> Itoa(index)[0] == '-' && Itoa(index)[1..] == Digits(n);
  }

  function TenTo(k: nat): (r: nat)
    ensures r > 0
  {
    if k == 0 then 1 else 10 * TenTo(k - 1)
  }

  lemma TenTo19()
    ensures TenTo(19) > MAX_INT + 1
  {
    assert TenTo(5) == 100000;
    assert TenTo(10) == 10000000000;
    assert TenTo(15) == 1000000000000000;
  }

  lemma {:induction false} DigitsFit(n: nat, k: nat)
    requires k > 0 && n < TenTo(k)
    ensures |Digits(n)| <= k
  {
    if n >= 10 {
      assert n / 10 < TenTo(k - 1);
      DigitsFit(n / 10, k - 1);
    }
  }

  // ---- Numbers and names as they are written ----

  lemma DigitIs(n: nat)
    requires n < 10
    ensures Digits(n) == ["0123456789"[n]]
  {
    assert '0' + n as char == "0123456789"[n];
  }

  /** Numbers are printed without leading zeros. */
  lemma {:induction false} NoLeadingZero(n: nat)
    requires n > 0
    ensures Digits(n)[0] != '0'
  {
    if n >= 10 {
      NoLeadingZero(n / 10);
      assert Digits(n)[0] == Digits(n / 10)[0];
    } else {
      DigitIs(n);
    }
  }

  function Zeros(z: nat): (s: string)
    ensures |s| == z && forall i :: 0 <= i < z ==> s[i] == '0'
  {
    seq(z, _ => '0')
  }

  /** Leading zeros do not count. */
  lemma {:induction false} ZerosIgnored(z: nat, s: string)
    requires forall i :: 0 <= i < |s| ==> IsDigit(s[i])
    ensures ValueOf(Zeros(z) + s) == ValueOf(s)
    decreases z + |s|
  {
    var all := Zeros(z) + s;
    if s == "" {
      if z > 0 {
        assert all[..|all| - 1] == Zeros(z - 1) + "";
        ZerosIgnored(z - 1, "");
      }
    } else {
      assert all[..|all| - 1] == Zeros(z) + s[..|s| - 1];
      ZerosIgnored(z, s[..|s| - 1]);
    }
  }

  /**
   The index of a name: the number behind the prefix and a hyphen, zeros in front of it allowed, while it
   fits 64 bits.
   */
  lemma IndexIs(prefix: string, z: nat, n: nat)
    ensures IndexOfName(prefix + "-" + (Zeros(z) + Digits(n)), prefix) == if n <= 0x7FFF_FFFF_FFFF_FFFF then n else 0
  {
    var head, rest := prefix + "-", Zeros(z) + Digits(n);
    assert (head + rest)[|head|..] == rest;
    ZerosIgnored(z, Digits(n));
    DigitsValue(n);
  }

  /** A name that is not the prefix, a hyphen and digits has none. */
  lemma NoIndex(prefix: string, name: string)
    requires forall rest: string :: name == prefix + "-" + rest ==>
               rest == "" || exists i :: 0 <= i < |rest| && !('0' <= rest[i] <= '9')
    ensures IndexOfName(name, prefix) == 0
  {
    var head := prefix + "-";
    if head <= name {
      assert name == prefix + "-" + name[|head|..];
    }
  }

  /** The largest index is one that a name has, or 0 when none has any. */
  lemma {:induction false} MaxIndexIsOne(existing: seq<string>, prefix: string)
    ensures MaxIndex(existing, prefix) == 0 ||
            exists name :: name in existing && IndexOfName(name, prefix) == MaxIndex(existing, prefix)
  {
    if existing != [] {
      var n := |existing| - 1;
      MaxIndexIsOne(existing[..n], prefix);
      assert existing[n] in existing && forall name :: name in existing[..n] ==> name in existing;
    }
  }

  /** `run` counts up from `first`, without a gap. */
  lemma InRun(c: char, first: char, run: string)
    requires first as int + |run| <= 0x80 && forall i :: 0 <= i < |run| ==> run[i] as int == first as int + i
    ensures c in run <==> first as int <= c as int < first as int + |run|
  {
    if first as int <= c as int < first as int + |run| {
      assert run[c as int - first as int] == c;
    }
  }

  /** The characters of a name: letters, digits, hyphen, underscore and dot. */
  lemma SafeCharIff(c: char)
    ensures IsSafeChar(c) <==>
            || c in "abcdefghijklmnopqrstuvwxyz" || c in "ABCDEFGHIJKLMNOPQRSTUVWXYZ"
            || c in "0123456789" || c in "-_."
  {
    InRun(c, 'a', "abcdefghijklmnopqrstuvwxyz");
    InRun(c, 'A', "ABCDEFGHIJKLMNOPQRSTUVWXYZ");
    InRun(c, '0', "0123456789");
  }

  /** Which refusal a name gets, when several would apply. */
  lemma RefusalIs(name: string, taken: seq<string>)
    ensures NameRefusal(name, taken) == Some(EmptyName) <==> name == ""
    ensures NameRefusal(name, taken) == Some(LeadingDash) <==> name != "" && name[0] == '-'
    ensures NameRefusal(name, taken) == Some(NameTooLong) <==> |name| > 64 && name[0] != '-'
    ensures NameRefusal(name, taken) == Some(BadNameChar) <==>
            0 < |name| <= 64 && name[0] != '-' && exists i :: 0 <= i < |name| && !IsSafeChar(name[i])
  {
  }

  /** The names asked for, one by one or by their number. */
  function Wanted(spec: Spec): int {
    if spec.given == [] then spec.count else |spec.given|
  }

  /**
   Which refusal the request itself gets: one to fifty names, numbered from one on if they are numbered,
   and nothing with a hyphen in front.
   */
  lemma GuardIs(spec: Spec)
    ensures GuardRefusal(spec) == Some(BadCount) <==> !(1 <= Wanted(spec) <= 50)
    ensures GuardRefusal(spec) == Some(BadStart) <==> 1 <= Wanted(spec) <= 50 && spec.given == [] && spec.start < 1
    ensures GuardRefusal(spec) == None <==>
            && 1 <= Wanted(spec) <= 50 && spec.placed
            && (spec.given == [] ==> spec.start >= 1 && spec.prefix != "")
            && forall s :: s in [spec.prefix, spec.group, spec.user, spec.workDir] ==> s == "" || s[0] != '-'
    ensures GuardRefusal(spec) == Some(EmptyName) ==> spec.given == [] && spec.prefix == ""
    ensures GuardRefusal(spec) == Some(LeadingDash) ==>
              exists s :: s in [spec.prefix, spec.group, spec.user, spec.workDir] && s != "" && s[0] == '-'
  {
    var all := [spec.prefix, spec.group, spec.user, spec.workDir];
    assert all[0] == spec.prefix && all[1] == spec.group && all[2] == spec.user && all[3] == spec.workDir;
  }
}
