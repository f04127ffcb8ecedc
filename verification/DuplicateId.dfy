/** Naming a duplicated app: the next free identifier after the original's. */
module DuplicateId {
  import opened Wrappers
  import opened Text

  const U64_LIMIT := 0x1_0000_0000_0000_0000

  // ----- The trailing digits -----

  /** How many characters come before the longest run of digits at the end. */
  function DigitStart(id: string): (r: nat)
    ensures r <= |id|
  {
    if id != "" && IsDigit(id[|id| - 1]) then DigitStart(id[..|id| - 1]) else |id|
  }

  lemma {:induction false} DigitStartIs(id: string)
    ensures AllDigits(id[DigitStart(id)..])
    ensures DigitStart(id) > 0 ==> !IsDigit(id[DigitStart(id) - 1])
  {
    if id != "" && IsDigit(id[|id| - 1]) {
      var rest := id[..|id| - 1];
      DigitStartIs(rest);
      var k := DigitStart(rest);
      assert id[k..] == rest[k..] + [id[|id| - 1]];
    }
  }

  /** The pattern needs a digit at the end, and no line break before the digits. */
  predicate HasSuffix(id: string) {
    DigitStart(id) < |id| && '\n' !in id[..DigitStart(id)]
  }

  function Suffix(id: string): (r: string)
    ensures AllDigits(r)
  {
    DigitStartIs(id);
    id[DigitStart(id)..]
  }

  /** The suffix is a number of 64 bits. */
  predicate HasNumber(id: string) {
    HasSuffix(id) && DigitsValue(Suffix(id)) < U64_LIMIT
  }

  function Base(id: string): string {
    if HasNumber(id) then id[..DigitStart(id)] else id
  }

  /** The first number to try; the counter wraps around. */
  function FirstNumber(id: string): nat {
    if HasNumber(id) then (DigitsValue(Suffix(id)) + 1) % U64_LIMIT else 1
  }

  function Candidate(id: string, k: nat): string {
    Base(id) + Numeral((FirstNumber(id) + k) % U64_LIMIT)
  }

  /** Identifiers are compared exactly, names up to case. */
  predicate IsTaken(candidate: string, taken: set<string>, folded: bool) {
    (if folded then ToLower(candidate) else candidate) in taken
  }

  // ----- What the candidates are -----

  lemma {:induction false} DigitStartOf(stem: string, digits: string)
    requires AllDigits(digits) && (stem == "" || !IsDigit(stem[|stem| - 1]))
    ensures DigitStart(stem + digits) == |stem|
  {
    var id := stem + digits;
    if digits == "" {
      assert id == stem;
    } else {
      assert id[|id| - 1] == digits[|digits| - 1] && digits[|digits| - 1] in digits;
      assert id[..|id| - 1] == stem + digits[..|digits| - 1];
      DigitStartOf(stem, digits[..|digits| - 1]);
    }
  }

  /** A number at the end is counted on, from the next one, as long as it has 64 bits and no line break comes
      before it; to any other identifier the numbers from 1 on are appended. Numbers wrap around at 2^64. */
  lemma CandidateIs(stem: string, digits: string, k: nat)
    requires AllDigits(digits) && (stem == "" || !IsDigit(stem[|stem| - 1]))
    ensures Candidate(stem + digits, k) ==
            if digits != "" && '\n' !in stem && DigitsValue(digits) < 0x1_0000_0000_0000_0000
            then stem + Numeral((DigitsValue(digits) + 1 + k) % 0x1_0000_0000_0000_0000)
            else stem + digits + Numeral((1 + k) % 0x1_0000_0000_0000_0000)
  {
    WhenCounted(stem, digits);
    hide HasNumber, DigitStart, Suffix, DigitsValue, AllDigits, IsDigit, Numeral;
    var id := stem + digits;
    if HasNumber(id) {
      WrapAdd(DigitsValue(digits) + 1, k);
    }
  }

  lemma WhenCounted(stem: string, digits: string)
    requires AllDigits(digits) && (stem == "" || !IsDigit(stem[|stem| - 1]))
    ensures var id := stem + digits;
            && (HasNumber(id) <==>
                digits != "" && '\n' !in stem && DigitsValue(digits) < 0x1_0000_0000_0000_0000)
            && id[..DigitStart(id)] == stem && Suffix(id) == digits
  {
    DigitStartOf(stem, digits);
    hide DigitsValue, DigitStart, AllDigits, IsDigit;
    var id := stem + digits;
    assert id[..|stem|] == stem && id[|stem|..] == digits;
  }

  lemma WrapAdd(a: nat, k: nat)
    ensures (a % U64_LIMIT + k) % U64_LIMIT == (a + k) % U64_LIMIT
  {
    var q := a / U64_LIMIT;
    assert a + k == U64_LIMIT * q + (a % U64_LIMIT + k);
  }

  // ----- Enough candidates -----

  lemma NumeralsDiffer(a: nat, b: nat)
    ensures Numeral(a) == Numeral(b) ==> a == b
  {
    NumeralValue(a);
    NumeralValue(b);
  }

  lemma LowerNumeral(base: string, n: nat)
    ensures ToLower(base + Numeral(n)) == ToLower(base) + Numeral(n)
  {
    var s := Numeral(n);
    assert forall i :: 0 <= i < |s| ==> s[i] in s && IsDigit(s[i]);
    hide Numeral;
    assert ToLower(base + s) == ToLower(base) + s;
  }

  function KeyOf(id: string, k: nat, folded: bool): string {
    if folded then ToLower(Candidate(id, k)) else Candidate(id, k)
  }

  lemma SplitKey(id: string, k: nat, folded: bool)
    ensures KeyOf(id, k, folded)
            == (if folded then ToLower(Base(id)) else Base(id)) + Numeral((FirstNumber(id) + k) % U64_LIMIT)
  {
    LowerNumeral(Base(id), (FirstNumber(id) + k) % U64_LIMIT);
    hide Base, FirstNumber, Numeral, ToLower;
  }

  /** Up to 2^64 consecutive candidates are all different, also up to case. */
  lemma CandidatesDiffer(id: string, j: nat, k: nat, folded: bool)
    requires j < k < j + U64_LIMIT
    ensures KeyOf(id, j, folded) != KeyOf(id, k, folded)
  {
    hide Base, FirstNumber, Numeral, ToLower, KeyOf;
    var first := FirstNumber(id);
    var m, n := (first + j) % U64_LIMIT, (first + k) % U64_LIMIT;
    NumeralsDiffer(m, n);
    SplitKey(id, j, folded);
    SplitKey(id, k, folded);
    var b := if folded then ToLower(Base(id)) else Base(id);
    assert (b + Numeral(m))[|b|..] == Numeral(m) && (b + Numeral(n))[|b|..] == Numeral(n);
  }

  /** The base and the first number to try. */
  method ParseIdentifier(id: string) returns (base: string, nextNum: nat)
    ensures base == Base(id) && nextNum == FirstNumber(id) && nextNum < U64_LIMIT
  {
    hide DigitsValue, DigitStart;
    base, nextNum := id, 1;
    var start := DigitStart(id);
    if start < |id| && '\n' !in id[..start] {
      DigitStartIs(id);
      var num := DigitsValue(id[start..]);
      if num < U64_LIMIT {
        base := id[..start];
        nextNum := (num + 1) % U64_LIMIT;
      }
    }
  }

  /** The keys of the first candidates. */
  ghost function KeysBefore(id: string, folded: bool, n: nat): set<string> {
    if n == 0 then {} else KeysBefore(id, folded, n - 1) + {KeyOf(id, n - 1, folded)}
  }

  lemma {:induction false} KeysBeforeAre(id: string, folded: bool, n: nat, key: string)
    ensures key in KeysBefore(id, folded, n) <==> exists j :: 0 <= j < n && KeyOf(id, j, folded) == key
  {
    hide KeyOf;
    if n > 0 {
      KeysBeforeAre(id, folded, n - 1, key);
    }
  }

  /** The first n candidates have n keys. */
  lemma {:induction false} KeysCount(id: string, folded: bool, n: nat)
    requires n <= U64_LIMIT
    ensures |KeysBefore(id, folded, n)| == n
  {
    hide KeyOf;
    if n > 0 {
      KeysCount(id, folded, n - 1);
      var key := KeyOf(id, n - 1, folded);
      forall j | 0 <= j < n - 1 ensures KeyOf(id, j, folded) != key {
        CandidatesDiffer(id, j, n - 1, folded);
      }
      KeysBeforeAre(id, folded, n - 1, key);
    }
  }

  lemma {:induction false} SubsetSize(a: set<string>, b: set<string>)
    requires a <= b
    ensures |a| <= |b|
  {
    assert b == a + (b - a);
    assert |b| == |a| + |b - a|;
  }

  /** All tried candidates are taken, so there are fewer of them than taken ones. */
  lemma OneMoreTry(id: string, taken: set<string>, folded: bool, steps: nat)
    requires KeysBefore(id, folded, steps) <= taken && steps <= |taken| < U64_LIMIT
    requires IsTaken(Candidate(id, steps), taken, folded)
    ensures KeysBefore(id, folded, steps + 1) <= taken && steps < |taken|
  {
    assert KeyOf(id, steps, folded) in taken;
    hide KeyOf, Candidate;
    KeysCount(id, folded, steps + 1);
    SubsetSize(KeysBefore(id, folded, steps + 1), taken);
  }

  /** The first free identifier, found within one more step than there are taken ones. */
  method ComputeDuplicateIdentifier(id: string, taken: set<string>, folded: bool)
    returns (candidate: string, ghost steps: nat)
    requires |taken| < U64_LIMIT
    ensures steps <= |taken| && candidate == Candidate(id, steps) && !IsTaken(candidate, taken, folded)
    ensures forall j :: 0 <= j < steps ==> IsTaken(Candidate(id, j), taken, folded)
  {
    hide Numeral, Base, FirstNumber, IsTaken;
    var base, nextNum := ParseIdentifier(id);
    candidate := base + Numeral(nextNum);
    steps := 0;
    assert KeysBefore(id, folded, 0) == {};
    hide KeysBefore;
    while IsTaken(candidate, taken, folded)
      invariant base == Base(id) && nextNum == (FirstNumber(id) + steps) % U64_LIMIT
      invariant candidate == Candidate(id, steps)
      invariant forall j :: 0 <= j < steps ==> IsTaken(Candidate(id, j), taken, folded)
      invariant KeysBefore(id, folded, steps) <= taken && steps <= |taken|
      decreases |taken| - steps
    {
      OneMoreTry(id, taken, folded, steps);
      nextNum := if nextNum + 1 == U64_LIMIT then 0 else nextNum + 1;
      candidate := base + Numeral(nextNum);
      steps := steps + 1;
    }
  }

  // ----- What the identifier looks like -----

  /** The duplicate keeps what precedes the trailing number, or the whole identifier without one. */
  lemma KeepsBase(id: string, k: nat)
    ensures Base(id) <= Candidate(id, k) && Base(id) <= id
    ensures HasNumber(id) <==> Base(id) != id
    ensures HasNumber(id) ==> id == Base(id) + Suffix(id) && Suffix(id) != ""
    ensures AllDigits(Candidate(id, k)[|Base(id)|..]) && Candidate(id, k)[|Base(id)|..] != ""
  {
    var n := Numeral((FirstNumber(id) + k) % U64_LIMIT);
    hide Numeral, DigitsValue;
    assert Candidate(id, k)[|Base(id)|..] == n;
    if HasNumber(id) {
      assert id == id[..DigitStart(id)] + id[DigitStart(id)..];
    }
  }

  /** The number after the largest one is zero. */
  lemma WrapsToZero(id: string)
    requires HasSuffix(id) && DigitsValue(Suffix(id)) == U64_LIMIT - 1
    ensures Candidate(id, 0) == Base(id) + Numeral(0)
  {
    hide Numeral, DigitsValue;
  }

  // ----- Duplicating an app -----

  datatype App = App(id: string, name: string, enabled: bool, published: bool)

  predicate DistinctIds(apps: seq<App>) {
    forall i, j :: 0 <= i < j < |apps| ==> apps[i].id != apps[j].id
  }

  predicate DistinctNames(apps: seq<App>) {
    forall i, j :: 0 <= i < j < |apps| ==> ToLower(apps[i].name) != ToLower(apps[j].name)
  }

  function IdsOf(apps: seq<App>): set<string> {
    set k | 0 <= k < |apps| :: apps[k].id
  }

  function NamesOf(apps: seq<App>): set<string> {
    set k | 0 <= k < |apps| :: ToLower(apps[k].name)
  }

  method CollectTaken(apps: seq<App>) returns (ids: set<string>, names: set<string>)
    ensures ids == IdsOf(apps) && names == NamesOf(apps)
    ensures |ids| <= |apps| && |names| <= |apps|
  {
    hide ToLower;
    ids, names := {}, {};
    var i := 0;
    while i < |apps|
      invariant 0 <= i <= |apps| && |ids| <= i && |names| <= i
      invariant ids == (set k | 0 <= k < i :: apps[k].id) && names == (set k | 0 <= k < i :: ToLower(apps[k].name))
    {
      ids := ids + {apps[i].id};
      names := names + {ToLower(apps[i].name)};
      i := i + 1;
    }
  }

  /** The first of the original's candidates that is not taken. */
  ghost predicate IsFirstFree(original: string, candidate: string, taken: set<string>, folded: bool) {
    exists k: nat :: k <= |taken| && candidate == Candidate(original, k) && !IsTaken(candidate, taken, folded)
                     && forall j :: 0 <= j < k ==> IsTaken(Candidate(original, j), taken, folded)
  }

  /** The first stored app of the identifier. */
  predicate IsOriginal(apps: seq<App>, appId: string, i: nat) {
    i < |apps| && apps[i].id == appId && forall k :: 0 <= k < i ==> apps[k].id != appId
  }

  lemma StillDistinct(apps: seq<App>, app: App)
    requires app.id !in IdsOf(apps) && ToLower(app.name) !in NamesOf(apps)
    ensures DistinctIds(apps) ==> DistinctIds(apps + [app])
    ensures DistinctNames(apps) ==> DistinctNames(apps + [app])
  {
    hide ToLower;
  }

  /** The stored apps, and at their end a disabled, unpublished duplicate of the first app of the
      identifier, whose identifier and name are the first free ones after the original's. */
  method DuplicateApp(apps: seq<App>, appId: string) returns (after: Option<seq<App>>)
    requires |apps| < U64_LIMIT
    ensures after.Some? <==> exists i: nat :: IsOriginal(apps, appId, i)
    ensures forall i: nat :: after.Some? && IsOriginal(apps, appId, i) ==>
      && |after.value| == |apps| + 1 && after.value[..|apps|] == apps
      && IsFirstFree(apps[i].id, after.value[|apps|].id, IdsOf(apps), false)
      && IsFirstFree(apps[i].name, after.value[|apps|].name, NamesOf(apps), true)
      && !after.value[|apps|].enabled && !after.value[|apps|].published
      && (DistinctIds(apps) ==> DistinctIds(after.value))
      && (DistinctNames(apps) ==> DistinctNames(after.value))
  {
    hide ToLower, Candidate, DistinctIds, DistinctNames, IdsOf, NamesOf;
    var index := 0;
    while index < |apps| && apps[index].id != appId
      invariant 0 <= index <= |apps| && forall k :: 0 <= k < index ==> apps[k].id != appId
    {
      index := index + 1;
    }
    if index == |apps| {
      return None;
    }
    assert IsOriginal(apps, appId, index);
    var original := apps[index];
    var ids, names := CollectTaken(apps);
    var newId, idSteps := ComputeDuplicateIdentifier(original.id, ids, false);
    var newName, nameSteps := ComputeDuplicateIdentifier(original.name, names, true);
    var duplicated := App(newId, newName, false, false);
    assert IsFirstFree(original.id, newId, ids, false) && IsFirstFree(original.name, newName, names, true);
    StillDistinct(apps, duplicated);
    hide IsFirstFree;
    assert forall i: nat :: IsOriginal(apps, appId, i) ==> i == index;
    after := Some(apps + [duplicated]);
  }
}
