/** What a cron expression means: a grammar of expressions, and the seconds at which both programs
    fire the expressions it writes. */
module CronMeaning {
  import opened Wrappers
  import opened Text
  import Calendar
  import opened CronSchedule
  import opened CronParse

  // ----- The grammar -----

  function Unsigned(s: string): string {
    if s != "" && s[0] == '+' then s[1..] else s
  }

  /** A decimal number, possibly with a plus sign. */
  predicate IsNumber(s: string) {
    Unsigned(s) != "" && AllDigits(Unsigned(s))
  }

  function Val(s: string): nat
    requires IsNumber(s)
  {
    DigitsValue(Unsigned(s))
  }

  /** One item of a field: a value, a range, or steps through the whole field, from a value on or
      through a range. */
  datatype Item =
    | Value(n: string)
    | Range(lo: string, hi: string)
    | Whole(star: string, step: string)
    | From(n: string, step: string)
    | Steps(lo: string, hi: string, step: string)

  datatype Field = Every(mark: string) | List(items: seq<Item>)

  predicate IsItem(i: Item) {
    match i
    case Value(n) => IsNumber(n)
    case Range(lo, hi) => IsNumber(lo) && IsNumber(hi)
    case Whole(star, step) => (star == "*" || star == "") && IsNumber(step)
    case From(n, step) => IsNumber(n) && IsNumber(step)
    case Steps(lo, hi, step) => IsNumber(lo) && IsNumber(hi) && IsNumber(step)
  }

  predicate IsField(f: Field) {
    match f
    case Every(mark) => mark == "*" || mark == "?"
    case List(items) => items != [] && forall i :: i in items ==> IsItem(i)
  }

  function BaseText(i: Item): string {
    match i
    case Value(n) => n
    case Range(lo, hi) => lo + "-" + hi
    case Whole(star, _) => star
    case From(n, _) => n
    case Steps(lo, hi, _) => lo + "-" + hi
  }

  function ItemText(i: Item): string {
    if i.Value? || i.Range? then BaseText(i) else BaseText(i) + "/" + i.step
  }

  function ItemTexts(items: seq<Item>): (r: seq<string>)
    ensures |r| == |items| && forall k :: 0 <= k < |r| ==> r[k] == ItemText(items[k])
  {
    seq(|items|, k requires 0 <= k < |items| => ItemText(items[k]))
  }

  function Joined(pieces: seq<string>, sep: char): string {
    if pieces == [] then "" else if |pieces| == 1 then pieces[0] else pieces[0] + [sep] + Joined(pieces[1..], sep)
  }

  function FieldText(f: Field): string {
    match f
    case Every(mark) => mark
    case List(items) => Joined(ItemTexts(items), ',')
  }

  // ----- What an item stands for -----

  predicate IsStepped(i: Item) {
    !i.Value? && !i.Range?
  }

  function Start(i: Item, min: int): int
    requires IsItem(i)
  {
    match i
    case Value(n) => Val(n)
    case Range(lo, _) => Val(lo)
    case Whole(_, _) => min
    case From(n, _) => Val(n)
    case Steps(lo, _, _) => Val(lo)
  }

  function End(i: Item, max: int): int
    requires IsItem(i)
  {
    match i
    case Value(n) => Val(n)
    case Range(_, hi) => Val(hi)
    case Whole(_, _) => max
    case From(_, _) => max
    case Steps(_, hi, _) => Val(hi)
  }

  /** The bounds an item has to keep, and the size of its step. */
  predicate Fits(i: Item, min: int, max: int)
    requires IsItem(i)
  {
    && min <= Start(i, min) <= End(i, max) <= max
    && (IsStepped(i) ==> 0 < Val(i.step) < 0x8000_0000_0000_0000)
  }

  /** The value lies between the ends, at a whole number of steps from the first. */
  predicate AtStep(start: int, end: int, step: int, x: int)
    requires step > 0
  {
    start <= x <= end && (x - start) % step == 0
  }

  predicate Admits(i: Item, min: int, max: int, x: int)
    requires IsItem(i) && Fits(i, min, max)
  {
    if IsStepped(i) then AtStep(Start(i, min), End(i, max), Val(i.step), x) else Start(i, min) <= x <= End(i, max)
  }

  /** The value an item steps to first, or 0. */
  function FirstStep(i: Item, min: int): int
    requires IsItem(i)
  {
    if IsStepped(i) then Start(i, min) + Val(i.step) else 0
  }

  predicate FieldFits(f: Field, min: int, max: int)
    requires IsField(f)
  {
    f.List? ==> forall i :: i in f.items ==> Fits(i, min, max)
  }

  predicate FieldAdmits(f: Field, min: int, max: int, x: int)
    requires IsField(f) && FieldFits(f, min, max)
  {
    match f
    case Every(_) => min <= x <= max
    case List(items) => exists i :: i in items && Admits(i, min, max, x)
  }

  /** The steps of a field stay below the limit. */
  predicate StepsBelow(f: Field, min: int, limit: int)
    requires IsField(f)
  {
    f.List? ==> forall i :: i in f.items ==> FirstStep(i, min) < limit
  }

  // ----- Texts -----

  lemma NumberIsClean(s: string)
    requires IsNumber(s)
    ensures s != "" && '/' !in s && ',' !in s && '-' !in s && '*' !in s && '?' !in s && NoSpace(s)
  {
    DigitsClean(Unsigned(s));
    assert forall c :: c in s ==> c == '+' || c in Unsigned(s);
  }

  lemma NumberIsRead(s: string)
    requires IsNumber(s)
    ensures Atoi(s) == if Val(s) < 0x8000_0000_0000_0000 then Some(Val(s) as int) else None
    ensures ParseU32(s) == if Val(s) < 0x1_0000_0000 then Some(Val(s) as int) else None
  {
    NumberIsClean(s);
    assert s[0] in s;
  }

  lemma BaseIsClean(i: Item)
    requires IsItem(i)
    ensures var b := BaseText(i);
            '/' !in b && ',' !in b && NoSpace(b) && (!i.Whole? ==> b != "" && b != "*" && b != "?")
    ensures (i.Range? || i.Steps?) ==> Split(BaseText(i), '-') == [i.lo, i.hi] && '-' in BaseText(i)
    ensures (i.Value? || i.From?) ==> '-' !in BaseText(i)
  {
    match i
    case Value(n) => NumberIsClean(n);
    case Whole(_, _) =>
    case From(n, _) => NumberIsClean(n);
    case Range(lo, hi) => RangeIsClean(lo, hi);
    case Steps(lo, hi, _) => RangeIsClean(lo, hi);
  }

  lemma RangeIsClean(lo: string, hi: string)
    requires IsNumber(lo) && IsNumber(hi)
    ensures var b := lo + "-" + hi;
            '/' !in b && ',' !in b && NoSpace(b) && b != "" && b != "*" && b != "?"
            && Split(b, '-') == [lo, hi] && '-' in b
  {
    NumberIsClean(lo);
    NumberIsClean(hi);
    SplitTwo(lo, hi, '-');
    var b := lo + "-" + hi;
    assert b == lo + ['-'] + hi && b[|lo|] == '-';
    hide IsNumber, Split;
  }

  lemma ItemIsClean(i: Item)
    requires IsItem(i)
    ensures var t := ItemText(i);
            t != "" && t != "*" && t != "?" && ',' !in t && NoSpace(t) && Trim(t) == t
    ensures !i.Value? && !i.Range? ==> '/' in ItemText(i) && Split(ItemText(i), '/') == [BaseText(i), i.step]
    ensures i.Value? || i.Range? ==> '/' !in ItemText(i)
  {
    var t, b := ItemText(i), BaseText(i);
    BaseIsClean(i);
    if !i.Value? && !i.Range? {
      NumberIsClean(i.step);
      SplitTwo(b, i.step, '/');
      assert t == b + ['/'] + i.step && t[|b|] == '/';
    }
    hide IsNumber, Split, BaseText;
    TrimClean(t);
  }

  // ----- Reading an item -----

  lemma SameRemainder(a: int, b: int)
    requires b > 0
    ensures (a - b) % b == a % b
    ensures 0 < a < b ==> a % b != 0
  {
    var q := (a - b) / b;
    assert a == (q + 1) * b + (a - b) % b;
    assert a / b == q + 1 by { QuotientIs(a, b, q + 1, (a - b) % b); }
  }

  lemma QuotientIs(a: int, b: int, q: int, r: int)
    requires b > 0 && a == q * b + r && 0 <= r < b
    ensures a / b == q && a % b == r
  {
    assert (a / b - q) * b == r - a % b;
    SmallMultiple(a / b - q, b);
  }

  lemma SmallMultiple(d: int, b: int)
    requires -b < d * b < b
    ensures d == 0
  {
  }

  lemma NextAtStep(start: int, end: int, step: int, x: int)
    requires step > 0
    ensures AtStep(start, end, step, x) <==> start <= end && (x == start || AtStep(start + step, end, step, x))
  {
    SameRemainder(x - start, step);
  }

  /** The marks of the controller's loop are the values at whole steps from the first. */
  lemma {:induction false} StepMarks(start: int, end: int, step: int, x: int)
    requires step > 0 && ControllerSteps(start, end, step).status == Accepted
    ensures x in ControllerSteps(start, end, step).marks <==> AtStep(start, end, step, x)
    decreases end - start
  {
    hide AtStep;
    NextAtStep(start, end, step, x);
    if start <= end {
      StepMarks(start + step, end, step, x);
    }
  }

  lemma BaseIsRead(i: Item, min: int, max: int)
    requires IsItem(i) && FieldRange(min, max) && IsStepped(i)
    ensures ControllerBase(BaseText(i), min, max) ==
            if min <= Start(i, min) <= End(i, max) <= max then Some((Start(i, min), End(i, max))) else None
    ensures (BaseText(i) == "*" || BaseText(i) == "" || ValidRangeOrNum(BaseText(i), min, max))
            <==> min <= Start(i, min) <= End(i, max) <= max
  {
    BaseIsClean(i);
    if i.From? {
      NumberIsRead(i.n);
    } else if i.Steps? {
      NumberIsRead(i.lo);
      NumberIsRead(i.hi);
    }
    hide Split, IsNumber, Val;
  }

  lemma PlainIsRead(i: Item, min: int, max: int)
    requires IsItem(i) && FieldRange(min, max) && !IsStepped(i)
    ensures ValidPart(ItemText(i), min, max) <==> Fits(i, min, max)
    ensures PartStepping(ItemText(i), min, max) == None
    ensures Fits(i, min, max) ==>
      forall x :: x in ControllerPart(ItemText(i), min, max).marks <==> Admits(i, min, max, x)
  {
    ItemIsClean(i);
    BaseIsClean(i);
    if i.Value? {
      NumberIsRead(i.n);
      hide Split, IsNumber, Val, Trim, Atoi, ControllerSteps, AtStep;
    } else {
      NumberIsRead(i.lo);
      NumberIsRead(i.hi);
      hide Split, IsNumber, Val, Trim, Atoi, ControllerSteps, AtStep;
    }
  }

  lemma SteppedIsValid(i: Item, min: int, max: int)
    requires IsItem(i) && FieldRange(min, max) && IsStepped(i)
    ensures ValidPart(ItemText(i), min, max) <==> Fits(i, min, max)
  {
    ItemIsClean(i);
    BaseIsRead(i, min, max);
    NumberIsRead(i.step);
    hide Split, IsNumber, Val, Trim, BaseText, ItemText, ControllerBase, ValidRangeOrNum, Start, End;
  }

  lemma SteppedIsRead(i: Item, min: int, max: int)
    requires IsItem(i) && FieldRange(min, max) && IsStepped(i)
    ensures PartStepping(ItemText(i), min, max) ==
            if Fits(i, min, max) then Some(Stepping(Start(i, min), End(i, max), Val(i.step))) else None
    ensures Fits(i, min, max) ==>
      ControllerPart(ItemText(i), min, max) == ControllerSteps(Start(i, min), End(i, max), Val(i.step))
  {
    ItemIsClean(i);
    BaseIsRead(i, min, max);
    NumberIsRead(i.step);
    SteppedPart(ItemText(i), min, max);
    hide Split, IsNumber, Val, Trim, BaseText, ItemText, ControllerSteps, ControllerBase, ValidRangeOrNum, Start, End,
      ControllerPart, ValidPart, Atoi, NoSpace;
  }

  lemma SteppedPart(text: string, min: int, max: int)
    ensures var s := PartStepping(text, min, max);
            s.Some? && Trim(text) != "" ==>
              ControllerPart(text, min, max) == ControllerSteps(s.value.start, s.value.end, s.value.step)
  {
    hide Trim, ControllerStepping, ControllerRange, Atoi, ControllerSteps, Span;
  }

  /** An item of the grammar is valid exactly when it fits, and then the compiler marks what it
      stands for. */
  lemma ItemIsRead(i: Item, min: int, max: int)
    requires IsItem(i) && FieldRange(min, max)
    ensures ValidPart(ItemText(i), min, max) <==> Fits(i, min, max)
    ensures Fits(i, min, max) ==> (Overflows(ItemText(i), min, max) <==> FirstStep(i, min) > INT64_MAX)
    ensures Fits(i, min, max) ==> (StaysInU32(ItemText(i), min, max) <==> FirstStep(i, min) < 0x1_0000_0000)
    ensures Fits(i, min, max) && FirstStep(i, min) <= INT64_MAX ==>
      forall x :: x in ControllerPart(ItemText(i), min, max).marks <==> Admits(i, min, max, x)
  {
    if !IsStepped(i) {
      PlainIsRead(i, min, max);
    } else {
      SteppedIsValid(i, min, max);
      SteppedIsRead(i, min, max);
      hide ItemText, IsItem, ValidPart, ControllerSteps, Start, End, Val, PartStepping, Admits, ControllerPart;
      if Fits(i, min, max) && FirstStep(i, min) <= INT64_MAX {
        SteppedMarks(i, min, max);
      }
    }
  }

  lemma SteppedMarks(i: Item, min: int, max: int)
    requires IsItem(i) && FieldRange(min, max) && IsStepped(i)
    requires Fits(i, min, max) && FirstStep(i, min) <= INT64_MAX
    ensures forall x :: x in ControllerPart(ItemText(i), min, max).marks <==> Admits(i, min, max, x)
  {
    SteppedIsRead(i, min, max);
    var a, b, step := Start(i, min), End(i, max), Val(i.step);
    hide ItemText, IsItem, ValidPart, ControllerPart, Start, End, Val, ControllerSteps, Admits, AtStep;
    ControllerStepsOutcome(a, b, step);
    hide Fits, FirstStep;
    forall x ensures x in ControllerSteps(a, b, step).marks <==> Admits(i, min, max, x) {
      StepMarks(a, b, step, x);
      AdmitsIs(i, min, max, x);
    }
  }

  lemma AdmitsIs(i: Item, min: int, max: int, x: int)
    requires IsItem(i) && IsStepped(i) && Fits(i, min, max)
    ensures Admits(i, min, max, x) <==> AtStep(Start(i, min), End(i, max), Val(i.step), x)
  {
  }

  // ----- Reading a field -----

  lemma {:induction false} SplitJoined(pieces: seq<string>, sep: char)
    requires pieces != [] && forall p :: p in pieces ==> sep !in p
    ensures Split(Joined(pieces, sep), sep) == pieces
  {
    var first, rest := pieces[0], pieces[1..];
    assert pieces == [first] + rest && first in pieces;
    if rest != [] {
      SplitJoined(rest, sep);
      SplitAfter(first, Joined(rest, sep), sep);
    }
  }

  lemma {:induction false} SplitAfter(a: string, b: string, sep: char)
    requires sep !in a
    ensures Split(a + [sep] + b, sep) == [a] + Split(b, sep)
  {
    var s := a + [sep] + b;
    if a == "" {
      assert s[1..] == b;
    } else {
      assert s[1..] == a[1..] + [sep] + b && a[0] in a && a == [a[0]] + a[1..];
      SplitAfter(a[1..], b, sep);
    }
  }

  lemma {:induction false} JoinedIsClean(pieces: seq<string>)
    requires pieces != [] && forall p :: p in pieces ==> p != "" && p != "*" && p != "?" && NoSpace(p)
    ensures var t := Joined(pieces, ','); t != "" && t != "*" && t != "?" && NoSpace(t)
  {
    var first, rest := pieces[0], pieces[1..];
    assert first in pieces;
    if rest != [] {
      forall p | p in rest ensures p in pieces { }
      JoinedIsClean(rest);
      assert forall c :: c in Joined(pieces, ',') ==> c in first || c == ',' || c in Joined(rest, ',');
      assert |Joined(pieces, ',')| > 1;
    }
  }

  lemma ListIsClean(items: seq<Item>)
    requires items != [] && forall i :: i in items ==> IsItem(i)
    ensures var t := Joined(ItemTexts(items), ',');
            t != "" && NoSpace(t) && FieldParts(t) == ItemTexts(items) && Split(t, ',') == ItemTexts(items)
            && t != "*" && t != "?"
  {
    var texts := ItemTexts(items);
    forall p | p in texts ensures p != "" && p != "*" && p != "?" && NoSpace(p) && ',' !in p {
      var k :| 0 <= k < |texts| && texts[k] == p;
      ItemIsClean(items[k]);
    }
    hide ItemTexts, Split;
    SplitJoined(texts, ',');
    JoinedIsClean(texts);
  }

  lemma {:induction false} PartsMark(items: seq<Item>, min: int, max: int)
    requires FieldRange(min, max)
    requires forall i :: i in items ==> IsItem(i) && Fits(i, min, max) && FirstStep(i, min) <= INT64_MAX
    ensures forall x :: x in ControllerParts(ItemTexts(items), min, max).marks <==>
      exists i :: i in items && Admits(i, min, max, x)
  {
    hide ItemText, Fits, IsItem, FirstStep, Admits, ControllerPart, ValidPart;
    if items != [] {
      var first, rest := items[0], items[1..];
      assert items == [first] + rest && first in items;
      ItemIsRead(first, min, max);
      PartAccepted(ItemText(first), min, max);
      assert ItemTexts(items)[1..] == ItemTexts(rest) && ItemTexts(items)[0] == ItemText(first);
      PartsMark(rest, min, max);
    }
  }

  /** A field of the grammar: when it is valid, when its steps overflow, and what it marks. */
  lemma FieldIsRead(f: Field, min: int, max: int)
    requires IsField(f) && FieldRange(min, max)
    ensures ValidField(FieldText(f), min, max) <==> FieldFits(f, min, max)
    ensures FieldFits(f, min, max) ==>
      ((forall p :: p in FieldParts(FieldText(f)) ==> !Overflows(p, min, max)) <==> StepsBelow(f, min, 0x8000_0000_0000_0000))
    ensures FieldFits(f, min, max) ==>
      ((forall p :: p in FieldParts(FieldText(f)) ==> StaysInU32(p, min, max)) <==> StepsBelow(f, min, 0x1_0000_0000))
    ensures FieldFits(f, min, max) && StepsBelow(f, min, 0x8000_0000_0000_0000) ==>
      forall x :: x in ControllerField(FieldText(f), min, max).marks <==> FieldAdmits(f, min, max, x)
  {
    if f.List? {
      ListIsClean(f.items);
      ListIsRead(f.items, min, max);
      hide ItemText, Fits, IsItem, FirstStep, Admits, ControllerPart, ValidPart, Overflows, StaysInU32, Split,
        ControllerParts;
      if FieldFits(f, min, max) && StepsBelow(f, min, 0x8000_0000_0000_0000) {
        PartsMark(f.items, min, max);
      }
    }
  }

  lemma ListIsRead(items: seq<Item>, min: int, max: int)
    requires FieldRange(min, max) && forall i :: i in items ==> IsItem(i)
    ensures (forall p :: p in ItemTexts(items) ==> ValidPart(p, min, max)) <==> forall i :: i in items ==> Fits(i, min, max)
    ensures (forall i :: i in items ==> Fits(i, min, max)) ==>
      && ((forall p :: p in ItemTexts(items) ==> !Overflows(p, min, max))
          <==> forall i :: i in items ==> FirstStep(i, min) < 0x8000_0000_0000_0000)
      && ((forall p :: p in ItemTexts(items) ==> StaysInU32(p, min, max))
          <==> forall i :: i in items ==> FirstStep(i, min) < 0x1_0000_0000)
  {
    forall i | i in items
      ensures ItemText(i) in ItemTexts(items)
      ensures ValidPart(ItemText(i), min, max) <==> Fits(i, min, max)
      ensures Fits(i, min, max) ==>
        && (Overflows(ItemText(i), min, max) <==> FirstStep(i, min) > INT64_MAX)
        && (StaysInU32(ItemText(i), min, max) <==> FirstStep(i, min) < 0x1_0000_0000)
    {
      ItemIsRead(i, min, max);
      var k :| 0 <= k < |items| && items[k] == i;
      assert ItemTexts(items)[k] == ItemText(i);
    }
    forall p | p in ItemTexts(items) ensures exists i :: i in items && p == ItemText(i) {
      var k :| 0 <= k < |items| && ItemTexts(items)[k] == p;
      assert items[k] in items;
    }
    hide ItemText, ItemTexts, Fits, IsItem, FirstStep, ValidPart, Overflows, StaysInU32;
  }

  // ----- Whole expressions -----

  /** The fields of an expression, that of the seconds only with six of them. */
  datatype Expression = Expression(sec: Option<Field>, min: Field, hour: Field, dom: Field, mon: Field, dow: Field)

  predicate IsExpression(e: Expression) {
    && (e.sec.Some? ==> IsField(e.sec.value))
    && IsField(e.min) && IsField(e.hour) && IsField(e.dom) && IsField(e.mon) && IsField(e.dow)
  }

  /** The words of an expression, in the order of crontab. */
  function WordsOf(e: Expression): seq<string> {
    (if e.sec.Some? then [FieldText(e.sec.value)] else [])
    + [FieldText(e.min), FieldText(e.hour), FieldText(e.dom), FieldText(e.mon), FieldText(e.dow)]
  }

  /** Every item of every field keeps the bounds of its field. */
  predicate InBounds(e: Expression)
    requires IsExpression(e)
  {
    && (e.sec.Some? ==> FieldFits(e.sec.value, 0, 59))
    && FieldFits(e.min, 0, 59) && FieldFits(e.hour, 0, 23)
    && FieldFits(e.dom, 1, 31) && FieldFits(e.mon, 1, 12) && FieldFits(e.dow, 0, 7)
  }

  predicate AllStepsBelow(e: Expression, limit: int)
    requires IsExpression(e)
  {
    && (e.sec.Some? ==> StepsBelow(e.sec.value, 0, limit))
    && StepsBelow(e.min, 0, limit) && StepsBelow(e.hour, 0, limit)
    && StepsBelow(e.dom, 1, limit) && StepsBelow(e.mon, 1, limit) && StepsBelow(e.dow, 0, limit)
  }

  /** The expression asks for second s of minute m of hour h on the given date and weekday, where
      Sunday is 0 and also 7; without seconds, for second 0. */
  predicate Asks(e: Expression, date: Calendar.Date, weekday: int, h: int, m: int, s: int)
    requires IsExpression(e) && InBounds(e)
  {
    && (if e.sec.Some? then FieldAdmits(e.sec.value, 0, 59, s) else s == 0)
    && FieldAdmits(e.min, 0, 59, m) && FieldAdmits(e.hour, 0, 23, h)
    && FieldAdmits(e.dom, 1, 31, date.day) && FieldAdmits(e.mon, 1, 12, date.month)
    && (FieldAdmits(e.dow, 0, 7, weekday) || (weekday == 0 && FieldAdmits(e.dow, 0, 7, 7)))
  }

  /** The fields with their bounds, in order. */
  function Bounded(e: Expression): (r: seq<(Field, int, int)>)
    requires IsExpression(e)
    ensures forall k :: 0 <= k < |r| ==> IsField(r[k].0) && FieldRange(r[k].1, r[k].2)
  {
    (if e.sec.Some? then [(e.sec.value, 0, 59)] else [])
    + [(e.min, 0, 59), (e.hour, 0, 23), (e.dom, 1, 31), (e.mon, 1, 12), (e.dow, 0, 7)]
  }

  predicate StepsFit(e: Expression, limit: int)
    requires IsExpression(e)
  {
    forall k :: 0 <= k < |Bounded(e)| ==> StepsBelow(Bounded(e)[k].0, Bounded(e)[k].1, limit)
  }

  lemma BoundsAre(e: Expression)
    requires IsExpression(e)
    ensures var b, words, limits := Bounded(e), WordsOf(e), FieldLimits(if e.sec.Some? then 6 else 5);
            && |b| == |words| == |limits| == (if e.sec.Some? then 6 else 5)
            && (forall k :: 0 <= k < |b| ==> words[k] == FieldText(b[k].0) && limits[k] == (b[k].1, b[k].2))
  {
    hide FieldText, IsField;
  }

  lemma InBoundsIs(e: Expression)
    requires IsExpression(e)
    ensures InBounds(e) <==> forall k :: 0 <= k < |Bounded(e)| ==>
      FieldFits(Bounded(e)[k].0, Bounded(e)[k].1, Bounded(e)[k].2)
  {
    hide IsField, FieldFits;
    var b := Bounded(e);
    if e.sec.Some? {
      assert b[0] == (e.sec.value, 0, 59) && b[1] == (e.min, 0, 59) && b[2] == (e.hour, 0, 23);
      assert b[3] == (e.dom, 1, 31) && b[4] == (e.mon, 1, 12) && b[5] == (e.dow, 0, 7);
    } else {
      assert b[0] == (e.min, 0, 59) && b[1] == (e.hour, 0, 23) && b[2] == (e.dom, 1, 31);
      assert b[3] == (e.mon, 1, 12) && b[4] == (e.dow, 0, 7);
    }
  }

  lemma StepsBelowIs(e: Expression, limit: int)
    requires IsExpression(e)
    ensures AllStepsBelow(e, limit) <==> StepsFit(e, limit)
  {
    hide IsField, StepsBelow;
    var b := Bounded(e);
    if e.sec.Some? {
      assert b[0] == (e.sec.value, 0, 59) && b[1] == (e.min, 0, 59) && b[2] == (e.hour, 0, 23);
      assert b[3] == (e.dom, 1, 31) && b[4] == (e.mon, 1, 12) && b[5] == (e.dow, 0, 7);
    } else {
      assert b[0] == (e.min, 0, 59) && b[1] == (e.hour, 0, 23) && b[2] == (e.dom, 1, 31);
      assert b[3] == (e.mon, 1, 12) && b[4] == (e.dow, 0, 7);
    }
  }

  /** Exactly the expressions in bounds are valid; of these, the compiler accepts exactly those whose
      first steps stay in 64 bits, and the agent too when they stay in 32. */
  lemma ExpressionIsRead(expr: string, e: Expression)
    requires IsExpression(e) && Fields(expr) == WordsOf(e)
    ensures ValidateCronExpr(expr) <==> InBounds(e)
    ensures Compiled(expr).0 == Accepted <==> InBounds(e) && AllStepsBelow(e, 0x8000_0000_0000_0000)
    ensures InBounds(e) && AllStepsBelow(e, 0x1_0000_0000) ==> EveryPartOf(expr, StaysInU32)
  {
    ExpressionIsValid(expr, e);
    ExpressionCompiles(expr, e);
    ExpressionInU32(expr, e);
    hide *;
  }

  lemma ExpressionIsValid(expr: string, e: Expression)
    requires IsExpression(e) && Fields(expr) == WordsOf(e)
    ensures ValidateCronExpr(expr) <==> InBounds(e)
  {
    FieldsOfTrim(expr);
    BoundsAre(e);
    InBoundsIs(e);
    var b := Bounded(e);
    forall k | 0 <= k < |b|
      ensures ValidField(FieldText(b[k].0), b[k].1, b[k].2) <==> FieldFits(b[k].0, b[k].1, b[k].2)
    {
      FieldIsRead(b[k].0, b[k].1, b[k].2);
    }
    hide Fields, Trim, FieldText, FieldFits, ValidField, InBounds, Bounded, WordsOf, IsField;
  }

  lemma ExpressionCompiles(expr: string, e: Expression)
    requires IsExpression(e) && Fields(expr) == WordsOf(e)
    ensures Compiled(expr).0 == Accepted <==> InBounds(e) && AllStepsBelow(e, 0x8000_0000_0000_0000)
  {
    FieldsOfTrim(expr);
    ExpressionIsValid(expr, e);
    CompilesWhatValidates(expr);
    BoundsAre(e);
    InBoundsIs(e);
    StepsBelowIs(e, 0x8000_0000_0000_0000);
    var b := Bounded(e);
    forall k | 0 <= k < |b|
      ensures FieldFits(b[k].0, b[k].1, b[k].2) ==>
        ((forall p :: p in FieldParts(FieldText(b[k].0)) ==> !Overflows(p, b[k].1, b[k].2))
         <==> StepsBelow(b[k].0, b[k].1, 0x8000_0000_0000_0000))
    {
      FieldIsRead(b[k].0, b[k].1, b[k].2);
    }
    hide Fields, Trim, Compiled, FieldParts, FieldText, Overflows, StepsBelow, FieldFits, ValidateCronExpr,
      AllStepsBelow, InBounds, Bounded, WordsOf, IsField;
  }

  lemma ExpressionInU32(expr: string, e: Expression)
    requires IsExpression(e) && Fields(expr) == WordsOf(e)
    ensures InBounds(e) && AllStepsBelow(e, 0x1_0000_0000) ==> EveryPartOf(expr, StaysInU32)
  {
    BoundsAre(e);
    InBoundsIs(e);
    StepsBelowIs(e, 0x1_0000_0000);
    var b := Bounded(e);
    forall k | 0 <= k < |b|
      ensures FieldFits(b[k].0, b[k].1, b[k].2) ==>
        ((forall p :: p in FieldParts(FieldText(b[k].0)) ==> StaysInU32(p, b[k].1, b[k].2))
         <==> StepsBelow(b[k].0, b[k].1, 0x1_0000_0000))
    {
      FieldIsRead(b[k].0, b[k].1, b[k].2);
    }
    hide Fields, FieldParts, FieldText, StaysInU32, StepsBelow, FieldFits, AllStepsBelow, InBounds, Bounded, WordsOf,
      IsField;
  }

  // ----- When an expression fires -----

  lemma FieldMarks(f: Field, min: int, max: int)
    requires IsField(f) && FieldRange(min, max) && FieldFits(f, min, max) && StepsBelow(f, min, 0x8000_0000_0000_0000)
    ensures Marks(ControllerField(FieldText(f), min, max).marks, f, min, max)
  {
    FieldIsRead(f, min, max);
    hide IsField, FieldFits, FieldAdmits, ControllerField, FieldText, StepsBelow, ValidField, FieldParts;
  }

  lemma ScansMark(expr: string, e: Expression)
    requires IsExpression(e) && Fields(expr) == WordsOf(e)
    requires InBounds(e) && AllStepsBelow(e, 0x8000_0000_0000_0000)
    ensures var b, scans := Bounded(e), ControllerScans(Fields(expr));
            && |b| == |scans| && Compiled(expr) == (Accepted, Some(ControllerOf(scans)))
            && forall k :: 0 <= k < |b| ==> Marks(scans[k].marks, b[k].0, b[k].1, b[k].2)
  {
    FieldsOfTrim(expr);
    ExpressionIsRead(expr, e);
    BoundsAre(e);
    InBoundsIs(e);
    StepsBelowIs(e, 0x8000_0000_0000_0000);
    hide Fields, Trim, FieldText, StepsBelow, FieldFits, ControllerField, AllStepsBelow, InBounds, Bounded, Marks, IsField;
    var b := Bounded(e);
    forall k | 0 <= k < |b| ensures Marks(ControllerField(FieldText(b[k].0), b[k].1, b[k].2).marks, b[k].0, b[k].1, b[k].2) {
      FieldMarks(b[k].0, b[k].1, b[k].2);
    }
  }

  ghost predicate Marks(marks: set<int>, f: Field, min: int, max: int) {
    IsField(f) && FieldFits(f, min, max) && forall x :: x in marks <==> FieldAdmits(f, min, max, x)
  }

  /** A schedule holds what an expression says, table by table. */
  ghost predicate TablesSay(c: ControllerSchedule, e: Expression)
    requires IsExpression(e) && InBounds(e)
  {
    && c.Compiled()
    && (forall s :: 0 <= s < 60 ==> (c.sec[s] <==> if e.sec.Some? then FieldAdmits(e.sec.value, 0, 59, s) else s == 0))
    && (forall m :: 0 <= m < 60 ==> (c.min[m] <==> FieldAdmits(e.min, 0, 59, m)))
    && (forall h :: 0 <= h < 24 ==> (c.hour[h] <==> FieldAdmits(e.hour, 0, 23, h)))
    && (forall d :: 0 <= d < 32 ==> (c.dom[d] <==> FieldAdmits(e.dom, 1, 31, d)))
    && (forall m :: 0 <= m < 13 ==> (c.mon[m] <==> FieldAdmits(e.mon, 1, 12, m)))
    && (forall w :: 0 <= w < 7 ==>
          (c.dow[w] <==> FieldAdmits(e.dow, 0, 7, w) || (w == 0 && FieldAdmits(e.dow, 0, 7, 7))))
  }

  lemma ScansSay(scans: seq<Scan>, e: Expression)
    requires IsExpression(e) && InBounds(e) && |scans| == |Bounded(e)|
    requires forall k :: 0 <= k < |scans| ==>
      Marks(scans[k].marks, Bounded(e)[k].0, Bounded(e)[k].1, Bounded(e)[k].2)
    ensures TablesSay(ControllerOf(scans), e)
  {
    hide IsField, FieldFits, FieldAdmits;
    var b := Bounded(e);
    if e.sec.Some? {
      assert b[0] == (e.sec.value, 0, 59) && b[1] == (e.min, 0, 59) && b[2] == (e.hour, 0, 23);
      assert b[3] == (e.dom, 1, 31) && b[4] == (e.mon, 1, 12) && b[5] == (e.dow, 0, 7);
    } else {
      assert b[0] == (e.min, 0, 59) && b[1] == (e.hour, 0, 23) && b[2] == (e.dom, 1, 31);
      assert b[3] == (e.mon, 1, 12) && b[4] == (e.dow, 0, 7);
    }
  }

  lemma CompiledSays(expr: string, e: Expression)
    requires IsExpression(e) && Fields(expr) == WordsOf(e)
    requires InBounds(e) && AllStepsBelow(e, 0x8000_0000_0000_0000)
    ensures Compiled(expr).0 == Accepted && TablesSay(Compiled(expr).1.value, e)
  {
    ScansMark(expr, e);
    hide *;
    ScansSay(ControllerScans(Fields(expr)), e);
  }

  lemma BothAccept(expr: string, e: Expression, t: int)
    requires IsExpression(e) && Fields(expr) == WordsOf(e) && InBounds(e) && AllStepsBelow(e, 0x1_0000_0000)
    ensures Compiled(expr).0 == Parsed(expr).0 == Accepted && Compiled(expr).1.Some? && Parsed(expr).1.Some?
    ensures var c, a := Compiled(expr).1.value, Parsed(expr).1.value;
            c.Compiled() && a.Compiled() && TablesSay(c, e) && (t >= 0 ==> (a.FiresAt(t) <==> c.Matches(t)))
  {
    StepsGrow(e);
    ExpressionIsRead(expr, e);
    CompiledSays(expr, e);
    hide *;
    SameSchedules(expr, t);
  }

  /** Both programs fire an expression in bounds exactly at the times it asks for: 1970-01-01 is day 0,
      a Thursday, and dates follow the calendar that counts one day at a time. */
  lemma FiresWhenAsked(expr: string, e: Expression, day: int, h: int, m: int, s: int)
    requires IsExpression(e) && Fields(expr) == WordsOf(e) && InBounds(e) && AllStepsBelow(e, 0x1_0000_0000)
    requires day >= 0 && 0 <= h < 24 && 0 <= m < 60 && 0 <= s < 60
    ensures Compiled(expr).0 == Parsed(expr).0 == Accepted
    ensures var t := day * 86400 + h * 3600 + m * 60 + s;
            var c, a := Compiled(expr).1.value, Parsed(expr).1.value;
            && c.Compiled() && a.Compiled()
            && (c.Matches(t) <==> Asks(e, Calendar.NaiveDate(day), (day + 4) % 7, h, m, s))
            && (a.FiresAt(t) <==> c.Matches(t))
  {
    hide *;
    var t := AtTime(day, h, m, s);
    TimeIs(day, h, m, s);
    BothAccept(expr, e, t);
    AskedByTables(Compiled(expr).1.value, e, day, h, m, s);
  }

  lemma TimeIs(day: int, h: int, m: int, s: int)
    ensures AtTime(day, h, m, s) == day * 86400 + h * 3600 + m * 60 + s
    ensures day >= 0 && h >= 0 && m >= 0 && s >= 0 ==> AtTime(day, h, m, s) >= 0
  {
  }

  lemma AskedByTables(c: ControllerSchedule, e: Expression, day: int, h: int, m: int, s: int)
    requires IsExpression(e) && InBounds(e) && TablesSay(c, e)
    requires 0 <= h < 24 && 0 <= m < 60 && 0 <= s < 60
    ensures c.Matches(AtTime(day, h, m, s)) <==> Asks(e, Calendar.NaiveDate(day), (day + 4) % 7, h, m, s)
  {
    ControllerMatchesAtTime(c, day, h, m, s);
    var date := Calendar.NaiveDate(day);
    assert 1 <= date.month <= 12 && 1 <= date.day <= 31;
    hide FieldAdmits, IsField, FieldFits, AtTime, ControllerSchedule.Matches, InBounds, IsExpression;
  }

  lemma StepsGrow(e: Expression)
    requires IsExpression(e) && AllStepsBelow(e, 0x1_0000_0000)
    ensures AllStepsBelow(e, 0x8000_0000_0000_0000)
  {
    hide FirstStep, IsItem;
  }

  // ----- Numbers and stars -----

  /** Words with single blanks between them. */
  lemma {:induction false} FieldsOfJoined(words: seq<string>)
    requires words != [] && forall w :: w in words ==> w != "" && NoSpace(w)
    ensures Fields(Joined(words, ' ')) == words
  {
    var first, rest := words[0], words[1..];
    assert words == [first] + rest && first in words;
    if rest == [] {
      assert first + "" == first;
      WordIs(first, "");
      assert first[|first|..] == "";
    } else {
      forall w | w in rest ensures w in words { }
      FieldsOfJoined(rest);
      var after := " " + Joined(rest, ' ');
      assert Joined(words, ' ') == first + after && after[1..] == Joined(rest, ' ');
      WordIs(first, after);
      assert (first + after)[|first|..] == after;
      assert first[0] in first && (first + after)[0] == first[0];
    }
  }

  lemma {:induction false} WordIs(w: string, after: string)
    requires NoSpace(w) && (after == "" || after[0] == ' ')
    ensures Word(w + after) == w
  {
    if w == "" {
      assert w + after == after;
    } else {
      assert w[0] in w && (w + after)[1..] == w[1..] + after && w == [w[0]] + w[1..];
      WordIs(w[1..], after);
    }
  }

  function Only(n: nat): Field {
    List([Value(Numeral(n))])
  }

  lemma OnlyIs(n: nat, min: int, max: int)
    ensures IsField(Only(n)) && (FieldFits(Only(n), min, max) <==> min <= n <= max)
    ensures StepsBelow(Only(n), min, 0x1_0000_0000)
  {
    NumberIs(n);
    var i := Value(Numeral(n));
    assert i in [i];
    hide Numeral, Val, IsNumber;
  }

  lemma NumberIs(n: nat)
    ensures IsNumber(Numeral(n)) && Val(Numeral(n)) == n && NoSpace(Numeral(n))
  {
    NumeralValue(n);
    DigitsClean(Numeral(n));
    assert Numeral(n)[0] in Numeral(n);
  }

  lemma OnlyText(n: nat)
    ensures FieldText(Only(n)) == Numeral(n) && NoSpace(Numeral(n)) && Numeral(n) != ""
  {
    NumberIs(n);
    assert ItemTexts([Value(Numeral(n))]) == [Numeral(n)];
    hide Numeral, IsNumber;
  }

  lemma OnlyAdmits(n: nat, min: int, max: int, x: int)
    requires min <= n <= max
    ensures IsField(Only(n)) && FieldFits(Only(n), min, max) && (FieldAdmits(Only(n), min, max, x) <==> x == n)
  {
    NumberIs(n);
    var i := Value(Numeral(n));
    assert i in [i];
    hide Numeral, Val, IsNumber;
  }

  /** At that time of that day since the epoch, both programs fire the expression if it is asked for,
      and neither does otherwise. */
  predicate FiresIff(expr: string, day: int, h: int, m: int, s: int, asked: bool)
    requires Compiled(expr).0 == Parsed(expr).0 == Accepted
    requires Compiled(expr).1.value.Compiled() && Parsed(expr).1.value.Compiled()
  {
    var t := day * 86400 + h * 3600 + m * 60 + s;
    (Compiled(expr).1.value.Matches(t) <==> asked) && (Parsed(expr).1.value.FiresAt(t) <==> asked)
  }

  lemma FiresIffAsked(expr: string, e: Expression, day: int, h: int, m: int, s: int, asked: bool)
    requires IsExpression(e) && Fields(expr) == WordsOf(e) && InBounds(e) && AllStepsBelow(e, 0x1_0000_0000)
    requires day >= 0 && 0 <= h < 24 && 0 <= m < 60 && 0 <= s < 60
    requires asked <==> Asks(e, Calendar.NaiveDate(day), (day + 4) % 7, h, m, s)
    ensures Compiled(expr).0 == Parsed(expr).0 == Accepted
    ensures Compiled(expr).1.value.Compiled() && Parsed(expr).1.value.Compiled()
    ensures FiresIff(expr, day, h, m, s, asked)
  {
    hide Asks, IsExpression, Fields, WordsOf, InBounds, AllStepsBelow, Calendar.NaiveDate, Compiled, Parsed,
      ControllerSchedule.Matches, CronExpression.FiresAt, CronExpression.Compiled, ControllerSchedule.Compiled;
    FiresWhenAsked(expr, e, day, h, m, s);
  }

  lemma WordsRead(e: Expression, words: seq<string>)
    requires IsExpression(e) && words == WordsOf(e) && forall w :: w in words ==> w != "" && NoSpace(w)
    ensures Fields(Joined(words, ' ')) == WordsOf(e)
  {
    FieldsOfJoined(words);
  }

  /** The fields of numbers, with one for the seconds or without. */
  function Numbers(se: Option<nat>, mi: nat, ho: nat, d: nat, mo: nat, w: nat): Expression {
    Expression(if se.Some? then Some(Only(se.value)) else None, Only(mi), Only(ho), Only(d), Only(mo), Only(w))
  }

  lemma NumbersAre(se: Option<nat>, mi: nat, ho: nat, d: nat, mo: nat, w: nat)
    ensures var e := Numbers(se, mi, ho, d, mo, w);
            && IsExpression(e) && AllStepsBelow(e, 0x1_0000_0000)
            && (InBounds(e) <==> (se.Some? ==> se.value <= 59) && mi <= 59 && ho <= 23 && 1 <= d <= 31
                                 && 1 <= mo <= 12 && w <= 7)
  {
    if se.Some? {
      OnlyIs(se.value, 0, 59);
    }
    OnlyIs(mi, 0, 59);
    OnlyIs(ho, 0, 23);
    OnlyIs(d, 1, 31);
    OnlyIs(mo, 1, 12);
    OnlyIs(w, 0, 7);
    hide Only, IsField, FieldFits, StepsBelow;
  }

  lemma NumberWords(se: Option<nat>, mi: nat, ho: nat, d: nat, mo: nat, w: nat)
    ensures var words := (if se.Some? then [Numeral(se.value)] else [])
                         + [Numeral(mi), Numeral(ho), Numeral(d), Numeral(mo), Numeral(w)];
            WordsOf(Numbers(se, mi, ho, d, mo, w)) == words && forall x :: x in words ==> x != "" && NoSpace(x)
  {
    if se.Some? {
      OnlyText(se.value);
    }
    OnlyText(mi);
    OnlyText(ho);
    OnlyText(d);
    OnlyText(mo);
    OnlyText(w);
    hide Only, Numeral, FieldText, NoSpace;
  }

  lemma NumbersRead(expr: string, se: Option<nat>, mi: nat, ho: nat, d: nat, mo: nat, w: nat)
    requires expr == Joined((if se.Some? then [Numeral(se.value)] else [])
                            + [Numeral(mi), Numeral(ho), Numeral(d), Numeral(mo), Numeral(w)], ' ')
    ensures Fields(expr) == WordsOf(Numbers(se, mi, ho, d, mo, w))
  {
    NumberWords(se, mi, ho, d, mo, w);
    hide *;
    FieldsOfJoined(WordsOf(Numbers(se, mi, ho, d, mo, w)));
  }

  /** That time of a day is the one of the numbers, with a Sunday written as 0 or as 7. */
  predicate IsTimeOf(se: Option<nat>, mi: nat, ho: nat, d: nat, mo: nat, w: nat,
                     date: Calendar.Date, weekday: int, h: int, m: int, s: int)
  {
    && s == (if se.Some? then se.value else 0) && m == mi && h == ho
    && date.day == d && date.month == mo && weekday == w % 7
  }

  lemma NumbersAsk(se: Option<nat>, mi: nat, ho: nat, d: nat, mo: nat, w: nat,
                   date: Calendar.Date, weekday: int, h: int, m: int, s: int)
    requires IsExpression(Numbers(se, mi, ho, d, mo, w)) && InBounds(Numbers(se, mi, ho, d, mo, w))
    requires 0 <= weekday < 7 && w <= 7
    ensures Asks(Numbers(se, mi, ho, d, mo, w), date, weekday, h, m, s)
            <==> IsTimeOf(se, mi, ho, d, mo, w, date, weekday, h, m, s)
  {
    InBoundsOfNumbers(se, mi, ho, d, mo, w);
    if se.Some? {
      OnlyAdmits(se.value, 0, 59, s);
    }
    OnlyAdmits(mi, 0, 59, m);
    OnlyAdmits(ho, 0, 23, h);
    OnlyAdmits(d, 1, 31, date.day);
    OnlyAdmits(mo, 1, 12, date.month);
    OnlyAdmits(w, 0, 7, weekday);
    OnlyAdmits(w, 0, 7, 7);
    var e := Numbers(se, mi, ho, d, mo, w);
    assert e == Expression(if se.Some? then Some(Only(se.value)) else None, Only(mi), Only(ho), Only(d), Only(mo), Only(w));
    assert weekday == w % 7 <==> weekday == w || (weekday == 0 && w == 7);
    hide Only, Numbers, Numeral, IsField, FieldAdmits, FieldText, FieldFits, InBounds, IsExpression;
  }

  lemma InBoundsOfNumbers(se: Option<nat>, mi: nat, ho: nat, d: nat, mo: nat, w: nat)
    requires IsExpression(Numbers(se, mi, ho, d, mo, w)) && InBounds(Numbers(se, mi, ho, d, mo, w))
    ensures (se.Some? ==> se.value <= 59) && mi <= 59 && ho <= 23 && 1 <= d <= 31 && 1 <= mo <= 12 && w <= 7
  {
    NumbersAre(se, mi, ho, d, mo, w);
  }

  /** The words of the expression are these numbers, with one for the seconds or without. */
  ghost predicate SaysNumbers(expr: string, se: Option<nat>, mi: nat, ho: nat, d: nat, mo: nat, w: nat) {
    expr == Joined((if se.Some? then [Numeral(se.value)] else [])
                   + [Numeral(mi), Numeral(ho), Numeral(d), Numeral(mo), Numeral(w)], ' ')
  }

  /** An expression of numbers is valid exactly within the bounds of its fields, and then it compiles. */
  lemma NumbersValid(expr: string, se: Option<nat>, mi: nat, ho: nat, d: nat, mo: nat, w: nat)
    requires SaysNumbers(expr, se, mi, ho, d, mo, w)
    ensures ValidateCronExpr(expr) <==>
            (se.Some? ==> se.value <= 59) && mi <= 59 && ho <= 23 && 1 <= d <= 31 && 1 <= mo <= 12 && w <= 7
    ensures Compiled(expr).0 == Accepted <==> ValidateCronExpr(expr)
  {
    var e := Numbers(se, mi, ho, d, mo, w);
    NumbersAre(se, mi, ho, d, mo, w);
    NumbersRead(expr, se, mi, ho, d, mo, w);
    hide *;
    StepsGrow(e);
    ExpressionIsRead(expr, e);
  }

  /** Both programs accept a valid expression of numbers, and from the epoch on they fire it exactly at
      that second, which is 0 without a number for it, of that minute and hour, on that day of that
      month when it is that weekday. */
  lemma NumbersFire(expr: string, se: Option<nat>, mi: nat, ho: nat, d: nat, mo: nat, w: nat,
                    day: int, h: int, m: int, s: int)
    requires SaysNumbers(expr, se, mi, ho, d, mo, w) && ValidateCronExpr(expr)
    requires day >= 0 && 0 <= h < 24 && 0 <= m < 60 && 0 <= s < 60
    ensures Compiled(expr).0 == Parsed(expr).0 == Accepted
    ensures Compiled(expr).1.value.Compiled() && Parsed(expr).1.value.Compiled()
    ensures FiresIff(expr, day, h, m, s, IsTimeOf(se, mi, ho, d, mo, w, Calendar.NaiveDate(day), (day + 4) % 7, h, m, s))
  {
    var e := Numbers(se, mi, ho, d, mo, w);
    NumbersAre(se, mi, ho, d, mo, w);
    NumbersRead(expr, se, mi, ho, d, mo, w);
    hide *;
    ExpressionIsRead(expr, e);
    InBoundsOfNumbers(se, mi, ho, d, mo, w);
    NumbersAsk(se, mi, ho, d, mo, w, Calendar.NaiveDate(day), (day + 4) % 7, h, m, s);
    FiresIffAsked(expr, e, day, h, m, s, IsTimeOf(se, mi, ho, d, mo, w, Calendar.NaiveDate(day), (day + 4) % 7, h, m, s));
  }

  function Stars(six: bool): Expression {
    var star := Every("*");
    Expression(if six then Some(star) else None, star, star, star, star, star)
  }

  lemma StarsAre(six: bool)
    ensures var e := Stars(six);
            && IsExpression(e) && InBounds(e) && AllStepsBelow(e, 0x1_0000_0000)
            && WordsOf(e) == (if six then ["*"] else []) + ["*", "*", "*", "*", "*"]
            && (forall x :: x in WordsOf(e) ==> x != "" && NoSpace(x))
  {
  }

  /** Five stars fire at every whole minute, and six of them at every second. */
  lemma StarsFire(expr: string, six: bool, day: int, h: int, m: int, s: int)
    requires expr == if six then "* * * * * *" else "* * * * *"
    requires day >= 0 && 0 <= h < 24 && 0 <= m < 60 && 0 <= s < 60
    ensures ValidateCronExpr(expr) && Compiled(expr).0 == Parsed(expr).0 == Accepted
    ensures Compiled(expr).1.value.Compiled() && Parsed(expr).1.value.Compiled()
    ensures FiresIff(expr, day, h, m, s, six || s == 0)
  {
    hide *;
    var e := Stars(six);
    StarsAre(six);
    StarsJoined();
    WordsRead(e, WordsOf(e));
    ExpressionIsRead(expr, e);
    StarsAsk(six, day, h, m, s);
    FiresIffAsked(expr, e, day, h, m, s, six || s == 0);
  }

  lemma StarsJoined()
    ensures Joined([] + ["*", "*", "*", "*", "*"], ' ') == "* * * * *"
    ensures Joined(["*"] + ["*", "*", "*", "*", "*"], ' ') == "* * * * * *"
  {
    var five := ["*", "*", "*", "*", "*"];
    assert [] + five == five && (["*"] + five)[1..] == five;
    assert five[1..] == ["*", "*", "*", "*"] && five[1..][1..] == ["*", "*", "*"];
    assert five[1..][1..][1..] == ["*", "*"] && five[1..][1..][1..][1..] == ["*"];
    assert Joined(five[1..][1..][1..], ' ') == "* *";
    assert Joined(five[1..], ' ') == "* * * *";
    assert Joined(five, ' ') == "* * * * *";
  }

  lemma StarsAsk(six: bool, day: int, h: int, m: int, s: int)
    requires IsExpression(Stars(six)) && InBounds(Stars(six))
    requires 0 <= h < 24 && 0 <= m < 60 && 0 <= s < 60
    ensures Asks(Stars(six), Calendar.NaiveDate(day), (day + 4) % 7, h, m, s) <==> six || s == 0
  {
    Calendar.NaiveDateValid(day);
    hide Calendar.NaiveDate;
  }

  // ----- The agent on its own, also out of bounds -----

  /** Every number of the item has 32 bits, and a step is not zero. */
  predicate AgentReads(i: Item)
    requires IsItem(i)
  {
    match i
    case Value(n) => Val(n) < 0x1_0000_0000
    case Range(lo, hi) => Val(lo) < 0x1_0000_0000 && Val(hi) < 0x1_0000_0000
    case Whole(_, step) => 0 < Val(step) < 0x1_0000_0000
    case From(n, step) => Val(n) < 0x1_0000_0000 && 0 < Val(step) < 0x1_0000_0000
    case Steps(lo, hi, step) =>
      Val(lo) < 0x1_0000_0000 && Val(hi) < 0x1_0000_0000 && 0 < Val(step) < 0x1_0000_0000
  }

  lemma BaseIsSplit(i: Item)
    requires IsItem(i)
    ensures i.Range? || i.Steps? ==> SplitOnce(BaseText(i), '-') == Some((i.lo, i.hi))
    ensures IsStepped(i) ==> SplitOnce(ItemText(i), '/') == Some((BaseText(i), i.step))
    ensures !IsStepped(i) ==> SplitOnce(ItemText(i), '/') == None
  {
    BaseIsClean(i);
    ItemIsClean(i);
    SplitOnceIsSplit(BaseText(i), '-');
    SplitOnceIsSplit(ItemText(i), '/');
    hide BaseText, ItemText, Split, SplitOnce, IsItem;
  }

  lemma AgentBaseIs(i: Item, min: int, max: int)
    requires IsItem(i) && FieldRange(min, max) && IsStepped(i) && AgentReads(i)
    ensures AgentBase(BaseText(i), min, max) == Some((Larger(Start(i, min), min), Smaller(End(i, max), max)))
  {
    BaseIsClean(i);
    BaseIsSplit(i);
    if i.From? {
      NumberIsRead(i.n);
    } else if i.Steps? {
      NumberIsRead(i.lo);
      NumberIsRead(i.hi);
    }
    hide Split, SplitOnce, IsNumber, Val;
  }

  /** A counter that cannot wrap around marks the values at whole steps from the first. */
  lemma {:induction false} AgentStepMarks(val: int, end: int, step: int, x: int)
    requires 0 <= val && 0 < step && 0 <= end < 1000 && end + step < U32_LIMIT
    ensures x in AgentSteps(val, end, step) <==> AtStep(val, end, step, x)
    decreases end - val
  {
    NextAtStep(val, end, step, x);
    if val <= end {
      NextMarks(val, end, step);
      hide AtStep, AgentSteps;
      AgentStepMarks(val + step, end, step, x);
    }
  }

  lemma NextMarks(val: int, end: int, step: int)
    requires 0 <= val <= end < 1000 && 0 < step && end + step < U32_LIMIT
    ensures AgentSteps(val, end, step) == {val} + AgentSteps(val + step, end, step)
  {
    assert (val + step) % U32_LIMIT == val + step;
  }

  /** A value out of bounds is refused. */
  lemma AgentValue(i: Item, min: int, max: int)
    requires IsItem(i) && FieldRange(min, max) && i.Value? && AgentReads(i)
    ensures AgentPart(ItemText(i), min, max) ==
            if min <= Val(i.n) <= max then Scan(Accepted, {Val(i.n)}) else Scan(Rejected, {})
  {
    ItemIsClean(i);
    BaseIsClean(i);
    BaseIsSplit(i);
    NumberIsRead(i.n);
    hide Split, SplitOnce, IsNumber, Val, Trim;
  }

  /** The agent does not refuse ranges and starts that leave the bounds: it cuts them to the bounds. */
  lemma AgentCuts(i: Item, min: int, max: int, x: int)
    requires IsItem(i) && FieldRange(min, max) && !i.Value? && AgentReads(i)
    requires IsStepped(i) ==> Val(i.step) < 0xFFFF_0000
    ensures AgentPart(ItemText(i), min, max).status == Accepted
    ensures var from, to := Larger(Start(i, min), min), Smaller(End(i, max), max);
            x in AgentPart(ItemText(i), min, max).marks
            <==> if IsStepped(i) then AtStep(from, to, Val(i.step), x) else from <= x <= to
  {
    ItemIsClean(i);
    BaseIsClean(i);
    BaseIsSplit(i);
    if i.Range? {
      NumberIsRead(i.lo);
      NumberIsRead(i.hi);
      hide Split, SplitOnce, IsNumber, Val, Trim, AtStep;
    } else {
      AgentSteppedIs(i, min, max);
      var from, to, step := Larger(Start(i, min), min), Smaller(End(i, max), max), Val(i.step);
      assert step > 0;
      hide *;
      AgentStepMarks(from, to, step, x);
    }
  }

  lemma AgentSteppedIs(i: Item, min: int, max: int)
    requires IsItem(i) && FieldRange(min, max) && IsStepped(i) && AgentReads(i)
    ensures Larger(Start(i, min), min) >= 0 && 0 <= Smaller(End(i, max), max) < 1000
    ensures AgentPart(ItemText(i), min, max) ==
            Scan(Accepted, AgentSteps(Larger(Start(i, min), min), Smaller(End(i, max), max), Val(i.step)))
  {
    CutEnds(i, min, max);
    ItemIsClean(i);
    BaseIsSplit(i);
    AgentBaseIs(i, min, max);
    NumberIsRead(i.step);
    assert Val(i.step) > 0;
    hide Split, SplitOnce, IsNumber, Val, Trim, BaseText, ItemText, AgentBase, AgentPart, AgentSteps, ParseU32, Atoi,
      Start, End, Larger, Smaller, NoSpace;
    SteppedAgentPart(ItemText(i), BaseText(i), i.step, min, max);
  }

  lemma SteppedAgentPart(text: string, base: string, stepText: string, min: int, max: int)
    requires FieldRange(min, max) && Trim(text) == text && text != "" && SplitOnce(text, '/') == Some((base, stepText))
    requires AgentBase(base, min, max).Some? && ParseU32(stepText).Some? && ParseU32(stepText).value > 0
    ensures var (a, b) := AgentBase(base, min, max).value;
            0 <= a && b < U32_LIMIT / 2 ==>
              AgentPart(text, min, max) == Scan(Accepted, AgentSteps(a, b, ParseU32(stepText).value))
  {
    hide Trim, SplitOnce, AgentBase, AgentSteps, AgentRange, Span;
  }

  lemma CutEnds(i: Item, min: int, max: int)
    requires IsItem(i) && FieldRange(min, max)
    ensures Larger(Start(i, min), min) >= 0 && 0 <= Smaller(End(i, max), max) < 1000
  {
    hide IsNumber, Val;
  }

  /** A step of zero is refused by both programs. */
  lemma ZeroStep(i: Item, min: int, max: int)
    requires IsItem(i) && FieldRange(min, max) && IsStepped(i) && Val(i.step) == 0
    ensures !ValidPart(ItemText(i), min, max) && AgentPart(ItemText(i), min, max).status == Rejected
  {
    ItemIsClean(i);
    BaseIsSplit(i);
    NumberIsRead(i.step);
    SteppedIsValid(i, min, max);
    hide Split, SplitOnce, IsNumber, Val, Trim, BaseText, ItemText, AgentBase, AgentSteps, ValidPart;
  }

  /** Between two commas nothing need stand for the agent; the validator asks for an item. */
  lemma BlankPart(raw: string, min: int, max: int)
    requires FieldRange(min, max) && Trim(raw) == ""
    ensures !ValidPart(raw, min, max) && AgentPart(raw, min, max) == Scan(Accepted, {})
  {
  }
}
