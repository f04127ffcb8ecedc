/** The three readers of cron fields: the controller's validator, the controller's compiler
    and the agent's parser. */
module CronParse {
  import opened Wrappers
  import opened Text
  import opened CronSchedule

  const INT64_MAX := 0x7FFF_FFFF_FFFF_FFFF
  const U32_LIMIT := 0x1_0000_0000

  // ----- Reading integers -----

  /** The controller's conversion: an optional sign, digits, 64-bit range. */
  function Atoi(s: string): Option<int> {
    var body := if s != "" && (s[0] == '-' || s[0] == '+') then s[1..] else s;
    if body == "" || !AllDigits(body) then None
    else
      var v: int := if s[0] == '-' then -(DigitsValue(body) as int) else DigitsValue(body);
      if -INT64_MAX - 1 <= v <= INT64_MAX then Some(v) else None
  }

  /** The agent's conversion: an optional plus sign, digits, unsigned 32-bit range. */
  function ParseU32(s: string): Option<int> {
    var body := if s != "" && s[0] == '+' then s[1..] else s;
    if body == "" || !AllDigits(body) then None
    else if DigitsValue(body) < U32_LIMIT then Some(DigitsValue(body)) else None
  }

  lemma ConversionsAgree(s: string)
    requires Atoi(s).Some? && ('-' !in s || Atoi(s).value > 0)
    ensures ParseU32(s) == if Atoi(s).value < U32_LIMIT then Atoi(s) else None
  {
  }

  // ----- Reading a field: what each reader accepts and marks -----

  datatype Status = Accepted | Rejected | Panicked

  /** How reading ended, and the indices set to true until then. */
  datatype Scan = Scan(status: Status, marks: set<int>)

  datatype Stepping = Stepping(start: int, end: int, step: int)

  function Span(lo: int, hi: int): (r: set<int>)
    ensures forall i :: i in r <==> lo <= i <= hi
    decreases hi - lo
  {
    if lo > hi then {} else {lo} + Span(lo + 1, hi)
  }

  function ControllerRange(s: string, min: int, max: int): Option<(int, int)> {
    var parts := Split(s, '-');
    if |parts| != 2 then None
    else match (Atoi(parts[0]), Atoi(parts[1]))
      case (Some(a), Some(b)) => if a < min || b > max || a > b then None else Some((a, b))
      case _ => None
  }

  function ControllerBase(base: string, min: int, max: int): Option<(int, int)> {
    if base == "*" || base == "" then Some((min, max))
    else if '-' in base then ControllerRange(base, min, max)
    else match Atoi(base)
      case Some(v) => if v < min || v > max then None else Some((v, max))
      case None => None
  }

  /** The stepping a part with a slash asks for, if it is well formed. */
  function ControllerStepping(part: string, min: int, max: int): Option<Stepping> {
    var sub := Split(part, '/');
    if |sub| != 2 then None
    else match (Atoi(sub[1]), ControllerBase(sub[0], min, max))
      case (Some(step), Some((a, b))) => if step <= 0 then None else Some(Stepping(a, b, step))
      case _ => None
  }

  /** The marking loop of the controller: past the largest 64-bit integer the counter turns
      negative, and the next write is out of bounds. */
  function ControllerSteps(i: int, end: int, step: int): Scan
    requires step > 0
    decreases end - i
  {
    if i > end then Scan(Accepted, {})
    else if i + step > INT64_MAX then Scan(Panicked, {i})
    else
      var rest := ControllerSteps(i + step, end, step);
      Scan(rest.status, {i} + rest.marks)
  }

  function ControllerPart(raw: string, min: int, max: int): Scan {
    var part := Trim(raw);
    if part == "" then Scan(Rejected, {})
    else if '/' in part then
      match ControllerStepping(part, min, max)
      case None => Scan(Rejected, {})
      case Some(s) => ControllerSteps(s.start, s.end, s.step)
    else if '-' in part then
      match ControllerRange(part, min, max)
      case None => Scan(Rejected, {})
      case Some((a, b)) => Scan(Accepted, Span(a, b))
    else
      match Atoi(part)
      case None => Scan(Rejected, {})
      case Some(v) => if v < min || v > max then Scan(Rejected, {}) else Scan(Accepted, {v})
  }

  function ControllerParts(parts: seq<string>, min: int, max: int): Scan {
    if parts == [] then Scan(Accepted, {})
    else
      var first := ControllerPart(parts[0], min, max);
      if first.status != Accepted then first
      else
        var rest := ControllerParts(parts[1..], min, max);
        Scan(rest.status, first.marks + rest.marks)
  }

  function ControllerField(field: string, min: int, max: int): Scan {
    if field == "*" || field == "?" then Scan(Accepted, Span(min, max))
    else ControllerParts(Split(field, ','), min, max)
  }

  predicate ValidRangeOrNum(part: string, min: int, max: int) {
    if '-' in part then
      var r := Split(part, '-');
      |r| == 2 && Atoi(r[0]).Some? && Atoi(r[1]).Some?
      && Atoi(r[0]).value >= min && Atoi(r[1]).value <= max && Atoi(r[0]).value <= Atoi(r[1]).value
    else
      Atoi(part).Some? && min <= Atoi(part).value <= max
  }

  predicate ValidPart(raw: string, min: int, max: int) {
    var part := Trim(raw);
    part != "" &&
    if '/' in part then
      var sub := Split(part, '/');
      |sub| == 2 && Atoi(sub[1]).Some? && Atoi(sub[1]).value > 0
      && (sub[0] == "*" || sub[0] == "" || ValidRangeOrNum(sub[0], min, max))
    else ValidRangeOrNum(part, min, max)
  }

  predicate ValidField(field: string, min: int, max: int) {
    field == "*" || field == "?" || forall part :: part in Split(field, ',') ==> ValidPart(part, min, max)
  }

  function Larger(a: int, b: int): int { if a >= b then a else b }

  function Smaller(a: int, b: int): int { if a <= b then a else b }

  function AgentRange(s: string, min: int, max: int): Option<(int, int)> {
    match SplitOnce(s, '-')
    case None => None
    case Some((a, b)) =>
      match (ParseU32(a), ParseU32(b))
      case (Some(lo), Some(hi)) => Some((Larger(lo, min), Smaller(hi, max)))
      case _ => None
  }

  function AgentBase(base: string, min: int, max: int): Option<(int, int)> {
    if base == "*" || base == "" then Some((min, max))
    else if '-' in base then AgentRange(base, min, max)
    else match ParseU32(base)
      case Some(v) => Some((Larger(v, min), max))
      case None => None
  }

  /** The marking loop of the agent: its 32-bit counter wraps around. */
  function AgentSteps(val: int, end: int, step: int): set<int>
    requires 0 <= val && 0 < step < U32_LIMIT && end < U32_LIMIT / 2
    decreases if val > end then 0 else if step + end < U32_LIMIT then end - val + 1 else val + 1
  {
    if val > end then {}
    else {val} + AgentSteps((val + step) % U32_LIMIT, end, step)
  }

  function AgentPart(raw: string, min: int, max: int): Scan
    requires 0 <= min <= max < U32_LIMIT / 2
  {
    var part := Trim(raw);
    if part == "" then Scan(Accepted, {})
    else match SplitOnce(part, '/')
      case Some((base, stepText)) =>
        (match (ParseU32(stepText), AgentBase(base, min, max))
         case (Some(step), Some((a, b))) =>
           if step == 0 then Scan(Rejected, {}) else Scan(Accepted, AgentSteps(a, b, step))
         case _ => Scan(Rejected, {}))
      case None =>
        if '-' in part then
          match AgentRange(part, min, max)
          case Some((a, b)) => Scan(Accepted, Span(a, b))
          case None => Scan(Rejected, {})
        else
          match ParseU32(part)
          case Some(v) => if v < min || v > max then Scan(Rejected, {}) else Scan(Accepted, {v})
          case None => Scan(Rejected, {})
  }

  function AgentParts(parts: seq<string>, min: int, max: int): Scan
    requires 0 <= min <= max < U32_LIMIT / 2
  {
    if parts == [] then Scan(Accepted, {})
    else
      var first := AgentPart(parts[0], min, max);
      if first.status != Accepted then first
      else
        var rest := AgentParts(parts[1..], min, max);
        Scan(rest.status, first.marks + rest.marks)
  }

  function AgentField(field: string, min: int, max: int): Scan
    requires 0 <= min <= max < U32_LIMIT / 2
  {
    if field == "*" || field == "?" then Scan(Accepted, Span(min, max))
    else AgentParts(Split(field, ','), min, max)
  }

  // ----- What the readers agree on, part by part -----

  /** Only a first step past the 64-bit range makes the controller's loop panic. */
  lemma {:induction false} ControllerStepsOutcome(i: int, end: int, step: int)
    requires 0 <= i <= end < 1000 && 0 < step <= INT64_MAX
    ensures ControllerSteps(i, end, step).status == if i + step > INT64_MAX then Panicked else Accepted
    decreases end - i
  {
    if i + step <= end {
      ControllerStepsOutcome(i + step, end, step);
    }
  }

  /** Without wrap-around both loops mark the same entries; with it the agent marks more. */
  lemma {:induction false} StepsAgree(i: int, end: int, step: int)
    requires 0 <= i <= end < 1000 && 0 < step < U32_LIMIT
    ensures AgentSteps(i, end, step) == ControllerSteps(i, end, step).marks <==> i + step < U32_LIMIT
    decreases end - i
  {
    if i + step <= end {
      StepsAgree(i + step, end, step);
    } else if i + step < U32_LIMIT {
      assert AgentSteps(i + step, end, step) == {};
    } else {
      var back := (i + step) % U32_LIMIT;
      assert back < i;
      assert back in AgentSteps(i, end, step);
      assert ControllerSteps(i + step, end, step).marks == {};
    }
  }

  predicate FieldRange(min: int, max: int) {
    0 <= min <= max < 1000
  }

  /** The stepping of a part, if it has a slash. */
  function PartStepping(raw: string, min: int, max: int): Option<Stepping> {
    if '/' in Trim(raw) then ControllerStepping(Trim(raw), min, max) else None
  }

  /** The part steps past the largest 64-bit integer. */
  predicate Overflows(raw: string, min: int, max: int) {
    var s := PartStepping(raw, min, max);
    s.Some? && s.value.start + s.value.step > INT64_MAX
  }

  predicate StepFitsU32(raw: string, min: int, max: int) {
    var s := PartStepping(raw, min, max);
    s.Some? ==> s.value.step < U32_LIMIT
  }

  predicate StaysInU32(raw: string, min: int, max: int) {
    var s := PartStepping(raw, min, max);
    s.Some? ==> s.value.start + s.value.step < U32_LIMIT
  }

  lemma PartAccepted(raw: string, min: int, max: int)
    requires FieldRange(min, max)
    ensures ValidPart(raw, min, max) <==> ControllerPart(raw, min, max).status != Rejected
    ensures Overflows(raw, min, max) && ValidPart(raw, min, max)
            <==> ControllerPart(raw, min, max).status == Panicked
  {
    var part := Trim(raw);
    if '/' in part && ControllerStepping(part, min, max).Some? {
      var s := ControllerStepping(part, min, max).value;
      ControllerStepsOutcome(s.start, s.end, s.step);
    }
  }

  lemma RangesAgree(s: string, min: int, max: int)
    requires FieldRange(min, max) && ControllerRange(s, min, max).Some?
    ensures AgentRange(s, min, max) == ControllerRange(s, min, max)
  {
    SplitOnceIsSplit(s, '-');
    SplitPieces(s, '-');
    ConversionsAgree(Split(s, '-')[0]);
    ConversionsAgree(Split(s, '-')[1]);
  }

  lemma BasesAgree(base: string, min: int, max: int)
    requires FieldRange(min, max) && ControllerBase(base, min, max).Some?
    ensures AgentBase(base, min, max) == ControllerBase(base, min, max)
  {
    if base != "*" && base != "" {
      if '-' in base {
        RangesAgree(base, min, max);
      } else {
        ConversionsAgree(base);
      }
    }
  }

  lemma PartsAgree(raw: string, min: int, max: int)
    requires FieldRange(min, max) && ControllerPart(raw, min, max).status == Accepted
    ensures AgentPart(raw, min, max).status == if StepFitsU32(raw, min, max) then Accepted else Rejected
    ensures StepFitsU32(raw, min, max) ==>
              (AgentPart(raw, min, max).marks == ControllerPart(raw, min, max).marks <==> StaysInU32(raw, min, max))
  {
    var part := Trim(raw);
    SplitOnceIsSplit(part, '/');
    if '/' in part {
      var sub := Split(part, '/');
      var s := ControllerStepping(part, min, max).value;
      ConversionsAgree(sub[1]);
      BasesAgree(sub[0], min, max);
      if s.step < U32_LIMIT {
        StepsAgree(s.start, s.end, s.step);
      }
    } else if '-' in part {
      RangesAgree(part, min, max);
    } else {
      ConversionsAgree(part);
    }
  }

  // ----- Whole fields -----

  /** The comma-separated parts a reader goes through; the wildcards are read as a whole. */
  function FieldParts(field: string): seq<string> {
    if field == "*" || field == "?" then [] else Split(field, ',')
  }

  lemma {:induction false} PartsOutcome(parts: seq<string>, min: int, max: int)
    requires FieldRange(min, max)
    ensures ControllerParts(parts, min, max).status == Accepted
            <==> forall p :: p in parts ==> ValidPart(p, min, max) && !Overflows(p, min, max)
    ensures ControllerParts(parts, min, max).status == Accepted ==>
              (AgentParts(parts, min, max).status == Accepted <==> forall p :: p in parts ==> StepFitsU32(p, min, max))
    ensures ControllerParts(parts, min, max).status == Accepted && (forall p :: p in parts ==> StaysInU32(p, min, max))
            ==> AgentParts(parts, min, max) == ControllerParts(parts, min, max)
  {
    if parts != [] {
      var p, rest := parts[0], parts[1..];
      assert parts == [p] + rest;
      PartAccepted(p, min, max);
      PartsOutcome(rest, min, max);
      if ControllerPart(p, min, max).status == Accepted {
        PartsAgree(p, min, max);
      }
    }
  }

  /** The compiler accepts what the validator accepts, unless a step overflows; then the agent
      accepts it unless a step needs more than 32 bits, and marks the same entries unless its
      counter wraps around. */
  lemma FieldOutcome(field: string, min: int, max: int)
    requires FieldRange(min, max)
    ensures ControllerField(field, min, max).status == Accepted
            <==> ValidField(field, min, max) && forall p :: p in FieldParts(field) ==> !Overflows(p, min, max)
    ensures ControllerField(field, min, max).status == Accepted ==>
              (AgentField(field, min, max).status == Accepted
               <==> forall p :: p in FieldParts(field) ==> StepFitsU32(p, min, max))
    ensures ControllerField(field, min, max).status == Accepted
            && (forall p :: p in FieldParts(field) ==> StaysInU32(p, min, max))
            ==> AgentField(field, min, max) == ControllerField(field, min, max)
  {
    PartsOutcome(FieldParts(field), min, max);
  }

  // ----- Marking the entries of a table in place -----

  /** An array that has gained exactly the marks. */
  twostate predicate Gains(target: array<bool>, marks: set<int>)
    reads target
  {
    forall k :: 0 <= k < target.Length ==> (target[k] <==> old(target[k]) || k in marks)
  }

  method MarkSpan(target: array<bool>, lo: int, hi: int)
    requires 0 <= lo && hi < target.Length
    modifies target
    ensures Gains(target, Span(lo, hi))
  {
    var i := lo;
    while i <= hi
      invariant if lo <= hi then lo <= i <= hi + 1 else i == lo
      invariant forall k :: 0 <= k < target.Length ==> (target[k] <==> old(target[k]) || lo <= k < i)
    {
      target[i] := true;
      i := i + 1;
    }
  }

  /** The controller's stepping loop. */
  method CompileSteps(target: array<bool>, start: int, end: int, step: int) returns (status: Status)
    requires 0 <= start && end < target.Length && 0 < step
    modifies target
    ensures status == ControllerSteps(start, end, step).status
    ensures Gains(target, ControllerSteps(start, end, step).marks)
  {
    var i := start;
    ghost var marked: set<int> := {};
    while i <= end
      invariant start <= i
      invariant Gains(target, marked)
      invariant var rest := ControllerSteps(i, end, step);
                ControllerSteps(start, end, step) == Scan(rest.status, marked + rest.marks)
    {
      target[i] := true;
      marked := marked + {i};
      if i + step > INT64_MAX {
        return Panicked;
      }
      i := i + step;
    }
    return Accepted;
  }

  /** One comma-separated part of the controller's compiler. */
  method CompilePart(raw: string, min: int, max: int, target: array<bool>) returns (status: Status)
    requires FieldRange(min, max) && max < target.Length
    modifies target
    ensures status == ControllerPart(raw, min, max).status
    ensures Gains(target, ControllerPart(raw, min, max).marks)
  {
    var part := Trim(raw);
    if part == "" {
      return Rejected;
    }
    if '/' in part {
      var stepping := ControllerStepping(part, min, max);
      if stepping.None? {
        return Rejected;
      }
      status := CompileSteps(target, stepping.value.start, stepping.value.end, stepping.value.step);
    } else if '-' in part {
      var range := ControllerRange(part, min, max);
      if range.None? {
        return Rejected;
      }
      MarkSpan(target, range.value.0, range.value.1);
      status := Accepted;
    } else {
      var v := Atoi(part);
      if v.None? || v.value < min || v.value > max {
        return Rejected;
      }
      target[v.value] := true;
      status := Accepted;
    }
  }

  /** One field of the controller's compiler. */
  method CompileField(field: string, min: int, max: int, target: array<bool>) returns (status: Status)
    requires FieldRange(min, max) && max < target.Length
    modifies target
    ensures status == ControllerField(field, min, max).status
    ensures Gains(target, ControllerField(field, min, max).marks)
  {
    hide ControllerPart;
    if field == "*" || field == "?" {
      MarkSpan(target, min, max);
      return Accepted;
    }
    var parts := Split(field, ',');
    ghost var done: set<int> := {};
    for n := 0 to |parts|
      invariant Gains(target, done)
      invariant var rest := ControllerParts(parts[n..], min, max);
                ControllerParts(parts, min, max) == Scan(rest.status, done + rest.marks)
    {
      assert parts[n..] == [parts[n]] + parts[n + 1..];
      status := CompilePart(parts[n], min, max, target);
      done := done + ControllerPart(parts[n], min, max).marks;
      if status != Accepted {
        return;
      }
    }
    status := Accepted;
  }

  /** The agent's stepping loop. */
  method MarkSteps(target: array<bool>, start: int, end: int, step: int)
    requires 0 <= start && end < target.Length && end < U32_LIMIT / 2 && 0 < step < U32_LIMIT
    modifies target
    ensures Gains(target, AgentSteps(start, end, step))
  {
    var val := start;
    ghost var marked: set<int> := {};
    while val <= end
      invariant 0 <= val
      invariant Gains(target, marked)
      invariant AgentSteps(start, end, step) == marked + AgentSteps(val, end, step)
      decreases if val > end then 0 else if step + end < U32_LIMIT then end - val + 1 else val + 1
    {
      target[val] := true;
      marked := marked + {val};
      val := (val + step) % U32_LIMIT;
    }
  }

  /** One comma-separated part of the agent's parser, which skips empty ones. */
  method ParsePart(raw: string, min: int, max: int, target: array<bool>) returns (status: Status)
    requires FieldRange(min, max) && max < target.Length
    modifies target
    ensures status == AgentPart(raw, min, max).status
    ensures Gains(target, AgentPart(raw, min, max).marks)
  {
    var part := Trim(raw);
    SplitOnceIsSplit(part, '/');
    if part == "" {
      return Accepted;
    }
    if '/' in part {
      var pieces := SplitOnce(part, '/').value;
      var step := ParseU32(pieces.1);
      var base := AgentBase(pieces.0, min, max);
      if step.None? || base.None? || step.value == 0 {
        return Rejected;
      }
      MarkSteps(target, base.value.0, base.value.1, step.value);
    } else if '-' in part {
      var range := AgentRange(part, min, max);
      if range.None? {
        return Rejected;
      }
      MarkSpan(target, range.value.0, range.value.1);
    } else {
      var v := ParseU32(part);
      if v.None? || v.value < min || v.value > max {
        return Rejected;
      }
      target[v.value] := true;
    }
    status := Accepted;
  }

  /** One field of the agent's parser. */
  method ParseField(field: string, min: int, max: int, target: array<bool>) returns (status: Status)
    requires FieldRange(min, max) && max < target.Length
    modifies target
    ensures status == AgentField(field, min, max).status
    ensures Gains(target, AgentField(field, min, max).marks)
  {
    hide AgentPart;
    if field == "*" || field == "?" {
      MarkSpan(target, min, max);
      return Accepted;
    }
    var parts := Split(field, ',');
    ghost var done: set<int> := {};
    for n := 0 to |parts|
      invariant Gains(target, done)
      invariant var rest := AgentParts(parts[n..], min, max);
                AgentParts(parts, min, max) == Scan(rest.status, done + rest.marks)
    {
      assert parts[n..] == [parts[n]] + parts[n + 1..];
      status := ParsePart(parts[n], min, max, target);
      done := done + AgentPart(parts[n], min, max).marks;
      if status != Accepted {
        return;
      }
    }
    status := Accepted;
  }

  // ----- Whole expressions -----

  /** The bounds of the fields of a five-field or six-field expression. */
  function FieldLimits(n: nat): (r: seq<(int, int)>)
    requires n == 5 || n == 6
    ensures |r| == n && forall i :: 0 <= i < n ==> FieldRange(r[i].0, r[i].1)
  {
    var five := [(0, 59), (0, 23), (1, 31), (1, 12), (0, 7)];
    if n == 5 then five else [(0, 59)] + five
  }

  predicate FieldCount(fields: seq<string>) {
    |fields| == 5 || |fields| == 6
  }

  predicate ValidateCronExpr(expr: string) {
    var fields := Fields(Trim(expr));
    FieldCount(fields) &&
    forall i :: 0 <= i < |fields| ==>
      ValidField(fields[i], FieldLimits(|fields|)[i].0, FieldLimits(|fields|)[i].1)
  }

  function ControllerScans(fields: seq<string>): (r: seq<Scan>)
    requires FieldCount(fields)
    ensures |r| == |fields|
  {
    var limits := FieldLimits(|fields|);
    seq(|fields|, i requires 0 <= i < |fields| => ControllerField(fields[i], limits[i].0, limits[i].1))
  }

  function AgentScans(fields: seq<string>): (r: seq<Scan>)
    requires FieldCount(fields)
    ensures |r| == |fields|
  {
    var limits := FieldLimits(|fields|);
    seq(|fields|, i requires 0 <= i < |fields| => AgentField(fields[i], limits[i].0, limits[i].1))
  }

  /** Fields are read in order, up to the first that is not accepted. */
  function Verdict(scans: seq<Scan>): Status {
    if scans == [] then Accepted
    else if scans[0].status != Accepted then scans[0].status
    else Verdict(scans[1..])
  }

  lemma {:induction false} VerdictAccepted(scans: seq<Scan>)
    ensures Verdict(scans) == Accepted <==> forall i :: 0 <= i < |scans| ==> scans[i].status == Accepted
  {
    if scans != [] {
      VerdictAccepted(scans[1..]);
      assert forall i :: 0 < i < |scans| ==> scans[i] == scans[1..][i - 1];
    }
  }

  function Table(n: nat, marks: set<int>): (r: seq<bool>)
    ensures |r| == n && forall i :: 0 <= i < n ==> (r[i] <==> i in marks)
  {
    seq(n, i => i in marks)
  }

  /** Sunday is 0 and 7 at once. */
  function BothSundays(marks: set<int>): set<int> {
    if 0 in marks || 7 in marks then marks + {0, 7} else marks
  }

  function AgentSunday(marks: set<int>): set<int> {
    if 7 in marks then marks + {0} else marks
  }

  function ControllerOf(scans: seq<Scan>): ControllerSchedule
    requires |scans| == 5 || |scans| == 6
  {
    var o := |scans| - 5;
    ControllerSchedule(
      o == 1,
      Table(60, if o == 1 then scans[0].marks else {0}),
      Table(60, scans[o].marks), Table(24, scans[o + 1].marks), Table(32, scans[o + 2].marks),
      Table(13, scans[o + 3].marks), Table(8, BothSundays(scans[o + 4].marks)))
  }

  function AgentOf(scans: seq<Scan>): CronExpression
    requires |scans| == 5 || |scans| == 6
  {
    var o := |scans| - 5;
    CronExpression(
      o == 1,
      Table(60, if o == 1 then scans[0].marks else {0}),
      Table(60, scans[o].marks), Table(24, scans[o + 1].marks), Table(32, scans[o + 2].marks),
      Table(13, scans[o + 3].marks), Table(7, AgentSunday(scans[o + 4].marks)))
  }

  /** No part of any field satisfies the given overflow condition. */
  ghost predicate EveryPart(fields: seq<string>, p: (string, int, int) -> bool)
    requires FieldCount(fields)
  {
    forall i, part :: 0 <= i < |fields| && part in FieldParts(fields[i]) ==>
      p(part, FieldLimits(|fields|)[i].0, FieldLimits(|fields|)[i].1)
  }

  ghost predicate EveryPartOf(expr: string, p: (string, int, int) -> bool) {
    FieldCount(Fields(expr)) && EveryPart(Fields(expr), p)
  }

  // ----- Whole expressions -----

  /** The outcome of the controller's compiler, which trims the expression first. */
  function Compiled(expr: string): (Status, Option<ControllerSchedule>) {
    var fields := Fields(Trim(expr));
    if !FieldCount(fields) then (Rejected, None)
    else
      var status := Verdict(ControllerScans(fields));
      (status, if status == Accepted then Some(ControllerOf(ControllerScans(fields))) else None)
  }

  /** The outcome of the agent's parser. */
  function Parsed(expr: string): (Status, Option<CronExpression>) {
    var fields := Fields(expr);
    if !FieldCount(fields) then (Rejected, None)
    else
      var status := Verdict(AgentScans(fields));
      (status, if status == Accepted then Some(AgentOf(AgentScans(fields))) else None)
  }

  /** The compiler accepts exactly the validated expressions whose steps stay in 64 bits. */
  lemma CompilesWhatValidates(expr: string)
    ensures Compiled(expr).0 == Accepted
            <==> ValidateCronExpr(expr) && EveryPartOf(expr, (p, min, max) => !Overflows(p, min, max))
  {
    FieldsOfTrim(expr);
    var fields := Fields(Trim(expr));
    hide Fields, Trim;
    if FieldCount(fields) {
      VerdictAccepted(ControllerScans(fields));
      var limits := FieldLimits(|fields|);
      forall i | 0 <= i < |fields|
        ensures ControllerScans(fields)[i].status == Accepted <==>
                ValidField(fields[i], limits[i].0, limits[i].1)
                && forall p :: p in FieldParts(fields[i]) ==> !Overflows(p, limits[i].0, limits[i].1)
      {
        FieldOutcome(fields[i], limits[i].0, limits[i].1);
      }
    }
  }

  lemma FieldsParse(fields: seq<string>)
    requires FieldCount(fields) && Verdict(ControllerScans(fields)) == Accepted
    ensures Verdict(AgentScans(fields)) == Accepted <==> EveryPart(fields, StepFitsU32)
  {
    VerdictAccepted(ControllerScans(fields));
    VerdictAccepted(AgentScans(fields));
    var limits := FieldLimits(|fields|);
    forall i | 0 <= i < |fields|
      ensures AgentScans(fields)[i].status == Accepted <==>
              forall p :: p in FieldParts(fields[i]) ==> StepFitsU32(p, limits[i].0, limits[i].1)
    {
      assert ControllerScans(fields)[i].status == Accepted;
      FieldOutcome(fields[i], limits[i].0, limits[i].1);
    }
  }

  /** On expressions that compile, the agent's parser succeeds exactly when every step fits 32 bits. */
  lemma AgentParsesWhatCompiles(expr: string)
    requires Compiled(expr).0 == Accepted
    ensures Parsed(expr).0 == Accepted <==> EveryPartOf(expr, StepFitsU32)
  {
    FieldsOfTrim(expr);
    hide Fields, Trim, Verdict, ControllerScans, AgentScans, EveryPart;
    FieldsParse(Fields(expr));
  }

  lemma SameScans(fields: seq<string>)
    requires FieldCount(fields) && Verdict(ControllerScans(fields)) == Accepted
    requires EveryPart(fields, StaysInU32)
    ensures AgentScans(fields) == ControllerScans(fields)
  {
    VerdictAccepted(ControllerScans(fields));
    var limits := FieldLimits(|fields|);
    forall i | 0 <= i < |fields| ensures AgentScans(fields)[i] == ControllerScans(fields)[i] {
      assert ControllerScans(fields)[i].status == Accepted;
      FieldOutcome(fields[i], limits[i].0, limits[i].1);
    }
  }

  /** When an expression compiles and no 32-bit counter wraps around, the agent accepts it too, both
      sides hold the same sets, and they fire together. */
  lemma SameSchedules(expr: string, t: int)
    requires Compiled(expr).0 == Accepted && EveryPartOf(expr, StaysInU32)
    ensures Parsed(expr).0 == Accepted
    ensures var e, s := Parsed(expr).1.value, Compiled(expr).1.value;
            e.Compiled() && s.Compiled() && SameSets(e, s) && (t >= 0 ==> (e.FiresAt(t) <==> s.Matches(t)))
  {
    FieldsOfTrim(expr);
    hide CronExpression.FiresAt, ControllerSchedule.Matches, AgentScans, ControllerScans, Verdict, Fields, Trim,
      EveryPart;
    var fields := Fields(expr);
    SameScans(fields);
    if t >= 0 {
      SameFirings(AgentOf(AgentScans(fields)), ControllerOf(ControllerScans(fields)), t);
    }
  }

  /** One table of a schedule, all false before its field is compiled into it. */
  method CompileTable(field: string, min: int, max: int, size: nat) returns (status: Status, table: seq<bool>)
    requires FieldRange(min, max) && max < size
    ensures status == ControllerField(field, min, max).status
    ensures table == Table(size, ControllerField(field, min, max).marks)
  {
    var target := new bool[size](_ => false);
    status := CompileField(field, min, max, target);
    table := target[..];
  }

  method ParseTable(field: string, min: int, max: int, size: nat) returns (status: Status, table: seq<bool>)
    requires FieldRange(min, max) && max < size
    ensures status == AgentField(field, min, max).status
    ensures table == Table(size, AgentField(field, min, max).marks)
  {
    var target := new bool[size](_ => false);
    status := ParseField(field, min, max, target);
    table := target[..];
  }

  /** Five or six scans end with the first that is not accepted. */
  lemma VerdictUnfolds(scans: seq<Scan>, n: nat)
    requires n < |scans| && forall i :: 0 <= i < n ==> scans[i].status == Accepted
    ensures scans[n].status != Accepted ==> Verdict(scans) == scans[n].status
  {
    if n > 0 {
      VerdictUnfolds(scans[1..], n - 1);
    }
  }

  /** The controller's compiler stops at the first field that fails. */
  method ParseCronSchedule(expr: string) returns (status: Status, schedule: Option<ControllerSchedule>)
    ensures (status, schedule) == Compiled(expr)
  {
    hide ControllerField, ControllerSchedule.Matches, Fields, Trim;
    var fields := Fields(Trim(expr));
    if |fields| != 5 && |fields| != 6 {
      return Rejected, None;
    }
    ghost var scans := ControllerScans(fields);
    VerdictAccepted(scans);
    hide Verdict;
    var hasSeconds := |fields| == 6;
    var offset := 0;
    var sec, min, hour, dom, mon, dow;
    if hasSeconds {
      status, sec := CompileTable(fields[0], 0, 59, 60);
      if status != Accepted {
        VerdictUnfolds(scans, 0);
        return status, None;
      }
      offset := 1;
    } else {
      sec := Table(60, {0});
    }
    status, min := CompileTable(fields[offset], 0, 59, 60);
    if status != Accepted {
      VerdictUnfolds(scans, offset);
      return status, None;
    }
    status, hour := CompileTable(fields[offset + 1], 0, 23, 24);
    if status != Accepted {
      VerdictUnfolds(scans, offset + 1);
      return status, None;
    }
    status, dom := CompileTable(fields[offset + 2], 1, 31, 32);
    if status != Accepted {
      VerdictUnfolds(scans, offset + 2);
      return status, None;
    }
    status, mon := CompileTable(fields[offset + 3], 1, 12, 13);
    if status != Accepted {
      VerdictUnfolds(scans, offset + 3);
      return status, None;
    }
    status, dow := CompileTable(fields[offset + 4], 0, 7, 8);
    if status != Accepted {
      VerdictUnfolds(scans, offset + 4);
      return status, None;
    }
    if dow[0] || dow[7] {
      dow := dow[0 := true][7 := true];
    }
    assert dow == Table(8, BothSundays(scans[offset + 4].marks));
    hide BothSundays;
    schedule := Some(ControllerSchedule(hasSeconds, sec, min, hour, dom, mon, dow));
  }

  /** The agent's parser; the weekday field is read into a table of eight and folded. */
  method ParseCronExpression(expr: string) returns (status: Status, cron: Option<CronExpression>)
    ensures (status, cron) == Parsed(expr)
  {
    hide AgentField, CronExpression.FiresAt, Fields;
    var fields := Fields(expr);
    if |fields| != 5 && |fields| != 6 {
      return Rejected, None;
    }
    ghost var scans := AgentScans(fields);
    VerdictAccepted(scans);
    hide Verdict;
    var hasSeconds := |fields| == 6;
    var offset := if hasSeconds then 1 else 0;
    var sec, min, hour, dom, mon, raw;
    if hasSeconds {
      status, sec := ParseTable(fields[0], 0, 59, 60);
      if status != Accepted {
        VerdictUnfolds(scans, 0);
        return status, None;
      }
    } else {
      sec := Table(60, {0});
    }
    status, min := ParseTable(fields[offset], 0, 59, 60);
    if status != Accepted {
      VerdictUnfolds(scans, offset);
      return status, None;
    }
    status, hour := ParseTable(fields[offset + 1], 0, 23, 24);
    if status != Accepted {
      VerdictUnfolds(scans, offset + 1);
      return status, None;
    }
    status, dom := ParseTable(fields[offset + 2], 1, 31, 32);
    if status != Accepted {
      VerdictUnfolds(scans, offset + 2);
      return status, None;
    }
    status, mon := ParseTable(fields[offset + 3], 1, 12, 13);
    if status != Accepted {
      VerdictUnfolds(scans, offset + 3);
      return status, None;
    }
    status, raw := ParseTable(fields[offset + 4], 0, 7, 8);
    if status != Accepted {
      VerdictUnfolds(scans, offset + 4);
      return status, None;
    }
    var dow := raw[..7];
    if raw[7] {
      dow := dow[0 := true];
    }
    assert dow == Table(7, AgentSunday(scans[offset + 4].marks));
    cron := Some(CronExpression(hasSeconds, sec, min, hour, dom, mon, dow));
  }

  // ----- Where the readers part ways -----

  lemma StepField(start: nat, step: nat, min: int, max: int)
    requires FieldRange(min, max) && min <= start <= max && 0 < step <= INT64_MAX
    ensures var field := Numeral(start) + "/" + Numeral(step);
            FieldParts(field) == [field] && PartStepping(field, min, max) == Some(Stepping(start, max, step))
            && ValidField(field, min, max)
  {
    var a, b := Numeral(start), Numeral(step);
    NumeralValue(start);
    NumeralValue(step);
    PlainNumber(a);
    PlainNumber(b);
    DigitsClean(a);
    hide Numeral, Atoi, AllDigits, DigitsValue, Trim, Split;
    SteppedText(a, b);
  }

  lemma SteppedText(a: string, b: string)
    requires a != "" && AllDigits(a) && b != "" && AllDigits(b)
    ensures var field := a + "/" + b;
            && field != "*" && field != "?" && field != "" && '/' in field
            && Trim(field) == field && Split(field, '/') == [a, b] && Split(field, ',') == [field]
    ensures a != "*"
  {
    var field := a + "/" + b;
    DigitsClean(a);
    DigitsClean(b);
    assert a[0] in a && field[0] == a[0] && field[|a|] == '/';
    hide AllDigits, Trim;
    assert field == a + ['/'] + b;
    SplitTwo(a, b, '/');
    assert forall c :: c in field ==> c in a || c in b || c == '/';
    hide Split;
    TrimClean(field);
  }

  lemma PlainNumber(s: string)
    requires s != "" && AllDigits(s) && DigitsValue(s) <= INT64_MAX
    ensures Atoi(s) == Some(DigitsValue(s) as int)
  {
    assert s[0] in s;
  }

  /** Day-of-month "1/9223372036854775807" passes validation, but compiling it panics. */
  lemma ValidatedButPanics()
    ensures var field := Numeral(1) + "/" + Numeral(INT64_MAX);
            ValidField(field, 1, 31) && ControllerField(field, 1, 31).status == Panicked
  {
    var field := Numeral(1) + "/" + Numeral(INT64_MAX);
    StepField(1, INT64_MAX, 1, 31);
    PartAccepted(field, 1, 31);
    assert ValidPart(field, 1, 31) by { assert field in Split(field, ','); }
  }

  lemma SinglePart(field: string, min: int, max: int)
    requires FieldRange(min, max) && FieldParts(field) == [field]
    ensures AgentField(field, min, max) == AgentPart(field, min, max)
    ensures ControllerField(field, min, max) == ControllerPart(field, min, max)
  {
    var a, c := AgentPart(field, min, max), ControllerPart(field, min, max);
    assert a.marks + {} == a.marks && c.marks + {} == c.marks;
    hide AgentPart, ControllerPart;
    assert [field][1..] == [];
    assert AgentParts([], min, max) == ControllerParts([], min, max) == Scan(Accepted, {});
  }

  /** Minute "5/4294967295" means minute 5 to the controller; the agent's counter wraps around
      and marks other minutes as well. */
  lemma WrapsAround()
    ensures var field := Numeral(5) + "/" + Numeral(U32_LIMIT - 1);
            ControllerField(field, 0, 59).status == AgentField(field, 0, 59).status == Accepted
            && ControllerField(field, 0, 59).marks != AgentField(field, 0, 59).marks
  {
    var field := Numeral(5) + "/" + Numeral(U32_LIMIT - 1);
    StepField(5, U32_LIMIT - 1, 0, 59);
    SinglePart(field, 0, 59);
    PartAccepted(field, 0, 59);
    hide ValidPart, ControllerPart, AgentPart, ControllerField, AgentField, Numeral;
    assert field in Split(field, ',');
    PartsAgree(field, 0, 59);
  }
}
