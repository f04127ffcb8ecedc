/** nftables sets: dropping covered prefixes, and marking packets. */
module NftPrefixes {
  import opened Wrappers
  import opened Text
  import opened Sorting
  import CleanPrefixes

  // ----- Prefixes as address blocks -----

  function Pow2(n: nat): (r: nat)
    ensures r > 0
  {
    if n == 0 then 1 else 2 * Pow2(n - 1)
  }

  function Width(v6: bool): nat {
    if v6 then 128 else 32
  }

  datatype RawPrefix = RawPrefix(v6: bool, addr: nat, bits: nat)

  predicate WellFormed(p: RawPrefix) {
    p.bits <= Width(p.v6)
  }

  type Prefix = p: RawPrefix | WellFormed(p) witness RawPrefix(false, 0, 0)

  function Size(p: Prefix): nat {
    Pow2(Width(p.v6) - p.bits)
  }

  function HostBits(addr: nat, size: nat): (r: nat)
    requires size > 0
    ensures r <= addr
  {
    addr % size
  }

  /** The prefix with the host bits cleared. */
  function Masked(p: Prefix): Prefix {
    p.(addr := p.addr - HostBits(p.addr, Size(p)))
  }

  predicate IsMasked(p: Prefix) {
    p.addr % Size(p) == 0
  }

  /** The address shares the prefix's network bits. */
  predicate Contains(p: Prefix, x: nat) {
    x / Size(p) == p.addr / Size(p)
  }

  predicate Covers(ps: seq<Prefix>, x: nat) {
    exists p :: p in ps && Contains(p, x)
  }

  lemma Steps(d: nat, a: nat, b: nat)
    requires a < b
    ensures d * a + d <= d * b
  {
    assert d * b == d * a + d * (b - a);
    assert d * (b - a) == d + d * (b - a - 1);
  }

  lemma QuotientIs(x: nat, d: nat, q: nat, r: nat)
    requires d > 0 && x == d * q + r && r < d
    ensures x / d == q && x % d == r
  {
    var q', r' := x / d, x % d;
    assert x == d * q' + r';
    if q < q' {
      Steps(d, q, q');
    } else if q' < q {
      Steps(d, q', q);
    }
  }

  lemma MaskedKeepsBlock(p: Prefix)
    ensures IsMasked(Masked(p)) && forall x: nat :: Contains(Masked(p), x) <==> Contains(p, x)
  {
    var s := Size(p);
    assert Size(Masked(p)) == s;
    hide Size;
    assert p.addr == s * (p.addr / s) + p.addr % s;
    QuotientIs(Masked(p).addr, s, p.addr / s, 0);
  }

  lemma {:induction false} Pow2Adds(a: nat, b: nat)
    ensures Pow2(a + b) == Pow2(a) * Pow2(b)
  {
    if a > 0 {
      Pow2Adds(a - 1, b);
      TimesRegroup(2, Pow2(a - 1), Pow2(b));
    }
  }

  lemma TimesRegroup(x: nat, y: nat, z: nat)
    ensures x * (y * z) == (x * y) * z
  {
  }

  lemma Distribute(s: nat, k: nat, t: nat, u: nat)
    ensures s * (k * t + u) == (s * k) * t + s * u
  {
    TimesRegroup(s, k, t);
  }

  lemma DivideTwice(x: nat, s: nat, k: nat)
    requires s > 0 && k > 0
    ensures s * k > 0 && x / (s * k) == x / s / k
  {
    var q, r := x / s, x % s;
    var t, u := q / k, q % k;
    DivisionIs(x, s);
    DivisionIs(q, k);
    Distribute(s, k, t, u);
    Steps(s, u, k);
    Steps(s, 0, k);
    QuotientIs(x, s * k, t, s * u + r);
  }

  lemma DivisionIs(x: nat, d: nat)
    requires d > 0
    ensures x == d * (x / d) + x % d && x % d < d
  {
  }

  /** A shorter prefix around one address of a block holds the whole block. */
  lemma Nested(a: Prefix, b: Prefix, x: nat, y: nat)
    requires a.v6 == b.v6 && b.bits <= a.bits && x / Size(a) == y / Size(a)
    ensures x / Size(b) == y / Size(b)
  {
    var n := Width(a.v6) - a.bits;
    var m := a.bits - b.bits;
    Pow2Adds(n, m);
    assert Size(b) == Size(a) * Pow2(m);
    DivideTwice(x, Size(a), Pow2(m));
    DivideTwice(y, Size(a), Pow2(m));
  }

  // ----- Dropping covered prefixes -----

  /** Prefix j makes prefix i redundant. */
  predicate Drops(ps: seq<Prefix>, i: nat, j: nat)
    requires i < |ps| && j < |ps|
  {
    i != j &&
    ((ps[j].bits < ps[i].bits && Contains(ps[j], ps[i].addr)) || (ps[j] == ps[i] && j < i))
  }

  predicate IsCovered(ps: seq<Prefix>, i: nat)
    requires i < |ps|
  {
    exists j :: 0 <= j < |ps| && Drops(ps, i, j)
  }

  function KeptFrom(ps: seq<Prefix>, i: nat): seq<Prefix>
    requires i <= |ps|
    decreases |ps| - i
  {
    if i == |ps| then [] else (if IsCovered(ps, i) then [] else [ps[i]]) + KeptFrom(ps, i + 1)
  }

  method CheckCovered(ps: seq<Prefix>, i: nat) returns (isCovered: bool)
    requires i < |ps|
    ensures isCovered == IsCovered(ps, i)
  {
    hide Contains;
    var a := ps[i];
    var j := 0;
    while j < |ps|
      invariant 0 <= j <= |ps|
      invariant forall k :: 0 <= k < j ==> !Drops(ps, i, k)
    {
      var b := ps[j];
      if i != j {
        if b.bits < a.bits && Contains(b, a.addr) {
          assert Drops(ps, i, j);
          return true;
        }
        if b.bits == a.bits && b == a && j < i {
          assert Drops(ps, i, j);
          return true;
        }
      }
      j := j + 1;
    }
    isCovered := false;
  }

  method DropCovered(ps: seq<Prefix>) returns (kept: seq<Prefix>)
    ensures kept == KeptFrom(ps, 0)
  {
    hide IsCovered;
    kept := [];
    var i := 0;
    while i < |ps|
      invariant 0 <= i <= |ps| && kept + KeptFrom(ps, i) == KeptFrom(ps, 0)
    {
      var isCovered := CheckCovered(ps, i);
      if !isCovered {
        kept := kept + [ps[i]];
      }
      i := i + 1;
    }
  }

  /** Masked prefixes of one family. */
  ghost predicate Uniform(ps: seq<Prefix>, v6: bool) {
    forall p :: p in ps ==> p.v6 == v6 && IsMasked(p)
  }

  /** No address lies in two of the prefixes. */
  ghost predicate Disjoint(ps: seq<Prefix>) {
    forall i, j, x: nat :: 0 <= i < j < |ps| && Contains(ps[i], x) ==> !Contains(ps[j], x)
  }

  /** kept[k] is the uncovered prefix at origins[k], all at or after i and in ascending order. */
  ghost predicate ComeFrom(ps: seq<Prefix>, i: nat, kept: seq<Prefix>, origins: seq<nat>) {
    && |origins| == |kept|
    && (forall k :: 0 <= k < |origins| ==>
          i <= origins[k] < |ps| && ps[origins[k]] == kept[k] && !IsCovered(ps, origins[k]))
    && (forall k, l :: 0 <= k < l < |origins| ==> origins[k] < origins[l])
  }

  lemma {:induction false} KeptOrigins(ps: seq<Prefix>, i: nat) returns (origins: seq<nat>)
    requires i <= |ps|
    ensures ComeFrom(ps, i, KeptFrom(ps, i), origins)
    decreases |ps| - i
  {
    hide IsCovered;
    if i == |ps| {
      origins := [];
    } else {
      origins := KeptOrigins(ps, i + 1);
      if !IsCovered(ps, i) {
        origins := [i] + origins;
      } else {
        assert KeptFrom(ps, i) == KeptFrom(ps, i + 1);
      }
    }
  }

  lemma {:induction false} UncoveredIsKept(ps: seq<Prefix>, i: nat, k: nat)
    requires i <= k < |ps| && !IsCovered(ps, k)
    ensures ps[k] in KeptFrom(ps, i)
    decreases |ps| - i
  {
    hide IsCovered;
    if i < k {
      UncoveredIsKept(ps, i + 1, k);
    }
  }

  /** Two overlapping prefixes: one of them is redundant. */
  lemma OverlapDrops(ps: seq<Prefix>, v6: bool, i: nat, j: nat, x: nat)
    requires Uniform(ps, v6) && i < j < |ps| && Contains(ps[i], x) && Contains(ps[j], x)
    ensures IsCovered(ps, i) || IsCovered(ps, j)
  {
    var a, b := ps[i], ps[j];
    assert a in ps && b in ps;
    if a.bits == b.bits {
      assert Size(a) == Size(b);
      assert Drops(ps, j, i);
    } else if a.bits < b.bits {
      Nested(b, a, x, b.addr);
      assert Drops(ps, j, i);
    } else {
      Nested(a, b, x, a.addr);
      assert Drops(ps, i, j);
    }
  }

  /** The widest prefix around an address, the first of its kind, is not covered. */
  lemma WidestAround(ps: seq<Prefix>, v6: bool, x: nat, n: nat) returns (k: nat)
    requires Uniform(ps, v6) && n <= |ps| && exists i :: 0 <= i < n && Contains(ps[i], x)
    ensures k < n && Contains(ps[k], x)
    ensures forall i :: 0 <= i < n && Contains(ps[i], x) ==> ps[k].bits <= ps[i].bits
    ensures forall i :: 0 <= i < k && Contains(ps[i], x) ==> ps[k].bits < ps[i].bits
  {
    var i :| 0 <= i < n && Contains(ps[i], x);
    hide Contains, Uniform;
    if exists i :: 0 <= i < n - 1 && Contains(ps[i], x) {
      k := WidestAround(ps, v6, x, n - 1);
      if Contains(ps[n - 1], x) && ps[n - 1].bits < ps[k].bits {
        k := n - 1;
      }
    } else {
      k := n - 1;
    }
  }

  lemma WidestIsUncovered(ps: seq<Prefix>, v6: bool, x: nat, k: nat)
    requires Uniform(ps, v6) && k < |ps| && Contains(ps[k], x)
    requires forall i :: 0 <= i < |ps| && Contains(ps[i], x) ==> ps[k].bits <= ps[i].bits
    requires forall i :: 0 <= i < k && Contains(ps[i], x) ==> ps[k].bits < ps[i].bits
    ensures !IsCovered(ps, k)
  {
    forall j | 0 <= j < |ps| ensures !Drops(ps, k, j) {
      if Drops(ps, k, j) && ps[j].bits < ps[k].bits {
        assert ps[k] in ps && ps[j] in ps;
        Nested(ps[k], ps[j], x, ps[k].addr);
      }
    }
  }

  /** The kept prefixes are disjoint and cover exactly the addresses of all of them. */
  lemma KeptIsExact(ps: seq<Prefix>, v6: bool)
    requires Uniform(ps, v6)
    ensures Disjoint(KeptFrom(ps, 0))
    ensures forall x: nat :: Covers(KeptFrom(ps, 0), x) <==> Covers(ps, x)
  {
    var kept := KeptFrom(ps, 0);
    var origins := KeptOrigins(ps, 0);
    hide Contains, IsCovered, KeptFrom, Uniform;
    forall i, j, x: nat | 0 <= i < j < |kept| && Contains(kept[i], x) ensures !Contains(kept[j], x) {
      if Contains(kept[j], x) {
        OverlapDrops(ps, v6, origins[i], origins[j], x);
      }
    }
    forall x: nat ensures Covers(kept, x) <==> Covers(ps, x) {
      if Covers(kept, x) {
        var p :| p in kept && Contains(p, x);
        var k :| 0 <= k < |kept| && kept[k] == p;
        assert ps[origins[k]] == p;
      }
      if Covers(ps, x) {
        CoveredStays(ps, v6, x);
      }
    }
  }

  lemma CoveredStays(ps: seq<Prefix>, v6: bool, x: nat)
    requires Uniform(ps, v6) && Covers(ps, x)
    ensures Covers(KeptFrom(ps, 0), x)
  {
    hide Contains, IsCovered, KeptFrom, Uniform;
    var p :| p in ps && Contains(p, x);
    var i :| 0 <= i < |ps| && ps[i] == p;
    assert Contains(ps[i], x);
    var k := WidestAround(ps, v6, x, |ps|);
    WidestIsUncovered(ps, v6, x, k);
    UncoveredIsKept(ps, 0, k);
  }

  // ----- Any order will do -----

  lemma {:induction false} CountedTwice<T>(s: seq<T>, i: nat, j: nat)
    requires i < j < |s| && s[i] == s[j]
    ensures multiset(s)[s[i]] >= 2
  {
    assert s == s[..j] + s[j..];
    assert s[..j][i] == s[i] && s[i] in s[..j] && s[j..][0] == s[i] && s[i] in s[j..];
    assert multiset(s) == multiset(s[..j]) + multiset(s[j..]);
  }

  lemma {:induction false} FoundTwice<T>(s: seq<T>, x: T) returns (i: nat, j: nat)
    requires multiset(s)[x] >= 2
    ensures i < j < |s| && s[i] == x && s[j] == x
  {
    var rest, last := s[..|s| - 1], s[|s| - 1];
    assert s == rest + [last];
    if last == x {
      assert multiset(rest)[x] >= 1 && x in rest;
      i :| 0 <= i < |rest| && rest[i] == x;
      j := |s| - 1;
    } else {
      i, j := FoundTwice(rest, x);
    }
  }

  lemma FoundOnce<T>(a: seq<T>, b: seq<T>, i: nat) returns (k: nat)
    requires i < |b| && multiset(a) == multiset(b)
    ensures k < |a| && a[k] == b[i]
  {
    assert b[i] in multiset(b) && b[i] in multiset(a) && b[i] in a;
    k :| 0 <= k < |a| && a[k] == b[i];
  }

  lemma DisjointInAnyOrder(a: seq<Prefix>, b: seq<Prefix>)
    requires Disjoint(a) && multiset(a) == multiset(b)
    ensures Disjoint(b) && forall x: nat :: Covers(b, x) <==> Covers(a, x)
  {
    hide Contains;
    forall i, j, x: nat | 0 <= i < j < |b| && Contains(b[i], x) ensures !Contains(b[j], x) {
      if b[i] == b[j] {
        CountedTwice(b, i, j);
        var k, l := FoundTwice(a, b[i]);
      } else {
        var k := FoundOnce(a, b, i);
        var l := FoundOnce(a, b, j);
      }
    }
    assert forall p :: p in a <==> p in multiset(a);
    assert forall p :: p in b <==> p in multiset(b);
  }

  // ----- Formatting a list -----

  function TrimSigns(s: string): string {
    if s != "" && (s[|s| - 1] == '+' || s[|s| - 1] == '-') then TrimSigns(s[..|s| - 1]) else s
  }

  function BeforeBrace(s: string): string {
    match SplitOnce(s, '{') case Some((a, _)) => Trim(a) case None => s
  }

  /** A text without a length means one address. */
  function WithLength(t: string): string {
    if '/' in t then t else if ':' in t then t + "/128" else t + "/32"
  }

  /** The text handed to the parser: without constraints, with a length. */
  function Cidr(raw: string): string {
    WithLength(TrimSigns(BeforeBrace(Trim(raw))))
  }

  predicate IsSign(c: char) {
    c == '+' || c == '-'
  }

  /** The trimmed entry is t, then only signs and white space, then nothing or a brace; neither does
      t end in a sign. Its text is t, with the length of a single address if t has none. */
  ghost predicate IsCidrOf(raw: string, r: string) {
    exists t: string, w: string, rest: string :: IsCut(Trim(raw), t, w, rest) && IsSized(t, r)
  }

  /** r is t, with the length of a single address of its family if it has none. */
  predicate IsSized(t: string, r: string) {
    if '/' in t then r == t else if ':' in t then r == t + "/128" else r == t + "/32"
  }

  predicate IsCut(s: string, t: string, w: string, rest: string) {
    && s == t + w + rest && (rest == "" || rest[0] == '{') && '{' !in t && '{' !in w
    && (forall c :: c in w ==> IsSign(c) || IsSpace(c))
    && (t == "" || !IsSign(t[|t| - 1]))
  }

  lemma {:induction false} TrimSignsIs(s: string) returns (w: string)
    ensures s == TrimSigns(s) + w && forall c :: c in w ==> IsSign(c)
    ensures TrimSigns(s) == "" || !IsSign(TrimSigns(s)[|TrimSigns(s)| - 1])
  {
    if s != "" && IsSign(s[|s| - 1]) {
      var more := TrimSignsIs(s[..|s| - 1]);
      w := more + [s[|s| - 1]];
    } else {
      w := "";
    }
  }

  lemma {:induction false} TrimEndIs(s: string) returns (w: string)
    ensures s == TrimEnd(s) + w && forall c :: c in w ==> IsSpace(c)
  {
    if s != "" && IsSpace(s[|s| - 1]) {
      var more := TrimEndIs(s[..|s| - 1]);
      w := more + [s[|s| - 1]];
    } else {
      w := "";
    }
  }

  lemma {:induction false} SplitOnceIs(s: string, sep: char)
    ensures match SplitOnce(s, sep)
            case None => sep !in s
            case Some((a, b)) => s == a + ([sep] + b) && sep !in a
  {
    if s != "" && s[0] != sep {
      SplitOnceIs(s[1..], sep);
      assert s == [s[0]] + s[1..];
      if SplitOnce(s[1..], sep).Some? {
        var (a, b) := SplitOnce(s[1..], sep).value;
        Regroup([s[0]], a, [sep] + b);
      }
    } else if s != "" {
      assert s == "" + ([sep] + s[1..]);
    }
  }

  lemma Regroup(a: string, b: string, c: string)
    ensures a + (b + c) == a + b + c
  {
  }

  lemma CutSpaces(a: string, rest: string)
    requires Trim(a + rest) == a + rest
    ensures Trim(a) == TrimEnd(a)
  {
    var s := a + rest;
    TrimStartShape(s);
    TrimTwice(s);
    if a != "" && IsSpace(a[0]) {
      TrimShorter(s);
    }
  }

  /** A text that starts with white space is not trimmed. */
  lemma TrimShorter(s: string)
    requires s != "" && IsSpace(s[0])
    ensures |Trim(s)| < |s|
  {
    TrimStartLength(s[1..]);
    var w := TrimEndIs(TrimStart(s));
  }

  lemma {:induction false} TrimStartLength(s: string)
    ensures |TrimStart(s)| <= |s|
  {
    if s != "" && IsSpace(s[0]) {
      TrimStartLength(s[1..]);
    }
  }

  lemma BraceIsCut(s: string) returns (spaces: string, rest: string)
    requires Trim(s) == s
    ensures s == BeforeBrace(s) + spaces + rest && (rest == "" || rest[0] == '{')
    ensures '{' !in BeforeBrace(s) && forall c :: c in spaces ==> IsSpace(c)
  {
    SplitOnceIs(s, '{');
    match SplitOnce(s, '{') {
      case None =>
        spaces, rest := "", "";
        assert s == s + spaces + rest;
      case Some((a, b)) =>
        rest := ['{'] + b;
        CutSpaces(a, rest);
        spaces := TrimEndIs(a);
        hide Trim, TrimEnd, SplitOnce, IsSpace;
        assert forall c :: c in TrimEnd(a) ==> c in a;
    }
  }

  lemma SignsAreCut(s: string, cut: string, spaces: string, rest: string) returns (w: string)
    requires s == cut + spaces + rest && (rest == "" || rest[0] == '{')
    requires '{' !in cut && forall c :: c in spaces ==> IsSpace(c)
    ensures IsCut(s, TrimSigns(cut), w, rest)
  {
    var signs := TrimSignsIs(cut);
    hide TrimSigns;
    var t := TrimSigns(cut);
    w := signs + spaces;
    assert cut + spaces == t + w;
    assert !IsSpace('{') && forall c :: c in t ==> c in cut;
    hide IsSpace;
  }

  /** The text of an entry: always with a length, and without the constraints around it. */
  lemma CidrIs(raw: string)
    ensures IsCidrOf(raw, Cidr(raw)) && '/' in Cidr(raw)
  {
    SizedIs(TrimSigns(BeforeBrace(Trim(raw))));
    hide Trim, BeforeBrace, TrimSigns, IsCut, WithLength, IsSized;
    var s := Trim(raw);
    TrimTwice(raw);
    var spaces, rest := BraceIsCut(s);
    var w := SignsAreCut(s, BeforeBrace(s), spaces, rest);
    WithLengthHasOne(TrimSigns(BeforeBrace(s)));
  }

  lemma SizedIs(t: string)
    ensures IsSized(t, WithLength(t))
  {
  }

  lemma {:induction false} TrimSignsOf(t: string, signs: string)
    requires (t == "" || !IsSign(t[|t| - 1])) && forall c :: c in signs ==> IsSign(c)
    ensures TrimSigns(t + signs) == t
  {
    if signs == "" {
      assert t + signs == t;
    } else {
      assert (t + signs)[..|t + signs| - 1] == t + signs[..|signs| - 1];
      assert signs[|signs| - 1] in signs && (t + signs)[|t + signs| - 1] == signs[|signs| - 1];
      TrimSignsOf(t, signs[..|signs| - 1]);
    }
  }

  lemma TrimOfClean(s: string)
    requires s != "" && !IsSpace(s[0]) && !IsSpace(s[|s| - 1])
    ensures Trim(s) == s
  {
  }

  /** A prefix or an address, possibly with range signs and a group behind it, is passed on without them,
      and a single address with the length of its family. */
  lemma EntryTextIs(raw: string, t: string, signs: string, rest: string)
    requires Trim(raw) == t + signs + rest && (rest == "" || rest[0] == '{')
    requires t != "" && '{' !in t && !IsSpace(t[0]) && !IsSpace(t[|t| - 1]) && !IsSign(t[|t| - 1])
    requires forall c :: c in signs ==> IsSign(c)
    ensures IsSized(t, Cidr(raw))
  {
    var s, cut := t + signs + rest, t + signs;
    assert '{' !in cut;
    assert BeforeBrace(s) == cut by {
      SplitOnceIs(s, '{');
      if rest != "" {
        SplitOnceBefore(cut, rest, '{');
        assert cut[0] == t[0] && (signs == "" ==> cut == t);
        assert signs != "" ==> cut[|cut| - 1] == signs[|signs| - 1] && signs[|signs| - 1] in signs;
        TrimOfClean(cut);
      } else {
        assert s == cut;
      }
    }
    TrimSignsOf(t, signs);
    SizedIs(t);
    hide Trim, BeforeBrace, TrimSigns, WithLength;
  }

  /** An address without a length, read as its parser reads the text with it, asks for itself alone. */
  lemma AddressIsWantedAlone(raw: string, t: string, addr: nat, parse: string -> Option<Prefix>, x: nat)
    requires Trim(raw) == t && t != "" && '/' !in t && '{' !in t && !IsSign(t[|t| - 1])
    requires if ':' in t then parse(t + "/128") == Some(RawPrefix(true, addr, 128))
             else parse(t + "/32") == Some(RawPrefix(false, addr, 32))
    ensures Wanted([raw], ':' in t, parse, x) <==> x == addr
    ensures !Wanted([raw], ':' !in t, parse, x)
  {
    TrimTwice(raw);
    TrimIsClean(raw);
    assert t + "" + "" == t;
    EntryTextIs(raw, t, "", "");
    hide Trim, Cidr;
    var p := parse(Cidr(raw)).value;
    assert Size(p) == 1;
    assert x / 1 == x && addr / 1 == addr;
    assert raw in [raw];
  }

  lemma TrimIsClean(raw: string)
    ensures var t := Trim(raw); t != "" ==> !IsSpace(t[0]) && !IsSpace(t[|t| - 1])
  {
    var u := TrimStart(raw);
    TrimStartShape(raw);
    TrimEndTwice(u);
    TrimEndShape(u);
  }

  lemma {:induction false} TrimEndShape(s: string)
    ensures TrimEnd(s) == "" || !IsSpace(TrimEnd(s)[|TrimEnd(s)| - 1])
  {
    if s != "" && IsSpace(s[|s| - 1]) {
      TrimEndShape(s[..|s| - 1]);
    }
  }

  /** A prefix of so many bits holds the addresses that share them with it. */
  lemma BlockIs(p: Prefix, x: nat)
    ensures Contains(p, x) <==>
            x / Pow2((if p.v6 then 128 else 32) - p.bits) == p.addr / Pow2((if p.v6 then 128 else 32) - p.bits)
  {
  }

  /** Of 24 bits in IPv4, 256 addresses; of 120 bits in IPv6, as many. */
  lemma BlocksOf256(v6: bool, addr: nat, x: nat)
    ensures Contains(RawPrefix(v6, addr, if v6 then 120 else 24), x) <==> x / 256 == addr / 256
  {
    assert Pow2(2) == 4 && Pow2(4) == 16 && Pow2(6) == 64 && Pow2(8) == 256;
  }

  lemma WithLengthHasOne(t: string)
    ensures '/' in WithLength(t)
  {
    assert (t + "/128")[|t|] == '/' && (t + "/32")[|t|] == '/';
  }

  /** The masked prefix of an entry, when it parses and is of the wanted family. */
  function EntryPrefix(raw: string, v6: bool, parse: string -> Option<Prefix>): seq<Prefix> {
    if Trim(raw) == "" then []
    else match parse(Cidr(raw))
      case None => []
      case Some(p) => if p.v6 == v6 then [Masked(p)] else []
  }

  function EntryPrefixes(items: seq<string>, v6: bool, parse: string -> Option<Prefix>): seq<Prefix> {
    if items == [] then []
    else EntryPrefixes(items[..|items| - 1], v6, parse) + EntryPrefix(items[|items| - 1], v6, parse)
  }

  /** x is an address of some entry that parses. */
  ghost predicate Wanted(items: seq<string>, v6: bool, parse: string -> Option<Prefix>, x: nat) {
    exists raw :: raw in items && Trim(raw) != "" && parse(Cidr(raw)).Some?
                  && parse(Cidr(raw)).value.v6 == v6 && Contains(parse(Cidr(raw)).value, x)
  }

  lemma {:induction false} EntriesAreUniform(items: seq<string>, v6: bool, parse: string -> Option<Prefix>)
    ensures Uniform(EntryPrefixes(items, v6, parse), v6)
  {
    hide IsMasked, Masked, Cidr;
    if items != [] {
      var last := items[|items| - 1];
      EntriesAreUniform(items[..|items| - 1], v6, parse);
      if Trim(last) != "" && parse(Cidr(last)).Some? {
        MaskedKeepsBlock(parse(Cidr(last)).value);
        assert Masked(parse(Cidr(last)).value).v6 == parse(Cidr(last)).value.v6 by {
          MaskedFamily(parse(Cidr(last)).value);
        }
      }
    }
  }

  lemma MaskedFamily(p: Prefix)
    ensures Masked(p).v6 == p.v6
  {
  }

  lemma EntryIsWanted(raw: string, v6: bool, parse: string -> Option<Prefix>, x: nat)
    ensures Covers(EntryPrefix(raw, v6, parse), x) <==> Wanted([raw], v6, parse, x)
  {
    hide Masked, Contains, Cidr;
    var ps := EntryPrefix(raw, v6, parse);
    assert raw in [raw];
    if Trim(raw) != "" && parse(Cidr(raw)).Some? {
      MaskedKeepsBlock(parse(Cidr(raw)).value);
    }
    if ps != [] {
      assert Covers(ps, x) <==> Contains(ps[0], x);
    }
  }

  lemma {:induction false} EntriesAreWanted(items: seq<string>, v6: bool, parse: string -> Option<Prefix>, x: nat)
    ensures Covers(EntryPrefixes(items, v6, parse), x) <==> Wanted(items, v6, parse, x)
  {
    if items != [] {
      var rest, last := items[..|items| - 1], items[|items| - 1];
      EntriesAreWanted(rest, v6, parse, x);
      EntryIsWanted(last, v6, parse, x);
      hide EntryPrefix, Contains, Cidr;
      assert items == rest + [last];
      assert Covers(EntryPrefixes(items, v6, parse), x)
        <==> Covers(EntryPrefixes(rest, v6, parse), x) || Covers(EntryPrefix(last, v6, parse), x);
      assert Wanted(items, v6, parse, x) <==> Wanted(rest, v6, parse, x) || Wanted([last], v6, parse, x);
    }
  }

  method ParseText(raw: string) returns (pStr: string)
    ensures pStr == Cidr(raw) && IsCidrOf(raw, pStr) && '/' in pStr
  {
    CidrIs(raw);
    hide IsCidrOf, Trim, TrimSigns;
    pStr := Trim(raw);
    match SplitOnce(pStr, '{') {
      case Some((a, _)) => pStr := Trim(a);
      case None =>
    }
    pStr := TrimSigns(pStr);
    if '/' !in pStr {
      if ':' in pStr {
        pStr := pStr + "/128";
      } else {
        pStr := pStr + "/32";
      }
    }
  }

  method ParseEntry(raw: string, v6: bool, parse: string -> Option<Prefix>) returns (parsed: seq<Prefix>)
    ensures parsed == EntryPrefix(raw, v6, parse) && |parsed| <= 1 && Uniform(parsed, v6)
    ensures forall x: nat :: Covers(parsed, x) <==> Wanted([raw], v6, parse, x)
  {
    EntriesAreUniform([raw], v6, parse);
    assert EntryPrefixes([raw], v6, parse) == [] + EntryPrefix(raw, v6, parse) == EntryPrefix(raw, v6, parse);
    forall x: nat ensures Covers(EntryPrefix(raw, v6, parse), x) <==> Wanted([raw], v6, parse, x) {
      EntryIsWanted(raw, v6, parse, x);
    }
    hide Masked, Cidr, Trim, Uniform, Covers, Wanted, EntryPrefixes;
    if Trim(raw) == "" {
      return [];
    }
    var pStr := ParseText(raw);
    match parse(pStr) {
      case None => parsed := [];
      case Some(p) => parsed := if p.v6 == v6 then [Masked(p)] else [];
    }
  }

  method ParseEntries(items: seq<string>, v6: bool, parse: string -> Option<Prefix>) returns (parsed: seq<Prefix>)
    ensures parsed == EntryPrefixes(items, v6, parse)
  {
    hide EntryPrefix;
    parsed := [];
    var i := 0;
    while i < |items|
      invariant 0 <= i <= |items| && parsed == EntryPrefixes(items[..i], v6, parse)
    {
      assert items[..i + 1][..i] == items[..i];
      var entry := ParseEntry(items[i], v6, parse);
      parsed := parsed + entry;
      i := i + 1;
    }
    assert items[..i] == items;
  }

  function Listed(items: seq<string>): string {
    if items == [] then "" else if |items| == 1 then items[0] else items[0] + ", " + Listed(items[1..])
  }

  lemma CommaSplits(a: string, b: string)
    requires ',' !in a
    ensures Split(a + "," + b, ',') == [a] + Split(b, ',')
  {
    CleanPrefixes.SplitPrefix(a, "," + b);
    CleanPrefixes.SplitNone(b);
    assert a + ("," + b) == a + "," + b && a + "" == a;
  }

  /** The pieces are the elements, with a blank before all but the first. */
  predicate Spaced(pieces: seq<string>, items: seq<string>) {
    && |pieces| == |items| > 0 && pieces[0] == items[0]
    && forall k :: 1 <= k < |items| ==> pieces[k] == " " + items[k]
  }

  /** The elements stand in the text one after the other, with a comma and a blank between them. */
  lemma {:induction false} ListedIs(items: seq<string>)
    requires items != [] && forall t :: t in items ==> ',' !in t
    ensures Spaced(Split(Listed(items), ','), items)
  {
    var first, rest := items[0], items[1..];
    assert first in items;
    if rest != [] {
      forall t | t in rest ensures t in items { }
      ListedIs(rest);
      var tail := Listed(rest);
      assert Listed(items) == first + "," + (" " + tail) by {
        assert first + ", " + tail == first + "," + (" " + tail);
      }
      OneMorePiece(Split(tail, ','), items);
      hide Listed, Split, Spaced;
      CommaSplits(first, " " + tail);
      CleanPrefixes.SplitPrefix(" ", tail);
    }
  }

  lemma OneMorePiece(later: seq<string>, items: seq<string>)
    requires |items| > 1 && Spaced(later, items[1..])
    ensures Spaced([items[0]] + ([" " + later[0]] + later[1..]), items)
  {
    assert forall k :: 1 <= k < |items| ==> items[1..][k - 1] == items[k];
  }

  function Rendered(ps: seq<Prefix>, render: Prefix -> string): (r: seq<string>)
    ensures |r| == |ps| && forall i :: 0 <= i < |r| ==> r[i] == render(ps[i])
  {
    seq(|ps|, i requires 0 <= i < |ps| => render(ps[i]))
  }

  lemma RenderedOrder(render: Prefix -> string)
    ensures WeakOrder((p: Prefix, q: Prefix) => Before(render(p), render(q)))
  {
    BeforeIsWeakOrder();
    hide Before;
  }

  /** The elements of an nftables set: pairwise disjoint prefixes with exactly the addresses of
      the entries that parse, in the order of their text. */
  method FormatNftPrefixList(prefixes: seq<string>, defaultList: seq<string>, v6: bool,
                             parse: string -> Option<Prefix>, render: Prefix -> string)
    returns (text: string, elements: seq<Prefix>)
    ensures Disjoint(elements)
    ensures forall x: nat :: Covers(elements, x) <==> Wanted(CleanPrefixes.Cleaned(prefixes), v6, parse, x)
    ensures forall i, j :: 0 <= i < j < |elements| ==> !Before(render(elements[j]), render(elements[i]))
    ensures text == if elements != [] then "{ " + Listed(Rendered(elements, render)) + " }"
                    else if defaultList != [] then "{ " + Listed(defaultList) + " }"
                    else ""
  {
    hide Contains, Wanted, Before, EntryPrefix, Listed, CleanPrefixes.Cleaned;
    var cleaned := CleanPrefixes.Clean(prefixes);
    var parsed := ParseEntries(cleaned, v6, parse);
    EntriesAreUniform(cleaned, v6, parse);
    forall x: nat ensures Covers(parsed, x) <==> Wanted(cleaned, v6, parse, x) {
      EntriesAreWanted(cleaned, v6, parse, x);
    }
    var kept := DropCovered(parsed);
    KeptIsExact(parsed, v6);
    var less := (p: Prefix, q: Prefix) => Before(render(p), render(q));
    hide EntryPrefixes, KeptFrom, Uniform;
    elements := SortByText(kept, render);
    DisjointInAnyOrder(kept, elements);
    hide Disjoint, Covers;
    var result := Rendered(elements, render);
    if |result| == 0 {
      result := defaultList;
    }
    if |result| == 0 {
      return "", elements;
    }
    text := "{ " + Listed(result) + " }";
  }

  method SortByText(ps: seq<Prefix>, render: Prefix -> string) returns (sorted: seq<Prefix>)
    ensures multiset(ps) == multiset(sorted)
    ensures forall i, j :: 0 <= i < j < |sorted| ==> !Before(render(sorted[j]), render(sorted[i]))
  {
    hide Before;
    var less := (p: Prefix, q: Prefix) => Before(render(p), render(q));
    RenderedOrder(render);
    SortSorts(ps, less);
    SortPermutes(ps, less);
    sorted := Sort(ps, less);
  }

  // ----- Marking packets -----

  type Bits = b: seq<bool> | |b| == 32 witness seq(32, i => false)

  /** A 32-bit mark, bit by bit. */
  datatype Word = Word(bits: Bits)

  const ZERO := Word(seq(32, i => false))

  function And(a: Word, b: Word): Word {
    Word(seq(32, i requires 0 <= i < 32 => a.bits[i] && b.bits[i]))
  }

  function Or(a: Word, b: Word): Word {
    Word(seq(32, i requires 0 <= i < 32 => a.bits[i] || b.bits[i]))
  }

  function Not(a: Word): Word {
    Word(seq(32, i requires 0 <= i < 32 => !a.bits[i]))
  }

  /** The statement that sets a packet's mark. */
  datatype Action = Nothing | SetTo(text: string) | SetBits(bits: Word) | Merge(keep: Word, bits: Word)

  function Applied(a: Action, mark: Word): Word
    requires a.SetBits? || a.Merge?
  {
    match a
    case SetBits(bits) => Or(mark, bits)
    case Merge(keep, bits) => Or(And(mark, keep), bits)
  }

  function FormatNftMarkAction(raw: string, parse: string -> Option<Word>): Result<Action, string> {
    var s := Trim(raw);
    if s == "" then Ok(Nothing)
    else if '/' !in s then Ok(SetTo(s))
    else
      var parts := Split(s, '/');
      if |parts| != 2 then Err("expected mark or mark/bitmask")
      else if parse(parts[0]).None? then Err("invalid mark part")
      else if parse(parts[1]).None? then Err("invalid bitmask part")
      else
        var mark, mask := parse(parts[0]).value, parse(parts[1]).value;
        if mask == ZERO then Err("mask cannot be 0")
        else if mark == mask then Ok(SetBits(mark))
        else Ok(Merge(Not(mask), And(mark, mask)))
  }

  /** Without a slash, the mark is set to the text as it is; with anything else than one slash between two
      numbers, nothing is set. */
  lemma MarkTexts(raw: string, parse: string -> Option<Word>)
    ensures var s, r := Trim(raw), FormatNftMarkAction(raw, parse);
            && (s == "" ==> r == Ok(Nothing))
            && (s != "" && '/' !in s ==> r == Ok(SetTo(s)))
            && ('/' in s && |Split(s, '/')| != 2 ==> r.Err?)
            && ('/' in s && (exists part :: part in Split(s, '/') && parse(part).None?) ==> r.Err?)
  {
    hide Trim, Split;
  }

  /** The masked bits become the mark's, the others stay. */
  predicate Merges(a: Action, current: Word, mark: Word, mask: Word) {
    && (a.SetBits? || a.Merge?)
    && forall i :: 0 <= i < 32 ==>
         Applied(a, current).bits[i] == if mask.bits[i] then mark.bits[i] else current.bits[i]
  }

  /** A mark with a bitmask sets the masked bits to the mark's and keeps the others. */
  lemma MaskedMarkKeepsOthers(raw: string, a: string, b: string, parse: string -> Option<Word>, current: Word)
    requires Trim(raw) == a + "/" + b && '/' !in a && '/' !in b
    requires parse(a).Some? && parse(b).Some?
    ensures var r := FormatNftMarkAction(raw, parse);
            if parse(b).value == ZERO then r.Err?
            else r.Ok? && Merges(r.value, current, parse(a).value, parse(b).value)
  {
    hide Trim;
    SplitTwo(a, b, '/');
    assert a + ['/'] + b == a + "/" + b;
    assert (a + "/" + b)[|a|] == '/';
    hide Split;
  }
}
