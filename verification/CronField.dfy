/** `parseCronField`: one field of a five-field cron expression (crontab, INPUT FILES section
    of IEEE Std 1003.1-2017) as a set of numbers.
 */
module CronField {
  import opened Basics
  import opened Strings
  import opened Wrappers

  // ---------------------------------------------------------------- strings and numbers

  predicate IsDigit(c: char) {
    '0' <= c <= '9'
  }

  function DigitValue(c: char): (d: int)
    requires IsDigit(c)
    ensures 0 <= d < 10
  {
    c as int - '0' as int
  }

  function DigitPrefix(s: string): (p: string)
    ensures forall c <- p :: IsDigit(c)
  {
    if s != "" && IsDigit(s[0]) then [s[0]] + DigitPrefix(s[1..]) else ""
  }

  function Value(digits: string): nat
    requires forall c <- digits :: IsDigit(c)
  {
    if digits == "" then 0
    else Value(digits[..|digits| - 1]) * 10 + DigitValue(digits[|digits| - 1])
  }

  /** `Number.parseInt(s, 10)`: an optional sign and the longest run of digits; whatever
      follows is ignored.  None stands for NaN. */
  function ParseInt(s: string): Option<int> {
    var signed := s != "" && (s[0] == '-' || s[0] == '+');
    var digits := DigitPrefix(if signed then s[1..] else s);
    if digits == "" then None
    else
      var magnitude: int := Value(digits);
      Some(if signed && s[0] == '-' then -magnitude else magnitude)
  }

  function Decimal(n: nat): (s: string)
    ensures s != "" && forall c <- s :: IsDigit(c)
    decreases n
  {
    var last := ('0' as int + n % 10) as char;
    if n < 10 then [last] else Decimal(n / 10) + [last]
  }

  // ---------------------------------------------------------------- specification

  /** `first`, `first + step`, ... up to `last`. */
  datatype Progression = Progression(first: int, last: int, step: int)

  predicate InProgression(v: int, p: Progression)
    requires p.step >= 1
  {
    p.first <= v <= p.last && (v - p.first) % p.step == 0
  }

  function Members(p: Progression): set<int>
    requires p.step >= 1
  {
    set v | p.first <= v <= p.last && InProgression(v, p)
  }

  /** One comma-separated chunk. */
  function ParseChunk(chunk: string, lo: int, hi: int): (r: Option<Progression>)
    ensures r.Some? ==> r.value.step >= 1
  {
    var slash := Split(chunk, '/');
    var range := slash[0];
    var step := if |slash| > 1 then ParseInt(slash[1]) else Some(1);
    if step.None? || step.value < 1 then None
    else if range == "*" then Some(Progression(lo, hi, step.value))
    else if '-' in range then
      var dash := Split(range, '-');
      SplitsWhenPresent(range, '-');
      var a, b := ParseInt(dash[0]), ParseInt(dash[1]);
      if a.None? || b.None? then None else Some(Progression(a.value, b.value, step.value))
    else
      var v := ParseInt(range);
      if v.None? then None else Some(Progression(v.value, v.value, step.value))
  }

  function ChunksSet(chunks: seq<string>, lo: int, hi: int): Option<set<int>> {
    if chunks == [] then Some({})
    else
      var p := ParseChunk(chunks[|chunks| - 1], lo, hi);
      var rest := ChunksSet(chunks[..|chunks| - 1], lo, hi);
      if p.None? || rest.None? then None else Some(rest.value + Members(p.value))
  }

  function FieldSet(field: string, lo: int, hi: int): Option<set<int>> {
    ChunksSet(Split(field, ','), lo, hi)
  }

  /** `v` belongs to the progression of some chunk. */
  ghost predicate Denotes(chunks: seq<string>, lo: int, hi: int, v: int) {
    exists c <- chunks :: ParseChunk(c, lo, hi).Some? && InProgression(v, ParseChunk(c, lo, hi).value)
  }

  ghost predicate WellFormed(chunks: seq<string>, lo: int, hi: int) {
    forall c <- chunks :: ParseChunk(c, lo, hi).Some?
  }

  /** A field is rejected exactly when one of its chunks is malformed, and otherwise denotes
      the union of the progressions of its chunks. */
  lemma {:induction false} ChunksDenote(chunks: seq<string>, lo: int, hi: int)
    ensures ChunksSet(chunks, lo, hi).Some? <==> WellFormed(chunks, lo, hi)
    ensures WellFormed(chunks, lo, hi) ==>
      forall v :: v in ChunksSet(chunks, lo, hi).value <==> Denotes(chunks, lo, hi, v)
  {
    if chunks != [] {
      var front, last := chunks[..|chunks| - 1], chunks[|chunks| - 1];
      ChunksDenote(front, lo, hi);
      assert forall c :: c in chunks <==> c in front || c == last;
    }
  }

  // ---------------------------------------------------------------- the parser

  /** `addRange`. */
  method AddRange(out0: set<int>, p: Progression) returns (out: set<int>)
    requires p.step >= 1
    ensures out == out0 + Members(p)
  {
    out := out0;
    var v := p.first;
    while v <= p.last
      invariant p.first <= v && (v - p.first) % p.step == 0
      invariant out == out0 + MembersBelow(p, v)
      decreases p.last - v
    {
      NextMember(p, v);
      out := out + {v};
      v := v + p.step;
    }
    assert MembersBelow(p, v) == Members(p);
  }

  function MembersBelow(p: Progression, bound: int): set<int>
    requires p.step >= 1
  {
    set v | v in Members(p) && v < bound
  }

  /** Between one member and the next there is no other. */
  lemma NextMember(p: Progression, v: int)
    requires p.step >= 1 && InProgression(v, p)
    ensures (v + p.step - p.first) % p.step == 0
    ensures MembersBelow(p, v + p.step) == MembersBelow(p, v) + {v}
  {
    RemainderOf(v - p.first, p.step, p.step);
    forall u | u in MembersBelow(p, v + p.step) && u !in MembersBelow(p, v) ensures u == v {
      RemainderOf(v - p.first, u - v, p.step);
    }
  }

  lemma RemainderOf(x: int, r: int, step: int)
    requires step >= 1 && x % step == 0 && 0 <= r <= step
    ensures (x + r) % step == if r == step then 0 else r
  {
    var q := x / step;
    if r == step {
      assert x + r == (q + 1) * step;
      UniqueRemainder(x + r, step, q + 1, 0);
    } else {
      UniqueRemainder(x + r, step, q, r);
    }
  }

  /** `parseCronField`. */
  method ParseCronField(field: string, lo: int, hi: int) returns (r: Option<set<int>>)
    ensures r == FieldSet(field, lo, hi)
    ensures r.Some? <==> WellFormed(Split(field, ','), lo, hi)
    ensures r.Some? ==> forall v :: v in r.value <==> Denotes(Split(field, ','), lo, hi, v)
  {
    var chunks := Split(field, ',');
    ChunksDenote(chunks, lo, hi);
    var out: set<int> := {};
    var i := 0;
    while i < |chunks|
      invariant 0 <= i <= |chunks|
      invariant ChunksSet(chunks[..i], lo, hi) == Some(out)
    {
      var p := ParseChunk(chunks[i], lo, hi);
      if p.None? {
        assert chunks[i] in chunks;
        return None;
      }
      out := AddRange(out, p.value);
      assert chunks[..i + 1][..i] == chunks[..i];
      i := i + 1;
    }
    assert chunks[..i] == chunks;
    return Some(out);
  }

  // ---------------------------------------------------------------- numbers and chunks as text

  function Pow10(n: nat): nat {
    if n == 0 then 1 else 10 * Pow10(n - 1)
  }

  /** Digits are read in base ten. */
  lemma {:induction false} ValueIs(a: string, b: string)
    requires forall c <- a :: IsDigit(c)
    requires forall c <- b :: IsDigit(c)
    ensures |b| == 1 ==> Value(b) == b[0] as int - 48
    ensures (forall c <- a + b :: IsDigit(c)) && Value(a + b) == Value(a) * Pow10(|b|) + Value(b)
  {
    if b == [] {
      assert a + b == a;
    } else {
      var front, last := b[..|b| - 1], b[|b| - 1];
      assert forall c <- front :: c in b;
      ValueIs(a, front);
      assert (a + b)[..|a + b| - 1] == a + front && (a + b)[|a + b| - 1] == last;
      assert Value(a) * Pow10(|b|) == Value(a) * Pow10(|front|) * 10;
    }
  }

  lemma {:induction false} DigitPrefixIs(digits: string, rest: string)
    requires forall c <- digits :: IsDigit(c)
    requires rest == "" || !IsDigit(rest[0])
    ensures DigitPrefix(digits + rest) == digits
  {
    if digits == "" {
      assert digits + rest == rest;
    } else {
      assert digits[0] in digits && forall c <- digits[1..] :: c in digits;
      DigitPrefixIs(digits[1..], rest);
      assert (digits + rest)[1..] == digits[1..] + rest && digits == [digits[0]] + digits[1..];
    }
  }

  /** A number is an optional sign and digits, and whatever follows them does not matter. */
  lemma ParseIntIs(sign: string, digits: string, rest: string)
    requires sign in {"", "+", "-"}
    requires digits != "" && forall c <- digits :: IsDigit(c)
    requires rest == "" || !IsDigit(rest[0])
    ensures var r := ParseInt(sign + digits + rest);
      r.Some? && r.value == if sign == "-" then 0 - Value(digits) else Value(digits)
  {
    hide Value, DigitPrefix;
    DigitPrefixIs(digits, rest);
    assert digits[0] in digits;
    var s := sign + digits + rest;
    if sign == "" {
      assert s == digits + rest && s[0] == digits[0];
    } else {
      assert s[0] == sign[0] && s[1..] == digits + rest;
    }
  }

  /** Without a digit in front, or after the sign, there is no number. */
  lemma ParseIntNone(s: string)
    ensures ParseInt(s).None?
      <==> var digits := if s != "" && s[0] in {'-', '+'} then s[1..] else s;
           digits == "" || !('0' <= digits[0] <= '9')
  {
  }

  /** A chunk that is a star or a number. */
  lemma PlainChunk(a: string, lo: int, hi: int)
    requires '/' !in a && '-' !in a
    ensures ParseChunk("*", lo, hi) == Some(Progression(lo, hi, 1))
    ensures a != "*" ==>
      ParseChunk(a, lo, hi) == match ParseInt(a) case None => None case Some(v) => Some(Progression(v, v, 1))
  {
    hide ParseInt;
    SplitNone("*", '/');
    SplitNone(a, '/');
  }

  /** Two numbers with a hyphen between them; what follows a second hyphen does not matter. */
  lemma RangeChunk(a: string, b: string, rest: string, lo: int, hi: int)
    requires '/' !in a && '-' !in a && '/' !in b && '-' !in b && '/' !in rest && (rest == "" || rest[0] == '-')
    ensures ParseChunk(a + "-" + b + rest, lo, hi)
      == if ParseInt(a).None? || ParseInt(b).None? then None
         else Some(Progression(ParseInt(a).value, ParseInt(b).value, 1))
  {
    hide ParseInt, Split;
    var range := a + "-" + b + rest;
    assert '/' !in range && range[|a|] == '-' && range != "*";
    SplitNone(range, '/');
    SplitHyphen(a, b, rest);
  }

  lemma SplitHyphen(a: string, b: string, rest: string)
    requires '-' !in a && '-' !in b && (rest == "" || rest[0] == '-')
    ensures var parts := Split(a + "-" + b + rest, '-');
      |parts| > 1 && parts[0] == a && parts[1] == b
  {
    hide Split;
    assert a + "-" + b + rest == a + ['-'] + (b + rest);
    SplitFirst(a, '-', b + rest);
    if rest == "" {
      assert b + rest == b;
      SplitNone(b, '-');
    } else {
      assert b + rest == b + ['-'] + rest[1..];
      SplitFirst(b, '-', rest[1..]);
    }
  }

  /** A step thins out the numbers of the chunk it is attached to; it must be at least 1, and what
      follows a second slash does not matter. */
  lemma SteppedChunk(range: string, step: string, rest: string, lo: int, hi: int)
    requires '/' !in range && '/' !in step && (rest == "" || rest[0] == '/')
    ensures ParseChunk(range + "/" + step + rest, lo, hi)
      == if ParseInt(step).None? || ParseInt(step).value < 1 || ParseChunk(range, lo, hi).None? then None
         else Some(ParseChunk(range, lo, hi).value.(step := ParseInt(step).value))
  {
    hide ParseInt;
    SplitNone(range, '/');
    assert range + "/" + step + rest == range + ['/'] + (step + rest);
    SplitFirst(range, '/', step + rest);
    if rest == "" {
      assert step + rest == step;
      SplitNone(step, '/');
    } else {
      assert step + rest == step + ['/'] + rest[1..];
      SplitFirst(step, '/', rest[1..]);
    }
  }

  /** A progression in plain arithmetic. */
  lemma ProgressionIs(p: Progression, v: int)
    requires p.step >= 1
    ensures v in Members(p) <==> v <= p.last && exists k: nat :: v == p.first + StepsOf(k, p.step)
  {
    if v in Members(p) {
      var k: nat := (v - p.first) / p.step;
      assert v == p.first + StepsOf(k, p.step);
    }
    if v <= p.last {
      if k: nat :| v == p.first + StepsOf(k, p.step) {
        assert StepsOf(k, p.step) >= 0;
        UniqueRemainder(v - p.first, p.step, k, 0);
      }
    }
  }

  function StepsOf(k: nat, step: int): int {
    k * step
  }

  // ---------------------------------------------------------------- printing and parsing

  /** What a well-formed chunk can say. */
  datatype Term = Single(n: nat) | Range(from: nat, to: nat, step: nat) | Every(step: nat) | All

  predicate ValidTerm(t: Term) {
    t.Range? || t.Every? ==> t.step >= 1
  }

  function PrintTerm(t: Term): string {
    match t
    case Single(n) => Decimal(n)
    case Range(from, to, step) => Decimal(from) + "-" + Decimal(to) + "/" + Decimal(step)
    case Every(step) => "*/" + Decimal(step)
    case All => "*"
  }

  function Meaning(t: Term, lo: int, hi: int): (p: Progression)
    requires ValidTerm(t)
    ensures p.step >= 1
  {
    match t
    case Single(n) => Progression(n, n, 1)
    case Range(from, to, step) => Progression(from, to, step)
    case Every(step) => Progression(lo, hi, step)
    case All => Progression(lo, hi, 1)
  }

  function PrintField(ts: seq<Term>): string
    requires ts != []
  {
    Join(seq(|ts|, i requires 0 <= i < |ts| => PrintTerm(ts[i])), ',')
  }

  function Singles(ns: seq<nat>): seq<Term> {
    seq(|ns|, i requires 0 <= i < |ns| => Single(ns[i]))
  }

  ghost predicate TermsMean(ts: seq<Term>, lo: int, hi: int, v: int) {
    exists t <- ts :: ValidTerm(t) && InProgression(v, Meaning(t, lo, hi))
  }

  lemma {:induction false} DecimalValue(n: nat)
    ensures Value(Decimal(n)) == n
    decreases n
  {
    if n >= 10 {
      DecimalValue(n / 10);
      assert Decimal(n)[..|Decimal(n)| - 1] == Decimal(n / 10);
    }
  }

  lemma {:induction false} DigitsOnly(s: string)
    requires forall c <- s :: IsDigit(c)
    ensures DigitPrefix(s) == s
  {
    if s != "" {
      assert s[0] in s && forall c <- s[1..] :: c in s;
      DigitsOnly(s[1..]);
    }
  }

  lemma ParseDecimal(n: nat)
    ensures ParseInt(Decimal(n)) == Some(n)
  {
    var s := Decimal(n);
    assert s[0] in s;
    DigitsOnly(s);
    DecimalValue(n);
  }

  lemma ParsePrintedRange(from: nat, to: nat, step: nat, lo: int, hi: int)
    requires step >= 1
    ensures ParseChunk(PrintTerm(Range(from, to, step)), lo, hi) == Some(Progression(from, to, step))
  {
    var a, b, c := Decimal(from), Decimal(to), Decimal(step);
    var range := a + "-" + b;
    assert '/' !in range && '/' !in c && '-' !in a && '-' !in b;
    SplitFirst(range, '/', c);
    SplitNone(c, '/');
    assert PrintTerm(Range(from, to, step)) == range + "/" + c;
    assert range[|a|] == '-';
    assert range[0] == a[0] && a[0] in a;
    SplitFirst(a, '-', b);
    SplitNone(b, '-');
    ParseDecimal(from);
    ParseDecimal(to);
    ParseDecimal(step);
  }

  lemma ParsePrintedTerm(t: Term, lo: int, hi: int)
    requires ValidTerm(t)
    ensures ParseChunk(PrintTerm(t), lo, hi) == Some(Meaning(t, lo, hi))
    ensures ',' !in PrintTerm(t)
  {
    match t
    case Single(n) =>
      var s := Decimal(n);
      SplitNone(s, '/');
      assert s[0] in s;
      ParseDecimal(n);
    case Range(from, to, step) =>
      ParsePrintedRange(from, to, step, lo, hi);
    case Every(step) =>
      var c := Decimal(step);
      assert PrintTerm(t) == "*" + "/" + c;
      SplitFirst("*", '/', c);
      SplitNone(c, '/');
      ParseDecimal(step);
    case All =>
      SplitNone("*", '/');
  }

  /** Printing any list of well-formed terms and parsing it back gives exactly the numbers
      the terms stand for. */
  lemma ParsePrintedField(ts: seq<Term>, lo: int, hi: int)
    requires ts != [] && forall t <- ts :: ValidTerm(t)
    ensures FieldSet(PrintField(ts), lo, hi).Some?
    ensures forall v :: v in FieldSet(PrintField(ts), lo, hi).value <==> TermsMean(ts, lo, hi, v)
  {
    var parts := seq(|ts|, i requires 0 <= i < |ts| => PrintTerm(ts[i]));
    forall i | 0 <= i < |ts|
      ensures ',' !in parts[i] && ParseChunk(parts[i], lo, hi) == Some(Meaning(ts[i], lo, hi))
    {
      assert ts[i] in ts;
      ParsePrintedTerm(ts[i], lo, hi);
    }
    SplitJoin(parts, ',');
    ChunksDenote(parts, lo, hi);
    forall v ensures Denotes(parts, lo, hi, v) <==> TermsMean(ts, lo, hi, v) {
      if TermsMean(ts, lo, hi, v) {
        var t :| t in ts && InProgression(v, Meaning(t, lo, hi));
        var i :| 0 <= i < |ts| && ts[i] == t;
        assert parts[i] in parts;
      }
    }
  }

  /** A plain range denotes exactly its numbers. */
  lemma ParsePlainRange(a: nat, b: nat, lo: int, hi: int)
    ensures FieldSet(Decimal(a) + "-" + Decimal(b), lo, hi).Some?
    ensures forall v :: v in FieldSet(Decimal(a) + "-" + Decimal(b), lo, hi).value <==> a <= v <= b
  {
    var x, y := Decimal(a), Decimal(b);
    var field := x + "-" + y;
    assert ',' !in field && '/' !in x && '-' !in x && '/' !in y && '-' !in y;
    SplitNone(field, ',');
    assert field == x + "-" + y + "";
    RangeChunk(x, y, "", lo, hi);
    ParseDecimal(a);
    ParseDecimal(b);
    ChunksDenote([field], lo, hi);
    assert field in [field];
    assert WellFormed([field], lo, hi);
    forall v ensures Denotes([field], lo, hi, v) <==> a <= v <= b {}
  }

  ghost predicate Listed(ns: seq<nat>, v: int) {
    exists n <- ns :: n == v
  }

  lemma SinglesMean(ns: seq<nat>, lo: int, hi: int, v: int)
    ensures TermsMean(Singles(ns), lo, hi, v) <==> Listed(ns, v)
  {
    var ts := Singles(ns);
    if TermsMean(ts, lo, hi, v) {
      var t :| t in ts && ValidTerm(t) && InProgression(v, Meaning(t, lo, hi));
      var i :| 0 <= i < |ts| && ts[i] == t;
      assert v == ns[i] && ns[i] in ns;
    }
    if n :| n in ns && n == v {
      var i :| 0 <= i < |ns| && ns[i] == n;
      assert ts[i] in ts && InProgression(v, Meaning(ts[i], lo, hi));
    }
  }

  /** In particular a comma list of numbers denotes exactly those numbers. */
  lemma ParseCommaList(ns: seq<nat>, lo: int, hi: int)
    requires ns != []
    ensures var r := FieldSet(PrintField(Singles(ns)), lo, hi);
      r.Some? && forall v :: v in r.value <==> Listed(ns, v)
  {
    ParsePrintedField(Singles(ns), lo, hi);
    forall v ensures TermsMean(Singles(ns), lo, hi, v) <==> Listed(ns, v) {
      SinglesMean(ns, lo, hi, v);
    }
  }
}
