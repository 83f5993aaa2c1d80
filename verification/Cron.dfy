/** Model of src/cron.rs: bit-set fields, the field syntax and the day of the week. */
module Cron {
  import opened Modular
  import opened Prelude
  import opened Text

  // ----- Bit sets -----

  /** Bit i of a natural number. */
  predicate Bit(x: nat, i: nat)
    decreases i
  {
    if i == 0 then x % 2 == 1 else Bit(x / 2, i - 1)
  }

  /** `x | 1 << i`. */
  function SetBit(x: nat, i: nat): nat
    decreases i
  {
    if i == 0 then (if x % 2 == 1 then x else x + 1) else x % 2 + 2 * SetBit(x / 2, i - 1)
  }

  /** `x | y`. */
  function BitOr(x: nat, y: nat): nat
    decreases x
  {
    if x == 0 then y else (if x % 2 == 1 || y % 2 == 1 then 1 else 0) + 2 * BitOr(x / 2, y / 2)
  }

  lemma {:induction false} BitOfSetBit(x: nat, i: nat, j: nat)
    ensures Bit(SetBit(x, i), j) <==> i == j || Bit(x, j)
    decreases i
  {
    if i > 0 && j > 0 {
      BitOfSetBit(x / 2, i - 1, j - 1);
    }
  }

  lemma {:induction false} BitOfZero(j: nat)
    ensures !Bit(0, j)
  {
    if j > 0 {
      BitOfZero(j - 1);
    }
  }

  lemma {:induction false} BitOfOr(x: nat, y: nat, j: nat)
    ensures Bit(BitOr(x, y), j) <==> Bit(x, j) || Bit(y, j)
    decreases j
  {
    if x == 0 {
      BitOfZero(j);
    } else if j > 0 {
      BitOfOr(x / 2, y / 2, j - 1);
    }
  }

  /** Two 64-bit words: the values 0 to 127. */
  datatype CronField = CronField(lo: nat, hi: nat) {
    /** Indexing a third word panics, so a value is set only below 128. */
    function Set(v: nat): CronField
      requires v < 128
    {
      if v / 64 == 0 then CronField(SetBit(lo, v % 64), hi) else CronField(lo, SetBit(hi, v % 64))
    }

    predicate Matches(v: nat)
      requires v < 128
    {
      if v / 64 == 0 then Bit(lo, v % 64) else Bit(hi, v % 64)
    }

    function Or(f: CronField): CronField {
      CronField(BitOr(lo, f.lo), BitOr(hi, f.hi))
    }
  }

  const EMPTY: CronField := CronField(0, 0)

  lemma MatchesSet(f: CronField, v: nat, w: nat)
    requires v < 128 && w < 128
    ensures f.Set(v).Matches(w) <==> v == w || f.Matches(w)
  {
    BitOfSetBit(f.lo, v % 64, w % 64);
    BitOfSetBit(f.hi, v % 64, w % 64);
  }

  lemma MatchesOr(f: CronField, g: CronField, w: nat)
    requires w < 128
    ensures f.Or(g).Matches(w) <==> f.Matches(w) || g.Matches(w)
  {
    BitOfOr(f.lo, g.lo, w % 64);
    BitOfOr(f.hi, g.hi, w % 64);
  }

  lemma MatchesEmpty(w: nat)
    requires w < 128
    ensures !EMPTY.Matches(w)
  {
    BitOfZero(w % 64);
  }

  // ----- Progressions -----

  /** The values lo, lo + step, ... up to hi. */
  datatype Span = Span(lo: nat, hi: nat, step: nat)

  predicate Has(s: Span, v: nat) {
    s.step > 0 && s.lo <= v <= s.hi && (v - s.lo) % s.step == 0
  }

  /** The field holds exactly the values of the span below `end`. */
  ghost predicate HoldsBelow(f: CronField, s: Span, end: nat) {
    forall w: nat | w < 128 :: f.Matches(w) <==> w < end && Has(s, w)
  }

  lemma NextInSpan(s: Span, v: nat, w: nat)
    requires Has(s, v) && v < w < v + s.step
    ensures !Has(s, w)
  {
    var k, d := (v - s.lo) / s.step, w - v;
    assert w - s.lo == k * s.step + d;
    ModOfMultiplePlus(k, s.step, d);
  }

  lemma ModOfMultiplePlus(k: nat, m: nat, d: nat)
    requires m > 0 && d < m
    ensures (k * m + d) % m == d && (k * m + d) / m == k
  {
    var x := k * m + d;
    var q, r := x / m, x % m;
    assert x == q * m + r;
    if q < k {
      MulGrows(m, k - q);
    } else if q > k {
      MulGrows(m, q - k);
    }
  }

  lemma StepInSpan(s: Span, v: nat)
    requires Has(s, v) && v + s.step <= s.hi
    ensures Has(s, v + s.step)
  {
    var k := (v - s.lo) / s.step;
    assert v + s.step - s.lo == (k + 1) * s.step;
    ModOfMultiplePlus(k + 1, s.step, 0);
  }

  /** Where the filling loop stands: the field holds the values below v, and v is the next one to set. */
  ghost predicate Filling(f: CronField, s: Span, v: nat) {
    && HoldsBelow(f, s, v) && v <= 255
    && (v <= s.hi ==> Has(s, v) || v == s.hi == 255)
    && (forall w: nat | Has(s, w) && w < v :: w < 128)
  }

  /** `u8::saturating_add`. */
  function SaturatingAdd(v: nat, step: nat): nat {
    if v + step > 255 then 255 else v + step
  }

  lemma FillStart(s: Span)
    requires s.step > 0 && s.lo <= 255
    ensures Filling(EMPTY, s, s.lo)
  {
    forall w: nat | w < 128 ensures !EMPTY.Matches(w) {
      MatchesEmpty(w);
    }
  }

  lemma FillNext(f: CronField, s: Span, v: nat)
    requires Filling(f, s, v) && v < 128 && v <= s.hi < 256 && s.step > 0
    ensures Filling(f.Set(v), s, SaturatingAdd(v, s.step))
  {
    var next := SaturatingAdd(v, s.step);
    forall w: nat | v < w < v + s.step ensures !Has(s, w) {
      NextInSpan(s, v, w);
    }
    forall w: nat | w < 128 ensures f.Set(v).Matches(w) <==> w < next && Has(s, w) {
      MatchesSet(f, v, w);
    }
    if v + s.step <= s.hi {
      StepInSpan(s, v);
    }
  }

  /** The filling loops of `parse_cron_token`; None when a value of 128 or more is set and indexing panics. */
  method Fill(s: Span) returns (r: Option<CronField>)
    requires InBytes(s)
    ensures r.None? <==> Overruns(s)
    ensures r.Some? ==> forall w: nat | w < 128 :: r.value.Matches(w) <==> Has(s, w)
  {
    var f := EMPTY;
    var v := s.lo;
    FillStart(s);
    while v <= s.hi
      invariant Filling(f, s, v)
      decreases s.hi + 1 - v
    {
      if v >= 128 {
        return None;
      }
      FillNext(f, s, v);
      f := f.Set(v);
      v := SaturatingAdd(v, s.step);
    }
    r := Some(f);
  }

  /** The loop reaches a value above 127; with an upper end of 255 the saturated value does not leave it. */
  ghost predicate Overruns(s: Span) {
    (exists v: nat :: v >= 128 && Has(s, v)) || (s.hi == 255 && s.lo <= 255)
  }

  predicate InBytes(s: Span) {
    0 < s.step < 256 && s.lo < 256 && s.hi < 256
  }

  // ----- The field syntax -----

  function ParseRange(text: string, dash: nat, step: nat): (r: Result<Span, string>)
    requires dash < |text| && 0 < step < 256
    ensures r.Ok? ==> InBytes(r.value)
  {
    var lo, hi := ParseUnsigned(text[..dash], 255), ParseUnsigned(text[dash + 1..], 255);
    if lo.None? then Err("invalid range start")
    else if hi.None? then Err("invalid range end")
    else Ok(Span(lo.value, hi.value, step))
  }

  /** What stands before a step: a star, a range, or a first value. */
  function ParseBase(base: string, step: nat, min: Byte, max: Byte): (r: Result<Span, string>)
    requires 0 < step < 256
    ensures r.Ok? ==> InBytes(r.value)
  {
    if base == "*" then Ok(Span(min, max, step))
    else
      var dash := FindChar(base, '-');
      if dash < |base| then ParseRange(base, dash, step)
      else
        var start := ParseUnsigned(base, 255);
        if start.None? then Err("invalid base value") else Ok(Span(start.value, max, step))
  }

  function ParsePlain(token: string, min: Byte, max: Byte): (r: Result<Span, string>)
    ensures r.Ok? ==> InBytes(r.value)
  {
    var dash := FindChar(token, '-');
    if dash < |token| then ParseRange(token, dash, 1)
    else if token == "*" then Ok(Span(min, max, 1))
    else
      var n := ParseUnsigned(token, 255);
      if n.None? then Err("invalid number") else Ok(Span(n.value, n.value, 1))
  }

  /** The progression that a token asks for, with the same branches and errors as `parse_cron_token`. */
  function ParseSpan(token: string, min: Byte, max: Byte): (r: Result<Span, string>)
    ensures r.Ok? ==> InBytes(r.value)
  {
    var slash := FindChar(token, '/');
    if slash < |token| then
      var step := ParseUnsigned(token[slash + 1..], 255);
      if step.None? then Err("invalid step value")
      else if step.value == 0 then Err("step must be > 0")
      else ParseBase(token[..slash], step.value, min, max)
    else ParsePlain(token, min, max)
  }

  datatype Parsed = Field(f: CronField) | Bad(msg: string) | Panics

  function ParseAll(tokens: seq<string>, min: Byte, max: Byte): (r: seq<Result<Span, string>>)
    ensures |r| == |tokens| && forall s | s in r :: s.Ok? ==> InBytes(s.value)
  {
    seq(|tokens|, i requires 0 <= i < |tokens| => ParseSpan(Trim(tokens[i]), min, max))
  }

  ghost predicate Fine(s: Result<Span, string>) {
    s.Ok? && !Overruns(s.value)
  }

  ghost predicate Lists(s: Result<Span, string>, w: nat) {
    s.Ok? && Has(s.value, w)
  }

  /** Some span of the sequence lists the value. */
  ghost predicate Listed(spans: seq<Result<Span, string>>, w: nat) {
    exists i: nat :: i < |spans| && Lists(spans[i], w)
  }

  lemma ListedNext(spans: seq<Result<Span, string>>, k: nat, w: nat)
    requires k < |spans|
    ensures Listed(spans[..k + 1], w) <==> Listed(spans[..k], w) || Lists(spans[k], w)
  {
    if Lists(spans[k], w) {
      assert spans[..k + 1][k] == spans[k];
    }
    if Listed(spans[..k], w) {
      var i: nat :| i < k && Lists(spans[..k][i], w);
      assert spans[..k + 1][i] == spans[..k][i];
    }
    if Listed(spans[..k + 1], w) {
      var i: nat :| i < k + 1 && Lists(spans[..k + 1][i], w);
      assert i < k ==> spans[..k][i] == spans[..k + 1][i];
    }
  }

  /** The field holds exactly the listed values below 128. */
  ghost predicate Union(f: CronField, spans: seq<Result<Span, string>>) {
    forall w: nat | w < 128 :: f.Matches(w) <==> Listed(spans, w)
  }

  lemma UnionStart()
    ensures Union(EMPTY, [])
  {
    forall w: nat | w < 128 ensures !EMPTY.Matches(w) {
      MatchesEmpty(w);
    }
  }

  lemma UnionNext(f: CronField, part: CronField, spans: seq<Result<Span, string>>, k: nat)
    requires k < |spans| && Union(f, spans[..k])
    requires forall w: nat | w < 128 :: part.Matches(w) <==> Lists(spans[k], w)
    ensures Union(f.Or(part), spans[..k + 1])
  {
    forall w: nat | w < 128 ensures f.Or(part).Matches(w) <==> Listed(spans[..k + 1], w) {
      MatchesOr(f, part, w);
      ListedNext(spans, k, w);
    }
  }

  method Unite(spans: seq<Result<Span, string>>) returns (r: Parsed, ghost at: nat)
    requires forall s | s in spans :: s.Ok? ==> InBytes(s.value)
    ensures at <= |spans| && forall i: nat | i < at :: Fine(spans[i])
    ensures r.Field? <==> at == |spans|
    ensures r.Field? ==> Union(r.f, spans)
    ensures r.Bad? ==> at < |spans| && spans[at] == Err(r.msg)
    ensures r.Panics? ==> at < |spans| && spans[at].Ok? && Overruns(spans[at].value)
  {
    var combined := EMPTY;
    UnionStart();
    for i := 0 to |spans|
      invariant forall j: nat | j < i :: Fine(spans[j])
      invariant Union(combined, spans[..i])
    {
      if spans[i].Err? {
        return Bad(spans[i].error), i;
      }
      var part := Fill(spans[i].value);
      if part.None? {
        return Panics, i;
      }
      UnionNext(combined, part.value, spans, i);
      combined := combined.Or(part.value);
    }
    assert spans[..|spans|] == spans;
    return Field(combined), |spans|;
  }

  /** A field of comma-separated tokens: the union of what they list, or the first token that is wrong. */
  method ParseCronExpr(field: string, min: Byte, max: Byte) returns (r: Parsed, ghost at: nat)
    ensures var spans := ParseAll(SplitOn(field, ','), min, max);
            && at <= |spans| && (forall i: nat | i < at :: Fine(spans[i]))
            && (r.Field? <==> at == |spans|)
            && (r.Field? ==> Union(r.f, spans))
            && (r.Bad? ==> at < |spans| && spans[at] == Err(r.msg))
            && (r.Panics? ==> at < |spans| && spans[at].Ok? && Overruns(spans[at].value))
  {
    r, at := Unite(ParseAll(SplitOn(field, ','), min, max));
  }

  // ----- Printing and reading back -----

  datatype Item =
    | Star
    | One(n: Byte)
    | Range(lo: Byte, hi: Byte)
    | StarStep(s: Byte)
    | OneStep(n: Byte, s: Byte)
    | RangeStep(lo: Byte, hi: Byte, s: Byte)
  {
    predicate Valid() {
      StarStep? || OneStep? || RangeStep? ==> s != 0
    }

    /** The values the item stands for. */
    function Meaning(min: Byte, max: Byte): Span {
      match this
      case Star => Span(min, max, 1)
      case One(n) => Span(n, n, 1)
      case Range(lo, hi) => Span(lo, hi, 1)
      case StarStep(s) => Span(min, max, s)
      case OneStep(n, s) => Span(n, max, s)
      case RangeStep(lo, hi, s) => Span(lo, hi, s)
    }

    function Base(): string {
      match this
      case Star => "*"
      case StarStep(_) => "*"
      case One(n) => Decimal(n)
      case OneStep(n, _) => Decimal(n)
      case Range(lo, hi) => Decimal(lo) + ['-'] + Decimal(hi)
      case RangeStep(lo, hi, _) => Decimal(lo) + ['-'] + Decimal(hi)
    }

    function Print(): string {
      if StarStep? || OneStep? || RangeStep? then Base() + ['/'] + Decimal(s) else Base()
    }
  }

  lemma DecimalChars(n: nat)
    ensures Decimal(n) != "" && AllDigits(Decimal(n)) && Decimal(n) != "*"
    ensures '-' !in Decimal(n) && '/' !in Decimal(n) && ',' !in Decimal(n) && '*' !in Decimal(n)
  {
    DecimalValue(n);
    DigitsLack(Decimal(n), '-');
    DigitsLack(Decimal(n), '/');
    DigitsLack(Decimal(n), ',');
    DigitsLack(Decimal(n), '*');
  }

  lemma ParsePrintedRange(lo: Byte, hi: Byte, step: nat)
    requires 0 < step < 256
    ensures var text := Decimal(lo) + ['-'] + Decimal(hi);
            && text != "*" && '/' !in text && ',' !in text
            && FindChar(text, '-') == |Decimal(lo)| < |text|
            && ParseRange(text, |Decimal(lo)|, step) == Ok(Span(lo, hi, step))
  {
    DecimalChars(lo);
    DecimalChars(hi);
    var text := Decimal(lo) + ['-'] + Decimal(hi);
    FindInConcat(Decimal(lo), '-', Decimal(hi));
    assert text[..|Decimal(lo)|] == Decimal(lo) && text[|Decimal(lo)| + 1..] == Decimal(hi);
    ParseDecimal(lo, 255);
    ParseDecimal(hi, 255);
  }

  lemma PlainItems(it: Item, min: Byte, max: Byte)
    requires it.Star? || it.One? || it.Range?
    ensures ParseSpan(it.Print(), min, max) == Ok(it.Meaning(min, max))
    ensures '/' !in it.Print() && ',' !in it.Print()
  {
    match it
    case Star =>
    case One(n) =>
      DecimalChars(n);
      FindNone(Decimal(n), '/');
      FindNone(Decimal(n), '-');
      ParseDecimal(n, 255);
    case Range(lo, hi) =>
      ParsePrintedRange(lo, hi, 1);
      FindNone(it.Print(), '/');
  }

  lemma SteppedItems(it: Item, min: Byte, max: Byte)
    requires it.Valid() && (it.StarStep? || it.OneStep? || it.RangeStep?)
    ensures ParseSpan(it.Print(), min, max) == Ok(it.Meaning(min, max))
    ensures ',' !in it.Print()
  {
    var base, token := it.Base(), it.Print();
    match it {
      case StarStep(_) =>
      case OneStep(n, _) =>
        DecimalChars(n);
        FindNone(base, '-');
        ParseDecimal(n, 255);
      case RangeStep(lo, hi, s) => ParsePrintedRange(lo, hi, s);
    }
    assert '/' !in base && ',' !in base;
    DecimalChars(it.s);
    FindInConcat(base, '/', Decimal(it.s));
    assert token[..|base|] == base && token[|base| + 1..] == Decimal(it.s);
    ParseDecimal(it.s, 255);
  }

  /** Reading a printed item gives back what the item stands for. */
  lemma ParsePrintedItem(it: Item, min: Byte, max: Byte)
    requires it.Valid()
    ensures ParseSpan(Trim(it.Print()), min, max) == Ok(it.Meaning(min, max))
    ensures ',' !in it.Print()
  {
    TrimItem(it);
    if it.Star? || it.One? || it.Range? {
      PlainItems(it, min, max);
    } else {
      SteppedItems(it, min, max);
    }
  }

  lemma NoSpaceAtEnds(s: string)
    requires s != "" && !IsSpace(s[0]) && !IsSpace(s[|s| - 1])
    ensures Trim(s) == s
  {
  }

  lemma TrimItem(it: Item)
    ensures Trim(it.Print()) == it.Print()
  {
    var s := it.Print();
    match it {
      case Star =>
      case StarStep(k) => DecimalChars(k);
      case One(n) => DecimalChars(n);
      case OneStep(n, k) =>
        DecimalChars(n);
        DecimalChars(k);
      case Range(lo, hi) =>
        DecimalChars(lo);
        DecimalChars(hi);
      case RangeStep(lo, hi, k) =>
        DecimalChars(lo);
        DecimalChars(hi);
        DecimalChars(k);
    }
    assert s != "" && (IsDigit(s[0]) || s[0] == '*') && (IsDigit(s[|s| - 1]) || s[|s| - 1] == '*');
    NoSpaceAtEnds(s);
  }

  function PrintAll(items: seq<Item>): string
    requires items != []
  {
    if |items| == 1 then items[0].Print() else items[0].Print() + [','] + PrintAll(items[1..])
  }

  lemma {:induction false} SplitPrinted(items: seq<Item>)
    requires items != [] && forall it | it in items :: it.Valid()
    ensures |SplitOn(PrintAll(items), ',')| == |items|
    ensures forall i: nat | i < |items| :: SplitOn(PrintAll(items), ',')[i] == items[i].Print()
    decreases |items|
  {
    ParsePrintedItem(items[0], 0, 0);
    if |items| == 1 {
      FindNone(items[0].Print(), ',');
    } else {
      SplitPrinted(items[1..]);
      SplitConcat(items[0].Print(), ',', PrintAll(items[1..]));
    }
  }

  /** A printed field lists a value exactly when one of its items stands for it. */
  lemma PrintedFieldLists(items: seq<Item>, min: Byte, max: Byte, w: nat)
    requires items != [] && forall it | it in items :: it.Valid()
    ensures Listed(ParseAll(SplitOn(PrintAll(items), ','), min, max), w)
       <==> exists it :: it in items && Has(it.Meaning(min, max), w)
  {
    SplitPrinted(items);
    var spans := ParseAll(SplitOn(PrintAll(items), ','), min, max);
    forall i: nat | i < |items| ensures spans[i] == Ok(items[i].Meaning(min, max)) {
      assert items[i] in items;
      ParsePrintedItem(items[i], min, max);
    }
    ListedByItems(spans, items, min, max, w);
  }

  lemma ListedByItems(spans: seq<Result<Span, string>>, items: seq<Item>, min: Byte, max: Byte, w: nat)
    requires |spans| == |items| && forall i: nat | i < |items| :: spans[i] == Ok(items[i].Meaning(min, max))
    ensures Listed(spans, w) <==> exists it :: it in items && Has(it.Meaning(min, max), w)
  {
    if it :| it in items && Has(it.Meaning(min, max), w) {
      var i: nat :| i < |items| && items[i] == it;
      assert Lists(spans[i], w);
    }
    if Listed(spans, w) {
      var i: nat :| i < |spans| && Lists(spans[i], w);
      assert items[i] in items;
    }
  }

  // ----- The day of the week -----

  predicate Leap(y: nat) {
    y % 4 == 0 && (y % 100 != 0 || y % 400 == 0)
  }

  function DaysInMonth(y: nat, m: nat): nat
    requires 1 <= m <= 12
  {
    if m == 2 then (if Leap(y) then 29 else 28)
    else if m == 4 || m == 6 || m == 9 || m == 11 then 30
    else 31
  }

  predicate IsDate(y: nat, m: nat, d: nat) {
    1 <= m <= 12 && 1 <= d <= DaysInMonth(y, m)
  }

  /** The days from 1 January of year 1 to 1 January of year y; year 0 is a leap year before it. */
  function DaysBeforeYear(y: nat): int {
    if y == 0 then -366 else DaysBeforeYear(y - 1) + (if Leap(y - 1) then 366 else 365)
  }

  function DaysBeforeMonth(y: nat, m: nat): nat
    requires 1 <= m <= 12
    decreases m
  {
    if m == 1 then 0 else DaysBeforeMonth(y, m - 1) + DaysInMonth(y, m - 1)
  }

  /** The number of a day, counted from the last day before year 1. */
  function DayNumber(y: nat, m: nat, d: nat): int
    requires 1 <= m <= 12
  {
    DaysBeforeYear(y) + DaysBeforeMonth(y, m) + d
  }

  /** The weekday by counting every day from 1 January of year 1, a Monday. */
  function Weekday(y: nat, m: nat, d: nat): nat
    requires 1 <= m <= 12
  {
    DayNumber(y, m, d) % 7
  }

  function NextDay(y: nat, m: nat, d: nat): (r: (nat, nat, nat))
    requires IsDate(y, m, d)
    ensures IsDate(r.0, r.1, r.2)
  {
    if d < DaysInMonth(y, m) then (y, m, d + 1)
    else if m < 12 then (y, m + 1, 1)
    else (y + 1, 1, 1)
  }

  const OFFSETS: seq<int> := [0, 3, 2, 5, 0, 3, 5, 1, 4, 6, 2, 4]

  function LeapsThrough(y: nat): int {
    y / 4 - y / 100 + y / 400
  }

  /** The quotient by m grows at its multiples. */
  lemma QuotientStep(y: nat, m: nat)
    requires y >= 1 && m >= 1
    ensures y / m == (y - 1) / m + (if y % m == 0 then 1 else 0)
  {
    var q, r := y / m, y % m;
    assert y == q * m + r;
    if r == 0 {
      assert (q - 1) * m == q * m - m;
      QuotientIs(y - 1, m, q - 1, m - 1);
    } else {
      QuotientIs(y - 1, m, q, r - 1);
    }
  }

  lemma CenturiesAreFourths(y: nat)
    ensures (y % 100 == 0 ==> y % 4 == 0) && (y % 400 == 0 ==> y % 100 == 0)
  {
    if y % 100 == 0 {
      QuotientIs(y, 4, 25 * (y / 100), 0);
    }
    if y % 400 == 0 {
      QuotientIs(y, 100, 4 * (y / 400), 0);
    }
  }

  lemma LeapStep(y: nat)
    requires y >= 1
    ensures LeapsThrough(y) == LeapsThrough(y - 1) + (if Leap(y) then 1 else 0)
  {
    QuotientStep(y, 4);
    QuotientStep(y, 100);
    QuotientStep(y, 400);
    CenturiesAreFourths(y);
  }

  lemma {:induction false} DaysBeforeYearFormula(y: nat)
    requires y >= 1
    ensures DaysBeforeYear(y) == 365 * (y - 1) + LeapsThrough(y - 1)
  {
    if y == 1 {
      assert DaysBeforeYear(0) == -366 && Leap(0);
    } else {
      DaysBeforeYearFormula(y - 1);
      LeapStep(y - 1);
    }
  }

  lemma DaysBeforeMonthTable(y: nat, m: nat)
    requires 1 <= m <= 12
    ensures DaysBeforeMonth(y, m)
         == [0, 31, 59, 90, 120, 151, 181, 212, 243, 273, 304, 334][m - 1] + (if m > 2 && Leap(y) then 1 else 0)
  {
    assert DaysBeforeMonth(y, 3) == 59 + if Leap(y) then 1 else 0;
    assert DaysBeforeMonth(y, 5) == DaysBeforeMonth(y, 3) + 61;
    assert DaysBeforeMonth(y, 7) == DaysBeforeMonth(y, 5) + 61;
    assert DaysBeforeMonth(y, 9) == DaysBeforeMonth(y, 7) + 62;
    assert DaysBeforeMonth(y, 11) == DaysBeforeMonth(y, 9) + 61;
  }

  /** The table of month offsets is the table of days before a month, modulo seven. */
  lemma MonthOffsets(m: nat) returns (k: nat)
    requires 1 <= m <= 12
    ensures [0, 31, 59, 90, 120, 151, 181, 212, 243, 273, 304, 334][m - 1]
         == OFFSETS[m - 1] + (if m > 2 then 1 else 0) + 7 * k
  {
    k := [0, 4, 8, 12, 17, 21, 25, 30, 34, 38, 43, 47][m - 1];
  }

  /** The weekday formula counts days modulo seven. */
  lemma FormulaCountsDays(y: nat, m: nat, d: nat)
    requires y >= 1 && 1 <= m <= 12
    ensures var yy := if m < 3 then y - 1 else y;
            (yy + LeapsThrough(yy) + OFFSETS[m - 1] + d) % 7 == Weekday(y, m, d)
  {
    DaysBeforeYearFormula(y);
    DaysBeforeMonthTable(y, m);
    LeapStep(y);
    var k := MonthOffsets(m);
    var yy := if m < 3 then y - 1 else y;
    var days := DayNumber(y, m, d);
    MoveWeeks(yy + LeapsThrough(yy) + OFFSETS[m - 1] + d, 52 * (y - 1) + k, days);
  }

  lemma MoveWeeks(n: int, k: int, days: int)
    requires days == n + 7 * k
    ensures days % 7 == n % 7
  {
  }

  /** Year 0: from March on the formula counts days; before, dividing -1 rounds to zero and it is one day ahead. */
  lemma FormulaInYearZero(m: nat, d: nat)
    requires 1 <= m <= 12
    ensures var n := (if m < 3 then -1 else 0) + OFFSETS[m - 1] + d;
            if m < 3 then n % 7 == (Weekday(0, m, d) + 1) % 7 else n % 7 == Weekday(0, m, d)
  {
    var n := (if m < 3 then -1 else 0) + OFFSETS[m - 1] + d;
    DaysBeforeMonthTable(0, m);
    var k: int := MonthOffsets(m);
    var days := DayNumber(0, m, d);
    assert days == n + (if m < 3 then -1 else 0) - 364 + 7 * k;
    MoveWeeks(n + (if m < 3 then -1 else 0), k - 52, days);
    if m < 3 {
      NextWeekday(days);
      MoveWeeks(n, k - 52, days + 1);
    }
  }

  lemma AheadIsWrong(w: int)
    requires 0 <= w < 7
    ensures (w + 1) % 7 != w
  {
  }

  lemma ByteOfRem(n: int)
    requires n >= -1
    ensures TruncRem(n, 7) % 256 == if n < 0 then 255 else n % 7
  {
  }

  /** The numerator of the formula, with the code's rounding toward zero. */
  function Numerator(year: nat, month: nat, day: nat): int
    requires 1 <= month <= 12
  {
    var y: int := if month < 3 then year - 1 else year;
    y + TruncDiv(y, 4) - TruncDiv(y, 100) + TruncDiv(y, 400) + OFFSETS[month - 1] + day
  }

  lemma NumeratorFromYearOne(year: nat, month: nat, day: nat)
    requires year >= 1 && 1 <= month <= 12
    ensures 0 <= Numerator(year, month, day) && Numerator(year, month, day) % 7 == Weekday(year, month, day)
  {
    FormulaCountsDays(year, month, day);
    var y := if month < 3 then year - 1 else year;
    assert Numerator(year, month, day) == y + LeapsThrough(y) + OFFSETS[month - 1] + day;
  }

  lemma NumeratorInYearZero(month: nat, day: nat)
    requires 1 <= month <= 12
    ensures var n := Numerator(0, month, day);
            && n >= -1 && (month >= 3 ==> n >= 0 && n % 7 == Weekday(0, month, day))
            && (month < 3 ==> n % 7 != Weekday(0, month, day))
  {
    FormulaInYearZero(month, day);
    AheadIsWrong(Weekday(0, month, day));
  }

  /** `day_of_week`, 0 for Sunday: right for every date except in January and February of year 0. The cast to an
      unsigned byte wraps a negative remainder. */
  method DayOfWeek(year: nat, month: nat, day: nat) returns (r: int)
    requires 1 <= month <= 12
    ensures r == Weekday(year, month, day) <==> !(year == 0 && month < 3)
  {
    var y: int := year;
    if month < 3 {
      y := y - 1;
    }
    var n := y + TruncDiv(y, 4) - TruncDiv(y, 100) + TruncDiv(y, 400) + OFFSETS[month - 1] + day;
    assert n == Numerator(year, month, day);
    if year >= 1 {
      NumeratorFromYearOne(year, month, day);
    } else {
      NumeratorInYearZero(month, day);
    }
    ByteOfRem(n);
    r := TruncRem(n, 7) % 256;
  }

  lemma YearLength(y: nat, m: nat)
    requires m == 12
    ensures DaysBeforeMonth(y, m) + DaysInMonth(y, m) == DaysBeforeYear(y + 1) - DaysBeforeYear(y)
  {
    DaysBeforeMonthTable(y, m);
  }

  lemma NextDayCountsOne(y: nat, m: nat, d: nat)
    requires IsDate(y, m, d)
    ensures var (y', m', d') := NextDay(y, m, d); DayNumber(y', m', d') == DayNumber(y, m, d) + 1
  {
    if m == 12 {
      YearLength(y, m);
    } else {
      assert DaysBeforeMonth(y, m + 1) == DaysBeforeMonth(y, m) + DaysInMonth(y, m);
    }
  }

  lemma NextWeekday(days: int)
    ensures (days + 1) % 7 == (days % 7 + 1) % 7
  {
  }

  /** The day after is one weekday later, across months, years and leap days. */
  lemma NextDayIsNextWeekday(y: nat, m: nat, d: nat)
    requires IsDate(y, m, d)
    ensures var (y', m', d') := NextDay(y, m, d);
            Weekday(y', m', d') == (Weekday(y, m, d) + 1) % 7
  {
    NextDayCountsOne(y, m, d);
    NextWeekday(DayNumber(y, m, d));
  }
}
