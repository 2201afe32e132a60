/**
 The Range header: `normalizeRange` of src/services/rangePlanner.service.ts,
 measured against section 14.1.2 of RFC 9110.
 */
module RangeHeader {
  import opened Bytes
  import opened Options

  /** The error messages of `normalizeRange`. */
  datatype RangeError = InvalidHeader | InvalidSuffix | InvalidBounds | StartExceedsSize

  datatype Result = Ok(start: int, end: int) | Err(error: RangeError)

  // ---------------------------------------------------------------------------
  // Decimal numerals

  predicate IsDigit(c: char) {
    '0' <= c <= '9'
  }

  ghost predicate AllDigits(s: string) {
    forall i | 0 <= i < |s| :: IsDigit(s[i])
  }

  /** JavaScript's `Number` on a string of digits. */
  function NumberOf(s: string): nat
    requires AllDigits(s)
  {
    if s == "" then 0 else 10 * NumberOf(s[..|s| - 1]) + (s[|s| - 1] as int - '0' as int)
  }

  /** A number as a template literal prints it. */
  function Decimal(n: nat): (s: string)
    ensures s != "" && AllDigits(s)
  {
    var last := [('0' as int + n % 10) as char];
    if n < 10 then last else Decimal(n / 10) + last
  }

  lemma {:induction false} DecimalRoundTrip(n: nat)
    ensures NumberOf(Decimal(n)) == n
  {
    var s := Decimal(n);
    if n < 10 {
      assert s[..0] == "";
    } else {
      DecimalRoundTrip(n / 10);
      assert s[..|s| - 1] == Decimal(n / 10);
    }
  }

  function Power(base: nat, n: nat): nat {
    if n == 0 then 1 else base * Power(base, n - 1)
  }

  /** From half a unit in the last place above the largest double on, a numeral reads as Infinity. */
  const DOUBLE_LIMIT: int := Power(2, 1024) - Power(2, 970)

  lemma {:induction false} PowersAdd(m: nat, n: nat)
    ensures Power(2, m + n) == Power(2, m) * Power(2, n)
  {
    if m > 0 {
      PowersAdd(m - 1, n);
    }
  }

  /** It is the largest double, 53 ones before 971 zeros in binary, and half of its last one. */
  lemma DoubleLimitIs()
    ensures DOUBLE_LIMIT == (Power(2, 53) - 1) * Power(2, 971) + Power(2, 970)
  {
    hide Power;
    PowersAdd(53, 971);
    PowerStep(970);
  }

  lemma PowerStep(n: nat)
    ensures Power(2, n + 1) == 2 * Power(2, n)
  {
  }

  /** `Number.isFinite` of a numeral. */
  predicate IsFinite(n: nat) {
    n < DOUBLE_LIMIT
  }

  // ---------------------------------------------------------------------------
  // The header's shape, `^bytes=(\d*)-(\d*)$`

  const PREFIX := "bytes="

  /** How many digits `s` starts with. */
  function DigitRun(s: string): (n: nat)
    ensures n <= |s| && AllDigits(s[..n])
    ensures n < |s| ==> !IsDigit(s[n])
  {
    if s == "" || !IsDigit(s[0]) then 0
    else
      assert s[..1 + DigitRun(s[1..])] == [s[0]] + s[1..][..DigitRun(s[1..])];
      1 + DigitRun(s[1..])
  }

  /** The two captured groups, when the header matches. */
  function Captures(range: string): (r: Option<(string, string)>)
    ensures r.Some? ==> AllDigits(r.value.0) && AllDigits(r.value.1)
    ensures r.Some? ==> range == PREFIX + r.value.0 + "-" + r.value.1
  {
    if |range| < 6 || range[..6] != PREFIX then None
    else
      var rest := range[6..];
      var n := DigitRun(rest);
      if n == |rest| || rest[n] != '-' || DigitRun(rest[n + 1..]) != |rest| - n - 1 then None
      else
        assert rest == rest[..n] + "-" + rest[n + 1..];
        assert rest[n + 1..][..DigitRun(rest[n + 1..])] == rest[n + 1..];
        Some((rest[..n], rest[n + 1..]))
  }

  lemma {:induction false} DigitRunOfConcat(a: string, tail: string)
    requires AllDigits(a) && (tail != "" ==> !IsDigit(tail[0]))
    ensures DigitRun(a + tail) == |a|
  {
    if a == "" {
      assert a + tail == tail;
    } else {
      assert (a + tail)[1..] == a[1..] + tail;
      DigitRunOfConcat(a[1..], tail);
    }
  }

  /** A header matches in one way only. */
  lemma CapturesUnique(a: string, b: string)
    requires AllDigits(a) && AllDigits(b)
    ensures Captures(PREFIX + a + "-" + b) == Some((a, b))
  {
    var range := PREFIX + a + "-" + b;
    assert range[..6] == PREFIX;
    assert range[6..] == a + ("-" + b);
    DigitRunOfConcat(a, "-" + b);
    assert range[6..][|a| + 1..] == b;
    DigitRunOfConcat(b, "");
    assert b + "" == b;
    assert range[6..][..|a|] == a;
  }

  // ---------------------------------------------------------------------------
  // normalizeRange

  /** `range == ""` stands for an absent header: the source tests `!range`. */
  function NormalizeRange(range: string, size: int): Result {
    if size <= 0 then Ok(0, 0)
    else if range == "" then Ok(0, size - 1)
    else
      match Captures(range)
      case None => Err(InvalidHeader)
      case Some((rawStart, rawEnd)) =>
        if rawStart == "" && rawEnd == "" then Err(InvalidHeader)
        else if rawStart == "" then
          var suffixLength := NumberOf(rawEnd);
          if !IsFinite(suffixLength) || suffixLength <= 0 then Err(InvalidSuffix)
          else Ok(Max(0, size - suffixLength), size - 1)
        else
          var start := NumberOf(rawStart);
          var end := if rawEnd != "" then NumberOf(rawEnd) else size - 1;
          if !IsFinite(start) || (rawEnd != "" && !IsFinite(NumberOf(rawEnd))) then Err(InvalidBounds)
          else if start >= size then Err(StartExceedsSize)
          else if end < start then Err(InvalidBounds)
          else Ok(start, Min(end, size - 1))
  }

  // ---------------------------------------------------------------------------
  // Section 14.1.2 of RFC 9110

  datatype RangeSpec =
    | IntRange(first: nat, last: Option<nat>)
    | SuffixRange(length: nat)
  {
    /** An int-range whose last position precedes its first is invalid. */
    predicate Valid() {
      IntRange? && last.Some? ==> first <= last.value
    }

    /** No number in it is too large for a double. */
    predicate Representable() {
      match this
      case IntRange(first, last) => IsFinite(first) && (last.Some? ==> IsFinite(last.value))
      case SuffixRange(length) => IsFinite(length)
    }

    /** The positions of a representation of `size` bytes that the range selects. */
    predicate Selects(size: int, p: int) {
      && 0 <= p < size
      && match this
         case IntRange(first, last) => first <= p && (last.Some? ==> p <= last.value)
         case SuffixRange(length) => size - length <= p
    }

    /** A range that selects something. */
    ghost predicate Satisfiable(size: int) {
      exists p :: Selects(size, p)
    }
  }

  function Lower(s: string): (r: string)
    ensures |r| == |s|
  {
    seq(|s|, i requires 0 <= i < |s| => if 'A' <= s[i] <= 'Z' then (s[i] as int + 32) as char else s[i])
  }

  /** Range unit names are case-insensitive. */
  predicate IsByteUnit(unit: string) {
    Lower(unit) == "bytes"
  }

  /** `range` is a spelling of `spec` in the byte unit, as a sender may write it. */
  ghost predicate Spells(range: string, spec: RangeSpec) {
    exists unit, a, b | IsByteUnit(unit) && AllDigits(a) && AllDigits(b) :: SpellsWith(range, spec, unit, a, b)
  }

  ghost predicate SpellsWith(range: string, spec: RangeSpec, unit: string, a: string, b: string)
    requires AllDigits(a) && AllDigits(b)
  {
    && range == unit + "=" + a + "-" + b
    && match spec
       case IntRange(first, last) =>
         a != "" && first == NumberOf(a) && last == (if b == "" then None else Some(NumberOf(b)))
       case SuffixRange(length) =>
         a == "" && b != "" && length == NumberOf(b)
  }

  /** The one spec a matching header can spell. */
  function SpecOf(a: string, b: string): RangeSpec
    requires AllDigits(a) && AllDigits(b)
  {
    if a == "" then SuffixRange(NumberOf(b))
    else IntRange(NumberOf(a), if b == "" then None else Some(NumberOf(b)))
  }

  predicate SpelledBy(range: string, spec: RangeSpec) {
    match Captures(range)
    case None => false
    case Some((a, b)) => !(a == "" && b == "") && spec == SpecOf(a, b)
  }

  lemma SpellsOnlySpecOf(range: string, spec: RangeSpec)
    requires Spells(range, spec) && PREFIX <= range
    ensures SpelledBy(range, spec)
  {
    var unit, a, b :| IsByteUnit(unit) && AllDigits(a) && AllDigits(b) && SpellsWith(range, spec, unit, a, b);
    assert |unit| == 5 && unit == range[..5] == PREFIX[..5];
    assert range == PREFIX + a + "-" + b;
    CapturesUnique(a, b);
  }

  lemma SpelledBySpells(range: string, a: string, b: string)
    requires Captures(range) == Some((a, b)) && !(a == "" && b == "")
    ensures Spells(range, SpecOf(a, b)) && PREFIX <= range
  {
    assert Lower("bytes") == "bytes";
    assert PREFIX == "bytes" + "=";
    assert SpellsWith(range, SpecOf(a, b), "bytes", a, b);
  }

  /**
   For a non-empty file and a given header, `normalizeRange` succeeds exactly
   when the header spells a valid range that selects something, writes the unit in
   lower case and has no number too large for a double, and the bounds it returns enclose
   exactly the selected positions.
   */
  lemma NormalizeRangeMeetsRfc(range: string, size: int)
    requires size > 0 && range != ""
    ensures NormalizeRange(range, size).Ok?
       <==> PREFIX <= range
            && exists spec :: Spells(range, spec) && spec.Valid() && spec.Satisfiable(size) && spec.Representable()
    ensures NormalizeRange(range, size).Ok? ==>
      var Ok(start, end) := NormalizeRange(range, size);
      && 0 <= start <= end < size
      && forall spec, p | Spells(range, spec) :: spec.Selects(size, p) <==> start <= p <= end
  {
    hide Spells, IsFinite;
    forall spec | Spells(range, spec) && PREFIX <= range
      ensures SpelledBy(range, spec)
    {
      SpellsOnlySpecOf(range, spec);
    }
    var result, captures := NormalizeRange(range, size), Captures(range);
    if captures.Some? && !(captures.value.0 == "" && captures.value.1 == "") {
      var spec := SpecOf(captures.value.0, captures.value.1);
      SpelledBySpells(range, captures.value.0, captures.value.1);
      if result.Ok? {
        assert spec.Selects(size, result.start);
        assert spec.Valid();
      } else {
        assert !(spec.Valid() && spec.Satisfiable(size) && spec.Representable());
      }
    }
  }

  /** Without a header the bounds enclose the whole file; an empty file answers from 0 to 0 whatever is asked. */
  lemma NoHeaderMeansAll(range: string, size: int)
    ensures size > 0 ==>
      var r := NormalizeRange("", size);
      r.Ok? && forall p: int :: IntRange(0, None).Selects(size, p) <==> r.start <= p <= r.end
    ensures size <= 0 ==> NormalizeRange(range, size).Ok? && NormalizeRange(range, size).start == NormalizeRange(range, size).end == 0
  {
  }

  /** The error tells which of the standard's conditions, or of the code's own, the header fails. */
  lemma RefusalMeans(range: string, size: int)
    requires size > 0 && range != ""
    ensures NormalizeRange(range, size) == Err(InvalidHeader) <==> forall spec :: !(PREFIX <= range && Spells(range, spec))
    ensures forall spec | PREFIX <= range && Spells(range, spec) ::
      match spec
      case SuffixRange(_) =>
        NormalizeRange(range, size).Err? <==> NormalizeRange(range, size) == Err(InvalidSuffix)
      case IntRange(_, _) =>
        && (NormalizeRange(range, size) == Err(StartExceedsSize) <==> spec.Representable() && size <= spec.first)
        && (NormalizeRange(range, size) == Err(InvalidBounds) <==>
              !spec.Representable() || (spec.first < size && !spec.Valid()))
  {
    hide Spells, IsFinite;
    forall spec | PREFIX <= range && Spells(range, spec)
      ensures SpelledBy(range, spec)
    {
      SpellsOnlySpecOf(range, spec);
    }
    var captures := Captures(range);
    if captures.Some? && !(captures.value.0 == "" && captures.value.1 == "") {
      SpelledBySpells(range, captures.value.0, captures.value.1);
    }
  }

  lemma OtherPrefixIsRefused(range: string, size: int)
    requires size > 0 && range != "" && !(PREFIX <= range)
    ensures NormalizeRange(range, size) == Err(InvalidHeader)
  {
  }

  /** The unit in any other case is as good by the standard, and is refused. */
  lemma OtherCaseIsRefused(size: int)
    requires size > 0
    ensures var spec := IntRange(0, Some(4));
      Spells("Bytes=0-4", spec) && spec.Valid() && spec.Satisfiable(size)
    ensures NormalizeRange("Bytes=0-4", size) == Err(InvalidHeader)
  {
    hide NormalizeRange;
    var spec := IntRange(0, Some(4));
    assert NumberOf("0") == 0 && NumberOf("4") == 4 by {
      assert "0"[..0] == "" && "4"[..0] == "";
    }
    assert Lower("Bytes") == "bytes";
    assert SpellsWith("Bytes=0-4", spec, "Bytes", "0", "4");
    assert spec.Selects(size, 0);
    assert "Bytes=0-4"[0] == 'B';
    OtherPrefixIsRefused("Bytes=0-4", size);
  }

  /** The header the readers print for a window. */
  function RangeOf(start: nat, end: nat): string {
    PREFIX + Decimal(start) + "-" + Decimal(end)
  }

  lemma {:induction false} PowersGrow(m: nat, n: nat)
    requires m <= n
    ensures 0 < Power(2, m) <= Power(2, n) && Power(2, n) <= Power(10, n)
    decreases n
  {
    if m < n {
      PowersGrow(m, n - 1);
    } else if n > 0 {
      PowersGrow(n - 1, n - 1);
    }
  }

  function Zeros(n: nat): (s: string)
    ensures |s| == n && AllDigits(s)
  {
    if n == 0 then "" else Zeros(n - 1) + "0"
  }

  lemma {:induction false} OneAndZeros(n: nat)
    ensures AllDigits("1" + Zeros(n)) && NumberOf("1" + Zeros(n)) == Power(10, n)
  {
    var s := "1" + Zeros(n);
    if n == 0 {
      assert s == "1" && s[..0] == "";
    } else {
      OneAndZeros(n - 1);
      assert s[..|s| - 1] == "1" + Zeros(n - 1) && s[|s| - 1] == '0';
    }
  }

  /** An end position with 1025 digits: valid and satisfiable for every file, and refused. */
  lemma HugeNumeralIsRefused(size: int)
    requires size > 0
    ensures AllDigits("1" + Zeros(1024))
    ensures var b := "1" + Zeros(1024);
      var range, spec := PREFIX + "0-" + b, IntRange(0, Some(NumberOf(b)));
      && Spells(range, spec) && spec.Valid() && spec.Satisfiable(size)
      && NormalizeRange(range, size) == Err(InvalidBounds)
  {
    hide Power, Spells;
    var b, range := "1" + Zeros(1024), PREFIX + "0-" + ("1" + Zeros(1024));
    OneAndZeros(1024);
    PowersGrow(970, 1024);
    var spec := IntRange(0, Some(NumberOf(b)));
    assert AllDigits("0") && NumberOf("0") == 0 by { assert "0"[..0] == ""; }
    assert range == PREFIX + "0" + "-" + b;
    CapturesUnique("0", b);
    SpelledBySpells(range, "0", b);
    assert spec.Selects(size, 0);
  }

  /** What a reader prints, the planner reads back, cut off at the end of the file. */
  lemma RangeRoundTrip(start: nat, end: nat, size: int)
    requires start <= end && start < size && IsFinite(end)
    ensures NormalizeRange(RangeOf(start, end), size) == Ok(start, Min(end, size - 1))
  {
    hide Power;
    CapturesUnique(Decimal(start), Decimal(end));
    DecimalRoundTrip(start);
    DecimalRoundTrip(end);
  }
}
