/** Go-style durations: one parser and one printer for admission and reconcile. Durations are whole seconds. */
module Duration {
  import opened Text
  import opened Utf8

  function UnitOf(c: char): nat {
    if c == 'h' then 3600 else if c == 'm' then 60 else 1
  }

  predicate IsUnit(c: char) { c == 'h' || c == 'm' || c == 's' }

  function CheckedMul(n: nat, m: nat): Option<nat> {
    if n * m > U64_MAX then None else Some(n * m)
  }

  function ParseGoDuration(text: string): Option<nat> {
    var s := Trim(text, WHITESPACE);
    if s == "" then None
    else
      var last := s[|s| - 1];
      var (num, mult) := if IsUnit(last) then (s[..|s| - 1], UnitOf(last)) else (s, 1);
      match ParseU64(Trim(num, WHITESPACE))
      case None => None
      case Some(n) => CheckedMul(n, mult)
  }

  function RenderGoDuration(secs: nat): string {
    if secs != 0 && secs % 3600 == 0 then Show(secs / 3600) + "h"
    else if secs != 0 && secs % 60 == 0 then Show(secs / 60) + "m"
    else Show(secs) + "s"
  }

  function ResolveTimeout(spec: Option<string>, default: nat): Option<nat> {
    match spec
    case None => Some(default)
    case Some(s) =>
      match ParseGoDuration(s)
      case Some(d) => if d == 0 then None else Some(d)
      case None => Some(default)
  }

  lemma VisibleIsNotWhitespace(c: char)
    requires IsDigit(c) || IsUnit(c) || c == '+'
    ensures c !in WHITESPACE
  {
  }

  lemma {:induction false} TrimStartBlank(w: string, s: string)
    requires (forall i :: 0 <= i < |w| ==> w[i] in WHITESPACE) && (s != "" ==> s[0] !in WHITESPACE)
    ensures TrimStart(w + s, WHITESPACE) == s
  {
    if w == "" {
      assert w + s == s;
    } else {
      assert (w + s)[1..] == w[1..] + s;
      TrimStartBlank(w[1..], s);
    }
  }

  lemma {:induction false} TrimEndBlank(s: string, w: string)
    requires (forall i :: 0 <= i < |w| ==> w[i] in WHITESPACE) && (s != "" ==> s[|s| - 1] !in WHITESPACE)
    ensures TrimEnd(s + w, WHITESPACE) == s
    decreases |w|
  {
    if w == "" {
      assert s + w == s;
    } else {
      assert (s + w)[..|s + w| - 1] == s + w[..|w| - 1];
      TrimEndBlank(s, w[..|w| - 1]);
    }
  }

  predicate Blank(w: string) { forall i :: 0 <= i < |w| ==> w[i] in WHITESPACE }

  /** A duration as the grammar spells it: blanks around it, an optional plus sign, digits, and a unit that blanks may
      separate from its number; a bare number is in seconds. */
  datatype Spelling = Spelling(before: string, sign: string, digits: string, gap: string, unit: string, after: string) {
    ghost predicate Valid() {
      && Blank(before) && Blank(gap) && Blank(after)
      && sign in {"", "+"} && digits != "" && AllDigits(digits)
      && unit in {"", "h", "m", "s"} && (unit == "" ==> gap == "")
    }

    function Number(): string { sign + digits }

    function Core(): string { Number() + gap + unit }

    function Text(): string { before + (Core() + after) }

    function Seconds(): nat
      requires AllDigits(digits)
    {
      Decimal(digits) * (if unit == "" then 1 else UnitOf(unit[0]))
    }
  }

  lemma NumberParses(sp: Spelling)
    requires sp.Valid()
    ensures var n := sp.Number();
            && n != "" && n[0] !in WHITESPACE && n[|n| - 1] !in WHITESPACE && IsDigit(n[|n| - 1])
            && ParseU64(n) == if Decimal(sp.digits) > U64_MAX then None else Some(Decimal(sp.digits))
  {
    hide Decimal, WHITESPACE;
    var n := sp.Number();
    VisibleIsNotWhitespace(n[0]);
    VisibleIsNotWhitespace(n[|n| - 1]);
    assert sp.sign == "+" ==> n[1..] == sp.digits;
    assert sp.sign == "" ==> n == sp.digits;
    assert !IsDigit('+');
  }

  lemma CoreIsTrimmed(sp: Spelling)
    requires sp.Valid()
    ensures var core := sp.Core(); Trim(sp.Text(), WHITESPACE) == core && core != ""
    ensures var core := sp.Core(); var last := core[|core| - 1];
            if sp.unit == "" then core == sp.Number() && !IsUnit(last)
            else IsUnit(last) && [last] == sp.unit && core[..|core| - 1] == sp.Number() + sp.gap
  {
    hide WHITESPACE, ParseU64;
    NumberParses(sp);
    var core := sp.Core();
    if sp.unit != "" {
      VisibleIsNotWhitespace(sp.unit[0]);
      assert core[..|core| - 1] == sp.Number() + sp.gap;
    } else {
      assert core == sp.Number();
    }
    TrimStartBlank(sp.before, core + sp.after);
    TrimEndBlank(core, sp.after);
  }

  /** A spelled duration parses to its seconds, and to nothing exactly when the number or the product exceeds 64
      bits. */
  lemma SpelledParses(sp: Spelling)
    requires sp.Valid()
    ensures ParseGoDuration(sp.Text())
            == if Decimal(sp.digits) > U64_MAX || sp.Seconds() > U64_MAX then None else Some(sp.Seconds())
  {
    hide WHITESPACE, ParseU64, Trim, Decimal;
    NumberParses(sp);
    CoreIsTrimmed(sp);
    TrimGap(sp.Number(), sp.gap);
    TrimGap(sp.Number(), "");
    assert sp.Number() + "" == sp.Number();
  }

  lemma TrimGap(n: string, gap: string)
    requires n != "" && n[0] !in WHITESPACE && n[|n| - 1] !in WHITESPACE && Blank(gap)
    ensures Trim(n + gap, WHITESPACE) == n
  {
    hide WHITESPACE;
    assert "" + (n + gap) == n + gap;
    TrimStartBlank("", n + gap);
    TrimEndBlank(n, gap);
  }

  lemma TrimStartParts(s: string) returns (before: string)
    ensures Blank(before) && s == before + TrimStart(s, WHITESPACE)
    ensures s != "" && s[0] !in WHITESPACE ==> before == ""
  {
    hide WHITESPACE, TrimStart;
    TrimStartSpec(s, WHITESPACE);
    before := s[..|s| - |TrimStart(s, WHITESPACE)|];
    assert before != "" ==> before[0] == s[0];
  }

  lemma TrimEndParts(s: string) returns (after: string)
    ensures Blank(after) && s == TrimEnd(s, WHITESPACE) + after
  {
    hide WHITESPACE, TrimEnd;
    TrimEndSpec(s, WHITESPACE);
    after := s[|TrimEnd(s, WHITESPACE)|..];
  }

  /** Trimming removes blanks and nothing else. */
  lemma TrimParts(s: string) returns (before: string, after: string)
    ensures Blank(before) && Blank(after) && s == before + (Trim(s, WHITESPACE) + after)
    ensures s != "" && s[0] !in WHITESPACE ==> before == ""
  {
    hide WHITESPACE, TrimStart, TrimEnd, Blank;
    before := TrimStartParts(s);
    after := TrimEndParts(TrimStart(s, WHITESPACE));
  }

  lemma TrimmedEnds(s: string)
    ensures var t := Trim(s, WHITESPACE); t != "" ==> t[0] !in WHITESPACE && t[|t| - 1] !in WHITESPACE
  {
    hide WHITESPACE, TrimStart, TrimEnd;
    TrimStartSpec(s, WHITESPACE);
    TrimEndSpec(TrimStart(s, WHITESPACE), WHITESPACE);
  }

  lemma SignAndDigits(n: string) returns (sign: string, digits: string)
    requires ParseU64(n).Some?
    ensures n == sign + digits && sign in {"", "+"} && digits != "" && AllDigits(digits)
  {
    hide Decimal;
    sign, digits := if n[0] == '+' then "+" else "", if n[0] == '+' then n[1..] else n;
  }

  /** The number and the unit the parser cuts a trimmed text into. */
  lemma NumberAndUnit(core: string) returns (num: string, unit: string)
    requires core != "" && core[0] !in WHITESPACE && core[|core| - 1] !in WHITESPACE
    ensures core == num + unit && unit in {"", "h", "m", "s"}
    ensures num == if IsUnit(core[|core| - 1]) then core[..|core| - 1] else core
    ensures num != "" ==> num[0] !in WHITESPACE
    ensures unit == "" ==> num != "" && num[|num| - 1] !in WHITESPACE
  {
    hide WHITESPACE;
    var last := core[|core| - 1];
    num, unit := if IsUnit(last) then core[..|core| - 1] else core, if IsUnit(last) then [last] else "";
  }

  /** Nothing else parses: every accepted text is a spelled duration. */
  lemma ParsedIsSpelled(text: string) returns (sp: Spelling)
    requires ParseGoDuration(text).Some?
    ensures sp.Valid() && sp.Text() == text
  {
    hide WHITESPACE, Trim, ParseU64, AllDigits;
    var before, after := TrimParts(text);
    var core := Trim(text, WHITESPACE);
    TrimmedEnds(text);
    var num, unit := NumberAndUnit(core);
    EmptyNumber();
    var lead, gap := TrimParts(num);
    if unit == "" {
      TrimGap(num, "");
      assert num + "" == num;
    }
    var sign, digits := SignAndDigits(Trim(num, WHITESPACE));
    sp := Spelling(before, sign, digits, gap, unit, after);
    assert num == sign + digits + gap by { assert lead == ""; }
    assert sp.Core() == core;
  }

  lemma EmptyNumber()
    ensures ParseU64(Trim("", WHITESPACE)) == None
  {
  }

  /** Parsing a rendered duration gives it back, for every 64-bit second count. */
  lemma RenderParsesBack(secs: nat)
    requires secs <= U64_MAX
    ensures ParseGoDuration(RenderGoDuration(secs)) == Some(secs)
  {
    hide ParseGoDuration, Show, Decimal;
    var (n, unit) := if secs != 0 && secs % 3600 == 0 then (secs / 3600, 'h')
                     else if secs != 0 && secs % 60 == 0 then (secs / 60, 'm') else (secs, 's');
    assert n * UnitOf(unit) == secs && RenderGoDuration(secs) == Show(n) + [unit];
    ShownParses(n, unit);
  }

  lemma ShownParses(n: nat, unit: char)
    requires IsUnit(unit) && n * UnitOf(unit) <= U64_MAX && n <= U64_MAX
    ensures ParseGoDuration(Show(n) + [unit]) == Some(n * UnitOf(unit))
  {
    hide ParseGoDuration, Show, Decimal;
    DecimalShow(n);
    var sp := Spelling("", "", Show(n), "", [unit], "");
    assert sp.Valid();
    SpelledParses(sp);
    assert sp.Text() == Show(n) + [unit];
  }

  /** Rendering always carries a unit, and the largest one that divides the duration exactly. */
  lemma RenderPicksTheLargestUnit(secs: nat)
    ensures var r := RenderGoDuration(secs);
            && r != "" && IsUnit(r[|r| - 1]) && AllDigits(r[..|r| - 1])
            && Decimal(r[..|r| - 1]) * UnitOf(r[|r| - 1]) == secs
            && (secs != 0 && secs % 60 == 0 ==> r[|r| - 1] != 's')
            && (secs != 0 && secs % 3600 == 0 ==> r[|r| - 1] == 'h')
            && (secs == 0 ==> r == "0s")
  {
    var (n, unit) := if secs != 0 && secs % 3600 == 0 then (secs / 3600, 'h')
                     else if secs != 0 && secs % 60 == 0 then (secs / 60, 'm') else (secs, 's');
    DecimalShow(n);
    var r := RenderGoDuration(secs);
    assert r == Show(n) + [unit];
    assert r[..|r| - 1] == Show(n);
  }

  /** Only a parsed zero means no deadline; the default counts exactly when the setting is absent or does not parse,
      and is then the answer; a rendered duration resolves to itself. */
  lemma TimeoutSemantics(spec: Option<string>, default: nat, secs: nat)
    requires secs <= U64_MAX
    ensures ResolveTimeout(spec, default).None? <==> spec.Some? && ParseGoDuration(spec.value) == Some(0)
    ensures (forall d: nat :: ResolveTimeout(spec, d) == ResolveTimeout(spec, default))
            <==> spec.Some? && ParseGoDuration(spec.value).Some?
    ensures spec.None? || ParseGoDuration(spec.value).None? ==> ResolveTimeout(spec, default) == Some(default)
    ensures ResolveTimeout(Some(RenderGoDuration(secs)), default) == if secs == 0 then None else Some(secs)
  {
    hide ParseGoDuration, RenderGoDuration;
    RenderParsesBack(secs);
    assert ResolveTimeout(None, default + 1) == Some(default + 1);
    assert spec.None? || ParseGoDuration(spec.value).None? ==> ResolveTimeout(spec, default + 1) == Some(default + 1);
  }

  /** A bare number counts seconds, as the same number with `s` does, and rendering never pads a number. */
  lemma BareNumbersAreSeconds(n: nat)
    requires n <= U64_MAX
    ensures ParseGoDuration(Show(n)) == ParseGoDuration(Show(n) + "s") == Some(n)
    ensures RenderGoDuration(n)[0] == '0' ==> n == 0
  {
    hide ParseGoDuration, Show, Decimal;
    ShownParses(n, 's');
    DecimalShow(n);
    var sp := Spelling("", "", Show(n), "", "", "");
    assert sp.Valid() && sp.Text() == Show(n);
    SpelledParses(sp);
    ShowIsCanonical(n);
    ShowIsCanonical(n / 60);
    ShowIsCanonical(n / 3600);
  }
}
