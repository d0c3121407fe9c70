/** The string operations of the Rust standard library that the decision kernels lean on:
    `str::split`, `[str]::join`, `trim_matches`, `trim_end_matches`, `str::parse` and integer formatting. */
module Text {

  datatype Option<+T> = None | Some(value: T) {
    /** `Option::or` */
    function Or(other: Option<T>): Option<T> {
      if Some? then this else other
    }

    function GetOr(default: T): T {
      if Some? then value else default
    }
  }

  datatype Result<+T, +E> = Ok(value: T) | Err(error: E)

  // --- splitting and joining -------------------------------------------------

  function FirstIndex(s: string, c: char): (i: nat)
    ensures i <= |s| && c !in s[..i]
    ensures i < |s| ==> s[i] == c
  {
    if s == "" then 0
    else if s[0] == c then 0
    else
      var n := FirstIndex(s[1..], c);
      assert s[..n + 1] == [s[0]] + s[1..][..n];
      n + 1
  }

  lemma FirstIndexUnique(s: string, c: char, i: nat)
    requires i <= |s| && c !in s[..i]
    requires i == |s| || s[i] == c
    ensures FirstIndex(s, c) == i
  {
  }

  /** `str::split(c)`: always at least one part. */
  function Split(s: string, c: char): (parts: seq<string>)
    ensures |parts| >= 1
    ensures forall p :: p in parts ==> c !in p
    decreases |s|
  {
    var i := FirstIndex(s, c);
    if i == |s| then [s[..i]] else [s[..i]] + Split(s[i + 1..], c)
  }

  /** `[str]::join` with a one-character separator. */
  function Join(parts: seq<string>, c: char): string {
    if |parts| == 0 then ""
    else if |parts| == 1 then parts[0]
    else parts[0] + [c] + Join(parts[1..], c)
  }

  lemma JoinOne(w: string, c: char)
    ensures Join([w], c) == w
  {
  }

  /** A separator that does not occur in what precedes it can be found again. */
  lemma Framing(x: string, y: string, c: char)
    requires c !in x
    ensures var s := x + [c] + y; FirstIndex(s, c) == |x| && s[..|x|] == x && s[|x| + 1..] == y
  {
    var s := x + [c] + y;
    assert s[..|x|] == x;
    FirstIndexUnique(s, c, |x|);
  }

  lemma JoinCons(w: string, parts: seq<string>, c: char)
    requires |parts| > 0
    ensures Join([w] + parts, c) == w + [c] + Join(parts, c)
  {
    assert ([w] + parts)[1..] == parts;
  }

  /** The text up to the first separator is the first part; what follows it splits on its own. */
  lemma SplitCons(w: string, rest: string, c: char)
    requires c !in w
    ensures Split(w + [c] + rest, c) == [w] + Split(rest, c)
  {
    var s := w + [c] + rest;
    assert s[..|w|] == w && s[|w|] == c && s[|w| + 1..] == rest;
    FirstIndexUnique(s, c, |w|);
  }

  lemma SplitOne(s: string, c: char)
    requires c !in s
    ensures Split(s, c) == [s]
  {
    assert s[..|s|] == s;
    FirstIndexUnique(s, c, |s|);
  }

  lemma {:induction false} JoinSplit(s: string, c: char)
    ensures Join(Split(s, c), c) == s
    decreases |s|
  {
    hide Split, FirstIndex;
    var i := FirstIndex(s, c);
    if i == |s| {
      assert s[..i] == s;
      SplitOne(s, c);
    } else {
      var w, rest := s[..i], s[i + 1..];
      assert s == w + [c] + rest;
      SplitCons(w, rest, c);
      JoinSplit(rest, c);
      hide Join;
      JoinCons(w, Split(rest, c), c);
    }
  }

  lemma {:induction false} SplitJoin(parts: seq<string>, c: char)
    requires |parts| >= 1
    requires forall p :: p in parts ==> c !in p
    ensures Split(Join(parts, c), c) == parts
  {
    hide Split, FirstIndex;
    if |parts| == 1 {
      SplitOne(parts[0], c);
    } else {
      SplitCons(parts[0], Join(parts[1..], c), c);
      SplitJoin(parts[1..], c);
      assert parts == [parts[0]] + parts[1..];
    }
  }

  lemma {:induction false} JoinAlphabet(parts: seq<string>, c: char, x: char)
    requires x != c && forall p :: p in parts ==> x !in p
    ensures x !in Join(parts, c)
  {
    if |parts| >= 2 {
      JoinAlphabet(parts[1..], c, x);
    }
  }

  // --- trimming --------------------------------------------------------------

  function TrimStart(s: string, cs: set<char>): string {
    if s != "" && s[0] in cs then TrimStart(s[1..], cs) else s
  }

  function TrimEnd(s: string, cs: set<char>): string {
    if s != "" && s[|s| - 1] in cs then TrimEnd(s[..|s| - 1], cs) else s
  }

  /** `trim_matches` */
  function Trim(s: string, cs: set<char>): string {
    TrimEnd(TrimStart(s, cs), cs)
  }

  /** The trimmed string is the longest prefix that does not end in a trimmed character. */
  lemma {:induction false} TrimEndSpec(s: string, cs: set<char>)
    ensures TrimEnd(s, cs) <= s
    ensures TrimEnd(s, cs) != "" ==> TrimEnd(s, cs)[|TrimEnd(s, cs)| - 1] !in cs
    ensures forall i :: |TrimEnd(s, cs)| <= i < |s| ==> s[i] in cs
  {
    if s != "" && s[|s| - 1] in cs {
      TrimEndSpec(s[..|s| - 1], cs);
    }
  }

  lemma {:induction false} TrimStartSpec(s: string, cs: set<char>)
    ensures |TrimStart(s, cs)| <= |s| && TrimStart(s, cs) == s[|s| - |TrimStart(s, cs)|..]
    ensures TrimStart(s, cs) != "" ==> TrimStart(s, cs)[0] !in cs
    ensures forall i :: 0 <= i < |s| - |TrimStart(s, cs)| ==> s[i] in cs
  {
    if s != "" && s[0] in cs {
      TrimStartSpec(s[1..], cs);
      forall i | 0 <= i < |s| - |TrimStart(s, cs)| ensures s[i] in cs {
        if i > 0 {
          assert s[i] == s[1..][i - 1];
        }
      }
    }
  }

  /** Trimming the front of a concatenation reaches the second part only when nothing is left of the first. */
  lemma {:induction false} TrimStartConcat(s: string, t: string, cs: set<char>)
    ensures TrimStart(s + t, cs) == if TrimStart(s, cs) != "" then TrimStart(s, cs) + t else TrimStart(t, cs)
  {
    if s == "" {
      assert s + t == t;
    } else if s[0] in cs {
      assert (s + t)[1..] == s[1..] + t;
      TrimStartConcat(s[1..], t, cs);
    }
  }

  /** Trimming the end of a concatenation reaches the first part only when nothing is left of the second. */
  lemma {:induction false} TrimEndConcat(p: string, t: string, cs: set<char>)
    ensures TrimEnd(p + t, cs) == if TrimEnd(t, cs) != "" then p + TrimEnd(t, cs) else TrimEnd(p, cs)
    decreases |t|
  {
    if t == "" {
      assert p + t == p;
    } else {
      var u := p + t;
      assert u[|u| - 1] == t[|t| - 1];
      if t[|t| - 1] in cs {
        assert u[..|u| - 1] == p + t[..|t| - 1];
        TrimEndConcat(p, t[..|t| - 1], cs);
      }
    }
  }

  function Letters(n: nat, c: char): (s: string)
    ensures |s| == n && forall i :: 0 <= i < n ==> s[i] == c
  {
    seq(n, _ => c)
  }

  // --- lexicographic order -----------------------------------------------------

  /** `str::cmp`: byte order of UTF-8 text is code point order. */
  predicate StrLess(a: string, b: string) {
    b != "" && (a == "" || a[0] < b[0] || (a[0] == b[0] && StrLess(a[1..], b[1..])))
  }

  /** Dictionary order spelled out: past a common prefix one text ends or has the smaller character. */
  ghost predicate Precedes(a: string, b: string) {
    exists k: nat :: k <= |a| && k < |b| && a[..k] == b[..k] && (k == |a| || a[k] < b[k])
  }

  lemma {:induction false} StrLessIsDictionaryOrder(a: string, b: string)
    ensures StrLess(a, b) <==> Precedes(a, b)
  {
    if StrLess(a, b) {
      if a == "" || a[0] < b[0] {
        assert a[..0] == b[..0];
      } else {
        StrLessIsDictionaryOrder(a[1..], b[1..]);
        var k: nat :| k <= |a[1..]| && k < |b[1..]| && a[1..][..k] == b[1..][..k]
            && (k == |a[1..]| || a[1..][k] < b[1..][k]);
        assert a[..k + 1] == [a[0]] + a[1..][..k] && b[..k + 1] == [b[0]] + b[1..][..k];
      }
    }
    if Precedes(a, b) {
      var k: nat :| k <= |a| && k < |b| && a[..k] == b[..k] && (k == |a| || a[k] < b[k]);
      if k > 0 {
        assert a[0] == a[..k][0] && b[0] == b[..k][0];
        assert a[1..][..k - 1] == a[..k][1..] && b[1..][..k - 1] == b[..k][1..];
        assert Precedes(a[1..], b[1..]);
        StrLessIsDictionaryOrder(a[1..], b[1..]);
      }
    }
  }

  lemma {:induction false} StrLessTotal(a: string, b: string)
    ensures a == b || StrLess(a, b) || StrLess(b, a)
  {
    if a != "" && b != "" && a[0] == b[0] {
      StrLessTotal(a[1..], b[1..]);
      assert a == [a[0]] + a[1..] && b == [b[0]] + b[1..];
    }
  }

  lemma {:induction false} StrLessTransitive(a: string, b: string, c: string)
    requires StrLess(a, b) && StrLess(b, c)
    ensures StrLess(a, c)
  {
    if a != "" && a[0] == b[0] == c[0] {
      StrLessTransitive(a[1..], b[1..], c[1..]);
    }
  }

  lemma {:induction false} StrLessIrreflexive(a: string)
    ensures !StrLess(a, a)
  {
    if a != "" {
      StrLessIrreflexive(a[1..]);
    }
  }

  // --- unsigned decimal numbers ------------------------------------------------

  const U64_MAX: nat := 0xFFFF_FFFF_FFFF_FFFF

  predicate IsDigit(c: char) { '0' <= c <= '9' }

  predicate AllDigits(s: string) { forall i :: 0 <= i < |s| ==> IsDigit(s[i]) }

  function DigitValue(c: char): nat
    requires IsDigit(c)
  {
    c as nat - '0' as nat
  }

  /** The number a digit string denotes, without any bound. */
  function Decimal(s: string): nat
    requires AllDigits(s)
  {
    if s == "" then 0 else 10 * Decimal(s[..|s| - 1]) + DigitValue(s[|s| - 1])
  }

  /** `str::parse::<u64>()`: an optional `+`, at least one digit, no overflow. */
  function ParseU64(s: string): Option<nat> {
    var d := if s != "" && s[0] == '+' then s[1..] else s;
    if d == "" || !AllDigits(d) || Decimal(d) > U64_MAX then None else Some(Decimal(d))
  }

  /** Decimal formatting of an unsigned integer. */
  function Show(n: nat): (s: string)
    ensures s != "" && AllDigits(s)
  {
    var last := ('0' as nat + n % 10) as char;
    if n < 10 then [last] else Show(n / 10) + [last]
  }

  /** No leading zero. */
  lemma {:induction false} ShowIsCanonical(n: nat)
    ensures Show(n)[0] == '0' ==> n == 0 && Show(n) == "0"
  {
    if n >= 10 {
      ShowIsCanonical(n / 10);
      assert Show(n)[0] == Show(n / 10)[0];
    }
  }

  lemma {:induction false} DecimalShow(n: nat)
    ensures Decimal(Show(n)) == n
  {
    var s := Show(n);
    if n < 10 {
      assert s[..|s| - 1] == "";
    } else {
      DecimalShow(n / 10);
      assert s[..|s| - 1] == Show(n / 10);
    }
  }
}
