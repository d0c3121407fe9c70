/** Showing a CEL error against the source the user wrote instead of the rewrite that was parsed. */
module CelErrors {
  import opened Text
  import opened CelAlias
  import opened CelAliasFacts

  const HEADER: string := "ERROR: <input>:"
  const QUOTE: string := "| "

  function StripPrefix(s: string, prefix: string): Option<string> {
    if prefix <= s then Some(s[|prefix|..]) else None
  }

  function StripCr(s: string): string {
    if s != "" && s[|s| - 1] == '\r' then s[..|s| - 1] else s
  }

  /** `str::lines`: no line after a final newline, and `\r\n` ends a line like `\n` does. */
  function Lines(s: string): seq<string>
    decreases |s|
  {
    if s == "" then []
    else
      var e := FirstIndex(s, '\n');
      if e == |s| then [s] else [StripCr(s[..e])] + Lines(s[e + 1..])
  }

  /** The 1-based line number of an error header. */
  function ErrorLine(m: string): Option<nat> {
    match StripPrefix(m, HEADER)
    case None => None
    case Some(rest) => ParseU64(Split(rest, ':')[0])
  }

  /** The line number the message line `k` may quote: that of the header right before it. */
  function Announced(parts: seq<string>, k: nat): Option<nat>
    requires k <= |parts|
  {
    if k == 0 then None else ErrorLine(parts[k - 1])
  }

  /** Message line `k` quotes line `n` of the rewritten source. */
  predicate Quotes(parts: seq<string>, k: nat, aliased: seq<string>, n: nat)
    requires k < |parts|
  {
    Announced(parts, k) == Some(n) && 1 <= n <= |aliased| && parts[k] == QUOTE + aliased[n - 1]
  }

  function RestoredLine(parts: seq<string>, k: nat, original: seq<string>, aliased: seq<string>): string
    requires k < |parts|
  {
    match (ErrorLine(parts[k]), StripPrefix(parts[k], QUOTE), Announced(parts, k))
    case (None, Some(quoted), Some(n)) =>
      if 1 <= n <= |aliased| && aliased[n - 1] == quoted && n <= |original| then QUOTE + original[n - 1] else parts[k]
    case _ => parts[k]
  }

  function RestoredLines(message: string, original: string, aliased: string): (r: seq<string>)
    ensures |r| == |Split(message, '\n')|
  {
    var parts := Split(message, '\n');
    seq(|parts|, k requires 0 <= k < |parts| => RestoredLine(parts, k, Lines(original), Lines(aliased)))
  }

  method RestoreSource(message: string, original: string, aliased: string) returns (r: string)
    ensures r == Join(RestoredLines(message, original, aliased), '\n')
  {
    hide Lines, Split, ErrorLine, Join;
    var o, a := Lines(original), Lines(aliased);
    var parts := Split(message, '\n');
    var out: seq<string> := [];
    var line: Option<nat> := None;
    for k := 0 to |parts|
      invariant line == Announced(parts, k)
      invariant |out| == k && forall j :: 0 <= j < k ==> out[j] == RestoredLine(parts, j, o, a)
    {
      var shown;
      shown, line := ShowLine(parts, k, o, a, line);
      out := out + [shown];
    }
    assert out == RestoredLines(message, original, aliased);
    r := Join(out, '\n');
  }

  /** One step of the fold: the carried line number is consumed by the very next line, quoted or not. */
  method ShowLine(parts: seq<string>, k: nat, o: seq<string>, a: seq<string>, line: Option<nat>)
    returns (shown: string, next: Option<nat>)
    requires k < |parts| && line == Announced(parts, k)
    ensures shown == RestoredLine(parts, k, o, a) && next == Announced(parts, k + 1)
  {
    hide ErrorLine;
    var m := parts[k];
    shown, next := m, None;
    var n := ErrorLine(m);
    if n.Some? {
      next := n;
    } else {
      var quoted := StripPrefix(m, QUOTE);
      if quoted.Some? && line.Some? {
        var idx := line.value - 1;
        if 0 <= idx < |a| && a[idx] == quoted.value && idx < |o| {
          shown := QUOTE + o[idx];
        }
      }
    }
  }

  // --- lines of the rewrite and lines of the source ----------------------------------------

  lemma {:induction false} SimilarNewlines(a: string, b: string)
    requires Similar(a, b)
    ensures FirstIndex(a, '\n') == FirstIndex(b, '\n')
  {
    var e := FirstIndex(b, '\n');
    forall k | 0 <= k < e ensures a[..e][k] != '\n' {
      assert b[..e][k] == b[k] && b[k] in b[..e];
    }
    FirstIndexUnique(a, '\n', e);
  }

  lemma SimilarSlice(a: string, b: string, i: nat, j: nat)
    requires Similar(a, b) && i <= j <= |b|
    ensures Similar(a[i..j], b[i..j])
  {
    forall k | 0 <= k < j - i
      ensures a[i..j][k] == b[i..j][k] || (IsIdentStart(a[i..j][k]) && IsIdentStart(b[i..j][k]))
    {
      assert a[i..j][k] == a[i + k] && b[i..j][k] == b[i + k];
    }
  }

  lemma SimilarStripCr(a: string, b: string)
    requires Similar(a, b)
    ensures Similar(StripCr(a), StripCr(b))
  {
    if b != "" {
      SimilarSlice(a, b, 0, |b| - 1);
    }
  }

  lemma {:induction false} LinesLineUp(a: string, b: string, n: nat)
    requires Similar(a, b)
    ensures |Lines(a)| == |Lines(b)|
    ensures n < |Lines(b)| ==> Similar(Lines(a)[n], Lines(b)[n])
    decreases |b|
  {
    hide Lines, FirstIndex, StripCr;
    if b == "" {
      NothingHasNoLines();
    } else {
      var e := FirstIndex(b, '\n');
      SimilarNewlines(a, b);
      LinesOneStep(a, e);
      LinesOneStep(b, e);
      if e < |b| {
        SimilarSlice(a, b, 0, e);
        SimilarStripCr(a[..e], b[..e]);
        SimilarSlice(a, b, e + 1, |b|);
        hide Similar;
        assert a[0..e] == a[..e] && b[0..e] == b[..e] && a[e + 1..|b|] == a[e + 1..] && b[e + 1..|b|] == b[e + 1..];
        LinesLineUp(a[e + 1..], b[e + 1..], if n == 0 then 0 else n - 1);
      }
    }
  }

  lemma {:induction false} LinesOneStep(s: string, e: nat)
    requires s != "" && e == FirstIndex(s, '\n')
    ensures Lines(s) == if e == |s| then [s] else [StripCr(s[..e])] + Lines(s[e + 1..])
  {
    hide FirstIndex, StripCr;
  }

  lemma StripCrAddsNothing(s: string, c: char)
    requires c !in s
    ensures c !in StripCr(s)
  {
  }

  lemma {:induction false} FirstLineHasNoNewline(s: string)
    requires s != ""
    ensures Lines(s) != [] && '\n' !in Lines(s)[0]
    ensures var e := FirstIndex(s, '\n'); Lines(s)[1..] == if e == |s| then [] else Lines(s[e + 1..])
  {
    hide Lines, FirstIndex, StripCr;
    var e := FirstIndex(s, '\n');
    LinesOneStep(s, e);
    if e == |s| {
      assert s[..e] == s;
    } else {
      StripCrAddsNothing(s[..e], '\n');
    }
  }

  lemma NothingHasNoLines()
    ensures Lines("") == []
  {
  }

  lemma {:induction false} LinesHaveNoNewline(s: string, n: nat)
    requires n < |Lines(s)|
    ensures '\n' !in Lines(s)[n]
    decreases |s|
  {
    hide Lines, FirstIndex;
    NothingHasNoLines();
    FirstLineHasNoNewline(s);
    if n > 0 {
      var e := FirstIndex(s, '\n');
      assert Lines(s)[n] == Lines(s)[1..][n - 1];
      LinesHaveNoNewline(s[e + 1..], n - 1);
    }
  }

  lemma QuotedIsNoHeader(text: string)
    ensures ErrorLine(QUOTE + text).None? && StripPrefix(QUOTE + text, QUOTE) == Some(text)
  {
    assert (QUOTE + text)[0] == '|' && HEADER[0] == 'E';
    assert (QUOTE + text)[2..] == text;
  }

  lemma RestoredLineIsOneLine(message: string, expr: string, aliased: string, k: nat)
    requires k < |Split(message, '\n')|
    ensures '\n' !in RestoredLines(message, expr, aliased)[k]
  {
    var parts := Split(message, '\n');
    assert parts[k] in parts;
    var n := Announced(parts, k);
    if n.Some? && 1 <= n.value <= |Lines(expr)| {
      LinesHaveNoNewline(expr, n.value - 1);
    }
  }

  lemma UnquotedIsUnchanged(parts: seq<string>, k: nat, original: seq<string>, aliased: seq<string>)
    requires k < |parts| && !exists n: nat :: Quotes(parts, k, aliased, n)
    ensures RestoredLine(parts, k, original, aliased) == parts[k]
  {
    hide ErrorLine;
    var n, quoted := Announced(parts, k), StripPrefix(parts[k], QUOTE);
    assert n.Some? ==> !Quotes(parts, k, aliased, n.value);
    assert quoted.Some? ==> parts[k] == QUOTE + quoted.value;
  }

  /** A quoted line becomes the user's own line of that number, column for column. */
  lemma QuotedIsRestored(expr: string, parts: seq<string>, k: nat, n: nat)
    requires k < |parts| && Quotes(parts, k, Lines(Alias(expr)), n)
    ensures n <= |Lines(expr)|
    ensures RestoredLine(parts, k, Lines(expr), Lines(Alias(expr))) == QUOTE + Lines(expr)[n - 1]
    ensures |QUOTE + Lines(expr)[n - 1]| == |parts[k]|
  {
    hide ErrorLine, Lines, Alias;
    AliasLinesUp(expr);
    LinesLineUp(Alias(expr), expr, n - 1);
    QuotedIsNoHeader(Lines(Alias(expr))[n - 1]);
  }

  lemma AliasLinesUp(expr: string)
    ensures Similar(Alias(expr), expr)
  {
    AliasIsLockstep(expr, 0, false);
    assert expr[0..] == expr;
  }

  /** The restored message splits back into exactly as many lines. */
  lemma RestoredSplitsBack(message: string, expr: string)
    ensures Split(Join(RestoredLines(message, expr, Alias(expr)), '\n'), '\n')
            == RestoredLines(message, expr, Alias(expr))
  {
    hide RestoredLines, Alias;
    var out := RestoredLines(message, expr, Alias(expr));
    forall p | p in out ensures '\n' !in p {
      var j :| 0 <= j < |out| && out[j] == p;
      RestoredLineIsOneLine(message, expr, Alias(expr), j);
    }
    SplitJoin(out, '\n');
  }

  /** The restored message: whatever the message, it has the same lines, and a line changes only if it quotes, right
      after a header, exactly the rewritten line the header announces; it then quotes the user's own line of the same
      number, column for column. */
  lemma RestoreShowsTheUsersSource(expr: string, message: string, k: nat)
    requires k < |Split(message, '\n')|
    ensures var restored := Split(Join(RestoredLines(message, expr, Alias(expr)), '\n'), '\n');
            var parts := Split(message, '\n');
            && |restored| == |parts|
            && if exists n: nat :: Quotes(parts, k, Lines(Alias(expr)), n) then
                 exists n: nat :: Quotes(parts, k, Lines(Alias(expr)), n) && n <= |Lines(expr)|
                                  && restored[k] == QUOTE + Lines(expr)[n - 1] && |restored[k]| == |parts[k]|
               else restored[k] == parts[k]
  {
    hide RestoredLine, Lines, Alias, Split, Join;
    RestoredSplitsBack(message, expr);
    var parts := Split(message, '\n');
    if exists n: nat :: Quotes(parts, k, Lines(Alias(expr)), n) {
      var n: nat :| Quotes(parts, k, Lines(Alias(expr)), n);
      QuotedIsRestored(expr, parts, k, n);
    } else {
      UnquotedIsUnchanged(parts, k, Lines(expr), Lines(Alias(expr)));
    }
  }

  /** How `cel` heads an error at line `n`, column `col`. */
  function Header(n: nat, col: nat, text: string): string {
    "ERROR: <input>:" + Show(n) + ":" + Show(col) + ": " + text
  }

  lemma HeaderAnnouncesItsLine(n: nat, col: nat, text: string)
    requires n <= U64_MAX
    ensures ErrorLine(Header(n, col, text)) == Some(n)
  {
    hide Split, Show, Decimal;
    var rest := Show(n) + [':'] + (Show(col) + ": " + text);
    assert Header(n, col, text) == HEADER + rest;
    assert (HEADER + rest)[|HEADER|..] == rest;
    DigitsHaveNoColon(Show(n));
    SplitCons(Show(n), Show(col) + ": " + text, ':');
    DecimalShow(n);
    PlainNumberParses(Show(n));
  }

  lemma DigitsHaveNoColon(s: string)
    requires AllDigits(s)
    ensures ':' !in s && '+' !in s
  {
  }

  lemma PlainNumberParses(s: string)
    requires s != "" && AllDigits(s) && Decimal(s) <= U64_MAX
    ensures ParseU64(s) == Some(Decimal(s))
  {
    hide Decimal;
    assert IsDigit(s[0]) && !IsDigit('+');
  }

  /** Line `n` of the rewrite; it has as many lines as the source. */
  function RewrittenLine(expr: string, n: nat): string
    requires 1 <= n <= |Lines(expr)|
  {
    AliasLinesUp(expr);
    LinesLineUp(Alias(expr), expr, n - 1);
    Lines(Alias(expr))[n - 1]
  }

  /** An error block is shown against the user's own source: in any message where a header for line `n` is followed by
      the quote of that line of the rewrite, the header stays and the quote is of the line the user wrote. */
  lemma ErrorBlockIsRestored(expr: string, message: string, k: nat, n: nat, col: nat, text: string)
    requires 1 <= n <= |Lines(expr)| && n <= U64_MAX && k + 1 < |Split(message, '\n')|
    requires Split(message, '\n')[k] == Header(n, col, text)
             && Split(message, '\n')[k + 1] == "| " + RewrittenLine(expr, n)
    ensures var restored := Split(Join(RestoredLines(message, expr, Alias(expr)), '\n'), '\n');
            && |restored| == |Split(message, '\n')|
            && restored[k] == Header(n, col, text) && restored[k + 1] == "| " + Lines(expr)[n - 1]
  {
    hide Lines, Alias, Split, Join, ErrorLine, Header;
    var parts := Split(message, '\n');
    HeaderAnnouncesItsLine(n, col, text);
    AliasLinesUp(expr);
    LinesLineUp(Alias(expr), expr, n - 1);
    assert Quotes(parts, k + 1, Lines(Alias(expr)), n);
    QuotedIsRestored(expr, parts, k + 1, n);
    RestoredSplitsBack(message, expr);
    assert RestoredLine(parts, k, Lines(expr), Lines(Alias(expr))) == parts[k];
  }

  /** Lines, each ended the same way. */
  function Ended(ls: seq<string>, eol: string): string {
    if ls == [] then "" else ls[0] + eol + Ended(ls[1..], eol)
  }

  /** One ended line in front of any text. */
  lemma EndedLine(l: string, crlf: bool, tail: string)
    requires '\n' !in l && (l != "" ==> l[|l| - 1] != '\r')
    ensures Lines(l + (if crlf then "\r\n" else "\n") + tail) == [l] + Lines(tail)
  {
    hide Lines, FirstIndex, StripCr;
    var head := if crlf then l + "\r" else l;
    var s := head + ['\n'] + tail;
    assert '\n' !in head;
    Framing(head, tail, '\n');
    LinesOneStep(s, |head|);
    StripsItsCr(l, crlf);
    assert "\r" + ['\n'] == "\r\n";
    assert s == l + (if crlf then "\r\n" else "\n") + tail;
  }

  /** Splitting undoes ending the lines, whichever of the two line endings is used. */
  lemma {:induction false} LinesOfEnded(ls: seq<string>, crlf: bool)
    requires forall l :: l in ls ==> '\n' !in l && (l != "" ==> l[|l| - 1] != '\r')
    ensures Lines(Ended(ls, if crlf then "\r\n" else "\n")) == ls
    decreases |ls|
  {
    hide Lines;
    if ls == [] {
      NothingHasNoLines();
    } else {
      assert ls[0] in ls && forall m :: m in ls[1..] ==> m in ls;
      LinesOfEnded(ls[1..], crlf);
      EndedLine(ls[0], crlf, Ended(ls[1..], if crlf then "\r\n" else "\n"));
      assert ls == [ls[0]] + ls[1..];
    }
  }

  lemma StripsItsCr(l: string, crlf: bool)
    requires l != "" ==> l[|l| - 1] != '\r'
    ensures StripCr(if crlf then l + "\r" else l) == l
  {
    assert (l + "\r")[..|l|] == l;
  }
}
