/** The lexer that renames one CEL variable without moving any column. A string is the sequence of its UTF-8
    bytes, one `char` per byte. */
module CelAlias {
  import opened Text
  import opened Utf8

  const NAMESPACE: string := "namespace"
  const ALIAS: string := "__nsvar__"

  // --- characters ------------------------------------------------------------------------

  predicate IsAlpha(c: char) { 'a' <= c <= 'z' || 'A' <= c <= 'Z' }

  predicate IsIdentStart(c: char) { IsAlpha(c) || c == '_' }

  predicate IsIdentChar(c: char) { IsIdentStart(c) || IsDigit(c) }

  predicate IsQuote(c: char) { c == '"' || c == '\'' }

  // --- tokens ---------------------------------------------------------------------------------

  datatype Kind = Comment | Str | Variable | Ident | Number | Punct(blank: bool)

  /** The bytes `start..end`; `Variable` is a bare `namespace`. */
  datatype Token = Token(kind: Kind, start: nat, end: nat)

  function LineEnd(b: string, i: nat): (e: nat)
    requires i <= |b|
    ensures i <= e <= |b|
    ensures forall k :: i <= k < e ==> b[k] != '\n'
    ensures e < |b| ==> b[e] == '\n'
    decreases |b| - i
  {
    if i == |b| || b[i] == '\n' then i else LineEnd(b, i + 1)
  }

  function IdentEnd(b: string, i: nat): (e: nat)
    requires i <= |b|
    ensures i <= e <= |b|
    ensures forall k :: i <= k < e ==> IsIdentChar(b[k])
    ensures e < |b| ==> !IsIdentChar(b[e])
    decreases |b| - i
  {
    if i == |b| || !IsIdentChar(b[i]) then i else IdentEnd(b, i + 1)
  }

  predicate TripleAt(b: string, i: nat, q: char) {
    i + 2 < |b| && b[i] == q && b[i + 1] == q && b[i + 2] == q
  }

  /** Where the scan that reached `i` inside a literal ends. */
  function ScanString(b: string, q: char, triple: bool, raw: bool, i: nat): (e: nat)
    ensures e <= |b|
    ensures i < |b| ==> i < e
    decreases |b| + 2 - i
  {
    if i >= |b| then |b|
    else if b[i] == '\\' && !raw then ScanString(b, q, triple, raw, i + 2)
    else if triple then if TripleAt(b, i, q) then i + 3 else ScanString(b, q, triple, raw, i + 1)
    else if b[i] == q then i + 1
    else ScanString(b, q, triple, raw, i + 1)
  }

  /** First byte of the literal's body. */
  function BodyStart(b: string, open: nat): nat
    requires open < |b|
  {
    open + if TripleAt(b, open, b[open]) then 3 else 1
  }

  function StringEnd(b: string, open: nat, raw: bool): (e: nat)
    requires open < |b|
    ensures open < e <= |b|
  {
    ScanString(b, b[open], TripleAt(b, open, b[open]), raw, BodyStart(b, open))
  }

  method StringEndLoop(b: string, open: nat, raw: bool) returns (e: nat)
    requires open < |b|
    ensures e == StringEnd(b, open, raw)
  {
    var q := b[open];
    var triple := open + 2 < |b| && b[open + 1] == q && b[open + 2] == q;
    var i := open + if triple then 3 else 1;
    while i < |b|
      invariant ScanString(b, q, triple, raw, i) == StringEnd(b, open, raw)
      decreases |b| + 2 - i
    {
      if b[i] == '\\' && !raw {
        i := i + 2;
      } else if triple {
        if TripleAt(b, i, q) {
          return i + 3;
        }
        i := i + 1;
      } else if b[i] == q {
        return i + 1;
      } else {
        i := i + 1;
      }
    }
    e := |b|;
  }

  predicate IsStringPrefix(w: string) {
    |w| <= 2 && forall k :: 0 <= k < |w| ==> w[k] in "rRbB"
  }

  predicate IsRawPrefix(w: string) {
    exists k :: 0 <= k < |w| && (w[k] == 'r' || w[k] == 'R')
  }

  /** The token at `i`; `afterDot` says the last significant token was a dot. */
  function TokenAt(b: string, i: nat, afterDot: bool): (t: Token)
    requires i < |b|
    ensures t.start == i < t.end <= |b|
  {
    var c := b[i];
    if c == '/' && i + 1 < |b| && b[i + 1] == '/' then Token(Comment, i, LineEnd(b, i + 1))
    else if IsQuote(c) then Token(Str, i, StringEnd(b, i, false))
    else if IsIdentStart(c) then
      var e := IdentEnd(b, i);
      var w := b[i..e];
      if IsStringPrefix(w) && e < |b| && IsQuote(b[e]) then Token(Str, i, StringEnd(b, e, IsRawPrefix(w)))
      else if w == NAMESPACE && !afterDot then Token(Variable, i, e)
      else Token(Ident, i, e)
    else if IsDigit(c) then Token(Number, i, IdentEnd(b, i))
    else Token(Punct(IsWhitespace(CodePoint(b, i))), i, i + CharLength(b, i))
  }

  /** Blanks and comments keep the dot; every other token replaces it. */
  function DotAfter(b: string, t: Token, afterDot: bool): bool
    requires t.start < |b|
  {
    if t.kind == Comment || t.kind == Punct(true) then afterDot else t.kind.Punct? && b[t.start] == '.'
  }

  function Lex(b: string, i: nat, afterDot: bool): seq<Token>
    requires i <= |b|
    decreases |b| - i
  {
    if i == |b| then []
    else
      var t := TokenAt(b, i, afterDot);
      [t] + Lex(b, t.end, DotAfter(b, t, afterDot))
  }

  function Rewrite(b: string, t: Token): string
    requires t.start <= t.end <= |b|
  {
    if t.kind == Variable then ALIAS else b[t.start..t.end]
  }

  /** The rewritten text from `i` on. */
  function AliasFrom(b: string, i: nat, afterDot: bool): string
    requires i <= |b|
    decreases |b| - i
  {
    if i == |b| then ""
    else
      var t := TokenAt(b, i, afterDot);
      Rewrite(b, t) + AliasFrom(b, t.end, DotAfter(b, t, afterDot))
  }

  function Alias(b: string): string { AliasFrom(b, 0, false) }

  // --- the rewriting loop ---------------------------------------------------------------------

  /** Every token starts and ends on a character boundary, so no slice can panic. */
  lemma TokenEndsOnBoundary(b: string, i: nat, afterDot: bool)
    requires IsUtf8(b) && i < |b| && IsBoundary(b, i)
    ensures IsBoundary(b, TokenAt(b, i, afterDot).end)
  {
    hide IsUtf8, StringEnd, CodePoint, CharLength, IsWhitespace, IsStringPrefix, IsRawPrefix;
    var c := b[i];
    if IsIdentStart(c) {
      WordEndsOnBoundary(b, i);
      var e := IdentEnd(b, i);
      if e < |b| && IsQuote(b[e]) {
        StringEndsOnBoundary(b, e, IsRawPrefix(b[i..e]));
      }
    } else if IsQuote(c) {
      StringEndsOnBoundary(b, i, false);
    } else if IsDigit(c) {
      WordEndsOnBoundary(b, i);
    } else {
      CharThenBoundary(b, i);
    }
  }

  lemma WordEndsOnBoundary(b: string, i: nat)
    requires IsUtf8(b) && i < |b| && IsIdentChar(b[i])
    ensures i < IdentEnd(b, i) && IsBoundary(b, IdentEnd(b, i))
  {
    AsciiThenBoundary(b, IdentEnd(b, i) - 1);
  }

  lemma {:induction false} StringEndsOnQuote(b: string, q: char, triple: bool, raw: bool, i: nat)
    ensures var e := ScanString(b, q, triple, raw, i); e == |b| || (e > 0 && b[e - 1] == q)
    decreases |b| + 2 - i
  {
    if i < |b| {
      if b[i] == '\\' && !raw {
        StringEndsOnQuote(b, q, triple, raw, i + 2);
      } else {
        StringEndsOnQuote(b, q, triple, raw, i + 1);
      }
    }
  }

  lemma StringEndsOnBoundary(b: string, open: nat, raw: bool)
    requires IsUtf8(b) && open < |b| && IsQuote(b[open])
    ensures IsBoundary(b, StringEnd(b, open, raw))
  {
    StringEndsOnQuote(b, b[open], TripleAt(b, open, b[open]), raw, BodyStart(b, open));
    var e := StringEnd(b, open, raw);
    if e < |b| {
      AsciiThenBoundary(b, e - 1);
    }
  }

  method AliasNamespaceIdent(expr: string) returns (out: string)
    requires IsUtf8(expr)
    ensures out == Alias(expr)
  {
    hide AliasFrom, IsUtf8, IsBoundary, CodePoint, CharLength, IsWhitespace, StringEnd, IsStringPrefix, IsRawPrefix,
         LineEnd, IdentEnd;
    out := "";
    var i := 0;
    var afterDot := false;
    StartsOnBoundary(expr);
    assert out + AliasFrom(expr, 0, false) == Alias(expr);
    while i < |expr|
      invariant i <= |expr| && IsBoundary(expr, i)
      invariant out + AliasFrom(expr, i, afterDot) == Alias(expr)
    {
      ghost var from, dot := i, afterDot;
      ghost var before := out;
      TokenEndsOnBoundary(expr, i, afterDot);
      var c := expr[i];
      if c == '/' && i + 1 < |expr| && expr[i + 1] == '/' {
        var end := LineEnd(expr, i + 1);
        out := out + expr[i..end];
        i := end;
      } else if c == '"' || c == '\'' {
        var end := StringEndLoop(expr, i, false);
        out := out + expr[i..end];
        i := end;
        afterDot := false;
      } else if IsIdentStart(c) {
        var start := i;
        i := WordLoop(expr, start);
        var word := expr[start..i];
        if IsStringPrefix(word) && i < |expr| && IsQuote(expr[i]) {
          var end := StringEndLoop(expr, i, IsRawPrefix(word));
          out := out + expr[start..end];
          i := end;
        } else if word == NAMESPACE && !afterDot {
          out := out + ALIAS;
        } else {
          out := out + word;
        }
        afterDot := false;
      } else if IsDigit(c) {
        var start := i;
        i := WordLoop(expr, start);
        out := out + expr[start..i];
        afterDot := false;
      } else {
        var n := CharLength(expr, i);
        if !IsWhitespace(CodePoint(expr, i)) {
          afterDot := c == '.';
        }
        out := out + expr[i..i + n];
        i := i + n;
      }
      ghost var t := TokenAt(expr, from, dot);
      assert i == t.end && afterDot == DotAfter(expr, t, dot) && out == before + Rewrite(expr, t);
      AliasStep(expr, from, dot, before);
    }
    AliasEnds(expr, afterDot);
  }

  lemma StartsOnBoundary(b: string)
    ensures IsBoundary(b, 0)
  {
  }

  lemma AliasStep(b: string, i: nat, afterDot: bool, before: string)
    requires i < |b|
    ensures var t := TokenAt(b, i, afterDot);
            before + AliasFrom(b, i, afterDot) == before + Rewrite(b, t) + AliasFrom(b, t.end, DotAfter(b, t, afterDot))
  {
  }

  lemma AliasEnds(b: string, afterDot: bool)
    ensures AliasFrom(b, |b|, afterDot) == ""
  {
  }

  method WordLoop(b: string, start: nat) returns (i: nat)
    requires start <= |b|
    ensures i == IdentEnd(b, start)
  {
    i := start;
    while i < |b| && IsIdentChar(b[i])
      invariant start <= i <= |b|
      invariant IdentEnd(b, i) == IdentEnd(b, start)
    {
      i := i + 1;
    }
  }
}
