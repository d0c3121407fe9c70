/** The rewrite is lockstep: same length, same lines, nothing touched but bare `namespace` identifiers, and
    rewriting twice is rewriting once. */
module CelAliasFacts {
  import opened Text
  import opened Utf8
  import opened CelAlias

  // --- lockstep ------------------------------------------------------------------------------

  lemma RewriteLength(b: string, t: Token)
    requires t.start <= t.end <= |b| && (t.kind == Variable ==> b[t.start..t.end] == NAMESPACE)
    ensures |Rewrite(b, t)| == t.end - t.start
  {
    if t.kind == Variable {
      assert |b[t.start..t.end]| == 9;
    }
  }

  lemma VariableText(b: string, i: nat, afterDot: bool)
    requires i < |b|
    ensures var t := TokenAt(b, i, afterDot); t.kind == Variable ==> b[t.start..t.end] == NAMESPACE && !afterDot
  {
  }

  lemma {:induction false} AliasLength(b: string, i: nat, afterDot: bool)
    requires i <= |b|
    ensures |AliasFrom(b, i, afterDot)| == |b| - i
    decreases |b| - i
  {
    if i < |b| {
      var t := TokenAt(b, i, afterDot);
      VariableText(b, i, afterDot);
      RewriteLength(b, t);
      AliasLength(b, t.end, DotAfter(b, t, afterDot));
    }
  }

  /** The tokens tile the text from `i` on. */
  lemma {:induction false} TokensTile(b: string, i: nat, afterDot: bool, n: nat)
    requires i <= |b| && n < |Lex(b, i, afterDot)|
    ensures var t := Lex(b, i, afterDot)[n];
            i <= t.start < t.end <= |b| && (t.kind == Variable ==> b[t.start..t.end] == NAMESPACE)
    ensures Lex(b, i, afterDot)[n].start == if n == 0 then i else Lex(b, i, afterDot)[n - 1].end
    ensures n + 1 == |Lex(b, i, afterDot)| ==> Lex(b, i, afterDot)[n].end == |b|
    decreases |b| - i
  {
    hide TokenAt, DotAfter;
    var t0 := TokenAt(b, i, afterDot);
    var d := DotAfter(b, t0, afterDot);
    VariableText(b, i, afterDot);
    var rest := Lex(b, t0.end, d);
    assert Lex(b, i, afterDot) == [t0] + rest;
    if n > 0 {
      TokensTile(b, t0.end, d, n - 1);
      assert Lex(b, i, afterDot)[n] == rest[n - 1];
    }
  }

  lemma NothingAtTheEnd(b: string, afterDot: bool)
    ensures Lex(b, |b|, afterDot) == []
  {
  }

  lemma Unroll(b: string, i: nat, afterDot: bool)
    requires i < |b|
    ensures var t := TokenAt(b, i, afterDot); var d := DotAfter(b, t, afterDot);
            && |Rewrite(b, t)| == t.end - i
            && AliasFrom(b, i, afterDot) == Rewrite(b, t) + AliasFrom(b, t.end, d)
            && Lex(b, i, afterDot) == [t] + Lex(b, t.end, d)
  {
    VariableText(b, i, afterDot);
    RewriteLength(b, TokenAt(b, i, afterDot));
  }

  lemma SliceOfTail(a: string, head: string, tail: string, x: nat, y: nat)
    requires a == head + tail && x <= y <= |tail|
    ensures a[|head| + x..|head| + y] == tail[x..y]
  {
  }

  lemma SliceOfHead(a: string, head: string, tail: string)
    requires a == head + tail
    ensures a[0..|head|] == head
  {
  }

  /** Each token is rewritten in place. */
  lemma {:induction false} TokenRewritten(b: string, i: nat, afterDot: bool, n: nat)
    requires i <= |b| && n < |Lex(b, i, afterDot)|
    ensures var t := Lex(b, i, afterDot)[n];
            && i <= t.start < t.end <= |b| && |AliasFrom(b, i, afterDot)| == |b| - i
            && AliasFrom(b, i, afterDot)[t.start - i..t.end - i] == Rewrite(b, t)
    decreases |b| - i
  {
    hide TokenAt, DotAfter, Rewrite, Lex, AliasFrom;
    NothingAtTheEnd(b, afterDot);
    TokensTile(b, i, afterDot, n);
    AliasLength(b, i, afterDot);
    Unroll(b, i, afterDot);
    var t0 := TokenAt(b, i, afterDot);
    var d := DotAfter(b, t0, afterDot);
    var tail := AliasFrom(b, t0.end, d);
    if n == 0 {
      SliceOfHead(AliasFrom(b, i, afterDot), Rewrite(b, t0), tail);
    } else {
      TokenRewritten(b, t0.end, d, n - 1);
      var t := Lex(b, t0.end, d)[n - 1];
      SliceOfTail(AliasFrom(b, i, afterDot), Rewrite(b, t0), tail, t.start - t0.end, t.end - t0.end);
    }
  }

  /** Two texts that differ only where both have an identifier letter. */
  predicate Similar(a: string, b: string) {
    |a| == |b| && forall k :: 0 <= k < |b| ==> a[k] == b[k] || (IsIdentStart(a[k]) && IsIdentStart(b[k]))
  }

  /** The alias lines up with the text: same length, and every changed byte is an identifier letter for an
      identifier letter, so newlines, quotes and every other delimiter stay where they are. */
  lemma {:induction false} AliasIsLockstep(b: string, i: nat, afterDot: bool)
    requires i <= |b|
    ensures Similar(AliasFrom(b, i, afterDot), b[i..])
    decreases |b| - i
  {
    if i < |b| {
      var t := TokenAt(b, i, afterDot);
      VariableText(b, i, afterDot);
      RewriteLength(b, t);
      var d := DotAfter(b, t, afterDot);
      AliasIsLockstep(b, t.end, d);
      var r, rest := Rewrite(b, t), AliasFrom(b, t.end, d);
      assert b[i..] == b[i..t.end] + b[t.end..];
      SimilarConcat(r, rest, b[i..t.end], b[t.end..]);
    }
  }

  lemma SimilarConcat(a1: string, a2: string, b1: string, b2: string)
    requires |a1| == |b1| && (a1 == b1 || (a1 == ALIAS && b1 == NAMESPACE)) && Similar(a2, b2)
    ensures Similar(a1 + a2, b1 + b2)
  {
    var a, b := a1 + a2, b1 + b2;
    forall k | 0 <= k < |b| ensures a[k] == b[k] || (IsIdentStart(a[k]) && IsIdentStart(b[k])) {
      if k >= |b1| {
        assert a[k] == a2[k - |b1|] && b[k] == b2[k - |b1|];
      }
    }
  }

  /** Newlines and carriage returns are exactly where they were. */
  lemma LinesStay(b: string)
    ensures |Alias(b)| == |b|
    ensures forall k :: 0 <= k < |b|
                        ==> (Alias(b)[k] == '\n' <==> b[k] == '\n') && (Alias(b)[k] == '\r' <==> b[k] == '\r')
  {
    AliasIsLockstep(b, 0, false);
    assert b[0..] == b;
  }

  /** A byte changes only inside a `Variable` token: never in a literal, a comment, a number or another identifier. */
  lemma OnlyVariablesChange(b: string, n: nat)
    requires n < |Lex(b, 0, false)|
    ensures var t := Lex(b, 0, false)[n];
            && t.start < t.end <= |b| == |Alias(b)|
            && (t.kind != Variable ==> Alias(b)[t.start..t.end] == b[t.start..t.end])
            && (t.kind == Variable ==> b[t.start..t.end] == NAMESPACE && Alias(b)[t.start..t.end] == ALIAS)
  {
    hide TokenAt, AliasFrom, Lex;
    TokensTile(b, 0, false, n);
    TokenRewritten(b, 0, false, n);
    var t := Lex(b, 0, false)[n];
    assert Alias(b)[t.start..t.end] == Rewrite(b, t);
  }

  // --- which identifiers are variables ------------------------------------------------------------

  /** The last token before position `n` that is neither blank nor comment is a dot. */
  predicate DotBefore(b: string, ts: seq<Token>, n: nat, initially: bool)
    requires n <= |ts| && forall k :: 0 <= k < |ts| ==> ts[k].start < |b|
  {
    if n == 0 then initially
    else
      var t := ts[n - 1];
      if t.kind == Comment || t.kind == Punct(true) then DotBefore(b, ts, n - 1, initially)
      else t.kind.Punct? && b[t.start] == '.'
  }

  lemma {:induction false} DotBeforeTail(b: string, ts: seq<Token>, n: nat, initially: bool)
    requires 1 <= n <= |ts| && forall k :: 0 <= k < |ts| ==> ts[k].start < |b|
    ensures DotBefore(b, ts, n, initially) == DotBefore(b, ts[1..], n - 1, DotAfter(b, ts[0], initially))
    decreases n
  {
    if n > 1 {
      DotBeforeTail(b, ts, n - 1, initially);
    }
  }

  lemma {:induction false} TokensInRange(b: string, i: nat, afterDot: bool)
    requires i <= |b|
    ensures forall k :: 0 <= k < |Lex(b, i, afterDot)| ==> Lex(b, i, afterDot)[k].start < |b|
  {
    forall k | 0 <= k < |Lex(b, i, afterDot)| ensures Lex(b, i, afterDot)[k].start < |b| {
      TokensTile(b, i, afterDot, k);
    }
  }

  /** A token is rewritten exactly when it is an identifier spelled `namespace` whose last significant predecessor
      is not a dot. */
  lemma {:induction false} VariableIffNotSelected(b: string, i: nat, afterDot: bool, n: nat)
    requires i <= |b| && n < |Lex(b, i, afterDot)|
    ensures forall k :: 0 <= k < |Lex(b, i, afterDot)| ==> Lex(b, i, afterDot)[k].start < |b|
    ensures var t := Lex(b, i, afterDot)[n];
            && t.start < t.end <= |b|
            && (t.kind == Variable
                <==> (t.kind == Variable || t.kind == Ident) && b[t.start..t.end] == NAMESPACE
                     && !DotBefore(b, Lex(b, i, afterDot), n, afterDot))
    decreases |b| - i
  {
    TokensInRange(b, i, afterDot);
    TokensTile(b, i, afterDot, n);
    var ts := Lex(b, i, afterDot);
    var t0 := TokenAt(b, i, afterDot);
    VariableText(b, i, afterDot);
    if n > 0 {
      var d := DotAfter(b, t0, afterDot);
      assert ts[1..] == Lex(b, t0.end, d);
      VariableIffNotSelected(b, t0.end, d, n - 1);
      DotBeforeTail(b, ts, n, afterDot);
    }
  }

  // --- string literals --------------------------------------------------------------------------------

  /** Byte `k` of a literal body starting at `from` is escaped: an unescaped backslash precedes it. */
  predicate Escaped(b: string, from: nat, k: nat)
    requires k <= |b|
  {
    k > from && b[k - 1] == '\\' && !Escaped(b, from, k - 1)
  }

  /** An unescaped closing delimiter at `k`. */
  predicate Closes(b: string, q: char, triple: bool, raw: bool, from: nat, k: nat) {
    && from <= k < |b| && (raw || !Escaped(b, from, k))
    && (if triple then TripleAt(b, k, q) else b[k] == q)
  }

  lemma {:induction false} ScanFindsFirst(b: string, q: char, triple: bool, raw: bool, from: nat, i: nat)
    requires q != '\\' && from <= i && (i < |b| && !raw ==> !Escaped(b, from, i))
    requires forall k :: from <= k < i && k < |b| ==> !Closes(b, q, triple, raw, from, k)
    ensures var e := ScanString(b, q, triple, raw, i);
            || (e == |b| && forall k :: from <= k < |b| ==> !Closes(b, q, triple, raw, from, k))
            || (exists k: nat :: Closes(b, q, triple, raw, from, k) && e == k + (if triple then 3 else 1)
                            && forall j :: from <= j < k ==> !Closes(b, q, triple, raw, from, j))
    decreases |b| + 2 - i
  {
    if i < |b| {
      if b[i] == '\\' && !raw {
        assert i + 1 < |b| ==> Escaped(b, from, i + 1);
        ScanFindsFirst(b, q, triple, raw, from, i + 2);
      } else if Closes(b, q, triple, raw, from, i) {
      } else {
        ScanFindsFirst(b, q, triple, raw, from, i + 1);
      }
    }
  }

  /** A literal ends right after its first unescaped closing delimiter, or at the end of the text if there is none. */
  lemma StringEndIsFirstClose(b: string, open: nat, raw: bool)
    requires open < |b| && IsQuote(b[open])
    ensures var q := b[open]; var triple := TripleAt(b, open, q); var from := BodyStart(b, open);
            var e := StringEnd(b, open, raw);
            || (e == |b| && forall k :: from <= k < |b| ==> !Closes(b, q, triple, raw, from, k))
            || (exists k: nat :: Closes(b, q, triple, raw, from, k) && e == k + (if triple then 3 else 1)
                            && forall j :: from <= j < k ==> !Closes(b, q, triple, raw, from, j))
  {
    ScanFindsFirst(b, b[open], TripleAt(b, open, b[open]), raw, BodyStart(b, open), BodyStart(b, open));
  }

  // --- rewriting twice ------------------------------------------------------------------------------------

  lemma {:induction false} SimilarLineEnd(a: string, b: string, i: nat)
    requires Similar(a, b) && i <= |b|
    ensures LineEnd(a, i) == LineEnd(b, i)
    decreases |b| - i
  {
    if i < |b| {
      SimilarLineEnd(a, b, i + 1);
    }
  }

  lemma {:induction false} SimilarIdentEnd(a: string, b: string, i: nat)
    requires Similar(a, b) && i <= |b|
    ensures IdentEnd(a, i) == IdentEnd(b, i)
    decreases |b| - i
  {
    if i < |b| {
      SimilarIdentEnd(a, b, i + 1);
    }
  }

  lemma {:induction false} SimilarScan(a: string, b: string, q: char, triple: bool, raw: bool, i: nat)
    requires Similar(a, b) && IsQuote(q)
    ensures ScanString(a, q, triple, raw, i) == ScanString(b, q, triple, raw, i)
    decreases |b| + 2 - i
  {
    if i < |b| {
      SimilarScan(a, b, q, triple, raw, i + 1);
      SimilarScan(a, b, q, triple, raw, i + 2);
    }
  }

  lemma SimilarStringEnd(a: string, b: string, open: nat, raw: bool)
    requires Similar(a, b) && open < |b| && a[open] == b[open] && IsQuote(b[open])
    ensures StringEnd(a, open, raw) == StringEnd(b, open, raw)
  {
    SimilarScan(a, b, b[open], TripleAt(b, open, b[open]), raw, BodyStart(b, open));
  }

  /** In a similar text with this token already rewritten, the same bytes form the same token, a variable having
      become an ordinary identifier. */
  lemma SimilarToken(a: string, b: string, i: nat, afterDot: bool)
    requires IsUtf8(b) && i < |b| && IsBoundary(b, i) && Similar(a, b)
    requires var t := TokenAt(b, i, afterDot); a[t.start..t.end] == Rewrite(b, t)
    ensures var t := TokenAt(b, i, afterDot);
            TokenAt(a, i, afterDot) == if t.kind == Variable then t.(kind := Ident) else t
  {
    hide IsUtf8, IsBoundary, StringEnd, CodePoint, CharLength, IsWhitespace, IdentEnd, LineEnd, IsStringPrefix,
         IsRawPrefix;
    var t := TokenAt(b, i, afterDot);
    if IsIdentStart(b[i]) {
      SimilarWord(a, b, i, afterDot);
    } else {
      assert a[i] == a[t.start..t.end][0] == b[i];
      if IsQuote(b[i]) {
        SimilarStringEnd(a, b, i, false);
      } else if IsDigit(b[i]) {
        SimilarIdentEnd(a, b, i);
      } else {
        SimilarLineEnd(a, b, i + 1);
        SimilarChar(a, b, i);
      }
    }
  }

  /** The identifier case: a plain word, a renamed variable or a prefixed literal. */
  lemma SimilarWord(a: string, b: string, i: nat, afterDot: bool)
    requires i < |b| && IsIdentStart(b[i]) && Similar(a, b)
    requires var t := TokenAt(b, i, afterDot); a[t.start..t.end] == Rewrite(b, t)
    ensures var t := TokenAt(b, i, afterDot);
            TokenAt(a, i, afterDot) == if t.kind == Variable then t.(kind := Ident) else t
  {
    hide StringEnd, CodePoint, CharLength, IsWhitespace, IsRawPrefix;
    var t := TokenAt(b, i, afterDot);
    SimilarIdentEnd(a, b, i);
    var e := IdentEnd(b, i);
    assert i < e;
    if t.kind == Variable {
      assert a[i..e] == ALIAS && |a[i..e]| == 9;
      assert a[i] == a[i..e][0] == ALIAS[0];
      assert ALIAS[0] != NAMESPACE[0];
    } else {
      assert a[i] == a[i..t.end][0] && b[i] == b[i..t.end][0];
      assert a[i..e] == a[i..t.end][..e - i] && b[i..e] == b[i..t.end][..e - i];
      if e < |b| && IsQuote(b[e]) {
        SimilarStringEnd(a, b, e, IsRawPrefix(b[i..e]));
      }
    }
  }

  lemma SimilarChar(a: string, b: string, i: nat)
    requires IsUtf8(b) && i < |b| && IsBoundary(b, i) && Similar(a, b) && a[i] == b[i]
    ensures CharLength(a, i) == CharLength(b, i) && CodePoint(a, i) == CodePoint(b, i)
  {
    CharThenBoundary(b, i);
    forall k | i < k < i + CharLength(b, i) ensures a[k] == b[k] {
      assert IsContinuation(b[k]);
    }
  }

  lemma {:induction false} AliasTwiceFrom(a: string, b: string, i: nat, afterDot: bool)
    requires IsUtf8(b) && i <= |b| && IsBoundary(b, i) && Similar(a, b)
    requires a[i..] == AliasFrom(b, i, afterDot)
    ensures AliasFrom(a, i, afterDot) == a[i..]
    decreases |b| - i
  {
    hide IsUtf8, IsBoundary, TokenAt;
    if i < |b| {
      var t := TokenAt(b, i, afterDot);
      var d := DotAfter(b, t, afterDot);
      VariableText(b, i, afterDot);
      RewriteLength(b, t);
      TokenEndsOnBoundary(b, i, afterDot);
      var n := t.end - i;
      assert a[i..t.end] == a[i..][..n] == Rewrite(b, t);
      assert a[t.end..] == a[i..][n..] == AliasFrom(b, t.end, d);
      SimilarToken(a, b, i, afterDot);
      SameDot(a, b, i, afterDot);
      AliasTwiceFrom(a, b, t.end, d);
      assert a[i..] == a[i..t.end] + a[t.end..];
    }
  }

  lemma SameDot(a: string, b: string, i: nat, afterDot: bool)
    requires i < |b| == |a|
    requires var t := TokenAt(b, i, afterDot);
             && TokenAt(a, i, afterDot) == (if t.kind == Variable then t.(kind := Ident) else t)
             && a[t.start..t.end] == Rewrite(b, t)
    ensures DotAfter(a, TokenAt(a, i, afterDot), afterDot) == DotAfter(b, TokenAt(b, i, afterDot), afterDot)
  {
    hide StringEnd, CodePoint, IsWhitespace, IdentEnd, LineEnd;
    var t := TokenAt(b, i, afterDot);
    if t.kind.Punct? {
      assert a[i] == a[t.start..t.end][0] == b[i];
    }
  }

  /** Aliasing is idempotent. */
  lemma AliasIsIdempotent(b: string)
    requires IsUtf8(b)
    ensures Alias(Alias(b)) == Alias(b)
  {
    var a := Alias(b);
    AliasIsLockstep(b, 0, false);
    assert b[0..] == b && a[0..] == a;
    AliasTwiceFrom(a, b, 0, false);
  }
}
