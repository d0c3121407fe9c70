/** What the rewrite does to each byte, told by a left-to-right scan of the raw text that knows nothing of tokens:
    where a literal, a comment, a number or a word is open, and whether the last significant byte was a dot. */
module CelScan {
  import opened Text
  import opened Utf8
  import opened CelAlias
  import opened CelAliasFacts

  /** What a byte belongs to. A literal has `skip` bytes still to pass unread (the rest of its opening delimiter, or an
      escaped byte); a closing delimiter has `left` bytes to come. */
  datatype Region =
    | Code
    | Remark
    | Numeral
    | Word(start: nat, selected: bool)
    | Literal(quote: char, triple: bool, raw: bool, skip: nat)
    | Closing(left: nat)

  datatype Scan = Scan(region: Region, dot: bool)

  predicate WordByte(c: char) { 'a' <= c <= 'z' || 'A' <= c <= 'Z' || '0' <= c <= '9' || c == '_' }

  predicate Tripled(b: string, k: nat)
    requires k < |b|
  {
    k + 2 < |b| && b[k] == b[k + 1] == b[k + 2]
  }

  /** A raw literal's prefix: one or two of `rRbB`, an `r` among them. */
  predicate RawPrefix(w: string) {
    w in {"r", "R", "rr", "rR", "Rr", "RR", "rb", "rB", "Rb", "RB", "br", "bR", "Br", "BR"}
  }

  /** A byte read where nothing is open. */
  function Fresh(b: string, k: nat, raw: bool, dot: bool): Scan
    requires k < |b|
  {
    var c := b[k];
    if c == '/' && k + 1 < |b| && b[k + 1] == '/' then Scan(Remark, dot)
    else if c == '"' || c == '\'' then Scan(Literal(c, Tripled(b, k), raw, if Tripled(b, k) then 2 else 0), false)
    else if '0' <= c <= '9' then Scan(Numeral, false)
    else if WordByte(c) then Scan(Word(k, dot), false)
    else if IsContinuation(c) || IsWhitespace(CodePoint(b, k)) then Scan(Code, dot)
    else Scan(Code, c == '.')
  }

  function Next(b: string, s: Scan, k: nat): Scan
    requires k < |b|
  {
    var c := b[k];
    match s.region
    case Code => Fresh(b, k, false, s.dot)
    case Remark => if c == '\n' then Fresh(b, k, false, s.dot) else s
    case Numeral => if WordByte(c) then s else Fresh(b, k, false, s.dot)
    case Word(start, _) =>
      if WordByte(c) then s else Fresh(b, k, start <= k && RawPrefix(b[start..k]), s.dot)
    case Literal(q, triple, raw, skip) =>
      if skip > 0 then s.(region := Literal(q, triple, raw, skip - 1))
      else if c == '\\' && !raw then s.(region := Literal(q, triple, raw, 1))
      else if c == q && !triple then s.(region := Closing(0))
      else if c == q && Tripled(b, k) then s.(region := Closing(2))
      else s
    case Closing(left) => if left > 0 then s.(region := Closing(left - 1)) else Fresh(b, k, false, s.dot)
  }

  /** The scan just before byte `k`. */
  function At(b: string, k: nat): Scan
    requires k <= |b|
  {
    if k == 0 then Scan(Code, false) else Next(b, At(b, k - 1), k - 1)
  }

  /** The scan just after byte `k`. */
  function After(b: string, k: nat): Scan
    requires k < |b|
  {
    At(b, k + 1)
  }

  function RegionOf(b: string, k: nat): Region
    requires k < |b|
  {
    After(b, k).region
  }

  /** Byte `k` is part of a string or bytes literal, delimiters included. */
  predicate InLiteral(b: string, k: nat)
    requires k < |b|
  {
    RegionOf(b, k).Literal? || RegionOf(b, k).Closing?
  }

  /** A whole word spelled `namespace` starts at `s`, outside literals, comments and numbers, and is no field
      selector. */
  predicate VariableAt(b: string, s: nat) {
    && s + 9 <= |b| && b[s..s + 9] == "namespace" && RegionOf(b, s + 8) == Word(s, false)
    && (s + 9 == |b| || !WordByte(b[s + 9]))
  }

  /** Byte `k` of the rewrite. */
  function Renamed(b: string, k: nat): char
    requires k < |b|
  {
    match RegionOf(b, k)
    case Word(s, _) => if VariableAt(b, s) && s <= k < s + 9 then "__nsvar__"[k - s] else b[k]
    case _ => b[k]
  }

  // --- the scan and the tokens agree ------------------------------------------------------------

  lemma SameClasses(c: char)
    ensures IsIdentChar(c) <==> WordByte(c)
    ensures IsIdentStart(c) <==> WordByte(c) && !('0' <= c <= '9')
    ensures IsDigit(c) <==> '0' <= c <= '9'
    ensures IsQuote(c) <==> c == '"' || c == '\''
  {
  }

  lemma SamePrefixes(w: string)
    ensures RawPrefix(w) <==> IsStringPrefix(w) && IsRawPrefix(w)
  {
    if |w| == 1 {
      assert w == [w[0]];
      assert IsRawPrefix(w) <==> w[0] == 'r' || w[0] == 'R';
    } else if |w| == 2 {
      assert w == [w[0], w[1]];
      assert IsRawPrefix(w) <==> w[0] in "rR" || w[1] in "rR" by {
        assert IsRawPrefix(w) ==> exists k :: 0 <= k < 2 && (w[k] == 'r' || w[k] == 'R');
      }
    }
  }

  /** Nothing is open at `i`: the scan reads the byte there afresh. */
  predicate Ready(b: string, i: nat, dot: bool)
    requires i <= |b|
  {
    i == |b| || Next(b, At(b, i), i) == Fresh(b, i, false, dot)
  }

  /** Every byte of `i..e` leaves the scan in state `s`. */
  predicate Stays(b: string, i: nat, e: nat, s: Scan)
    requires i <= e <= |b|
  {
    forall k :: i <= k < e ==> After(b, k) == s
  }

  lemma {:induction false} WordRun(b: string, i: nat, e: nat, s: Scan)
    requires i < e <= |b| && At(b, i + 1) == s && (s.region.Word? || s.region.Numeral?)
    requires forall k :: i <= k < e ==> WordByte(b[k])
    ensures Stays(b, i, e, s)
    decreases e
  {
    hide WordByte;
    if i + 1 < e {
      WordRun(b, i, e - 1, s);
      assert After(b, e - 2) == s;
    }
  }

  lemma {:induction false} CommentRun(b: string, i: nat, e: nat, s: Scan)
    requires i < e <= |b| && At(b, i + 1) == s && s.region.Remark?
    requires forall k :: i < k < e ==> b[k] != '\n'
    ensures Stays(b, i, e, s)
    decreases e
  {
    if i + 1 < e {
      CommentRun(b, i, e - 1, s);
      assert After(b, e - 2) == s;
    }
  }

  lemma {:induction false} ContinuationRun(b: string, i: nat, e: nat, s: Scan)
    requires i < e <= |b| && At(b, i + 1) == s && s.region.Code?
    requires forall k :: i < k < e ==> IsContinuation(b[k])
    ensures Stays(b, i, e, s)
    decreases e
  {
    if i + 1 < e {
      ContinuationRun(b, i, e - 1, s);
      assert After(b, e - 2) == s;
      assert IsContinuation(b[e - 1]);
    }
  }

  /** Every byte of `i..e` belongs to a literal. */
  predicate AllLiteral(b: string, i: nat, e: nat)
    requires i <= e <= |b|
  {
    forall k :: i <= k < e ==> InLiteral(b, k)
  }

  lemma LiteralStep(b: string, q: char, triple: bool, raw: bool, i: nat)
    requires i < |b| && At(b, i) == Scan(Literal(q, triple, raw, 0), false)
    ensures At(b, i + 1) == Scan(if b[i] == '\\' && !raw then Literal(q, triple, raw, 1)
                                 else if b[i] == q && !triple then Closing(0)
                                 else if b[i] == q && Tripled(b, i) then Closing(2)
                                 else Literal(q, triple, raw, 0), false)
    ensures InLiteral(b, i)
  {
    hide Fresh;
  }

  lemma SkipStep(b: string, q: char, triple: bool, raw: bool, i: nat, skip: nat)
    requires i < |b| && At(b, i) == Scan(Literal(q, triple, raw, skip), false) && skip > 0
    ensures At(b, i + 1) == Scan(Literal(q, triple, raw, skip - 1), false) && InLiteral(b, i)
  {
    hide Fresh;
  }

  lemma ClosingStep(b: string, i: nat, left: nat)
    requires i < |b| && At(b, i) == Scan(Closing(left), false) && left > 0
    ensures At(b, i + 1) == Scan(Closing(left - 1), false) && InLiteral(b, i)
  {
    hide Fresh;
  }

  lemma {:induction false} LiteralRun(b: string, q: char, triple: bool, raw: bool, i: nat)
    requires i <= |b| && At(b, i) == Scan(Literal(q, triple, raw, 0), false)
    ensures var e := ScanString(b, q, triple, raw, i);
            i <= e && AllLiteral(b, i, e) && (e == |b| || At(b, e) == Scan(Closing(0), false))
    decreases |b| - i
  {
    hide At, InLiteral;
    if i < |b| {
      LiteralStep(b, q, triple, raw, i);
      if b[i] == '\\' && !raw {
        if i + 1 < |b| {
          SkipStep(b, q, triple, raw, i + 1, 1);
          LiteralRun(b, q, triple, raw, i + 2);
        }
      } else if triple && TripleAt(b, i, q) {
        ClosingStep(b, i + 1, 2);
        ClosingStep(b, i + 2, 1);
      } else if triple || b[i] != q {
        LiteralRun(b, q, triple, raw, i + 1);
      }
    }
  }

  lemma LiteralsAreNoWords(b: string, i: nat, e: nat)
    requires i <= e <= |b| && AllLiteral(b, i, e)
    ensures forall k :: i <= k < e ==> !RegionOf(b, k).Word?
  {
    hide After;
    forall k | i <= k < e ensures !RegionOf(b, k).Word? {
      assert InLiteral(b, k);
    }
  }

  /** A literal opened at `open` runs to where the lexer ends it. */
  lemma LiteralToken(b: string, open: nat, raw: bool)
    requires open < |b| && IsQuote(b[open]) && Next(b, At(b, open), open) == Fresh(b, open, raw, false)
    ensures var e := StringEnd(b, open, raw); AllLiteral(b, open, e) && Ready(b, e, false)
  {
    hide ScanString, At;
    var q, triple, body := b[open], TripleAt(b, open, b[open]), BodyStart(b, open);
    AtStep(b, open);
    assert At(b, open + 1) == Scan(Literal(q, triple, raw, if triple then 2 else 0), false);
    assert InLiteral(b, open);
    if triple {
      SkipStep(b, q, triple, raw, open + 1, 2);
      SkipStep(b, q, triple, raw, open + 2, 1);
    }
    hide InLiteral;
    LiteralRun(b, q, triple, raw, body);
  }

  lemma AtStep(b: string, k: nat)
    requires k < |b|
    ensures At(b, k + 1) == After(b, k) == Next(b, At(b, k), k)
  {
    hide Next;
  }

  lemma WordToken(b: string, i: nat, d: bool)
    requires i < |b| && IsIdentStart(b[i]) && Ready(b, i, d)
    ensures var e := IdentEnd(b, i);
            && i < e && Stays(b, i, e, Scan(Word(i, d), false))
            && (e < |b| ==> Next(b, At(b, e), e) == Fresh(b, e, RawPrefix(b[i..e]), false))
  {
    hide RawPrefix;
    var e := IdentEnd(b, i);
    SameClasses(b[i]);
    assert At(b, i + 1) == Scan(Word(i, d), false);
    forall k | i <= k < e ensures WordByte(b[k]) {
      SameClasses(b[k]);
    }
    WordRun(b, i, e, Scan(Word(i, d), false));
    if e < |b| {
      SameClasses(b[e]);
      assert After(b, e - 1) == Scan(Word(i, d), false);
    }
  }

  lemma NumberToken(b: string, i: nat, d: bool)
    requires i < |b| && IsDigit(b[i]) && Ready(b, i, d)
    ensures var e := IdentEnd(b, i); i < e && Stays(b, i, e, Scan(Numeral, false)) && Ready(b, e, false)
  {
    var e := IdentEnd(b, i);
    SameClasses(b[i]);
    forall k | i <= k < e ensures WordByte(b[k]) {
      SameClasses(b[k]);
    }
    WordRun(b, i, e, Scan(Numeral, false));
    if e < |b| {
      SameClasses(b[e]);
      assert After(b, e - 1) == Scan(Numeral, false);
    }
  }

  lemma CommentToken(b: string, i: nat, d: bool)
    requires i + 1 < |b| && b[i] == '/' && b[i + 1] == '/' && Ready(b, i, d)
    ensures var e := LineEnd(b, i + 1); i < e && Stays(b, i, e, Scan(Remark, d)) && Ready(b, e, d)
  {
    var e := LineEnd(b, i + 1);
    CommentRun(b, i, e, Scan(Remark, d));
    if e < |b| {
      assert After(b, e - 1) == Scan(Remark, d);
    }
  }

  lemma PunctToken(b: string, i: nat, d: bool)
    requires IsUtf8(b) && i < |b| && IsBoundary(b, i) && Ready(b, i, d)
    requires !(b[i] == '/' && i + 1 < |b| && b[i + 1] == '/') && !IsQuote(b[i]) && !IsIdentChar(b[i])
    ensures var e := i + CharLength(b, i);
            var after := if IsWhitespace(CodePoint(b, i)) then d else b[i] == '.';
            Stays(b, i, e, Scan(Code, after)) && Ready(b, e, after)
  {
    hide IsUtf8, IsWhitespace, CodePoint, CharLength;
    var e := i + CharLength(b, i);
    var after := if IsWhitespace(CodePoint(b, i)) then d else b[i] == '.';
    SameClasses(b[i]);
    StartIsNoContinuation(b, i);
    CharThenBoundary(b, i);
    assert At(b, i + 1) == Scan(Code, after);
    ContinuationRun(b, i, e, Scan(Code, after));
    assert After(b, e - 1) == Scan(Code, after);
  }

  lemma StartIsNoContinuation(b: string, i: nat)
    requires IsUtf8(b) && i < |b| && IsBoundary(b, i)
    ensures !IsContinuation(b[i])
  {
  }

  // --- the rewrite, byte by byte -------------------------------------------------------------------

  /** The bytes of `i..e` are rewritten to `r`. */
  predicate Becomes(b: string, i: nat, e: nat, r: string)
    requires i <= e <= |b|
  {
    |r| == e - i && forall k :: i <= k < e ==> r[k - i] == Renamed(b, k)
  }

  /** Bytes outside words are copied. */
  lemma CopiedOutsideWords(b: string, i: nat, e: nat)
    requires i <= e <= |b| && forall k :: i <= k < e ==> !RegionOf(b, k).Word?
    ensures Becomes(b, i, e, b[i..e])
  {
  }

  lemma StaysCopied(b: string, i: nat, e: nat, s: Scan)
    requires i <= e <= |b| && Stays(b, i, e, s) && !s.region.Word?
    ensures Becomes(b, i, e, b[i..e])
  {
    hide After, Renamed;
    forall k | i <= k < e ensures !RegionOf(b, k).Word? {
      assert After(b, k) == s;
    }
    CopiedOutsideWords(b, i, e);
  }

  lemma LiteralCopied(b: string, i: nat, e: nat)
    requires i <= e <= |b| && AllLiteral(b, i, e)
    ensures Becomes(b, i, e, b[i..e])
  {
    LiteralsAreNoWords(b, i, e);
    CopiedOutsideWords(b, i, e);
  }

  /** A word is the alias exactly when it is a variable. */
  lemma WordBecomes(b: string, i: nat, d: bool)
    requires i < |b| && IsIdentStart(b[i]) && Ready(b, i, d)
    ensures var e := IdentEnd(b, i); var w := b[i..e];
            i < e && Becomes(b, i, e, if w == NAMESPACE && !d then ALIAS else w)
  {
    hide IdentEnd, At, Next, Fresh, Ready;
    var e := IdentEnd(b, i);
    WordToken(b, i, d);
    forall k | i <= k < e ensures RegionOf(b, k) == Word(i, d) {}
    VariableIffSpelled(b, i, d);
  }

  lemma VariableIffSpelled(b: string, i: nat, d: bool)
    requires i < |b| && IsIdentStart(b[i]) && Ready(b, i, d)
    ensures VariableAt(b, i) <==> b[i..IdentEnd(b, i)] == NAMESPACE && !d
  {
    hide At, Next, Fresh, Ready, RawPrefix;
    var e := IdentEnd(b, i);
    WordToken(b, i, d);
    if b[i..e] == NAMESPACE {
      assert e == i + 9;
      assert After(b, i + 8) == Scan(Word(i, d), false);
      if e < |b| {
        SameClasses(b[e]);
      }
    }
    if VariableAt(b, i) {
      WordExtends(b, i);
      assert After(b, i + 8) == Scan(Word(i, d), false);
    }
  }

  lemma WordExtends(b: string, i: nat)
    requires i < |b| && VariableAt(b, i)
    ensures IdentEnd(b, i) == i + 9 && RegionOf(b, i + 8) == Word(i, false)
  {
    hide At, IdentEnd;
    var e := IdentEnd(b, i);
    forall k | i <= k < i + 9 ensures IsIdentChar(b[k]) {
      assert b[k] == b[i..i + 9][k - i];
      assert b[k] == "namespace"[k - i];
    }
    if e < |b| {
      SameClasses(b[e]);
    }
    if i + 9 < |b| {
      SameClasses(b[i + 9]);
    }
  }

  lemma {:induction false} AliasBecomes(b: string, i: nat, d: bool)
    requires IsUtf8(b) && i <= |b| && IsBoundary(b, i) && Ready(b, i, d)
    ensures Becomes(b, i, |b|, AliasFrom(b, i, d))
    decreases |b| - i
  {
    hide IsUtf8, IsBoundary, TokenAt, DotAfter, Ready, Renamed, Rewrite;
    if i < |b| {
      var t := TokenAt(b, i, d);
      TokenEndsOnBoundary(b, i, d);
      TokenBecomes(b, i, d);
      AliasBecomes(b, t.end, DotAfter(b, t, d));
    }
  }

  /** One token: its bytes become what the scan says, and the scan is ready for the next one. */
  lemma TokenBecomes(b: string, i: nat, d: bool)
    requires IsUtf8(b) && i < |b| && IsBoundary(b, i) && Ready(b, i, d)
    ensures var t := TokenAt(b, i, d); Becomes(b, i, t.end, Rewrite(b, t)) && Ready(b, t.end, DotAfter(b, t, d))
  {
    hide IsUtf8, IsBoundary, Ready, Becomes, Stays, AllLiteral, StringEnd, IdentEnd, LineEnd, CodePoint, CharLength,
         IsWhitespace, IsStringPrefix, IsRawPrefix;
    var t, c := TokenAt(b, i, d), b[i];
    SameClasses(c);
    if c == '/' && i + 1 < |b| && b[i + 1] == '/' {
      CommentToken(b, i, d);
      StaysCopied(b, i, t.end, Scan(Remark, d));
    } else if IsQuote(c) {
      OpenLiteral(b, i, d);
      LiteralCopied(b, i, t.end);
    } else if IsIdentStart(c) {
      WordTokenBecomes(b, i, d);
    } else if IsDigit(c) {
      NumberToken(b, i, d);
      StaysCopied(b, i, t.end, Scan(Numeral, false));
    } else {
      PunctToken(b, i, d);
      StaysCopied(b, i, t.end, Scan(Code, if IsWhitespace(CodePoint(b, i)) then d else b[i] == '.'));
    }
  }

  lemma OpenLiteral(b: string, i: nat, d: bool)
    requires i < |b| && IsQuote(b[i]) && Ready(b, i, d)
    ensures var e := StringEnd(b, i, false); AllLiteral(b, i, e) && Ready(b, e, false)
  {
    hide StringEnd, At;
    LiteralToken(b, i, false);
  }

  lemma WordTokenBecomes(b: string, i: nat, d: bool)
    requires i < |b| && IsIdentStart(b[i]) && Ready(b, i, d)
    ensures var t := TokenAt(b, i, d); Becomes(b, i, t.end, Rewrite(b, t)) && Ready(b, t.end, DotAfter(b, t, d))
  {
    hide At, Next, Fresh, Renamed, StringEnd, IdentEnd, IsStringPrefix, IsRawPrefix, RawPrefix;
    var t, e := TokenAt(b, i, d), IdentEnd(b, i);
    var w := b[i..e];
    WordToken(b, i, d);
    WordBecomes(b, i, d);
    SamePrefixes(w);
    if IsStringPrefix(w) && e < |b| && IsQuote(b[e]) {
      LiteralToken(b, e, IsRawPrefix(w));
      LiteralCopied(b, e, t.end);
      PrefixIsShort(w);
      JoinBecomes(b, i, e, t.end);
    } else {
      PlainAfterWord(b, e, w);
    }
  }

  lemma PrefixIsShort(w: string)
    requires IsStringPrefix(w)
    ensures w != NAMESPACE
  {
  }

  lemma JoinBecomes(b: string, i: nat, m: nat, e: nat)
    requires i <= m <= e <= |b| && Becomes(b, i, m, b[i..m]) && Becomes(b, m, e, b[m..e])
    ensures Becomes(b, i, e, b[i..e])
  {
    hide Renamed;
    forall k | i <= k < e ensures b[i..e][k - i] == Renamed(b, k) {
      if k < m {
        assert b[i..m][k - i] == Renamed(b, k);
      } else {
        assert b[m..e][k - m] == Renamed(b, k);
      }
    }
  }

  lemma PlainAfterWord(b: string, e: nat, w: string)
    requires e <= |b| && (e < |b| ==> Next(b, At(b, e), e) == Fresh(b, e, RawPrefix(w), false))
    requires !(IsStringPrefix(w) && e < |b| && IsQuote(b[e]))
    ensures Ready(b, e, false)
  {
    hide At;
    SamePrefixes(w);
  }

  /** The rewrite is exactly the renaming of the whole-word variables, byte by byte and in place. */
  lemma AliasIsRenaming(b: string)
    requires IsUtf8(b)
    ensures |Alias(b)| == |b| && forall k :: 0 <= k < |b| ==> Alias(b)[k] == Renamed(b, k)
  {
    hide IsUtf8, AliasFrom, Renamed;
    StartsOnBoundary(b);
    assert Ready(b, 0, false);
    AliasBecomes(b, 0, false);
  }

  /** No byte of a literal, a comment or a number changes, nor any byte between words. */
  lemma LiteralsAndCommentsAreCopied(b: string, k: nat)
    requires IsUtf8(b) && k < |b|
    requires InLiteral(b, k) || RegionOf(b, k) in {Remark, Numeral, Code}
    ensures k < |Alias(b)| && Alias(b)[k] == b[k]
  {
    hide IsUtf8, At;
    AliasIsRenaming(b);
  }

  /** Every whole word `namespace` that is no field selector and stands outside literals, comments and numbers becomes
      the alias. */
  lemma VariablesAreRenamed(b: string, s: nat)
    requires IsUtf8(b) && VariableAt(b, s)
    ensures |Alias(b)| == |b| && Alias(b)[s..s + 9] == "__nsvar__"
  {
    hide IsUtf8, At;
    AliasIsRenaming(b);
    forall k | s <= k < s + 9 ensures Alias(b)[k] == "__nsvar__"[k - s] {
      WordReachesBack(b, s, k, s + 8);
    }
  }

  lemma {:induction false} WordReachesBack(b: string, s: nat, k: nat, m: nat)
    requires s <= k <= m < |b| && RegionOf(b, m).Word? && RegionOf(b, m).start == s
    ensures RegionOf(b, k) == RegionOf(b, m)
    decreases m
  {
    if k < m {
      assert At(b, m + 1) == Next(b, At(b, m), m);
      assert At(b, m).region == RegionOf(b, m);
      WordReachesBack(b, s, k, m - 1);
    }
  }

  // --- spelled out -----------------------------------------------------------------------------------

  lemma {:induction false} AsciiIsUtf8(s: string)
    requires forall k :: 0 <= k < |s| ==> IsAscii(s[k])
    ensures IsUtf8(s)
  {
    if s != "" {
      AsciiIsUtf8(s[1..]);
    }
  }

  lemma {:induction false} PlainLiteral(b: string, q: char, e: nat)
    requires 1 <= e <= |b| && At(b, 1) == Scan(Literal(q, false, false, 0), false) && InLiteral(b, 0)
    requires forall k :: 1 <= k < e ==> b[k] != q && b[k] != '\\'
    ensures At(b, e) == Scan(Literal(q, false, false, 0), false) && AllLiteral(b, 0, e)
    decreases e
  {
    hide At, InLiteral;
    if e > 1 {
      PlainLiteral(b, q, e - 1);
      LiteralStep(b, q, false, false, e - 1);
    }
  }

  /** A quoted text with no escape is copied whole, whatever words it holds. */
  lemma QuotedTextIsCopied(q: char, w: string)
    requires (q == '"' || q == '\'') && q !in w && '\\' !in w && IsUtf8([q] + w + [q])
    ensures Alias([q] + w + [q]) == [q] + w + [q]
  {
    hide IsUtf8, IsWhitespace, CodePoint;
    var b := [q] + w + [q];
    var last := |b| - 1;
    assert b[0] == q && b[last] == q && b[1..last] == w;
    assert !Tripled(b, 0) by {
      assert |w| > 0 ==> b[1] == w[0];
    }
    AtStep(b, 0);
    assert At(b, 1) == Scan(Literal(q, false, false, 0), false);
    forall k | 1 <= k < last ensures b[k] != q && b[k] != '\\' {
      assert b[k] == b[1..last][k - 1];
    }
    PlainLiteral(b, q, last);
    LiteralStep(b, q, false, false, last);
    hide At, InLiteral;
    AllCopied(b);
  }

  lemma AllCopied(b: string)
    requires IsUtf8(b) && AllLiteral(b, 0, |b|)
    ensures Alias(b) == b
  {
    hide IsUtf8, At, InLiteral;
    AliasIsRenaming(b);
    forall k | 0 <= k < |b| ensures Alias(b)[k] == b[k] {
      assert InLiteral(b, k);
      LiteralsAndCommentsAreCopied(b, k);
    }
  }

  /** A comment is copied whole, whatever words it holds. */
  lemma CommentIsCopied(w: string)
    requires '\n' !in w && IsUtf8("//" + w)
    ensures Alias("//" + w) == "//" + w
  {
    hide IsUtf8, IsWhitespace, CodePoint;
    var b := "//" + w;
    assert b[2..] == w;
    AtStep(b, 0);
    assert b[0] == '/' && b[1] == '/';
    forall k | 0 < k < |b| ensures b[k] != '\n' {
      assert k >= 2 ==> b[k] == b[2..][k - 2];
    }
    CommentRun(b, 0, |b|, Scan(Remark, false));
    hide At;
    AliasIsRenaming(b);
    forall k | 0 <= k < |b| ensures Alias(b)[k] == b[k] {
      assert After(b, k) == Scan(Remark, false);
      LiteralsAndCommentsAreCopied(b, k);
    }
  }

  /** The variable alone is renamed. */
  lemma BareNameIsRenamed()
    ensures Alias("namespace") == "__nsvar__"
  {
    var b := "namespace";
    AsciiIsUtf8(b);
    AtStep(b, 0);
    WordRun(b, 0, 9, Scan(Word(0, false), false));
    assert After(b, 8) == Scan(Word(0, false), false);
    hide At;
    VariablesAreRenamed(b, 0);
    assert Alias(b)[0..9] == Alias(b);
  }

  /** A field selector is copied, whatever it is selected from. */
  lemma SelectorIsCopied(w: string)
    requires w != "" && w != "namespace" && !IsDigit(w[0]) && forall k :: 0 <= k < |w| ==> WordByte(w[k])
    ensures Alias(w + ".namespace") == w + ".namespace"
  {
    hide After, WordByte, IsUtf8, Alias, VariableAt, Renamed;
    var b := w + ".namespace";
    SelectorIsAscii(w);
    AliasIsRenaming(b);
    forall k | 0 <= k < |b| ensures Renamed(b, k) == b[k] {
      SelectorKeeps(w, k);
    }
  }

  lemma SelectorIsAscii(w: string)
    requires forall k :: 0 <= k < |w| ==> WordByte(w[k])
    ensures IsUtf8(w + ".namespace")
  {
    hide IsUtf8;
    var b := w + ".namespace";
    assert b[|w|..] == ".namespace";
    forall k | 0 <= k < |b| ensures IsAscii(b[k]) {
      if k < |w| {
        assert b[k] == w[k];
      } else {
        assert b[k] == b[|w|..][k - |w|] == ".namespace"[k - |w|];
      }
    }
    AsciiIsUtf8(b);
  }

  lemma SelectorKeeps(w: string, k: nat)
    requires w != "" && w != "namespace" && !IsDigit(w[0]) && forall k :: 0 <= k < |w| ==> WordByte(w[k])
    requires k < |w + ".namespace"|
    ensures Renamed(w + ".namespace", k) == (w + ".namespace")[k]
  {
    hide After, WordByte, VariableAt;
    SelectorRegions(w);
    OtherWordIsNoVariable(w);
    SelectedIsNoVariable(w);
  }

  lemma SelectedIsNoVariable(w: string)
    requires w != "" && !IsDigit(w[0]) && forall k :: 0 <= k < |w| ==> WordByte(w[k])
    ensures !VariableAt(w + ".namespace", |w| + 1)
  {
    hide After, WordByte;
    SelectorRegions(w);
  }

  lemma OtherWordIsNoVariable(w: string)
    requires w != "" && w != "namespace" && forall k :: 0 <= k < |w| ==> WordByte(w[k])
    ensures !VariableAt(w + ".namespace", 0)
  {
    hide After;
    var b, n := w + ".namespace", |w|;
    assert b[n] == '.' && forall k :: 0 <= k < n ==> b[k] == w[k];
    assert n < 9 ==> b[0..9][n] == '.' && "namespace"[n] != '.';
    assert n == 9 ==> b[0..9] == w;
  }

  lemma SelectorRegions(w: string)
    requires w != "" && !IsDigit(w[0]) && forall k :: 0 <= k < |w| ==> WordByte(w[k])
    ensures var b := w + ".namespace"; var n := |w|;
            && (forall k :: 0 <= k < n ==> RegionOf(b, k) == Word(0, false))
            && RegionOf(b, n) == Code
            && (forall k :: n < k < |b| ==> RegionOf(b, k) == Word(n + 1, true))
  {
    hide RawPrefix;
    var b := w + ".namespace";
    var n := |w|;
    assert forall k :: 0 <= k < n ==> b[k] == w[k];
    assert b[n..] == ".namespace";
    forall k | n < k < |b| ensures WordByte(b[k]) {
      assert b[k] == b[n..][k - n] == ".namespace"[k - n];
    }
    AtStep(b, 0);
    WordRun(b, 0, n, Scan(Word(0, false), false));
    assert After(b, n - 1) == Scan(Word(0, false), false);
    AtStep(b, n);
    assert b[n] == '.' && CodePoint(b, n) == 46;
    assert After(b, n) == Scan(Code, true);
    AtStep(b, n + 1);
    assert b[n + 1] == 'n';
    WordRun(b, n + 1, |b|, Scan(Word(n + 1, true), false));
    hide At;
    forall k | 0 <= k < n ensures RegionOf(b, k) == Word(0, false) {
      assert After(b, k) == Scan(Word(0, false), false);
    }
    forall k | n < k < |b| ensures RegionOf(b, k) == Word(n + 1, true) {
      assert After(b, k) == Scan(Word(n + 1, true), false);
    }
  }
}
