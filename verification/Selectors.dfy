/** The two readings of a label selector: the string sent to the API server, and the client-side match.
    They agree when the string is read by the Kubernetes label-selector grammar. */
module Selectors {
  import opened Text

  type Labels = map<string, string>

  datatype Requirement = Requirement(key: string, operator: string, values: Option<seq<string>>)

  /** `matchLabels` as its map entries in key order. */
  datatype LabelSelector = LabelSelector(
    matchLabels: Option<seq<(string, string)>>, matchExpressions: Option<seq<Requirement>>)

  // --- what a selector asks for --------------------------------------------------------

  datatype Constraint =
    | Exact(key: string, value: string)
    | OneOf(key: string, values: seq<string>)
    | NoneOf(key: string, values: seq<string>)
    | Exists(key: string)
    | Absent(key: string)

  predicate Satisfies(labels: Labels, c: Constraint) {
    match c
    case Exact(k, v) => k in labels && labels[k] == v
    case OneOf(k, vs) => k in labels && labels[k] in vs
    case NoneOf(k, vs) => k in labels ==> labels[k] !in vs
    case Exists(k) => k in labels
    case Absent(k) => k !in labels
  }

  /** An unknown operator is no constraint. */
  function FromRequirement(r: Requirement): seq<Constraint> {
    var vs := r.values.GetOr([]);
    if r.operator == "In" then [OneOf(r.key, vs)]
    else if r.operator == "NotIn" then [NoneOf(r.key, vs)]
    else if r.operator == "Exists" then [Exists(r.key)]
    else if r.operator == "DoesNotExist" then [Absent(r.key)]
    else []
  }

  function FromLabels(ls: seq<(string, string)>): seq<Constraint> {
    if ls == [] then [] else FromLabels(ls[..|ls| - 1]) + [Exact(ls[|ls| - 1].0, ls[|ls| - 1].1)]
  }

  function FromExpressions(rs: seq<Requirement>): seq<Constraint> {
    if rs == [] then [] else FromExpressions(rs[..|rs| - 1]) + FromRequirement(rs[|rs| - 1])
  }

  function Constraints(sel: LabelSelector): seq<Constraint> {
    FromLabels(sel.matchLabels.GetOr([])) + FromExpressions(sel.matchExpressions.GetOr([]))
  }

  predicate SatisfiesAll(labels: Labels, cs: seq<Constraint>) {
    forall i :: 0 <= i < |cs| ==> Satisfies(labels, cs[i])
  }

  // --- the client-side match ---------------------------------------------------------------

  method LabelsMatchSelector(labels: Labels, sel: LabelSelector) returns (ok: bool)
    ensures ok <==> SatisfiesAll(labels, Constraints(sel))
  {
    var ml := sel.matchLabels.GetOr([]);
    var exprs := sel.matchExpressions.GetOr([]);
    SatisfiesAllOf(labels, FromLabels(ml), FromExpressions(exprs));
    ok := MatchLabels(labels, ml);
    if ok {
      ok := MatchExpressions(labels, exprs);
    }
  }

  lemma SatisfiesAllOf(labels: Labels, a: seq<Constraint>, b: seq<Constraint>)
    ensures SatisfiesAll(labels, a + b) <==> SatisfiesAll(labels, a) && SatisfiesAll(labels, b)
  {
    hide Satisfies;
    if SatisfiesAll(labels, a + b) {
      forall i | 0 <= i < |a| ensures Satisfies(labels, a[i]) {
        assert (a + b)[i] == a[i];
      }
      forall i | 0 <= i < |b| ensures Satisfies(labels, b[i]) {
        assert (a + b)[|a| + i] == b[i];
      }
    }
  }

  method MatchLabels(labels: Labels, ml: seq<(string, string)>) returns (ok: bool)
    ensures ok <==> SatisfiesAll(labels, FromLabels(ml))
  {
    ok := true;
    for i := 0 to |ml|
      invariant ok && SatisfiesAll(labels, FromLabels(ml[..i]))
    {
      assert ml[..i + 1][..i] == ml[..i];
      var (k, v) := ml[i];
      SatisfiesAllOf(labels, FromLabels(ml[..i]), [Exact(k, v)]);
      if !(k in labels && labels[k] == v) {
        assert !Satisfies(labels, [Exact(k, v)][0]);
        LabelsPrefix(ml, i + 1);
        PrefixRefutes(labels, FromLabels(ml[..i + 1]), FromLabels(ml));
        return false;
      }
    }
    assert ml[..|ml|] == ml;
  }

  method MatchExpressions(labels: Labels, exprs: seq<Requirement>) returns (ok: bool)
    ensures ok <==> SatisfiesAll(labels, FromExpressions(exprs))
  {
    ok := true;
    for i := 0 to |exprs|
      invariant ok && SatisfiesAll(labels, FromExpressions(exprs[..i]))
    {
      assert exprs[..i + 1][..i] == exprs[..i];
      var r := exprs[i];
      var vals := r.values.GetOr([]);
      var holds := if r.operator == "In" then r.key in labels && labels[r.key] in vals
                   else if r.operator == "NotIn" then r.key !in labels || labels[r.key] !in vals
                   else if r.operator == "Exists" then r.key in labels
                   else if r.operator == "DoesNotExist" then r.key !in labels
                   else true;
      HoldsIsSatisfied(labels, r);
      SatisfiesAllOf(labels, FromExpressions(exprs[..i]), FromRequirement(r));
      if !holds {
        ExpressionsPrefix(exprs, i + 1);
        PrefixRefutes(labels, FromExpressions(exprs[..i + 1]), FromExpressions(exprs));
        return false;
      }
    }
    assert exprs[..|exprs|] == exprs;
  }

  lemma HoldsIsSatisfied(labels: Labels, r: Requirement)
    ensures SatisfiesAll(labels, FromRequirement(r))
            <==> if r.operator == "In" then r.key in labels && labels[r.key] in r.values.GetOr([])
                 else if r.operator == "NotIn" then r.key !in labels || labels[r.key] !in r.values.GetOr([])
                 else if r.operator == "Exists" then r.key in labels
                 else if r.operator == "DoesNotExist" then r.key !in labels
                 else true
  {
    var cs := FromRequirement(r);
    if cs != [] {
      assert SatisfiesAll(labels, cs) <==> Satisfies(labels, cs[0]);
    }
  }

  lemma PrefixRefutes(labels: Labels, a: seq<Constraint>, b: seq<Constraint>)
    requires a <= b && !SatisfiesAll(labels, a)
    ensures !SatisfiesAll(labels, b)
  {
    hide Satisfies;
    var i :| 0 <= i < |a| && !Satisfies(labels, a[i]);
    assert b[i] == a[i];
  }

  lemma {:induction false} LabelsPrefix(ls: seq<(string, string)>, n: nat)
    requires n <= |ls|
    ensures FromLabels(ls[..n]) <= FromLabels(ls)
    decreases |ls|
  {
    if n < |ls| {
      LabelsPrefix(ls[..|ls| - 1], n);
      assert ls[..|ls| - 1][..n] == ls[..n];
    } else {
      assert ls[..n] == ls;
    }
  }

  lemma {:induction false} ExpressionsPrefix(rs: seq<Requirement>, n: nat)
    requires n <= |rs|
    ensures FromExpressions(rs[..n]) <= FromExpressions(rs)
    decreases |rs|
  {
    if n < |rs| {
      ExpressionsPrefix(rs[..|rs| - 1], n);
      assert rs[..|rs| - 1][..n] == rs[..n];
    } else {
      assert rs[..n] == rs;
    }
  }

  lemma {:induction false} LabelsMean(labels: Labels, ls: seq<(string, string)>)
    ensures SatisfiesAll(labels, FromLabels(ls))
            <==> forall i :: 0 <= i < |ls| ==> ls[i].0 in labels && labels[ls[i].0] == ls[i].1
    decreases |ls|
  {
    if ls != [] {
      var front, last := ls[..|ls| - 1], ls[|ls| - 1];
      LabelsMean(labels, front);
      SatisfiesAllOf(labels, FromLabels(front), [Exact(last.0, last.1)]);
      assert SatisfiesAll(labels, [Exact(last.0, last.1)]) <==> Satisfies(labels, [Exact(last.0, last.1)][0]);
      assert forall i :: 0 <= i < |ls| ==> ls[i] == if i < |front| then front[i] else last;
    }
  }

  /** What one requirement asks of an object's labels. */
  predicate Holds(labels: Labels, r: Requirement) {
    var value := if r.key in labels then Some(labels[r.key]) else None;
    && (r.operator == "In" ==> value.Some? && value.value in r.values.GetOr([]))
    && (r.operator == "NotIn" ==> value.None? || value.value !in r.values.GetOr([]))
    && (r.operator == "Exists" ==> value.Some?)
    && (r.operator == "DoesNotExist" ==> value.None?)
  }

  lemma {:induction false} ExpressionsMean(labels: Labels, rs: seq<Requirement>)
    ensures SatisfiesAll(labels, FromExpressions(rs)) <==> forall i :: 0 <= i < |rs| ==> Holds(labels, rs[i])
    decreases |rs|
  {
    if rs != [] {
      var front, last := rs[..|rs| - 1], rs[|rs| - 1];
      ExpressionsMean(labels, front);
      hide FromRequirement, Satisfies;
      SatisfiesAllOf(labels, FromExpressions(front), FromRequirement(last));
      HoldsIsSatisfied(labels, last);
      OneRequirement(labels, last);
      hide Holds;
      assert forall i :: 0 <= i < |rs| ==> rs[i] == if i < |front| then front[i] else last;
    }
  }

  lemma OneRequirement(labels: Labels, r: Requirement)
    ensures Holds(labels, r)
            <==> if r.operator == "In" then r.key in labels && labels[r.key] in r.values.GetOr([])
                 else if r.operator == "NotIn" then r.key !in labels || labels[r.key] !in r.values.GetOr([])
                 else if r.operator == "Exists" then r.key in labels
                 else if r.operator == "DoesNotExist" then r.key !in labels
                 else true
  {
    assert |"In"| == 2 && |"NotIn"| == 5 && |"Exists"| == 6 && |"DoesNotExist"| == 12;
  }

  /** The match in the selector's own terms: every label pair is present and every requirement holds, an absent part
      of the selector asking for nothing. */
  lemma MatchMeans(labels: Labels, sel: LabelSelector)
    ensures SatisfiesAll(labels, Constraints(sel))
            <==> && (sel.matchLabels.Some? ==>
                       forall i :: 0 <= i < |sel.matchLabels.value| ==>
                                     var (k, v) := sel.matchLabels.value[i]; k in labels && labels[k] == v)
                 && (sel.matchExpressions.Some? ==>
                       forall i :: 0 <= i < |sel.matchExpressions.value|
                                   ==> Holds(labels, sel.matchExpressions.value[i]))
  {
    hide Holds, Satisfies;
    var ml, exprs := sel.matchLabels.GetOr([]), sel.matchExpressions.GetOr([]);
    LabelsMean(labels, ml);
    ExpressionsMean(labels, exprs);
    SatisfiesAllOf(labels, FromLabels(ml), FromExpressions(exprs));
  }

  // --- the selector string ---------------------------------------------------------------------

  function Render(c: Constraint): string {
    match c
    case Exact(k, v) => k + "=" + v
    case OneOf(k, vs) => k + " in (" + Join(vs, ',') + ")"
    case NoneOf(k, vs) => k + " notin (" + Join(vs, ',') + ")"
    case Exists(k) => k
    case Absent(k) => "!" + k
  }

  function RenderAll(cs: seq<Constraint>): (r: seq<string>)
    ensures |r| == |cs|
  {
    seq(|cs|, i requires 0 <= i < |cs| => Render(cs[i]))
  }

  lemma RenderAllOf(a: seq<Constraint>, b: seq<Constraint>)
    ensures RenderAll(a + b) == RenderAll(a) + RenderAll(b)
  {
    hide Render;
  }

  method LabelSelectorString(sel: LabelSelector) returns (s: string)
    ensures s == Join(RenderAll(Constraints(sel)), ',')
  {
    hide Render;
    var terms: seq<string> := [];
    var ml := sel.matchLabels.GetOr([]);
    for i := 0 to |ml|
      invariant terms == RenderAll(FromLabels(ml[..i]))
    {
      assert ml[..i + 1][..i] == ml[..i];
      RenderAllOf(FromLabels(ml[..i]), [Exact(ml[i].0, ml[i].1)]);
      terms := terms + [Render(Exact(ml[i].0, ml[i].1))];
    }
    assert ml[..|ml|] == ml;
    var more := ExpressionTerms(sel.matchExpressions.GetOr([]));
    RenderAllOf(FromLabels(ml), FromExpressions(sel.matchExpressions.GetOr([])));
    s := Join(terms + more, ',');
  }

  method ExpressionTerms(exprs: seq<Requirement>) returns (terms: seq<string>)
    ensures terms == RenderAll(FromExpressions(exprs))
  {
    hide Render;
    terms := [];
    for i := 0 to |exprs|
      invariant terms == RenderAll(FromExpressions(exprs[..i]))
    {
      assert exprs[..i + 1][..i] == exprs[..i];
      var r := exprs[i];
      var vals := r.values.GetOr([]);
      RenderAllOf(FromExpressions(exprs[..i]), FromRequirement(r));
      if r.operator == "In" {
        terms := terms + [Render(OneOf(r.key, vals))];
      } else if r.operator == "NotIn" {
        terms := terms + [Render(NoneOf(r.key, vals))];
      } else if r.operator == "Exists" {
        terms := terms + [Render(Exists(r.key))];
      } else if r.operator == "DoesNotExist" {
        terms := terms + [Render(Absent(r.key))];
      }
    }
    assert exprs[..|exprs|] == exprs;
  }

  // --- the Kubernetes grammar ----------------------------------------------------------------------

  datatype Token = Word(text: string) | Comma | Open | Close | Bang | Equals | DoubleEquals | NotEquals | Other(c: char)

  predicate IsBlank(c: char) { c == ' ' || c == '\t' || c == '\r' || c == '\n' }

  predicate IsSymbol(c: char) { c in {'=', '!', '(', ')', ',', '<', '>'} }

  predicate IsWordChar(c: char) { !IsBlank(c) && !IsSymbol(c) }

  function WordLength(s: string): (n: nat)
    ensures n <= |s|
  {
    if s == "" || !IsWordChar(s[0]) then 0 else 1 + WordLength(s[1..])
  }

  function Lex(s: string): seq<Token>
    decreases |s|
  {
    if s == "" then []
    else if IsBlank(s[0]) then Lex(s[1..])
    else if s[0] == '=' then if |s| > 1 && s[1] == '=' then [DoubleEquals] + Lex(s[2..]) else [Equals] + Lex(s[1..])
    else if s[0] == '!' then if |s| > 1 && s[1] == '=' then [NotEquals] + Lex(s[2..]) else [Bang] + Lex(s[1..])
    else if s[0] == '(' then [Open] + Lex(s[1..])
    else if s[0] == ')' then [Close] + Lex(s[1..])
    else if s[0] == ',' then [Comma] + Lex(s[1..])
    else if IsSymbol(s[0]) then [Other(s[0])] + Lex(s[1..])
    else
      var n := WordLength(s);
      [Word(s[..n])] + Lex(s[n..])
  }

  /** A value is a word or nothing at all. */
  function ParseValue(ts: seq<Token>): (r: (string, seq<Token>))
    ensures |r.1| <= |ts|
  {
    if ts != [] && ts[0].Word? then (ts[0].text, ts[1..]) else ("", ts)
  }

  /** `value {"," value} ")"` */
  function ParseValues(ts: seq<Token>): (r: Option<(seq<string>, seq<Token>)>)
    ensures r.Some? ==> |r.value.1| < |ts|
    decreases |ts|
  {
    var (v, rest) := ParseValue(ts);
    if rest == [] then None
    else if rest[0] == Close then Some(([v], rest[1..]))
    else if rest[0] == Comma then
      match ParseValues(rest[1..])
      case None => None
      case Some((vs, after)) => Some(([v] + vs, after))
    else None
  }

  function ParseRequirement(ts: seq<Token>): (r: Option<(Constraint, seq<Token>)>)
    ensures r.Some? ==> |r.value.1| < |ts|
  {
    if |ts| >= 2 && ts[0] == Bang && ts[1].Word? then Some((Absent(ts[1].text), ts[2..]))
    else if ts == [] || !ts[0].Word? then None
    else
      var k := ts[0].text;
      if |ts| == 1 || ts[1] == Comma then Some((Exists(k), ts[1..]))
      else if ts[1] == Equals || ts[1] == DoubleEquals then
        var (v, rest) := ParseValue(ts[2..]);
        Some((Exact(k, v), rest))
      else if ts[1] == NotEquals then
        var (v, rest) := ParseValue(ts[2..]);
        Some((NoneOf(k, [v]), rest))
      else if |ts| >= 3 && ts[2] == Open && (ts[1] == Word("in") || ts[1] == Word("notin")) then
        match ParseValues(ts[3..])
        case None => None
        case Some((vs, rest)) => Some((if ts[1] == Word("in") then OneOf(k, vs) else NoneOf(k, vs), rest))
      else None
  }

  function ParseList(ts: seq<Token>): Option<seq<Constraint>>
    decreases |ts|
  {
    match ParseRequirement(ts)
    case None => None
    case Some((c, rest)) =>
      if rest == [] then Some([c])
      else if rest[0] != Comma then None
      else
        match ParseList(rest[1..])
        case None => None
        case Some(cs) => Some([c] + cs)
  }

  /** The API server's reading of a selector string; the empty string selects everything. */
  function ParseSelector(s: string): Option<seq<Constraint>> {
    if Lex(s) == [] then Some([]) else ParseList(Lex(s))
  }

  // --- the string means what the match checks --------------------------------------------------------

  /** Text of one token, or empty: includes every Kubernetes label key and value. */
  predicate IsWordText(s: string) { forall i :: 0 <= i < |s| ==> IsWordChar(s[i]) }

  predicate ValidKey(k: string) { k != "" && IsWordText(k) }

  predicate ValidConstraint(c: Constraint) {
    && ValidKey(c.key)
    && (c.Exact? ==> IsWordText(c.value))
    && (c.OneOf? || c.NoneOf? ==> |c.values| > 0 && forall v :: v in c.values ==> IsWordText(v))
  }

  /** Nothing, or a character that cannot extend a word. */
  predicate EndsWord(rest: string) { rest == "" || !IsWordChar(rest[0]) }

  function ValueTokens(v: string): seq<Token> { if v == "" then [] else [Word(v)] }

  function ValuesTokens(vs: seq<string>): seq<Token>
    requires |vs| > 0
  {
    if |vs| == 1 then ValueTokens(vs[0]) + [Close] else ValueTokens(vs[0]) + [Comma] + ValuesTokens(vs[1..])
  }

  function TermTokens(c: Constraint): seq<Token>
    requires ValidConstraint(c)
  {
    match c
    case Exact(k, v) => [Word(k), Equals] + ValueTokens(v)
    case OneOf(k, vs) => [Word(k), Word("in"), Open] + ValuesTokens(vs)
    case NoneOf(k, vs) => [Word(k), Word("notin"), Open] + ValuesTokens(vs)
    case Exists(k) => [Word(k)]
    case Absent(k) => [Bang, Word(k)]
  }

  lemma {:induction false} WordLengthIs(w: string, rest: string)
    requires IsWordText(w) && EndsWord(rest)
    ensures WordLength(w + rest) == |w|
  {
    if w == "" {
      assert w + rest == rest;
    } else {
      assert (w + rest)[1..] == w[1..] + rest;
      WordLengthIs(w[1..], rest);
    }
  }

  lemma LexWord(w: string, rest: string)
    requires IsWordText(w) && EndsWord(rest)
    ensures Lex(w + rest) == ValueTokens(w) + Lex(rest)
  {
    WordLengthIs(w, rest);
    if w == "" {
      assert w + rest == rest;
    } else {
      assert (w + rest)[..|w|] == w && (w + rest)[|w|..] == rest;
    }
  }

  lemma LexComma(rest: string)
    ensures Lex("," + rest) == [Comma] + Lex(rest)
  {
    assert ("," + rest)[1..] == rest;
  }

  lemma LexOpen(rest: string)
    ensures Lex("(" + rest) == [Open] + Lex(rest)
  {
    assert ("(" + rest)[1..] == rest;
  }

  lemma LexClose(rest: string)
    ensures Lex(")" + rest) == [Close] + Lex(rest)
  {
    assert (")" + rest)[1..] == rest;
  }

  lemma LexBlank(rest: string)
    ensures Lex(" " + rest) == Lex(rest)
  {
    assert (" " + rest)[1..] == rest;
  }

  lemma LexEquals(rest: string)
    requires rest == "" || rest[0] != '='
    ensures Lex("=" + rest) == [Equals] + Lex(rest)
  {
    assert ("=" + rest)[1..] == rest;
  }

  lemma LexBang(rest: string)
    requires rest == "" || rest[0] != '='
    ensures Lex("!" + rest) == [Bang] + Lex(rest)
  {
    assert ("!" + rest)[1..] == rest;
  }

  lemma Assoc(a: string, b: string, c: string)
    ensures (a + b) + c == a + (b + c)
  {
  }

  lemma {:induction false} LexValues(vs: seq<string>, rest: string)
    requires |vs| > 0 && forall v :: v in vs ==> IsWordText(v)
    ensures Lex(Join(vs, ',') + (")" + rest)) == ValuesTokens(vs) + Lex(rest)
  {
    hide Lex;
    var v := vs[0];
    assert v in vs;
    if |vs| == 1 {
      LexWord(v, ")" + rest);
      LexClose(rest);
    } else {
      var inner := Join(vs[1..], ',') + (")" + rest);
      assert Join(vs, ',') + (")" + rest) == v + ("," + inner) by {
        Assoc(v + ",", Join(vs[1..], ','), ")" + rest);
        Assoc(v, ",", inner);
      }
      LexWord(v, "," + inner);
      LexComma(inner);
      LexValues(vs[1..], rest);
    }
  }

  lemma LexSet(k: string, op: string, vs: seq<string>, rest: string)
    requires ValidKey(k) && ValidKey(op) && |vs| > 0 && forall v :: v in vs ==> IsWordText(v)
    ensures Lex(k + (" " + (op + (" " + ("(" + (Join(vs, ',') + (")" + rest)))))))
            == [Word(k), Word(op), Open] + ValuesTokens(vs) + Lex(rest)
  {
    hide Lex;
    var inner := Join(vs, ',') + (")" + rest);
    LexHead(k, op, inner);
    LexValues(vs, rest);
  }

  lemma LexHead(k: string, op: string, inner: string)
    requires ValidKey(k) && ValidKey(op)
    ensures Lex(k + (" " + (op + (" " + ("(" + inner))))) == [Word(k), Word(op), Open] + Lex(inner)
  {
    hide Lex;
    var t := " " + ("(" + inner);
    LexOpen(inner);
    LexBlank("(" + inner);
    LexWord(op, t);
    LexBlank(op + t);
    LexWord(k, " " + (op + t));
  }

  /** A rendered set term, regrouped from the right. */
  lemma RegroupSet(k: string, op: string, joined: string, rest: string)
    ensures k + (" " + op + " (") + joined + ")" + rest == k + (" " + (op + (" " + ("(" + (joined + (")" + rest))))))
  {
    var tail := joined + (")" + rest);
    var left := k + (" " + op + " (") + joined + ")" + rest;
    assert " (" == " " + "(";
    Assoc(k + (" " + op + " (") + joined, ")", rest);
    Assoc(k + (" " + op + " ("), joined, ")" + rest);
    assert left == k + (" " + op + " (") + tail;
    Assoc(k, " " + op + " (", tail);
    Assoc(" " + op, " (", tail);
    Assoc(" ", op, " (" + tail);
    Assoc(" ", "(", tail);
  }

  lemma LexExact(k: string, v: string, rest: string)
    requires ValidKey(k) && IsWordText(v) && EndsWord(rest) && (v + rest == "" || (v + rest)[0] != '=')
    ensures Lex(k + "=" + v + rest) == [Word(k), Equals] + ValueTokens(v) + Lex(rest)
  {
    hide Lex, IsWordText;
    var tail := v + rest;
    assert k + "=" + v + rest == k + ("=" + tail) by {
      Assoc(k + "=", v, rest);
      Assoc(k, "=", tail);
    }
    assert ("=" + tail)[0] == '=';
    LexWord(k, "=" + tail);
    LexEquals(tail);
    LexWord(v, rest);
    TokensInOrder(Word(k), Equals, ValueTokens(v), Lex(rest));
  }

  lemma TokensInOrder(a: Token, b: Token, vs: seq<Token>, rest: seq<Token>)
    ensures [a] + ([b] + (vs + rest)) == [a, b] + vs + rest
  {
  }

  lemma LexAbsent(k: string, rest: string)
    requires ValidKey(k) && EndsWord(rest)
    ensures Lex("!" + k + rest) == [Bang, Word(k)] + Lex(rest)
  {
    hide Lex;
    Assoc("!", k, rest);
    LexBang(k + rest);
    LexWord(k, rest);
  }

  lemma LexTerm(c: Constraint, rest: string)
    requires ValidConstraint(c) && (rest == "" || rest[0] == ',')
    ensures Lex(Render(c) + rest) == TermTokens(c) + Lex(rest)
  {
    hide Lex, ValuesTokens, Join;
    match c
    case Exact(k, v) =>
      LexExact(k, v, rest);
    case OneOf(k, vs) =>
      assert " in (" == " " + "in" + " (";
      RegroupSet(k, "in", Join(vs, ','), rest);
      LexSet(k, "in", vs, rest);
    case NoneOf(k, vs) =>
      assert " notin (" == " " + "notin" + " (";
      RegroupSet(k, "notin", Join(vs, ','), rest);
      LexSet(k, "notin", vs, rest);
    case Exists(k) =>
      LexWord(k, rest);
    case Absent(k) =>
      LexAbsent(k, rest);
  }

  lemma {:induction false} ParseValuesBack(vs: seq<string>, rest: seq<Token>)
    requires |vs| > 0 && forall v :: v in vs ==> IsWordText(v)
    ensures ParseValues(ValuesTokens(vs) + rest) == Some((vs, rest))
    decreases |vs|
  {
    var ts := ValuesTokens(vs) + rest;
    var n := |ValueTokens(vs[0])|;
    assert ParseValue(ts) == (vs[0], ts[n..]);
    if |vs| == 1 {
      assert ts[n..] == [Close] + rest;
      assert [vs[0]] == vs;
    } else {
      assert ts[n..] == [Comma] + (ValuesTokens(vs[1..]) + rest);
      assert ts[n..][1..] == ValuesTokens(vs[1..]) + rest;
      ParseValuesBack(vs[1..], rest);
      assert [vs[0]] + vs[1..] == vs;
    }
  }

  lemma ParseSetBack(k: string, isIn: bool, vs: seq<string>, inner: seq<Token>, rest: seq<Token>)
    requires ParseValues(inner) == Some((vs, rest))
    ensures ParseRequirement([Word(k), Word(if isIn then "in" else "notin"), Open] + inner)
            == Some((if isIn then OneOf(k, vs) else NoneOf(k, vs), rest))
  {
    hide ParseValues;
    var ts := [Word(k), Word(if isIn then "in" else "notin"), Open] + inner;
    assert ts[3..] == inner && ts[0] == Word(k) && ts[2] == Open;
    assert |"in"| != |"notin"|;
  }

  lemma ParseExactBack(k: string, v: string, rest: seq<Token>)
    requires rest == [] || rest[0] == Comma
    ensures ParseRequirement([Word(k), Equals] + ValueTokens(v) + rest) == Some((Exact(k, v), rest))
  {
    hide ParseValues;
    var ts := [Word(k), Equals] + ValueTokens(v) + rest;
    assert ts[2..] == ValueTokens(v) + rest;
    assert v != "" ==> (ValueTokens(v) + rest)[1..] == rest;
    assert ParseValue(ts[2..]) == (v, rest);
  }

  lemma ParseKeyBack(k: string, rest: seq<Token>)
    requires rest == [] || rest[0] == Comma
    ensures ParseRequirement([Word(k)] + rest) == Some((Exists(k), rest))
    ensures ParseRequirement([Bang, Word(k)] + rest) == Some((Absent(k), rest))
  {
    hide ParseValues;
    assert ([Word(k)] + rest)[1..] == rest && ([Bang, Word(k)] + rest)[2..] == rest;
  }

  lemma ParseTermBack(c: Constraint, rest: seq<Token>)
    requires ValidConstraint(c) && (rest == [] || rest[0] == Comma)
    ensures ParseRequirement(TermTokens(c) + rest) == Some((c, rest))
  {
    hide ParseValues, ValuesTokens, ValueTokens, ParseRequirement;
    match c
    case Exact(k, v) =>
      ParseExactBack(k, v, rest);
    case OneOf(k, vs) =>
      ParseValuesBack(vs, rest);
      assert TermTokens(c) + rest == [Word(k), Word("in"), Open] + (ValuesTokens(vs) + rest);
      ParseSetBack(k, true, vs, ValuesTokens(vs) + rest, rest);
    case NoneOf(k, vs) =>
      ParseValuesBack(vs, rest);
      assert TermTokens(c) + rest == [Word(k), Word("notin"), Open] + (ValuesTokens(vs) + rest);
      ParseSetBack(k, false, vs, ValuesTokens(vs) + rest, rest);
    case Exists(k) =>
      ParseKeyBack(k, rest);
    case Absent(k) =>
      ParseKeyBack(k, rest);
  }

  lemma {:induction false} ParseListBack(cs: seq<Constraint>)
    requires |cs| > 0 && forall c :: c in cs ==> ValidConstraint(c)
    ensures ParseList(Lex(Join(RenderAll(cs), ','))) == Some(cs)
    decreases |cs|
  {
    hide Lex, TermTokens, ParseRequirement, Render;
    var c := cs[0];
    assert c in cs;
    if |cs| == 1 {
      assert RenderAll(cs) == [Render(c)];
      assert Render(c) + "" == Render(c);
      LexTerm(c, "");
      LexNothing();
      ParseTermBack(c, []);
      assert TermTokens(c) + [] == TermTokens(c);
      assert [c] == cs;
    } else {
      var tail := Join(RenderAll(cs[1..]), ',');
      assert RenderAll(cs)[1..] == RenderAll(cs[1..]);
      Assoc(Render(c), ",", tail);
      LexTerm(c, "," + tail);
      LexComma(tail);
      ParseTermBack(c, [Comma] + Lex(tail));
      assert ([Comma] + Lex(tail))[1..] == Lex(tail);
      ParseListBack(cs[1..]);
      assert [c] + cs[1..] == cs;
    }
  }

  lemma LexNothing()
    ensures Lex("") == []
  {
  }

  // --- empty lists ---------------------------------------------------------------------------------------

  predicate EmptyList(c: Constraint) { (c.OneOf? || c.NoneOf?) && c.values == [] }

  /** Keys and values are word text, as every Kubernetes label key and value is; lists may be empty. */
  predicate WordConstraint(c: Constraint) {
    && ValidKey(c.key)
    && (c.Exact? ==> IsWordText(c.value))
    && (c.OneOf? || c.NoneOf? ==> forall v :: v in c.values ==> IsWordText(v))
  }

  /** How the API server reads a rendered constraint: `()` is the set of the empty value. */
  function AsRead(c: Constraint): Constraint {
    if EmptyList(c) then c.(values := [""]) else c
  }

  function AllAsRead(cs: seq<Constraint>): (r: seq<Constraint>)
    ensures |r| == |cs|
  {
    seq(|cs|, i requires 0 <= i < |cs| => AsRead(cs[i]))
  }

  lemma ReadRendersAlike(c: Constraint)
    requires WordConstraint(c)
    ensures Render(AsRead(c)) == Render(c) && ValidConstraint(AsRead(c))
    ensures AsRead(c) == c <==> !EmptyList(c)
  {
    assert Join([""], ',') == "" == Join([], ',');
  }

  predicate WordSelector(sel: LabelSelector) {
    forall c :: c in Constraints(sel) ==> WordConstraint(c)
  }

  /** The rendered string, parsed by the Kubernetes grammar, is the selector's own constraints with each empty list read
      as the set of the empty value; so it asks for exactly what the client-side match checks if and only if no `In` or
      `NotIn` list is empty. */
  lemma SelectorStringMeansTheMatch(sel: LabelSelector)
    requires WordSelector(sel)
    ensures var read := ParseSelector(Join(RenderAll(Constraints(sel)), ','));
            && read == Some(AllAsRead(Constraints(sel)))
            && (read == Some(Constraints(sel)) <==> forall c :: c in Constraints(sel) ==> !EmptyList(c))
  {
    hide Render, AsRead, EmptyList, ParseList, Lex, ValidConstraint, WordConstraint, Constraints, Join;
    var cs := Constraints(sel);
    var rs := AllAsRead(cs);
    forall i | 0 <= i < |cs|
      ensures Render(rs[i]) == Render(cs[i]) && ValidConstraint(rs[i]) && (rs[i] == cs[i] <==> !EmptyList(cs[i]))
    {
      assert cs[i] in cs;
      ReadRendersAlike(cs[i]);
    }
    assert RenderAll(rs) == RenderAll(cs);
    assert rs == cs <==> forall i :: 0 <= i < |cs| ==> rs[i] == cs[i];
    if cs == [] {
      JoinNothing();
      LexNothing();
    } else {
      ParseListBack(rs);
      NothingIsNoList();
    }
  }

  lemma JoinNothing()
    ensures Join([], ',') == ""
  {
  }

  lemma NothingIsNoList()
    ensures ParseList([]) == None
  {
  }

  /** One constraint: the two readings of it differ exactly on labels that send the key of an empty list to the empty
      value, so they agree on every labelling exactly when its list is not empty. */
  lemma ReadingsDifferIff(c: Constraint)
    ensures forall labels: Labels :: (Satisfies(labels, AsRead(c)) <==> Satisfies(labels, c))
                                     <==> !(EmptyList(c) && c.key in labels && labels[c.key] == "")
    ensures (forall labels: Labels :: Satisfies(labels, AsRead(c)) <==> Satisfies(labels, c)) <==> !EmptyList(c)
  {
    if EmptyList(c) {
      var labels: Labels := map[c.key := ""];
      assert Satisfies(labels, AsRead(c)) != Satisfies(labels, c);
    }
  }

  /** The API server's listing and the local match select the same objects, except where an object carries the key of an
      empty list with the empty value. */
  lemma SelectionsAgree(sel: LabelSelector, labels: Labels)
    requires WordSelector(sel)
    requires forall c :: c in Constraints(sel) && EmptyList(c) ==> !(c.key in labels && labels[c.key] == "")
    ensures var read := ParseSelector(Join(RenderAll(Constraints(sel)), ','));
            read.Some? && (SatisfiesAll(labels, read.value) <==> SatisfiesAll(labels, Constraints(sel)))
  {
    hide Render, AsRead, EmptyList, ParseSelector, Constraints, Satisfies, WordSelector;
    SelectorStringMeansTheMatch(sel);
    var cs := Constraints(sel);
    forall i | 0 <= i < |cs| ensures Satisfies(labels, AllAsRead(cs)[i]) <==> Satisfies(labels, cs[i]) {
      assert cs[i] in cs;
      ReadingsDifferIff(cs[i]);
    }
  }

  /** The exception is real for both operators and every key: an empty `In` matches nothing locally and an empty `NotIn`
      everything, while the string selects exactly the other way on an object whose label is empty. */
  lemma EmptyListsDisagree(k: string, operator: string, values: Option<seq<string>>)
    requires ValidKey(k) && operator in {"In", "NotIn"} && values.GetOr([]) == []
    ensures var sel := LabelSelector(None, Some([Requirement(k, operator, values)]));
            var labels: Labels := map[k := ""];
            var read := ParseSelector(Join(RenderAll(Constraints(sel)), ','));
            && read.Some? && SatisfiesAll(labels, read.value) == (operator == "In")
            && SatisfiesAll(labels, Constraints(sel)) == (operator == "NotIn")
  {
    hide ParseSelector, RenderAll, Join, IsWordText;
    var r := Requirement(k, operator, values);
    var sel := LabelSelector(None, Some([r]));
    var c := if operator == "In" then OneOf(k, []) else NoneOf(k, []);
    assert [r][..0] == [];
    assert FromExpressions([r]) == FromRequirement(r) == [c];
    assert Constraints(sel) == [c];
    SelectorStringMeansTheMatch(sel);
    assert AllAsRead([c]) == [AsRead(c)];
    var labels: Labels := map[k := ""];
    OneConstraint(labels, c);
    OneConstraint(labels, AsRead(c));
  }

  lemma OneConstraint(labels: Labels, c: Constraint)
    ensures SatisfiesAll(labels, [c]) <==> Satisfies(labels, c)
  {
    assert [c][0] == c;
  }
}
