/** From a repository to the owner string kopia records for it: the lease string, the hostname
    sanitizer and the `user@hostname` owner. */
module LeaseOwner {
  import opened Text
  import opened Refs

  // --- the sanitizer -----------------------------------------------------------

  predicate IsLower(c: char) { 'a' <= c <= 'z' }

  predicate IsAlnum(c: char) { IsLower(c) || IsDigit(c) }

  function LowerChar(c: char): char {
    if 'A' <= c <= 'Z' then (c as int + 32) as char else c
  }

  function Lower(s: string): (r: string)
    ensures |r| == |s|
  {
    seq(|s|, i requires 0 <= i < |s| => LowerChar(s[i]))
  }

  /** Lowercase, then every character outside `[a-z0-9]` becomes a dash. */
  function Dashed(s: string): (r: string)
    ensures |r| == |s|
    ensures forall i :: 0 <= i < |r| ==> IsAlnum(r[i]) || r[i] == '-'
  {
    seq(|s|, i requires 0 <= i < |s| => if IsAlnum(LowerChar(s[i])) then LowerChar(s[i]) else '-')
  }

  predicate HasDoubleDash(s: string) {
    exists i :: 0 <= i < |s| - 1 && s[i] == '-' && s[i + 1] == '-'
  }

  /** `replace("--", "-")`: non-overlapping, left to right. */
  function ReplaceDoubleDash(s: string): (r: string)
    ensures |r| <= |s|
    ensures (r == "") == (s == "")
    ensures s != "" ==> r[0] == s[0]
    decreases |s|
  {
    if |s| < 2 then s
    else if s[0] == '-' && s[1] == '-' then "-" + ReplaceDoubleDash(s[2..])
    else [s[0]] + ReplaceDoubleDash(s[1..])
  }

  /** The maximal alphanumeric runs of a string, in order. */
  function Words(s: string): (ws: seq<string>)
    ensures s != "" && IsAlnum(s[0]) ==> |ws| > 0
  {
    if s == "" then []
    else if !IsAlnum(s[0]) then Words(s[1..])
    else if |s| > 1 && IsAlnum(s[1]) then
      var ws := Words(s[1..]);
      [[s[0]] + ws[0]] + ws[1..]
    else [[s[0]]] + Words(s[1..])
  }

  predicate IsWord(w: string) {
    w != "" && forall i :: 0 <= i < |w| ==> IsAlnum(w[i])
  }

  /** One-pass specification of the sanitizer: the alphanumeric runs of the lowercased text,
      joined by single dashes. */
  function Sanitized(s: string): string {
    Join(Words(Lower(s)), '-')
  }

  method SanitizeLeaseFragment(s: string) returns (r: string)
    ensures r == Sanitized(s)
  {
    var out := Dashed(s);
    DashedWords(s);
    while HasDoubleDash(out)
      invariant forall i :: 0 <= i < |out| ==> IsAlnum(out[i]) || out[i] == '-'
      invariant Words(out) == Words(Lower(s))
      decreases |out|
    {
      ReplaceShrinks(out);
      ReplaceKeepsWords(out);
      ReplaceKeepsAlphabet(out);
      out := ReplaceDoubleDash(out);
    }
    r := Trim(out, {'-'});
    TrimmedIsJoined(out);
  }

  lemma {:induction false} DashedWords(s: string)
    ensures Words(Dashed(s)) == Words(Lower(s))
  {
    if s != "" {
      DashedWords(s[1..]);
      assert Dashed(s)[1..] == Dashed(s[1..]);
      assert Lower(s)[1..] == Lower(s[1..]);
    }
  }

  lemma {:induction false} ReplaceShrinks(s: string)
    requires HasDoubleDash(s)
    ensures |ReplaceDoubleDash(s)| < |s|
    decreases |s|
  {
    if !(s[0] == '-' && s[1] == '-') {
      var i :| 0 <= i < |s| - 1 && s[i] == '-' && s[i + 1] == '-';
      assert s[1..][i - 1] == '-' && s[1..][i] == '-';
      ReplaceShrinks(s[1..]);
    }
  }

  lemma {:induction false} ReplaceKeepsAlphabet(s: string)
    requires forall i :: 0 <= i < |s| ==> IsAlnum(s[i]) || s[i] == '-'
    ensures forall i :: 0 <= i < |ReplaceDoubleDash(s)|
                        ==> IsAlnum(ReplaceDoubleDash(s)[i]) || ReplaceDoubleDash(s)[i] == '-'
    decreases |s|
  {
    if |s| >= 2 {
      ReplaceKeepsAlphabet(if s[0] == '-' && s[1] == '-' then s[2..] else s[1..]);
    }
  }

  lemma {:induction false} ReplaceKeepsWords(s: string)
    ensures Words(ReplaceDoubleDash(s)) == Words(s)
    decreases |s|
  {
    if |s| >= 2 {
      if s[0] == '-' && s[1] == '-' {
        ReplaceKeepsWords(s[2..]);
        assert ReplaceDoubleDash(s)[1..] == ReplaceDoubleDash(s[2..]);
        assert s[1..][1..] == s[2..];
      } else {
        ReplaceKeepsWords(s[1..]);
        assert ReplaceDoubleDash(s)[1..] == ReplaceDoubleDash(s[1..]);
      }
    }
  }

  lemma {:induction false} WordsDropTrailingDash(s: string)
    ensures Words(s + "-") == Words(s)
  {
    if s != "" {
      WordsDropTrailingDash(s[1..]);
      assert (s + "-")[1..] == s[1..] + "-";
    }
  }

  lemma {:induction false} TrimKeepsWords(s: string)
    ensures Words(TrimStart(s, {'-'})) == Words(s)
    ensures Words(TrimEnd(s, {'-'})) == Words(s)
  {
    if s != "" && s[0] == '-' {
      TrimKeepsWords(s[1..]);
    }
    if s != "" && s[|s| - 1] == '-' {
      TrimKeepsWords(s[..|s| - 1]);
      assert s == s[..|s| - 1] + "-";
      WordsDropTrailingDash(s[..|s| - 1]);
    }
  }

  lemma CleanTail(t: string, i: nat)
    requires Clean(t) && i < |t| && t[i] != '-'
    ensures Clean(t[i..])
  {
    var u := t[i..];
    assert u[|u| - 1] == t[|t| - 1];
    forall k | 0 <= k < |u| - 1 ensures !(u[k] == '-' && u[k + 1] == '-') {
      assert u[k] == t[i + k] && u[k + 1] == t[i + k + 1];
    }
  }

  lemma JoinExtended(c: char, w: string, tail: seq<string>)
    ensures Join([[c] + w] + tail, '-') == [c] + Join([w] + tail, '-')
  {
    if tail == [] {
      assert [[c] + w] + tail == [[c] + w] && [w] + tail == [w];
      JoinOne([c] + w, '-');
      JoinOne(w, '-');
    } else {
      JoinCons(w, tail, '-');
      JoinCons([c] + w, tail, '-');
      Regroup(c, w, Join(tail, '-'));
    }
  }

  lemma Regroup(c: char, w: string, rest: string)
    ensures ([c] + w) + ['-'] + rest == [c] + (w + ['-'] + rest)
  {
  }

  /** Text over `[a-z0-9-]` with no doubled, leading or trailing dash is its own joined runs. */
  lemma {:induction false} CleanIsJoined(t: string)
    requires Clean(t)
    ensures t == Join(Words(t), '-')
    decreases |t|
  {
    if |t| >= 2 {
      if IsAlnum(t[1]) {
        CleanTail(t, 1);
        CleanIsJoined(t[1..]);
        var ws := Words(t[1..]);
        assert ws == [ws[0]] + ws[1..];
        JoinExtended(t[0], ws[0], ws[1..]);
      } else {
        assert t[1] == '-' && |t| > 2 && t[2] != '-';
        assert t[1..][1..] == t[2..];
        CleanTail(t, 2);
        CleanIsJoined(t[2..]);
        assert Words(t[1..]) == Words(t[2..]);
        JoinCons([t[0]], Words(t[2..]), '-');
        assert t == [t[0]] + ['-'] + t[2..];
      }
    }
  }

  lemma TrimmedIsJoined(out: string)
    requires forall i :: 0 <= i < |out| ==> IsAlnum(out[i]) || out[i] == '-'
    requires !HasDoubleDash(out)
    ensures Trim(out, {'-'}) == Join(Words(out), '-')
  {
    var a := TrimStart(out, {'-'});
    var b := TrimEnd(a, {'-'});
    TrimKeepsWords(out);
    TrimKeepsWords(a);
    TrimmedIsClean(out);
    hide TrimStart, TrimEnd, Words;
    CleanIsJoined(b);
  }

  lemma TrimmedIsClean(out: string)
    requires forall i :: 0 <= i < |out| ==> IsAlnum(out[i]) || out[i] == '-'
    requires !HasDoubleDash(out)
    ensures Clean(Trim(out, {'-'}))
  {
    hide TrimStart, TrimEnd, IsAlnum;
    var a := TrimStart(out, {'-'});
    var b := TrimEnd(a, {'-'});
    TrimStartSpec(out, {'-'});
    TrimEndSpec(a, {'-'});
    var m := |out| - |a|;
    forall i | 0 <= i < |b| ensures b[i] == out[m + i] {
      assert b[i] == a[i];
    }
  }

  /** Lowercase alphanumerics with single inner dashes: what the sanitizer leaves alone. */
  predicate Clean(s: string) {
    && (forall i :: 0 <= i < |s| ==> IsAlnum(s[i]) || s[i] == '-')
    && (s != "" ==> s[0] != '-' && s[|s| - 1] != '-')
    && !HasDoubleDash(s)
  }

  lemma {:induction false} WordsAreWords(s: string)
    ensures forall w :: w in Words(s) ==> IsWord(w)
  {
    if s != "" {
      WordsAreWords(s[1..]);
      if |s| > 1 && IsAlnum(s[0]) && IsAlnum(s[1]) {
        var ws := Words(s[1..]);
        assert IsWord(ws[0]);
        assert IsWord([s[0]] + ws[0]);
      }
    }
  }

  lemma {:induction false} JoinedWordsAreClean(ws: seq<string>)
    requires forall w :: w in ws ==> IsWord(w)
    ensures Clean(Join(ws, '-'))
    ensures |ws| > 0 ==> Join(ws, '-') != "" && IsAlnum(Join(ws, '-')[0])
  {
    if |ws| > 0 {
      assert IsWord(ws[0]);
    }
    if |ws| >= 2 {
      JoinedWordsAreClean(ws[1..]);
      var rest := Join(ws[1..], '-');
      var j := Join(ws, '-');
      assert j == ws[0] + ['-'] + rest;
      assert rest != "";
      assert j[|j| - 1] == rest[|rest| - 1];
    }
  }

  /** The sanitizer has no leading, trailing or doubled dash, is idempotent, and fixes exactly the clean strings. */
  lemma SanitizedFixedPoints(s: string)
    ensures Clean(Sanitized(s))
    ensures Sanitized(Sanitized(s)) == Sanitized(s)
    ensures Sanitized(s) == s <==> Clean(s)
  {
    WordsAreWords(Lower(s));
    JoinedWordsAreClean(Words(Lower(s)));
    CleanIsFixed(Sanitized(s));
    if Clean(s) {
      CleanIsFixed(s);
    }
  }

  lemma CleanIsFixed(s: string)
    requires Clean(s)
    ensures Sanitized(s) == s
  {
    assert Lower(s) == s;
    CleanIsJoined(s);
  }

  // --- leases --------------------------------------------------------------------

  function ManagedLease(kind: RepositoryKind, namespace: string, name: string, cluster: Option<string>): string {
    match (kind, cluster)
    case (Repository, None) => "kopiur/" + namespace + "/" + name
    case (Repository, Some(c)) => "kopiur/" + c + "/" + namespace + "/" + name
    case (ClusterRepository, None) => "kopiur/clusterrepository/" + name
    case (ClusterRepository, Some(c)) => "kopiur/" + c + "/clusterrepository/" + name
  }

  /** The path segment that stands for the repository's scope. */
  function Scope(kind: RepositoryKind, namespace: string): string {
    if kind == ClusterRepository then "clusterrepository" else namespace
  }

  function LeaseSegments(kind: RepositoryKind, namespace: string, name: string, cluster: Option<string>): seq<string> {
    if cluster.None? then ["kopiur", Scope(kind, namespace), name]
    else ["kopiur", cluster.value, Scope(kind, namespace), name]
  }

  predicate SlashFree(s: string) { '/' !in s }

  lemma ManagedLeaseJoins(kind: RepositoryKind, namespace: string, name: string, cluster: Option<string>)
    ensures ManagedLease(kind, namespace, name, cluster) == Join(LeaseSegments(kind, namespace, name, cluster), '/')
  {
    hide Join;
    if cluster.None? {
      UnqualifiedJoins(kind, namespace, name);
    } else {
      QualifiedJoins(kind, namespace, name, cluster.value);
    }
  }

  lemma UnqualifiedJoins(kind: RepositoryKind, namespace: string, name: string)
    ensures ManagedLease(kind, namespace, name, None) == Join(["kopiur", Scope(kind, namespace), name], '/')
  {
    hide Join;
    JoinThree("kopiur", Scope(kind, namespace), name, '/');
    assert "kopiur" + ['/'] == "kopiur/";
    assert "kopiur/" + "clusterrepository" + ['/'] == "kopiur/clusterrepository/";
  }

  lemma QualifiedJoins(kind: RepositoryKind, namespace: string, name: string, cluster: string)
    ensures ManagedLease(kind, namespace, name, Some(cluster))
            == Join(["kopiur", cluster, Scope(kind, namespace), name], '/')
  {
    hide Join;
    JoinFour("kopiur", cluster, Scope(kind, namespace), name, '/');
    assert "kopiur" + ['/'] == "kopiur/";
    var head := "kopiur/" + cluster;
    assert head + ['/'] + "clusterrepository" + ['/'] == head + "/clusterrepository/";
  }

  lemma ManagedLeaseSegments(kind: RepositoryKind, namespace: string, name: string, cluster: Option<string>)
    requires SlashFree(namespace) && SlashFree(name) && (cluster.Some? ==> SlashFree(cluster.value))
    ensures Split(ManagedLease(kind, namespace, name, cluster), '/') == LeaseSegments(kind, namespace, name, cluster)
  {
    ManagedLeaseJoins(kind, namespace, name, cluster);
    SplitJoin(LeaseSegments(kind, namespace, name, cluster), '/');
  }

  /** Two repositories share a lease exactly when cluster, scope and name agree; the scope is where a
      namespace called `clusterrepository` is indistinguishable from the cluster-scoped kind. */
  lemma ManagedLeaseCollisions(
    k1: RepositoryKind, ns1: string, n1: string, c1: Option<string>,
    k2: RepositoryKind, ns2: string, n2: string, c2: Option<string>)
    requires SlashFree(ns1) && SlashFree(n1) && (c1.Some? ==> SlashFree(c1.value))
    requires SlashFree(ns2) && SlashFree(n2) && (c2.Some? ==> SlashFree(c2.value))
    ensures ManagedLease(k1, ns1, n1, c1) == ManagedLease(k2, ns2, n2, c2)
            <==> c1 == c2 && n1 == n2 && Scope(k1, ns1) == Scope(k2, ns2)
  {
    ManagedLeaseSegments(k1, ns1, n1, c1);
    ManagedLeaseSegments(k2, ns2, n2, c2);
    var s1, s2 := LeaseSegments(k1, ns1, n1, c1), LeaseSegments(k2, ns2, n2, c2);
    if c1 == c2 && n1 == n2 && Scope(k1, ns1) == Scope(k2, ns2) {
      ManagedLeaseJoins(k1, ns1, n1, c1);
      ManagedLeaseJoins(k2, ns2, n2, c2);
    } else {
      assert s1 != s2;
    }
  }

  /** The repository `name` in a namespace called `clusterrepository` and the cluster-scoped repository `name` share
      one lease, with or without a cluster name. */
  lemma ClusterrepositoryNamespaceCollides(namespace: string, name: string, cluster: Option<string>)
    ensures ManagedLease(Repository, "clusterrepository", name, cluster)
            == ManagedLease(ClusterRepository, namespace, name, cluster)
  {
    ManagedLeaseJoins(Repository, "clusterrepository", name, cluster);
    ManagedLeaseJoins(ClusterRepository, namespace, name, cluster);
  }

  // --- the owner kopia records -----------------------------------------------------

  const LEGACY_HOSTNAME_MAX: nat := 63
  const CLUSTER_HOSTNAME_MAX: nat := 253

  function Take(s: string, n: nat): string {
    if |s| <= n then s else s[..n]
  }

  /** Exactly four segments, the first literally `kopiur`. */
  predicate ClusterQualified(lease: string) {
    var segs := Split(lease, '/');
    |segs| == 4 && segs[0] == "kopiur"
  }

  function SanitizedSegments(lease: string): (r: seq<string>)
    ensures |r| == |Split(lease, '/')|
  {
    var segs := Split(lease, '/');
    seq(|segs|, i requires 0 <= i < |segs| => Sanitized(segs[i]))
  }

  function KopiaLeaseIdentity(lease: string): (string, string) {
    var host :=
      if ClusterQualified(lease) then
        TrimEnd(Take(Join(SanitizedSegments(lease), '.'), CLUSTER_HOSTNAME_MAX), {'.', '-'})
      else
        TrimEnd(Take(Sanitized(lease), LEGACY_HOSTNAME_MAX), {'-'});
    ("kopiur", host)
  }

  function KopiaOwnerForLease(lease: string): string {
    var (user, host) := KopiaLeaseIdentity(lease);
    user + "@" + host
  }

  function HostOf(lease: string): string { KopiaLeaseIdentity(lease).1 }

  lemma OwnerIsHost(l1: string, l2: string)
    ensures KopiaOwnerForLease(l1) == KopiaOwnerForLease(l2) <==> HostOf(l1) == HostOf(l2)
    ensures KopiaOwnerForLease(l1) != ""
  {
    assert KopiaOwnerForLease(l1)[7..] == HostOf(l1);
    assert KopiaOwnerForLease(l2)[7..] == HostOf(l2);
  }

  lemma {:induction false} TrimEndOfPrefix(s: string, n: nat, cs: set<char>)
    requires n <= |s|
    requires forall i :: n <= i < |s| ==> s[i] in cs
    requires n > 0 ==> s[n - 1] !in cs
    ensures TrimEnd(s, cs) == s[..n]
  {
    if n < |s| {
      TrimEndOfPrefix(s[..|s| - 1], n, cs);
      assert s[..|s| - 1][..n] == s[..n];
    }
  }

  /** The number of leading segments that survive the trailing trim. */
  function Significant(segs: seq<string>): (n: nat)
    requires |segs| == 4
    ensures 1 <= n <= 4
    ensures forall i :: n <= i < 4 ==> segs[i] == ""
    ensures n > 1 ==> segs[n - 1] != ""
  {
    if segs[3] != "" then 4 else if segs[2] != "" then 3 else if segs[1] != "" then 2 else 1
  }

  lemma TrimmedJoin(segs: seq<string>)
    requires |segs| == 4 && segs[0] != "" && forall i :: 0 <= i < 4 ==> Clean(segs[i])
    ensures TrimEnd(Join(segs, '.'), {'.', '-'}) == Join(segs[..Significant(segs)], '.')
  {
    var n := Significant(segs);
    JoinPrefix(segs, n);
    JoinEnds(segs[..n]);
    TrimEndOfPrefix(Join(segs, '.'), |Join(segs[..n], '.')|, {'.', '-'});
  }

  // --- the 253-byte cap ------------------------------------------------------------

  /** What a budget of `n` bytes leaves of a segment: the cut may expose a dash, which the final trim removes. */
  function Kept(s: string, n: nat): string { TrimEnd(Take(s, n), {'.', '-'}) }

  /** The dot-joined segments cut to a budget of `n` bytes, segment by segment. */
  function Cut(segs: seq<string>, n: nat): (r: seq<string>)
    ensures |r| == |segs|
  {
    if |segs| == 0 then []
    else if |segs[0]| >= n then [Kept(segs[0], n)] + seq(|segs| - 1, _ => "")
    else [segs[0]] + Cut(segs[1..], n - |segs[0]| - 1)
  }

  /** What the owner keeps of a cluster-qualified lease. */
  function OwnerSegments(lease: string): (r: seq<string>)
    ensures |r| == |Split(lease, '/')|
  {
    Cut(SanitizedSegments(lease), CLUSTER_HOSTNAME_MAX)
  }

  lemma {:induction false} TrimDots(k: nat)
    ensures TrimEnd(Join(seq(k, _ => ""), '.'), {'.', '-'}) == ""
  {
    if k >= 2 {
      var e: seq<string> := seq(k, _ => "");
      assert e == [""] + seq(k - 1, _ => "");
      JoinCons("", seq(k - 1, _ => ""), '.');
      TrimDots(k - 1);
      TrimEndConcat("" + ['.'], Join(seq(k - 1, _ => ""), '.'), {'.', '-'});
    }
  }

  lemma TrimEndTwice(s: string, cs: set<char>)
    ensures TrimEnd(TrimEnd(s, cs), cs) == TrimEnd(s, cs)
  {
    TrimEndSpec(s, cs);
  }

  lemma TrimPadded(x: string, k: nat)
    ensures TrimEnd(Join([x] + seq(k, _ => ""), '.'), {'.', '-'}) == TrimEnd(x, {'.', '-'})
  {
    var dots: seq<string> := seq(k, _ => "");
    if k == 0 {
      assert [x] + dots == [x];
    } else {
      JoinCons(x, dots, '.');
      TrimDots(k);
      TrimEndConcat(x + ['.'], Join(dots, '.'), {'.', '-'});
      TrimEndConcat(x, ['.'], {'.', '-'});
      assert TrimEnd(['.'], {'.', '-'}) == "" by { assert ['.'][..0] == ""; }
    }
  }

  lemma TakeOfConcat(p: string, t: string, n: nat)
    ensures Take(p + t, n) == if |p| <= n then p + Take(t, n - |p|) else Take(p, n)
  {
  }

  /** Cutting the joined text and trimming it is joining the cut segments and trimming that. */
  lemma {:induction false} CutCommutes(segs: seq<string>, n: nat)
    requires |segs| > 0
    ensures TrimEnd(Take(Join(segs, '.'), n), {'.', '-'}) == TrimEnd(Join(Cut(segs, n), '.'), {'.', '-'})
    decreases |segs|
  {
    hide Join, TrimEnd, Take;
    var x, rest := segs[0], segs[1..];
    assert segs == [x] + rest;
    if |x| >= n {
      TrimPadded(Kept(x, n), |segs| - 1);
      TrimEndTwice(Take(x, n), {'.', '-'});
      TakeOfHead(x, rest, n);
    } else if rest == [] {
      assert segs == [x];
      SingleFits(x, n);
    } else {
      var m := n - |x| - 1;
      var p := x + ['.'];
      JoinCons(x, rest, '.');
      JoinCons(x, Cut(rest, m), '.');
      TakeOfConcat(p, Join(rest, '.'), n);
      CutCommutes(rest, m);
      TrimEndConcat(p, Take(Join(rest, '.'), m), {'.', '-'});
      TrimEndConcat(p, Join(Cut(rest, m), '.'), {'.', '-'});
    }
  }

  lemma SingleFits(x: string, n: nat)
    requires |x| < n
    ensures Take(Join([x], '.'), n) == Join(Cut([x], n), '.') == x
  {
    assert Cut([x], n) == [x];
  }

  lemma TakeOfHead(x: string, rest: seq<string>, n: nat)
    requires |x| >= n
    ensures Take(Join([x] + rest, '.'), n) == Take(x, n)
  {
    if rest != [] {
      JoinCons(x, rest, '.');
      assert (x + ['.'] + Join(rest, '.'))[..n] == x[..n];
    } else {
      assert [x] + rest == [x];
    }
  }

  lemma KeptIsClean(s: string, n: nat)
    requires Clean(s)
    ensures Clean(Kept(s, n)) && Kept(s, n) <= s
    ensures |s| <= n ==> Kept(s, n) == s
  {
    var t := Take(s, n);
    TrimEndSpec(t, {'.', '-'});
    var k := Kept(s, n);
    assert k <= t <= s;
    forall i | 0 <= i < |k| - 1 ensures !(k[i] == '-' && k[i + 1] == '-') {
      assert k[i] == s[i] && k[i + 1] == s[i + 1];
    }
  }

  lemma {:induction false} CutIsClean(segs: seq<string>, n: nat)
    requires forall i :: 0 <= i < |segs| ==> Clean(segs[i])
    ensures forall i :: 0 <= i < |segs| ==> Clean(Cut(segs, n)[i])
    decreases |segs|
  {
    hide Clean, Kept;
    if |segs| > 0 {
      KeptIsClean(segs[0], n);
      if |segs[0]| < n {
        CutIsClean(segs[1..], n - |segs[0]| - 1);
        assert forall i :: 1 <= i < |segs| ==> Cut(segs, n)[i] == Cut(segs[1..], n - |segs[0]| - 1)[i - 1];
      } else {
        EmptyIsClean();
      }
    }
  }

  lemma EmptyIsClean()
    ensures Clean("")
  {
  }

  /** Text within the budget is not cut. */
  lemma {:induction false} CutFits(segs: seq<string>, n: nat)
    requires |Join(segs, '.')| <= n && forall i :: 0 <= i < |segs| ==> Clean(segs[i])
    ensures Cut(segs, n) == segs
    decreases |segs|
  {
    hide Clean, Kept;
    if |segs| == 1 {
      KeptIsClean(segs[0], n);
    } else if |segs| > 1 {
      CutFits(segs[1..], n - |segs[0]| - 1);
      assert segs == [segs[0]] + segs[1..];
    }
  }

  /** The hostname of any cluster-qualified lease, capped or not, still splits into what the cap leaves of the
      sanitized segments, trailing empties dropped. Within the cap these are the sanitized segments themselves. */
  lemma QualifiedHostSplits(lease: string)
    requires ClusterQualified(lease)
    ensures Split(HostOf(lease), '.') == OwnerSegments(lease)[..Significant(OwnerSegments(lease))]
    ensures |Join(SanitizedSegments(lease), '.')| <= CLUSTER_HOSTNAME_MAX
            ==> OwnerSegments(lease) == SanitizedSegments(lease)
  {
    hide Split, Join, TrimEnd, Take, Sanitized, Clean, Cut;
    var segs := SanitizedSegments(lease);
    var cut := OwnerSegments(lease);
    OwnerSegmentsAreClean(lease);
    CutCommutes(segs, CLUSTER_HOSTNAME_MAX);
    TrimmedJoin(cut);
    SplitJoin(cut[..Significant(cut)], '.');
    SegmentsAreClean(lease);
    if |Join(segs, '.')| <= CLUSTER_HOSTNAME_MAX {
      CutFits(segs, CLUSTER_HOSTNAME_MAX);
    }
  }

  lemma OwnerSegmentsAreClean(lease: string)
    requires ClusterQualified(lease)
    ensures forall i :: 0 <= i < 4 ==> Clean(OwnerSegments(lease)[i])
    ensures forall p :: p in OwnerSegments(lease) ==> '.' !in p
    ensures OwnerSegments(lease)[0] == "kopiur"
  {
    hide Split, Join, TrimEnd, Take, Sanitized;
    SegmentsAreClean(lease);
    CutIsClean(SanitizedSegments(lease), CLUSTER_HOSTNAME_MAX);
    forall p | p in OwnerSegments(lease) ensures '.' !in p {
      assert Clean(p);
    }
  }

  lemma SegmentsAreClean(lease: string)
    ensures forall i :: 0 <= i < |SanitizedSegments(lease)| ==> Clean(SanitizedSegments(lease)[i])
    ensures forall p :: p in SanitizedSegments(lease) ==> '.' !in p
    ensures ClusterQualified(lease) ==> SanitizedSegments(lease)[0] == "kopiur"
  {
    var segs := SanitizedSegments(lease);
    forall i | 0 <= i < |segs| ensures Clean(segs[i]) && '.' !in segs[i] {
      SanitizedFixedPoints(Split(lease, '/')[i]);
    }
    CleanIsFixed("kopiur");
  }

  /** Empty trailing segments contribute nothing but dots. */
  lemma JoinPrefix(segs: seq<string>, n: nat)
    requires |segs| == 4 && 1 <= n <= 4
    requires forall i :: n <= i < 4 ==> segs[i] == ""
    ensures Join(segs[..n], '.') <= Join(segs, '.')
    ensures forall i :: |Join(segs[..n], '.')| <= i < |Join(segs, '.')| ==> Join(segs, '.')[i] == '.'
  {
    assert Join(segs, '.') == segs[0] + "." + segs[1] + "." + segs[2] + "." + segs[3] by {
      assert segs == [segs[0], segs[1], segs[2], segs[3]];
      JoinFour(segs[0], segs[1], segs[2], segs[3], '.');
    }
    JoinShort(segs, n);
  }

  lemma JoinShort(segs: seq<string>, n: nat)
    requires |segs| == 4 && 1 <= n <= 4
    ensures n == 1 ==> Join(segs[..n], '.') == segs[0]
    ensures n == 2 ==> Join(segs[..n], '.') == segs[0] + "." + segs[1]
    ensures n == 3 ==> Join(segs[..n], '.') == segs[0] + "." + segs[1] + "." + segs[2]
    ensures n == 4 ==> segs[..n] == segs
  {
    if n == 2 {
      assert segs[..2] == [segs[0], segs[1]] && [segs[0], segs[1]][1..] == [segs[1]];
    } else if n == 3 {
      assert segs[..3] == [segs[0], segs[1], segs[2]];
      JoinThree(segs[0], segs[1], segs[2], '.');
    }
  }

  lemma {:induction false} JoinEnds(segs: seq<string>)
    requires |segs| >= 1 && segs[|segs| - 1] != "" && Clean(segs[|segs| - 1])
    ensures Join(segs, '.') != "" && Join(segs, '.')[|Join(segs, '.')| - 1] !in {'.', '-'}
  {
    if |segs| >= 2 {
      JoinEnds(segs[1..]);
    }
  }

  /** Two cluster-qualified leases have the same owner exactly when the cap leaves the same of their sanitized
      segments: no dash can be forged into a boundary, at any length. */
  lemma QualifiedOwnersInjective(l1: string, l2: string)
    requires ClusterQualified(l1) && ClusterQualified(l2)
    ensures KopiaOwnerForLease(l1) == KopiaOwnerForLease(l2) <==> OwnerSegments(l1) == OwnerSegments(l2)
    ensures |Join(SanitizedSegments(l1), '.')| <= CLUSTER_HOSTNAME_MAX ==> OwnerSegments(l1) == SanitizedSegments(l1)
  {
    hide KopiaOwnerForLease, KopiaLeaseIdentity, Split, Join, Cut, SanitizedSegments;
    OwnerIsHost(l1, l2);
    QualifiedHostSplits(l1);
    QualifiedHostSplits(l2);
    var s1, s2 := OwnerSegments(l1), OwnerSegments(l2);
    JoinSplit(HostOf(l1), '.');
    JoinSplit(HostOf(l2), '.');
    if HostOf(l1) == HostOf(l2) {
      SamePrefixSameSegments(s1, s2);
    }
  }

  lemma SamePrefixSameSegments(s1: seq<string>, s2: seq<string>)
    requires |s1| == |s2| == 4 && s1[..Significant(s1)] == s2[..Significant(s2)]
    ensures s1 == s2
  {
    var n := Significant(s1);
    assert |s1[..n]| == n && |s2[..Significant(s2)]| == Significant(s2);
    assert forall i :: 0 <= i < n ==> s1[..n][i] == s1[i] && s2[..n][i] == s2[i];
    assert forall i :: 0 <= i < 4 ==> s1[i] == s2[i];
  }

  /** A lease whose segments the sanitizer leaves alone. */
  predicate CleanLease(lease: string) {
    forall s :: s in Split(lease, '/') ==> Clean(s)
  }

  lemma CleanSegmentsAreVerbatim(lease: string)
    requires CleanLease(lease)
    ensures SanitizedSegments(lease) == Split(lease, '/')
    ensures |Join(SanitizedSegments(lease), '.')| == |lease|
  {
    var segs := Split(lease, '/');
    forall i | 0 <= i < |segs| ensures Sanitized(segs[i]) == segs[i] {
      assert segs[i] in segs;
      CleanIsFixed(segs[i]);
    }
    JoinLength(segs, '.', '/');
    JoinSplit(lease, '/');
  }

  lemma {:induction false} JoinLength(segs: seq<string>, c: char, d: char)
    ensures |Join(segs, c)| == |Join(segs, d)|
  {
    if |segs| >= 2 {
      JoinLength(segs[1..], c, d);
    }
  }

  /** For clean segments the owner is injective on the lease string itself. */
  lemma CleanOwnersAreInjective(l1: string, l2: string)
    requires ClusterQualified(l1) && ClusterQualified(l2) && CleanLease(l1) && CleanLease(l2)
    requires |l1| <= CLUSTER_HOSTNAME_MAX && |l2| <= CLUSTER_HOSTNAME_MAX
    requires KopiaOwnerForLease(l1) == KopiaOwnerForLease(l2)
    ensures l1 == l2
  {
    CleanSegmentsAreVerbatim(l1);
    CleanSegmentsAreVerbatim(l2);
    QualifiedOwnersInjective(l1, l2);
    QualifiedOwnersInjective(l2, l1);
    JoinSplit(l1, '/');
    JoinSplit(l2, '/');
  }

  lemma DoubledDashSanitizes()
    ensures Sanitized("a--b") == Sanitized("a-b")
  {
    assert Lower("a--b") == "a--b" && Lower("a-b") == "a-b";
    WordsOfDoubledDash();
  }

  lemma WordsOfDoubledDash()
    ensures Words("a--b") == Words("a-b")
  {
    ReplaceKeepsWords("a--b");
    assert ReplaceDoubleDash("--b") == "-" + ReplaceDoubleDash("b");
    assert ReplaceDoubleDash("a--b") == "a-b";
  }

  lemma SameSegmentsSameOwner(l1: string, l2: string)
    requires |Split(l1, '/')| == |Split(l2, '/')| == 4
    requires Split(l1, '/')[0] == Split(l2, '/')[0] == "kopiur"
    requires forall i :: 0 <= i < 4 ==> Sanitized(Split(l1, '/')[i]) == Sanitized(Split(l2, '/')[i])
    ensures KopiaOwnerForLease(l1) == KopiaOwnerForLease(l2)
  {
    hide Sanitized, Split, Join, TrimEnd;
    assert SanitizedSegments(l1) == SanitizedSegments(l2);
  }

  /** Two namespaces the sanitizer merges get two leases but one owner. */
  lemma MergedNamespacesCollide(ns1: string, ns2: string, name: string, cluster: string)
    requires SlashFree(ns1) && SlashFree(ns2) && SlashFree(name) && SlashFree(cluster)
    requires ns1 != ns2 && Sanitized(ns1) == Sanitized(ns2)
    ensures ManagedLease(Repository, ns1, name, Some(cluster)) != ManagedLease(Repository, ns2, name, Some(cluster))
    ensures KopiaOwnerForLease(ManagedLease(Repository, ns1, name, Some(cluster)))
            == KopiaOwnerForLease(ManagedLease(Repository, ns2, name, Some(cluster)))
  {
    hide ManagedLease, Sanitized, Split, KopiaOwnerForLease;
    ManagedLeaseCollisions(Repository, ns1, name, Some(cluster), Repository, ns2, name, Some(cluster));
    ManagedLeaseSegments(Repository, ns1, name, Some(cluster));
    ManagedLeaseSegments(Repository, ns2, name, Some(cluster));
    SameSegmentsSameOwner(ManagedLease(Repository, ns1, name, Some(cluster)),
                          ManagedLease(Repository, ns2, name, Some(cluster)));
  }

  /** The cleanliness condition is needed: a doubled dash, legal in a Kubernetes name, collapses. */
  lemma DoubledDashCollides(name: string, cluster: string)
    requires SlashFree(name) && SlashFree(cluster)
    ensures ManagedLease(Repository, "a--b", name, Some(cluster))
            != ManagedLease(Repository, "a-b", name, Some(cluster))
    ensures KopiaOwnerForLease(ManagedLease(Repository, "a--b", name, Some(cluster)))
            == KopiaOwnerForLease(ManagedLease(Repository, "a-b", name, Some(cluster)))
  {
    hide ManagedLease, Sanitized, KopiaOwnerForLease;
    DoubledDashSanitizes();
    MergedNamespacesCollide("a--b", "a-b", name, cluster);
  }

  /** The budget the leading segments leave to the next one. */
  function Room(front: seq<string>, n: nat): nat {
    if |front| == 0 then n else if |front[0]| >= n then 0 else Room(front[1..], n - |front[0]| - 1)
  }

  lemma {:induction false} CutLast(front: seq<string>, x: string, n: nat)
    requires Clean(x)
    ensures Cut(front + [x], n) == Cut(front, n) + [Kept(x, Room(front, n))]
    decreases |front|
  {
    hide Clean, Kept;
    var segs := front + [x];
    if |front| == 0 {
      KeptIsClean(x, n);
      assert segs == [x];
    } else {
      assert segs[0] == front[0] && segs[1..] == front[1..] + [x];
      if |front[0]| < n {
        CutLast(front[1..], x, n - |front[0]| - 1);
      } else {
        KeptNothing(x);
      }
    }
  }

  lemma KeptNothing(x: string)
    ensures Kept(x, 0) == ""
  {
  }

  /** How much of its sanitized name a managed repository's owner has room for. */
  function NameRoom(kind: RepositoryKind, namespace: string, cluster: string): nat {
    var used := |"kopiur"| + 1 + |Sanitized(cluster)| + 1 + |Sanitized(Scope(kind, namespace))| + 1;
    if used >= CLUSTER_HOSTNAME_MAX then 0 else CLUSTER_HOSTNAME_MAX - used
  }

  lemma ManagedOwnerSegments(kind: RepositoryKind, namespace: string, name: string, cluster: string)
    requires SlashFree(namespace) && SlashFree(name) && SlashFree(cluster)
    ensures var lease := ManagedLease(kind, namespace, name, Some(cluster));
            var front := ["kopiur", Sanitized(cluster), Sanitized(Scope(kind, namespace))];
            && ClusterQualified(lease) && SanitizedSegments(lease) == front + [Sanitized(name)]
            && OwnerSegments(lease)
               == Cut(front, CLUSTER_HOSTNAME_MAX) + [Kept(Sanitized(name), NameRoom(kind, namespace, cluster))]
  {
    hide ManagedLease, Split, Sanitized, Kept, Cut;
    var lease := ManagedLease(kind, namespace, name, Some(cluster));
    var front := ["kopiur", Sanitized(cluster), Sanitized(Scope(kind, namespace))];
    ManagedLeaseSegments(kind, namespace, name, Some(cluster));
    SegmentsAreClean(lease);
    assert SanitizedSegments(lease) == front + [Sanitized(name)];
    SanitizedFixedPoints(name);
    CutLast(front, Sanitized(name), CLUSTER_HOSTNAME_MAX);
    RoomOfThree(front[0], front[1], front[2], CLUSTER_HOSTNAME_MAX);
  }

  lemma RoomOfNothing(n: nat)
    ensures Room([], n) == n
  {
  }

  lemma RoomStep(x: string, rest: seq<string>, n: nat)
    ensures Room([x] + rest, n) == if |x| >= n then 0 else Room(rest, n - |x| - 1)
  {
    assert ([x] + rest)[1..] == rest;
  }

  lemma RoomOfThree(x: string, y: string, z: string, n: nat)
    ensures var used := |x| + 1 + |y| + 1 + |z| + 1; Room([x, y, z], n) == if used >= n then 0 else n - used
  {
    hide Room;
    assert [x, y, z] == [x] + [y, z] && [y, z] == [y] + [z] && [z] == [z] + [];
    RoomStep(x, [y, z], n);
    if |x| < n {
      var m := n - |x| - 1;
      RoomStep(y, [z], m);
      if |y| < m {
        RoomStep(z, [], m - |y| - 1);
        if |z| < m - |y| - 1 {
          RoomOfNothing(m - |y| - 1 - |z| - 1);
        }
      }
    }
  }

  /** Two names in one cluster and scope, of any length, get one owner exactly when what the cap has room for agrees. */
  lemma NamesCollideIff(kind: RepositoryKind, namespace: string, cluster: string, n1: string, n2: string)
    requires SlashFree(namespace) && SlashFree(cluster) && SlashFree(n1) && SlashFree(n2)
    ensures KopiaOwnerForLease(ManagedLease(kind, namespace, n1, Some(cluster)))
            == KopiaOwnerForLease(ManagedLease(kind, namespace, n2, Some(cluster)))
            <==> Kept(Sanitized(n1), NameRoom(kind, namespace, cluster))
                 == Kept(Sanitized(n2), NameRoom(kind, namespace, cluster))
  {
    hide ManagedLease, Split, Sanitized, Kept, Cut, KopiaOwnerForLease, SanitizedSegments, OwnerSegments, NameRoom;
    ManagedOwnerSegments(kind, namespace, n1, cluster);
    ManagedOwnerSegments(kind, namespace, n2, cluster);
    QualifiedOwnersInjective(ManagedLease(kind, namespace, n1, Some(cluster)),
                             ManagedLease(kind, namespace, n2, Some(cluster)));
    var room := NameRoom(kind, namespace, cluster);
    LastOfSegments(Cut(["kopiur", Sanitized(cluster), Sanitized(Scope(kind, namespace))], CLUSTER_HOSTNAME_MAX),
                   Kept(Sanitized(n1), room), Kept(Sanitized(n2), room));
  }

  lemma LastOfSegments(front: seq<string>, x: string, y: string)
    ensures front + [x] == front + [y] <==> x == y
  {
    assert (front + [x])[|front|] == x && (front + [y])[|front|] == y;
  }

  /** The cap is reached by legal names: a 63-byte namespace and two 253-byte object names that differ in their last
      byte give two leases and one owner. */
  lemma LongNamesCollide()
    ensures var ns := Letters(63, 'a'); var n1 := Letters(253, 'a'); var n2 := Letters(252, 'a') + "b";
            && Clean(ns) && Clean(n1) && Clean(n2)
            && ManagedLease(Repository, ns, n1, Some("east")) != ManagedLease(Repository, ns, n2, Some("east"))
            && KopiaOwnerForLease(ManagedLease(Repository, ns, n1, Some("east")))
               == KopiaOwnerForLease(ManagedLease(Repository, ns, n2, Some("east")))
  {
    hide ManagedLease, Sanitized, KopiaOwnerForLease;
    var ns, n1, n2 := Letters(63, 'a'), Letters(253, 'a'), Letters(252, 'a') + "b";
    assert n1[252] != n2[252];
    ManagedLeaseCollisions(Repository, ns, n1, Some("east"), Repository, ns, n2, Some("east"));
    CleanIsFixed(ns);
    CleanIsFixed(n1);
    CleanIsFixed(n2);
    CleanIsFixed("east");
    var room := NameRoom(Repository, ns, "east");
    assert room == 177;
    assert Take(n1, room) == Take(n2, room);
    NamesCollideIff(Repository, ns, "east", n1, n2);
  }

  /** A legacy hostname is the longest prefix of the sanitized lease within 63 bytes that does not end
      in a dash; it never contains a dot. */
  lemma LegacyHost(lease: string)
    requires !ClusterQualified(lease)
    ensures HostOf(lease) <= Sanitized(lease) && |HostOf(lease)| <= 63
    ensures forall i :: |HostOf(lease)| <= i < |Sanitized(lease)| && i < 63 ==> Sanitized(lease)[i] == '-'
    ensures HostOf(lease) != "" ==> HostOf(lease)[|HostOf(lease)| - 1] != '-'
    ensures '.' !in HostOf(lease)
  {
    SanitizedFixedPoints(lease);
    TrimEndSpec(Take(Sanitized(lease), 63), {'-'});
  }

  /** A cluster-qualified hostname is the longest prefix of the dot-joined sanitized segments within 253 bytes that
      ends in neither dot nor dash. */
  lemma QualifiedHost(lease: string)
    requires ClusterQualified(lease)
    ensures var joined := Join(SanitizedSegments(lease), '.');
            && HostOf(lease) <= joined && |HostOf(lease)| <= 253
            && (forall i :: |HostOf(lease)| <= i < |joined| && i < 253 ==> joined[i] == '.' || joined[i] == '-')
            && (HostOf(lease) != "" ==> HostOf(lease)[|HostOf(lease)| - 1] !in {'.', '-'})
  {
    hide SanitizedSegments, Join, Split, TrimEnd;
    TrimEndSpec(Take(Join(SanitizedSegments(lease), '.'), 253), {'.', '-'});
  }

  /** A cluster-qualified owner is also some legacy owner exactly when nothing after `kopiur` survives. */
  lemma QualifiedNeverLegacy(lease: string)
    requires ClusterQualified(lease)
    ensures (exists legacy :: !ClusterQualified(legacy) && KopiaOwnerForLease(legacy) == KopiaOwnerForLease(lease))
            <==> (forall i :: 1 <= i < 4 ==> OwnerSegments(lease)[i] == "")
  {
    hide KopiaOwnerForLease, KopiaLeaseIdentity, Split, Join, Cut, SanitizedSegments;
    var segs := OwnerSegments(lease);
    QualifiedHostSplits(lease);
    OwnerSegmentsAreClean(lease);
    if forall i :: 1 <= i < 4 ==> segs[i] == "" {
      JoinSplit(HostOf(lease), '.');
      assert segs[..1] == ["kopiur"];
      JoinOne("kopiur", '.');
      BareKopiurHost();
      OwnerIsHost("kopiur", lease);
    } else {
      DotInHost(lease);
      forall legacy | !ClusterQualified(legacy) ensures KopiaOwnerForLease(legacy) != KopiaOwnerForLease(lease) {
        LegacyHost(legacy);
        OwnerIsHost(legacy, lease);
      }
    }
  }

  lemma BareKopiurHost()
    ensures !ClusterQualified("kopiur") && HostOf("kopiur") == "kopiur"
  {
    CleanIsFixed("kopiur");
    hide Split, Sanitized;
    SplitOne("kopiur", '/');
    assert TrimEnd("kopiur", {'-'}) == "kopiur";
  }

  lemma DotInHost(lease: string)
    requires ClusterQualified(lease)
    requires exists i :: 1 <= i < 4 && OwnerSegments(lease)[i] != ""
    ensures '.' in HostOf(lease)
  {
    hide KopiaLeaseIdentity, Join, Cut, SanitizedSegments;
    QualifiedHostSplits(lease);
    var host := HostOf(lease);
    assert Significant(OwnerSegments(lease)) > 1;
    assert |Split(host, '.')| > 1;
    assert FirstIndex(host, '.') < |host|;
  }

  // --- spelled out -----------------------------------------------------------------

  /** A run of letters and digits, either case. */
  predicate IsRun(w: string) {
    w != "" && forall i :: 0 <= i < |w| ==> 'a' <= w[i] <= 'z' || 'A' <= w[i] <= 'Z' || '0' <= w[i] <= '9'
  }

  /** The same run in lower case. */
  predicate LowerOf(r: string, w: string) {
    && |r| == |w|
    && forall i :: 0 <= i < |w| ==> if 'A' <= w[i] <= 'Z' then r[i] as int == w[i] as int + 32 else r[i] == w[i]
  }

  lemma {:induction false} WordsOfRun(w: string, rest: string)
    requires IsWord(w) && (rest == "" || !IsAlnum(rest[0]))
    ensures Words(w + rest) == [w] + Words(rest)
    decreases |w|
  {
    var s := w + rest;
    assert s[0] == w[0] && s[1..] == w[1..] + rest;
    if |w| > 1 {
      assert s[1] == w[1];
      WordsOfRun(w[1..], rest);
      assert [w[0]] + w[1..] == w;
    } else {
      assert s[1..] == rest && w == [w[0]];
    }
  }

  lemma LowerRun(w: string)
    requires IsRun(w)
    ensures IsWord(Lower(w)) && LowerOf(Lower(w), w)
  {
  }

  /** The sanitizer on two runs: each comes out in lower case, and whatever single character stands between them, if
      it is no letter or digit, becomes a dash. */
  lemma RunsAreJoinedByADash(x: string, c: char, y: string)
    requires IsRun(x) && IsRun(y) && !IsRun([c])
    ensures LowerOf(Sanitized(x), x)
    ensures exists a, b :: LowerOf(a, x) && LowerOf(b, y) && Sanitized(x + [c] + y) == a + "-" + b
  {
    hide LowerOf, IsAlnum, Words;
    var a, b := Lower(x), Lower(y);
    LowerRun(x);
    LowerRun(y);
    SeparatorIsNoAlnum(c);
    assert Lower(x + [c] + y) == a + ([LowerChar(c)] + b);
    NothingHasNoWords();
    WordsOfRun(a, "");
    WordsOfRun(b, "");
    assert a + "" == a && b + "" == b;
    WordsOfRun(a, [LowerChar(c)] + b);
    SkipSeparator(LowerChar(c), b);
    JoinOne(a, '-');
    assert [a] + [] == [a] && [b] + [] == [b];
    JoinCons(a, [b], '-');
    JoinOne(b, '-');
  }

  lemma NothingHasNoWords()
    ensures Words("") == []
  {
  }

  lemma SeparatorIsNoAlnum(c: char)
    requires !IsRun([c])
    ensures !IsAlnum(LowerChar(c))
  {
    assert [c][0] == c;
  }

  lemma SkipSeparator(c: char, b: string)
    requires !IsAlnum(c)
    ensures Words([c] + b) == Words(b)
  {
    assert ([c] + b)[1..] == b;
  }

  /** The documented leases of a namespaced repository, without and with a cluster name. */
  lemma DocumentedLeases()
    ensures ManagedLease(Repository, "media", "nas", None) == "kopiur/media/nas"
    ensures ManagedLease(Repository, "media", "nas", Some("east")) == "kopiur/east/media/nas"
  {
    assert "kopiur/" + "media" == "kopiur/media" && "kopiur/media" + "/" == "kopiur/media/";
    assert "kopiur/" + "east" == "kopiur/east" && "kopiur/east" + "/" == "kopiur/east/";
    assert "kopiur/east/" + "media" == "kopiur/east/media" && "kopiur/east/media" + "/" == "kopiur/east/media/";
  }

  /** The documented leases of a cluster-scoped repository. */
  lemma DocumentedClusterLeases()
    ensures ManagedLease(ClusterRepository, "ignored", "shared", None) == "kopiur/clusterrepository/shared"
    ensures ManagedLease(ClusterRepository, "ignored", "shared", Some("east")) == "kopiur/east/clusterrepository/shared"
  {
    assert "kopiur/" + "east" == "kopiur/east";
    assert "kopiur/east" + "/clusterrepository/" == "kopiur/east/clusterrepository/";
  }

  /** The documented owner of a named cluster's lease: its segments, joined by dots. */
  lemma DocumentedOwner()
    ensures KopiaOwnerForLease("kopiur/east/media/nas") == "kopiur@kopiur.east.media.nas"
  {
    hide KopiaOwnerForLease, ManagedLease, Split, Join, Sanitized, SanitizedSegments, ClusterQualified;
    var lease := "kopiur/east/media/nas";
    DocumentedLeases();
    DocumentedLeaseSegments(lease);
    JoinedByDots();
    var joined := "kopiur.east.media.nas";
    assert joined[|joined| - 1] == 's';
    ShortHost(lease, joined);
  }

  lemma DocumentedLeaseSegments(lease: string)
    requires lease == ManagedLease(Repository, "media", "nas", Some("east"))
    ensures ClusterQualified(lease) && SanitizedSegments(lease) == ["kopiur", "east", "media", "nas"]
  {
    hide ManagedLease, Split, Sanitized, Cut, Kept, SanitizedSegments, OwnerSegments, NameRoom, ClusterQualified;
    DocumentedSegments();
    ManagedOwnerSegments(Repository, "media", "nas", "east");
    assert ["kopiur", "east", "media"] + ["nas"] == ["kopiur", "east", "media", "nas"];
  }

  lemma DocumentedSegments()
    ensures Sanitized("east") == "east" && Sanitized("media") == "media" && Sanitized("nas") == "nas"
    ensures Scope(Repository, "media") == "media"
  {
    hide Sanitized;
    CleanIsFixed("east");
    CleanIsFixed("media");
    CleanIsFixed("nas");
  }

  lemma JoinedByDots()
    ensures Join(["kopiur", "east", "media", "nas"], '.') == "kopiur.east.media.nas"
  {
    hide Join;
    JoinFour("kopiur", "east", "media", "nas", '.');
    assert "kopiur" + ['.'] + "east" + ['.'] + "media" + ['.'] + "nas" == "kopiur.east.media.nas";
  }

  lemma ShortHost(lease: string, joined: string)
    requires ClusterQualified(lease) && Join(SanitizedSegments(lease), '.') == joined
    requires 0 < |joined| <= 253 && joined[|joined| - 1] !in {'.', '-'}
    ensures KopiaOwnerForLease(lease) == "kopiur@" + joined
  {
    assert TrimEnd(joined, {'.', '-'}) == joined;
  }
}
