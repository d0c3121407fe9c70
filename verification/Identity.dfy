/** Kopia identities: resolution, the `username@hostname:path` string and its parser, and the hostname classifier.
    A string is the sequence of its UTF-8 bytes, one `char` per byte. */
module Identity {
  import opened Text

  const IDENTITY_MAX_LEN: nat := 253

  datatype ResolvedIdentity = ResolvedIdentity(username: string, hostname: string, sourcePath: Option<string>)

  datatype Defaults = Defaults(cluster: Option<string>, hostnameExpr: Option<string>, usernameExpr: Option<string>)

  datatype Inputs = Inputs(
    objectName: string, namespace: string, overrideUsername: Option<string>, overrideHostname: Option<string>,
    defaults: Option<Defaults>, sourcePath: Option<string>)

  datatype Error = ExprFailed(expr: string) | ComponentInvalid(value: string) | SourcePathInvalid(value: string)

  predicate IsAsciiControl(c: char) { c < 0x20 as char || c == 0x7F as char }

  predicate IsAsciiWhitespace(c: char) { c in {' ', '\t', '\n', '\r', 0x0C as char} }

  predicate ComponentOk(v: string) {
    && 0 < |v| <= IDENTITY_MAX_LEN && '@' !in v && ':' !in v
    && forall i :: 0 <= i < |v| ==> !IsAsciiWhitespace(v[i]) && !IsAsciiControl(v[i])
  }

  predicate SourcePathOk(v: string) {
    v != "" && forall i :: 0 <= i < |v| ==> !IsAsciiControl(v[i])
  }

  /** One component: the override, else the expression's value, else the default. */
  function Component(
    explicit: Option<string>, expr: Option<string>, fallback: string,
    render: string -> Option<string>): Result<string, Error>
  {
    match explicit
    case Some(v) => Ok(v)
    case None =>
      match expr
      case None => Ok(fallback)
      case Some(e) =>
        match render(e)
        case Some(v) => Ok(v)
        case None => Err(ExprFailed(e))
  }

  function DefaultHostname(namespace: string, cluster: Option<string>): string {
    match cluster
    case Some(c) => namespace + "." + c
    case None => namespace
  }

  /** `render` stands for compiling and evaluating an expression; `None` is any failure. */
  function ResolveIdentity(inputs: Inputs, render: string -> Option<string>): Result<ResolvedIdentity, Error> {
    var d := inputs.defaults.GetOr(Defaults(None, None, None));
    match Component(inputs.overrideUsername, d.usernameExpr, inputs.objectName, render)
    case Err(e) => Err(e)
    case Ok(username) =>
      match Component(inputs.overrideHostname, d.hostnameExpr, DefaultHostname(inputs.namespace, d.cluster), render)
      case Err(e) => Err(e)
      case Ok(hostname) =>
        if !ComponentOk(username) then Err(ComponentInvalid(username))
        else if !ComponentOk(hostname) then Err(ComponentInvalid(hostname))
        else if inputs.sourcePath.Some? && !SourcePathOk(inputs.sourcePath.value)
        then Err(SourcePathInvalid(inputs.sourcePath.value))
        else Ok(ResolvedIdentity(username, hostname, inputs.sourcePath))
  }

  function IdentityString(id: ResolvedIdentity): string {
    match id.sourcePath
    case Some(p) => id.username + "@" + id.hostname + ":" + p
    case None => id.username + "@" + id.hostname
  }

  /** Kopia's reading: the first `@`, then the first `:` after it. */
  function ParseIdentity(s: string): Option<ResolvedIdentity> {
    var at := FirstIndex(s, '@');
    if at == |s| then None
    else
      var rest := s[at + 1..];
      var colon := FirstIndex(rest, ':');
      Some(ResolvedIdentity(s[..at], rest[..colon], if colon == |rest| then None else Some(rest[colon + 1..])))
  }

  /** Per component: an explicit override wins over any expression and default, an expression over the default; the
      default is the object name at the namespace, qualified by the cluster's name where there is one. */
  predicate FollowsPrecedence(inputs: Inputs, render: string -> Option<string>, id: ResolvedIdentity) {
    var d := inputs.defaults.GetOr(Defaults(None, None, None));
    && (inputs.overrideUsername.Some? ==> id.username == inputs.overrideUsername.value)
    && (inputs.overrideHostname.Some? ==> id.hostname == inputs.overrideHostname.value)
    && (inputs.overrideUsername.None? && d.usernameExpr.Some? ==> render(d.usernameExpr.value) == Some(id.username))
    && (inputs.overrideHostname.None? && d.hostnameExpr.Some? ==> render(d.hostnameExpr.value) == Some(id.hostname))
    && (inputs.overrideUsername.None? && d.usernameExpr.None? ==> id.username == inputs.objectName)
    && (inputs.overrideHostname.None? && d.hostnameExpr.None? && d.cluster.None? ==> id.hostname == inputs.namespace)
    && (inputs.overrideHostname.None? && d.hostnameExpr.None? && d.cluster.Some?
        ==> id.hostname == inputs.namespace + "." + d.cluster.value)
    && id.sourcePath == inputs.sourcePath
  }

  /** The shape kopia needs. */
  predicate ShapeOk(id: ResolvedIdentity) {
    ComponentOk(id.username) && ComponentOk(id.hostname) && (id.sourcePath.Some? ==> SourcePathOk(id.sourcePath.value))
  }

  /** A byte that is neither a control character nor, in a component, a blank or one of kopia's delimiters. */
  predicate Visible(c: char, component: bool) {
    0x20 as char <= c && c != 0x7F as char && (component ==> c != ' ' && c != '@' && c != ':')
  }

  /** What is accepted, byte by byte: components of 1 to 253 visible bytes without blank, `@` or `:`, and a path of at
      least one byte without control characters. */
  lemma AcceptedBytes(id: ResolvedIdentity)
    ensures ShapeOk(id)
            <==> && 1 <= |id.username| <= 253 && (forall c :: c in id.username ==> Visible(c, true))
                 && 1 <= |id.hostname| <= 253 && (forall c :: c in id.hostname ==> Visible(c, true))
                 && (id.sourcePath.Some? ==> 1 <= |id.sourcePath.value| && forall c :: c in id.sourcePath.value
                                                                                       ==> Visible(c, false))
  {
    ComponentBytes(id.username);
    ComponentBytes(id.hostname);
    if id.sourcePath.Some? {
      PathBytes(id.sourcePath.value);
    }
  }

  lemma ComponentBytes(v: string)
    ensures ComponentOk(v) <==> 1 <= |v| <= 253 && forall c :: c in v ==> Visible(c, true)
  {
    if ComponentOk(v) {
      forall c | c in v ensures Visible(c, true) {
        var i :| 0 <= i < |v| && v[i] == c;
      }
    } else if 1 <= |v| <= 253 && '@' !in v && ':' !in v {
      var i :| 0 <= i < |v| && (IsAsciiWhitespace(v[i]) || IsAsciiControl(v[i]));
      assert v[i] in v && !Visible(v[i], true);
    }
  }

  lemma PathBytes(v: string)
    ensures SourcePathOk(v) <==> 1 <= |v| && forall c :: c in v ==> Visible(c, false)
  {
    if SourcePathOk(v) {
      forall c | c in v ensures Visible(c, false) {
        var i :| 0 <= i < |v| && v[i] == c;
      }
    } else if v != "" {
      var i :| 0 <= i < |v| && IsAsciiControl(v[i]);
      assert v[i] in v && !Visible(v[i], false);
    }
  }

  /** The resolver accepts exactly the identity that follows the precedence and has the shape kopia needs. */
  lemma ResolvesIff(inputs: Inputs, render: string -> Option<string>, id: ResolvedIdentity)
    ensures ResolveIdentity(inputs, render) == Ok(id) <==> FollowsPrecedence(inputs, render, id) && ShapeOk(id)
  {
  }

  /** Every identity the resolver returns, whatever an expression evaluated to, survives kopia's parser: what kopia
      reads is the one identity that follows the precedence. */
  lemma ResolvedIdentitiesParseBack(inputs: Inputs, render: string -> Option<string>)
    requires ResolveIdentity(inputs, render).Ok?
    ensures var read := ParseIdentity(IdentityString(ResolveIdentity(inputs, render).value));
            && read == Some(ResolveIdentity(inputs, render).value) && ShapeOk(read.value)
            && (forall id :: FollowsPrecedence(inputs, render, id) <==> id == read.value)
  {
    hide ResolveIdentity, FollowsPrecedence, ParseIdentity, IdentityString;
    var id := ResolveIdentity(inputs, render).value;
    ResolvesIff(inputs, render, id);
    ParsesBack(id.username, id.hostname, id.sourcePath);
    forall other | FollowsPrecedence(inputs, render, other) ensures other == id {
      PrecedenceIsUnique(inputs, render, id, other);
    }
  }

  lemma PrecedenceIsUnique(inputs: Inputs, render: string -> Option<string>, a: ResolvedIdentity, b: ResolvedIdentity)
    requires FollowsPrecedence(inputs, render, a) && FollowsPrecedence(inputs, render, b)
    ensures a == b
  {
  }

  lemma ParsesBack(user: string, host: string, path: Option<string>)
    requires '@' !in user && ':' !in host
    ensures var id := ResolvedIdentity(user, host, path); ParseIdentity(IdentityString(id)) == Some(id)
  {
    var rest := if path.Some? then host + ":" + path.value else host;
    var s := IdentityString(ResolvedIdentity(user, host, path));
    assert s == user + "@" + rest;
    assert s[..|user|] == user && s[|user| + 1..] == rest;
    FirstIndexUnique(s, '@', |user|);
    assert rest[..|host|] == host;
    FirstIndexUnique(rest, ':', |host|);
  }

  // --- hostnames --------------------------------------------------------------------------------

  datatype HostClass = Bare(whole: string) | OwnCluster(namespace: string) | ForeignCluster(suffix: string)

  function ClassifyHostname(hostname: string, myCluster: Option<string>): HostClass {
    if myCluster.None? || myCluster.value == "" then Bare(hostname)
    else
      var dot := FirstIndex(hostname, '.');
      if dot == |hostname| then Bare(hostname)
      else
        var namespace, suffix := hostname[..dot], hostname[dot + 1..];
        if namespace == "" || suffix == "" then Bare(hostname)
        else if suffix == myCluster.value then OwnCluster(namespace)
        else ForeignCluster(suffix)
  }

  /** Ours exactly when it is `n.cluster` for a non-empty dot-free `n`. */
  lemma OwnIffDefaultShape(hostname: string, cluster: string, n: string)
    requires cluster != ""
    ensures ClassifyHostname(hostname, Some(cluster)) == OwnCluster(n)
            <==> n != "" && '.' !in n && hostname == n + "." + cluster
    ensures ClassifyHostname(hostname, None) == ClassifyHostname(hostname, Some("")) == Bare(hostname)
  {
    if n != "" && '.' !in n && hostname == n + "." + cluster {
      Framing(n, cluster, '.');
    } else {
      Redotted(hostname);
    }
  }

  /** Foreign with suffix `s` exactly when it is `n.s` for some non-empty dot-free `n` and another non-empty suffix;
      whatever is neither is bare, verbatim. */
  lemma ForeignIffOtherSuffix(hostname: string, cluster: string, s: string)
    requires cluster != ""
    ensures ClassifyHostname(hostname, Some(cluster)) == ForeignCluster(s)
            <==> s != "" && s != cluster && exists n :: n != "" && '.' !in n && hostname == n + "." + s
    ensures ClassifyHostname(hostname, Some(cluster)).Bare?
            ==> ClassifyHostname(hostname, Some(cluster)).whole == hostname
  {
    if s != "" && s != cluster && exists n :: n != "" && '.' !in n && hostname == n + "." + s {
      var n :| n != "" && '.' !in n && hostname == n + "." + s;
      Framing(n, s, '.');
    } else {
      Redotted(hostname);
    }
  }

  lemma Redotted(h: string)
    ensures var dot := FirstIndex(h, '.'); dot < |h| ==> '.' !in h[..dot] && h == h[..dot] + "." + h[dot + 1..]
  {
  }

  /** The hostname a cluster writes by default is its own to that cluster and foreign to every other. */
  lemma DefaultHostnameIsOwn(inputs: Inputs, render: string -> Option<string>, cluster: string, other: string)
    requires inputs.overrideHostname.None? && inputs.defaults.Some? && inputs.defaults.value.hostnameExpr.None?
    requires inputs.defaults.value.cluster == Some(cluster) && cluster != "" && other != ""
    requires inputs.namespace != "" && '.' !in inputs.namespace
    requires ResolveIdentity(inputs, render).Ok?
    ensures var host := ResolveIdentity(inputs, render).value.hostname;
            && ClassifyHostname(host, Some(cluster)) == OwnCluster(inputs.namespace)
            && (other != cluster ==> ClassifyHostname(host, Some(other)) == ForeignCluster(cluster))
            && ClassifyHostname(host, None) == Bare(host)
  {
    Framing(inputs.namespace, cluster, '.');
  }
}
