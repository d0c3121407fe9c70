/** References between objects: PVCs, and repositories with the normal form every pin and key uses. */
module Refs {
  import opened Text

  datatype PvcTarget = PvcTarget(namespace: string, name: string)

  datatype RepositoryKind = Repository | ClusterRepository

  datatype RepositoryRef = RepositoryRef(kind: RepositoryKind, name: string, namespace: Option<string>)

  function RepoKey(r: RepositoryRef, ownerNamespace: string): string {
    match r.kind
    case Repository => "Repository/" + r.namespace.GetOr(ownerNamespace) + "/" + r.name
    case ClusterRepository => "ClusterRepository/" + r.name
  }

  function NormalizedRef(r: RepositoryRef, ownerNamespace: string): RepositoryRef {
    match r.kind
    case Repository => RepositoryRef(Repository, r.name, Some(r.namespace.GetOr(ownerNamespace)))
    case ClusterRepository => RepositoryRef(ClusterRepository, r.name, None)
  }

  predicate Plain(s: string) { '/' !in s && '\n' !in s }

  predicate PlainRef(r: RepositoryRef, ownerNamespace: string) {
    Plain(r.name) && Plain(ownerNamespace) && (r.namespace.Some? ==> Plain(r.namespace.value))
  }

  lemma JoinTwo(x: string, y: string, c: char)
    ensures Join([x, y], c) == x + [c] + y
  {
    assert [x, y][1..] == [y];
  }

  lemma JoinThree(x: string, y: string, z: string, c: char)
    ensures Join([x, y, z], c) == x + [c] + y + [c] + z
  {
    assert [x, y, z][1..] == [y, z];
    JoinTwo(y, z, c);
  }

  lemma JoinFour(w: string, x: string, y: string, z: string, c: char)
    ensures Join([w, x, y, z], c) == w + [c] + x + [c] + y + [c] + z
  {
    assert [w, x, y, z][1..] == [x, y, z];
    JoinThree(x, y, z, c);
  }

  lemma RepoKeySplits(r: RepositoryRef, ownerNamespace: string)
    requires PlainRef(r, ownerNamespace)
    ensures Split(RepoKey(r, ownerNamespace), '/')
            == if r.kind == Repository then ["Repository", r.namespace.GetOr(ownerNamespace), r.name]
               else ["ClusterRepository", r.name]
    ensures '\n' !in RepoKey(r, ownerNamespace)
    ensures RepoKey(r, ownerNamespace) != ""
  {
    hide Split, Join;
    if r.kind == Repository {
      var parts := ["Repository", r.namespace.GetOr(ownerNamespace), r.name];
      JoinThree(parts[0], parts[1], parts[2], '/');
      assert "Repository" + ['/'] == "Repository/";
      SplitJoin(parts, '/');
      JoinAlphabet(parts, '/', '\n');
    } else {
      var parts := ["ClusterRepository", r.name];
      JoinTwo(parts[0], parts[1], '/');
      assert "ClusterRepository" + ['/'] == "ClusterRepository/";
      SplitJoin(parts, '/');
      JoinAlphabet(parts, '/', '\n');
    }
  }

  /** Two references have the same key exactly when they normalize to the same repository, wherever
      each of them is resolved from. */
  lemma RepoKeyIsInjective(r1: RepositoryRef, o1: string, r2: RepositoryRef, o2: string)
    requires PlainRef(r1, o1) && PlainRef(r2, o2)
    ensures RepoKey(r1, o1) == RepoKey(r2, o2) <==> NormalizedRef(r1, o1) == NormalizedRef(r2, o2)
  {
    hide Split;
    RepoKeySplits(r1, o1);
    RepoKeySplits(r2, o2);
    if RepoKey(r1, o1) == RepoKey(r2, o2) {
      var s := Split(RepoKey(r1, o1), '/');
      assert s[0] == "Repository" || s[0] == "ClusterRepository";
      assert s[|s| - 1] == r1.name == r2.name;
    }
  }

  /** A normalized reference resolves to the same repository from any namespace. */
  lemma NormalFormIsStable(r: RepositoryRef, o: string, elsewhere: string)
    ensures RepoKey(NormalizedRef(r, o), elsewhere) == RepoKey(r, o)
    ensures NormalizedRef(NormalizedRef(r, o), elsewhere) == NormalizedRef(r, o)
  {
  }
}
