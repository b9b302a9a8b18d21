/**
 Published protocol contracts: which sets of versions may be advertised, which version two peers
 agree on, when two advertisements are the same, and how versions are written.
 */
module Negotiation {
  import opened Basics
  import opened Options

  datatype Version = Version(major: u16, minor: u16, build: u16)

  datatype Ordering = Less | Equal | Greater

  function CompareNumbers(a: nat, b: nat): Ordering {
    if a < b then Less else if a == b then Equal else Greater
  }

  /** Versions are ordered by their fields, the major number first. */
  function Compare(a: Version, b: Version): Ordering {
    if a.major != b.major then CompareNumbers(a.major, b.major)
    else if a.minor != b.minor then CompareNumbers(a.minor, b.minor)
    else CompareNumbers(a.build, b.build)
  }

  predicate AtMost(a: Version, b: Version) {
    Compare(a, b) != Greater
  }

  const MAX_SUPPORTED_VERSIONS := 128

  /** The versions are of one major number, and their builds are distinct and in the order of the versions. */
  predicate ValidVersions(versions: seq<Version>) {
    && 0 < |versions| <= MAX_SUPPORTED_VERSIONS
    && forall i :: 0 <= i < |versions| ==>
      && versions[i].major != 0 && versions[i].major == versions[0].major
      && forall j :: 0 <= j < i ==>
        && Compare(versions[i], versions[j]) == CompareNumbers(versions[i].build, versions[j].build)
        && versions[i].build != versions[j].build
  }

  predicate ValidOffer(build: u16, version: Version, supported: seq<Version>) {
    && version.major != 0
    && build >= version.build
    && ValidVersions(supported)
    && version in supported
    && forall candidate <- supported ::
      candidate.major == version.major && AtMost(candidate, version) && candidate.build <= build
  }

  function Later(a: Version, best: Option<Version>): Version {
    if best.Some? && Compare(a, best.value) == Less then best.value else a
  }

  /** The greatest of the local versions that are supported too. */
  function GreatestCommon(supported: seq<Version>, local: seq<Version>): Option<Version> {
    if local == [] then None
    else
      var best, last := GreatestCommon(supported, local[..|local| - 1]), local[|local| - 1];
      if last in supported then Some(Later(last, best)) else best
  }

  function NegotiateVersions(supported: seq<Version>, local: seq<Version>): Option<Version> {
    if !ValidVersions(local) then None else GreatestCommon(supported, local)
  }

  datatype Protocol = Protocol(name: string, build: u16, version: Version, supported: seq<Version>)

  predicate NameCharacter(c: char) {
    'a' <= c <= 'z' || 'A' <= c <= 'Z' || '0' <= c <= '9' || c == '-' || c == '_' || c == '.'
  }

  predicate ValidProtocol(p: Protocol) {
    && 0 < |p.name| <= 128
    && (forall i :: 0 <= i < |p.name| ==> NameCharacter(p.name[i]))
    && ValidOffer(p.build, p.version, p.supported)
  }

  function Negotiate(p: Protocol, local: seq<Version>): Option<Version> {
    if !ValidProtocol(p) then None else NegotiateVersions(p.supported, local)
  }

  // ----- What is agreed on -----

  predicate Common(v: Version, supported: seq<Version>, local: seq<Version>) {
    v in supported && v in local
  }

  lemma {:induction false} GreatestCommonIsGreatest(supported: seq<Version>, local: seq<Version>)
    ensures
      match GreatestCommon(supported, local)
      case None => forall v :: !Common(v, supported, local)
      case Some(best) => Common(best, supported, local) && forall v :: Common(v, supported, local) ==> AtMost(v, best)
  {
    hide Compare, Common;
    if local == [] {
      NothingCommon(supported);
    } else {
      var init, last := local[..|local| - 1], local[|local| - 1];
      GreatestCommonIsGreatest(supported, init);
      CommonWithLast(supported, local);
      var best := GreatestCommon(supported, init);
      forall v | Common(v, supported, init)
        ensures AtMost(v, Later(last, best)) && AtMost(last, Later(last, best))
      {
        LaterIsGreatest(last, best.value, v);
      }
      OrderIsTotal(last, last);
    }
  }

  lemma NothingCommon(supported: seq<Version>)
    ensures forall v :: !Common(v, supported, [])
  {
  }

  lemma CommonWithLast(supported: seq<Version>, local: seq<Version>)
    requires local != []
    ensures forall v ::
      Common(v, supported, local)
      <==> Common(v, supported, local[..|local| - 1]) || (v == local[|local| - 1] && v in supported)
  {
    var init, last := local[..|local| - 1], local[|local| - 1];
    assert local == init + [last];
    assert forall v :: v in local <==> v in init || v == last;
  }

  lemma LaterIsGreatest(last: Version, best: Version, v: Version)
    requires AtMost(v, best)
    ensures AtMost(v, Later(last, Some(best))) && AtMost(last, Later(last, Some(best)))
  {
  }

  lemma OrderIsTotal(a: Version, b: Version)
    ensures AtMost(a, b) || AtMost(b, a)
    ensures AtMost(a, b) && AtMost(b, a) ==> a == b
  {
  }

  /** Two valid advertisements agree on a version exactly when it is the greatest one that both hold;
      a version of a valid set with a greater build is a greater one, so it is their latest build too. */
  lemma AgreementIsGreatest(p: Protocol, local: seq<Version>, v: Version)
    requires ValidProtocol(p) && ValidVersions(local)
    ensures Negotiate(p, local) == Some(v)
      <==> Common(v, p.supported, local) && forall w :: Common(w, p.supported, local) ==> AtMost(w, v)
    ensures Negotiate(p, local) == Some(v) ==> forall w :: Common(w, p.supported, local) ==> w.build <= v.build
    ensures Negotiate(p, local) == None <==> forall w :: !Common(w, p.supported, local)
  {
    hide ValidProtocol, ValidVersions, Compare, Common;
    GreatestCommonIsGreatest(p.supported, local);
    if Common(v, p.supported, local) && Negotiate(p, local).Some? {
      OrderIsTotal(v, Negotiate(p, local).value);
    }
    if Negotiate(p, local) == Some(v) {
      forall w | Common(w, p.supported, local)
        ensures w.build <= v.build
      {
        BuildsFollowVersions(p.supported, local, w, v);
      }
    }
  }

  lemma BuildsFollowVersions(supported: seq<Version>, local: seq<Version>, w: Version, v: Version)
    requires ValidVersions(local) && Common(w, supported, local) && Common(v, supported, local) && AtMost(w, v)
    ensures w.build <= v.build
  {
    var i :| 0 <= i < |local| && local[i] == w;
    var j :| 0 <= j < |local| && local[j] == v;
  }

  /** Either peer may do the negotiation. */
  lemma NegotiationIsSymmetric(a: Protocol, b: Protocol)
    requires ValidProtocol(a) && ValidProtocol(b)
    ensures Negotiate(a, b.supported) == Negotiate(b, a.supported)
  {
    hide ValidVersions, Compare;
    GreatestCommonIsGreatest(a.supported, b.supported);
    GreatestCommonIsGreatest(b.supported, a.supported);
    SameGreatest(a.supported, b.supported, b.supported, a.supported);
  }

  lemma SameGreatest(s: seq<Version>, l: seq<Version>, s': seq<Version>, l': seq<Version>)
    requires forall v :: Common(v, s, l) <==> Common(v, s', l')
    ensures GreatestCommon(s, l) == GreatestCommon(s', l')
  {
    hide GreatestCommon, Compare;
    GreatestCommonIsGreatest(s, l);
    GreatestCommonIsGreatest(s', l');
    if GreatestCommon(s, l).Some? && GreatestCommon(s', l').Some? {
      OrderIsTotal(GreatestCommon(s, l).value, GreatestCommon(s', l').value);
    }
  }

  /** The order in which versions are advertised does not matter. */
  lemma NegotiationIgnoresOrder(p: Protocol, p': Protocol, local: seq<Version>, local': seq<Version>)
    requires ValidProtocol(p) && ValidProtocol(p') && ValidVersions(local) && ValidVersions(local')
    requires forall v :: v in p.supported <==> v in p'.supported
    requires forall v :: v in local <==> v in local'
    ensures Negotiate(p, local) == Negotiate(p', local')
  {
    hide ValidProtocol, ValidVersions, GreatestCommon;
    SameGreatest(p.supported, local, p'.supported, local');
  }

  /** Learning more versions never makes a valid peer agree on less. */
  lemma NegotiationNeverFalls(p: Protocol, p': Protocol, local: seq<Version>, local': seq<Version>)
    requires ValidProtocol(p) && ValidProtocol(p') && ValidVersions(local) && ValidVersions(local')
    requires forall v :: v in p.supported ==> v in p'.supported
    requires forall v :: v in local ==> v in local'
    requires Negotiate(p, local).Some?
    ensures Negotiate(p', local').Some? && AtMost(Negotiate(p, local).value, Negotiate(p', local').value)
  {
    hide ValidProtocol, ValidVersions, GreatestCommon, Compare;
    GreatestCommonIsGreatest(p.supported, local);
    GreatestCommonIsGreatest(p'.supported, local');
    assert Common(Negotiate(p, local).value, p'.supported, local');
  }

  // ----- Advertisements -----

  predicate ValidProtocols(protocols: seq<Protocol>) {
    && |protocols| <= 128
    && forall i :: 0 <= i < |protocols| ==>
      ValidProtocol(protocols[i]) && forall j :: 0 <= j < i ==> protocols[j].name != protocols[i].name
  }

  predicate SameContract(entry: Protocol, observed: Protocol) {
    && entry.name == observed.name && entry.build == observed.build && entry.version == observed.version
    && |entry.supported| == |observed.supported|
    && forall version <- entry.supported :: version in observed.supported
  }

  predicate Observed(entry: Protocol, right: seq<Protocol>) {
    exists j :: 0 <= j < |right| && SameContract(entry, right[j])
  }

  predicate ProtocolsMatch(left: seq<Protocol>, right: seq<Protocol>) {
    && ValidProtocols(left) && ValidProtocols(right) && |left| == |right|
    && forall i :: 0 <= i < |left| ==> Observed(left[i], right)
  }

  /** What an advertisement means under one name; the order of the versions means nothing. */
  datatype Contract = Contract(build: u16, version: Version, supported: set<Version>)

  function VersionSet(versions: seq<Version>): set<Version> {
    set v | v in versions
  }

  function ContractOf(p: Protocol): Contract {
    Contract(p.build, p.version, VersionSet(p.supported))
  }

  function Names(protocols: seq<Protocol>): seq<string> {
    seq(|protocols|, i requires 0 <= i < |protocols| => protocols[i].name)
  }

  predicate Named(protocols: seq<Protocol>, name: string) {
    exists i :: 0 <= i < |protocols| && protocols[i].name == name
  }

  /** An advertisement, as the map from names to contracts that it stands for. */
  ghost predicate Denotes(protocols: seq<Protocol>, contracts: map<string, Contract>) {
    && (forall name :: name in contracts <==> Named(protocols, name))
    && forall i :: 0 <= i < |protocols| && protocols[i].name in contracts ==>
      contracts[protocols[i].name] == ContractOf(protocols[i])
  }

  predicate DistinctNames(protocols: seq<Protocol>) {
    forall i, j :: 0 <= i < j < |protocols| ==> protocols[i].name != protocols[j].name
  }

  function Elements<T(==)>(s: seq<T>): set<T> {
    set x | x in s
  }

  predicate Distinct<T(==)>(s: seq<T>) {
    forall i, j :: 0 <= i < j < |s| ==> s[i] != s[j]
  }

  lemma {:induction false} DistinctCount<T>(s: seq<T>)
    requires Distinct(s)
    ensures |Elements(s)| == |s|
  {
    if s != [] {
      var init, last := s[..|s| - 1], s[|s| - 1];
      DistinctCount(init);
      assert Elements(s) == Elements(init) + {last};
    }
  }

  lemma {:induction false} SubsetOfSameSize<T>(a: set<T>, b: set<T>)
    requires a <= b && |a| == |b|
    ensures a == b
  {
    if x :| x in b && x !in a {
      SubsetIsSmaller(a, b - {x});
    }
  }

  lemma {:induction false} SubsetIsSmaller<T>(a: set<T>, b: set<T>)
    requires a <= b
    ensures |a| <= |b|
  {
    if x :| x in a {
      SubsetIsSmaller(a - {x}, b - {x});
    }
  }

  /** A one-sided comparison is enough: distinct elements that are all elsewhere, in a sequence just
      as long, leave no room there for others. */
  lemma Pigeonhole<T>(a: seq<T>, b: seq<T>)
    requires Distinct(a) && Distinct(b) && |a| == |b| && forall x :: x in a ==> x in b
    ensures Elements(a) == Elements(b)
  {
    DistinctCount(a);
    DistinctCount(b);
    SubsetOfSameSize(Elements(a), Elements(b));
  }

  lemma VersionsAreDistinct(versions: seq<Version>)
    requires ValidVersions(versions)
    ensures Distinct(versions)
  {
  }

  lemma SameContractIff(a: Protocol, b: Protocol)
    requires ValidProtocol(a) && ValidProtocol(b)
    ensures SameContract(a, b) <==> a.name == b.name && ContractOf(a) == ContractOf(b)
  {
    hide ValidVersions;
    VersionsAreDistinct(a.supported);
    VersionsAreDistinct(b.supported);
    assert VersionSet(a.supported) == Elements(a.supported) && VersionSet(b.supported) == Elements(b.supported);
    DistinctCount(a.supported);
    DistinctCount(b.supported);
    if SameContract(a, b) {
      Pigeonhole(a.supported, b.supported);
    } else if ContractOf(a) == ContractOf(b) {
      assert forall v :: v in a.supported ==> v in VersionSet(b.supported);
    }
  }

  lemma {:induction false} NamesAreDistinct(protocols: seq<Protocol>)
    requires ValidProtocols(protocols)
    ensures DistinctNames(protocols) && Denotes(protocols, MapOf(protocols))
  {
    hide Denotes, MapOf;
    MapDenotes(protocols);
  }

  function MapOf(protocols: seq<Protocol>): map<string, Contract> {
    if protocols == [] then map[]
    else MapOf(protocols[..|protocols| - 1])[protocols[|protocols| - 1].name := ContractOf(protocols[|protocols| - 1])]
  }

  lemma {:induction false} MapDenotes(protocols: seq<Protocol>)
    requires DistinctNames(protocols)
    ensures Denotes(protocols, MapOf(protocols))
  {
    hide ContractOf;
    if protocols != [] {
      var init, last := protocols[..|protocols| - 1], protocols[|protocols| - 1];
      MapDenotes(init);
      NamedLast(protocols);
    }
  }

  lemma NamedLast(protocols: seq<Protocol>)
    requires protocols != []
    ensures forall name ::
      Named(protocols, name)
      <==> Named(protocols[..|protocols| - 1], name) || name == protocols[|protocols| - 1].name
  {
    var init, last := protocols[..|protocols| - 1], protocols[|protocols| - 1];
    forall name
      ensures Named(protocols, name) <==> Named(init, name) || name == last.name
    {
      if i :| 0 <= i < |protocols| && protocols[i].name == name {
        assert i < |init| ==> init[i].name == name;
      }
      if i :| 0 <= i < |init| && init[i].name == name {
        assert protocols[i].name == name;
      }
    }
  }

  lemma NamesOf(protocols: seq<Protocol>)
    ensures forall name :: name in Names(protocols) <==> Named(protocols, name)
    ensures DistinctNames(protocols) ==> Distinct(Names(protocols))
  {
    forall name | Named(protocols, name)
      ensures name in Names(protocols)
    {
      var i :| 0 <= i < |protocols| && protocols[i].name == name;
      assert Names(protocols)[i] == name;
    }
  }

  lemma SameNames(left: seq<Protocol>, right: seq<Protocol>)
    requires DistinctNames(left) && DistinctNames(right) && |left| == |right|
    requires forall name :: Named(left, name) ==> Named(right, name)
    ensures forall name :: Named(right, name) ==> Named(left, name)
  {
    hide Named, Names;
    NamesOf(left);
    NamesOf(right);
    LengthOfNames(left);
    LengthOfNames(right);
    Pigeonhole(Names(left), Names(right));
    forall name | Named(right, name)
      ensures Named(left, name)
    {
      assert name in Elements(Names(right));
    }
  }

  lemma LengthOfNames(protocols: seq<Protocol>)
    ensures |Names(protocols)| == |protocols|
  {
  }

  /** One name of the left advertisement means the same in both maps. */
  lemma {:induction false} MatchedName(left: seq<Protocol>, right: seq<Protocol>, name: string)
    requires ProtocolsMatch(left, right) && Named(left, name)
    ensures Named(right, name) && name in MapOf(left) && name in MapOf(right)
    ensures MapOf(left)[name] == MapOf(right)[name]
  {
    hide ValidProtocol, SameContract, ContractOf, MapOf;
    NamesAreDistinct(left);
    NamesAreDistinct(right);
    var i :| 0 <= i < |left| && left[i].name == name;
    assert Observed(left[i], right);
    var j :| 0 <= j < |right| && SameContract(left[i], right[j]);
    SameContractIff(left[i], right[j]);
    assert Named(right, name);
  }

  lemma {:induction false} MatchMeansSameMap(left: seq<Protocol>, right: seq<Protocol>)
    requires ProtocolsMatch(left, right)
    ensures MapOf(left) == MapOf(right)
  {
    hide ValidProtocol, SameContract, MapOf, Named, DistinctNames;
    NamesAreDistinct(left);
    NamesAreDistinct(right);
    forall name | Named(left, name)
      ensures Named(right, name) && name in MapOf(left) && name in MapOf(right)
      ensures MapOf(left)[name] == MapOf(right)[name]
    {
      MatchedName(left, right, name);
    }
    SameNames(left, right);
  }

  lemma {:induction false} SameMapMatches(left: seq<Protocol>, right: seq<Protocol>)
    requires ValidProtocols(left) && ValidProtocols(right) && MapOf(left) == MapOf(right)
    ensures ProtocolsMatch(left, right)
  {
    hide ValidProtocol, SameContract, ContractOf, MapOf;
    NamesAreDistinct(left);
    NamesAreDistinct(right);
    SameLength(left, right);
    forall i | 0 <= i < |left|
      ensures Observed(left[i], right)
    {
      assert Named(left, left[i].name);
      assert Named(right, left[i].name);
      var j :| 0 <= j < |right| && right[j].name == left[i].name;
      SameContractIff(left[i], right[j]);
    }
  }

  lemma SameLength(left: seq<Protocol>, right: seq<Protocol>)
    requires ValidProtocols(left) && ValidProtocols(right) && MapOf(left) == MapOf(right)
    ensures |left| == |right|
  {
    hide ValidProtocols, MapOf, Named, Names;
    NamesAreDistinct(left);
    NamesAreDistinct(right);
    NamesOf(left);
    NamesOf(right);
    LengthOfNames(left);
    LengthOfNames(right);
    DistinctCount(Names(left));
    DistinctCount(Names(right));
    assert Elements(Names(left)) == Elements(Names(right));
    assert |Elements(Names(left))| == |Names(left)|;
    assert |Elements(Names(right))| == |Names(right)|;
  }

  /** Two advertisements match exactly when both are valid and stand for the same map; so matching is
      symmetric and transitive, and every valid advertisement matches itself in any order. */
  lemma {:induction false} MatchIsMapEquality(left: seq<Protocol>, right: seq<Protocol>)
    ensures ProtocolsMatch(left, right)
      <==> ValidProtocols(left) && ValidProtocols(right) && MapOf(left) == MapOf(right)
  {
    if ProtocolsMatch(left, right) {
      MatchMeansSameMap(left, right);
    } else if ValidProtocols(left) && ValidProtocols(right) && MapOf(left) == MapOf(right) {
      SameMapMatches(left, right);
    }
  }

  lemma MatchIsAnEquivalence(a: seq<Protocol>, b: seq<Protocol>, c: seq<Protocol>)
    ensures ValidProtocols(a) ==> ProtocolsMatch(a, a)
    ensures ProtocolsMatch(a, b) ==> ProtocolsMatch(b, a)
    ensures ProtocolsMatch(a, b) && ProtocolsMatch(b, c) ==> ProtocolsMatch(a, c)
  {
    hide ProtocolsMatch, ValidProtocols, MapOf;
    MatchIsMapEquality(a, a);
    MatchIsMapEquality(a, b);
    MatchIsMapEquality(b, a);
    MatchIsMapEquality(b, c);
    MatchIsMapEquality(a, c);
  }

  /** Matching advertisements negotiate alike, under every name and with every peer. */
  lemma MatchingPeersNegotiateAlike(left: seq<Protocol>, right: seq<Protocol>, i: nat, j: nat, local: seq<Version>)
    requires ProtocolsMatch(left, right) && i < |left| && j < |right| && left[i].name == right[j].name
    ensures Negotiate(left[i], local) == Negotiate(right[j], local)
  {
    hide ValidProtocol, GreatestCommon, ContractOf, MapOf, SameContract;
    var a, b := left[i], right[j];
    MatchMeansSameMap(left, right);
    NamesAreDistinct(left);
    NamesAreDistinct(right);
    assert Named(left, a.name) && Named(right, b.name);
    SameVersions(a, b);
    SameGreatest(a.supported, local, b.supported, local);
  }

  lemma SameVersions(a: Protocol, b: Protocol)
    requires ContractOf(a) == ContractOf(b)
    ensures forall v :: v in a.supported <==> v in b.supported
  {
    assert forall v :: v in a.supported <==> v in VersionSet(a.supported);
    assert forall v :: v in b.supported <==> v in VersionSet(b.supported);
  }
}
