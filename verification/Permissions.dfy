/**
 Wildcard permission patterns and permission sets (webauth/permissions).

 `Allowed` decides a match on raw strings with three shortcuts before its component loop.
 `Matches` is the plain reading, component by component; the two are proved equal for all
 strings, and `Matches` is proved to be a partial order, which is what lets sets compose.
 The component limit is a package variable of the source, so it is a parameter here.
 */
module Permissions {
  import opened Common

  /** strings.Count for a one-character separator. */
  function Count(s: string, sep: char): nat {
    if s == "" then 0 else (if s[0] == sep then 1 else 0) + Count(s[1..], sep)
  }

  /** strings.Split for a one-character separator. */
  function Split(s: string, sep: char): (parts: seq<string>)
    ensures |parts| >= 1
  {
    if s == "" then [""]
    else PutFirst(s[0], Split(s[1..], sep), sep)
  }

  /** The components of a string from its first character and those of the rest. */
  function PutFirst(c: char, rest: seq<string>, sep: char): (parts: seq<string>)
    requires |rest| >= 1
    ensures |parts| >= 1
  {
    if c == sep then [""] + rest else [[c] + rest[0]] + rest[1..]
  }

  const WILD: string := "*"

  predicate WithinLimit(p: string, sep: char, limit: int) {
    p != "" && |Split(p, sep)| <= limit
  }

  predicate EndsInWildcard(parts: seq<string>) {
    |parts| >= 2 && parts[|parts| - 1] == WILD
  }

  predicate ComponentsMatch(request: seq<string>, requirement: seq<string>)
    requires |request| <= |requirement|
  {
    forall i | 0 <= i < |request| :: request[i] == WILD || request[i] == requirement[i]
  }

  /** The plain meaning of a match on split components. */
  predicate PartsMatch(request: seq<string>, requirement: seq<string>) {
    && (|request| == |requirement| || (EndsInWildcard(request) && |request| <= |requirement|))
    && ComponentsMatch(request, requirement)
  }

  /** The plain meaning of `Allowed`: no counting, no prefix and no suffix shortcut. */
  predicate Matches(request: string, requirement: string, sep: char, limit: int) {
    && WithinLimit(request, sep, limit)
    && WithinLimit(requirement, sep, limit)
    && PartsMatch(Split(request, sep), Split(requirement, sep))
  }

  lemma {:induction false} SplitSize(s: string, sep: char)
    ensures |Split(s, sep)| == Count(s, sep) + 1
  {
    if s != "" {
      SplitSize(s[1..], sep);
    }
  }

  lemma PutFirstAppend(c: char, front: seq<string>, back: seq<string>, sep: char)
    requires |front| >= 1
    ensures PutFirst(c, front + back, sep) == PutFirst(c, front, sep) + back
  {
    assert (front + back)[1..] == front[1..] + back;
  }

  lemma {:induction false} SplitAtSeparator(a: string, b: string, sep: char)
    ensures Split(a + [sep] + b, sep) == Split(a, sep) + Split(b, sep)
  {
    if a == "" {
      assert (a + [sep] + b)[1..] == b;
      assert Split(a, sep) == [""];
    } else {
      assert (a + [sep] + b)[1..] == a[1..] + [sep] + b;
      SplitAtSeparator(a[1..], b, sep);
      PutFirstAppend(a[0], Split(a[1..], sep), Split(b, sep), sep);
    }
  }

  lemma {:induction false} JoinSplit(s: string, sep: char)
    ensures Join(Split(s, sep), sep) == s
  {
    if s != "" {
      JoinSplit(s[1..], sep);
      var rest := Split(s[1..], sep);
      if s[0] == sep {
        assert ([""] + rest)[1..] == rest;
      } else if |rest| > 1 {
        assert ([[s[0]] + rest[0]] + rest[1..])[1..] == rest[1..];
      }
    }
  }

  lemma {:induction false} JoinLast(parts: seq<string>, last: string, sep: char)
    requires |parts| >= 1
    ensures Join(parts + [last], sep) == Join(parts, sep) + [sep] + last
  {
    if |parts| == 1 {
      assert (parts + [last])[1..] == [last];
    } else {
      JoinLast(parts[1..], last, sep);
      assert (parts + [last])[1..] == parts[1..] + [last];
    }
  }

  /** The suffix test on the raw string is the test on the last of two or more components. */
  lemma SuffixIsTrailingWildcard(s: string, sep: char)
    requires sep != '*'
    ensures HasSuffix(s, [sep, '*']) <==> EndsInWildcard(Split(s, sep))
  {
    var parts := Split(s, sep);
    if HasSuffix(s, [sep, '*']) {
      var a := s[..|s| - 2];
      assert s == a + [sep] + WILD;
      SplitAtSeparator(a, WILD, sep);
      SplitWild(sep);
    }
    if EndsInWildcard(parts) {
      var front := parts[..|parts| - 1];
      assert parts == front + [WILD];
      JoinSplit(s, sep);
      JoinLast(front, WILD, sep);
    }
  }

  lemma SplitWild(sep: char)
    requires sep != '*'
    ensures Split(WILD, sep) == [WILD]
  {
    assert WILD[1..] == "" && Split("", sep) == [""];
    assert [WILD[0]] + "" == WILD;
  }

  /** The prefix shortcut never accepts more than the component reading does. */
  lemma PrefixShortcut(request: string, requirement: string, sep: char)
    requires sep != '*'
    requires HasSuffix(request, [sep, '*'])
    requires request[..|request| - 1] <= requirement
    ensures PartsMatch(Split(request, sep), Split(requirement, sep))
  {
    var a, b := request[..|request| - 2], requirement[|request| - 1..];
    assert request == a + [sep] + WILD;
    assert requirement == a + [sep] + b;
    SplitAtSeparator(a, WILD, sep);
    SplitAtSeparator(a, b, sep);
    SplitWild(sep);
    PrefixParts(Split(a, sep), Split(b, sep));
  }

  lemma PrefixParts(front: seq<string>, rest: seq<string>)
    requires |front| >= 1 && |rest| >= 1
    ensures PartsMatch(front + [WILD], front + rest)
  {
  }

  method Allowed(request: string, requirement: string, sep: char, limit: int) returns (ok: bool)
    requires sep != '*'
    ensures ok <==> Matches(request, requirement, sep, limit)
  {
    if |request| == 0 || |requirement| == 0 {
      return false;
    }
    var requestCount, requirementCount := Count(request, sep) + 1, Count(requirement, sep) + 1;
    SplitSize(request, sep);
    SplitSize(requirement, sep);
    if requestCount > limit || requirementCount > limit {
      return false;
    }
    if request == requirement {
      return true;
    }
    var wildcardEnd := HasSuffix(request, [sep, '*']);
    SuffixIsTrailingWildcard(request, sep);
    if wildcardEnd {
      if request[..|request| - 1] <= requirement {
        PrefixShortcut(request, requirement, sep);
        return true;
      }
    }
    if wildcardEnd {
      if requestCount > requirementCount {
        return false;
      }
    } else if requestCount != requirementCount {
      return false;
    }
    var requirementParts, requestParts := Split(requirement, sep), Split(request, sep);
    for i := 0 to requestCount
      invariant ComponentsMatch(requestParts[..i], requirementParts)
    {
      if requestParts[i] == WILD {
        assert requestParts[..i + 1] == requestParts[..i] + [requestParts[i]];
        continue;
      }
      if requestParts[i] != requirementParts[i] {
        return false;
      }
      assert requestParts[..i + 1] == requestParts[..i] + [requestParts[i]];
    }
    assert requestParts[..requestCount] == requestParts;
    return true;
  }

  /** Wildcards in a requirement are literal, and yet matching chains. */
  lemma MatchesTransitive(p: string, q: string, r: string, sep: char, limit: int)
    requires Matches(p, q, sep, limit) && Matches(q, r, sep, limit)
    ensures Matches(p, r, sep, limit)
  {
    var ps, qs, rs := Split(p, sep), Split(q, sep), Split(r, sep);
    forall i | 0 <= i < |ps|
      ensures ps[i] == WILD || ps[i] == rs[i]
    {
      assert ps[i] == WILD || ps[i] == qs[i];
      assert qs[i] == WILD || qs[i] == rs[i];
    }
    if |ps| == |qs| && |qs| < |rs| {
      assert ps[|ps| - 1] == WILD || ps[|ps| - 1] == qs[|ps| - 1];
    }
  }

  /** Reflexivity within the limit and antisymmetry: mutual matching is equality of strings. */
  lemma MutualMatchIsEquality(p: string, q: string, sep: char, limit: int)
    ensures Matches(p, q, sep, limit) && Matches(q, p, sep, limit) <==> p == q && WithinLimit(p, sep, limit)
  {
    if Matches(p, q, sep, limit) && Matches(q, p, sep, limit) {
      var ps, qs := Split(p, sep), Split(q, sep);
      forall i | 0 <= i < |ps|
        ensures ps[i] == qs[i]
      {
        assert ps[i] == WILD || ps[i] == qs[i];
        assert qs[i] == WILD || qs[i] == ps[i];
      }
      assert ps == qs;
      JoinSplit(p, sep);
      JoinSplit(q, sep);
    }
  }

  /** A requirement without wildcard components: something concrete that may be asked for. */
  predicate Concrete(r: string, sep: char) {
    forall part | part in Split(r, sep) :: part != WILD
  }

  lemma {:induction false} SplitOne(part: string, sep: char)
    requires sep !in part
    ensures Split(part, sep) == [part]
  {
    if part != "" {
      SplitOne(part[1..], sep);
      assert [part[0]] + part[1..] == part;
    }
  }

  lemma {:induction false} SplitJoin(parts: seq<string>, sep: char)
    requires parts != [] && forall part | part in parts :: sep !in part
    ensures Split(Join(parts, sep), sep) == parts
  {
    SplitOne(parts[0], sep);
    if |parts| > 1 {
      SplitJoin(parts[1..], sep);
      SplitAtSeparator(parts[0], Join(parts[1..], sep), sep);
      assert parts == [parts[0]] + parts[1..];
    }
  }

  lemma {:induction false} PartsAreSmall(s: string, sep: char)
    ensures forall part | part in Split(s, sep) :: sep !in part && |part| <= |s|
  {
    if s != "" {
      PartsAreSmall(s[1..], sep);
    }
  }

  /** The components of `q` with each wildcard replaced by `f`. */
  function Instance(q: seq<string>, f: string): (r: seq<string>)
    ensures |r| == |q|
    ensures forall i | 0 <= i < |q| :: r[i] == if q[i] == WILD then f else q[i]
  {
    seq(|q|, i requires 0 <= i < |q| => if q[i] == WILD then f else q[i])
  }

  /** A component that occurs nowhere in `p`. */
  function FreshPart(p: string, sep: char): (f: string)
    requires sep != '*'
    ensures sep !in f && f != WILD && |f| > |p|
  {
    var f := seq(|p| + 1, _ => if sep == 'a' then 'b' else 'a');
    assert f[0] != WILD[0];
    f
  }

  lemma InstancePattern(p: string, q: string, sep: char, limit: int) returns (r: string)
    requires sep != '*' && WithinLimit(q, sep, limit)
    ensures Split(r, sep) == Instance(Split(q, sep), FreshPart(p, sep)) && r != ""
  {
    var parts := Instance(Split(q, sep), FreshPart(p, sep));
    PartsAreSmall(q, sep);
    r := Join(parts, sep);
    SplitJoin(parts, sep);
    if |parts| == 1 {
      JoinSplit(q, sep);
    }
  }

  /**
   What matching means: one pattern allows another exactly when it allows every concrete
   requirement that the other allows.
   */
  lemma MatchesIsContainment(p: string, q: string, sep: char, limit: int)
    requires sep != '*' && WithinLimit(q, sep, limit)
    ensures Matches(p, q, sep, limit) <==>
              forall r | Concrete(r, sep) && Matches(q, r, sep, limit) :: Matches(p, r, sep, limit)
  {
    if Matches(p, q, sep, limit) {
      forall r | Concrete(r, sep) && Matches(q, r, sep, limit)
        ensures Matches(p, r, sep, limit)
      {
        MatchesTransitive(p, q, r, sep, limit);
      }
    } else {
      var r := InstancePattern(p, q, sep, limit);
      InstanceSeparates(p, q, r, sep, limit);
    }
  }

  /** A fresh instance of `q` is allowed by `q`, and by `p` only if `p` allows `q`. */
  lemma InstanceSeparates(p: string, q: string, r: string, sep: char, limit: int)
    requires sep != '*' && WithinLimit(q, sep, limit) && r != ""
    requires Split(r, sep) == Instance(Split(q, sep), FreshPart(p, sep))
    ensures Concrete(r, sep) && Matches(q, r, sep, limit)
    ensures Matches(p, r, sep, limit) ==> Matches(p, q, sep, limit)
  {
    var ps, qs, rs := Split(p, sep), Split(q, sep), Split(r, sep);
    if Matches(p, r, sep, limit) {
      PartsAreSmall(p, sep);
      forall i | 0 <= i < |ps|
        ensures ps[i] == WILD || ps[i] == qs[i]
      {
        assert ps[i] == WILD || ps[i] == rs[i];
        assert ps[i] in ps;
      }
    }
  }

  datatype Spec = Spec(role: string, verb: string, resource: string, action: string) {
    predicate Valid() {
      role != "" && verb != "" && resource != "" && action != ""
    }
  }

  /** One granted permission covers a required one. */
  predicate Grants(permission: Spec, required: Spec, limit: int) {
    && permission.role == required.role
    && permission.verb == required.verb
    && Matches(permission.action, required.action, ':', limit)
    && Matches(permission.resource, required.resource, '/', limit)
  }

  ghost predicate SatisfiedBy(granted: seq<Spec>, required: Spec, limit: int) {
    required.Valid() && exists p :: p in granted && Grants(p, required, limit)
  }

  method Satisfies(permissions: seq<Spec>, required: Spec, limit: int) returns (ok: bool)
    ensures ok <==> SatisfiedBy(permissions, required, limit)
    ensures ok <==> && required.role != "" && required.verb != "" && required.resource != "" && required.action != ""
                    && exists p :: && p in permissions && p.role == required.role && p.verb == required.verb
                                   && Matches(p.action, required.action, ':', limit)
                                   && Matches(p.resource, required.resource, '/', limit)
  {
    if !required.Valid() {
      return false;
    }
    for i := 0 to |permissions|
      invariant forall p | p in permissions[..i] :: !Grants(p, required, limit)
    {
      var permission := permissions[i];
      var sameRole := permission.role == required.role && permission.verb == required.verb;
      if sameRole {
        var action := Allowed(permission.action, required.action, ':', limit);
        if action {
          var resource := Allowed(permission.resource, required.resource, '/', limit);
          if resource {
            assert permission in permissions && Grants(permission, required, limit);
            return true;
          }
        }
      }
      assert permissions[..i + 1] == permissions[..i] + [permission];
    }
    assert permissions[..|permissions|] == permissions;
    return false;
  }

  /** A set satisfies its own members that are within the limit, exactly when role and verb are set. */
  lemma MemberIsSatisfied(permissions: seq<Spec>, member: Spec, limit: int)
    requires member in permissions
    requires WithinLimit(member.action, ':', limit) && WithinLimit(member.resource, '/', limit)
    ensures SatisfiedBy(permissions, member, limit) <==> member.role != "" && member.verb != ""
  {
    MutualMatchIsEquality(member.action, member.action, ':', limit);
    MutualMatchIsEquality(member.resource, member.resource, '/', limit);
    assert Grants(member, member, limit);
  }

  /** Only the named role and verb are granted. */
  lemma OtherRolesAreNot(permissions: seq<Spec>, required: Spec, limit: int)
    requires forall p | p in permissions :: p.role != required.role || p.verb != required.verb
    ensures !SatisfiedBy(permissions, required, limit)
  {
  }

  /** A trailing wildcard after ':' in the action and after '/' in the resource grants everything
      below, within the limit. */
  lemma WildcardsGrantBelow(permission: Spec, required: Spec, action: string, resource: string, x: string, y: string,
                            limit: int)
    requires permission == Spec(required.role, required.verb, resource + "/*", action + ":*")
    requires required.action == action + ":" + x && required.resource == resource + "/" + y
    requires required.role != "" && required.verb != ""
    ensures SatisfiedBy([permission], required, limit) <==>
              && Count(action, ':') + Count(x, ':') + 2 <= limit && Count(action, ':') + 2 <= limit
              && Count(resource, '/') + Count(y, '/') + 2 <= limit && Count(resource, '/') + 2 <= limit
  {
    WildcardMatches(action, x, ':', limit);
    WildcardMatches(resource, y, '/', limit);
    assert permission.action == action + [':'] + WILD && required.action == action + [':'] + x;
    assert permission.resource == resource + ['/'] + WILD && required.resource == resource + ['/'] + y;
    assert SatisfiedBy([permission], required, limit) <==> Grants(permission, required, limit) by {
      assert permission in [permission];
    }
  }

  lemma WildcardMatches(a: string, x: string, sep: char, limit: int)
    requires sep != '*'
    ensures Matches(a + [sep] + WILD, a + [sep] + x, sep, limit) <==>
              Count(a, sep) + 2 <= limit && Count(a, sep) + Count(x, sep) + 2 <= limit
  {
    var p, q := a + [sep] + WILD, a + [sep] + x;
    SplitAtSeparator(a, WILD, sep);
    SplitAtSeparator(a, x, sep);
    SplitWild(sep);
    SplitSize(a, sep);
    SplitSize(x, sep);
    PrefixParts(Split(a, sep), Split(x, sep));
  }

  /** Delegation composes: what a delegate's set satisfies, the delegating set satisfies. */
  lemma SatisfiesComposes(a: seq<Spec>, b: seq<Spec>, required: Spec, limit: int)
    requires forall q | q in b :: SatisfiedBy(a, q, limit)
    requires SatisfiedBy(b, required, limit)
    ensures SatisfiedBy(a, required, limit)
  {
    var q :| q in b && Grants(q, required, limit);
    assert SatisfiedBy(a, q, limit);
    var p :| p in a && Grants(p, q, limit);
    MatchesTransitive(p.action, q.action, required.action, ':', limit);
    MatchesTransitive(p.resource, q.resource, required.resource, '/', limit);
  }

  /** Adding permissions, in any order, never removes a satisfied requirement. */
  lemma SatisfiesMonotone(a: seq<Spec>, b: seq<Spec>, required: Spec, limit: int)
    requires forall p | p in a :: p in b
    requires SatisfiedBy(a, required, limit)
    ensures SatisfiedBy(b, required, limit)
  {
    var p :| p in a && Grants(p, required, limit);
    assert p in b;
  }
}
