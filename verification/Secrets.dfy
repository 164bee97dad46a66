/**
 The secrets of a webhook configuration (webhooks/webhook_config.go): a map from users to lists of
 secret IDs, flattened to key specs when read and grouped again when written. Ranging over a Go
 map visits its keys in any order; the order is an argument.
 */
module Secrets {
  import opened Common

  type SecretMap = map<string, seq<string>>

  datatype KeySpec = KeySpec(user: string, id: string)

  ghost predicate Enumerates(order: seq<string>, m: SecretMap) {
    && (forall u :: u in order <==> u in m)
    && (forall i, j | 0 <= i < j < |order| :: order[i] != order[j])
  }

  function SpecsOf(user: string, ids: seq<string>): seq<KeySpec> {
    if ids == [] then [] else [KeySpec(user, ids[0])] + SpecsOf(user, ids[1..])
  }

  function Flatten(m: SecretMap, order: seq<string>): seq<KeySpec>
    requires forall u | u in order :: u in m
  {
    if order == [] then [] else SpecsOf(order[0], m[order[0]]) + Flatten(m, order[1..])
  }

  /** The IDs that a list of specs gives one user, in order. */
  function IdsOf(specs: seq<KeySpec>, user: string): seq<string> {
    if specs == [] then []
    else Head(specs[0], user) + IdsOf(specs[1..], user)
  }

  function Head(spec: KeySpec, user: string): seq<string> {
    if spec.user == user then [spec.id] else []
  }

  /** Grouping, stated by user: who appears, and with which IDs. */
  function Grouped(specs: seq<KeySpec>): SecretMap {
    map u | u in (set s | s in specs :: s.user) :: IdsOf(specs, u)
  }

  function NonEmpty(m: SecretMap): SecretMap {
    map u | u in m && m[u] != [] :: m[u]
  }

  lemma {:induction false} FlattenLast(m: SecretMap, order: seq<string>, u: string)
    requires u in m && forall v | v in order :: v in m
    ensures Flatten(m, order + [u]) == Flatten(m, order) + SpecsOf(u, m[u])
  {
    if order == [] {
      assert ([u])[1..] == [] && order + [u] == [u];
    } else {
      FlattenLast(m, order[1..], u);
      assert (order + [u])[1..] == order[1..] + [u];
      AppendAssociative(SpecsOf(order[0], m[order[0]]), Flatten(m, order[1..]), SpecsOf(u, m[u]));
    }
  }

  lemma {:induction false} SpecsLast(user: string, ids: seq<string>, id: string)
    ensures SpecsOf(user, ids + [id]) == SpecsOf(user, ids) + [KeySpec(user, id)]
  {
    if ids == [] {
      assert ids + [id] == [id] && [id][1..] == [];
    } else {
      SpecsLast(user, ids[1..], id);
      assert (ids + [id])[1..] == ids[1..] + [id];
    }
  }

  lemma {:induction false} IdsAppend(a: seq<KeySpec>, b: seq<KeySpec>, u: string)
    ensures IdsOf(a + b, u) == IdsOf(a, u) + IdsOf(b, u)
  {
    if a == [] {
      assert a + b == b;
    } else {
      IdsAppend(a[1..], b, u);
      assert (a + b)[1..] == a[1..] + b;
      AppendAssociative(Head(a[0], u), IdsOf(a[1..], u), IdsOf(b, u));
    }
  }

  lemma IdsLast(a: seq<KeySpec>, s: KeySpec, u: string)
    ensures IdsOf(a + [s], u) == IdsOf(a, u) + Head(s, u)
  {
    IdsAppend(a, [s], u);
    assert [s][1..] == [];
  }

  /** A user without specs has no IDs, and conversely. */
  lemma {:induction false} IdsPresent(specs: seq<KeySpec>, u: string)
    ensures IdsOf(specs, u) != [] <==> u in (set s | s in specs :: s.user)
  {
    if specs != [] {
      IdsPresent(specs[1..], u);
      assert specs == [specs[0]] + specs[1..];
    }
  }

  /** The configuration value. `None` stands for a nil map and a nil slice. */
  class SecretsConfig {
    var secrets: Option<SecretMap>
    var specs: Option<seq<KeySpec>>

    /** `decoded` is what the YAML decoder answers: an error, or a possibly nil map. */
    method UnmarshalYAML(decoded: Option<Option<SecretMap>>, order: seq<string>) returns (ok: bool)
      requires decoded.Some? ==>
                 Enumerates(order, if decoded.value.Some? then decoded.value.value else map[])
      modifies this
      ensures ok <==> decoded.Some?
      ensures !ok ==> secrets == old(secrets) && specs == old(specs)
      ensures ok ==> secrets == decoded.value &&
                     specs == Some(Flatten(if secrets.Some? then secrets.value else map[], order))
    {
      if decoded.None? {
        return false;
      }
      secrets := decoded.value;
      var m: SecretMap := if secrets.Some? then secrets.value else map[];
      var flat: seq<KeySpec> := [];
      for i := 0 to |order|
        invariant secrets == decoded.value
        invariant flat == Flatten(m, order[..i])
      {
        var user, ids := order[i], m[order[i]];
        assert order[..i + 1] == order[..i] + [user];
        FlattenLast(m, order[..i], user);
        ghost var before := flat;
        for j := 0 to |ids|
          invariant secrets == decoded.value
          invariant flat == before + SpecsOf(user, ids[..j])
        {
          assert ids[..j + 1] == ids[..j] + [ids[j]];
          SpecsLast(user, ids[..j], ids[j]);
          flat := flat + [KeySpec(user, ids[j])];
        }
        assert ids[..|ids|] == ids;
      }
      assert order[..|order|] == order;
      specs := Some(flat);
      return true;
    }

    method MarshalYAML() returns (m: SecretMap)
      ensures m == if secrets.Some? then secrets.value
                   else if specs.None? then map[] else Grouped(specs.value)
    {
      if secrets.Some? {
        return secrets.value;
      }
      if specs.None? {
        return map[];
      }
      var all := specs.value;
      m := map[];
      for i := 0 to |all|
        invariant forall u :: u in m <==> IdsOf(all[..i], u) != []
        invariant forall u | u in m :: m[u] == IdsOf(all[..i], u)
      {
        var spec := all[i];
        assert all[..i + 1] == all[..i] + [spec];
        forall u
          ensures IdsOf(all[..i + 1], u) == IdsOf(all[..i], u) + Head(spec, u)
        {
          IdsLast(all[..i], spec, u);
        }
        m := m[spec.user := (if spec.user in m then m[spec.user] else []) + [spec.id]];
      }
      assert all[..|all|] == all;
      forall u
        ensures IdsOf(all, u) != [] <==> u in (set s | s in all :: s.user)
      {
        IdsPresent(all, u);
      }
    }
  }

  lemma {:induction false} IdsOfSpecs(user: string, ids: seq<string>, u: string)
    ensures IdsOf(SpecsOf(user, ids), u) == if u == user then ids else []
  {
    if ids != [] {
      IdsOfSpecs(user, ids[1..], u);
      assert SpecsOf(user, ids)[1..] == SpecsOf(user, ids[1..]);
    }
  }

  lemma {:induction false} IdsOfFlatten(m: SecretMap, order: seq<string>, u: string)
    requires forall v | v in order :: v in m
    requires forall i, j | 0 <= i < j < |order| :: order[i] != order[j]
    ensures IdsOf(Flatten(m, order), u) == if u in order then m[u] else []
  {
    if order != [] {
      IdsAppend(SpecsOf(order[0], m[order[0]]), Flatten(m, order[1..]), u);
      IdsOfSpecs(order[0], m[order[0]], u);
      IdsOfFlatten(m, order[1..], u);
      assert order == [order[0]] + order[1..];
    }
  }

  /** Whatever order the map was visited in, grouping gives it back less its empty lists. */
  lemma GroupFlatten(m: SecretMap, order: seq<string>)
    requires Enumerates(order, m)
    ensures Grouped(Flatten(m, order)) == NonEmpty(m)
  {
    var specs := Flatten(m, order);
    forall u
      ensures (u in Grouped(specs) <==> u in NonEmpty(m)) && (u in NonEmpty(m) ==> Grouped(specs)[u] == m[u])
    {
      IdsOfFlatten(m, order, u);
      IdsPresent(specs, u);
    }
  }

  lemma {:induction false} CountByUser(specs: seq<KeySpec>, s: KeySpec)
    ensures multiset(specs)[s] == multiset(IdsOf(specs, s.user))[s.id]
  {
    if specs != [] {
      CountByUser(specs[1..], s);
      assert specs == [specs[0]] + specs[1..];
      assert multiset(IdsOf(specs, s.user)) == multiset(Head(specs[0], s.user)) + multiset(IdsOf(specs[1..], s.user));
    }
  }

  /** Flattening a grouping permutes the specs and keeps the order of each user's IDs. */
  lemma FlattenGroup(specs: seq<KeySpec>, order: seq<string>)
    requires Enumerates(order, Grouped(specs))
    ensures multiset(Flatten(Grouped(specs), order)) == multiset(specs)
    ensures forall u :: IdsOf(Flatten(Grouped(specs), order), u) == IdsOf(specs, u)
  {
    var flat := Flatten(Grouped(specs), order);
    forall u
      ensures IdsOf(flat, u) == IdsOf(specs, u)
    {
      IdsOfFlatten(Grouped(specs), order, u);
      IdsPresent(specs, u);
    }
    forall s
      ensures multiset(flat)[s] == multiset(specs)[s]
    {
      CountByUser(flat, s);
      CountByUser(specs, s);
    }
  }
}
