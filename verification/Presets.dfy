/** Merging the API's split-tunnel presets with the built-in ones. */
module Presets {
  import opened Prelude

  /** A preset object; a missing or non-string member reads as "". */
  datatype Preset = Preset(id: string, name: string, description: string, domains: seq<string>)

  function NonEmpty(ds: seq<string>): seq<string>
  {
    if ds == [] then []
    else (if ds[0] == "" then [] else [ds[0]]) + NonEmpty(ds[1..])
  }

  /** The entries of `extra` not in `base` and not seen before, in order. */
  function Added(seen: set<string>, extra: seq<string>): seq<string>
    decreases |extra|
  {
    if extra == [] then []
    else if extra[0] == "" || extra[0] in seen then Added(seen, extra[1..])
    else [extra[0]] + Added(seen + {extra[0]}, extra[1..])
  }

  method DomainsFromJson(domains: seq<string>) returns (out: seq<string>)
    ensures out == NonEmpty(domains)
  {
    out := [];
    for i := 0 to |domains|
      invariant out + NonEmpty(domains[i..]) == NonEmpty(domains)
    {
      assert domains[i..][1..] == domains[i + 1..];
      ghost var rest := NonEmpty(domains[i + 1..]);
      if domains[i] != "" {
        assert out + ([domains[i]] + rest) == (out + [domains[i]]) + rest;
        out := out + [domains[i]];
      } else {
        assert [] + rest == rest;
      }
    }
  }

  method UnionDomains(base: seq<string>, extra: seq<string>) returns (out: seq<string>)
    ensures out == base + Added(Elems(base), extra)
  {
    out := base;
    var seen := Elems(base);
    for i := 0 to |extra|
      invariant out + Added(seen, extra[i..]) == base + Added(Elems(base), extra)
    {
      assert extra[i..][1..] == extra[i + 1..];
      if extra[i] == "" || extra[i] in seen { continue; }
      seen := seen + {extra[i]};
      out := out + [extra[i]];
    }
  }

  /** The union has all non-empty entries of both sides and repeats no added one. */
  lemma {:induction false} AddedProperties(seen: set<string>, extra: seq<string>)
    ensures forall d :: d in Added(seen, extra) <==> d in extra && d != "" && d !in seen
    ensures forall i, j :: 0 <= i < j < |Added(seen, extra)| ==> Added(seen, extra)[i] != Added(seen, extra)[j]
    decreases |extra|
  {
    if extra != [] {
      assert extra == [extra[0]] + extra[1..];
      if extra[0] == "" || extra[0] in seen {
        AddedProperties(seen, extra[1..]);
      } else {
        AddedProperties(seen + {extra[0]}, extra[1..]);
      }
    }
  }

  /** A list whose entries are all seen adds nothing; what a union added, it adds again. */
  lemma {:induction false} AddedAgain(seen: set<string>, base: seq<string>, extra: seq<string>)
    requires forall d :: d in base ==> d == "" || d in seen
    ensures Added(seen, base + extra) == Added(seen, extra)
    decreases |base|
  {
    if base == [] {
      assert base + extra == extra;
    } else {
      assert (base + extra)[1..] == base[1..] + extra;
      assert base[0] in base && forall d :: d in base[1..] ==> d in base;
      AddedAgain(seen, base[1..], extra);
    }
  }

  lemma {:induction false} AddedIdempotent(seen: set<string>, extra: seq<string>)
    ensures Added(seen, Added(seen, extra)) == Added(seen, extra)
    decreases |extra|
  {
    if extra != [] && extra[0] != "" && extra[0] !in seen {
      var rest := Added(seen + {extra[0]}, extra[1..]);
      AddedIdempotent(seen + {extra[0]}, extra[1..]);
      assert ([extra[0]] + rest)[1..] == rest;
    } else if extra != [] {
      AddedIdempotent(seen, extra[1..]);
    }
  }

  lemma {:induction false} NonEmptyProperties(ds: seq<string>)
    ensures forall d :: d in NonEmpty(ds) <==> d in ds && d != ""
    ensures NonEmpty(ds) == ds <==> "" !in ds
    ensures |NonEmpty(ds)| <= |ds|
  {
    if ds != [] {
      NonEmptyProperties(ds[1..]);
      assert ds == [ds[0]] + ds[1..];
      if ds[0] != "" {
        assert NonEmpty(ds)[1..] == NonEmpty(ds[1..]);
      }
    }
  }

  // ---- merging one preset ----

  /** What mergeWithApi writes back for a shared id. */
  function Merged(api: Preset, builtin: Preset): Preset
  {
    var base := NonEmpty(builtin.domains);
    api.(domains := base + Added(Elems(base), NonEmpty(api.domains)),
         name := if api.name == "" then builtin.name else api.name,
         description := if api.description == "" then builtin.description else api.description)
  }

  lemma MergedDomains(api: Preset, builtin: Preset)
    ensures forall d :: d in Merged(api, builtin).domains <==> d != "" && (d in api.domains || d in builtin.domains)
    ensures NonEmpty(builtin.domains) <= Merged(api, builtin).domains
    ensures var n := |NonEmpty(builtin.domains)|;
            forall i, j :: n <= j < |Merged(api, builtin).domains| && 0 <= i < j ==> Merged(api, builtin).domains[i] != Merged(api, builtin).domains[j]
  {
    var base := NonEmpty(builtin.domains);
    NonEmptyProperties(builtin.domains);
    NonEmptyProperties(api.domains);
    AddedProperties(Elems(base), NonEmpty(api.domains));
    var all := Merged(api, builtin).domains;
    forall i, j | |base| <= j < |all| && 0 <= i < j ensures all[i] != all[j] {
      if i < |base| { assert all[i] in base && all[j] in Added(Elems(base), NonEmpty(api.domains)); }
    }
  }

  /** The other members: the API's own id, name and description, the last two falling back to the
      built-in's when they are empty. */
  lemma MergedTexts(api: Preset, builtin: Preset)
    ensures var r := Merged(api, builtin);
            && r.id == api.id
            && (api.name != "" ==> r.name == api.name) && (api.name == "" ==> r.name == builtin.name)
            && (api.description != "" ==> r.description == api.description)
            && (api.description == "" ==> r.description == builtin.description)
  {}

  /** Merging twice with the same built-in changes nothing more. */
  lemma MergedIdempotent(api: Preset, builtin: Preset)
    ensures Merged(Merged(api, builtin), builtin) == Merged(api, builtin)
  {
    var base, seen := NonEmpty(builtin.domains), Elems(NonEmpty(builtin.domains));
    var more := Added(seen, NonEmpty(api.domains));
    NonEmptyProperties(builtin.domains);
    NonEmptyProperties(api.domains);
    AddedProperties(seen, NonEmpty(api.domains));
    NonEmptyProperties(base + more);
    AddedAgain(seen, base, more);
    AddedIdempotent(seen, NonEmpty(api.domains));
  }

  /** A built-in preset merged with itself only loses its empty domains. */
  lemma MergedWithItself(b: Preset)
    ensures Merged(b, b) == b.(domains := NonEmpty(b.domains))
    ensures Merged(b, b) == b <==> "" !in b.domains
  {
    var base := NonEmpty(b.domains);
    NonEmptyProperties(b.domains);
    AddedAgain(Elems(base), base, []);
    assert base + [] == base;
  }

  // ---- the whole merge ----

  /** The last position with an id: what indexing by id keeps. */
  function LastIndex(ps: seq<Preset>, id: string): (r: int)
    ensures -1 <= r < |ps|
    ensures r >= 0 ==> ps[r].id == id
    ensures forall j :: r < j < |ps| ==> ps[j].id != id
  {
    if ps == [] then -1
    else if ps[|ps| - 1].id == id then |ps| - 1
    else LastIndex(ps[..|ps| - 1], id)
  }

  lemma LastIndexIs(ps: seq<Preset>, id: string, i: int)
    requires -1 <= i < |ps| && (i >= 0 ==> ps[i].id == id) && forall j :: i < j < |ps| ==> ps[j].id != id
    ensures LastIndex(ps, id) == i
  {}

  predicate DistinctIds(bs: seq<Preset>)
  {
    forall i, j :: 0 <= i < j < |bs| ==> bs[i].id != bs[j].id
  }

  /** The entry at position i after merging: the last one with a built-in's id absorbs it. */
  function Updated(api: seq<Preset>, bs: seq<Preset>, i: nat): (r: Preset)
    requires i < |api|
    ensures r.id == api[i].id
  {
    var b := LastIndex(bs, api[i].id);
    if api[i].id != "" && b >= 0 && LastIndex(api, api[i].id) == i then Merged(api[i], bs[b]) else api[i]
  }

  function UpdatedAll(api: seq<Preset>, bs: seq<Preset>): (r: seq<Preset>)
    ensures |r| == |api|
  {
    seq(|api|, i requires 0 <= i < |api| => Updated(api, bs, i))
  }

  /** The built-ins whose id the API list does not have, in order. */
  function Missing(api: seq<Preset>, bs: seq<Preset>): (r: seq<Preset>)
    ensures forall b :: b in r <==> b in bs && b.id != "" && LastIndex(api, b.id) < 0
  {
    if bs == [] then []
    else
      var b := bs[|bs| - 1];
      assert bs == bs[..|bs| - 1] + [b];
      Missing(api, bs[..|bs| - 1]) + if b.id != "" && LastIndex(api, b.id) < 0 then [b] else []
  }

  /** The missing built-ins come in their own order, each at its own position. */
  lemma {:induction false} MissingInOrder(api: seq<Preset>, bs: seq<Preset>) returns (at: seq<nat>)
    ensures |at| == |Missing(api, bs)|
    ensures forall i :: 0 <= i < |at| ==> at[i] < |bs| && bs[at[i]] == Missing(api, bs)[i]
    ensures forall i, j :: 0 <= i < j < |at| ==> at[i] < at[j]
  {
    at := [];
    if bs != [] {
      var n := |bs| - 1;
      at := MissingInOrder(api, bs[..n]);
      forall i | 0 <= i < |at| ensures at[i] < n && bs[at[i]] == Missing(api, bs[..n])[i] { assert bs[..n][at[i]] == bs[at[i]]; }
      if bs[n].id != "" && LastIndex(api, bs[n].id) < 0 {
        assert Missing(api, bs) == Missing(api, bs[..n]) + [bs[n]];
        at := at + [n];
      } else {
        assert Missing(api, bs) == Missing(api, bs[..n]) + [];
      }
    }
  }

  function Result(api: seq<Preset>, bs: seq<Preset>): seq<Preset> { Missing(api, bs) + UpdatedAll(api, bs) }

  method IndexById(ps: seq<Preset>) returns (index: map<string, int>)
    ensures forall id :: id in index <==> id != "" && LastIndex(ps, id) >= 0
    ensures forall id :: id in index ==> index[id] == LastIndex(ps, id)
  {
    index := map[];
    for i := 0 to |ps|
      invariant forall id :: id in index <==> id != "" && LastIndex(ps[..i], id) >= 0
      invariant forall id :: id in index ==> index[id] == LastIndex(ps[..i], id)
    {
      assert ps[..i + 1][..i] == ps[..i];
      if ps[i].id != "" { index := index[ps[i].id := i]; }
    }
    assert ps[..|ps|] == ps;
  }

  /** mergeWithApi for any built-in list with distinct ids. */
  method MergeWithApi(api: seq<Preset>, bs: seq<Preset>) returns (result: seq<Preset>)
    requires DistinctIds(bs)
    ensures result == Result(api, bs)
  {
    var merged := api;
    var index := IndexById(merged);
    var builtinsOnly: seq<Preset> := [];
    for k := 0 to |bs|
      invariant |merged| == |api| && merged == UpdatedAll(api, bs[..k])
      invariant builtinsOnly == Missing(api, bs[..k])
    {
      assert bs[..k + 1][..k] == bs[..k];
      var builtin := bs[k];
      ghost var before := merged;
      if builtin.id == "" {
        OneBuiltin(api, bs, k, before, merged);
        continue;
      }
      if builtin.id !in index {
        builtinsOnly := builtinsOnly + [builtin];
        OneBuiltin(api, bs, k, before, merged);
        continue;
      }
      var it := index[builtin.id];
      var one := MergeOne(merged[it], builtin);
      merged := merged[it := one];
      OneBuiltin(api, bs, k, before, merged);
    }
    assert bs[..|bs|] == bs;
    result := builtinsOnly + merged;
  }

  method MergeOne(api: Preset, builtin: Preset) returns (r: Preset)
    ensures r == Merged(api, builtin)
  {
    var mine := DomainsFromJson(builtin.domains);
    var theirs := DomainsFromJson(api.domains);
    var unioned := UnionDomains(mine, theirs);
    r := api.(domains := unioned);
    if r.name == "" { r := r.(name := builtin.name); }
    if r.description == "" && builtin.description != "" { r := r.(description := builtin.description); }
  }

  /** One pass of the loop over built-ins, position by position. */
  lemma OneBuiltin(api: seq<Preset>, bs: seq<Preset>, k: nat, before: seq<Preset>, after: seq<Preset>)
    requires k < |bs| && DistinctIds(bs) && before == UpdatedAll(api, bs[..k])
    requires var b := bs[k]; var it := LastIndex(api, b.id);
             after == if b.id == "" || it < 0 then before else before[it := Merged(before[it], b)]
    ensures after == UpdatedAll(api, bs[..k + 1])
  {
    var b, it := bs[k], LastIndex(api, bs[k].id);
    forall i | 0 <= i < |api| ensures after[i] == Updated(api, bs[..k + 1], i) {
      if api[i].id == b.id { SameId(api, bs, k, i); } else { OtherId(api, bs, k, i); }
    }
  }

  lemma SameId(api: seq<Preset>, bs: seq<Preset>, k: nat, i: nat)
    requires k < |bs| && DistinctIds(bs) && i < |api| && api[i].id == bs[k].id
    ensures Updated(api, bs[..k], i) == api[i]
    ensures Updated(api, bs[..k + 1], i) ==
              if api[i].id != "" && LastIndex(api, api[i].id) == i then Merged(api[i], bs[k]) else api[i]
  {
    LastIndexIs(bs[..k], bs[k].id, -1);
    LastIndexIs(bs[..k + 1], bs[k].id, k);
  }

  lemma OtherId(api: seq<Preset>, bs: seq<Preset>, k: nat, i: nat)
    requires k < |bs| && i < |api| && api[i].id != bs[k].id
    ensures Updated(api, bs[..k + 1], i) == Updated(api, bs[..k], i)
  {
    assert bs[..k + 1][..k] == bs[..k];
    assert LastIndex(bs[..k + 1], api[i].id) == LastIndex(bs[..k], api[i].id);
  }

  // ---- idempotence ----

  lemma {:induction false} MissingDistinct(api: seq<Preset>, bs: seq<Preset>)
    requires DistinctIds(bs)
    ensures DistinctIds(Missing(api, bs))
  {
    if bs != [] {
      var less := bs[..|bs| - 1];
      MissingDistinct(api, less);
      var m := Missing(api, bs);
      forall i, j | 0 <= i < j < |m| ensures m[i].id != m[j].id {
        if j == |m| - 1 && |m| > |Missing(api, less)| {
          assert m[i] in Missing(api, less);
          var x :| 0 <= x < |less| && less[x] == m[i];
        }
      }
    }
  }

  /** Every non-empty built-in id is present after a merge. */
  lemma NothingMissing(api: seq<Preset>, bs: seq<Preset>, b: Preset)
    requires b in bs && b.id != ""
    ensures LastIndex(Result(api, bs), b.id) >= 0
  {
    var m, r, at := Missing(api, bs), Result(api, bs), LastIndex(api, b.id);
    if at < 0 {
      assert b in m;
      var i :| 0 <= i < |m| && m[i] == b;
      assert r[i].id == b.id;
    } else {
      assert r[|m| + at].id == b.id;
    }
  }

  /** In a merged list an API entry is still the last one of its id iff it was before. */
  lemma LastStays(api: seq<Preset>, bs: seq<Preset>, i: nat)
    requires i < |api|
    ensures LastIndex(Result(api, bs), api[i].id) == |Missing(api, bs)| + LastIndex(api, api[i].id)
  {
    var m, r, at := Missing(api, bs), Result(api, bs), LastIndex(api, api[i].id);
    forall j | |m| + at < j < |r| ensures r[j].id != api[i].id { assert r[j].id == api[j - |m|].id; }
    assert r[|m| + at].id == api[at].id;
    LastIndexIs(r, api[i].id, |m| + at);
  }

  /** A second merge leaves position i alone. */
  predicate StableAt(r: seq<Preset>, bs: seq<Preset>, i: nat)
    requires i < |r|
  {
    Updated(r, bs, i) == r[i]
  }

  lemma ApiEntryStable(api: seq<Preset>, bs: seq<Preset>, i: nat)
    requires i < |api|
    ensures var r, n := Result(api, bs), |Missing(api, bs)|; StableAt(r, bs, n + i)
  {
    var r, n := Result(api, bs), |Missing(api, bs)|;
    var x := r[n + i];
    assert x == Updated(api, bs, i);
    LastStays(api, bs, i);
    UpdatedAgain(r, bs, n + i, api, i, x);
  }

  lemma UpdatedAgain(r: seq<Preset>, bs: seq<Preset>, k: nat, api: seq<Preset>, i: nat, x: Preset)
    requires i < |api| && k < |r| && r[k] == x == Updated(api, bs, i)
    requires LastIndex(r, x.id) == k <==> LastIndex(api, api[i].id) == i
    ensures Updated(r, bs, k) == x
  {
    var b := LastIndex(bs, api[i].id);
    if b >= 0 { MergedIdempotent(api[i], bs[b]); }
  }

  lemma MissingEntryStable(api: seq<Preset>, bs: seq<Preset>, i: nat)
    requires DistinctIds(bs) && i < |Missing(api, bs)|
    ensures StableAt(Result(api, bs), bs, i) <==> "" !in Missing(api, bs)[i].domains
  {
    var m, r := Missing(api, bs), Result(api, bs);
    var b := m[i];
    assert b in m;
    MissingDistinct(api, bs);
    forall j | i < j < |r| ensures r[j].id != b.id {
      if j >= |m| { assert r[j].id == api[j - |m|].id; }
    }
    LastIndexIs(r, b.id, i);
    var x :| 0 <= x < |bs| && bs[x] == b;
    LastIndexIs(bs, b.id, x);
    MergedWithItself(b);
  }

  /** Merging is idempotent exactly when no built-in that the API lacks lists an empty domain. */
  lemma MergeIdempotentIff(api: seq<Preset>, bs: seq<Preset>)
    requires DistinctIds(bs)
    ensures Result(Result(api, bs), bs) == Result(api, bs) <==> forall b :: b in Missing(api, bs) ==> "" !in b.domains
  {
    MergedHasAll(api, bs);
    StableEverywhere(Result(api, bs), bs);
    EntriesStable(api, bs, Result(api, bs), Missing(api, bs));
    NoEmptyDomain(Missing(api, bs));
  }

  lemma EntriesStable(api: seq<Preset>, bs: seq<Preset>, r: seq<Preset>, m: seq<Preset>)
    requires DistinctIds(bs) && r == Result(api, bs) && m == Missing(api, bs)
    ensures (forall i :: 0 <= i < |r| ==> StableAt(r, bs, i)) <==> forall i :: 0 <= i < |m| ==> "" !in m[i].domains
  {
    MissingStable(api, bs, r, m);
    ApiStable(api, bs, r, m);
  }

  lemma MissingStable(api: seq<Preset>, bs: seq<Preset>, r: seq<Preset>, m: seq<Preset>)
    requires DistinctIds(bs) && r == Result(api, bs) && m == Missing(api, bs)
    ensures forall i :: 0 <= i < |m| ==> (StableAt(r, bs, i) <==> "" !in m[i].domains)
  {
    forall i | 0 <= i < |m| ensures StableAt(r, bs, i) <==> "" !in m[i].domains { MissingEntryStable(api, bs, i); }
  }

  lemma ApiStable(api: seq<Preset>, bs: seq<Preset>, r: seq<Preset>, m: seq<Preset>)
    requires r == Result(api, bs) && m == Missing(api, bs)
    ensures forall i :: |m| <= i < |r| ==> StableAt(r, bs, i)
  {
    forall i | |m| <= i < |r| ensures StableAt(r, bs, i) { ApiEntryStable(api, bs, i - |m|); }
  }

  lemma StableEverywhere(r: seq<Preset>, bs: seq<Preset>)
    requires Missing(r, bs) == []
    ensures Result(r, bs) == r <==> forall i :: 0 <= i < |r| ==> StableAt(r, bs, i)
  {
    var u := UpdatedAll(r, bs);
    assert Result(r, bs) == u;
    assert forall i :: 0 <= i < |r| ==> (StableAt(r, bs, i) <==> u[i] == r[i]);
    if forall i :: 0 <= i < |r| ==> StableAt(r, bs, i) { assert u == r; }
  }

  lemma NoEmptyDomain(m: seq<Preset>)
    ensures (forall b :: b in m ==> "" !in b.domains) <==> forall i :: 0 <= i < |m| ==> "" !in m[i].domains
  {}

  lemma MergedHasAll(api: seq<Preset>, bs: seq<Preset>)
    ensures Missing(Result(api, bs), bs) == []
  {
    var r := Result(api, bs);
    forall b | b in bs && b.id != "" ensures LastIndex(r, b.id) >= 0 { NothingMissing(api, bs, b); }
    var again := Missing(r, bs);
    assert forall b :: b !in again;
    HasMember(again);
  }

  lemma HasMember(s: seq<Preset>)
    ensures s == [] || exists b :: b in s
  {
    if s != [] { assert s[0] in s; }
  }

  /** Every API preset keeps its place and id after the missing built-ins, and a shared id ends with
      all non-empty domains of both sides. */
  lemma MergeKeepsApi(api: seq<Preset>, bs: seq<Preset>, i: nat)
    requires DistinctIds(bs) && i < |api|
    ensures var r, n := Result(api, bs), |Missing(api, bs)|;
            && |r| == n + |api| && r[n + i].id == api[i].id
            && (api[i].name != "" ==> r[n + i].name == api[i].name)
            && (forall x :: 0 <= x < |bs| && bs[x].id == api[i].id != "" && LastIndex(api, api[i].id) == i ==>
                  forall d :: d in r[n + i].domains <==> d != "" && (d in api[i].domains || d in bs[x].domains))
            && (LastIndex(api, api[i].id) != i || api[i].id == "" || (forall x :: 0 <= x < |bs| ==> bs[x].id != api[i].id) ==>
                  r[n + i] == api[i])
            && (r[n + i] != api[i] ==> exists x :: 0 <= x < |bs| && bs[x].id == api[i].id && r[n + i] == Merged(api[i], bs[x]))
  {
    assert Result(api, bs)[|Missing(api, bs)| + i] == Updated(api, bs, i);
    UpdatedIs(api, bs, i, Updated(api, bs, i));
  }

  lemma UpdatedIs(api: seq<Preset>, bs: seq<Preset>, i: nat, r: Preset)
    requires DistinctIds(bs) && i < |api| && r == Updated(api, bs, i)
    ensures api[i].name != "" ==> r.name == api[i].name
    ensures forall x :: 0 <= x < |bs| && bs[x].id == api[i].id != "" && LastIndex(api, api[i].id) == i ==>
              forall d :: d in r.domains <==> d != "" && (d in api[i].domains || d in bs[x].domains)
    ensures LastIndex(api, api[i].id) != i || api[i].id == "" || (forall x :: 0 <= x < |bs| ==> bs[x].id != api[i].id) ==> r == api[i]
    ensures r != api[i] ==> exists x :: 0 <= x < |bs| && bs[x].id == api[i].id && r == Merged(api[i], bs[x])
  {
    var b := LastIndex(bs, api[i].id);
    if b >= 0 {
      MergedDomains(api[i], bs[b]);
      assert forall x :: 0 <= x < |bs| && bs[x].id == api[i].id ==> x == b;
    }
  }
}
