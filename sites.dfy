/**
 * The persisted block-list entry and the redirect rule derived from it, with
 * the list operations (`findIndex`, `splice`, `filter`) the handlers apply.
 */
module Sites {
  import opened Wrappers

  /**
   * One element of `blockedSites`. A field the stored object lacks reads as
   * `ruleId` 0, `url`/`blockType` "" and `None` for the optional fields, which
   * are exactly the values the source treats as falsy.
   */
  datatype BlockedSite = BlockedSite(
    id: string,
    url: string,
    blockType: string,
    durationMinutes: Option<int>,
    unblockTime: Option<int>,
    ruleId: int,
    isActive: Option<bool>)

  /** `site.isActive !== false`: a missing flag counts as active. */
  predicate IsActive(s: BlockedSite) {
    s.isActive != Some(false)
  }

  /** `value || fallback` for a stored counter: a missing or zero value gives the fallback. */
  function CounterOr(value: Option<int>, fallback: int): int {
    if TruthyNumber(value) then value.value else fallback
  }

  /** `{ type, redirect: { url } }` of a dynamic rule. */
  datatype RuleAction = RuleAction(kind: string, redirectUrl: string)

  /** `{ urlFilter, resourceTypes }` of a dynamic rule. */
  datatype RuleCondition = RuleCondition(urlFilter: string, resourceTypes: seq<string>)

  /** A `declarativeNetRequest` rule. */
  datatype Rule = Rule(id: int, priority: int, action: RuleAction, condition: RuleCondition)

  /** The ids of a list of rules, in order (`rules.map(rule => rule.id)`). */
  function Ids(rules: seq<Rule>): (ids: seq<int>)
    ensures |ids| == |rules| && forall i :: 0 <= i < |rules| ==> ids[i] == rules[i].id
  {
    seq(|rules|, i requires 0 <= i < |rules| => rules[i].id)
  }

  predicate Distinct(xs: seq<int>) {
    forall i, j :: 0 <= i < j < |xs| ==> xs[i] != xs[j]
  }

  /** No two rules share an id, as the platform requires of its rule table. */
  predicate DistinctIds(rules: seq<Rule>) {
    Distinct(Ids(rules))
  }

  lemma IdsAppend(a: seq<Rule>, b: seq<Rule>)
    ensures Ids(a + b) == Ids(a) + Ids(b)
  {
    assert forall i :: 0 <= i < |a| ==> (a + b)[i] == a[i];
    assert forall i :: |a| <= i < |a| + |b| ==> (a + b)[i] == b[i - |a|];
  }

  /** An id is listed exactly when some rule carries it. */
  lemma IdsMember(rules: seq<Rule>, id: int)
    ensures id in Ids(rules) <==> exists r :: r in rules && r.id == id
  {
    if id in Ids(rules) {
      var i :| 0 <= i < |rules| && Ids(rules)[i] == id;
      assert rules[i] in rules;
    }
    if exists r :: r in rules && r.id == id {
      var r :| r in rules && r.id == id;
      var i :| 0 <= i < |rules| && rules[i] == r;
      assert Ids(rules)[i] == id;
    }
  }

  /** A concatenation has no repeated element exactly when neither part has one and they share none. */
  lemma DistinctAppend(a: seq<int>, b: seq<int>)
    ensures Distinct(a + b) <==> Distinct(a) && Distinct(b) && forall x :: x in a ==> x !in b
  {
    var ab := a + b;
    assert forall i :: 0 <= i < |a| ==> ab[i] == a[i];
    assert forall j :: 0 <= j < |b| ==> ab[|a| + j] == b[j];
    if Distinct(ab) {
      assert Distinct(a) by {
        forall i, j | 0 <= i < j < |a| ensures a[i] != a[j] {
          assert ab[i] != ab[j];
        }
      }
      assert Distinct(b) by {
        forall i, j | 0 <= i < j < |b| ensures b[i] != b[j] {
          assert ab[|a| + i] != ab[|a| + j];
        }
      }
    }
    if Distinct(a) && Distinct(b) && forall x :: x in a ==> x !in b {
      forall i, j | 0 <= i < j < |ab| ensures ab[i] != ab[j] {
        if j < |a| {
          assert ab[i] == a[i] && ab[j] == a[j];
        } else if i >= |a| {
          assert ab[i] == b[i - |a|] && ab[j] == b[j - |a|];
        } else {
          assert ab[i] == a[i] && ab[j] == b[j - |a|];
          assert a[i] in a && b[j - |a|] in b;
        }
      }
    }
  }

  /** With distinct ids, a rule is determined by its id. */
  lemma DistinctIdsUnique(rules: seq<Rule>, r1: Rule, r2: Rule)
    requires DistinctIds(rules) && r1 in rules && r2 in rules && r1.id == r2.id
    ensures r1 == r2
  {
    var i :| 0 <= i < |rules| && rules[i] == r1;
    var j :| 0 <= j < |rules| && rules[j] == r2;
    assert Ids(rules)[i] == Ids(rules)[j];
  }

  /** An element of a list without repetitions occurs in it at most once. */
  lemma {:induction false} DistinctCount(xs: seq<int>, x: int)
    requires Distinct(xs)
    ensures multiset(xs)[x] <= 1
    ensures x in xs ==> multiset(xs)[x] == 1
  {
    if xs != [] {
      assert xs == [xs[0]] + xs[1..];
      DistinctAppend([xs[0]], xs[1..]);
      DistinctCount(xs[1..], x);
      assert multiset(xs) == multiset{xs[0]} + multiset(xs[1..]);
    }
  }

  /** `sites.findIndex(s => s.id === id)`: the first index holding `id`, or -1. */
  function FindIndex(sites: seq<BlockedSite>, id: string): (k: int)
    ensures -1 <= k < |sites|
    ensures k == -1 <==> forall i :: 0 <= i < |sites| ==> sites[i].id != id
    ensures k >= 0 ==> sites[k].id == id && forall i :: 0 <= i < k ==> sites[i].id != id
  {
    if sites == [] then -1
    else if sites[0].id == id then 0
    else
      var k := FindIndex(sites[1..], id);
      if k == -1 then -1 else k + 1
  }

  /** `sites.splice(k, 1)`: index `k` removed, the others kept in order. */
  function RemoveAt(sites: seq<BlockedSite>, k: nat): (r: seq<BlockedSite>)
    requires k < |sites|
    ensures |r| == |sites| - 1
    ensures forall i :: 0 <= i < k ==> r[i] == sites[i]
    ensures forall i :: k <= i < |r| ==> r[i] == sites[i + 1]
  {
    sites[..k] + sites[k + 1..]
  }

  /** `sites.filter(s => s.id !== id)`. */
  function WithoutId(sites: seq<BlockedSite>, id: string): (r: seq<BlockedSite>)
    ensures |r| <= |sites|
    ensures forall s :: s in r <==> s in sites && s.id != id
  {
    if sites == [] then []
    else (if sites[0].id == id then [] else [sites[0]]) + WithoutId(sites[1..], id)
  }

  /** Site ids are unique, as the popup makes them. */
  predicate UniqueSiteIds(sites: seq<BlockedSite>) {
    forall i, j :: 0 <= i < j < |sites| ==> sites[i].id != sites[j].id
  }

  /** No two sites share a rule id. */
  predicate DistinctRuleIds(sites: seq<BlockedSite>) {
    forall i, j :: 0 <= i < j < |sites| ==> sites[i].ruleId != sites[j].ruleId
  }

  /** Filtering a list keeps its site ids unique and its rule ids distinct. */
  lemma {:induction false} WithoutIdKeepsDistinct(sites: seq<BlockedSite>, id: string)
    requires UniqueSiteIds(sites) && DistinctRuleIds(sites)
    ensures UniqueSiteIds(WithoutId(sites, id)) && DistinctRuleIds(WithoutId(sites, id))
  {
    if sites != [] {
      var rest := sites[1..];
      assert forall k :: 0 <= k < |rest| ==> rest[k] == sites[k + 1];
      WithoutIdKeepsDistinct(rest, id);
      var tail := WithoutId(rest, id);
      if sites[0].id != id {
        var r := [sites[0]] + tail;
        assert WithoutId(sites, id) == r;
        forall s | s in tail ensures s.id != sites[0].id && s.ruleId != sites[0].ruleId {
          var k :| 0 <= k < |rest| && rest[k] == s;
        }
        forall i, j | 0 <= i < j < |r| ensures r[i].id != r[j].id && r[i].ruleId != r[j].ruleId {
          assert r[j] == tail[j - 1];
          if i > 0 {
            assert r[i] == tail[i - 1];
          }
        }
      } else {
        assert WithoutId(sites, id) == tail;
      }
    }
  }

  /** Deleting an id that is not in the list leaves the list as it was. */
  lemma {:induction false} WithoutAbsentId(sites: seq<BlockedSite>, id: string)
    requires forall i :: 0 <= i < |sites| ==> sites[i].id != id
    ensures WithoutId(sites, id) == sites
  {
    if sites != [] {
      WithoutAbsentId(sites[1..], id);
    }
  }

  /** Deleting an id that is present makes the list strictly shorter. */
  lemma {:induction false} WithoutPresentId(sites: seq<BlockedSite>, id: string, k: nat)
    requires k < |sites| && sites[k].id == id
    ensures |WithoutId(sites, id)| < |sites|
  {
    if k > 0 {
      WithoutPresentId(sites[1..], id, k - 1);
    }
  }

  /** When only index `k` holds `id`, splicing `k` out and filtering `id` out agree. */
  lemma {:induction false} SpliceIsFilter(sites: seq<BlockedSite>, k: nat, id: string)
    requires k < |sites| && sites[k].id == id
    requires forall j :: 0 <= j < |sites| && j != k ==> sites[j].id != id
    ensures RemoveAt(sites, k) == WithoutId(sites, id)
  {
    if k == 0 {
      assert forall j :: 0 <= j < |sites[1..]| ==> sites[1..][j] == sites[j + 1];
      WithoutAbsentId(sites[1..], id);
    } else {
      var rest := sites[1..];
      assert forall j :: 0 <= j < |rest| ==> rest[j] == sites[j + 1];
      SpliceIsFilter(rest, k - 1, id);
      assert RemoveAt(sites, k) == [sites[0]] + RemoveAt(rest, k - 1);
    }
  }
}
