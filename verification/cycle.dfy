/** Successive calls of the phrase rotation on one record: within a cycle no
    index repeats, a full cycle returns every index of the catalog exactly
    once, and the call after it starts a new cycle. */
module Cycle {
  import opened UserConfigs
  import opened Rotation

  /** The record after a run of calls and the indices the calls chose. */
  datatype Trace = Trace(user: UserConfig, indices: seq<int>)

  /** Successive calls of the rotation on one record, one pick per call. */
  function Run(u: UserConfig, phrases: seq<string>, picks: seq<nat>): (t: Trace)
    requires |phrases| >= 1
    ensures |t.indices| == |picks|
    decreases |picks|
  {
    if picks == [] then Trace(u, [])
    else
      var s := NextUniquePhrase(u, phrases, picks[0]);
      var rest := Run(s.user, phrases, picks[1..]);
      Trace(rest.user, [s.index] + rest.indices)
  }

  /** `indices` are catalog indices, pairwise distinct and none in `sent`. */
  predicate FreshIndices(indices: seq<int>, sent: seq<int>, n: nat) {
    && NoDuplicates(indices)
    && InRange(indices, n)
    && forall k :: 0 <= k < |indices| ==> indices[k] !in sent
  }

  lemma FreshIndicesCons(x: int, rest: seq<int>, sent: seq<int>, n: nat)
    requires 0 <= x < n && x !in sent
    requires FreshIndices(rest, sent + [x], n)
    ensures FreshIndices([x] + rest, sent, n)
  {
    var all := [x] + rest;
    forall k | 0 < k < |all| ensures all[k] !in sent && all[k] != x {
      assert all[k] == rest[k - 1];
      assert rest[k - 1] !in sent + [x];
    }
    forall j, k | 0 < j < k < |all| ensures all[j] != all[k] {
      assert all[j] == rest[j - 1] && all[k] == rest[k - 1];
    }
  }

  /** While the calls stay within one cycle, nothing is reset: the sent list
      grows by exactly the chosen indices, which are catalog indices, not
      previously sent and pairwise distinct; no other field changes. */
  lemma {:induction false} WithinCycle(u: UserConfig, phrases: seq<string>, picks: seq<nat>)
    requires |phrases| >= 1
    requires |u.sentPhrasesIndices| + |picks| <= |phrases|
    ensures var t := Run(u, phrases, picks);
            && t.user == u.(sentPhrasesIndices := u.sentPhrasesIndices + t.indices)
            && FreshIndices(t.indices, u.sentPhrasesIndices, |phrases|)
    decreases |picks|
  {
    if picks != [] {
      var sent := u.sentPhrasesIndices;
      var s := NextUniquePhrase(u, phrases, picks[0]);
      assert s.user == u.(sentPhrasesIndices := sent + [s.index]);
      WithinCycle(s.user, phrases, picks[1..]);
      var rest := Run(s.user, phrases, picks[1..]);
      assert (sent + [s.index]) + rest.indices == sent + ([s.index] + rest.indices);
      FreshIndicesCons(s.index, rest.indices, sent, |phrases|);
    }
  }

  /** A full cycle from an empty sent list: `N` calls return `N` pairwise
      distinct indices that together are exactly `0..N-1`, so every phrase
      is sent once, and the sent list then holds them all. */
  lemma FullCycle(u: UserConfig, phrases: seq<string>, picks: seq<nat>)
    requires |phrases| >= 1
    requires u.sentPhrasesIndices == []
    requires |picks| == |phrases|
    ensures var t := Run(u, phrases, picks);
            && NoDuplicates(t.indices)
            && |t.indices| == |phrases|
            && (forall i :: 0 <= i < |phrases| <==> i in t.indices)
            && t.user.sentPhrasesIndices == t.indices
  {
    var t := Run(u, phrases, picks);
    WithinCycle(u, phrases, picks);
    assert [] + t.indices == t.indices;
    SentWellFormedSize(t.indices, |phrases|);
  }

  /** The call after a full cycle resets the list: it may repeat any phrase
      of the previous cycle, and leaves a sent list of length one. */
  lemma NextCycleStarts(u: UserConfig, phrases: seq<string>, picks: seq<nat>, pick: nat)
    requires |phrases| >= 1
    requires u.sentPhrasesIndices == []
    requires |picks| == |phrases|
    ensures var s := NextUniquePhrase(Run(u, phrases, picks).user, phrases, pick);
            s.user.sentPhrasesIndices == [s.index]
  {
    FullCycle(u, phrases, picks);
  }
}
