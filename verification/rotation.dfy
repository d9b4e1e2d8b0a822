/** `UserConfig.GetNextUniquePhrase` (config.go): the per-user phrase
    rotation that never repeats a phrase within a cycle.

    The source draws `rand.Intn(N)` until the draw is not in the sent list.
    Whatever the random stream, the accepted index is some index of `[0, N)`
    not yet sent; the model makes that choice explicit with a `pick`
    parameter that selects among the unused indices, and proves that every
    unused index is reachable by some pick. */
module Rotation {
  import opened GoText
  import opened UserConfigs

  /* ---------------------------------------------------------------------
     Index sets and the pigeonhole argument
     --------------------------------------------------------------------- */

  ghost function Range(n: nat): (r: set<int>)
    ensures forall i :: i in r <==> 0 <= i < n
  {
    if n == 0 then {} else Range(n - 1) + {n - 1}
  }

  ghost function Elements(s: seq<int>): set<int> {
    set x | x in s
  }

  predicate NoDuplicates(s: seq<int>) {
    forall j, k :: 0 <= j < k < |s| ==> s[j] != s[k]
  }

  predicate InRange(s: seq<int>, n: nat) {
    forall k :: 0 <= k < |s| ==> 0 <= s[k] < n
  }

  /** The shape of a sent list that only this rotation has ever touched. */
  predicate SentWellFormed(sent: seq<int>, n: nat) {
    NoDuplicates(sent) && InRange(sent, n)
  }

  lemma {:induction false} RangeSize(n: nat)
    ensures |Range(n)| == n
  {
    if n > 0 {
      RangeSize(n - 1);
    }
  }

  /** A list has at most as many distinct elements as entries, and exactly as
      many when it holds no duplicate. */
  lemma {:induction false} ElementsSize(s: seq<int>)
    ensures |Elements(s)| <= |s|
    ensures NoDuplicates(s) ==> |Elements(s)| == |s|
  {
    if s != [] {
      var t := s[..|s| - 1];
      var last := s[|s| - 1];
      ElementsSize(t);
      assert s == t + [last];
      assert Elements(s) == Elements(t) + {last};
      if NoDuplicates(s) {
        assert NoDuplicates(t);
        assert last !in Elements(t);
      }
    }
  }

  lemma SubsetSize(a: set<int>, b: set<int>)
    requires a <= b
    ensures |a| <= |b|
    ensures |a| == |b| ==> a == b
  {
    assert b == a + (b - a);
    assert a * (b - a) == {};
  }

  /** Pigeonhole: a list shorter than `n` cannot mention every index of
      `[0, n)`, whatever it holds. */
  lemma Pigeonhole(sent: seq<int>, n: nat)
    requires |sent| < n
    ensures exists i :: 0 <= i < n && i !in sent
  {
    RangeSize(n);
    ElementsSize(sent);
    if Range(n) <= Elements(sent) {
      SubsetSize(Range(n), Elements(sent));
      assert false;
    }
    var i :| i in Range(n) && i !in Elements(sent);
    assert 0 <= i < n && i !in sent;
  }

  /** A duplicate-free list of indices of `[0, n)` has at most `n` entries,
      and exactly `n` only when it mentions every index. */
  lemma SentWellFormedSize(sent: seq<int>, n: nat)
    requires SentWellFormed(sent, n)
    ensures |sent| <= n
    ensures |sent| == n ==> forall i :: 0 <= i < n ==> i in sent
  {
    RangeSize(n);
    ElementsSize(sent);
    assert Elements(sent) <= Range(n);
    SubsetSize(Elements(sent), Range(n));
    if |sent| == n {
      forall i | 0 <= i < n ensures i in sent {
        assert i in Range(n);
      }
    }
  }

  /* ---------------------------------------------------------------------
     The choice among unused indices
     --------------------------------------------------------------------- */

  /** The indices of `[lo, n)` that are not in `sent`, ascending. */
  function UnusedFrom(sent: seq<int>, lo: nat, n: nat): (r: seq<int>)
    ensures forall i :: i in r <==> lo <= i < n && i !in sent
    ensures forall k :: 0 <= k < |r| ==> lo <= r[k]
    ensures forall j, k :: 0 <= j < k < |r| ==> r[j] < r[k]
    decreases n - lo
  {
    if lo >= n then []
    else if lo in sent then UnusedFrom(sent, lo + 1, n)
    else [lo] + UnusedFrom(sent, lo + 1, n)
  }

  /** The indices the rejection loop can accept: those of `[0, n)` not in
      `sent`. There is always one when `sent` is shorter than `n`. */
  function Unused(sent: seq<int>, n: nat): (r: seq<int>)
    ensures forall i :: i in r <==> 0 <= i < n && i !in sent
    ensures NoDuplicates(r)
    ensures |sent| < n ==> |r| >= 1
  {
    var r := UnusedFrom(sent, 0, n);
    if |sent| < n then
      Pigeonhole(sent, n);
      r
    else r
  }

  /** The index the random draws settle on, as selected by `pick`. */
  function PickUnused(sent: seq<int>, n: nat, pick: nat): (i: int)
    requires |sent| < n
    ensures 0 <= i < n && i !in sent
  {
    var candidates := Unused(sent, n);
    var i := candidates[pick % |candidates|];
    assert i in candidates;
    i
  }

  /** No unused index is out of the model's reach: each one is what some
      pick selects. */
  lemma PickReachesEveryUnused(sent: seq<int>, n: nat, i: int)
    requires |sent| < n
    requires 0 <= i < n && i !in sent
    ensures exists pick: nat :: PickUnused(sent, n, pick) == i
  {
    var candidates := Unused(sent, n);
    assert i in candidates;
    var k :| 0 <= k < |candidates| && candidates[k] == i;
    SmallModulus(k, |candidates|);
    assert PickUnused(sent, n, k) == candidates[k];
  }

  lemma SmallModulus(k: nat, m: nat)
    requires k < m
    ensures k % m == k
  {
  }

  /* ---------------------------------------------------------------------
     GetNextUniquePhrase
     --------------------------------------------------------------------- */

  /** The sent list the selection works against: emptied once it has
      reached the catalog size, so that a new cycle begins. */
  function ResetIfExhausted(sent: seq<int>, n: nat): (r: seq<int>)
    ensures |sent| >= n ==> r == []
    ensures |sent| < n ==> r == sent
  {
    if |sent| >= n then [] else sent
  }

  /** The outcome of one call: the updated record, the chosen index and the
      phrase returned. */
  datatype Selection = Selection(user: UserConfig, index: int, phrase: string)

  /** Everything one call of `GetNextUniquePhrase` promises: the chosen index
      lies in the catalog and is not in the (possibly reset) sent list, the
      new sent list is that list with the index appended, no other field
      changes, and the phrase returned is the one at the index. */
  predicate IsSelection(u: UserConfig, phrases: seq<string>, r: Selection) {
    var base := ResetIfExhausted(u.sentPhrasesIndices, |phrases|);
    && 0 <= r.index < |phrases|
    && r.index !in base
    && r.user == u.(sentPhrasesIndices := base + [r.index])
    && r.phrase == phrases[r.index]
  }

  /** `GetNextUniquePhrase` with the random outcome fixed by `pick`. The
      catalog must be non-empty: `rand.Intn(0)` panics. */
  function NextUniquePhrase(u: UserConfig, phrases: seq<string>, pick: nat): (r: Selection)
    requires |phrases| >= 1
    ensures IsSelection(u, phrases, r)
    ensures |u.sentPhrasesIndices| >= |phrases| ==> r.user.sentPhrasesIndices == [r.index]
    ensures |u.sentPhrasesIndices| < |phrases| ==>
              r.user.sentPhrasesIndices == u.sentPhrasesIndices + [r.index]
    ensures |r.user.sentPhrasesIndices| <= |phrases|
  {
    var base := ResetIfExhausted(u.sentPhrasesIndices, |phrases|);
    var index := PickUnused(base, |phrases|, pick);
    Selection(u.(sentPhrasesIndices := base + [index]), index, phrases[index])
  }

  /** The same call with the random draw left nondeterministic: whatever
      unused index it settles on, some pick makes the functional model agree. */
  method GetNextUniquePhrase(u: UserConfig, phrases: seq<string>) returns (r: Selection)
    requires |phrases| >= 1
    ensures IsSelection(u, phrases, r)
    ensures exists pick: nat :: NextUniquePhrase(u, phrases, pick) == r
  {
    var n := |phrases|;
    var sent := u.sentPhrasesIndices;
    if |sent| >= n {
      sent := [];
    }
    Pigeonhole(sent, n);
    var index :| 0 <= index < n && index !in sent;
    r := Selection(u.(sentPhrasesIndices := sent + [index]), index, phrases[index]);
    PickReachesEveryUnused(sent, n, index);
    var pick: nat :| PickUnused(sent, n, pick) == index;
    assert NextUniquePhrase(u, phrases, pick) == r;
  }

  /** The inner scan of the rejection loop: whether `index` was already sent. */
  method IsSent(sent: seq<int>, index: int) returns (used: bool)
    ensures used <==> index in sent
  {
    used := false;
    var k := 0;
    while k < |sent|
      invariant 0 <= k <= |sent|
      invariant index !in sent[..k]
    {
      if sent[k] == index {
        used := true;
        break;
      }
      k := k + 1;
    }
    assert !used ==> sent[..k] == sent;
  }

  /** The rejection loop run on a given stream of `rand.Intn(n)` results: it
      accepts the first draw that is not in `sent`. The real stream is
      unbounded; on a finite prefix with no acceptable draw the loop is still
      running, reported as `None`. */
  method RejectionSample(sent: seq<int>, n: nat, draws: seq<int>) returns (r: Option<int>)
    requires forall k :: 0 <= k < |draws| ==> 0 <= draws[k] < n
    ensures r.Some? ==> 0 <= r.value < n && r.value !in sent
    ensures r.Some? ==> exists k :: 0 <= k < |draws| && draws[k] == r.value
                                   && forall j :: 0 <= j < k ==> draws[j] in sent
    ensures r.None? <==> forall k :: 0 <= k < |draws| ==> draws[k] in sent
  {
    var k := 0;
    while k < |draws|
      invariant 0 <= k <= |draws|
      invariant forall j :: 0 <= j < k ==> draws[j] in sent
    {
      var used := IsSent(sent, draws[k]);
      if !used {
        return Some(draws[k]);
      }
      k := k + 1;
    }
    return None;
  }

  /** Run on a catalog of size `n`, the rotation keeps a well-formed sent list
      well-formed, so it never holds more than `n` entries. */
  lemma NextUniquePhrasePreservesSentWellFormed(u: UserConfig, phrases: seq<string>, pick: nat)
    requires |phrases| >= 1
    requires SentWellFormed(u.sentPhrasesIndices, |phrases|)
    ensures SentWellFormed(NextUniquePhrase(u, phrases, pick).user.sentPhrasesIndices, |phrases|)
  {
    var r := NextUniquePhrase(u, phrases, pick);
    var base := ResetIfExhausted(u.sentPhrasesIndices, |phrases|);
    var s := r.user.sentPhrasesIndices;
    assert s == base + [r.index];
    forall j, k | 0 <= j < k < |s| ensures s[j] != s[k] {
      if k == |s| - 1 {
        assert s[j] in base;
      }
    }
  }
}
