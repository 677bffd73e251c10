/**
 * The effective identity keys `ComponentEngine._loadCells` assigns to one pass's view data:
 * a declared key that is still free is kept, otherwise the smallest count n >= 1 is chosen
 * for which `key + String(n)` is free.
 */
module KeyDedup {

  /** All elements of a sequence are pairwise different. */
  predicate Distinct<T(==)>(s: seq<T>)
  {
    forall i, j :: 0 <= i < j < |s| ==> s[i] != s[j]
  }

  function Elems<T>(s: seq<T>): set<T>
  {
    set x | x in s
  }

  // ---------------------------------------------------------------------
  // Swift's String(Int) for non-negative counts
  // ---------------------------------------------------------------------

  function Digit(d: nat): char
    requires d < 10
  {
    (48 + d) as char
  }

  /** Decimal notation of `n`, most significant digit first, no leading zeros. */
  function DecimalString(n: nat): (s: string)
    ensures 1 <= |s|
    ensures n < 10 <==> |s| == 1
  {
    if n < 10 then [Digit(n)] else DecimalString(n / 10) + [Digit(n % 10)]
  }

  /** Different counts are written differently. */
  lemma {:induction false} DecimalStringInjective(a: nat, b: nat)
    requires DecimalString(a) == DecimalString(b)
    ensures a == b
  {
    if a >= 10 && b >= 10 {
      var sa, sb := DecimalString(a), DecimalString(b);
      assert sa[|sa| - 1] == Digit(a % 10) && sb[|sb| - 1] == Digit(b % 10);
      assert sa[..|sa| - 1] == DecimalString(a / 10);
      assert sb[..|sb| - 1] == DecimalString(b / 10);
      DecimalStringInjective(a / 10, b / 10);
    }
  }

  // ---------------------------------------------------------------------
  // Candidates tried for one declared key
  // ---------------------------------------------------------------------

  /** The n-th key tried for `id`: `id` itself first, then `id + String(n)` for n = 1, 2, ... */
  function Candidate(id: string, n: nat): string
  {
    if n == 0 then id else id + DecimalString(n)
  }

  /** The candidates for one declared key are pairwise different. */
  lemma CandidateInjective(id: string, m: nat, n: nat)
    requires Candidate(id, m) == Candidate(id, n)
    ensures m == n
  {
    if m != 0 && n != 0 {
      var cm, cn := Candidate(id, m), Candidate(id, n);
      assert cm[|id|..] == DecimalString(m);
      assert cn[|id|..] == DecimalString(n);
      DecimalStringInjective(m, n);
    } else {
      assert |Candidate(id, m)| == |Candidate(id, n)|;
    }
  }

  /** The first `n` candidates, as a set. */
  function CandidateSet(id: string, n: nat): (s: set<string>)
    ensures forall x :: x in s <==> exists j :: 0 <= j < n && x == Candidate(id, j)
  {
    if n == 0 then {} else CandidateSet(id, n - 1) + {Candidate(id, n - 1)}
  }

  lemma {:induction false} CandidateSetSize(id: string, n: nat)
    ensures |CandidateSet(id, n)| == n
  {
    if n > 0 {
      CandidateSetSize(id, n - 1);
      if Candidate(id, n - 1) in CandidateSet(id, n - 1) {
        var j :| 0 <= j < n - 1 && Candidate(id, n - 1) == Candidate(id, j);
        CandidateInjective(id, n - 1, j);
      }
    }
  }

  /** A subset is no larger than its superset. */
  lemma {:induction false} SubsetSize<T>(a: set<T>, b: set<T>)
    requires a <= b
    ensures |a| <= |b|
  {
    if a != {} {
      var x :| x in a;
      SubsetSize(a - {x}, b - {x});
    }
  }

  /** When the first `n` candidates are all claimed, at least `n` keys are claimed. */
  lemma ClaimedBound(claimed: set<string>, id: string, n: nat)
    requires forall j :: 0 <= j < n ==> Candidate(id, j) in claimed
    ensures n <= |claimed|
  {
    CandidateSetSize(id, n);
    SubsetSize(CandidateSet(id, n), claimed);
  }

  /** The search loop of `_loadCells`, resumed at candidate `n`. */
  function FirstFree(claimed: set<string>, id: string, n: nat): (k: nat)
    requires forall j :: 0 <= j < n ==> Candidate(id, j) in claimed
    ensures n <= k
    ensures Candidate(id, k) !in claimed
    ensures forall j :: 0 <= j < k ==> Candidate(id, j) in claimed
    decreases |claimed| - n
  {
    if Candidate(id, n) !in claimed then n
    else
      ClaimedBound(claimed, id, n + 1);
      FirstFree(claimed, id, n + 1)
  }

  /** The count the search settles on: the least one whose candidate is unclaimed. */
  function EffectiveCount(claimed: set<string>, id: string): (k: nat)
    ensures Candidate(id, k) !in claimed
    ensures forall j :: 0 <= j < k ==> Candidate(id, j) in claimed
  {
    FirstFree(claimed, id, 0)
  }

  /** The effective key for a declared key `id`, given the keys already claimed in this pass. */
  function EffectiveKey(claimed: set<string>, id: string): string
  {
    Candidate(id, EffectiveCount(claimed, id))
  }

  /**
   * The least-count rule pins the effective key down: any count whose candidate is free
   * while all smaller candidates are claimed is the one chosen.
   */
  lemma EffectiveKeyUnique(claimed: set<string>, id: string, k: nat)
    requires Candidate(id, k) !in claimed
    requires forall j :: 0 <= j < k ==> Candidate(id, j) in claimed
    ensures EffectiveKey(claimed, id) == Candidate(id, k)
  {
    var e := EffectiveCount(claimed, id);
    assert k <= e;
    assert e <= k;
  }

  // ---------------------------------------------------------------------
  // The whole pass
  // ---------------------------------------------------------------------

  /** The effective keys for a pass whose view data declare `ids`, in order. */
  function DedupKeys(ids: seq<string>): (keys: seq<string>)
    ensures |keys| == |ids|
    ensures Distinct(keys)
  {
    if |ids| == 0 then []
    else
      var prev := DedupKeys(ids[..|ids| - 1]);
      prev + [EffectiveKey(Elems(prev), ids[|ids| - 1])]
  }

  /** Each effective key follows the rule, given the effective keys before it. */
  lemma {:induction false} DedupKeysRule(ids: seq<string>, i: nat)
    requires i < |ids|
    ensures DedupKeys(ids)[i] == EffectiveKey(Elems(DedupKeys(ids)[..i]), ids[i])
  {
    var init := ids[..|ids| - 1];
    var prev := DedupKeys(init);
    var keys := DedupKeys(ids);
    assert keys == prev + [EffectiveKey(Elems(prev), ids[|ids| - 1])];
    if i < |ids| - 1 {
      DedupKeysRule(init, i);
      assert keys[..i] == prev[..i];
      assert init[i] == ids[i];
    } else {
      assert keys[..i] == prev;
    }
  }

  /**
   * `newIdentifierSet`: the map from each effective key to its index in the pass.
   */
  function KeyIndex(keys: seq<string>): (m: map<string, nat>)
    requires Distinct(keys)
    ensures m.Keys == Elems(keys)
    ensures forall i :: 0 <= i < |keys| ==> m[keys[i]] == i
    ensures forall k :: k in m ==> m[k] < |keys| && keys[m[k]] == k
  {
    map i | 0 <= i < |keys| :: keys[i] := i
  }

  // ---------------------------------------------------------------------
  // Consequences of the rule
  // ---------------------------------------------------------------------

  /** A declared key not yet claimed by an earlier effective key is kept unchanged. */
  lemma UnclaimedKeyKept(ids: seq<string>, i: nat)
    requires i < |ids|
    requires ids[i] !in DedupKeys(ids)[..i]
    ensures DedupKeys(ids)[i] == ids[i]
  {
    var keys := DedupKeys(ids);
    DedupKeysRule(ids, i);
    EffectiveKeyUnique(Elems(keys[..i]), ids[i], 0);
  }

  /** Every effective key is its declared key followed by a (possibly empty) count suffix. */
  lemma EffectiveKeyExtendsDeclared(ids: seq<string>, i: nat)
    requires i < |ids|
    ensures ids[i] <= DedupKeys(ids)[i]
    ensures DedupKeys(ids)[i] == ids[i] || exists n: nat :: 1 <= n && DedupKeys(ids)[i] == ids[i] + DecimalString(n)
  {
    var keys := DedupKeys(ids);
    DedupKeysRule(ids, i);
    var n := EffectiveCount(Elems(keys[..i]), ids[i]);
    assert keys[i] == Candidate(ids[i], n);
    if n != 0 {
      assert keys[i] == ids[i] + DecimalString(n);
    }
  }

  /** When no two view data declare the same key, the effective keys are the declared ones. */
  lemma {:induction false} DistinctKeysUnchanged(ids: seq<string>)
    requires Distinct(ids)
    ensures DedupKeys(ids) == ids
  {
    if |ids| > 0 {
      var init := ids[..|ids| - 1];
      DistinctKeysUnchanged(init);
      var keys := DedupKeys(ids);
      assert keys[..|ids| - 1] == DedupKeys(init);
      assert ids[|ids| - 1] !in init;
      UnclaimedKeyKept(ids, |ids| - 1);
      assert keys == init + [ids[|ids| - 1]];
    }
  }

  /** Two leaves declaring "a" get "a" and "a1". */
  lemma TwoEqualKeys()
    ensures DedupKeys(["a", "a"]) == ["a", "a1"]
  {
    assert DecimalString(1) == "1";
    assert Candidate("a", 1) == "a1";
    assert ["a", "a"][..1] == ["a"] && ["a"][..0] == [];
    EffectiveKeyUnique({}, "a", 0);
    assert DedupKeys(["a"]) == ["a"];
    assert Elems(["a"]) == {"a"};
    EffectiveKeyUnique({"a"}, "a", 1);
  }

  /** Three leaves declaring "a" get "a", "a1", "a2". */
  lemma ThreeEqualKeys()
    ensures DedupKeys(["a", "a", "a"]) == ["a", "a1", "a2"]
  {
    assert DecimalString(2) == "2";
    assert Candidate("a", 2) == "a2";
    assert ["a", "a", "a"][..2] == ["a", "a"];
    TwoEqualKeys();
    assert Elems(["a", "a1"]) == {"a", "a1"};
    EffectiveKeyUnique({"a", "a1"}, "a", 2);
    assert DedupKeys(["a", "a", "a"]) == ["a", "a1"] + [EffectiveKey({"a", "a1"}, "a")];
  }

  /** A declared key colliding with an earlier suffixed key skips past it: "a", "a1", "a" gives "a2" last. */
  lemma SkipsClaimedSuffix()
    ensures DedupKeys(["a", "a1", "a"]) == ["a", "a1", "a2"]
  {
    assert DecimalString(1) == "1" && DecimalString(2) == "2";
    assert Candidate("a", 1) == "a1" && Candidate("a", 2) == "a2";
    assert ["a", "a1", "a"][..2] == ["a", "a1"] && ["a", "a1"][..1] == ["a"] && ["a"][..0] == [];
    EffectiveKeyUnique({}, "a", 0);
    assert DedupKeys(["a"]) == ["a"];
    assert Elems(["a"]) == {"a"};
    EffectiveKeyUnique({"a"}, "a1", 0);
    assert DedupKeys(["a", "a1"]) == ["a", "a1"];
    assert Elems(["a", "a1"]) == {"a", "a1"};
    EffectiveKeyUnique({"a", "a1"}, "a", 2);
  }

  /**
   * The first occurrence of a declared key is not always kept: in "a", "a", "a1" the second
   * "a" already took "a1", so the first declared "a1" becomes "a11".
   */
  lemma FirstOccurrenceCanBeSuffixed()
    ensures DedupKeys(["a", "a", "a1"]) == ["a", "a1", "a11"]
  {
    assert DecimalString(1) == "1";
    assert Candidate("a1", 1) == "a11";
    assert ["a", "a", "a1"][..2] == ["a", "a"];
    TwoEqualKeys();
    assert Elems(["a", "a1"]) == {"a", "a1"};
    EffectiveKeyUnique({"a", "a1"}, "a1", 1);
    assert DedupKeys(["a", "a", "a1"]) == ["a", "a1"] + [EffectiveKey({"a", "a1"}, "a1")];
  }
}
