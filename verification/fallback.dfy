/**
 * The fallback video sources and the round-robin picker `getFallback`, which
 * keeps one counter per category key for the whole session.
 */
module Fallback {

  const Generic: string := "generic"

  /** The `FALLBACKS` table: a required `generic` list and one category-specific list. */
  const Fallbacks: map<string, seq<string>> := map[
    Generic := [
      "http://commondatastorage.googleapis.com/gtv-videos-bucket/sample/BigBuckBunny.mp4",
      "http://commondatastorage.googleapis.com/gtv-videos-bucket/sample/WhatCarCanYouGetForAGrand.mp4",
      "http://commondatastorage.googleapis.com/gtv-videos-bucket/sample/VolkswagenGTIReview.mp4"
    ],
    "gaming" := [
      "http://commondatastorage.googleapis.com/gtv-videos-bucket/sample/VolkswagenGTIReview.mp4"
    ]
  ]

  /** `fallbackCounters`: a key that was never picked has no entry. */
  type Counters = map<string, nat>

  /** `fallbackCounters[key] || 0`. */
  function Counter(counters: Counters, key: string): nat
  {
    if key in counters then counters[key] else 0
  }

  /** `FALLBACKS[key] || FALLBACKS.generic`: a key without an entry uses the generic list. */
  function ListFor(key: string): (list: seq<string>)
    ensures key in Fallbacks ==> list == Fallbacks[key]
    ensures key !in Fallbacks ==> list == Fallbacks[Generic]
    ensures |list| > 0
    ensures forall i :: 0 <= i < |list| ==> list[i] != ""
  {
    if key in Fallbacks then Fallbacks[key] else Fallbacks[Generic]
  }

  /** One pick: the list index used, the URL at it, and the counters afterwards. */
  datatype Pick = Pick(index: nat, url: string, counters: Counters)

  /**
   * `getFallback(key)`: reduce the key's counter modulo the list length, return
   * the URL at that index and store the index plus one for the key.
   */
  function GetFallback(counters: Counters, key: string): (r: Pick)
    ensures r.index < |ListFor(key)|
    ensures r.url == ListFor(key)[r.index]
    ensures r.url in ListFor(key)
    ensures r.url != ""
    ensures r.index == Counter(counters, key) % |ListFor(key)|
    ensures key in r.counters && r.counters[key] == r.index + 1
    ensures r.counters.Keys == counters.Keys + {key}
    ensures forall k :: k in counters && k != key ==> r.counters[k] == counters[k]
  {
    var list := ListFor(key);
    var index := Counter(counters, key) % |list|;
    Pick(index, list[index], counters[key := index + 1])
  }

  /** The list indices returned by `n` successive picks for one key. */
  function Picks(counters: Counters, key: string, n: nat): (r: seq<nat>)
    ensures |r| == n
    decreases n
  {
    if n == 0 then []
    else
      var p := GetFallback(counters, key);
      [p.index] + Picks(p.counters, key, n - 1)
  }

  /** The counters after `n` successive picks for one key. */
  function After(counters: Counters, key: string, n: nat): Counters
    decreases n
  {
    if n == 0 then counters else After(GetFallback(counters, key).counters, key, n - 1)
  }

  /** The indices a round-robin counter standing at `c` yields over a list of length `L`. */
  function Cycle(c: nat, L: nat, n: nat): (r: seq<nat>)
    requires L > 0
    ensures |r| == n
    decreases n
  {
    if n == 0 then [] else [c % L] + Cycle(c % L + 1, L, n - 1)
  }

  /** Successive picks for one key follow its counter's cycle over the key's list. */
  lemma {:induction false} PicksAreCycle(counters: Counters, key: string, n: nat)
    ensures Picks(counters, key, n) == Cycle(Counter(counters, key), |ListFor(key)|, n)
    decreases n
  {
    if n > 0 {
      var p := GetFallback(counters, key);
      assert Counter(p.counters, key) == Counter(counters, key) % |ListFor(key)| + 1;
      PicksAreCycle(p.counters, key, n - 1);
    }
  }

  /** The cycle from `c` visits `(c + i) % L` at step `i`. */
  lemma {:induction false} CycleAt(c: nat, L: nat, n: nat)
    requires L > 0
    ensures forall i :: 0 <= i < n ==> Cycle(c, L, n)[i] == (c + i) % L
    decreases n
  {
    if n > 0 {
      CycleAt(c % L + 1, L, n - 1);
      ShiftedCycle(c, L, c % L, Cycle(c % L + 1, L, n - 1));
    }
  }

  /** Successive picks walk the list cyclically, starting from where the key's counter stands. */
  lemma RoundRobin(counters: Counters, key: string, n: nat)
    ensures forall i :: 0 <= i < n ==>
      Picks(counters, key, n)[i] == (Counter(counters, key) + i) % |ListFor(key)|
  {
    PicksAreCycle(counters, key, n);
    CycleAt(Counter(counters, key), |ListFor(key)|, n);
  }

  /** Prepending the index `c % L` to a cycle that starts at `c % L + 1` gives the cycle starting at `c`. */
  lemma ShiftedCycle(c: nat, L: nat, first: nat, rest: seq<nat>)
    requires L > 0 && first == c % L
    requires forall i :: 0 <= i < |rest| ==> rest[i] == (c % L + 1 + i) % L
    ensures forall i :: 0 <= i < |rest| + 1 ==> ([first] + rest)[i] == (c + i) % L
  {
    forall i | 1 <= i < |rest| + 1
      ensures ([first] + rest)[i] == (c + i) % L
    {
      ShiftMod(c, i, L);
    }
  }

  /** `(c % L + 1 + (i - 1)) % L == (c + i) % L`. */
  lemma ShiftMod(c: nat, i: nat, L: nat)
    requires L > 0 && i >= 1
    ensures (c % L + 1 + (i - 1)) % L == (c + i) % L
  {
    var q := c / L;
    assert c == q * L + c % L;
    assert c + i == q * L + (c % L + i);
    ModAddMultiple(c % L + i, q, L);
  }

  lemma ModAddMultiple(x: nat, q: nat, L: nat)
    requires L > 0
    ensures (q * L + x) % L == x % L
  {
    var a, b := x / L, x % L;
    assert x == a * L + b;
    assert q * L + x == (q + a) * L + b;
    DivModUnique(q * L + x, q + a, b, L);
  }

  /** A key that was never picked starts at index 0 and cycles 0, 1, …, L-1, 0, … */
  lemma RoundRobinFromStart(counters: Counters, key: string, n: nat)
    requires key !in counters
    ensures forall i :: 0 <= i < n ==> Picks(counters, key, n)[i] == i % |ListFor(key)|
    ensures forall i :: 0 <= i < n ==> ListFor(key)[Picks(counters, key, n)[i]] == ListFor(key)[i % |ListFor(key)|]
  {
    RoundRobin(counters, key, n);
  }

  /** Picking for one key never touches another key's counter, generic included. */
  lemma {:induction false} OtherCountersUnchanged(counters: Counters, key: string, n: nat, other: string)
    requires other != key
    ensures Counter(After(counters, key, n), other) == Counter(counters, other)
    ensures other in After(counters, key, n) <==> other in counters
    decreases n
  {
    if n > 0 {
      var next := GetFallback(counters, key).counters;
      assert other in next <==> other in counters;
      assert Counter(next, other) == Counter(counters, other);
      OtherCountersUnchanged(next, key, n - 1, other);
    }
  }

  /**
   * A key without its own list draws from the generic list but keeps its own
   * counter: picking for it leaves the `generic` counter where it was.
   */
  lemma UnknownKeySharesListNotCounter(counters: Counters, key: string)
    requires key !in Fallbacks
    ensures GetFallback(counters, key).url in Fallbacks[Generic]
    ensures Counter(GetFallback(counters, key).counters, Generic) == Counter(counters, Generic)
  {
  }

  /** How many entries of `s` equal `j`. */
  function Occurrences(s: seq<nat>, j: nat): (n: nat)
    ensures n <= |s|
  {
    if |s| == 0 then 0 else Occurrences(s[..|s| - 1], j) + (if s[|s| - 1] == j then 1 else 0)
  }

  /** Picks from a fresh key: the first `n` of `n + 1` picks are the `n` picks. */
  lemma FreshPicksPrefix(counters: Counters, key: string, n: nat)
    requires key !in counters
    ensures Picks(counters, key, n + 1)[..n] == Picks(counters, key, n)
    ensures Picks(counters, key, n + 1)[n] == n % |ListFor(key)|
  {
    RoundRobinFromStart(counters, key, n);
    RoundRobinFromStart(counters, key, n + 1);
  }

  /**
   * Fairness: `n` picks for a fresh key return list index `j` exactly `n / L`
   * times, plus one when `j` falls in the incomplete last round.
   */
  lemma {:induction false} FairShare(counters: Counters, key: string, n: nat, j: nat)
    requires key !in counters && j < |ListFor(key)|
    ensures Occurrences(Picks(counters, key, n), j)
        == n / |ListFor(key)| + (if j < n % |ListFor(key)| then 1 else 0)
    decreases n
  {
    var L := |ListFor(key)|;
    if n > 0 {
      var m := n - 1;
      FairShare(counters, key, m, j);
      FreshPicksPrefix(counters, key, m);
      var s := Picks(counters, key, n);
      assert s[..|s| - 1] == Picks(counters, key, m);
      assert s[|s| - 1] == m % L;
      StepDivMod(m, L);
    }
  }

  /** How `n / L` and `n % L` change from `m` to `m + 1`. */
  lemma StepDivMod(m: nat, L: nat)
    requires L > 0
    ensures m % L == L - 1 ==> (m + 1) / L == m / L + 1 && (m + 1) % L == 0
    ensures m % L < L - 1 ==> (m + 1) / L == m / L && (m + 1) % L == m % L + 1
  {
    var q, r := m / L, m % L;
    assert m == q * L + r;
    if r == L - 1 {
      assert m + 1 == (q + 1) * L;
      DivModUnique(m + 1, q + 1, 0, L);
    } else {
      DivModUnique(m + 1, q, r + 1, L);
    }
  }

  lemma DivModUnique(x: nat, q: nat, r: nat, L: nat)
    requires L > 0 && r < L && x == q * L + r
    ensures x / L == q && x % L == r
  {
    var q', r' := x / L, x % L;
    assert x == q' * L + r';
    MulGap(q', q, L);
    MulGap(q, q', L);
  }

  /** A smaller factor leaves a gap of at least one `L`. */
  lemma {:induction false} MulGap(a: nat, b: nat, L: nat)
    ensures a < b ==> a * L + L <= b * L
    decreases b
  {
    if a < b {
      assert b * L == (b - 1) * L + L;
      if a < b - 1 {
        MulGap(a, b - 1, L);
      }
    }
  }
}
