/**
 * The completion-rate calculation (`TaskCalculations`): the share of tasks
 * whose status reads "completed", as a percentage, memoised in a cache
 * keyed by the pair (total, completed).
 *
 * The cache is a process-wide static dictionary in the source; here it is
 * passed in and handed back explicitly. Rates are exact `real`s rather than
 * `double`s.
 */
module Calculations {
  import opened Wrappers
  import opened Domain

  /** The memo cache: `(total, completed)` to the rate computed for it. */
  type Cache = map<(int, int), real>

  /** A computed rate together with the cache after the call. */
  datatype Rated = Rated(rate: real, cache: Cache)

  /** The message of the `NullReferenceException` a null status raises. */
  const NullReference: string := "Object reference not set to an instance of an object."

  /** `char.ToLower` on the ASCII letters; every other character is kept. */
  function LowerChar(c: char): (l: char)
    ensures 'A' <= c <= 'Z' ==> l as int == c as int + 32
    ensures !('A' <= c <= 'Z') ==> l == c
    ensures !('A' <= l <= 'Z')
  {
    if 'A' <= c <= 'Z' then (c as int + 32) as char else c
  }

  /** `string.ToLower`, character by character. */
  function Lower(s: string): (l: string)
    ensures |l| == |s| && forall i | 0 <= i < |s| :: l[i] == LowerChar(s[i])
  {
    seq(|s|, i requires 0 <= i < |s| => LowerChar(s[i]))
  }

  /** A status counts as completed when it reads "completed" in any letter case. */
  predicate IsCompleted(status: string) {
    Lower(status) == "completed"
  }

  /** A task that counts towards the completed total: its status is present and reads "completed". */
  predicate Done(t: Tareas) {
    t.status.Some? && IsCompleted(t.status.value)
  }

  /** Some task has a null status, on which `ToLower` throws. */
  predicate HasNullStatus(tasks: seq<Tareas>) {
    exists i | 0 <= i < |tasks| :: tasks[i].status.None?
  }

  /** What one task adds to the completed count. */
  function Score(t: Tareas): nat {
    if Done(t) then 1 else 0
  }

  /** The sum of `score` over a list, as `Enumerable.Count` with a predicate sums one per match. */
  function Count<T>(s: seq<T>, score: T -> nat): nat {
    if s == [] then 0 else score(s[0]) + Count(s[1..], score)
  }

  /** The number of completed tasks (`tasks.Count(t => t.Status.ToLower() == "completed")`). */
  function NumCompleted(tasks: seq<Tareas>): nat {
    Count(tasks, Score)
  }

  /** `completed / total * 100` for a positive total. */
  function Percent(completed: int, total: int): real
    requires total > 0
  {
    completed as real / total as real * 100.0
  }

  /** Every cached entry is the rate its key determines. */
  ghost predicate CacheSound(cache: Cache) {
    forall k | k in cache :: k.0 > 0 && cache[k] == Percent(k.1, k.0)
  }

  /** The rate the calculation stands for, cache or no cache: 0 for no tasks. */
  function ExpectedRate(tasks: seq<Tareas>): real {
    if |tasks| == 0 then 0.0 else Percent(NumCompleted(tasks), |tasks|)
  }

  /**
   * `CalculateCompletionRate`. No tasks gives 0 without touching the cache.
   * Otherwise a null status throws; the key `(total, completed)` is looked
   * up, and a miss computes the rate and records it under that key.
   */
  function CalculateCompletionRate(tasks: seq<Tareas>, cache: Cache): (r: Result<Rated>)
    ensures |tasks| == 0 ==> r == Ok(Rated(0.0, cache))
    ensures r.Throws? <==> |tasks| > 0 && HasNullStatus(tasks)
    ensures r.Throws? ==> r.message == NullReference
    ensures (r.Ok? && |tasks| > 0 && (|tasks|, NumCompleted(tasks)) in cache) ==>
      r.value == Rated(cache[(|tasks|, NumCompleted(tasks))], cache)
    ensures (r.Ok? && |tasks| > 0 && (|tasks|, NumCompleted(tasks)) !in cache) ==>
      r.value.cache == cache[(|tasks|, NumCompleted(tasks)) := r.value.rate]
    ensures CacheSound(cache) && r.Ok? ==>
      r.value.rate == ExpectedRate(tasks) && CacheSound(r.value.cache)
  {
    var total := |tasks|;
    if total == 0 then Ok(Rated(0.0, cache))
    else if HasNullStatus(tasks) then Throws(NullReference)
    else
      var key := (total, NumCompleted(tasks));
      if key in cache then Ok(Rated(cache[key], cache))
      else
        var rate := NumCompleted(tasks) as real / total as real * 100.0;
        Ok(Rated(rate, cache[key := rate]))
  }

  /** `ClearCache`: afterwards nothing is cached. */
  function ClearCache(cache: Cache): (c: Cache)
    ensures CacheSound(c) && forall k :: k !in c
  {
    map[]
  }

  /**
   * The cache is transparent: with any two sound caches, in particular a
   * cleared one, the calculation returns the same rate or throws alike.
   */
  lemma CacheTransparent(tasks: seq<Tareas>, c1: Cache, c2: Cache)
    requires CacheSound(c1) && CacheSound(c2)
    ensures CalculateCompletionRate(tasks, c1).Ok? == CalculateCompletionRate(tasks, c2).Ok?
    ensures CalculateCompletionRate(tasks, c1).Ok? ==>
      CalculateCompletionRate(tasks, c1).value.rate == CalculateCompletionRate(tasks, c2).value.rate
  {
  }

  /** Clearing the cache between two calls does not change what the second one returns. */
  lemma ClearCacheKeepsRates(first: seq<Tareas>, second: seq<Tareas>, cache: Cache)
    requires CacheSound(cache)
    requires CalculateCompletionRate(first, cache).Ok?
    ensures var kept := CalculateCompletionRate(first, cache).value.cache;
      && CalculateCompletionRate(second, ClearCache(kept)).Ok? == CalculateCompletionRate(second, kept).Ok?
      && (CalculateCompletionRate(second, kept).Ok? ==>
            CalculateCompletionRate(second, ClearCache(kept)).value.rate
            == CalculateCompletionRate(second, kept).value.rate)
  {
    var kept := CalculateCompletionRate(first, cache).value.cache;
    CacheTransparent(second, ClearCache(kept), kept);
  }

  /** Counting splits over concatenation. */
  lemma {:induction false} CountAppend<T>(a: seq<T>, b: seq<T>, score: T -> nat)
    ensures Count(a + b, score) == Count(a, score) + Count(b, score)
    decreases |a|
  {
    if a != [] {
      assert (a + b)[0] == a[0];
      assert (a + b)[1..] == a[1..] + b;
      CountAppend(a[1..], b, score);
    } else {
      assert a + b == b;
    }
  }

  /**
   * For a 0/1 score, the count lies between 0 and the length; it is the
   * length exactly when every element scores, 0 exactly when none does.
   */
  lemma {:induction false} CountBounds<T>(s: seq<T>, score: T -> nat)
    requires forall x :: score(x) <= 1
    ensures Count(s, score) <= |s|
    ensures Count(s, score) == |s| <==> forall i | 0 <= i < |s| :: score(s[i]) == 1
    ensures Count(s, score) == 0 <==> forall i | 0 <= i < |s| :: score(s[i]) == 0
    decreases |s|
  {
    if s != [] {
      var rest := s[1..];
      CountBounds(rest, score);
      assert forall i | 1 <= i < |s| :: s[i] == rest[i - 1];
      if forall i | 0 <= i < |s| :: score(s[i]) == 1 {
        assert forall i | 0 <= i < |rest| :: score(rest[i]) == 1 by {
          forall i | 0 <= i < |rest| ensures score(rest[i]) == 1 { assert rest[i] == s[i + 1]; }
        }
      }
      if forall i | 0 <= i < |s| :: score(s[i]) == 0 {
        assert forall i | 0 <= i < |rest| :: score(rest[i]) == 0 by {
          forall i | 0 <= i < |rest| ensures score(rest[i]) == 0 { assert rest[i] == s[i + 1]; }
        }
      }
    }
  }

  /** Taking the element at `k` out of a list leaves the other elements. */
  lemma RemoveAtMultiset<T>(b: seq<T>, k: nat)
    requires k < |b|
    ensures multiset(b[..k] + b[k + 1..]) == multiset(b) - multiset{b[k]}
  {
    assert b == b[..k] + [b[k]] + b[k + 1..];
  }

  /** Taking the element at `k` out of a list takes its score out of the count. */
  lemma RemoveAtCount<T>(b: seq<T>, k: nat, score: T -> nat)
    requires k < |b|
    ensures Count(b, score) == score(b[k]) + Count(b[..k] + b[k + 1..], score)
  {
    var front, x, back := b[..k], b[k], b[k + 1..];
    assert b == (front + [x]) + back;
    CountAppend(front + [x], back, score);
    CountAppend(front, [x], score);
    CountAppend(front, back, score);
    assert Count([x], score) == score(x) by {
      assert [x][1..] == [];
    }
  }

  /** The head of a permutation sits somewhere in the other list, and the rests are permutations. */
  lemma PermutationHead<T>(a: seq<T>, b: seq<T>) returns (k: nat)
    requires a != [] && multiset(a) == multiset(b)
    ensures k < |b| && b[k] == a[0]
    ensures multiset(a[1..]) == multiset(b[..k] + b[k + 1..])
  {
    var x := a[0];
    assert a == [x] + a[1..];
    assert x in b by {
      assert x in multiset(b);
    }
    k :| 0 <= k < |b| && b[k] == x;
    RemoveAtMultiset(b, k);
  }

  /** A count depends only on which elements there are, not on their order. */
  lemma {:induction false} CountPermutation<T>(a: seq<T>, b: seq<T>, score: T -> nat)
    requires multiset(a) == multiset(b)
    ensures Count(a, score) == Count(b, score)
    decreases |a|
  {
    if a == [] {
      assert |b| == |multiset(b)| == 0;
    } else {
      var k := PermutationHead(a, b);
      RemoveAtCount(b, k, score);
      CountPermutation(a[1..], b[..k] + b[k + 1..], score);
    }
  }

  /** The completed count depends only on which tasks there are, not on their order. */
  lemma NumCompletedPermutation(a: seq<Tareas>, b: seq<Tareas>)
    requires multiset(a) == multiset(b)
    ensures NumCompleted(a) == NumCompleted(b)
  {
    CountPermutation(a, b, Score);
  }

  /** The completed count lies between 0 and the total; it is the total exactly when all are done, 0 exactly when none is. */
  lemma NumCompletedBounds(tasks: seq<Tareas>)
    ensures NumCompleted(tasks) <= |tasks|
    ensures NumCompleted(tasks) == |tasks| <==> forall i | 0 <= i < |tasks| :: Done(tasks[i])
    ensures NumCompleted(tasks) == 0 <==> forall i | 0 <= i < |tasks| :: !Done(tasks[i])
  {
    CountBounds(tasks, Score);
  }

  /** Whether some status is null does not depend on the order either. */
  lemma NullStatusPermutation(a: seq<Tareas>, b: seq<Tareas>)
    requires multiset(a) == multiset(b)
    ensures HasNullStatus(a) <==> HasNullStatus(b)
  {
    if HasNullStatus(a) {
      var i :| 0 <= i < |a| && a[i].status.None?;
      assert a[i] in multiset(b);
    }
    if HasNullStatus(b) {
      var i :| 0 <= i < |b| && b[i].status.None?;
      assert b[i] in multiset(a);
    }
  }

  /** Reordering the task list changes neither the rate, nor the failure, nor the cache. */
  lemma RatePermutationInvariant(a: seq<Tareas>, b: seq<Tareas>, cache: Cache)
    requires multiset(a) == multiset(b)
    ensures CalculateCompletionRate(a, cache) == CalculateCompletionRate(b, cache)
  {
    assert |a| == |multiset(a)| == |multiset(b)| == |b|;
    NumCompletedPermutation(a, b);
    NullStatusPermutation(a, b);
  }

  /** A percentage of a part of a whole lies in [0, 100], at the ends exactly for none and for all. */
  lemma PercentRange(completed: int, total: int)
    requires 0 <= completed <= total && total > 0
    ensures 0.0 <= Percent(completed, total) <= 100.0
    ensures Percent(completed, total) == 100.0 <==> completed == total
    ensures Percent(completed, total) == 0.0 <==> completed == 0
  {
    var f := completed as real / total as real;
    assert f * total as real == completed as real;
    assert 0.0 <= f <= 1.0;
  }

  /**
   * With a sound cache a successful rate lies in [0, 100]; it is 100 exactly
   * when there are tasks and all are completed, and 0 exactly when none is.
   */
  lemma RateRange(tasks: seq<Tareas>, cache: Cache)
    requires CacheSound(cache)
    requires CalculateCompletionRate(tasks, cache).Ok?
    ensures var rate := CalculateCompletionRate(tasks, cache).value.rate;
      && 0.0 <= rate <= 100.0
      && (rate == 100.0 <==> |tasks| > 0 && forall i | 0 <= i < |tasks| :: Done(tasks[i]))
      && (rate == 0.0 <==> forall i | 0 <= i < |tasks| :: !Done(tasks[i]))
  {
    NumCompletedBounds(tasks);
    if |tasks| > 0 {
      PercentRange(NumCompleted(tasks), |tasks|);
    }
  }

  /**
   * A character lower-cases to a lower-case letter exactly when it is that
   * letter or its upper-case form.
   */
  lemma LowerCharMatches(c: char, lc: char)
    requires 'a' <= lc <= 'z'
    ensures LowerChar(c) == lc <==> c == lc || c as int == lc as int - 32
  {
  }

  /**
   * A string lower-cases to a word of lower-case letters exactly when it has
   * the word's length and each of its characters is the word's letter there,
   * in either case.
   */
  lemma LowerMatches(s: string, w: string)
    requires forall i | 0 <= i < |w| :: 'a' <= w[i] <= 'z'
    ensures Lower(s) == w <==>
      |s| == |w| && forall i | 0 <= i < |s| :: s[i] == w[i] || s[i] as int == w[i] as int - 32
  {
    if |s| == |w| {
      forall i | 0 <= i < |s|
        ensures Lower(s)[i] == w[i] <==> s[i] == w[i] || s[i] as int == w[i] as int - 32
      {
        LowerCharMatches(s[i], w[i]);
      }
    }
  }

  /**
   * Exactly the nine-letter spellings of "completed" with each letter in
   * either case count as completed: matching ignores letter case and
   * nothing else.
   */
  lemma CompletedSpellings(status: string)
    ensures IsCompleted(status) <==>
      |status| == 9 && forall i | 0 <= i < 9 :: status[i] == "completed"[i] || status[i] == "COMPLETED"[i]
  {
    var w, u := "completed", "COMPLETED";
    assert forall i | 0 <= i < |w| :: 'a' <= w[i] <= 'z' && u[i] as int == w[i] as int - 32 by {
      assert w == ['c', 'o', 'm', 'p', 'l', 'e', 't', 'e', 'd'];
      assert u == ['C', 'O', 'M', 'P', 'L', 'E', 'T', 'E', 'D'];
    }
    LowerMatches(status, w);
    if |status| == 9 {
      forall i | 0 <= i < 9
        ensures (status[i] == w[i] || status[i] == u[i]) <==> (status[i] == w[i] || status[i] as int == w[i] as int - 32)
      {
        assert u[i] as int == w[i] as int - 32;
      }
    }
  }
}
