/** The bounded event log: a deque with a maximum length, and its most-recent-N view. */
module EventLog {
  import opened Config

  /** The last min(n, |s|) elements of s, oldest first. */
  function LastN<T>(s: seq<T>, n: nat): (r: seq<T>)
    ensures |r| == Min(n, |s|)
  {
    s[|s| - Min(n, |s|)..]
  }

  /** Append to a deque of maximum length cap: the element goes to the right and,
      when the deque is then over capacity, the leftmost element is dropped. */
  function Push<T>(log: seq<T>, x: T, cap: nat): (r: seq<T>)
    requires |log| <= cap
    ensures |r| == Min(|log| + 1, cap)
    ensures r == LastN(log + [x], cap)
  {
    var s := log + [x];
    if |s| > cap then s[1..] else s
  }

  /** Append several elements, one after the other. */
  function PushAll<T>(log: seq<T>, xs: seq<T>, cap: nat): (r: seq<T>)
    requires |log| <= cap
    ensures |r| <= cap
    decreases |xs|
  {
    if xs == [] then log else PushAll(Push(log, xs[0], cap), xs[1..], cap)
  }

  /** Dropping elements older than the newest n does not change the newest n. */
  lemma LastNOfSuffix<T>(s: seq<T>, k: nat, n: nat)
    requires k <= |s| && |s| - k >= Min(n, |s|)
    ensures LastN(s[k..], n) == LastN(s, n)
  {
    var m := Min(n, |s|);
    assert Min(n, |s| - k) == m;
    assert s[k..][|s| - k - m..] == s[|s| - m..];
  }

  /** Taking the newest n twice is the same as taking them once. */
  lemma LastNAbsorbs<T>(a: seq<T>, b: seq<T>, n: nat)
    ensures LastN(LastN(a, n) + b, n) == LastN(a + b, n)
  {
    var m := Min(n, |a|);
    assert LastN(a, n) + b == (a + b)[|a| - m..];
    LastNOfSuffix(a + b, |a| - m, n);
  }

  /** However many events are appended, the log holds exactly the newest cap of
      everything appended, in insertion order. */
  lemma {:induction false} PushAllKeepsNewest<T>(log: seq<T>, xs: seq<T>, cap: nat)
    requires |log| <= cap
    ensures PushAll(log, xs, cap) == LastN(log + xs, cap)
    decreases |xs|
  {
    if xs == [] {
      assert log + xs == log;
    } else {
      var x, rest := xs[0], xs[1..];
      var log' := Push(log, x, cap);
      assert PushAll(log, xs, cap) == PushAll(log', rest, cap);
      assert PushAll(log', rest, cap) == LastN(log' + rest, cap) by {
        PushAllKeepsNewest(log', rest, cap);
      }
      assert LastN(log' + rest, cap) == LastN(log + xs, cap) by {
        assert log' == LastN(log + [x], cap);
        LastNAbsorbs(log + [x], rest, cap);
        ConsSplit(log, xs);
      }
    }
  }

  lemma ConsSplit<T>(log: seq<T>, xs: seq<T>)
    requires xs != []
    ensures log + [xs[0]] + xs[1..] == log + xs
  {
  }

  /** Appending a + b is appending a, then b. */
  lemma {:induction false} PushAllConcat<T>(log: seq<T>, a: seq<T>, b: seq<T>, cap: nat)
    requires |log| <= cap
    ensures PushAll(log, a + b, cap) == PushAll(PushAll(log, a, cap), b, cap)
    decreases |a|
  {
    if a == [] {
      assert a + b == b;
    } else {
      assert (a + b)[1..] == a[1..] + b;
      PushAllConcat(Push(log, a[0], cap), a[1..], b, cap);
    }
  }
}
