/**
  The history window of a bounded first-in-first-out queue: the last
  `size` items added, or all of them while fewer have been added.
 */
module Window {

  /** The last min(|s|, n) items of s, oldest first. */
  function Last<T>(s: seq<T>, n: nat): (w: seq<T>)
    ensures |w| == if |s| < n then |s| else n
    ensures forall k :: 0 <= k < |w| ==> w[k] == s[|s| - |w| + k]
  {
    if |s| <= n then s else s[|s| - n..]
  }

  /**
    Adding one item to a full window drops the oldest item and appends the
    new one; adding to a window with room only appends.
   */
  lemma LastAppend<T>(s: seq<T>, x: T, n: nat)
    requires n > 0
    ensures Last(s + [x], n) == if |s| < n then s + [x] else Last(s, n)[1..] + [x]
  {
    if |s| >= n {
      assert (s + [x])[|s| + 1 - n..] == s[|s| - n..][1..] + [x];
    }
  }

  /** The item added last is in any window of positive size. */
  lemma LastHasNewest<T>(s: seq<T>, x: T, n: nat)
    requires n > 0
    ensures x in Last(s + [x], n)
  {
    LastAppend(s, x, n);
  }

  /**
    An item is in the window exactly when it is one of the last n items
    added.
   */
  lemma InLast<T>(s: seq<T>, n: nat, x: T)
    ensures x in Last(s, n) <==> exists k :: 0 <= k < |s| && |s| - n <= k && s[k] == x
  {
    var w := Last(s, n);
    var d := |s| - |w|;
    if x in w {
      var i :| 0 <= i < |w| && w[i] == x;
      assert s[d + i] == x;
    } else {
      forall k | 0 <= k < |s| && |s| - n <= k
        ensures s[k] != x
      {
        assert s[k] == w[k - d];
      }
    }
  }
}
