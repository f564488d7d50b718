/** The event array `mEvents` as the editor changes it: through
    `ArrayUtility.RemoveAt`, and what is left of it once a selection is removed. */
module EventList {
  import opened Selection

  /** `ArrayUtility.RemoveAt`: the list without its element at `k`. */
  function RemoveAt<T>(s: seq<T>, k: int): (r: seq<T>)
    requires 0 <= k < |s|
    ensures |r| == |s| - 1
    ensures forall i :: 0 <= i < k ==> r[i] == s[i]
    ensures forall i :: k <= i < |r| ==> r[i] == s[i + 1]
  {
    s[..k] + s[k + 1..]
  }

  /** The elements among the first `n` whose index is not in `sel`, in order. */
  function Kept<T>(evs: seq<T>, sel: seq<int>, n: nat): seq<T>
    requires n <= |evs|
  {
    if n == 0 then []
    else Kept(evs, sel, n - 1) + (if n - 1 in sel then [] else [evs[n - 1]])
  }

  /** The events whose index is not selected, in their original order. */
  function Unselected<T>(evs: seq<T>, sel: seq<int>): seq<T> {
    Kept(evs, sel, |evs|)
  }

  /** How many of the indices `0 .. n-1` are in `sel`. */
  function Below(sel: seq<int>, n: nat): nat {
    if n == 0 then 0 else Below(sel, n - 1) + (if n - 1 in sel then 1 else 0)
  }

  /** One element is kept per unselected index. */
  lemma {:induction false} KeptLength<T>(evs: seq<T>, sel: seq<int>, n: nat)
    requires n <= |evs|
    ensures Below(sel, n) <= n
    ensures |Kept(evs, sel, n)| == n - Below(sel, n)
  {
    if n > 0 {
      KeptLength(evs, sel, n - 1);
    }
  }

  /** An unselected event `i` lands at position `i` minus the number of
      selected indices below it. */
  lemma {:induction false} KeptAt<T>(evs: seq<T>, sel: seq<int>, n: nat, i: nat)
    requires n <= |evs| && i < n && i !in sel
    ensures Below(sel, i) <= i
    ensures i - Below(sel, i) < |Kept(evs, sel, n)|
    ensures Kept(evs, sel, n)[i - Below(sel, i)] == evs[i]
  {
    KeptLength(evs, sel, i);
    if i == n - 1 {
    } else {
      KeptAt(evs, sel, n - 1, i);
    }
  }

  /** With nothing selected below `n`, the first `n` events are all kept. */
  lemma {:induction false} KeptPrefix<T>(evs: seq<T>, sel: seq<int>, n: nat)
    requires n <= |evs|
    requires forall m :: m in sel ==> n <= m
    ensures Kept(evs, sel, n) == evs[..n]
  {
    if n > 0 {
      KeptPrefix(evs, sel, n - 1);
      assert evs[..n] == evs[..n - 1] + [evs[n - 1]];
    }
  }

  /** Two selections that agree on the indices below `n` keep the same events. */
  lemma {:induction false} KeptAgree<T>(evs: seq<T>, s1: seq<int>, s2: seq<int>, n: nat)
    requires n <= |evs|
    requires forall m :: 0 <= m < n ==> (m in s1 <==> m in s2)
    ensures Kept(evs, s1, n) == Kept(evs, s2, n)
  {
    if n > 0 {
      KeptAgree(evs, s1, s2, n - 1);
    }
  }

  /** The step of the removal loop: when every index already removed lies
      above `k`, position `k` of what is left still holds event `k`, and
      removing it there is the same as adding `k` to the removed indices. */
  lemma {:induction false} RemoveLowest<T>(evs: seq<T>, s1: seq<int>, s2: seq<int>, k: int, n: nat)
    requires 0 <= k < n <= |evs|
    requires forall m :: m in s1 ==> k < m
    requires forall m :: m in s2 <==> m == k || m in s1
    ensures k < |Kept(evs, s1, n)|
    ensures RemoveAt(Kept(evs, s1, n), k) == Kept(evs, s2, n)
  {
    if n == k + 1 {
      KeptPrefix(evs, s1, k);
      KeptPrefix(evs, s2, k);
      assert Kept(evs, s1, n) == evs[..k] + [evs[k]];
    } else {
      RemoveLowest(evs, s1, s2, k, n - 1);
      var a := Kept(evs, s1, n - 1);
      var tail := if n - 1 in s1 then [] else [evs[n - 1]];
      assert (n - 1 in s2) == (n - 1 in s1);
      assert Kept(evs, s1, n) == a + tail;
      assert (a + tail)[..k] == a[..k];
      assert (a + tail)[k + 1..] == a[k + 1..] + tail;
    }
  }

  /** One turn of the removal loop over a strictly ascending list of valid
      indices `srt`: with `srt[i+1..]` already removed, `srt[i]` is in range
      and removing it leaves the events not in `srt[i..]`. */
  lemma RemoveStep<T>(evs: seq<T>, srt: seq<int>, i: int)
    requires StrictlyAscending(srt) && InRange(srt, |evs|) && 0 <= i < |srt|
    ensures srt[i] < |Kept(evs, srt[i + 1..], |evs|)|
    ensures RemoveAt(Kept(evs, srt[i + 1..], |evs|), srt[i]) == Kept(evs, srt[i..], |evs|)
  {
    var later := srt[i + 1..];
    assert forall m :: m in later ==> srt[i] < m by {
      assert forall j :: 0 <= j < |later| ==> later[j] == srt[i + 1 + j];
    }
    assert srt[i..] == [srt[i]] + later;
    RemoveLowest(evs, later, srt[i..], srt[i], |evs|);
  }

  /** Appending a new index `x` counts it below every `n` above it. */
  lemma {:induction false} BelowAppend(sel: seq<int>, x: int, n: nat)
    requires x !in sel
    ensures Below(sel + [x], n) == Below(sel, n) + (if 0 <= x < n then 1 else 0)
  {
    if n > 0 {
      BelowAppend(sel, x, n - 1);
      assert (n - 1 in sel + [x]) <==> (n - 1 in sel || n - 1 == x);
    }
  }

  /** A valid selection of `n` events counts each of its indices once. */
  lemma {:induction false} BelowValid(sel: seq<int>, n: nat)
    requires ValidSelection(sel, n)
    ensures Below(sel, n) == |sel|
  {
    if sel == [] {
      BelowNone(n);
    } else {
      var init := sel[..|sel| - 1];
      var x := sel[|sel| - 1];
      assert sel == init + [x];
      assert ValidSelection(init, n);
      assert x !in init by {
        forall i | 0 <= i < |init| ensures init[i] != x {
          assert init[i] == sel[i];
        }
      }
      BelowValid(init, n);
      BelowAppend(init, x, n);
    }
  }

  lemma {:induction false} BelowNone(n: nat)
    ensures Below([], n) == 0
  {
    if n > 0 {
      BelowNone(n - 1);
    }
  }

  /** Removing a valid selection leaves one event fewer per selected index. */
  lemma UnselectedLength<T>(evs: seq<T>, sel: seq<int>)
    requires ValidSelection(sel, |evs|)
    ensures |Unselected(evs, sel)| == |evs| - |sel|
  {
    KeptLength(evs, sel, |evs|);
    BelowValid(sel, |evs|);
  }

  /** Nothing selected removes nothing. */
  lemma UnselectedNone<T>(evs: seq<T>)
    ensures Unselected(evs, []) == evs
  {
    KeptPrefix(evs, [], |evs|);
  }
}
