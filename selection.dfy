/** The selection list `mSelectedEvents`: a list of indices into the event
    array, the `List<int>` operations the editor applies to it, and what a
    click on an event does to it. */
module Selection {

  /** No index occurs twice. */
  predicate Distinct(s: seq<int>) {
    forall i, j :: 0 <= i < j < |s| ==> s[i] != s[j]
  }

  /** Every index names one of `n` events. */
  predicate InRange(s: seq<int>, n: int) {
    forall i :: 0 <= i < |s| ==> 0 <= s[i] < n
  }

  /** The invariant the editor keeps between operations. */
  predicate ValidSelection(s: seq<int>, n: int) {
    Distinct(s) && InRange(s, n)
  }

  // ---------------------------------------------------------------------
  // List<int>.Remove: remove the first occurrence, if any.

  /** Position of the first occurrence of `x`. */
  function IndexOf(s: seq<int>, x: int): (p: nat)
    requires x in s
    ensures p < |s| && s[p] == x && x !in s[..p]
  {
    if s[0] == x then 0 else 1 + IndexOf(s[1..], x)
  }

  function RemoveFirst(s: seq<int>, x: int): (r: seq<int>)
    ensures x !in s ==> r == s
    ensures x in s ==> |r| == |s| - 1
  {
    if s == [] then []
    else if s[0] == x then s[1..]
    else [s[0]] + RemoveFirst(s[1..], x)
  }

  /** `RemoveFirst` leaves a list without `x` alone and otherwise cuts out
      exactly the first occurrence, keeping the order of the rest. */
  lemma {:induction false} RemoveFirstSplit(s: seq<int>, x: int)
    ensures x !in s ==> RemoveFirst(s, x) == s
    ensures x in s ==> RemoveFirst(s, x) == s[..IndexOf(s, x)] + s[IndexOf(s, x) + 1..]
  {
    if s != [] && s[0] != x {
      RemoveFirstSplit(s[1..], x);
      if x in s {
        assert x in s[1..];
        var p := IndexOf(s[1..], x);
        assert s[..1 + p] == [s[0]] + s[1..][..p];
        assert s[1 + p + 1..] == s[1..][p + 1..];
      } else {
        assert x !in s[1..];
      }
    }
  }

  // ---------------------------------------------------------------------
  // List<int>.Sort: ascending order (modelled as insertion sort).

  predicate Ascending(s: seq<int>) {
    forall i, j :: 0 <= i < j < |s| ==> s[i] <= s[j]
  }

  predicate StrictlyAscending(s: seq<int>) {
    forall i, j :: 0 <= i < j < |s| ==> s[i] < s[j]
  }

  function Insert(x: int, s: seq<int>): seq<int> {
    if s == [] then [x]
    else if x <= s[0] then [x] + s
    else [s[0]] + Insert(x, s[1..])
  }

  function SortAscending(s: seq<int>): seq<int> {
    if s == [] then [] else Insert(s[0], SortAscending(s[1..]))
  }

  lemma {:induction false} InsertPermutes(x: int, s: seq<int>)
    ensures multiset(Insert(x, s)) == multiset{x} + multiset(s)
  {
    if s != [] && x > s[0] {
      InsertPermutes(x, s[1..]);
      assert s == [s[0]] + s[1..];
    }
  }

  /** A lower bound of `x` and of every element of `s` bounds `Insert(x, s)`. */
  lemma {:induction false} InsertLower(x: int, s: seq<int>, lo: int)
    requires lo <= x && forall k :: 0 <= k < |s| ==> lo <= s[k]
    ensures |Insert(x, s)| == |s| + 1
    ensures forall k :: 0 <= k < |Insert(x, s)| ==> lo <= Insert(x, s)[k]
  {
    if s != [] && x > s[0] {
      InsertLower(x, s[1..], lo);
    }
  }

  /** Inserting into an ascending list keeps it ascending. */
  lemma {:induction false} InsertSorts(x: int, s: seq<int>)
    requires Ascending(s)
    ensures Ascending(Insert(x, s))
  {
    if s != [] && x > s[0] {
      var rest := Insert(x, s[1..]);
      InsertSorts(x, s[1..]);
      InsertLower(x, s[1..], s[0]);
      var r := Insert(x, s);
      assert r == [s[0]] + rest;
      forall i, j | 0 <= i < j < |r|
        ensures r[i] <= r[j]
      {
        assert r[j] == rest[j - 1];
        if i > 0 { assert r[i] == rest[i - 1]; }
      }
    }
  }

  /** Putting a value below every element in front of a strictly ascending
      list keeps it strictly ascending. */
  lemma ConsStrictly(a: int, s: seq<int>)
    requires StrictlyAscending(s) && forall k :: 0 <= k < |s| ==> a < s[k]
    ensures StrictlyAscending([a] + s)
  {
    var r := [a] + s;
    forall i, j | 0 <= i < j < |r|
      ensures r[i] < r[j]
    {
      assert r[j] == s[j - 1];
      if i > 0 { assert r[i] == s[i - 1]; }
    }
  }

  /** The tail of a strictly ascending list is strictly ascending and lies
      above its head. */
  lemma TailStrictly(s: seq<int>)
    requires StrictlyAscending(s) && s != []
    ensures StrictlyAscending(s[1..])
    ensures forall k :: 0 <= k < |s| - 1 ==> s[0] < s[1..][k]
  {
    assert forall k :: 0 <= k < |s| - 1 ==> s[1..][k] == s[k + 1];
  }

  /** Inserting a new index into a strictly ascending list keeps it strictly ascending. */
  lemma {:induction false} InsertSortsStrictly(x: int, s: seq<int>)
    requires StrictlyAscending(s) && x !in s
    ensures StrictlyAscending(Insert(x, s))
  {
    if s == [] {
    } else if x < s[0] {
      assert forall k :: 0 <= k < |s| ==> s[0] <= s[k];
      ConsStrictly(x, s);
    } else {
      assert x != s[0] && x !in s[1..];
      TailStrictly(s);
      InsertSortsStrictly(x, s[1..]);
      InsertLower(x, s[1..], s[0] + 1);
      ConsStrictly(s[0], Insert(x, s[1..]));
    }
  }

  /** `SortAscending` returns a permutation of its input in ascending order. */
  lemma {:induction false} SortSpec(s: seq<int>)
    ensures multiset(SortAscending(s)) == multiset(s)
    ensures Ascending(SortAscending(s))
  {
    if s != [] {
      SortSpec(s[1..]);
      InsertPermutes(s[0], SortAscending(s[1..]));
      InsertSorts(s[0], SortAscending(s[1..]));
      assert s == [s[0]] + s[1..];
    }
  }

  /** The head of a list without repeats is not in its tail, which has no repeats either. */
  lemma DistinctTail(s: seq<int>)
    requires Distinct(s) && s != []
    ensures Distinct(s[1..]) && s[0] !in s[1..]
  {
    assert forall k :: 0 <= k < |s| - 1 ==> s[1..][k] == s[k + 1];
  }

  /** With no repeated index, the sorted order is strict. */
  lemma {:induction false} SortStrictly(s: seq<int>)
    requires Distinct(s)
    ensures StrictlyAscending(SortAscending(s))
  {
    if s != [] {
      DistinctTail(s);
      SortStrictly(s[1..]);
      SortSpec(s[1..]);
      assert s[0] !in multiset(SortAscending(s[1..]));
      InsertSortsStrictly(s[0], SortAscending(s[1..]));
    }
  }

  /** Sorting a valid selection gives the same indices, still in range,
      in strictly ascending order. */
  lemma SortValid(sel: seq<int>, n: int)
    requires ValidSelection(sel, n)
    ensures StrictlyAscending(SortAscending(sel)) && InRange(SortAscending(sel), n)
    ensures forall m :: m in SortAscending(sel) <==> m in sel
  {
    var r := SortAscending(sel);
    SortSpec(sel);
    SortStrictly(sel);
    assert forall m :: m in r <==> m in multiset(r);
    forall i | 0 <= i < |r|
      ensures 0 <= r[i] < n
    {
      assert r[i] in r;
    }
  }

  // ---------------------------------------------------------------------
  // Shift-click: the run of indices from the anchor to the clicked index.

  /** Distance between two indices. */
  function Dist(a: int, b: int): nat {
    if a <= b then b - a else a - b
  }

  /** The `k`-th index on the way from `start` toward `target`. */
  function Step(start: int, target: int, k: int): int {
    if start <= target then start + k else start - k
  }

  /** `start`, the indices between, and `target`, stepping toward `target`. */
  function Run(start: int, target: int): (r: seq<int>)
    ensures |r| == Dist(start, target) + 1
    ensures r[0] == start && r[|r| - 1] == target
  {
    seq(Dist(start, target) + 1, k => Step(start, target, k))
  }

  /** The run begins at the anchor, ends at the clicked index, repeats no
      index and holds exactly the indices between the two. */
  lemma RunShape(start: int, target: int)
    ensures |Run(start, target)| == Dist(start, target) + 1
    ensures Run(start, target)[0] == start
    ensures Run(start, target)[Dist(start, target)] == target
    ensures Distinct(Run(start, target))
    ensures forall j :: j in Run(start, target) <==>
      (start <= j <= target || target <= j <= start)
  {
    var r := Run(start, target);
    forall j | start <= j <= target || target <= j <= start
      ensures j in r
    {
      var k := Dist(start, j);
      assert r[k] == j;
    }
  }

  /** A run between two valid indices is a valid selection. */
  lemma RunValid(start: int, target: int, n: int)
    requires 0 <= start < n && 0 <= target < n
    ensures ValidSelection(Run(start, target), n)
  {
    RunShape(start, target);
    var r := Run(start, target);
    forall i | 0 <= i < |r|
      ensures 0 <= r[i] < n
    {
      assert r[i] in r;
    }
  }

  // ---------------------------------------------------------------------
  // A mouse-down inside event `index`.

  /** Ctrl-click: remove `index` if it is selected, otherwise append it. */
  function Toggled(sel: seq<int>, index: int): (r: seq<int>)
    ensures index in sel ==> |r| == |sel| - 1
    ensures index !in sel ==> |r| == |sel| + 1 && r[|sel|] == index
  {
    if index in sel then RemoveFirst(sel, index) else sel + [index]
  }

  /** The selection after a click on event `index` with the given modifier
      keys; `control` takes precedence over `shift`. */
  function Clicked(sel: seq<int>, index: int, control: bool, shift: bool): seq<int> {
    if control then Toggled(sel, index)
    else if shift && |sel| > 0 then (if index == sel[0] then sel else Run(sel[0], index))
    else [index]
  }

  /** Ctrl-click flips the membership of the clicked index and of no other. */
  lemma ToggleFlips(sel: seq<int>, index: int)
    requires Distinct(sel)
    ensures forall j :: j in Toggled(sel, index) <==> ((j in sel) != (j == index))
  {
    RemoveFirstSplit(sel, index);
    if index in sel {
      var p := IndexOf(sel, index);
      assert sel == sel[..p] + [index] + sel[p + 1..];
      forall j ensures j in Toggled(sel, index) <==> ((j in sel) != (j == index)) {
        if j == index {
          assert forall i :: p < i < |sel| ==> sel[i] != sel[p];
        }
      }
    }
  }

  /** Every kind of click keeps the selection distinct and in range. */
  lemma ClickKeepsValid(sel: seq<int>, n: int, index: int, control: bool, shift: bool)
    requires ValidSelection(sel, n) && 0 <= index < n
    ensures ValidSelection(Clicked(sel, index, control, shift), n)
  {
    var r := Clicked(sel, index, control, shift);
    if control {
      RemoveFirstSplit(sel, index);
      if index in sel {
        var p := IndexOf(sel, index);
        forall i | 0 <= i < |r|
          ensures 0 <= r[i] < n
        {
          if i < p { assert r[i] == sel[i]; } else { assert r[i] == sel[i + 1]; }
        }
        forall i, j | 0 <= i < j < |r|
          ensures r[i] != r[j]
        {
          var i' := if i < p then i else i + 1;
          var j' := if j < p then j else j + 1;
          assert r[i] == sel[i'] && r[j] == sel[j'];
        }
      }
    } else if shift && |sel| > 0 && index != sel[0] {
      RunValid(sel[0], index, n);
    }
  }
}
