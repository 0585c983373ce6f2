/**
 * The list value's LINSERT BEFORE/AFTER, LRANGE and LREM, with the behaviour
 * the table tests of vals/list_test.go fix (the list implementation itself is
 * not part of this model). A nil list and an empty list behave alike, so both
 * are the empty sequence here.
 *
 * LRange is a pure read and is a function. The inserts and LRem change the
 * list in place, so they are methods of a `List` object whose `items` they
 * update; each is proved against a specification function on sequences, and
 * the properties the tests check are lemmas about those functions.
 */
module Lists {

  // ---------------------------------------------------------------------------
  // Vocabulary.
  // ---------------------------------------------------------------------------

  /** The number of occurrences of x in s. */
  function Count(s: seq<string>, x: string): nat {
    if s == [] then 0 else (if s[0] == x then 1 else 0) + Count(s[1..], x)
  }

  /** s with every occurrence of x taken out. */
  function Without(s: seq<string>, x: string): seq<string> {
    if s == [] then [] else (if s[0] == x then [] else [s[0]]) + Without(s[1..], x)
  }

  function Min(a: int, b: int): int {
    if a <= b then a else b
  }

  /** The index of the first occurrence of x in s, or -1 when there is none. */
  function FirstIndex(s: seq<string>, x: string): (i: int)
    ensures -1 <= i < |s|
    ensures i == -1 <==> x !in s
    ensures i >= 0 ==> s[i] == x && x !in s[..i]
  {
    if s == [] then -1
    else if s[0] == x then 0
    else
      var j := FirstIndex(s[1..], x);
      assert j >= 0 ==> s[..j + 1] == [s[0]] + s[1..][..j];
      if j == -1 then -1 else j + 1
  }

  // ---------------------------------------------------------------------------
  // LINSERT.
  // ---------------------------------------------------------------------------

  /**
   * LInsertBefore on a list s: val goes in at the pivot's index (its first
   * occurrence) and the new length is returned; -1 and no change when the
   * pivot is absent, which includes the empty list.
   */
  function InsertedBefore(s: seq<string>, pivot: string, val: string): (r: (seq<string>, int))
    ensures pivot !in s ==> r == (s, -1)
    ensures pivot in s ==>
      var i := FirstIndex(s, pivot);
      && r.1 == |r.0| == |s| + 1
      && r.0[i] == val && r.0[..i] == s[..i] && r.0[i + 1..] == s[i..]
  {
    var i := FirstIndex(s, pivot);
    if i < 0 then (s, -1)
    else
      var t := s[..i] + [val] + s[i..];
      assert t[i + 1..] == s[i..];
      (t, |t|)
  }

  /** LInsertAfter on a list s: as InsertedBefore, but val goes in at the pivot's index + 1. */
  function InsertedAfter(s: seq<string>, pivot: string, val: string): (r: (seq<string>, int))
    ensures pivot !in s ==> r == (s, -1)
    ensures pivot in s ==>
      var i := FirstIndex(s, pivot);
      && r.1 == |r.0| == |s| + 1
      && r.0[i + 1] == val && r.0[..i + 1] == s[..i + 1] && r.0[i + 2..] == s[i + 1..]
  {
    var i := FirstIndex(s, pivot);
    if i < 0 then (s, -1)
    else
      var t := s[..i + 1] + [val] + s[i + 1..];
      assert t[i + 2..] == s[i + 1..];
      (t, |t|)
  }

  // ---------------------------------------------------------------------------
  // LRANGE.
  // ---------------------------------------------------------------------------

  /** An index as given, or counted from the end when it is negative. */
  function Resolve(index: int, len: nat): int {
    if index < 0 then len + index else index
  }

  /**
   * The elements of s whose index lies in [lo, hi], in order: an independent
   * statement of what LRANGE selects, without any clamping.
   */
  function Window(s: seq<string>, lo: int, hi: int): seq<string>
    decreases |s|
  {
    if s == [] then []
    else Window(s[..|s| - 1], lo, hi) + (if lo <= |s| - 1 <= hi then [s[|s| - 1]] else [])
  }

  /**
   * LRange: negative indices count from the end, the start is clamped to 0 and
   * the stop to the last index; a start past the end or a window that
   * collapses after clamping gives the empty list, never an error.
   */
  function LRange(s: seq<string>, start: int, stop: int): (r: seq<string>)
    ensures r == Window(s, Resolve(start, |s|), Resolve(stop, |s|))
  {
    var n := |s|;
    var lo := Resolve(start, n);
    var hi := Resolve(stop, n);
    var first := if lo < 0 then 0 else lo;
    var last := if hi >= n then n - 1 else hi;
    WindowIsSlice(s, lo, hi);
    if first > last || first >= n then [] else s[first..last + 1]
  }

  /** The window is the slice between the clamped bounds, or empty. */
  lemma {:induction false} WindowIsSlice(s: seq<string>, lo: int, hi: int)
    ensures var first := if lo < 0 then 0 else lo;
      var end := if hi + 1 > |s| then |s| else hi + 1;
      Window(s, lo, hi) == if first < end then s[first..end] else []
    decreases |s|
  {
    if s != [] {
      var p := s[..|s| - 1];
      WindowIsSlice(p, lo, hi);
      var first := if lo < 0 then 0 else lo;
      var endP := if hi + 1 > |p| then |p| else hi + 1;
      var end := if hi + 1 > |s| then |s| else hi + 1;
      if first < endP {
        assert p[first..endP] == s[first..endP];
        if lo <= |s| - 1 <= hi {
          assert s[first..end] == s[first..endP] + [s[|s| - 1]];
        }
      } else if lo <= |s| - 1 <= hi {
        assert s[first..end] == [s[|s| - 1]];
      }
    }
  }

  /** Every element LRANGE returns comes from the list, and there are no more than its length. */
  lemma LRangeWithinList(s: seq<string>, start: int, stop: int)
    ensures |LRange(s, start, stop)| <= |s|
    ensures forall k :: 0 <= k < |LRange(s, start, stop)| ==> LRange(s, start, stop)[k] in s
  {
    var n := |s|;
    var lo := Resolve(start, n);
    var hi := Resolve(stop, n);
    WindowIsSlice(s, lo, hi);
  }

  /** An empty list, a start past the end, or a stop before the start gives the empty list. */
  lemma LRangeEmptyCases(s: seq<string>, start: int, stop: int)
    requires s == [] || Resolve(start, |s|) >= |s| || Resolve(stop, |s|) < Resolve(start, |s|)
      || Resolve(stop, |s|) < 0
    ensures LRange(s, start, stop) == []
  {
  }

  /** The LRANGE table of vals/list_test.go. */
  lemma LRangeTable()
    ensures LRange([], 0, 1) == []
    ensures LRange([], 0, 2) == []
    ensures LRange(["a"], 0, 2) == ["a"]
    ensures LRange(["a", "b", "c"], 1, 2) == ["b", "c"]
    ensures LRange(["a", "b", "c"], -3, 2) == ["a", "b", "c"]
    ensures LRange(["a", "b", "c"], 1, 222) == ["b", "c"]
    ensures LRange(["a", "b", "c"], -123, -2) == ["a", "b"]
    ensures LRange(["a", "b", "c"], -123, -5) == []
    ensures LRange(["a", "b", "c"], 17, -1) == []
    ensures LRange(["a", "b", "c"], 17, -18) == []
  {
  }

  // ---------------------------------------------------------------------------
  // LREM.
  // ---------------------------------------------------------------------------

  /** Removes up to k occurrences of x, walking from the head. */
  function RemoveFromHead(s: seq<string>, x: string, k: nat): seq<string> {
    if s == [] then []
    else if s[0] == x && k > 0 then RemoveFromHead(s[1..], x, k - 1)
    else [s[0]] + RemoveFromHead(s[1..], x, k)
  }

  /** Removes up to k occurrences of x, walking from the tail. */
  function RemoveFromTail(s: seq<string>, x: string, k: nat): seq<string>
    decreases |s|
  {
    if s == [] then []
    else if s[|s| - 1] == x && k > 0 then RemoveFromTail(s[..|s| - 1], x, k - 1)
    else RemoveFromTail(s[..|s| - 1], x, k) + [s[|s| - 1]]
  }

  /** How many occurrences LREM may remove: all of them for count 0, otherwise |count|. */
  function Budget(s: seq<string>, count: int): nat {
    if count == 0 then |s| else if count < 0 then -count else count
  }

  /** LRem's new list: from the head for count >= 0, from the tail for count < 0. */
  function Removed(s: seq<string>, count: int, x: string): seq<string> {
    if count >= 0 then RemoveFromHead(s, x, Budget(s, count))
    else RemoveFromTail(s, x, Budget(s, count))
  }

  /** Walking from the head removes min(k, occurrences) elements, all equal to x. */
  lemma {:induction false} RemoveFromHeadCount(s: seq<string>, x: string, k: nat)
    ensures |s| - |RemoveFromHead(s, x, k)| == Min(k, Count(s, x))
    ensures Without(RemoveFromHead(s, x, k), x) == Without(s, x)
    ensures Count(RemoveFromHead(s, x, k), x) == Count(s, x) - Min(k, Count(s, x))
  {
    if s != [] {
      if s[0] == x && k > 0 {
        RemoveFromHeadCount(s[1..], x, k - 1);
      } else {
        RemoveFromHeadCount(s[1..], x, k);
        var r := [s[0]] + RemoveFromHead(s[1..], x, k);
        assert r[1..] == RemoveFromHead(s[1..], x, k);
      }
    }
  }

  lemma {:induction false} CountAppend(a: seq<string>, b: seq<string>, x: string)
    ensures Count(a + b, x) == Count(a, x) + Count(b, x)
    ensures Without(a + b, x) == Without(a, x) + Without(b, x)
  {
    if a != [] {
      assert (a + b)[1..] == a[1..] + b;
      CountAppend(a[1..], b, x);
    } else {
      assert a + b == b;
    }
  }

  /** Walking from the tail removes min(k, occurrences) elements, all equal to x. */
  lemma {:induction false} RemoveFromTailCount(s: seq<string>, x: string, k: nat)
    ensures |s| - |RemoveFromTail(s, x, k)| == Min(k, Count(s, x))
    ensures Without(RemoveFromTail(s, x, k), x) == Without(s, x)
    ensures Count(RemoveFromTail(s, x, k), x) == Count(s, x) - Min(k, Count(s, x))
    decreases |s|
  {
    if s != [] {
      var p := s[..|s| - 1];
      var last := s[|s| - 1];
      assert s == p + [last];
      CountAppend(p, [last], x);
      assert [last][1..] == [];
      if last == x && k > 0 {
        RemoveFromTailCount(p, x, k - 1);
      } else {
        RemoveFromTailCount(p, x, k);
        CountAppend(RemoveFromTail(p, x, k), [last], x);
      }
    }
  }

  /**
   * From the head: the removed occurrences are the first ones. Some prefix of
   * the list holds exactly the removed occurrences; they are dropped from it
   * and the rest of the list is untouched.
   */
  lemma {:induction false} RemoveFromHeadIsPrefixCut(s: seq<string>, x: string, k: nat)
    ensures exists p :: (0 <= p <= |s| && Count(s[..p], x) == Min(k, Count(s, x))
                         && RemoveFromHead(s, x, k) == Without(s[..p], x) + s[p..])
  {
    if k == 0 || s == [] {
      RemoveFromHeadNone(s, x);
      assert s[..0] == [] && s[0..] == s;
      assert Without(s[..0], x) + s[0..] == s;
    } else {
      var k' := if s[0] == x then k - 1 else k;
      RemoveFromHeadIsPrefixCut(s[1..], x, k');
      var p :| 0 <= p <= |s[1..]| && Count(s[1..][..p], x) == Min(k', Count(s[1..], x))
        && RemoveFromHead(s[1..], x, k') == Without(s[1..][..p], x) + s[1..][p..];
      HeadCutExtend(s, x, k, k', p);
    }
  }

  /** One more element at the head extends the prefix cut of the list after it. */
  lemma HeadCutExtend(s: seq<string>, x: string, k: nat, k': nat, p: int)
    requires s != [] && k > 0 && k' == if s[0] == x then k - 1 else k
    requires 0 <= p <= |s| - 1
    requires Count(s[1..][..p], x) == Min(k', Count(s[1..], x))
    requires RemoveFromHead(s[1..], x, k') == Without(s[1..][..p], x) + s[1..][p..]
    ensures Count(s[..p + 1], x) == Min(k, Count(s, x))
    ensures RemoveFromHead(s, x, k) == Without(s[..p + 1], x) + s[p + 1..]
  {
    assert s[..p + 1][1..] == s[1..][..p];
    assert s[p + 1..] == s[1..][p..];
  }

  lemma {:induction false} RemoveFromHeadNone(s: seq<string>, x: string)
    ensures RemoveFromHead(s, x, 0) == s
  {
    if s != [] {
      RemoveFromHeadNone(s[1..], x);
    }
  }

  /**
   * From the tail: the removed occurrences are the last ones. Some suffix of
   * the list holds exactly the removed occurrences; they are dropped from it
   * and the part before it is untouched.
   */
  lemma {:induction false} RemoveFromTailIsSuffixCut(s: seq<string>, x: string, k: nat)
    ensures exists p :: (0 <= p <= |s| && Count(s[p..], x) == Min(k, Count(s, x))
                         && RemoveFromTail(s, x, k) == s[..p] + Without(s[p..], x))
    decreases |s|
  {
    if k == 0 || s == [] {
      RemoveFromTailNone(s, x);
      assert s[..|s|] == s && s[|s|..] == [];
      assert s[..|s|] + Without(s[|s|..], x) == s;
    } else {
      var pre := s[..|s| - 1];
      var k' := if s[|s| - 1] == x then k - 1 else k;
      RemoveFromTailIsSuffixCut(pre, x, k');
      var p :| 0 <= p <= |pre| && Count(pre[p..], x) == Min(k', Count(pre, x))
        && RemoveFromTail(pre, x, k') == pre[..p] + Without(pre[p..], x);
      TailCutExtend(s, x, k, k', p);
    }
  }

  /** One more element at the tail extends the suffix cut of the list before it. */
  lemma TailCutExtend(s: seq<string>, x: string, k: nat, k': nat, p: int)
    requires s != [] && k > 0 && k' == if s[|s| - 1] == x then k - 1 else k
    requires 0 <= p <= |s| - 1
    requires Count(s[..|s| - 1][p..], x) == Min(k', Count(s[..|s| - 1], x))
    requires RemoveFromTail(s[..|s| - 1], x, k') == s[..|s| - 1][..p] + Without(s[..|s| - 1][p..], x)
    ensures Count(s[p..], x) == Min(k, Count(s, x))
    ensures RemoveFromTail(s, x, k) == s[..p] + Without(s[p..], x)
  {
    var pre := s[..|s| - 1];
    var last := s[|s| - 1];
    assert s == pre + [last];
    assert s[p..] == pre[p..] + [last];
    assert s[..p] == pre[..p];
    SingletonCount([last], x);
    TailCutCount(pre, last, x, k, k', p);
    TailCutSurvivors(pre, last, x, k, k', p);
  }

  lemma TailCutCount(pre: seq<string>, last: string, x: string, k: nat, k': nat, p: int)
    requires k > 0 && k' == if last == x then k - 1 else k
    requires 0 <= p <= |pre|
    requires Count(pre[p..], x) == Min(k', Count(pre, x))
    requires Count([last], x) == if last == x then 1 else 0
    ensures Count(pre[p..] + [last], x) == Min(k, Count(pre + [last], x))
  {
    CountAppend(pre, [last], x);
    CountAppend(pre[p..], [last], x);
  }

  lemma TailCutSurvivors(pre: seq<string>, last: string, x: string, k: nat, k': nat, p: int)
    requires k > 0 && k' == if last == x then k - 1 else k
    requires 0 <= p <= |pre|
    requires RemoveFromTail(pre, x, k') == pre[..p] + Without(pre[p..], x)
    requires Without([last], x) == if last == x then [] else [last]
    ensures RemoveFromTail(pre + [last], x, k) == pre[..p] + Without(pre[p..] + [last], x)
  {
    var s := pre + [last];
    assert s[..|s| - 1] == pre && s[|s| - 1] == last;
    CountAppend(pre[p..], [last], x);
    if last == x {
      assert RemoveFromTail(s, x, k) == RemoveFromTail(pre, x, k');
    } else {
      assert RemoveFromTail(s, x, k) == RemoveFromTail(pre, x, k') + [last];
    }
  }

  /** The count and the survivors of a one-element list. */
  lemma SingletonCount(s: seq<string>, x: string)
    requires |s| == 1
    ensures Count(s, x) == if s[0] == x then 1 else 0
    ensures Without(s, x) == if s[0] == x then [] else s
  {
    assert s[1..] == [];
  }

  lemma {:induction false} RemoveFromTailNone(s: seq<string>, x: string)
    ensures RemoveFromTail(s, x, 0) == s
    decreases |s|
  {
    if s != [] {
      RemoveFromTailNone(s[..|s| - 1], x);
    }
  }

  /** LREM with count 0 removes every occurrence and reports how many there were. */
  lemma LRemZeroRemovesAll(s: seq<string>, x: string)
    ensures Removed(s, 0, x) == Without(s, x)
    ensures |s| - |Removed(s, 0, x)| == Count(s, x)
  {
    RemoveFromHeadCount(s, x, |s|);
    CountAtMostLength(s, x);
    WithoutDropsAll(RemoveFromHead(s, x, |s|), x);
  }

  lemma {:induction false} CountAtMostLength(s: seq<string>, x: string)
    ensures Count(s, x) <= |s|
  {
    if s != [] {
      CountAtMostLength(s[1..], x);
    }
  }

  lemma {:induction false} WithoutDropsAll(s: seq<string>, x: string)
    requires Count(s, x) == 0
    ensures Without(s, x) == s
  {
    if s != [] {
      WithoutDropsAll(s[1..], x);
    }
  }

  /**
   * LREM removes min(budget, occurrences) elements, all equal to x, and keeps
   * every other element in order: with count > 0 from the head, with count < 0
   * from the tail.
   */
  lemma LRemRemovesOnlyValue(s: seq<string>, count: int, x: string)
    ensures |s| - |Removed(s, count, x)| == Min(Budget(s, count), Count(s, x))
    ensures Without(Removed(s, count, x), x) == Without(s, x)
  {
    if count >= 0 {
      RemoveFromHeadCount(s, x, Budget(s, count));
    } else {
      RemoveFromTailCount(s, x, Budget(s, count));
    }
  }

  /** LREM of a value that is not in the list removes nothing, whatever the count. */
  lemma LRemAbsent(s: seq<string>, count: int, x: string)
    requires x !in s
    ensures Removed(s, count, x) == s
  {
    CountAbsent(s, x);
    LRemRemovesOnlyValue(s, count, x);
    WithoutDropsAll(s, x);
    WithoutDropsAll(Removed(s, count, x), x) by {
      RemovedCountOfValue(s, count, x);
    }
  }

  lemma {:induction false} CountAbsent(s: seq<string>, x: string)
    requires x !in s
    ensures Count(s, x) == 0
  {
    if s != [] {
      assert x !in s[1..];
      CountAbsent(s[1..], x);
    }
  }

  lemma RemovedCountOfValue(s: seq<string>, count: int, x: string)
    ensures Count(Removed(s, count, x), x) == Count(s, x) - Min(Budget(s, count), Count(s, x))
  {
    if count >= 0 {
      RemoveFromHeadCount(s, x, Budget(s, count));
    } else {
      RemoveFromTailCount(s, x, Budget(s, count));
    }
  }

  /**
   * One row of the LREM test table: removing `cnt` occurrences of `v` from `s`
   * leaves `exp`, and LREM replies `n`, the number of elements removed.
   */
  predicate LRemCase(s: seq<string>, cnt: int, v: string, n: int, exp: seq<string>) {
    Removed(s, cnt, v) == exp && |s| - |exp| == n
  }

  /** The LREM table of vals/list_test.go, cases that walk from the head. */
  lemma LRemHeadTable()
    ensures LRemCase([], 0, "", 0, [])
    ensures LRemCase(["a", "b", "c"], 0, "z", 0, ["a", "b", "c"])
    ensures LRemCase(["a", "b", "c"], 2, "z", 0, ["a", "b", "c"])
    ensures LRemCase(["a", "z", "c", "z"], 0, "z", 2, ["a", "c"])
    ensures LRemCase(["a", "z", "c", "z"], 1, "z", 1, ["a", "c", "z"])
    ensures LRemCase(["a", "z", "c", "z"], 3, "z", 2, ["a", "c"])
  {
    LRemAbsent(["a", "b", "c"], 0, "z");
    LRemAbsent(["a", "b", "c"], 2, "z");
    var s := ["a", "z", "c", "z"];
    assert s[1..] == ["z", "c", "z"] && s[2..] == ["c", "z"] && s[3..] == ["z"];
  }

  /** The LREM table of vals/list_test.go, cases that remove one occurrence from the tail. */
  lemma LRemTailTable()
    ensures LRemCase(["a", "b", "c"], -1, "z", 0, ["a", "b", "c"])
    ensures LRemCase(["a", "z", "c", "z"], -1, "z", 1, ["a", "z", "c"])
  {
    LRemAbsent(["a", "b", "c"], -1, "z");
    var s := ["a", "z", "c", "z"];
    assert s[..3] == ["a", "z", "c"];
    RemoveFromTailNone(["a", "z", "c"], "z");
    assert RemoveFromTail(s, "z", 1) == RemoveFromTail(["a", "z", "c"], "z", 0);
  }

  /** The LREM table of vals/list_test.go, cases whose count from the tail exceeds the occurrences. */
  lemma LRemTailExhaustedTable()
    ensures LRemCase(["a", "z", "c", "z"], -4, "z", 2, ["a", "c"])
    ensures LRemCase(["a", "z", "c", "z"], -4, "a", 1, ["z", "c", "z"])
  {
    var s := ["a", "z", "c", "z"];
    var s3, s2, s1 := ["a", "z", "c"], ["a", "z"], ["a"];
    assert s[..3] == s3 && s3[..2] == s2 && s2[..1] == s1 && s1[..0] == [];
    assert RemoveFromTail(s1, "z", 3) == s1;
    assert RemoveFromTail(s2, "z", 3) == s1;
    assert RemoveFromTail(s3, "z", 3) == s1 + ["c"];
    assert RemoveFromTail(s, "z", 4) == ["a", "c"];
    assert RemoveFromTail(s1, "a", 4) == [];
    assert RemoveFromTail(s2, "a", 4) == ["z"];
    assert RemoveFromTail(s3, "a", 4) == ["z", "c"];
    assert RemoveFromTail(s, "a", 4) == ["z", "c"] + ["z"];
  }

  /**
   * The LINSERT BEFORE table of vals/list_test.go: the returned length, and
   * the index at which the new value must then be found.
   */
  lemma InsertBeforeTable()
    ensures InsertedBefore([], "", "") == ([], -1)
    ensures InsertedBefore(["a"], "a", "z").1 == 2 && InsertedBefore(["a"], "a", "z").0[0] == "z"
    ensures InsertedBefore(["a"], "x", "z") == (["a"], -1)
    ensures InsertedBefore(["a", "b", "c"], "a", "z").1 == 4 && InsertedBefore(["a", "b", "c"], "a", "z").0[0] == "z"
    ensures InsertedBefore(["a", "b", "c"], "b", "z").1 == 4 && InsertedBefore(["a", "b", "c"], "b", "z").0[1] == "z"
    ensures InsertedBefore(["a", "b", "c"], "c", "z").1 == 4 && InsertedBefore(["a", "b", "c"], "c", "z").0[2] == "z"
  {
    PivotIndices();
  }

  /** The LINSERT AFTER table of vals/list_test.go. */
  lemma InsertAfterTable()
    ensures InsertedAfter([], "", "") == ([], -1)
    ensures InsertedAfter(["a"], "a", "z").1 == 2 && InsertedAfter(["a"], "a", "z").0[1] == "z"
    ensures InsertedAfter(["a"], "x", "z") == (["a"], -1)
    ensures InsertedAfter(["a", "b", "c"], "a", "z").1 == 4 && InsertedAfter(["a", "b", "c"], "a", "z").0[1] == "z"
    ensures InsertedAfter(["a", "b", "c"], "b", "z").1 == 4 && InsertedAfter(["a", "b", "c"], "b", "z").0[2] == "z"
    ensures InsertedAfter(["a", "b", "c"], "c", "z").1 == 4 && InsertedAfter(["a", "b", "c"], "c", "z").0[3] == "z"
  {
    PivotIndices();
  }

  /** Where the pivots of the LINSERT tables sit in ["a", "b", "c"]. */
  lemma PivotIndices()
    ensures FirstIndex(["a", "b", "c"], "a") == 0
    ensures FirstIndex(["a", "b", "c"], "b") == 1
    ensures FirstIndex(["a", "b", "c"], "c") == 2
  {
    assert ["a", "b", "c"][1..] == ["b", "c"];
    assert ["b", "c"][1..] == ["c"];
  }

  // ---------------------------------------------------------------------------
  // The list object.
  // ---------------------------------------------------------------------------

  /** A list value; its operations change `items` in place. */
  class List {
    var items: seq<string>

    constructor (initial: seq<string>)
      ensures items == initial
    {
      items := initial;
    }

    /** Scans for the first occurrence of the pivot. */
    method Find(pivot: string) returns (i: int)
      ensures i == FirstIndex(items, pivot)
    {
      i := 0;
      while i < |items| && items[i] != pivot
        invariant 0 <= i <= |items|
        invariant pivot !in items[..i]
      {
        assert items[..i + 1] == items[..i] + [items[i]];
        i := i + 1;
      }
      if i == |items| {
        assert items[..i] == items;
        i := -1;
      } else {
        FirstIndexUnique(items, pivot, i);
      }
    }

    method LInsertBefore(pivot: string, val: string) returns (n: int)
      modifies this
      ensures (items, n) == InsertedBefore(old(items), pivot, val)
    {
      var i := Find(pivot);
      if i < 0 {
        return -1;
      }
      items := items[..i] + [val] + items[i..];
      n := |items|;
    }

    method LInsertAfter(pivot: string, val: string) returns (n: int)
      modifies this
      ensures (items, n) == InsertedAfter(old(items), pivot, val)
    {
      var i := Find(pivot);
      if i < 0 {
        return -1;
      }
      items := items[..i + 1] + [val] + items[i + 1..];
      n := |items|;
    }

    method LRem(count: int, val: string) returns (n: int)
      modifies this
      ensures items == Removed(old(items), count, val)
      ensures n == |old(items)| - |items|
    {
      var budget := Budget(items, count);
      var kept;
      if count >= 0 {
        kept, n := RemoveHeadward(items, val, budget);
      } else {
        kept, n := RemoveTailward(items, val, budget);
      }
      items := kept;
    }
  }

  /** LREM's scan from the head: keeps all but the first k occurrences of x. */
  method RemoveHeadward(s: seq<string>, x: string, k: nat) returns (kept: seq<string>, removed: nat)
    ensures kept == RemoveFromHead(s, x, k)
    ensures removed == |s| - |kept| && removed <= k
  {
    kept, removed := [], 0;
    var i := 0;
    while i < |s|
      invariant 0 <= i <= |s| && removed <= k
      invariant RemoveFromHead(s, x, k) == kept + RemoveFromHead(s[i..], x, k - removed)
      invariant |kept| + removed == i
    {
      assert s[i..][1..] == s[i + 1..];
      if s[i] == x && removed < k {
        removed := removed + 1;
      } else {
        kept := kept + [s[i]];
      }
      i := i + 1;
    }
  }

  /** LREM's scan from the tail: keeps all but the last k occurrences of x. */
  method RemoveTailward(s: seq<string>, x: string, k: nat) returns (kept: seq<string>, removed: nat)
    ensures kept == RemoveFromTail(s, x, k)
    ensures removed == |s| - |kept| && removed <= k
  {
    kept, removed := [], 0;
    var i := |s|;
    assert s[..i] == s;
    while i > 0
      invariant 0 <= i <= |s| && removed <= k
      invariant RemoveFromTail(s, x, k) == RemoveFromTail(s[..i], x, k - removed) + kept
      invariant |kept| + removed == |s| - i
    {
      assert s[..i][..i - 1] == s[..i - 1];
      if s[i - 1] == x && removed < k {
        removed := removed + 1;
      } else {
        kept := [s[i - 1]] + kept;
      }
      i := i - 1;
    }
  }

  /** The first occurrence is the only index with the pivot and none before it. */
  lemma FirstIndexUnique(s: seq<string>, x: string, i: int)
    requires 0 <= i < |s| && s[i] == x && x !in s[..i]
    ensures FirstIndex(s, x) == i
  {
  }
}
