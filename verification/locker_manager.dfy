/**
 * The locker manager (q16_locker_management, LockerManager.java).
 *
 * Lockers come in five sizes. Adding a locker of a size names it after the
 * size and that size's counter ("M1", "M2", ...); the free lockers of each
 * size are kept as a sorted set so that `findSlot` hands out the
 * lexicographically smallest free id ("M10" before "M2").
 */
module LockerManager {
  import Strings
  import Ordering

  const Sizes: set<string> := {"S", "M", "L", "XL", "XXL"}

  datatype Locker = Locker(size: string, occupied: bool)

  datatype Manager = Manager(
    next: map<string, int>,
    free: map<string, set<string>>,
    byId: map<string, Locker>)

  /** The id of the `k`-th locker of a size: the size followed by the counter in decimal. */
  function IdOf(size: string, k: int): string {
    size + Strings.IntToString(k)
  }

  /** `id` was handed out for `size` by one of the first `n` additions. */
  ghost predicate Named(id: string, size: string, n: int) {
    exists k :: 1 <= k <= n && id == IdOf(size, k)
  }

  /**
   * Every size has a counter and a free set; every locker was named by its
   * size's counter; the free set of a size holds exactly that size's
   * unoccupied lockers.
   */
  ghost predicate Valid(m: Manager) {
    && m.next.Keys == Sizes && m.free.Keys == Sizes
    && (forall s :: s in m.next ==> m.next[s] >= 0)
    && AllNamed(m)
    && FreeMatches(m)
  }

  ghost predicate AllNamed(m: Manager)
    requires m.next.Keys == Sizes
  {
    forall id :: id in m.byId ==> m.byId[id].size in Sizes && Named(id, m.byId[id].size, m.next[m.byId[id].size])
  }

  /** A locker is free exactly when it is in its size's free set, and free sets hold nothing else. */
  ghost predicate FreeMatches(m: Manager)
    requires m.free.Keys == Sizes
  {
    && (forall s, id :: s in m.free && id in m.free[s] ==> id in m.byId && m.byId[id].size == s)
    && (forall id :: id in m.byId ==> m.byId[id].size in Sizes && (!m.byId[id].occupied <==> id in m.free[m.byId[id].size]))
  }

  /** `new LockerManager()`: every counter at zero, no lockers. */
  function Create(): (m: Manager)
    ensures Valid(m) && m.byId == map[]
  {
    Manager(map s | s in Sizes :: 0, map s | s in Sizes :: {}, map[])
  }

  // ---------------------------------------------------------------------------
  // Locker ids
  // ---------------------------------------------------------------------------

  lemma SizesAreLetters(s: string)
    requires s in Sizes
    ensures s != [] && forall i :: 0 <= i < |s| ==> !Strings.IsDigit(s[i])
  {
  }

  lemma PositiveDigits(k: int)
    requires k >= 1
    ensures Strings.IntToString(k) == Strings.NatToString(k)
    ensures Strings.AllDigits(Strings.IntToString(k))
  {
  }

  /** Two additions never produce the same id: the size and the counter can be read back from it. */
  lemma IdInjective(s1: string, k1: int, s2: string, k2: int)
    requires s1 in Sizes && s2 in Sizes && k1 >= 1 && k2 >= 1
    requires IdOf(s1, k1) == IdOf(s2, k2)
    ensures s1 == s2 && k1 == k2
  {
    var d1, d2 := Strings.IntToString(k1), Strings.IntToString(k2);
    PositiveDigits(k1);
    PositiveDigits(k2);
    SizesAreLetters(s1);
    SizesAreLetters(s2);
    var id := IdOf(s1, k1);
    FirstDigitAfter(s1, d1);
    FirstDigitAfter(s2, d2);
    assert s1 == id[..|s1|] == s2;
    assert d1 == id[|s1|..] == d2;
  }

  /** Position of the first decimal digit of `s`, or `|s|` when there is none. */
  function FirstDigit(s: string): (i: nat)
    ensures i <= |s|
  {
    if s == [] then 0
    else if Strings.IsDigit(s[0]) then 0
    else 1 + FirstDigit(s[1..])
  }

  /** In a letters-then-digits id the digits start right after the letters. */
  lemma {:induction false} FirstDigitAfter(s: string, d: string)
    requires forall i :: 0 <= i < |s| ==> !Strings.IsDigit(s[i])
    requires d != [] && Strings.AllDigits(d)
    ensures FirstDigit(s + d) == |s|
    decreases |s|
  {
    if s == [] {
      assert s + d == d;
    } else {
      assert (s + d)[1..] == s[1..] + d;
      FirstDigitAfter(s[1..], d);
    }
  }

  /** The next id of a size is not the id of any locker added so far. */
  lemma NextIdFresh(m: Manager, size: string)
    requires Valid(m) && size in Sizes
    ensures IdOf(size, m.next[size] + 1) !in m.byId
  {
    var id := IdOf(size, m.next[size] + 1);
    if id in m.byId {
      var s := m.byId[id].size;
      var k :| 1 <= k <= m.next[s] && id == IdOf(s, k);
      IdInjective(s, k, size, m.next[size] + 1);
    }
  }

  // ---------------------------------------------------------------------------
  // addSlot
  // ---------------------------------------------------------------------------

  /** `addSlot`: an unknown size is ignored; otherwise a free locker named after the size's next counter value. */
  function AddSlot(m: Manager, size: string): (r: Manager)
    ensures size !in Sizes ==> r == m
    ensures size in Sizes ==> size in r.next && r.byId.Keys == m.byId.Keys + {IdOf(size, r.next[size])}
  {
    if size !in Sizes then m
    else
      var idx := if size in m.next then m.next[size] + 1 else 1;
      var id := IdOf(size, idx);
      var f := if size in m.free then m.free[size] else {};
      Manager(m.next[size := idx], m.free[size := f + {id}], m.byId[id := Locker(size, false)])
  }

  /** An added locker is new, free, and its size's counter moved up by one. */
  lemma AddSlotFresh(m: Manager, size: string)
    requires Valid(m) && size in Sizes
    ensures var id := IdOf(size, m.next[size] + 1);
            && id !in m.byId
            && AddSlot(m, size).byId[id] == Locker(size, false)
            && AddSlot(m, size).next[size] == m.next[size] + 1
            && |AddSlot(m, size).byId| == |m.byId| + 1
  {
    NextIdFresh(m, size);
  }

  lemma AddSlotValid(m: Manager, size: string)
    requires Valid(m)
    ensures Valid(AddSlot(m, size))
  {
    if size in Sizes {
      NextIdFresh(m, size);
      AddSlotNamed(m, size);
      AddSlotFreeMatches(m, size);
    }
  }

  lemma AddSlotNamed(m: Manager, size: string)
    requires Valid(m) && size in Sizes
    ensures AllNamed(AddSlot(m, size))
  {
    var r := AddSlot(m, size);
    var id := IdOf(size, m.next[size] + 1);
    forall x | x in r.byId
      ensures r.byId[x].size in Sizes && Named(x, r.byId[x].size, r.next[r.byId[x].size])
    {
      if x != id {
        var s := m.byId[x].size;
        var k :| 1 <= k <= m.next[s] && x == IdOf(s, k);
        assert 1 <= k <= r.next[s];
      } else {
        assert 1 <= m.next[size] + 1 <= r.next[size];
      }
    }
  }

  lemma AddSlotFreeMatches(m: Manager, size: string)
    requires Valid(m) && size in Sizes
    requires IdOf(size, m.next[size] + 1) !in m.byId
    ensures FreeMatches(AddSlot(m, size))
  {
  }

  // ---------------------------------------------------------------------------
  // findSlot
  // ---------------------------------------------------------------------------

  /** `findSlot`: the lexicographically smallest free id of the size, or "" for an unknown size or none free. */
  function FindSlot(m: Manager, size: string): (r: string)
    ensures size !in Sizes || size !in m.free || m.free[size] == {} ==> r == ""
    ensures size in Sizes && size in m.free && m.free[size] != {} ==>
              r in m.free[size] && forall y :: y in m.free[size] ==> Strings.LessEq(r, y)
  {
    if size !in Sizes then ""
    else if size !in m.free || m.free[size] == {} then ""
    else
      var r := Ordering.Least(_ => 0, m.free[size]);
      assert forall y :: y in m.free[size] ==> Ordering.KeyLe(_ => 0, r, y);
      r
  }

  /** In a valid manager the answer names a free locker of that size, and "" means there is none. */
  lemma FindSlotFree(m: Manager, size: string)
    requires Valid(m)
    ensures FindSlot(m, size) != "" ==>
              var id := FindSlot(m, size);
              id in m.byId && m.byId[id] == Locker(size, false)
    ensures FindSlot(m, size) == "" <==>
              forall id :: id in m.byId && m.byId[id].size == size ==> m.byId[id].occupied
  {
    NamesNonEmpty(m);
    var r := FindSlot(m, size);
    if r != "" {
      FreeIffUnoccupied(m, r);
    }
    forall id | id in m.byId && m.byId[id].size == size && !m.byId[id].occupied
      ensures r != ""
    {
      FreeIffUnoccupied(m, id);
      assert r in m.byId;
    }
  }

  lemma FreeIffUnoccupied(m: Manager, id: string)
    requires Valid(m) && id in m.byId
    ensures m.byId[id].size in Sizes
    ensures !m.byId[id].occupied <==> id in m.free[m.byId[id].size]
  {
  }

  /** Every id is a size followed by digits, so no id is empty. */
  lemma NamesNonEmpty(m: Manager)
    requires Valid(m)
    ensures forall id :: id in m.byId ==> id != ""
  {
    forall id | id in m.byId ensures |id| > 0 {
      var s := m.byId[id].size;
      var k :| 1 <= k <= m.next[s] && id == IdOf(s, k);
      SizesAreLetters(s);
    }
  }

  // ---------------------------------------------------------------------------
  // occupySlot / freeSlot
  // ---------------------------------------------------------------------------

  /** `occupySlot`: fails for an unknown or occupied locker, or one missing from its free set. */
  function Occupy(m: Manager, id: string): (r: (Manager, bool))
    ensures r.1 <==> id in m.byId && !m.byId[id].occupied && m.byId[id].size in m.free && id in m.free[m.byId[id].size]
    ensures !r.1 ==> r.0 == m
    ensures r.1 ==> r.0.byId == m.byId[id := Locker(m.byId[id].size, true)]
    ensures r.1 ==> r.0.free == m.free[m.byId[id].size := m.free[m.byId[id].size] - {id}]
  {
    if id !in m.byId || m.byId[id].occupied then (m, false)
    else
      var size := m.byId[id].size;
      if size !in m.free || id !in m.free[size] then (m, false)
      else (m.(free := m.free[size := m.free[size] - {id}], byId := m.byId[id := Locker(size, true)]), true)
  }

  /** `freeSlot`: fails for an unknown or free locker; otherwise the locker returns to its size's free set. */
  function Free(m: Manager, id: string): (r: (Manager, bool))
    requires id in m.byId ==> m.byId[id].size in m.free
    ensures r.1 <==> id in m.byId && m.byId[id].occupied
    ensures !r.1 ==> r.0 == m
    ensures r.1 ==> r.0.byId == m.byId[id := Locker(m.byId[id].size, false)]
    ensures r.1 ==> r.0.free == m.free[m.byId[id].size := m.free[m.byId[id].size] + {id}]
  {
    if id !in m.byId || !m.byId[id].occupied then (m, false)
    else
      var size := m.byId[id].size;
      (m.(free := m.free[size := m.free[size] + {id}], byId := m.byId[id := Locker(size, false)]), true)
  }

  /** In a valid manager a locker can be occupied exactly when it is registered and free. */
  lemma OccupyWhenFree(m: Manager, id: string)
    requires Valid(m)
    ensures Occupy(m, id).1 <==> id in m.byId && !m.byId[id].occupied
  {
  }

  lemma OccupyValid(m: Manager, id: string)
    requires Valid(m)
    ensures Valid(Occupy(m, id).0)
  {
  }

  lemma FreeValid(m: Manager, id: string)
    requires Valid(m)
    ensures Valid(Free(m, id).0)
  {
  }

  /** Freeing a locker just occupied restores the manager. */
  lemma OccupyThenFree(m: Manager, id: string)
    requires Occupy(m, id).1
    ensures Free(Occupy(m, id).0, id) == (m, true)
  {
    var size := m.byId[id].size;
    var o := Occupy(m, id).0;
    assert o.byId[id := Locker(size, false)] == m.byId;
    assert o.free[size] + {id} == m.free[size];
    assert o.free[size := o.free[size] + {id}] == m.free;
  }

  /** Occupying a locker just freed restores the manager. */
  lemma FreeThenOccupy(m: Manager, id: string)
    requires Valid(m) && Free(m, id).1
    ensures Occupy(Free(m, id).0, id) == (m, true)
  {
    FreeIffUnoccupied(m, id);
    Reoccupy(m, id);
  }

  lemma Reoccupy(m: Manager, id: string)
    requires id in m.byId && m.byId[id].size in m.free
    requires Free(m, id).1 && id !in m.free[m.byId[id].size]
    ensures Occupy(Free(m, id).0, id) == (m, true)
  {
    var size := m.byId[id].size;
    var f := Free(m, id).0;
    assert f.byId[id := Locker(size, true)] == m.byId;
    assert f.free[size] - {id} == m.free[size];
    assert f.free[size := f.free[size] - {id}] == m.free;
  }

  /** The id `findSlot` offers can always be occupied. */
  lemma FindThenOccupy(m: Manager, size: string)
    requires Valid(m) && FindSlot(m, size) != ""
    ensures Occupy(m, FindSlot(m, size)).1
  {
    FindSlotFree(m, size);
  }
}
