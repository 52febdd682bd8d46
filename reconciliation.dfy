/**
 * The meaning of one reconciliation tick of the wheel registry, on values.
 *
 * A registry is described by the handles of its entries (`hs`) and whether
 * each entry's wheel was running (`alive`); an enumeration (`enum`) is the
 * sequence of handles the platform currently reports. Handles are compared
 * with `==` on an arbitrary type, standing for the platform's own equality
 * of wheel handles.
 *
 * One tick keeps, in their order, the entries that the matching loop marked
 * and that were still running, and appends a new entry for every enumerated
 * handle that equals no pre-tick entry, in enumeration order.
 */
module Reconciliation {

  predicate NoDup<T(==)>(s: seq<T>) {
    forall i, j :: 0 <= i < j < |s| ==> s[i] != s[j]
  }

  /**
   * Entry `j` is the first entry carrying its handle. The search over the
   * registry stops at the first equal entry, so only such an entry can be
   * marked as found.
   */
  predicate FirstOccurrence<H(==)>(hs: seq<H>, j: nat)
    requires j < |hs|
  {
    forall k :: 0 <= k < j ==> hs[k] != hs[j]
  }

  /** Entry `j` is marked as found by the enumeration. */
  predicate Matched<H(==)>(hs: seq<H>, j: nat, enum: seq<H>)
    requires j < |hs|
  {
    hs[j] in enum && FirstOccurrence(hs, j)
  }

  /** Which pre-tick entries survive: marked as found, and still running. */
  function KeepMask<H(==)>(hs: seq<H>, alive: seq<bool>, enum: seq<H>): (keep: seq<bool>)
    requires |alive| == |hs|
    ensures |keep| == |hs|
  {
    seq(|hs|, j requires 0 <= j < |hs| => Matched(hs, j, enum) && alive[j])
  }

  /** The elements of `s` from position `i` on whose flag in `mask` is set, in their order. */
  function SelectFrom<T>(s: seq<T>, mask: seq<bool>, i: nat): (r: seq<T>)
    requires |mask| == |s| && i <= |s|
    ensures |r| <= |s| - i
    decreases |s| - i
  {
    if i == |s| then [] else (if mask[i] then [s[i]] else []) + SelectFrom(s, mask, i + 1)
  }

  /** The elements of `s` whose flag in `mask` is set, in their order. */
  function Select<T>(s: seq<T>, mask: seq<bool>): (r: seq<T>)
    requires |mask| == |s|
    ensures |r| <= |s|
  {
    SelectFrom(s, mask, 0)
  }

  /** The handles among the first `i` enumerated ones that equal no pre-tick entry, in enumeration order. */
  function ArrivalsUpTo<H(==)>(hs: seq<H>, enum: seq<H>, i: nat): seq<H>
    requires i <= |enum|
  {
    if i == 0 then []
    else ArrivalsUpTo(hs, enum, i - 1) + (if enum[i - 1] in hs then [] else [enum[i - 1]])
  }

  /** The enumerated handles that equal no pre-tick entry, in enumeration order: the wheels a tick creates. */
  function Arrivals<H(==)>(hs: seq<H>, enum: seq<H>): seq<H> {
    ArrivalsUpTo(hs, enum, |enum|)
  }

  /** The handles of the registry after one tick: the survivors, then the arrivals. */
  function Reconciled<H(==)>(hs: seq<H>, alive: seq<bool>, enum: seq<H>): seq<H>
    requires |alive| == |hs|
  {
    Select(hs, KeepMask(hs, alive, enum)) + Arrivals(hs, enum)
  }

  lemma {:induction false} SelectFromMembership<T>(s: seq<T>, mask: seq<bool>, i: nat, x: T)
    requires |mask| == |s| && i <= |s|
    ensures x in SelectFrom(s, mask, i) <==> exists k :: i <= k < |s| && mask[k] && s[k] == x
    decreases |s| - i
  {
    if i < |s| {
      SelectFromMembership(s, mask, i + 1, x);
      if x in SelectFrom(s, mask, i) && !(mask[i] && s[i] == x) {
        assert x in SelectFrom(s, mask, i + 1);
      }
      if mask[i] && s[i] == x {
        assert SelectFrom(s, mask, i)[0] == x;
      }
    }
  }

  lemma SelectMembership<T>(s: seq<T>, mask: seq<bool>, x: T)
    requires |mask| == |s|
    ensures x in Select(s, mask) <==> exists i :: 0 <= i < |s| && mask[i] && s[i] == x
  {
    SelectFromMembership(s, mask, 0, x);
  }

  lemma {:induction false} SelectFromAll<T>(s: seq<T>, mask: seq<bool>, i: nat)
    requires |mask| == |s| && i <= |s| && forall k :: i <= k < |s| ==> mask[k]
    ensures SelectFrom(s, mask, i) == s[i..]
    decreases |s| - i
  {
    if i < |s| {
      SelectFromAll(s, mask, i + 1);
      assert s[i..] == [s[i]] + s[i + 1..];
    }
  }

  /** Selecting with every flag set keeps everything. */
  lemma SelectAll<T>(s: seq<T>, mask: seq<bool>)
    requires |mask| == |s| && forall i :: 0 <= i < |s| ==> mask[i]
    ensures Select(s, mask) == s
  {
    SelectFromAll(s, mask, 0);
  }

  lemma {:induction false} SelectFromNone<T>(s: seq<T>, mask: seq<bool>, i: nat)
    requires |mask| == |s| && i <= |s| && forall k :: i <= k < |s| ==> !mask[k]
    ensures SelectFrom(s, mask, i) == []
    decreases |s| - i
  {
    if i < |s| {
      SelectFromNone(s, mask, i + 1);
    }
  }

  /** Selecting with no flag set keeps nothing. */
  lemma SelectNone<T>(s: seq<T>, mask: seq<bool>)
    requires |mask| == |s| && forall i :: 0 <= i < |s| ==> !mask[i]
    ensures Select(s, mask) == []
  {
    SelectFromNone(s, mask, 0);
  }

  lemma {:induction false} SelectFromNoDup<T>(s: seq<T>, mask: seq<bool>, i: nat)
    requires |mask| == |s| && i <= |s|
    requires forall a, b :: 0 <= a < b < |s| && mask[a] && mask[b] ==> s[a] != s[b]
    ensures NoDup(SelectFrom(s, mask, i))
    decreases |s| - i
  {
    if i < |s| {
      var rest := SelectFrom(s, mask, i + 1);
      SelectFromNoDup(s, mask, i + 1);
      if mask[i] {
        SelectFromMembership(s, mask, i + 1, s[i]);
        var r := [s[i]] + rest;
        forall a, b | 0 <= a < b < |r|
          ensures r[a] != r[b]
        {
          if a == 0 {
            assert r[b] == rest[b - 1];
            assert rest[b - 1] in rest;
          } else {
            assert r[a] == rest[a - 1] && r[b] == rest[b - 1];
          }
        }
      } else {
        assert SelectFrom(s, mask, i) == rest;
      }
    }
  }

  /** Selecting positions whose values are pairwise different gives a sequence without repetitions. */
  lemma SelectNoDup<T>(s: seq<T>, mask: seq<bool>)
    requires |mask| == |s|
    requires forall i, j :: 0 <= i < j < |s| && mask[i] && mask[j] ==> s[i] != s[j]
    ensures NoDup(Select(s, mask))
  {
    SelectFromNoDup(s, mask, 0);
  }

  lemma {:induction false} ArrivalsUpToMembership<H>(hs: seq<H>, enum: seq<H>, i: nat, x: H)
    requires i <= |enum|
    ensures x in ArrivalsUpTo(hs, enum, i) <==> x in enum[..i] && x !in hs
  {
    if i > 0 {
      ArrivalsUpToMembership(hs, enum, i - 1, x);
      assert enum[..i] == enum[..i - 1] + [enum[i - 1]];
    }
  }

  lemma ArrivalsMembership<H>(hs: seq<H>, enum: seq<H>, x: H)
    ensures x in Arrivals(hs, enum) <==> x in enum && x !in hs
  {
    ArrivalsUpToMembership(hs, enum, |enum|, x);
    assert enum[..|enum|] == enum;
  }

  lemma {:induction false} ArrivalsUpToNoDup<H>(hs: seq<H>, enum: seq<H>, i: nat)
    requires i <= |enum| && NoDup(enum)
    ensures NoDup(ArrivalsUpTo(hs, enum, i))
  {
    if i > 0 {
      ArrivalsUpToNoDup(hs, enum, i - 1);
      ArrivalsUpToMembership(hs, enum, i - 1, enum[i - 1]);
      assert enum[i - 1] !in enum[..i - 1];
    }
  }

  /** Without repeated handles in the enumeration, no handle arrives twice. */
  lemma ArrivalsNoDup<H>(hs: seq<H>, enum: seq<H>)
    requires NoDup(enum)
    ensures NoDup(Arrivals(hs, enum))
  {
    ArrivalsUpToNoDup(hs, enum, |enum|);
  }

  lemma {:induction false} ArrivalsUpToNone<H>(hs: seq<H>, enum: seq<H>, i: nat)
    requires i <= |enum| && forall x :: x in enum ==> x in hs
    ensures ArrivalsUpTo(hs, enum, i) == []
  {
    if i > 0 {
      ArrivalsUpToNone(hs, enum, i - 1);
      assert enum[i - 1] in enum;
    }
  }

  /** When every enumerated handle is already in the registry, nothing arrives. */
  lemma ArrivalsNone<H>(hs: seq<H>, enum: seq<H>)
    requires forall x :: x in enum ==> x in hs
    ensures Arrivals(hs, enum) == []
  {
    ArrivalsUpToNone(hs, enum, |enum|);
  }

  /** A handle present in the registry has a first entry. */
  lemma FirstEntry<H>(hs: seq<H>, x: H) returns (j: nat)
    requires x in hs
    ensures j < |hs| && hs[j] == x && FirstOccurrence(hs, j)
  {
    j := 0;
    while hs[j] != x
      decreases |hs| - j
      invariant j < |hs| && x in hs[j..]
      invariant forall k :: 0 <= k < j ==> hs[k] != x
    {
      j := j + 1;
    }
  }

  /** Two first entries of the same handle are the same entry. */
  lemma FirstOccurrenceUnique<H>(hs: seq<H>, j: nat, j': nat)
    requires j < |hs| && j' < |hs| && hs[j] == hs[j']
    requires FirstOccurrence(hs, j) && FirstOccurrence(hs, j')
    ensures j == j'
  {
  }

  /** Matching one more enumerated handle can only mark the first entry carrying that handle. */
  lemma MatchedExtend<H>(hs: seq<H>, enum: seq<H>, i: nat, j: nat)
    requires i < |enum| && j < |hs|
    ensures Matched(hs, j, enum[..i + 1]) <==> Matched(hs, j, enum[..i]) || (hs[j] == enum[i] && FirstOccurrence(hs, j))
  {
    assert enum[..i + 1] == enum[..i] + [enum[i]];
  }

  /** A survivor is a first entry of its handle, still running, whose handle is enumerated. */
  lemma SurvivorMembership<H>(hs: seq<H>, alive: seq<bool>, enum: seq<H>, x: H)
    requires |alive| == |hs|
    ensures x in Select(hs, KeepMask(hs, alive, enum))
      <==> exists j :: 0 <= j < |hs| && hs[j] == x && FirstOccurrence(hs, j) && alive[j] && x in enum
  {
    SelectMembership(hs, KeepMask(hs, alive, enum), x);
  }

  /**
   * After a tick a handle is in the registry exactly when it is enumerated
   * and, if some pre-tick entry carries it, the first such entry was running.
   */
  lemma ReconciledMembership<H>(hs: seq<H>, alive: seq<bool>, enum: seq<H>, x: H)
    requires |alive| == |hs|
    ensures x in Reconciled(hs, alive, enum)
      <==> x in enum && forall j :: 0 <= j < |hs| && hs[j] == x && FirstOccurrence(hs, j) ==> alive[j]
  {
    SurvivorMembership(hs, alive, enum, x);
    ArrivalsMembership(hs, enum, x);
    if x in hs {
      var j := FirstEntry(hs, x);
      forall j' | 0 <= j' < |hs| && hs[j'] == x && FirstOccurrence(hs, j')
        ensures j' == j
      {
        FirstOccurrenceUnique(hs, j, j');
      }
    }
  }

  /** An empty enumeration empties the registry. */
  lemma ReconciledEmptyEnumeration<H>(hs: seq<H>, alive: seq<bool>)
    requires |alive| == |hs|
    ensures Reconciled(hs, alive, []) == []
  {
    SelectNone(hs, KeepMask(hs, alive, []));
  }

  /**
   * A handle whose first entry had stopped running is not re-added by the
   * tick that removes that entry; the next tick that still enumerates it
   * creates a fresh entry for it.
   */
  lemma StoppedEntryReplacedNextTick<H>(hs: seq<H>, alive: seq<bool>, enum: seq<H>, j: nat, enum': seq<H>)
    requires |alive| == |hs| && j < |hs|
    requires FirstOccurrence(hs, j) && !alive[j]
    requires hs[j] in enum'
    ensures hs[j] !in Reconciled(hs, alive, enum)
    ensures hs[j] in Arrivals(Reconciled(hs, alive, enum), enum')
  {
    ReconciledMembership(hs, alive, enum, hs[j]);
    ArrivalsMembership(Reconciled(hs, alive, enum), enum', hs[j]);
  }

  /** Without repeated handles in the enumeration, the registry after a tick has no repeated handles. */
  lemma ReconciledNoDup<H>(hs: seq<H>, alive: seq<bool>, enum: seq<H>)
    requires |alive| == |hs| && NoDup(enum)
    ensures NoDup(Reconciled(hs, alive, enum))
  {
    var keep := KeepMask(hs, alive, enum);
    var kept := Select(hs, keep);
    var arrived := Arrivals(hs, enum);
    forall i, j | 0 <= i < j < |hs| && keep[i] && keep[j]
      ensures hs[i] != hs[j]
    {
    }
    SelectNoDup(hs, keep);
    ArrivalsNoDup(hs, enum);
    var r := kept + arrived;
    forall i, j | 0 <= i < |kept| <= j < |r|
      ensures r[i] != r[j]
    {
      SelectMembership(hs, keep, kept[i]);
      ArrivalsMembership(hs, enum, arrived[j - |kept|]);
    }
  }

  /** A sequence without repetitions whose elements all occur in `e` is no longer than `e`. */
  lemma {:induction false} NoDupBound<T>(r: seq<T>, e: seq<T>)
    requires NoDup(r) && forall x :: x in r ==> x in e
    ensures |r| <= |e|
  {
    if |r| > 0 {
      assert r[0] in r;
      var p :| 0 <= p < |e| && e[p] == r[0];
      var e' := e[..p] + e[p + 1..];
      forall x | x in r[1..]
        ensures x in e'
      {
        var i :| 0 <= i < |r[1..]| && r[1..][i] == x;
        assert r[i + 1] == x && x != r[0];
        assert r[i + 1] in r;
        var q :| 0 <= q < |e| && e[q] == x;
        if q < p {
          assert e'[q] == x;
        } else {
          assert e'[q - 1] == x;
        }
      }
      NoDupBound(r[1..], e');
    }
  }

  /** Without repeated handles in the enumeration, a tick leaves at most as many entries as handles enumerated. */
  lemma ReconciledBound<H>(hs: seq<H>, alive: seq<bool>, enum: seq<H>)
    requires |alive| == |hs| && NoDup(enum)
    ensures |Reconciled(hs, alive, enum)| <= |enum|
  {
    ReconciledNoDup(hs, alive, enum);
    forall x | x in Reconciled(hs, alive, enum)
      ensures x in enum
    {
      ReconciledMembership(hs, alive, enum, x);
    }
    NoDupBound(Reconciled(hs, alive, enum), enum);
  }

  /**
   * A settled registry is stable: if every enumerated handle's first entry
   * was running, a second tick over the same enumeration, with every wheel
   * still running, changes nothing.
   */
  lemma ReconciledStable<H>(hs: seq<H>, alive: seq<bool>, enum: seq<H>, allAlive: seq<bool>)
    requires |alive| == |hs| && NoDup(enum)
    requires forall j :: 0 <= j < |hs| && Matched(hs, j, enum) ==> alive[j]
    requires |allAlive| == |Reconciled(hs, alive, enum)| && forall j :: 0 <= j < |allAlive| ==> allAlive[j]
    ensures Reconciled(Reconciled(hs, alive, enum), allAlive, enum) == Reconciled(hs, alive, enum)
  {
    var r := Reconciled(hs, alive, enum);
    ReconciledNoDup(hs, alive, enum);
    var keep := KeepMask(r, allAlive, enum);
    forall j | 0 <= j < |r|
      ensures keep[j]
    {
      ReconciledMembership(hs, alive, enum, r[j]);
    }
    SelectAll(r, keep);
    forall x | x in enum
      ensures x in r
    {
      ReconciledMembership(hs, alive, enum, x);
    }
    ArrivalsNone(r, enum);
  }

  /**
   * The worked reconciliation: with entries for A and B and an enumeration
   * of B and C, A is dropped, B kept and C appended.
   */
  lemma ReconciledExample<H>(a: H, b: H, c: H)
    requires a != b && b != c && a != c
    ensures Reconciled([a, b], [true, true], [b, c]) == [b, c]
  {
    var keep := KeepMask([a, b], [true, true], [b, c]);
    assert keep == [false, true];
    assert SelectFrom([a, b], keep, 1) == [b];
    assert Select([a, b], keep) == [b];
    assert c !in [a, b] && b in [a, b];
    assert ArrivalsUpTo([a, b], [b, c], 1) == [];
    assert Arrivals([a, b], [b, c]) == [c];
  }
}
