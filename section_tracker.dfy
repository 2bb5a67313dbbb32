/**
 * `useIntersectionObserver` (src/App.jsx:92-145): the active section, set by the observer
 * callback and by the scroll/resize fallback `computeNearest`. Geometry is given as data:
 * each section ref is a slot holding the element's id and its top, in integer pixels, and
 * the anchor (35% of the viewport height) is an input.
 */
module SectionTracker {
  import opened Wrappers

  /** A rendered section: its element id and `getBoundingClientRect().top`. */
  datatype Region = Region(id: string, top: int)

  /** A section ref: None while `ref.current` is unset. */
  type Slot = Option<Region>

  function Distance(r: Region, anchor: int): nat {
    if r.top >= anchor then r.top - anchor else anchor - r.top
  }

  /** Slot `i` is among the first `n`, is set, is nearest to the anchor among them, and strictly nearer than every earlier set slot. */
  ghost predicate IsNearestAmong(slots: seq<Slot>, anchor: int, n: nat, i: int)
    requires n <= |slots|
  {
    && 0 <= i < n
    && slots[i].Some?
    && (forall j :: 0 <= j < n && slots[j].Some? ==> Distance(slots[i].value, anchor) <= Distance(slots[j].value, anchor))
    && (forall j :: 0 <= j < i && slots[j].Some? ==> Distance(slots[i].value, anchor) < Distance(slots[j].value, anchor))
  }

  ghost predicate IsNearest(slots: seq<Slot>, anchor: int, i: int) {
    IsNearestAmong(slots, anchor, |slots|, i)
  }

  /** The winner of the first `n` slots under the loop's rule: a later slot replaces the winner only when strictly nearer. */
  function NearestUpTo(slots: seq<Slot>, anchor: int, n: nat): (r: Option<nat>)
    requires n <= |slots|
    ensures r.Some? ==> r.value < n && slots[r.value].Some?
  {
    if n == 0 then None
    else
      var prev := NearestUpTo(slots, anchor, n - 1);
      if slots[n - 1].Some? &&
         (prev.None? || Distance(slots[n - 1].value, anchor) < Distance(slots[prev.value].value, anchor))
      then Some(n - 1)
      else prev
  }

  /** The id `computeNearest` finds: that of the nearest set slot, None exactly when no slot is set. */
  function NearestId(slots: seq<Slot>, anchor: int): (r: Option<string>)
    ensures r.None? <==> forall j :: 0 <= j < |slots| ==> slots[j].None?
    ensures r.Some? ==> exists i :: IsNearest(slots, anchor, i) && slots[i].value.id == r.value
  {
    NearestUpToIsArgmin(slots, anchor, |slots|);
    match NearestUpTo(slots, anchor, |slots|)
    case None => None
    case Some(i) => Some(slots[i].value.id)
  }

  /** The loop's winner is the argmin of the distance, the earliest slot winning ties; there is none only when no slot is set. */
  lemma {:induction false} NearestUpToIsArgmin(slots: seq<Slot>, anchor: int, n: nat)
    requires n <= |slots|
    ensures NearestUpTo(slots, anchor, n).None? <==> forall j :: 0 <= j < n ==> slots[j].None?
    ensures NearestUpTo(slots, anchor, n).Some? ==> IsNearestAmong(slots, anchor, n, NearestUpTo(slots, anchor, n).value)
  {
    if n > 0 {
      NearestUpToIsArgmin(slots, anchor, n - 1);
    }
  }

  /** The tie-break makes the nearest slot unique. */
  lemma NearestIsUnique(slots: seq<Slot>, anchor: int, i: int, j: int)
    requires IsNearest(slots, anchor, i) && IsNearest(slots, anchor, j)
    ensures i == j
  {
  }

  /** The search loop of `computeNearest`: the id of the nearest set section, None when no ref is set. */
  method FindNearest(slots: seq<Slot>, anchor: int) returns (nearestId: Option<string>)
    ensures nearestId == NearestId(slots, anchor)
    ensures nearestId.None? <==> forall j :: 0 <= j < |slots| ==> slots[j].None?
    ensures nearestId.Some? ==> exists i :: IsNearest(slots, anchor, i) && slots[i].value.id == nearestId.value
  {
    nearestId := None;
    var minDist: Option<nat> := None;   // Infinity
    ghost var best: Option<nat> := None;
    for i := 0 to |slots|
      invariant best == NearestUpTo(slots, anchor, i)
      invariant nearestId == (if best.Some? then Some(slots[best.value].value.id) else None)
      invariant minDist == (if best.Some? then Some(Distance(slots[best.value].value, anchor)) else None)
    {
      if slots[i].Some? {
        var el := slots[i].value;
        var dist := Distance(el, anchor);
        if minDist.None? || dist < minDist.value {
          minDist := Some(dist);
          nearestId := Some(el.id);
          best := Some(i);
        }
      }
    }
  }

  /**
   * What `computeNearest` leaves as the active section. Its guard compares with `captured`, the
   * value the listener's closure saw when the effect ran, not with the current value.
   */
  function ScrollUpdate(slots: seq<Slot>, anchor: int, captured: string, active: string): (r: string)
    ensures (forall j :: 0 <= j < |slots| ==> slots[j].None?) ==> r == active
    ensures r == active || (r != "" && r != captured && exists i :: IsNearest(slots, anchor, i) && slots[i].value.id == r)
    ensures (NearestId(slots, anchor).Some? && NearestId(slots, anchor).value != "" &&
             NearestId(slots, anchor).value != captured) ==> r == NearestId(slots, anchor).value
  {
    var n := NearestId(slots, anchor);
    if n.Some? && n.value != "" && n.value != captured then n.value else active
  }

  /**
   * Because the listener captured "home", the scroll fallback can never make "home" active
   * again once another section is: only the observer can.
   */
  lemma ScrollNeverRestoresHome(slots: seq<Slot>, anchor: int, active: string)
    requires active != "home"
    ensures ScrollUpdate(slots, anchor, "home", active) != "home"
  {
  }

  /** An observer entry: the observed element's id and whether it crossed the threshold into view. */
  datatype Entry = Entry(targetId: string, isIntersecting: bool)

  /** The id of the last intersecting entry of a batch; None when no entry intersects. */
  function LastIntersecting(entries: seq<Entry>): (r: Option<string>)
    ensures r.None? <==> forall k :: 0 <= k < |entries| ==> !entries[k].isIntersecting
    ensures r.Some? ==> exists k :: 0 <= k < |entries| && entries[k].isIntersecting && entries[k].targetId == r.value &&
                                   forall j :: k < j < |entries| ==> !entries[j].isIntersecting
    decreases |entries|
  {
    if |entries| == 0 then None
    else if entries[|entries| - 1].isIntersecting then Some(entries[|entries| - 1].targetId)
    else LastIntersecting(entries[..|entries| - 1])
  }

  /** The hook's state: the active section and the value the effect's closure captured. */
  class Tracker {
    var activeSection: string
    const captured: string

    /** The hook starts on "home"; the effect runs once (its dependencies never change), so its closure sees "home". */
    constructor ()
      ensures activeSection == "home" && captured == "home"
    {
      activeSection := "home";
      captured := "home";
    }

    /** The observer callback: each intersecting entry sets the active section, so the last one wins. */
    method OnIntersections(entries: seq<Entry>)
      modifies this`activeSection
      ensures activeSection == match LastIntersecting(entries)
        case Some(id) => id
        case None => old(activeSection)
    {
      for i := 0 to |entries|
        invariant activeSection == match LastIntersecting(entries[..i])
          case Some(id) => id
          case None => old(activeSection)
      {
        assert entries[..i + 1][..i] == entries[..i];
        if entries[i].isIntersecting {
          activeSection := entries[i].targetId;
        }
      }
      assert entries[..|entries|] == entries;
    }

    /** `computeNearest`, run on mount and on every scroll and resize. */
    method ComputeNearest(slots: seq<Slot>, anchor: int)
      modifies this`activeSection
      ensures activeSection == ScrollUpdate(slots, anchor, captured, old(activeSection))
    {
      var nearestId := FindNearest(slots, anchor);
      if nearestId.Some? && nearestId.value != "" && nearestId.value != captured {
        activeSection := nearestId.value;
      }
    }
  }
}
