/** Scroll-aware navigation highlighting: the viewport observer reports a
    batch of entries, and every entry whose section is intersecting the
    viewport overwrites the active section id, in batch order. */
module ActiveSection {

  datatype Option<T> = None | Some(value: T)

  /** One observer entry: the id of the observed section and whether it is
      intersecting the (shrunk) viewport. */
  datatype Entry = Entry(targetId: string, isIntersecting: bool)

  /** The section highlighted before any batch arrives. */
  const InitialSection: string := "home"

  /** The id of the last intersecting entry of a batch, if there is one. */
  function LastIntersecting(entries: seq<Entry>): (r: Option<string>)
    ensures r.Some? ==> exists i :: 0 <= i < |entries| && entries[i].isIntersecting && entries[i].targetId == r.value
    decreases |entries|
  {
    if entries == [] then None
    else if entries[|entries| - 1].isIntersecting then Some(entries[|entries| - 1].targetId)
    else LastIntersecting(entries[..|entries| - 1])
  }

  /** The active section after a batch, starting from `active`. */
  function Settle(active: string, entries: seq<Entry>): (r: string)
    ensures r == active || exists i :: 0 <= i < |entries| && entries[i].isIntersecting && entries[i].targetId == r
    ensures (forall i :: 0 <= i < |entries| ==> !entries[i].isIntersecting) ==> r == active
  {
    LastIntersectingNone(entries);
    match LastIntersecting(entries)
    case Some(id) => id
    case None => active
  }

  /** `LastIntersecting` finds an id exactly when it is the id of an
      intersecting entry that no later entry intersects after. */
  lemma {:induction false} LastIntersectingSome(entries: seq<Entry>, id: string)
    ensures LastIntersecting(entries) == Some(id) <==>
      exists i :: 0 <= i < |entries| && entries[i].isIntersecting && entries[i].targetId == id &&
        forall j :: i < j < |entries| ==> !entries[j].isIntersecting
    decreases |entries|
  {
    if entries != [] {
      var n := |entries| - 1;
      var init := entries[..n];
      LastIntersectingSome(init, id);
      if !entries[n].isIntersecting {
        if LastIntersecting(entries) == Some(id) {
          var i :| 0 <= i < |init| && init[i].isIntersecting && init[i].targetId == id &&
            forall j :: i < j < |init| ==> !init[j].isIntersecting;
          assert entries[i] == init[i];
          assert forall j :: i < j < |entries| ==> !entries[j].isIntersecting by {
            forall j | i < j < |entries| ensures !entries[j].isIntersecting {
              if j < n { assert entries[j] == init[j]; }
            }
          }
        } else {
          forall i | 0 <= i < |entries| && entries[i].isIntersecting && entries[i].targetId == id
            ensures exists j :: i < j < |entries| && entries[j].isIntersecting
          {
            assert i < n;
            assert init[i] == entries[i];
            var j :| i < j < |init| && init[j].isIntersecting;
            assert entries[j] == init[j];
          }
        }
      }
    }
  }

  /** `LastIntersecting` finds nothing exactly when no entry intersects. */
  lemma {:induction false} LastIntersectingNone(entries: seq<Entry>)
    ensures LastIntersecting(entries) == None <==>
      forall i :: 0 <= i < |entries| ==> !entries[i].isIntersecting
    decreases |entries|
  {
    if entries != [] {
      var n := |entries| - 1;
      LastIntersectingNone(entries[..n]);
      assert forall i :: 0 <= i < n ==> entries[..n][i] == entries[i];
    }
  }

  /** Appending one entry: an intersecting one takes over, any other
      leaves the result as it was. */
  lemma SettleSnoc(active: string, entries: seq<Entry>, e: Entry)
    ensures Settle(active, entries + [e]) == if e.isIntersecting then e.targetId else Settle(active, entries)
  {
    assert (entries + [e])[..|entries|] == entries;
  }

  /** Two batches in a row settle like one batch holding both. */
  lemma {:induction false} SettleConcat(active: string, first: seq<Entry>, second: seq<Entry>)
    ensures Settle(Settle(active, first), second) == Settle(active, first + second)
    decreases |second|
  {
    if second == [] {
      assert first + second == first;
    } else {
      var n := |second| - 1;
      var init := second[..n];
      SettleConcat(active, first, init);
      assert second == init + [second[n]];
      assert first + second == (first + init) + [second[n]];
      SettleSnoc(Settle(active, first), init, second[n]);
      SettleSnoc(active, first + init, second[n]);
    }
  }

  /** With the page's sections `home` and `about` and only `about`
      intersecting, `about` becomes active. */
  lemma OnlyAboutIntersecting()
    ensures Settle(InitialSection, [Entry("home", false), Entry("about", true)]) == "about"
  {
  }

  /** The component's `activeSection` state. */
  class Tracker {
    var activeSection: string

    constructor ()
      ensures activeSection == InitialSection
    {
      activeSection := InitialSection;
    }

    /** The observer callback: each intersecting entry of the batch, in
        order, overwrites the active section. */
    method OnEntries(entries: seq<Entry>)
      modifies this
      ensures activeSection == Settle(old(activeSection), entries)
    {
      ghost var start := activeSection;
      var i := 0;
      while i < |entries|
        invariant 0 <= i <= |entries|
        invariant activeSection == Settle(start, entries[..i])
      {
        assert entries[..i + 1] == entries[..i] + [entries[i]];
        SettleSnoc(start, entries[..i], entries[i]);
        if entries[i].isIntersecting {
          activeSection := entries[i].targetId;
        }
        i := i + 1;
      }
      assert entries[..i] == entries;
    }
  }
}
