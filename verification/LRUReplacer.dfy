/** The replacer keeps the evictable frames in three structures: a list with the latest in front, a set
    of what is in the list, and a set that only ever loses what Victim takes.  They behave as one list
    without duplicates. */
module LRUReplacers {
  import opened Common

  type FrameId = int

  function Without(s: seq<FrameId>, f: FrameId): (r: seq<FrameId>)
    ensures forall g :: g in r <==> g in s && g != f
    ensures f !in s ==> r == s
  {
    if s == [] then [] else (if s[0] == f then [] else [s[0]]) + Without(s[1..], f)
  }

  lemma {:induction false} WithoutDistinct(s: seq<FrameId>, f: FrameId)
    requires Distinct(s)
    ensures Distinct(Without(s, f))
  {
    if s != [] {
      WithoutDistinct(s[1..], f);
      assert s[0] !in s[1..];
    }
  }

  /** The operations on the one list. */
  function PutInFront(s: seq<FrameId>, f: FrameId): seq<FrameId> {
    if f in s then s else [f] + s
  }

  function Evicted(s: seq<FrameId>): seq<FrameId> {
    if s == [] then s else s[..|s| - 1]
  }

  class LRUReplacer {
    var lruList: seq<FrameId>
    /** What is in lruList. */
    var lruSet: set<FrameId>
    /** What has been unpinned since it was last taken as a victim. */
    var buffer: set<FrameId>

    ghost predicate Valid()
      reads this
    {
      Distinct(lruList) && (forall f :: f in lruSet <==> f in lruList) && lruSet <= buffer
    }

    constructor ()
      ensures Valid() && lruList == []
    {
      lruList, lruSet, buffer := [], {}, {};
    }

    /** Takes the frame at the end of the list. */
    method Victim() returns (ok: bool, frame: FrameId)
      requires Valid()
      modifies this
      ensures Valid() && lruList == Evicted(old(lruList))
      ensures ok <==> old(lruList) != []
      ensures ok ==> frame == old(lruList)[|old(lruList)| - 1] && frame !in lruList
    {
      if |lruList| == 0 {
        return false, -1;
      }
      frame := lruList[|lruList| - 1];
      ghost var s := lruList;
      lruList := lruList[..|lruList| - 1];
      lruSet := lruSet - {frame};
      buffer := buffer - {frame};
      ok := true;
      assert s == lruList + [frame];
    }

    /** Takes a frame off the list. */
    method Pin(frame: FrameId)
      requires Valid()
      modifies this
      ensures Valid() && lruList == Without(old(lruList), frame)
    {
      WithoutDistinct(lruList, frame);
      lruList := Without(lruList, frame);
      lruSet := lruSet - {frame};
    }

    /** Puts a frame in front, unless it is on the list. */
    method Unpin(frame: FrameId)
      requires Valid()
      modifies this
      ensures Valid() && lruList == PutInFront(old(lruList), frame)
    {
      if frame !in buffer {
        buffer := buffer + {frame};
        lruList := [frame] + lruList;
        lruSet := lruSet + {frame};
      } else {
        if frame !in lruSet {
          lruList := [frame] + lruList;
          lruSet := lruSet + {frame};
        }
      }
    }

    function Size(): nat
      reads this
    {
      |lruList|
    }
  }

  // ------------------------------------------------------------------ least recently

  datatype Op = Unpin(f: FrameId) | Pin(f: FrameId) | Victim

  function Apply(s: seq<FrameId>, op: Op): seq<FrameId> {
    match op
    case Unpin(f) => PutInFront(s, f)
    case Pin(f) => Without(s, f)
    case Victim => Evicted(s)
  }

  /** The list after a history of operations. */
  function After(h: seq<Op>): seq<FrameId> {
    if h == [] then [] else Apply(After(h[..|h| - 1]), h[|h| - 1])
  }

  /** When frame f was last made evictable: the operation that put it on the list. */
  function EvictableSince(h: seq<Op>, f: FrameId): int {
    if h == [] then -1
    else if f in After(h) && f !in After(h[..|h| - 1]) then |h| - 1
    else EvictableSince(h[..|h| - 1], f)
  }

  lemma {:induction false} SinceInPast(h: seq<Op>, f: FrameId)
    ensures EvictableSince(h, f) < |h|
    decreases |h|
  {
    if h != [] {
      SinceInPast(h[..|h| - 1], f);
    }
  }

  predicate LatestFirst(h: seq<Op>, s: seq<FrameId>) {
    forall i, j :: 0 <= i < j < |s| ==> EvictableSince(h, s[i]) > EvictableSince(h, s[j])
  }

  lemma {:induction false} WithoutKeepsOrder(h: seq<Op>, s: seq<FrameId>, f: FrameId)
    requires LatestFirst(h, s)
    ensures LatestFirst(h, Without(s, f))
  {
    if s != [] {
      WithoutKeepsOrder(h, s[1..], f);
      var r := Without(s[1..], f);
      forall j | 0 <= j < |r|
        ensures EvictableSince(h, s[0]) > EvictableSince(h, r[j])
      {
        assert r[j] in s[1..];
        var k :| 0 <= k < |s[1..]| && s[1..][k] == r[j];
        assert s[k + 1] == r[j];
      }
    }
  }

  /** For frames that were on the list before the last operation, that operation changes nothing. */
  lemma OrderKept(h: seq<Op>, t: seq<FrameId>)
    requires h != [] && LatestFirst(h[..|h| - 1], t)
    requires forall f :: f in t ==> f in After(h[..|h| - 1])
    ensures LatestFirst(h, t)
  {
    forall i | 0 <= i < |t|
      ensures EvictableSince(h, t[i]) == EvictableSince(h[..|h| - 1], t[i])
    {
      assert t[i] in t;
    }
  }

  lemma NewestInFront(h: seq<Op>, f: FrameId)
    requires h != [] && h[|h| - 1] == Unpin(f) && f !in After(h[..|h| - 1])
    requires LatestFirst(h, After(h[..|h| - 1]))
    ensures LatestFirst(h, [f] + After(h[..|h| - 1]))
  {
    var s := After(h[..|h| - 1]);
    forall j | 0 <= j < |s|
      ensures EvictableSince(h, f) > EvictableSince(h, s[j])
    {
      assert s[j] in s;
      SinceInPast(h[..|h| - 1], s[j]);
    }
  }

  /** The list is in the order in which the frames became evictable, latest first, so the victim is
      the frame that has been evictable for longest. */
  lemma {:induction false} VictimIsLeastRecent(h: seq<Op>)
    ensures LatestFirst(h, After(h))
    decreases |h|
  {
    if h != [] {
      var n := |h| - 1;
      var s := After(h[..n]);
      VictimIsLeastRecent(h[..n]);
      match h[n]
      case Unpin(f) =>
        OrderKept(h, s);
        if f !in s {
          NewestInFront(h, f);
        }
      case Pin(f) =>
        WithoutKeepsOrder(h[..n], s, f);
        OrderKept(h, Without(s, f));
      case Victim =>
        assert forall f :: f in Evicted(s) ==> f in s;
        OrderKept(h, Evicted(s));
    }
  }
}
