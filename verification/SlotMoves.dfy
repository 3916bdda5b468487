/** Which records change slot between two snapshots (org/diff.go). */
module SlotMoves {
  import opened Basics
  import opened ShelfSnapshot

  datatype Slot = Slot(space: string, unit: int)

  function SlotOf(p: Placement): Slot { Slot(p.space, p.unit) }

  /** Either placement of a move may be missing. */
  datatype Move = Move(start: Option<Placement>, end: Option<Placement>)

  /** The last placement of an instance id. */
  function LastOf(ps: seq<Placement>, iid: int): Option<Placement> {
    if ps == [] then None
    else if ps[|ps| - 1].iid == iid then Some(ps[|ps| - 1])
    else LastOf(ps[..|ps| - 1], iid)
  }

  /** The first placement of an instance id. */
  function FirstOf(ps: seq<Placement>, iid: int): Option<Placement> {
    if ps == [] then None
    else if FirstOf(ps[..|ps| - 1], iid).Some? then FirstOf(ps[..|ps| - 1], iid)
    else if ps[|ps| - 1].iid == iid then Some(ps[|ps| - 1])
    else None
  }

  /** A record in both snapshots whose slot differs. */
  ghost predicate Moved(start: seq<Placement>, end: seq<Placement>, iid: int) {
    && FirstOf(start, iid).Some? && LastOf(end, iid).Some?
    && SlotOf(FirstOf(start, iid).value) != SlotOf(LastOf(end, iid).value)
  }

  function Changes(start: seq<Placement>, end: seq<Placement>): seq<Move> {
    if start == [] then []
    else
      var p := start[|start| - 1];
      var e := LastOf(end, p.iid);
      Changes(start[..|start| - 1], end) +
        (if FirstOf(start[..|start| - 1], p.iid).None? && e.Some? && SlotOf(p) != SlotOf(e.value)
         then [Move(Some(p), e)] else [])
  }

  lemma {:induction false} PresentStep(ps: seq<Option<Placement>>, i: nat)
    requires i < |ps|
    ensures var before := Present(ps[..i]);
      if ps[i].None? then Present(ps[..i + 1]) == before
      else Present(ps[..i + 1]) == before + [ps[i].value] && Present(ps[..i + 1])[..|before|] == before
  {
    assert ps[..i + 1][..i] == ps[..i];
  }

  method ComputeSlotMoves(start: Option<seq<Option<Placement>>>, end: Option<seq<Option<Placement>>>)
    returns (moves: seq<Move>)
    ensures start.None? || end.None? ==> moves == []
    ensures start.Some? && end.Some? ==> moves == Changes(Present(start.value), Present(end.value))
  {
    if start.None? || end.None? { return []; }
    var s, e := start.value, end.value;
    var endMap: map<int, Placement> := map[];
    for i := 0 to |e|
      invariant forall iid :: (if iid in endMap then Some(endMap[iid]) else None) == LastOf(Present(e[..i]), iid)
    {
      PresentStep(e, i);
      if e[i].Some? {
        endMap := endMap[e[i].value.iid := e[i].value];
      }
    }
    assert e[..|e|] == e;
    moves := [];
    var seen: set<int> := {};
    for i := 0 to |s|
      invariant forall iid :: iid in seen <==> FirstOf(Present(s[..i]), iid).Some?
      invariant moves == Changes(Present(s[..i]), Present(e))
    {
      PresentStep(s, i);
      if s[i].None? { continue; }
      var p := s[i].value;
      if p.iid in seen { continue; }
      seen := seen + {p.iid};
      if p.iid in endMap {
        assert LastOf(Present(e), p.iid) == Some(endMap[p.iid]);
        if p.unit != endMap[p.iid].unit || p.space != endMap[p.iid].space {
          moves := moves + [Move(Some(p), Some(endMap[p.iid]))];
        }
      }
    }
    assert s[..|s|] == s;
  }

  /** The moves of a diff: present at both ends, one for each moved record, from its first to its last placement. */
  ghost predicate IsDiff(start: seq<Placement>, end: seq<Placement>, moves: seq<Move>) {
    && AreDiffMoves(start, end, moves)
    && (forall iid :: Moved(start, end, iid) ==> exists i :: 0 <= i < |moves| && Iid(moves[i]) == iid)
  }

  ghost predicate AreDiffMoves(start: seq<Placement>, end: seq<Placement>, moves: seq<Move>) {
    && (forall i :: 0 <= i < |moves| ==> DiffMove(start, end, moves[i]))
    && (forall i, j :: 0 <= i < j < |moves| ==> Iid(moves[i]) != Iid(moves[j]))
  }

  function Iid(m: Move): int {
    if m.start.Some? then m.start.value.iid else 0
  }

  ghost predicate DiffMove(start: seq<Placement>, end: seq<Placement>, m: Move) {
    && m.start.Some? && m.end.Some?
    && Moved(start, end, Iid(m))
    && m.start == FirstOf(start, Iid(m)) && m.end == LastOf(end, Iid(m))
  }

  lemma {:induction false} FirstOfIid(ps: seq<Placement>, iid: int)
    ensures FirstOf(ps, iid).Some? ==> FirstOf(ps, iid).value.iid == iid
  {
    if ps != [] { FirstOfIid(ps[..|ps| - 1], iid); }
  }

  lemma {:induction false} ChangesAreDiffs(start: seq<Placement>, end: seq<Placement>)
    ensures AreDiffMoves(start, end, Changes(start, end))
  {
    if start != [] {
      var init := start[..|start| - 1];
      ChangesAreDiffs(init, end);
      var before, ms := Changes(init, end), Changes(start, end);
      forall i | 0 <= i < |ms| ensures DiffMove(start, end, ms[i]) {
        if i < |before| { assert DiffMove(init, end, before[i]); }
      }
    }
  }

  lemma {:induction false} ChangesComplete(start: seq<Placement>, end: seq<Placement>, iid: int)
    requires Moved(start, end, iid)
    ensures exists i :: 0 <= i < |Changes(start, end)| && Iid(Changes(start, end)[i]) == iid
  {
    var init := start[..|start| - 1];
    FirstOfIid(start, iid);
    var ms := Changes(start, end);
    if FirstOf(init, iid).Some? {
      ChangesComplete(init, end, iid);
      var i :| 0 <= i < |Changes(init, end)| && Iid(Changes(init, end)[i]) == iid;
      assert ms[i] == Changes(init, end)[i];
    } else {
      assert Iid(ms[|ms| - 1]) == iid;
    }
  }

  /** ComputeSlotMoves is exact: one move for each record whose slot changed, and none for any other. */
  lemma {:induction false} ChangesExact(start: seq<Placement>, end: seq<Placement>)
    ensures IsDiff(start, end, Changes(start, end))
  {
    ChangesAreDiffs(start, end);
    forall iid | Moved(start, end, iid)
      ensures exists i :: 0 <= i < |Changes(start, end)| && Iid(Changes(start, end)[i]) == iid
    {
      ChangesComplete(start, end, iid);
    }
  }
}
