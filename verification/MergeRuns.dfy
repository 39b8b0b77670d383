/** `_merge_runs_in`: coalescing adjacent runs with identical formatting inside one
    container of a WordprocessingML document.
 */
module MergeRuns {
  import opened Basics
  import opened Wrappers
  import opened RunText

  // ---------------------------------------------------------------- values

  /** What a child of the container is worth: a run with its children, any other element,
      or a node that is not an element (text, comment, ...). */
  datatype Part = RunPart(children: seq<Child>) | OtherPart(xml: string) | FillerPart(data: string)

  function DrawPart(p: Part): seq<Drawn> {
    match p
    case RunPart(cs) => DrawRun(cs)
    case OtherPart(xml) => [Drawn(None, OutsideRun(xml))]
    case FillerPart(_) => []
  }

  /** Everything the container draws, in order. */
  function DrawParts(ps: seq<Part>): seq<Drawn> {
    if ps == [] then [] else DrawPart(ps[0]) + DrawParts(ps[1..])
  }

  function RunCount(ps: seq<Part>): nat {
    if ps == [] then 0 else (if ps[0].RunPart? then 1 else 0) + RunCount(ps[1..])
  }

  /** The children that are not runs, in order. */
  function NonRuns(ps: seq<Part>): seq<Part> {
    if ps == [] then [] else (if ps[0].RunPart? then [] else [ps[0]]) + NonRuns(ps[1..])
  }

  predicate CanMerge(a: seq<Child>, b: seq<Child>) {
    var rpr1, rpr2 := Format(a), Format(b);
    if rpr1.None? != rpr2.None? then false
    else if rpr1.None? then true
    else rpr1.value == rpr2.value
  }

  lemma {:induction false} FormatAt(cs: seq<Child>) returns (i: nat)
    ensures Format(cs).Some? ==> i < |cs| && cs[i] == RPr(Format(cs).value) && forall k: nat | k < i :: !cs[k].RPr?
  {
    i := 0;
    if cs != [] && !cs[0].RPr? {
      i := FormatAt(cs[1..]);
      i := i + 1;
      assert forall k: nat | 0 < k < |cs| :: cs[k] == cs[1..][k - 1];
    }
  }

  /** Two runs can be merged exactly when neither has an rPr, or the first rPr of each carries
      the same xml. */
  lemma CanMergeIs(a: seq<Child>, b: seq<Child>)
    ensures CanMerge(a, b)
      <==> (|| ((forall i: nat | i < |a| :: !a[i].RPr?) && (forall j: nat | j < |b| :: !b[j].RPr?))
            || (exists i: nat, j: nat ::
                  && i < |a| && a[i].RPr? && (forall k: nat | k < i :: !a[k].RPr?)
                  && j < |b| && b[j].RPr? && (forall k: nat | k < j :: !b[k].RPr?)
                  && a[i].xml == b[j].xml))
  {
    FormatIs(a);
    FormatIs(b);
    var i := FormatAt(a);
    var j := FormatAt(b);
    hide Format;
    if Format(a).Some? && Format(a) == Format(b) {
      assert a[i] == RPr(a[i].xml) && b[j] == RPr(a[i].xml);
    }
    if i: nat, j: nat :|
      && i < |a| && a[i].RPr? && (forall k: nat | k < i :: !a[k].RPr?)
      && j < |b| && b[j].RPr? && (forall k: nat | k < j :: !b[k].RPr?)
      && a[i].xml == b[j].xml
    {
      assert a[i] == RPr(a[i].xml) && b[j] == RPr(a[i].xml);
    }
  }

  predicate Moves(c: Child) {
    c.Text? || c.Item?
  }

  /** The children `_merge_run_content` moves: the elements other than rPr. */
  function Moved(cs: seq<Child>): seq<Child> {
    if cs == [] then [] else (if Moves(cs[0]) then [cs[0]] else []) + Moved(cs[1..])
  }

  function Left(cs: seq<Child>): seq<Child> {
    if cs == [] then [] else (if Moves(cs[0]) then [] else [cs[0]]) + Left(cs[1..])
  }

  /** The positions of the elements of a run that are not rPr. */
  function MovingPlaces(cs: seq<Child>): set<nat> {
    set i: nat | i < |cs| && (cs[i].Text? || cs[i].Item?)
  }

  lemma MovingPlacesSnoc(front: seq<Child>, last: Child)
    ensures MovingPlaces(front + [last]) == MovingPlaces(front) + if Moves(last) then {|front|} else {}
    ensures |MovingPlaces(front + [last])| == |MovingPlaces(front)| + if Moves(last) then 1 else 0
  {
    var all := front + [last];
    var more: set<nat> := if Moves(last) then {|front|} else {};
    assert all[|front|] == last && forall i | 0 <= i < |front| :: all[i] == front[i];
    forall i: nat ensures i in MovingPlaces(all) <==> i in MovingPlaces(front) + more {
      if i < |front| {
        assert all[i] == front[i];
      }
    }
    assert MovingPlaces(all) == MovingPlaces(front) + more;
  }

  lemma MovedSnoc(front: seq<Child>, last: Child)
    ensures Moved(front + [last]) == Moved(front) + if Moves(last) then [last] else []
  {
    MovedAppend(front, [last]);
    MovedLast(last);
  }

  lemma {:induction false} MovedCount(cs: seq<Child>)
    ensures |Moved(cs)| == |MovingPlaces(cs)|
  {
    hide MovingPlaces, Moved;
    if cs == [] {
      MovedNone();
    } else {
      var front, last := cs[..|cs| - 1], cs[|cs| - 1];
      assert cs == front + [last];
      MovedCount(front);
      MovingPlacesSnoc(front, last);
      MovedSnoc(front, last);
    }
  }

  lemma MovedNone()
    ensures Moved([]) == [] && MovingPlaces([]) == {}
  {
  }

  /** What moves: exactly the elements that are not rPr, each behind those before it. */
  lemma {:induction false} MovedAt(cs: seq<Child>, i: nat)
    requires i in MovingPlaces(cs)
    ensures i < |cs| && |MovingPlaces(cs[..i])| < |Moved(cs)| && Moved(cs)[|MovingPlaces(cs[..i])|] == cs[i]
  {
    hide Moved;
    var front, last := cs[..|cs| - 1], cs[|cs| - 1];
    assert cs == front + [last];
    MovingPlacesSnoc(front, last);
    MovedSnoc(front, last);
    MovedCount(front);
    if i < |front| {
      assert cs[..i] == front[..i];
      MovedAt(front, i);
    }
  }

  lemma MovedLast(c: Child)
    ensures Moved([c]) == if Moves(c) then [c] else []
  {
    assert [c][1..] == [];
  }

  /** The positions of the children that are not runs. */
  function OtherPlaces(ps: seq<Part>): set<nat> {
    set i: nat | i < |ps| && !ps[i].RunPart?
  }

  lemma OtherPlacesSnoc(front: seq<Part>, last: Part)
    ensures OtherPlaces(front + [last]) == OtherPlaces(front) + if !last.RunPart? then {|front|} else {}
    ensures |OtherPlaces(front + [last])| == |OtherPlaces(front)| + if !last.RunPart? then 1 else 0
  {
    var all := front + [last];
    var more: set<nat> := if !last.RunPart? then {|front|} else {};
    assert all[|front|] == last && forall i | 0 <= i < |front| :: all[i] == front[i];
    forall i: nat ensures i in OtherPlaces(all) <==> i in OtherPlaces(front) + more {
      if i < |front| {
        assert all[i] == front[i];
      }
    }
    assert OtherPlaces(all) == OtherPlaces(front) + more;
  }

  lemma NonRunsSnoc(front: seq<Part>, last: Part)
    ensures NonRuns(front + [last]) == NonRuns(front) + if !last.RunPart? then [last] else []
  {
    DrawPartsAppend(front, [last]);
    LastPart(last);
  }

  lemma {:induction false} NonRunsCount(ps: seq<Part>)
    ensures |NonRuns(ps)| == |OtherPlaces(ps)|
  {
    hide OtherPlaces, NonRuns;
    if ps == [] {
      NonRunsNone();
    } else {
      var front, last := ps[..|ps| - 1], ps[|ps| - 1];
      assert ps == front + [last];
      NonRunsCount(front);
      OtherPlacesSnoc(front, last);
      NonRunsSnoc(front, last);
    }
  }

  lemma NonRunsNone()
    ensures NonRuns([]) == [] && OtherPlaces([]) == {}
  {
  }

  /** The children that are not runs are all there, each behind those before it. */
  lemma {:induction false} NonRunsAt(ps: seq<Part>, i: nat)
    requires i in OtherPlaces(ps)
    ensures i < |ps| && |OtherPlaces(ps[..i])| < |NonRuns(ps)| && NonRuns(ps)[|OtherPlaces(ps[..i])|] == ps[i]
  {
    hide NonRuns;
    var front, last := ps[..|ps| - 1], ps[|ps| - 1];
    assert ps == front + [last];
    OtherPlacesSnoc(front, last);
    NonRunsSnoc(front, last);
    NonRunsCount(front);
    if i < |front| {
      assert ps[..i] == front[..i];
      NonRunsAt(front, i);
    }
  }

  lemma LastPart(p: Part)
    ensures NonRuns([p]) == (if p.RunPart? then [] else [p]) && RunCount([p]) == if p.RunPart? then 1 else 0
  {
    assert [p][1..] == [];
  }

  /** What each kind of child of the container draws. */
  lemma DrawOnePart(p: Part)
    ensures p.RunPart? ==> DrawParts([p]) == Draw(Format(p.children), p.children)
    ensures p.OtherPart? ==> DrawParts([p]) == [Drawn(None, OutsideRun(p.xml))]
    ensures p.FillerPart? ==> DrawParts([p]) == []
    ensures DrawParts([]) == []
  {
    hide Draw, Format;
    assert [p][1..] == [];
    Unit(DrawPart(p));
  }

  /** No element lies strictly between positions `i` and `j`. */
  predicate ElementAdjacent(ps: seq<Part>, i: nat, j: nat) {
    i < j < |ps| && forall k | i < k < j :: ps[k].FillerPart?
  }

  /** Nothing is left to merge: no two element-adjacent runs have the same formatting, and
      inside each run no two adjacent text elements of the same kind remain. */
  ghost predicate Settled(ps: seq<Part>) {
    && (forall i: nat, j: nat | ElementAdjacent(ps, i, j) && ps[i].RunPart? && ps[j].RunPart? ::
          !CanMerge(ps[i].children, ps[j].children))
    && (forall i | 0 <= i < |ps| && ps[i].RunPart? :: Tidy(ps[i].children))
  }

  ghost predicate Tidy(cs: seq<Child>) {
    NoAdjacentText(cs, T) && NoAdjacentText(cs, DelText)
  }

  // ---------------------------------------------------------------- specification

  /** Position of the first element of `ps`. */
  function FirstElement(ps: seq<Part>): Option<nat> {
    if ps == [] then None
    else if !ps[0].FillerPart? then Some(0)
    else match FirstElement(ps[1..])
      case None => None
      case Some(j) => Some(j + 1)
  }

  lemma {:induction false} FirstElementIs(ps: seq<Part>)
    ensures match FirstElement(ps)
      case Some(j) => j < |ps| && !ps[j].FillerPart? && forall k | 0 <= k < j :: ps[k].FillerPart?
      case None => forall k | 0 <= k < |ps| :: ps[k].FillerPart?
  {
    if ps != [] && ps[0].FillerPart? {
      FirstElementIs(ps[1..]);
      assert forall k | 1 <= k < |ps| :: ps[k] == ps[1..][k - 1];
    }
  }

  /** The run that the head run absorbs next, as a position in `ps`. */
  function Candidate(ps: seq<Part>): Option<nat>
    requires ps != [] && ps[0].RunPart?
  {
    FirstElementIs(ps[1..]);
    match FirstElement(ps[1..])
    case None => None
    case Some(j) =>
      if ps[1 + j].RunPart? && CanMerge(ps[0].children, ps[1 + j].children) then Some(1 + j) else None
  }

  function Absorb(ps: seq<Part>, i: nat, j: nat): seq<Part>
    requires i < j < |ps| && ps[i].RunPart? && ps[j].RunPart?
  {
    ps[..i] + [RunPart(ps[i].children + Moved(ps[j].children))] + ps[i + 1..j] + ps[j + 1..]
  }

  /** The container after the walk that starts at its first child, and the merge count. */
  function Merged(ps: seq<Part>): (seq<Part>, nat)
    decreases |ps|
  {
    if ps == [] then ([], 0)
    else if !ps[0].RunPart? then
      var (rest, n) := Merged(ps[1..]);
      ([ps[0]] + rest, n)
    else
      match Candidate(ps)
      case Some(j) =>
        FirstElementIs(ps[1..]);
        var (rest, n) := Merged(Absorb(ps, 0, j));
        (rest, n + 1)
      case None =>
        var (rest, n) := Merged(ps[1..]);
        ([RunPart(ConsolidatedRun(ps[0].children))] + rest, n)
  }

  // ---------------------------------------------------------------- step by step

  datatype Move = Absorbing(i: nat, j: nat) | Tidying(i: nat)

  /** A run absorbs the run that is next to it, if the two can be merged, or its text is
      consolidated. */
  predicate MovesTo(a: seq<Part>, m: Move, b: seq<Part>) {
    match m
    case Absorbing(i, j) =>
      && ElementAdjacent(a, i, j) && a[i].RunPart? && a[j].RunPart? && CanMerge(a[i].children, a[j].children)
      && b == a[..i] + [RunPart(a[i].children + Moved(a[j].children))] + a[i + 1..j] + a[j + 1..]
    case Tidying(i) =>
      i < |a| && a[i].RunPart? && b == a[..i] + [RunPart(ConsolidatedRun(a[i].children))] + a[i + 1..]
  }

  ghost predicate Walk(a: seq<Part>, ms: seq<Move>, b: seq<Part>)
    decreases |ms|
  {
    if ms == [] then a == b else exists mid :: MovesTo(a, ms[0], mid) && Walk(mid, ms[1..], b)
  }

  function Absorptions(ms: seq<Move>): nat {
    if ms == [] then 0 else (if ms[0].Absorbing? then 1 else 0) + Absorptions(ms[1..])
  }

  function Later(m: Move): Move {
    match m case Absorbing(i, j) => Absorbing(i + 1, j + 1) case Tidying(i) => Tidying(i + 1)
  }

  function AllLater(ms: seq<Move>): (r: seq<Move>)
    ensures |r| == |ms|
  {
    if ms == [] then [] else [Later(ms[0])] + AllLater(ms[1..])
  }

  lemma SliceUnder(p: Part, a: seq<Part>, i: nat, j: nat)
    requires i < j <= |a|
    ensures var d := [p] + a;
      d[i + 1] == a[i] && d[..i + 1] == [p] + a[..i] && d[i + 2..j + 1] == a[i + 1..j] && d[j + 1..] == a[j..]
  {
  }

  lemma AdjacentUnder(p: Part, a: seq<Part>, i: nat, j: nat)
    requires ElementAdjacent(a, i, j)
    ensures ElementAdjacent([p] + a, i + 1, j + 1)
  {
    assert forall k | i + 1 < k < j + 1 :: ([p] + a)[k] == a[k - 1];
  }

  lemma MovedUnder(p: Part, a: seq<Part>, m: Move, b: seq<Part>)
    requires MovesTo(a, m, b)
    ensures MovesTo([p] + a, Later(m), [p] + b)
  {
    hide CanMerge, Moved, ConsolidatedRun, ElementAdjacent;
    match m
    case Absorbing(i, j) =>
      AbsorbUnder(p, a, i, j, b);
    case Tidying(i) =>
      SliceUnder(p, a, i, i + 1);
      var tidy := [RunPart(ConsolidatedRun(a[i].children))];
      Associative([p], a[..i], tidy);
      Associative([p], a[..i] + tidy, a[i + 1..]);
  }

  lemma AbsorbUnder(p: Part, a: seq<Part>, i: nat, j: nat, b: seq<Part>)
    requires MovesTo(a, Absorbing(i, j), b)
    ensures MovesTo([p] + a, Absorbing(i + 1, j + 1), [p] + b)
  {
    AdjacentUnder(p, a, i, j);
    assert j < |a|;
    hide CanMerge, Moved, ConsolidatedRun, ElementAdjacent;
    SliceUnder(p, a, i, j);
    SliceUnder(p, a, j, |a|);
    var joined := [RunPart(a[i].children + Moved(a[j].children))];
    Associative([p], a[..i], joined);
    Associative([p], a[..i] + joined, a[i + 1..j]);
    Associative([p], a[..i] + joined + a[i + 1..j], a[j + 1..]);
    assert ([p] + a)[j + 2..] == a[j + 1..];
  }

  lemma {:induction false} WalkUnder(p: Part, a: seq<Part>, ms: seq<Move>, b: seq<Part>)
    requires Walk(a, ms, b)
    ensures Walk([p] + a, AllLater(ms), [p] + b) && Absorptions(AllLater(ms)) == Absorptions(ms)
    decreases |ms|
  {
    hide MovesTo;
    if ms != [] {
      var mid :| MovesTo(a, ms[0], mid) && Walk(mid, ms[1..], b);
      MovedUnder(p, a, ms[0], mid);
      WalkUnder(p, mid, ms[1..], b);
      assert AllLater(ms)[1..] == AllLater(ms[1..]);
    }
  }

  lemma WalkFrom(a: seq<Part>, m: Move, mid: seq<Part>, ms: seq<Move>, b: seq<Part>)
    requires MovesTo(a, m, mid) && Walk(mid, ms, b)
    ensures Walk(a, [m] + ms, b) && Absorptions([m] + ms) == (if m.Absorbing? then 1 else 0) + Absorptions(ms)
  {
    hide MovesTo;
    assert ([m] + ms)[1..] == ms;
  }

  /** Merging does nothing but let a run absorb the run next to it, as often as it counts, and
      consolidate the text of a run. */
  lemma {:induction false} MergedStepwise(ps: seq<Part>) returns (ms: seq<Move>)
    ensures Walk(ps, ms, Merged(ps).0) && Absorptions(ms) == Merged(ps).1
    decreases |ps|
  {
    hide MovesTo, Walk, Absorptions, CanMerge;
    if ps == [] {
      ms := [];
      NoMoves(ps);
    } else {
      assert [ps[0]] + ps[1..] == ps;
      if ps[0].RunPart? && Candidate(ps).Some? {
        var j := Candidate(ps).value;
        CandidateIs(ps);
        var next := Absorb(ps, 0, j);
        var rest := MergedStepwise(next);
        ms := [Absorbing(0, j)] + rest;
        AbsorbMoves(ps, 0, j);
        WalkFrom(ps, Absorbing(0, j), next, rest, Merged(next).0);
      } else {
        var rest := MergedStepwise(ps[1..]);
        if ps[0].RunPart? {
          var tidy := RunPart(ConsolidatedRun(ps[0].children));
          WalkUnder(tidy, ps[1..], rest, Merged(ps[1..]).0);
          TidyMoves(ps);
          ms := [Tidying(0)] + AllLater(rest);
          WalkFrom(ps, Tidying(0), [tidy] + ps[1..], AllLater(rest), Merged(ps).0);
        } else {
          ms := AllLater(rest);
          WalkUnder(ps[0], ps[1..], rest, Merged(ps[1..]).0);
        }
      }
    }
  }

  lemma NoMoves(ps: seq<Part>)
    ensures Walk(ps, [], ps) && Absorptions([]) == 0
  {
  }

  lemma AbsorbMoves(ps: seq<Part>, i: nat, j: nat)
    requires ElementAdjacent(ps, i, j) && ps[i].RunPart? && ps[j].RunPart? && CanMerge(ps[i].children, ps[j].children)
    ensures MovesTo(ps, Absorbing(i, j), Absorb(ps, i, j))
  {
  }

  lemma TidyMoves(ps: seq<Part>)
    requires ps != [] && ps[0].RunPart?
    ensures MovesTo(ps, Tidying(0), [RunPart(ConsolidatedRun(ps[0].children))] + ps[1..])
  {
    assert ps[..0] == [];
  }

  // ---------------------------------------------------------------- rendering is kept

  lemma {:induction false} DrawPartsAppend(a: seq<Part>, b: seq<Part>)
    ensures DrawParts(a + b) == DrawParts(a) + DrawParts(b)
    ensures RunCount(a + b) == RunCount(a) + RunCount(b)
    ensures NonRuns(a + b) == NonRuns(a) + NonRuns(b)
  {
    if a == [] {
      assert a + b == b;
    } else {
      DrawPartsAppend(a[1..], b);
      assert (a + b)[1..] == a[1..] + b;
      Associative(DrawPart(a[0]), DrawParts(a[1..]), DrawParts(b));
      Associative(if a[0].RunPart? then [] else [a[0]], NonRuns(a[1..]), NonRuns(b));
    }
  }

  lemma {:induction false} DrawFiller(ps: seq<Part>)
    requires forall k | 0 <= k < |ps| :: ps[k].FillerPart?
    ensures DrawParts(ps) == [] && RunCount(ps) == 0
  {
    if ps != [] {
      assert ps[0].FillerPart?;
      DrawFiller(ps[1..]);
    }
  }

  lemma {:induction false} MovedDraws(format: Option<string>, cs: seq<Child>)
    ensures Draw(format, Moved(cs)) == Draw(format, cs) && Format(Moved(cs)) == None
  {
    if cs != [] {
      MovedDraws(format, cs[1..]);
      if Moves(cs[0]) {
        DrawHead(format, cs[0], Moved(cs[1..]));
        assert ([cs[0]] + Moved(cs[1..]))[1..] == Moved(cs[1..]);
      } else {
        assert [] + Moved(cs[1..]) == Moved(cs[1..]);
        assert [] + Draw(format, cs[1..]) == Draw(format, cs[1..]);
      }
    }
  }

  /** A run that takes over the content of a run of equal format draws both, in order. */
  lemma JoinedRunDraws(a: seq<Child>, b: seq<Child>)
    requires CanMerge(a, b)
    ensures DrawRun(a + Moved(b)) == DrawRun(a) + DrawRun(b) && Format(a + Moved(b)) == Format(a)
  {
    MovedDraws(Format(a), b);
    FormatAppend(a, Moved(b));
    DrawAppend(Format(a), a, Moved(b));
  }

  lemma DrawPartsHead(p: Part, ps: seq<Part>)
    ensures DrawParts([p] + ps) == DrawPart(p) + DrawParts(ps)
    ensures RunCount([p] + ps) == (if p.RunPart? then 1 else 0) + RunCount(ps)
    ensures NonRuns([p] + ps) == (if p.RunPart? then [] else [p]) + NonRuns(ps)
  {
    assert ([p] + ps)[1..] == ps;
  }

  lemma AbsorbDraws(head: Part, gap: seq<Part>, next: Part, tail: seq<Part>)
    requires head.RunPart? && next.RunPart? && CanMerge(head.children, next.children)
    requires forall k | 0 <= k < |gap| :: gap[k].FillerPart?
    ensures var joined := RunPart(head.children + Moved(next.children));
      && DrawParts([joined] + (gap + tail)) == DrawParts([head] + (gap + ([next] + tail)))
      && RunCount([joined] + (gap + tail)) + 1 == RunCount([head] + (gap + ([next] + tail)))
      && NonRuns([joined] + (gap + tail)) == NonRuns([head] + (gap + ([next] + tail)))
  {
    var joined := RunPart(head.children + Moved(next.children));
    JoinedRunDraws(head.children, next.children);
    DrawFiller(gap);
    DrawPartsHead(joined, gap + tail);
    DrawPartsHead(head, gap + ([next] + tail));
    DrawPartsHead(next, tail);
    DrawPartsAppend(gap, tail);
    DrawPartsAppend(gap, [next] + tail);
    assert [] + NonRuns(tail) == NonRuns(tail);
    assert [] + DrawParts(tail) == DrawParts(tail);
    assert [] + DrawParts([next] + tail) == DrawParts([next] + tail);
    Associative(DrawPart(head), DrawPart(next), DrawParts(tail));
  }

  lemma CandidateIs(ps: seq<Part>)
    requires ps != [] && ps[0].RunPart? && Candidate(ps).Some?
    ensures var j := Candidate(ps).value;
      && ElementAdjacent(ps, 0, j) && ps[j].RunPart? && CanMerge(ps[0].children, ps[j].children)
      && forall k | 0 <= k < |ps[1..j]| :: ps[1..j][k].FillerPart?
  {
    FirstElementIs(ps[1..]);
    var j := Candidate(ps).value;
    assert forall k | 0 <= k < |ps[1..j]| :: ps[1..j][k] == ps[1..][k];
    assert forall k | 0 < k < j :: ps[k] == ps[1..][k - 1];
  }

  lemma AbsorbAtHead(ps: seq<Part>, j: nat)
    requires 0 < j < |ps| && ps[0].RunPart? && ps[j].RunPart?
    ensures ps == [ps[0]] + (ps[1..j] + ([ps[j]] + ps[j + 1..]))
    ensures Absorb(ps, 0, j)
         == [RunPart(ps[0].children + Moved(ps[j].children))] + (ps[1..j] + ps[j + 1..])
  {
    var joined := [RunPart(ps[0].children + Moved(ps[j].children))];
    SplitAt(ps, j);
    assert ps[..0] + joined == joined;
    Associative(joined, ps[1..j], ps[j + 1..]);
  }

  lemma CandidateSplit(ps: seq<Part>)
    requires ps != [] && ps[0].RunPart? && Candidate(ps).Some?
    ensures var j := Candidate(ps).value;
      && ElementAdjacent(ps, 0, j) && ps[j].RunPart? && CanMerge(ps[0].children, ps[j].children)
      && (forall k | 0 <= k < |ps[1..j]| :: ps[1..j][k].FillerPart?)
      && ps == [ps[0]] + (ps[1..j] + ([ps[j]] + ps[j + 1..]))
      && Absorb(ps, 0, j)
         == [RunPart(ps[0].children + Moved(ps[j].children))] + (ps[1..j] + ps[j + 1..])
  {
    CandidateIs(ps);
    AbsorbAtHead(ps, Candidate(ps).value);
  }

  lemma SplitAt<X>(s: seq<X>, j: nat)
    requires 0 < j < |s|
    ensures s == [s[0]] + (s[1..j] + ([s[j]] + s[j + 1..]))
  {
  }

  /** The main law: merging changes nothing that is drawn, loses no run but the ones it
      counts, and keeps every other child of the container, in order. */
  lemma {:induction false} MergedKeepsDrawing(ps: seq<Part>)
    ensures DrawParts(Merged(ps).0) == DrawParts(ps)
    ensures RunCount(Merged(ps).0) + Merged(ps).1 == RunCount(ps)
    ensures NonRuns(Merged(ps).0) == NonRuns(ps)
    decreases |ps|
  {
    if ps == [] {
    } else if ps[0].RunPart? && Candidate(ps).Some? {
      CandidateSplit(ps);
      var j := Candidate(ps).value;
      AbsorbDraws(ps[0], ps[1..j], ps[j], ps[j + 1..]);
      MergedKeepsDrawing(Absorb(ps, 0, j));
    } else {
      MergedKeepsDrawing(ps[1..]);
      var rest := Merged(ps[1..]).0;
      if ps[0].RunPart? {
        ConsolidatedRunKeepsDrawing(ps[0].children);
        DrawPartsHead(RunPart(ConsolidatedRun(ps[0].children)), rest);
      } else {
        DrawPartsHead(ps[0], rest);
      }
    }
  }

  // ---------------------------------------------------------------- normal form

  /** `Settled`, by recursion on the child list. */
  ghost predicate SettledFrom(ps: seq<Part>) {
    ps == [] || (SettledFrom(ps[1..]) && (ps[0].RunPart? ==> Tidy(ps[0].children) && Candidate(ps).None?))
  }

  lemma {:induction false} SettledIs(ps: seq<Part>)
    ensures SettledFrom(ps) <==> Settled(ps)
  {
    if ps != [] {
      var rest := ps[1..];
      SettledIs(rest);
      FirstElementIs(rest);
      assert forall k | 0 <= k < |rest| :: rest[k] == ps[k + 1];
      if SettledFrom(ps) {
        SettledHead(ps);
      }
      if Settled(ps) {
        SettledTail(ps);
        if ps[0].RunPart? && Candidate(ps).Some? {
          CandidateSplit(ps);
        }
      }
    }
  }

  lemma SettledTail(ps: seq<Part>)
    requires ps != [] && Settled(ps)
    ensures Settled(ps[1..])
  {
    var rest := ps[1..];
    assert forall k | 0 <= k < |rest| :: rest[k] == ps[k + 1];
    forall i: nat, j: nat | ElementAdjacent(rest, i, j) && rest[i].RunPart? && rest[j].RunPart?
      ensures !CanMerge(rest[i].children, rest[j].children)
    {
      assert forall k | i + 1 < k < j + 1 :: ps[k] == rest[k - 1];
      assert ElementAdjacent(ps, i + 1, j + 1);
    }
  }

  lemma SettledHead(ps: seq<Part>)
    requires ps != [] && Settled(ps[1..])
    requires ps[0].RunPart? ==> Tidy(ps[0].children) && Candidate(ps).None?
    ensures Settled(ps)
  {
    var rest := ps[1..];
    assert forall k | 0 <= k < |rest| :: rest[k] == ps[k + 1];
    forall i: nat, j: nat | ElementAdjacent(ps, i, j) && ps[i].RunPart? && ps[j].RunPart?
      ensures !CanMerge(ps[i].children, ps[j].children)
    {
      if i > 0 {
        assert forall k | i - 1 < k < j - 1 :: rest[k] == ps[k + 1];
        assert ElementAdjacent(rest, i - 1, j - 1);
        assert rest[i - 1] == ps[i] && rest[j - 1] == ps[j];
      } else {
        FirstElementIs(rest);
        assert !rest[j - 1].FillerPart?;
        assert FirstElement(rest) == Some(j - 1);
      }
    }
    forall i | 0 <= i < |ps| && ps[i].RunPart? ensures Tidy(ps[i].children) {
      if i > 0 {
        assert rest[i - 1] == ps[i];
      }
    }
  }

  /** The first element of a container, as far as a preceding run can tell. */
  datatype Front = Nothing | Element | RunOf(format: Option<string>)

  function FrontOf(ps: seq<Part>): Front {
    if ps == [] then Nothing
    else match ps[0]
      case FillerPart(_) => FrontOf(ps[1..])
      case OtherPart(_) => Element
      case RunPart(cs) => RunOf(Format(cs))
  }

  lemma {:induction false} FrontIs(ps: seq<Part>)
    ensures match FirstElement(ps)
      case None => FrontOf(ps) == Nothing
      case Some(j) => j < |ps| && FrontOf(ps) == if ps[j].RunPart? then RunOf(Format(ps[j].children)) else Element
  {
    if ps != [] && ps[0].FillerPart? {
      FrontIs(ps[1..]);
    }
  }

  lemma CandidateByFront(p: Part, ps: seq<Part>)
    requires p.RunPart?
    ensures Candidate([p] + ps).Some? <==> FrontOf(ps) == RunOf(Format(p.children))
  {
    assert ([p] + ps)[1..] == ps;
    FrontIs(ps);
    FirstElementIs(ps);
  }

  lemma {:induction false} MergedFront(ps: seq<Part>)
    ensures FrontOf(Merged(ps).0) == FrontOf(ps)
    decreases |ps|
  {
    if ps == [] {
    } else if ps[0].RunPart? && Candidate(ps).Some? {
      CandidateSplit(ps);
      var j := Candidate(ps).value;
      JoinedRunDraws(ps[0].children, ps[j].children);
      MergedFront(Absorb(ps, 0, j));
    } else {
      MergedFront(ps[1..]);
      if ps[0].RunPart? {
        ConsolidatedRunKeepsDrawing(ps[0].children);
      }
      var m := Merged(ps).0;
      assert m[1..] == Merged(ps[1..]).0;
    }
  }

  lemma {:induction false} MergedSettled(ps: seq<Part>)
    ensures SettledFrom(Merged(ps).0)
    decreases |ps|
  {
    if ps == [] {
    } else if ps[0].RunPart? && Candidate(ps).Some? {
      CandidateSplit(ps);
      MergedSettled(Absorb(ps, 0, Candidate(ps).value));
    } else {
      MergedSettled(ps[1..]);
      var rest := Merged(ps[1..]).0;
      if ps[0].RunPart? {
        var p := RunPart(ConsolidatedRun(ps[0].children));
        ConsolidatedRunNormal(ps[0].children);
        ConsolidatedRunKeepsDrawing(ps[0].children);
        MergedFront(ps[1..]);
        CandidateByFront(p, rest);
        assert ps == [ps[0]] + ps[1..];
        CandidateByFront(ps[0], ps[1..]);
        assert ([p] + rest)[1..] == rest;
      } else {
        assert ([ps[0]] + rest)[1..] == rest;
      }
    }
  }

  lemma {:induction false} MergedFixed(ps: seq<Part>)
    requires SettledFrom(ps)
    ensures Merged(ps) == (ps, 0)
    decreases |ps|
  {
    if ps != [] {
      MergedFixed(ps[1..]);
      assert ps == [ps[0]] + ps[1..];
      if ps[0].RunPart? {
        ConsolidatedRunNormal(ps[0].children);
      }
    }
  }

  /** After one pass nothing mergeable is left, and a second pass merges nothing and changes
      nothing. */
  lemma MergeIsIdempotent(ps: seq<Part>)
    ensures Settled(Merged(ps).0)
    ensures Merged(Merged(ps).0) == (Merged(ps).0, 0)
  {
    MergedSettled(ps);
    MergedFixed(Merged(ps).0);
    SettledIs(Merged(ps).0);
  }

  /** A pass changes nothing exactly when there was nothing to do. */
  lemma MergeIsNoOpExactlyWhenSettled(ps: seq<Part>)
    ensures Merged(ps).0 == ps <==> Settled(ps)
  {
    SettledIs(ps);
    MergedSettled(ps);
    if Settled(ps) {
      MergedFixed(ps);
    }
  }

  // ---------------------------------------------------------------- the in-place algorithm

  /** One DOM child of the container. */
  datatype Node = RunNode(run: Run) | OtherNode(xml: string) | FillerNode(data: string)

  function Runs(ns: seq<Node>): set<Run> {
    set n <- ns | n.RunNode? :: n.run
  }

  /** The tree property of the DOM: no run occurs at two places. */
  ghost predicate Distinct(ns: seq<Node>) {
    forall i, j | 0 <= i < j < |ns| && ns[i].RunNode? && ns[j].RunNode? :: ns[i].run != ns[j].run
  }

  ghost function ViewOf(n: Node): Part
    reads if n.RunNode? then {n.run} else {}
  {
    match n
    case RunNode(r) => RunPart(r.children)
    case OtherNode(xml) => OtherPart(xml)
    case FillerNode(data) => FillerPart(data)
  }

  ghost function View(ns: seq<Node>): (ps: seq<Part>)
    reads Runs(ns)
    ensures |ps| == |ns|
  {
    if ns == [] then []
    else
      assert Runs(ns[1..]) <= Runs(ns);
      [ViewOf(ns[0])] + View(ns[1..])
  }

  lemma {:induction false} ViewAt(ns: seq<Node>, k: nat)
    requires k < |ns|
    ensures View(ns)[k] == ViewOf(ns[k])
  {
    if k > 0 {
      ViewAt(ns[1..], k - 1);
    }
  }

  lemma ViewKinds(ns: seq<Node>)
    ensures forall k | 0 <= k < |ns| :: (View(ns)[k].RunPart? <==> ns[k].RunNode?)
    ensures forall k | 0 <= k < |ns| :: (View(ns)[k].FillerPart? <==> ns[k].FillerNode?)
  {
    forall k | 0 <= k < |ns| ensures View(ns)[k] == ViewOf(ns[k]) {
      ViewAt(ns, k);
    }
  }

  lemma ViewRemoved(ns: seq<Node>, j: nat)
    requires j < |ns| && Distinct(ns)
    ensures var rest := ns[..j] + ns[j + 1..];
      Distinct(rest) && Runs(rest) <= Runs(ns) && View(rest) == View(ns)[..j] + View(ns)[j + 1..]
  {
    var rest := ns[..j] + ns[j + 1..];
    forall k | 0 <= k < |rest| ensures rest[k] == ns[if k < j then k else k + 1] {}
    forall k | 0 <= k < |rest| ensures View(rest)[k] == (View(ns)[..j] + View(ns)[j + 1..])[k] {
      ViewAt(rest, k);
      ViewAt(ns, if k < j then k else k + 1);
    }
  }

  lemma {:induction false} NoRunsMerged(a: seq<Part>, b: seq<Part>)
    requires forall k | 0 <= k < |a| :: !a[k].RunPart?
    ensures Merged(a + b) == (a + Merged(b).0, Merged(b).1)
  {
    if a == [] {
      assert a + b == b && a + Merged(b).0 == Merged(b).0;
    } else {
      NoRunsMerged(a[1..], b);
      assert (a + b)[1..] == a[1..] + b;
      assert (a + b)[0] == a[0];
      Associative([a[0]], a[1..], Merged(b).0);
      assert [a[0]] + a[1..] == a;
    }
  }

  /** What the container will be once the walk standing at position `i` has finished. */
  ghost function Outcome(ps: seq<Part>, i: nat): seq<Part>
    requires i <= |ps|
  {
    ps[..i] + Merged(ps[i..]).0
  }

  /** How many runs the walk standing at position `i` still merges. */
  ghost function StillMerges(ps: seq<Part>, i: nat): nat
    requires i <= |ps|
  {
    Merged(ps[i..]).1
  }

  lemma OutcomeEnds(ps: seq<Part>)
    ensures Outcome(ps, 0) == Merged(ps).0 && StillMerges(ps, 0) == Merged(ps).1
    ensures Outcome(ps, |ps|) == ps && StillMerges(ps, |ps|) == 0
  {
    assert ps[0..] == ps;
  }

  /** The walk steps over children that are not runs. */
  lemma OutcomeSkips(ps: seq<Part>, i: nat, k: nat)
    requires i <= k <= |ps| && forall l | i <= l < k :: !ps[l].RunPart?
    ensures Outcome(ps, k) == Outcome(ps, i) && StillMerges(ps, k) == StillMerges(ps, i)
  {
    assert ps[i..] == ps[i..k] + ps[k..];
    NoRunsMerged(ps[i..k], ps[k..]);
    Associative(ps[..i], ps[i..k], Merged(ps[k..]).0);
    assert ps[..i] + ps[i..k] == ps[..k];
  }

  lemma AbsorbSuffix(ps: seq<Part>, i: nat, j: nat)
    requires i < j < |ps| && ps[i].RunPart? && ps[j].RunPart?
    ensures Absorb(ps, i, j)[..i] == ps[..i]
    ensures Absorb(ps, i, j)[i..] == Absorb(ps[i..], 0, j - i)
  {
    var joined := [RunPart(ps[i].children + Moved(ps[j].children))];
    var tail := ps[i..];
    assert tail[1..j - i] == ps[i + 1..j] && tail[j - i + 1..] == ps[j + 1..] && tail[..0] == [];
    assert Absorb(ps, i, j)[i..] == joined + ps[i + 1..j] + ps[j + 1..];
  }

  lemma CandidateAt(ps: seq<Part>, i: nat, j: nat)
    requires i < j <= |ps| && ps[i].RunPart? && forall k | i < k < j :: ps[k].FillerPart?
    requires j < |ps| ==> !ps[j].FillerPart?
    ensures Candidate(ps[i..])
         == if j < |ps| && ps[j].RunPart? && CanMerge(ps[i].children, ps[j].children) then Some(j - i) else None
  {
    var rest := ps[i..][1..];
    FirstElementIs(rest);
    assert forall k | 0 <= k < |rest| :: rest[k] == ps[i + 1 + k];
    if j < |ps| {
      assert !rest[j - i - 1].FillerPart?;
      assert FirstElement(rest) == Some(j - i - 1);
    } else {
      assert FirstElement(rest) == None;
    }
  }

  /** The run at `i` absorbs the run at `j`. */
  lemma OutcomeAbsorbs(ps: seq<Part>, i: nat, j: nat)
    requires ElementAdjacent(ps, i, j) && ps[i].RunPart? && ps[j].RunPart?
    requires CanMerge(ps[i].children, ps[j].children)
    ensures Outcome(Absorb(ps, i, j), i) == Outcome(ps, i)
    ensures StillMerges(Absorb(ps, i, j), i) + 1 == StillMerges(ps, i)
  {
    CandidateAt(ps, i, j);
    AbsorbSuffix(ps, i, j);
  }

  /** No run can be absorbed at `i`: its text is consolidated and the walk moves on. */
  lemma OutcomeTidies(ps: seq<Part>, i: nat, j: nat)
    requires i < j <= |ps| && ps[i].RunPart? && forall k | i < k < j :: ps[k].FillerPart?
    requires j < |ps| ==> ps[j].OtherPart? || (ps[j].RunPart? && !CanMerge(ps[i].children, ps[j].children))
    ensures var next := ps[i := RunPart(ConsolidatedRun(ps[i].children))];
      Outcome(next, i + 1) == Outcome(ps, i) && StillMerges(next, i + 1) == StillMerges(ps, i)
  {
    CandidateAt(ps, i, j);
    var p := RunPart(ConsolidatedRun(ps[i].children));
    var next := ps[i := p];
    assert next[i + 1..] == ps[i..][1..];
    assert next[..i + 1] == ps[..i] + [p];
    Associative(ps[..i], [p], Merged(ps[i + 1..]).0);
  }

  ghost function Joined(ps: seq<Part>, i: nat, j: nat): seq<Part>
    requires i < j < |ps| && ps[i].RunPart? && ps[j].RunPart?
  {
    ps[i := RunPart(ps[i].children + Moved(ps[j].children))][j := RunPart(Left(ps[j].children))]
  }

  lemma JoinedAbsorbs(ps: seq<Part>, i: nat, j: nat)
    requires i < j < |ps| && ps[i].RunPart? && ps[j].RunPart?
    ensures Joined(ps, i, j)[..j] + Joined(ps, i, j)[j + 1..] == Absorb(ps, i, j)
  {
  }

  lemma {:induction false} MovedAppend(a: seq<Child>, b: seq<Child>)
    ensures Moved(a + b) == Moved(a) + Moved(b) && Left(a + b) == Left(a) + Left(b)
  {
    if a == [] {
      assert a + b == b;
    } else {
      MovedAppend(a[1..], b);
      assert (a + b)[1..] == a[1..] + b;
      Associative(if Moves(a[0]) then [a[0]] else [], Moved(a[1..]), Moved(b));
      Associative(if Moves(a[0]) then [] else [a[0]], Left(a[1..]), Left(b));
    }
  }

  lemma MovedStep(cs: seq<Child>, k: nat)
    requires k < |cs|
    ensures Moved(cs[..k + 1]) == Moved(cs[..k]) + if Moves(cs[k]) then [cs[k]] else []
    ensures Left(cs[..k + 1]) == Left(cs[..k]) + if Moves(cs[k]) then [] else [cs[k]]
  {
    MovedAppend(cs[..k], [cs[k]]);
    assert cs[..k + 1] == cs[..k] + [cs[k]];
  }

  /** Target and source after the first `k` children `cs` of the source have been looked at
      and `kept` of them were left behind. */
  ghost predicate Copied(t0: seq<Child>, cs: seq<Child>, k: nat, kept: nat, t: seq<Child>, s: seq<Child>) {
    && k <= |cs| && kept == |Left(cs[..k])|
    && t == t0 + Moved(cs[..k])
    && s == Left(cs[..k]) + cs[k..]
  }

  lemma CopiedStep(t0: seq<Child>, cs: seq<Child>, k: nat, kept: nat, t: seq<Child>, s: seq<Child>)
    requires Copied(t0, cs, k, kept, t, s) && k < |cs|
    ensures kept < |s|
    ensures if Moves(cs[k]) then Copied(t0, cs, k + 1, kept, t + [s[kept]], s[..kept] + s[kept + 1..])
            else Copied(t0, cs, k + 1, kept + 1, t, s)
  {
    MovedStep(cs, k);
    assert s[kept] == cs[k];
    if Moves(cs[k]) {
      Associative(t0, Moved(cs[..k]), [cs[k]]);
      assert s[..kept] + s[kept + 1..] == Left(cs[..k]) + cs[k + 1..];
    } else {
      assert s == Left(cs[..k]) + [cs[k]] + cs[k + 1..];
    }
  }

  lemma CopiedEnds(t0: seq<Child>, cs: seq<Child>)
    ensures Copied(t0, cs, 0, 0, t0, cs)
    ensures forall kept: nat, t, s | Copied(t0, cs, |cs|, kept, t, s) :: t == t0 + Moved(cs) && s == Left(cs)
  {
    assert cs[..|cs|] == cs;
  }

  /** `target.appendChild(child)`: the child leaves its old parent. */
  method MoveChild(target: Run, source: Run, at: nat)
    requires target != source && at < |source.children|
    modifies target, source
    ensures target.children == old(target.children) + [old(source.children)[at]]
    ensures source.children == old(source.children)[..at] + old(source.children)[at + 1..]
  {
    target.children := target.children + [source.children[at]];
    source.children := source.children[..at] + source.children[at + 1..];
  }

  /** `_merge_run_content`: move every element but rPr to the end of `target`. */
  method MergeRunContent(target: Run, source: Run)
    requires target != source
    modifies target, source
    ensures target.children == old(target.children) + Moved(old(source.children))
    ensures source.children == Left(old(source.children))
  {
    var cs := source.children;
    ghost var t0 := target.children;
    var kept := 0;
    var k := 0;
    CopiedEnds(t0, cs);
    while k < |cs|
      invariant k <= |cs| && Copied(t0, cs, k, kept, target.children, source.children)
    {
      CopiedStep(t0, cs, k, kept, target.children, source.children);
      if Moves(cs[k]) {
        MoveChild(target, source, kept);
      } else {
        kept := kept + 1;
      }
      k := k + 1;
    }
  }

  // The steps of the walk, stated on the nodes the container holds.

  lemma NodesSkip(ns: seq<Node>, i: nat, k: nat)
    requires i <= k <= |ns| && forall l | i <= l < k :: !ns[l].RunNode?
    ensures Outcome(View(ns), k) == Outcome(View(ns), i) && StillMerges(View(ns), k) == StillMerges(View(ns), i)
  {
    ViewKinds(ns);
    OutcomeSkips(View(ns), i, k);
  }

  lemma NodesAbsorb(ns: seq<Node>, i: nat, j: nat)
    requires i < j < |ns| && ns[i].RunNode? && ns[j].RunNode? && forall k | i < k < j :: ns[k].FillerNode?
    requires CanMerge(ns[i].run.children, ns[j].run.children)
    ensures View(ns)[i].RunPart? && View(ns)[j].RunPart?
    ensures Outcome(Absorb(View(ns), i, j), i) == Outcome(View(ns), i)
    ensures StillMerges(Absorb(View(ns), i, j), i) + 1 == StillMerges(View(ns), i)
  {
    ViewKinds(ns);
    ViewAt(ns, i);
    ViewAt(ns, j);
    OutcomeAbsorbs(View(ns), i, j);
  }

  lemma NodesTidy(ns: seq<Node>, i: nat, j: nat)
    requires i < j <= |ns| && ns[i].RunNode? && forall k | i < k < j :: ns[k].FillerNode?
    requires j < |ns| ==> !ns[j].FillerNode?
    requires j < |ns| && ns[j].RunNode? ==> !CanMerge(ns[i].run.children, ns[j].run.children)
    ensures View(ns)[i].RunPart?
    ensures var next := View(ns)[i := RunPart(ConsolidatedRun(View(ns)[i].children))];
      Outcome(next, i + 1) == Outcome(View(ns), i) && StillMerges(next, i + 1) == StillMerges(View(ns), i)
  {
    ViewKinds(ns);
    ViewAt(ns, i);
    if j < |ns| {
      ViewAt(ns, j);
    }
    OutcomeTidies(View(ns), i, j);
  }

  class Container {
    var nodes: seq<Node>

    ghost predicate Valid()
      reads this
    {
      Distinct(nodes)
    }

    ghost function Contents(): seq<Part>
      reads this, Runs(nodes)
    {
      View(nodes)
    }

    /** The first position at or after `from` that holds an element, or the end. */
    method NextElement(from: nat) returns (j: nat)
      requires from <= |nodes|
      ensures from <= j <= |nodes| && (j < |nodes| ==> !nodes[j].FillerNode?)
      ensures forall k | from <= k < j :: nodes[k].FillerNode?
    {
      j := from;
      while j < |nodes| && nodes[j].FillerNode?
        invariant from <= j <= |nodes|
        invariant forall k | from <= k < j :: nodes[k].FillerNode?
      {
        j := j + 1;
      }
    }

    /** The first position at or after `from` that holds a run, or the end. */
    method NextRun(from: nat) returns (j: nat)
      requires from <= |nodes|
      ensures from <= j <= |nodes| && (j < |nodes| ==> nodes[j].RunNode?)
      ensures forall k | from <= k < j :: !nodes[k].RunNode?
    {
      j := from;
      while j < |nodes| && !nodes[j].RunNode?
        invariant from <= j <= |nodes|
        invariant forall k | from <= k < j :: !nodes[k].RunNode?
      {
        j := j + 1;
      }
    }

    /** Move the content of the run at `j` into the run at `i`. */
    method JoinRuns(i: nat, j: nat)
      requires Valid() && i < j < |nodes| && nodes[i].RunNode? && nodes[j].RunNode?
      modifies Runs(nodes)
      ensures Contents()[i].RunPart? && Contents()[j].RunPart?
      ensures old(Contents())[i].RunPart? && old(Contents())[j].RunPart?
      ensures Contents() == Joined(old(Contents()), i, j)
    {
      ghost var before := Contents();
      ViewAt(nodes, i);
      ViewAt(nodes, j);
      forall k | 0 <= k < |nodes| ensures before[k] == ViewOf(nodes[k]) {
        ViewAt(nodes, k);
      }
      MergeRunContent(nodes[i].run, nodes[j].run);
      forall k | 0 <= k < |nodes| ensures Contents()[k] == Joined(before, i, j)[k] {
        ViewAt(nodes, k);
      }
    }

    /** ... and drop the emptied run. */
    method AbsorbRun(i: nat, j: nat)
      requires Valid() && i < j < |nodes| && nodes[i].RunNode? && nodes[j].RunNode?
      modifies this, Runs(nodes)
      ensures Valid() && Runs(nodes) <= old(Runs(nodes)) && |nodes| == |old(nodes)| - 1
      ensures old(Contents())[i].RunPart? && old(Contents())[j].RunPart?
      ensures Contents() == Absorb(old(Contents()), i, j) && nodes[i] == old(nodes[i])
    {
      ghost var before := Contents();
      JoinRuns(i, j);
      ViewRemoved(nodes, j);
      JoinedAbsorbs(before, i, j);
      nodes := nodes[..j] + nodes[j + 1..];
    }

    /** `_consolidate_text` on the run at `i`. */
    method TidyRun(i: nat)
      requires Valid() && i < |nodes| && nodes[i].RunNode?
      modifies nodes[i].run
      ensures old(Contents())[i].RunPart?
      ensures Contents() == old(Contents())[i := RunPart(ConsolidatedRun(old(Contents())[i].children))]
    {
      ghost var before := Contents();
      forall k | 0 <= k < |nodes| ensures before[k] == ViewOf(nodes[k]) {
        ViewAt(nodes, k);
      }
      nodes[i].run.ConsolidateText();
      forall k | 0 <= k < |nodes|
        ensures Contents()[k] == before[i := RunPart(ConsolidatedRun(before[i].children))][k]
      {
        ViewAt(nodes, k);
        assert k != i && nodes[k].RunNode? ==> nodes[k].run != nodes[i].run;
      }
    }

    /** The walk that stands at position `i` and has merged `merged` runs since the container
        held `ps` with the walk at `from` is on its way to the same outcome. */
    ghost predicate OnTheWay(ps: seq<Part>, from: nat, i: nat, merged: nat)
      reads this, Runs(nodes)
      requires from <= |ps| && i <= |nodes|
    {
      && Outcome(Contents(), i) == Outcome(ps, from)
      && StillMerges(Contents(), i) + merged == StillMerges(ps, from)
    }

    /** The inner loop: the run at `i` absorbs the runs that follow it for as long as the
        next element is a run of equal formatting, then consolidates its text. */
    method MergeFollowing(i: nat) returns (merged: nat)
      requires Valid() && i < |nodes| && nodes[i].RunNode?
      modifies this, Runs(nodes)
      ensures Valid() && Runs(nodes) <= old(Runs(nodes)) && i < |nodes| <= |old(nodes)|
      ensures OnTheWay(old(Contents()), i, i + 1, merged)
    {
      ghost var before := Contents();
      merged := 0;
      var next := NextElement(i + 1);
      while next < |nodes| && nodes[next].RunNode? && CanMerge(nodes[i].run.children, nodes[next].run.children)
        invariant Valid() && Runs(nodes) <= old(Runs(nodes)) && |nodes| <= |old(nodes)|
        invariant i < next <= |nodes| && nodes[i].RunNode? && (next < |nodes| ==> !nodes[next].FillerNode?)
        invariant forall k | i < k < next :: nodes[k].FillerNode?
        invariant OnTheWay(before, i, i, merged)
        decreases |nodes|
      {
        NodesAbsorb(nodes, i, next);
        AbsorbRun(i, next);
        merged := merged + 1;
        next := NextElement(i + 1);
      }
      NodesTidy(nodes, i, next);
      TidyRun(i);
    }

    /** The next run at or after `from`, where the walk continues. */
    method Advance(from: nat) returns (run: nat)
      requires from <= |nodes|
      ensures from <= run <= |nodes| && (run < |nodes| ==> nodes[run].RunNode?)
      ensures OnTheWay(Contents(), from, run, 0)
    {
      run := NextRun(from);
      NodesSkip(nodes, from, run);
    }

    /** `_merge_runs_in`.  The drawing is unchanged, the other children of the container stay
        in place, every lost run is counted, nothing mergeable is left, and merging once more
        would change nothing. */
    method MergeRunsIn() returns (mergeCount: nat)
      requires Valid()
      modifies this, Runs(nodes)
      ensures Valid()
      ensures Contents() == Merged(old(Contents())).0 && mergeCount == Merged(old(Contents())).1
      ensures DrawParts(Contents()) == DrawParts(old(Contents()))
      ensures NonRuns(Contents()) == NonRuns(old(Contents()))
      ensures RunCount(Contents()) + mergeCount == RunCount(old(Contents()))
      ensures Settled(Contents()) && Merged(Contents()) == (Contents(), 0)
    {
      ghost var before := Contents();
      mergeCount := MergeAll();
      MergedKeepsDrawing(before);
      MergeIsIdempotent(before);
    }

    /** The walk of `_merge_runs_in` over the runs of the container. */
    method MergeAll() returns (mergeCount: nat)
      requires Valid()
      modifies this, Runs(nodes)
      ensures Valid()
      ensures Contents() == Merged(old(Contents())).0 && mergeCount == Merged(old(Contents())).1
    {
      ghost var before := Contents();
      mergeCount := 0;
      var run := Advance(0);
      while run < |nodes|
        invariant Valid() && Runs(nodes) <= old(Runs(nodes))
        invariant run <= |nodes| && (run < |nodes| ==> nodes[run].RunNode?)
        invariant OnTheWay(before, 0, run, mergeCount)
        decreases |nodes| - run
      {
        var merged := MergeFollowing(run);
        mergeCount := mergeCount + merged;
        run := Advance(run + 1);
      }
      OutcomeEnds(before);
      OutcomeEnds(Contents());
    }
  }
}
