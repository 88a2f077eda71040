/** The rectangle annotations of the ECG analysis page: the live list of
    labelled rectangles, its linear undo/redo history of full snapshots, and
    the left-button press/release dispatch that deletes a clicked rectangle or
    draws a new one. */
module Annotations {
  import opened Wrappers
  import Lists

  /** A scene position (a `QPointF`); Python floats are modelled as reals. */
  datatype Point = Point(x: real, y: real)

  /** One entry `(x1, y1, x2, y2, name)` of the rectangle list. */
  datatype Rect = Rect(x1: real, y1: real, x2: real, y2: real, name: string)

  /** The inclusive hit test of the press handler. */
  predicate Contains(r: Rect, p: Point) {
    r.x1 <= p.x <= r.x2 && r.y1 <= p.y <= r.y2
  }

  function Min(a: real, b: real): real { if a <= b then a else b }
  function Max(a: real, b: real): real { if a <= b then b else a }

  /** The rectangle built on release: `QRectF(start, end).normalized()`,
      read back as `(x, y, x + width, y + height, name)`. */
  function Normalized(start: Point, end: Point, name: string): (r: Rect)
    ensures r.x1 <= r.x2 && r.y1 <= r.y2
    ensures {r.x1, r.x2} == {start.x, end.x} && {r.y1, r.y2} == {start.y, end.y}
    ensures r.name == name
  {
    Rect(Min(start.x, end.x), Min(start.y, end.y), Max(start.x, end.x), Max(start.y, end.y), name)
  }

  /** The position of the first rectangle, in list order, that contains `p`. */
  function FirstHit(rects: seq<Rect>, p: Point): (k: Option<nat>)
    ensures k.Some? ==> k.value < |rects| && Contains(rects[k.value], p)
    ensures k.Some? ==> forall j :: 0 <= j < k.value ==> !Contains(rects[j], p)
    ensures k.None? <==> forall j :: 0 <= j < |rects| ==> !Contains(rects[j], p)
  {
    if |rects| == 0 then None
    else if Contains(rects[0], p) then Some(0)
    else match FirstHit(rects[1..], p)
      case None => None
      case Some(k) => Some(k + 1)
  }

  /** The whole undo/redo state: the live list, the snapshot list and the
      position in it. */
  datatype Timeline = Timeline(live: seq<Rect>, snapshots: seq<seq<Rect>>, index: int)

  predicate WellFormed(t: Timeline) {
    0 <= t.index < |t.snapshots|
  }

  /** The live list is the snapshot at the current position. */
  predicate Synced(t: Timeline) {
    WellFormed(t) && t.live == t.snapshots[t.index]
  }

  /** `add_to_history`: cut the redo future, append a copy of the live list,
      and point at it. */
  function Commit(t: Timeline): (r: Timeline)
    requires WellFormed(t)
    ensures Synced(r) && r.live == t.live
    ensures r.index == t.index + 1 == |r.snapshots| - 1
    ensures r.snapshots[..t.index + 1] == t.snapshots[..t.index + 1]
  {
    Timeline(t.live, t.snapshots[..t.index + 1] + [t.live], t.index + 1)
  }

  /** `undo_action`: one step back, a no-op at position 0. */
  function Undo(t: Timeline): (r: Timeline)
    requires WellFormed(t)
    ensures WellFormed(r) && r.snapshots == t.snapshots
    ensures t.index > 0 ==> Synced(r) && r.index == t.index - 1
    ensures t.index == 0 ==> r == t
  {
    if t.index > 0 then Timeline(t.snapshots[t.index - 1], t.snapshots, t.index - 1) else t
  }

  /** `redo_action`: one step forward, a no-op at the last position. */
  function Redo(t: Timeline): (r: Timeline)
    requires WellFormed(t)
    ensures WellFormed(r) && r.snapshots == t.snapshots
    ensures t.index < |t.snapshots| - 1 ==> Synced(r) && r.index == t.index + 1
    ensures t.index == |t.snapshots| - 1 ==> r == t
  {
    if t.index < |t.snapshots| - 1 then Timeline(t.snapshots[t.index + 1], t.snapshots, t.index + 1) else t
  }

  /** A drawn rectangle appended to the live list, then committed. */
  function AddRect(t: Timeline, r: Rect): (u: Timeline)
    requires WellFormed(t)
  {
    Commit(t.(live := t.live + [r]))
  }

  /** A clicked rectangle removed with `list.remove`, then committed. */
  function DeleteRect(t: Timeline, r: Rect): (u: Timeline)
    requires WellFormed(t) && r in t.live
  {
    Commit(t.(live := Lists.RemoveFirst(t.live, r)))
  }

  /** A commit leaves nothing to redo. */
  lemma RedoAfterCommitIsNoop(t: Timeline)
    requires WellFormed(t)
    ensures Redo(Commit(t)) == Commit(t)
  {
  }

  /** Undo right after an edit of a synchronised timeline restores the list
      that was live before the edit, whatever the edit was. */
  lemma UndoRevertsEdit(t: Timeline, edited: seq<Rect>)
    requires Synced(t)
    ensures Undo(Commit(t.(live := edited))).live == t.live
    ensures Undo(Commit(t.(live := edited))).index == t.index
  {
    var c := Commit(t.(live := edited));
    assert c.snapshots[t.index] == t.snapshots[..t.index + 1][t.index];
  }

  /** Undo followed by redo gives back the same state, and so does redo
      followed by undo, whenever the first step moved. */
  lemma UndoRedoRoundTrip(t: Timeline)
    requires Synced(t)
    ensures t.index > 0 ==> Redo(Undo(t)) == t
    ensures t.index < |t.snapshots| - 1 ==> Undo(Redo(t)) == t
  {
  }

  /** Add A; add B; undo; add C: B is no longer reachable, redo does nothing
      and the live list is [A, C]. */
  lemma {:induction false} CommitDiscardsRedoFuture(a: Rect, b: Rect, c: Rect)
    ensures var t0 := Timeline([], [[]], 0);
            var t1 := Undo(AddRect(AddRect(t0, a), b));
            var t2 := AddRect(t1, c);
            Redo(t2) == t2 && t2.live == [a, c] && t2.snapshots == [[], [a], [a, c]]
  {
    var t0: Timeline := Timeline([], [[]], 0);
    var ta := AddRect(t0, a);
    var empty: seq<Rect> := [];
    assert empty + [a] == [a];
    assert [empty][..1] == [empty];
    assert ta == Timeline([a], [[], [a]], 1);
    var tb := AddRect(ta, b);
    assert [a] + [b] == [a, b];
    assert [[], [a]][..2] == [[], [a]];
    assert tb == Timeline([a, b], [[], [a], [a, b]], 2);
    var t1 := Undo(tb);
    assert t1 == Timeline([a], [[], [a], [a, b]], 1);
    var t2 := AddRect(t1, c);
    assert [a] + [c] == [a, c];
    assert [[], [a], [a, b]][..2] == [[], [a]];
    assert t2.snapshots == [[], [a], [a, c]];
  }

  /** Clearing the list without a commit (`reset_workspace`, `delete_selected`)
      leaves the live list out of step with the history. */
  lemma ClearWithoutCommitDesyncs(t: Timeline)
    requires Synced(t) && t.live != []
    ensures !Synced(t.(live := []))
  {
  }

  /** The annotation part of `ECGAnalysisPage` and the module-level state it
      shares: `rectangles`, `rectangle_history`, `current_history_index`,
      `selected_rectangle`, `image_loaded`, `opened_image_path`, and the
      drawing fields of the page. */
  class AnnotationPage {
    var rectangles: seq<Rect>
    var history: seq<seq<Rect>>
    var historyIndex: int
    var selected: Option<Rect>
    var imageLoaded: bool
    var hasImagePath: bool
    var drawing: bool
    var startPos: Option<Point>
    /** `self.current_rect is not None`: the rubber-band rectangle exists. */
    var rubberBand: bool

    /** The history is well formed, and a drag in progress always has its
        rubber band and start point: the press that starts it creates both. */
    ghost predicate Valid()
      reads this
    {
      WellFormed(State()) && (rubberBand ==> startPos.Some?) && (drawing ==> rubberBand)
    }

    function State(): Timeline
      reads this
    {
      Timeline(rectangles, history, historyIndex)
    }

    /** The page starts with one snapshot of whatever list exists. */
    constructor (initial: seq<Rect>, loaded: bool, hasPath: bool)
      ensures Valid() && Synced(State())
      ensures State() == Timeline(initial, [initial], 0)
      ensures selected == None && imageLoaded == loaded && hasImagePath == hasPath
      ensures !drawing && startPos == None && !rubberBand
    {
      rectangles := initial;
      history := [initial];
      historyIndex := 0;
      selected := None;
      imageLoaded := loaded;
      hasImagePath := hasPath;
      drawing := false;
      startPos := None;
      rubberBand := false;
    }

    /** `open_image`: a cancelled file dialog changes nothing; a chosen
        path is remembered, and the page accepts mouse input once some file
        could be read. */
    method OpenImage(pathChosen: bool, readOk: bool)
      requires Valid()
      modifies this`hasImagePath, this`imageLoaded
      ensures Valid()
      ensures hasImagePath == (old(hasImagePath) || pathChosen)
      ensures imageLoaded == (old(imageLoaded) || (pathChosen && readOk))
    {
      if pathChosen {
        hasImagePath := true;
        if readOk {
          imageLoaded := true;
        }
      }
    }

    method AddToHistory()
      requires Valid()
      modifies this`history, this`historyIndex
      ensures Valid() && State() == Commit(old(State()))
    {
      history := history[..historyIndex + 1];
      history := history + [rectangles];
      historyIndex := |history| - 1;
    }

    method UndoAction()
      requires Valid()
      modifies this`rectangles, this`historyIndex
      ensures Valid() && State() == Undo(old(State()))
    {
      if historyIndex > 0 {
        historyIndex := historyIndex - 1;
        rectangles := history[historyIndex];
      }
    }

    method RedoAction()
      requires Valid()
      modifies this`rectangles, this`historyIndex
      ensures Valid() && State() == Redo(old(State()))
    {
      if historyIndex < |history| - 1 {
        historyIndex := historyIndex + 1;
        rectangles := history[historyIndex];
      }
    }

    /** `delete_selected`: removes the selected rectangle without a commit.
        Nothing in the page ever sets a selection, so this never fires. */
    method DeleteSelected()
      requires Valid()
      modifies this`rectangles, this`selected
      ensures Valid()
      ensures if old(selected).Some? && old(selected).value in old(rectangles)
              then rectangles == Lists.RemoveFirst(old(rectangles), old(selected).value) && selected == None
              else rectangles == old(rectangles) && selected == old(selected)
    {
      if selected.Some? && selected.value in rectangles {
        rectangles := Lists.RemoveFirst(rectangles, selected.value);
        selected := None;
      }
    }

    /** `reset_workspace`: clears the list without a commit, once an image
        path is known. */
    method ResetWorkspace()
      requires Valid()
      modifies this`rectangles, this`selected
      ensures Valid() && history == old(history) && historyIndex == old(historyIndex)
      ensures hasImagePath ==> rectangles == [] && selected == None
      ensures !hasImagePath ==> rectangles == old(rectangles) && selected == old(selected)
    {
      if hasImagePath {
        rectangles := [];
        selected := None;
      }
    }

    /** Left-button press at scene position `p`. The first listed rectangle
        containing `p` is deleted and committed; otherwise a drag starts.
        Returns whether the event was consumed. */
    method OnLeftPress(p: Point) returns (consumed: bool)
      requires Valid()
      modifies this`rectangles, this`history, this`historyIndex, this`drawing, this`startPos, this`rubberBand
      ensures Valid()
      ensures consumed == old(imageLoaded)
      ensures !old(imageLoaded) ==> State() == old(State()) && drawing == old(drawing)
                                    && startPos == old(startPos) && rubberBand == old(rubberBand)
      ensures old(imageLoaded) && FirstHit(old(rectangles), p).Some? ==>
                var k := FirstHit(old(rectangles), p).value;
                State() == DeleteRect(old(State()), old(rectangles)[k])
                && rectangles == old(rectangles)[..k] + old(rectangles)[k + 1..]
                && drawing == old(drawing) && startPos == old(startPos) && rubberBand == old(rubberBand)
      ensures old(imageLoaded) && FirstHit(old(rectangles), p).None? ==>
                State() == old(State()) && drawing && startPos == Some(p) && rubberBand
    {
      if !imageLoaded {
        return false;
      }
      var i := 0;
      while i < |rectangles|
        invariant 0 <= i <= |rectangles|
        invariant rectangles == old(rectangles) && history == old(history) && historyIndex == old(historyIndex)
        invariant forall j :: 0 <= j < i ==> !Contains(rectangles[j], p)
      {
        var rect := rectangles[i];
        if Contains(rect, p) {
          Lists.RemoveFirstAt(rectangles, i);
          rectangles := Lists.RemoveFirst(rectangles, rect);
          AddToHistory();
          return true;
        }
        i := i + 1;
      }
      startPos := Some(p);
      drawing := true;
      rubberBand := true;
      return true;
    }

    /** Left-button release at `p`, with the outcome of the name dialog
        (`accepted`, and the text typed). A non-empty name appends the
        normalised rectangle and commits; anything else adds nothing. */
    method OnLeftRelease(p: Point, accepted: bool, name: string) returns (consumed: bool)
      requires Valid()
      modifies this`rectangles, this`history, this`historyIndex, this`drawing, this`startPos, this`rubberBand
      ensures Valid()
      ensures consumed == (old(imageLoaded) && old(drawing))
      ensures !consumed ==> State() == old(State()) && drawing == old(drawing)
                            && startPos == old(startPos) && rubberBand == old(rubberBand)
      ensures consumed ==> !drawing
      ensures consumed ==> old(rubberBand) && startPos == None && !rubberBand
      ensures consumed && old(rubberBand) && accepted && name != "" ==>
                State() == AddRect(old(State()), Normalized(old(startPos).value, p, name))
      ensures consumed && !(old(rubberBand) && accepted && name != "") ==> State() == old(State())
    {
      if !imageLoaded || !drawing {
        return false;
      }
      drawing := false;
      if rubberBand {
        var rect := Normalized(startPos.value, p, name);
        if accepted && name != "" {
          rectangles := rectangles + [rect];
          AddToHistory();
        }
        rubberBand := false;
        startPos := None;
      }
      return true;
    }
  }

  /** A press-and-release on empty space with an accepted, non-empty name
      grows the live list by exactly the normalised rectangle, and the
      history stays in step with it. */
  method DrawOnEmptySpace(page: AnnotationPage, s: Point, e: Point, name: string)
    requires page.Valid() && Synced(page.State()) && page.imageLoaded && !page.drawing
    requires FirstHit(page.rectangles, s).None? && name != ""
    modifies page
    ensures page.Valid() && Synced(page.State())
    ensures page.rectangles == old(page.rectangles) + [Normalized(s, e, name)]
  {
    var pressed := page.OnLeftPress(s);
    var released := page.OnLeftRelease(e, true, name);
  }
}
