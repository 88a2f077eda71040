/** The observation dialog's bookkeeping: the record of validated
    rectangles (first write wins), the list of validated names without
    repetition, the shrinking list of names still offered, the rules that
    enable the Valid and Save buttons, and the naming of the files its Save
    writes (`label.png`, `label_copy1.png`, ...). */
module Observations {
  import opened Wrappers
  import Lists
  import Annotations
  import Coordinates
  import Export

  /** What `observations_dict` holds for one rectangle. */
  datatype Observation = Observation(text: string, cls: string)

  /** The labels of the rectangles, in list order (`remaining_options` as the
      dialog opens). */
  function Names(rects: seq<Annotations.Rect>): (names: seq<string>)
    ensures |names| == |rects|
    ensures forall i :: 0 <= i < |rects| ==> names[i] == rects[i].name
  {
    seq(|rects|, i requires 0 <= i < |rects| => rects[i].name)
  }

  /** The loop `for rect in self.rectangles: if name == selected_name: ...
      break`: the first rectangle carrying the label, if any. */
  function FirstNamed(rects: seq<Annotations.Rect>, name: string): (k: Option<nat>)
    ensures k.Some? ==> k.value < |rects| && rects[k.value].name == name &&
                        forall j :: 0 <= j < k.value ==> rects[j].name != name
    ensures k.None? <==> forall j :: 0 <= j < |rects| ==> rects[j].name != name
  {
    if |rects| == 0 then None
    else if rects[0].name == name then Some(0)
    else
      var k := FirstNamed(rects[1..], name);
      if k.Some? then Some(k.value + 1) else None
  }

  /** One rectangle the dialog's Save writes: its label, the stem of its
      files (`unique_name`), the slice of the displayed image, whether an
      observation text file is written, and the class manifest it is
      listed in. */
  datatype SavedArea = SavedArea(name: string, stem: string, slice: Coordinates.Slice, withNote: bool, cls: string)

  /** The observation text file of a stem. */
  function NoteFile(stem: string): string {
    stem + "_observation.txt"
  }

  /** The files Save writes for one area: its image and, when the note
      is non-empty, its observation text. */
  function AreaFiles(a: SavedArea): (files: set<string>)
    ensures Export.FileName(a.stem) in files
    ensures NoteFile(a.stem) in files <==> a.withNote
  {
    {Export.FileName(a.stem)} + (if a.withNote then {NoteFile(a.stem)} else {})
  }

  /** The files a save run has written, images and observation texts. */
  function Files(out: seq<SavedArea>): set<string> {
    if |out| == 0 then {} else Files(out[..|out| - 1]) + AreaFiles(out[|out| - 1])
  }

  /** The validated names that Save writes, in order: exactly those with a
      record and a rectangle carrying the label. */
  function Selected(valid: seq<string>, obs: map<string, Observation>, rects: seq<Annotations.Rect>): (r: seq<string>)
    ensures |r| <= |valid|
    ensures forall i :: 0 <= i < |r| ==> r[i] in valid && r[i] in obs && FirstNamed(rects, r[i]).Some?
    ensures forall j :: 0 <= j < |valid| && valid[j] in obs && FirstNamed(rects, valid[j]).Some? ==> valid[j] in r
  {
    if |valid| == 0 then []
    else
      var n := valid[|valid| - 1];
      assert forall j :: 0 <= j < |valid| - 1 ==> valid[j] == valid[..|valid| - 1][j];
      Selected(valid[..|valid| - 1], obs, rects) + (if n in obs && FirstNamed(rects, n).Some? then [n] else [])
  }

  /** Selecting distributes over a split of the validated labels: the
      saved labels keep the order of `valid_selections`. */
  lemma {:induction false} SelectedSplit(valid: seq<string>, k: nat, obs: map<string, Observation>,
                                         rects: seq<Annotations.Rect>)
    requires k <= |valid|
    ensures Selected(valid, obs, rects) == Selected(valid[..k], obs, rects) + Selected(valid[k..], obs, rects)
  {
    if k == |valid| {
      assert valid[..k] == valid && valid[k..] == [];
    } else {
      var init := valid[..|valid| - 1];
      assert init[..k] == valid[..k];
      assert valid[k..][..|valid[k..]| - 1] == init[k..];
      SelectedSplit(init, k, obs, rects);
    }
  }

  /** One area is saved from the first rectangle carrying its label, whose
      region is not empty (`cv2.imwrite` would have raised), with its
      recorded note and class, under a stem chosen by the `_copy` search
      against the directory `before`. */
  ghost predicate SavedFrom(before: set<string>, rects: seq<Annotations.Rect>, obs: map<string, Observation>,
                            a: SavedArea, resized: Coordinates.Size, original: Coordinates.Size)
    requires original.width > 0 && original.height > 0
  {
    a.name in obs && FirstNamed(rects, a.name).Some? &&
    a.slice == Coordinates.ScaledSlice(rects[FirstNamed(rects, a.name).value], resized, original) &&
    !Coordinates.EmptyRegion(a.slice, resized) &&
    a.withNote == (obs[a.name].text != "") && a.cls == obs[a.name].cls &&
    Export.IsFreshStem(before, a.name, "_copy", a.stem)
  }

  /** Every saved area is saved against the directory as it stood just
      before it, earlier files of the same run included. */
  ghost predicate SavedInOrder(dir: set<string>, rects: seq<Annotations.Rect>, obs: map<string, Observation>,
                               out: seq<SavedArea>, resized: Coordinates.Size, original: Coordinates.Size)
    requires original.width > 0 && original.height > 0
  {
    |out| == 0 ||
    (SavedInOrder(dir, rects, obs, out[..|out| - 1], resized, original) &&
     SavedFrom(dir + Files(out[..|out| - 1]), rects, obs, out[|out| - 1], resized, original))
  }

  /** Saving one more area keeps the earlier ones as they were. */
  lemma SavedInOrderSnoc(dir: set<string>, rects: seq<Annotations.Rect>, obs: map<string, Observation>,
                         out: seq<SavedArea>, resized: Coordinates.Size, original: Coordinates.Size, next: SavedArea)
    requires original.width > 0 && original.height > 0
    requires SavedInOrder(dir, rects, obs, out, resized, original)
    requires SavedFrom(dir + Files(out), rects, obs, next, resized, original)
    ensures SavedInOrder(dir, rects, obs, out + [next], resized, original)
  {
    assert (out + [next])[..|out|] == out;
  }

  /** In a run saved in order, the `i`-th area was saved against the
      directory plus the files of the areas before it. */
  lemma {:induction false} SavedInOrderAt(dir: set<string>, rects: seq<Annotations.Rect>, obs: map<string, Observation>,
                                          out: seq<SavedArea>, resized: Coordinates.Size, original: Coordinates.Size, i: nat)
    requires original.width > 0 && original.height > 0
    requires SavedInOrder(dir, rects, obs, out, resized, original) && i < |out|
    ensures SavedFrom(dir + Files(out[..i]), rects, obs, out[i], resized, original)
  {
    if i < |out| - 1 {
      var init := out[..|out| - 1];
      assert init[..i] == out[..i] && init[i] == out[i];
      SavedInOrderAt(dir, rects, obs, init, resized, original, i);
    }
  }

  /** The image of an earlier area is among the files written before a
      later one. */
  lemma {:induction false} FilesHasEarlier(out: seq<SavedArea>, i: nat, j: nat)
    requires i < j <= |out|
    ensures Export.FileName(out[i].stem) in Files(out[..j])
  {
    var prefix := out[..j];
    assert prefix[..j - 1] == out[..j - 1] && prefix[j - 1] == out[j - 1];
    if i < j - 1 {
      FilesHasEarlier(out, i, j - 1);
    }
  }

  /** Save never writes an image over a file of the directory, nor two
      areas of one run to the same image file. */
  lemma SaveNeverOverwrites(dir: set<string>, rects: seq<Annotations.Rect>, obs: map<string, Observation>,
                            out: seq<SavedArea>, resized: Coordinates.Size, original: Coordinates.Size, i: nat, j: nat)
    requires original.width > 0 && original.height > 0
    requires SavedInOrder(dir, rects, obs, out, resized, original) && i < j < |out|
    ensures Export.FileName(out[j].stem) !in dir
    ensures Export.FileName(out[i].stem) != Export.FileName(out[j].stem)
  {
    SavedInOrderAt(dir, rects, obs, out, resized, original, j);
    FilesHasEarlier(out, i, j);
  }

  /** The names of the saved areas, in order. */
  function SavedNames(out: seq<SavedArea>): (names: seq<string>)
    ensures |names| == |out|
    ensures forall i :: 0 <= i < |out| ==> names[i] == out[i].name
  {
    if |out| == 0 then [] else SavedNames(out[..|out| - 1]) + [out[|out| - 1].name]
  }

  /** What one class manifest `classes/<class>.txt` receives from a save
      run: the stems of the saved areas of that class, in order, each
      written followed by `, `. */
  function ManifestEntries(out: seq<SavedArea>, cls: string): (stems: seq<string>)
    ensures |stems| <= |out|
    ensures forall s :: s in stems ==> exists i :: 0 <= i < |out| && out[i].cls == cls && out[i].stem == s
  {
    if |out| == 0 then []
    else
      var last := out[|out| - 1];
      var earlier := ManifestEntries(out[..|out| - 1], cls);
      assert forall s :: s in earlier ==> exists i :: 0 <= i < |out| - 1 && out[i].cls == cls && out[i].stem == s;
      earlier + (if last.cls == cls then [last.stem] else [])
  }

  /** Save's progress over one more validated label. */
  lemma SelectedSnoc(valid: seq<string>, i: nat, obs: map<string, Observation>, rects: seq<Annotations.Rect>)
    requires i < |valid|
    ensures valid[i] in obs && FirstNamed(rects, valid[i]).Some? ==>
              Selected(valid[..i + 1], obs, rects) == Selected(valid[..i], obs, rects) + [valid[i]]
    ensures !(valid[i] in obs && FirstNamed(rects, valid[i]).Some?) ==>
              Selected(valid[..i + 1], obs, rects) == Selected(valid[..i], obs, rects)
  {
    assert valid[..i + 1][..i] == valid[..i];
    assert Selected(valid[..i], obs, rects) + [] == Selected(valid[..i], obs, rects);
  }

  /** When the run stops at a selected label, the labels selected before it
      are a prefix of all the selected labels, and that label comes next. */
  lemma SelectedStopsAt(valid: seq<string>, i: nat, obs: map<string, Observation>, rects: seq<Annotations.Rect>)
    requires i < |valid| && valid[i] in obs && FirstNamed(rects, valid[i]).Some?
    ensures Selected(valid, obs, rects) == Selected(valid[..i], obs, rects) + [valid[i]] + Selected(valid[i + 1..], obs, rects)
  {
    SelectedSnoc(valid, i, obs, rects);
    SelectedSplit(valid, i + 1, obs, rects);
  }

  /** Writing one more area adds its files and its name. */
  lemma SavedSnoc(dir: set<string>, taken: set<string>, out: seq<SavedArea>, a: SavedArea)
    requires taken == dir + Files(out)
    ensures taken + AreaFiles(a) == dir + Files(out + [a])
    ensures SavedNames(out + [a]) == SavedNames(out) + [a.name]
  {
    assert (out + [a])[..|out|] == out;
  }

  /** Every saved area is listed in the manifest of its class. */
  lemma {:induction false} ManifestListsArea(out: seq<SavedArea>, i: nat)
    requires i < |out|
    ensures out[i].stem in ManifestEntries(out, out[i].cls)
  {
    if i < |out| - 1 {
      assert out[..|out| - 1][i] == out[i];
      ManifestListsArea(out[..|out| - 1], i);
    }
  }

  /** What the dialog's handlers read and write: `observations_dict`,
      `valid_selections`, `remaining_options` and the two buttons. */
  datatype FormState = FormState(observations: map<string, Observation>, validSelections: seq<string>,
                                 remainingOptions: seq<string>, validEnabled: bool, saveEnabled: bool)

  /** The dialog as it opens on rectangles with these labels. */
  function Opened(names: seq<string>): FormState {
    FormState(map[], [], names, false, false)
  }

  /** The record and the validated list hold the same labels, the list has
      no repetition, the offered labels are a sub-multiset of the
      rectangle labels and every label that lost an occurrence was
      validated, and Save is enabled exactly when something was
      validated. */
  ghost predicate Consistent(names: seq<string>, s: FormState) {
    Lists.Distinct(s.validSelections) &&
    s.observations.Keys == (set n | n in s.validSelections) &&
    (forall n :: Lists.Count(s.remainingOptions, n) <= Lists.Count(names, n)) &&
    (forall n :: Lists.Count(s.remainingOptions, n) < Lists.Count(names, n) ==> n in s.validSelections) &&
    s.saveEnabled == (|s.validSelections| > 0)
  }

  /** `on_validate_button_enabled`: the class drop-down always has a current
      text, so Valid is enabled exactly when a label is selected. */
  function RefreshValid(s: FormState, selectedName: string): FormState {
    s.(validEnabled := selectedName != "")
  }

  /** `on_validate`: record the observation unless the label already has
      one, append the label unless already listed, take one occurrence of it
      out of the offered labels if there is one, and enable Save when the
      list is non-empty. */
  function Validate(s: FormState, name: string, cls: string, text: string): FormState {
    var obs := if name in s.observations then s.observations else s.observations[name := Observation(text, cls)];
    var valid := if name in s.validSelections then s.validSelections else s.validSelections + [name];
    var remaining := if name in s.remainingOptions then Lists.RemoveFirst(s.remainingOptions, name) else s.remainingOptions;
    FormState(obs, valid, remaining, s.validEnabled, |valid| > 0)
  }

  /** The opened dialog is consistent. */
  lemma OpenedConsistent(names: seq<string>)
    ensures Consistent(names, Opened(names))
  {
  }

  /** Validating keeps the record and the list in step, the list free of
      repetition, and Save enabled exactly when the list is non-empty. */
  lemma ValidateKeepsRecord(names: seq<string>, s: FormState, name: string, cls: string, text: string)
    requires Consistent(names, s)
    ensures var t := Validate(s, name, cls, text);
            Lists.Distinct(t.validSelections) &&
            t.observations.Keys == (set n | n in t.validSelections) &&
            t.saveEnabled == (|t.validSelections| > 0) && t.saveEnabled
  {
    var t := Validate(s, name, cls, text);
    if name !in s.validSelections {
      assert name !in s.observations;
      assert (set n | n in t.validSelections) == (set n | n in s.validSelections) + {name};
    }
  }

  /** Validating keeps the offered labels a sub-multiset of the rectangle
      labels, every missing occurrence belonging to a validated label. */
  lemma ValidateKeepsOffered(names: seq<string>, s: FormState, name: string, cls: string, text: string)
    requires Consistent(names, s)
    ensures var t := Validate(s, name, cls, text);
            (forall n :: Lists.Count(t.remainingOptions, n) <= Lists.Count(names, n)) &&
            forall n :: Lists.Count(t.remainingOptions, n) < Lists.Count(names, n) ==> n in t.validSelections
  {
    var t := Validate(s, name, cls, text);
    forall n
      ensures Lists.Count(t.remainingOptions, n) <= Lists.Count(names, n)
      ensures Lists.Count(t.remainingOptions, n) < Lists.Count(names, n) ==> n in t.validSelections
    {
      if name in s.remainingOptions {
        Lists.RemoveFirstCount(s.remainingOptions, name, n);
      }
    }
  }

  /** Validating keeps the dialog consistent. */
  lemma ValidateConsistent(names: seq<string>, s: FormState, name: string, cls: string, text: string)
    requires Consistent(names, s)
    ensures Consistent(names, Validate(s, name, cls, text))
  {
    ValidateKeepsRecord(names, s, name, cls, text);
    ValidateKeepsOffered(names, s, name, cls, text);
  }

  /** First write wins: validating a label again changes neither its record
      nor the list, whatever the new text and class. */
  lemma ValidateAgain(names: seq<string>, s: FormState, name: string, cls: string, text: string,
                      cls2: string, text2: string)
    requires Consistent(names, s)
    ensures var t := Validate(s, name, cls, text);
            var u := Validate(t, name, cls2, text2);
            name in u.observations && u.observations == t.observations &&
            u.validSelections == t.validSelections && u.saveEnabled
  {
    ValidateKeepsRecord(names, s, name, cls, text);
  }

  /** A label that has been validated is recorded with the first text and
      class it was validated with. */
  lemma ValidateRecords(names: seq<string>, s: FormState, name: string, cls: string, text: string)
    requires Consistent(names, s) && name !in s.validSelections
    ensures var t := Validate(s, name, cls, text);
            t.observations[name] == Observation(text, cls) && t.validSelections == s.validSelections + [name]
  {
    assert name !in s.observations;
  }

  /** The state of an open `ObservationDialog`. */
  class ObservationForm {
    /** The rectangles the dialog was opened with. */
    const rectangles: seq<Annotations.Rect>
    /** `observations_dict`: label to recorded observation. */
    var observations: map<string, Observation>
    /** `valid_selections`: the validated labels, in order. */
    var validSelections: seq<string>
    /** `remaining_options`: the labels still offered in the drop-down. */
    var remainingOptions: seq<string>
    /** Whether the Valid button is enabled. */
    var validEnabled: bool
    /** Whether the Save button is enabled. */
    var saveEnabled: bool

    function State(): FormState
      reads this
    {
      FormState(observations, validSelections, remainingOptions, validEnabled, saveEnabled)
    }

    ghost predicate Valid()
      reads this
    {
      Consistent(Names(rectangles), State())
    }

    /** The dialog as it opens: every label offered, nothing validated, both
        buttons disabled. */
    constructor(rects: seq<Annotations.Rect>)
      ensures rectangles == rects && State() == Opened(Names(rects))
      ensures Valid()
    {
      rectangles := rects;
      observations := map[];
      validSelections := [];
      remainingOptions := Names(rects);
      validEnabled := false;
      saveEnabled := false;
      OpenedConsistent(Names(rects));
    }

    /** `on_validate_button_enabled`. */
    method RefreshValidButton(selectedName: string)
      requires Valid()
      modifies this
      ensures State() == RefreshValid(old(State()), selectedName)
      ensures Valid()
    {
      var isSelectedClass := true;
      validEnabled := selectedName != "" && isSelectedClass;
    }

    /** `on_validate`, field by field. */
    method OnValidate(name: string, cls: string, text: string)
      requires Valid()
      modifies this
      ensures State() == Validate(old(State()), name, cls, text)
      ensures Valid()
    {
      ghost var s0 := State();
      ghost var t := Validate(s0, name, cls, text);
      if name !in observations {
        observations := observations[name := Observation(text, cls)];
      }
      assert observations == t.observations;
      if name !in validSelections {
        validSelections := validSelections + [name];
      }
      assert validSelections == t.validSelections;
      if name in remainingOptions {
        remainingOptions := Lists.RemoveFirst(remainingOptions, name);
      }
      assert remainingOptions == t.remainingOptions;
      saveEnabled := |validSelections| > 0;
      assert State() == t;
      ValidateConsistent(Names(rectangles), s0, name, cls, text);
    }

    /** The body of `on_save`'s loop for a label that has a record and a
        rectangle: the first rectangle carrying it is cut out of the
        displayed image and, once the first free `label[_copyK].png` is
        found, written under it, with its observation text beside it when
        the note is non-empty. The area is cut out of the module's `img`,
        whether or not an image is loaded (`hasImage`): it is None after a
        failed read, while the size of the image read before stays
        recorded. Nothing is written, and the result is `None`, when the
        scaling divides by a zero original dimension (`ZeroDivisionError`),
        there is no image to slice (`TypeError`) or the region is empty
        (`cv2.imwrite` raises). */
    method SaveOne(taken: set<string>, name: string, hasImage: bool, resized: Coordinates.Size, original: Coordinates.Size)
      returns (saved: Option<SavedArea>, nowTaken: set<string>)
      requires name in observations && FirstNamed(rectangles, name).Some?
      ensures saved.None? <==>
                (!Coordinates.Scalable(original) || !hasImage ||
                 Coordinates.EmptyRegion(Coordinates.ScaledSlice(rectangles[FirstNamed(rectangles, name).value], resized, original), resized))
      ensures saved.Some? ==> Coordinates.Scalable(original) && hasImage && saved.value.name == name &&
                              SavedFrom(taken, rectangles, observations, saved.value, resized, original)
      ensures saved.Some? ==> nowTaken == taken + AreaFiles(saved.value)
      ensures saved.None? ==> nowTaken == taken
    {
      var data := observations[name];
      var rect := rectangles[FirstNamed(rectangles, name).value];
      if !Coordinates.Scalable(original) {
        return None, taken;
      }
      var slice := Coordinates.ScaledSlice(rect, resized, original);
      if !hasImage {
        return None, taken;
      }
      var uniqueName := Export.FreshStem(taken, name, "_copy");
      if Coordinates.EmptyRegion(slice, resized) {
        return None, taken;
      }
      saved := Some(SavedArea(name, uniqueName, slice, data.text != "", data.cls));
      nowTaken := taken + {Export.FileName(uniqueName)};
      if data.text != "" {
        nowTaken := nowTaken + {NoteFile(uniqueName)};
      }
    }

    /** `on_save`: nothing is written when no directory is chosen;
        otherwise, for each validated label in order that has a record and
        a rectangle, its area is saved as `SaveOne` says, against the
        directory as the earlier labels left it, and `<stem>, ` is appended
        to the manifest of its class. The exception raised on a zero
        original dimension, a missing image or an empty region is not
        caught: the run stops
        there, so the saved labels are the selected ones before it, and the
        label it stopped at gets no image, no note and no manifest entry. */
    method OnSave(dir: set<string>, dirChosen: bool, hasImage: bool, resized: Coordinates.Size, original: Coordinates.Size)
      returns (out: seq<SavedArea>, newDir: set<string>, failed: bool)
      ensures !dirChosen ==> out == [] && newDir == dir && !failed
      ensures dirChosen && !failed ==> SavedNames(out) == Selected(validSelections, observations, rectangles)
      ensures failed ==> |out| < |Selected(validSelections, observations, rectangles)|
      ensures failed ==> SavedNames(out) == Selected(validSelections, observations, rectangles)[..|out|]
      ensures failed ==> var n := Selected(validSelections, observations, rectangles)[|out|];
                !Coordinates.Scalable(original) || !hasImage ||
                Coordinates.EmptyRegion(Coordinates.ScaledSlice(rectangles[FirstNamed(rectangles, n).value], resized, original), resized)
      ensures !Coordinates.Scalable(original) || !hasImage ==> out == []
      ensures Coordinates.Scalable(original) ==> SavedInOrder(dir, rectangles, observations, out, resized, original)
      ensures newDir == dir + Files(out)
    {
      out, newDir, failed := [], dir, false;
      if !dirChosen {
        return;
      }
      for i := 0 to |validSelections|
        invariant !failed
        invariant SavedNames(out) == Selected(validSelections[..i], observations, rectangles)
        invariant !Coordinates.Scalable(original) || !hasImage ==> out == []
        invariant Coordinates.Scalable(original) ==> SavedInOrder(dir, rectangles, observations, out, resized, original)
        invariant newDir == dir + Files(out)
      {
        var selectedName := validSelections[i];
        SelectedSnoc(validSelections, i, observations, rectangles);
        if selectedName in observations && FirstNamed(rectangles, selectedName).Some? {
          var saved, taken := SaveOne(newDir, selectedName, hasImage, resized, original);
          if saved.None? {
            SelectedStopsAt(validSelections, i, observations, rectangles);
            Lists.SplitAt(SavedNames(out), selectedName, Selected(validSelections[i + 1..], observations, rectangles));
            failed := true;
            break;
          }
          SavedInOrderSnoc(dir, rectangles, observations, out, resized, original, saved.value);
          SavedSnoc(dir, newDir, out, saved.value);
          assert SavedNames(out + [saved.value]) == Selected(validSelections[..i + 1], observations, rectangles);
          newDir := taken;
          out := out + [saved.value];
        }
      }
      if !failed {
        assert validSelections[..|validSelections|] == validSelections;
      }
    }
  }

  /** Opening the dialog on two rectangles and validating the first one
      offers only the second one afterwards and enables Save. */
  method ValidateOneOfTwo(a: Annotations.Rect, b: Annotations.Rect) returns (form: ObservationForm)
    requires a.name != b.name
    ensures form.remainingOptions == [b.name]
    ensures form.validSelections == [a.name] && form.saveEnabled
  {
    form := new ObservationForm([a, b]);
    assert Names([a, b]) == [a.name, b.name];
    form.OnValidate(a.name, "Class A", "ST elevation");
    assert Lists.RemoveFirst([a.name, b.name], a.name) == [b.name];
  }
}
