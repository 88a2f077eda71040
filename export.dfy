/** File naming on export: the collision-free name search of
    `save_all_areas` (`name.png`, `name_1.png`, `name_2.png`, ...) and of the
    observation dialog's save (`name.png`, `name_copy1.png`, ...), the loop
    that saves every area, and the `_nobg` path of `remove_background`. A
    directory is the finite set of the file names it holds. */
module Export {
  import opened Wrappers
  import Annotations
  import Coordinates

  /** The character of one decimal digit. */
  function DigitChar(d: nat): char
    requires d < 10
  {
    ('0' as int + d) as char
  }

  /** The value of a decimal digit character. */
  function DigitValue(c: char): nat {
    if '0' <= c <= '9' then c as int - '0' as int else 0
  }

  predicate IsDigit(c: char) {
    '0' <= c <= '9'
  }

  /** Python's `str(n)` for a non-negative integer: decimal digits, most
      significant first, no leading zero. */
  function NatToString(n: nat): (s: string)
    ensures |s| > 0 && forall i :: 0 <= i < |s| ==> IsDigit(s[i])
    ensures |s| > 1 ==> s[0] != '0'
  {
    if n < 10 then [DigitChar(n)] else NatToString(n / 10) + [DigitChar(n % 10)]
  }

  /** Reading decimal digits back, most significant first. */
  function ParseNat(s: string): nat {
    if |s| == 0 then 0 else 10 * ParseNat(s[..|s| - 1]) + DigitValue(s[|s| - 1])
  }

  /** Reading back a rendered number gives the number. */
  lemma {:induction false} ParseNatToString(n: nat)
    ensures ParseNat(NatToString(n)) == n
  {
    var s := NatToString(n);
    if n >= 10 {
      ParseNatToString(n / 10);
      assert s[..|s| - 1] == NatToString(n / 10);
      assert DigitValue(s[|s| - 1]) == n % 10;
    } else {
      assert s[..0] == [];
      assert DigitValue(s[0]) == n;
    }
  }

  /** Different numbers render differently. */
  lemma NatToStringInjective(a: nat, b: nat)
    ensures a != b ==> NatToString(a) != NatToString(b)
  {
    ParseNatToString(a);
    ParseNatToString(b);
  }

  /** The `k`-th name the search tries, without extension: the label itself
      first, then the label, the separator and the counter. */
  function Stem(name: string, sep: string, k: nat): string {
    if k == 0 then name else name + sep + NatToString(k)
  }

  /** The image file written for a stem. */
  function FileName(stem: string): string {
    stem + ".png"
  }

  /** With a non-empty separator, the search never tries the same file
      twice. */
  lemma CandidatesDistinct(name: string, sep: string, j: nat, k: nat)
    requires |sep| > 0
    ensures j != k ==> FileName(Stem(name, sep, j)) != FileName(Stem(name, sep, k))
  {
    if j != k {
      var a, b := FileName(Stem(name, sep, j)), FileName(Stem(name, sep, k));
      if j == 0 || k == 0 {
        assert |a| != |b|;
      } else {
        var p := |name| + |sep|;
        NatToStringInjective(j, k);
        var dj, dk := NatToString(j), NatToString(k);
        assert a == (name + sep) + (dj + ".png");
        assert b == (name + sep) + (dk + ".png");
        if |dj| == |dk| {
          assert a[p..p + |dj|] == dj && b[p..p + |dk|] == dk;
        } else {
          assert |a| != |b|;
        }
      }
    }
  }

  /** Candidate `k` is the first one whose file is not in `dir`. */
  predicate FirstFree(dir: set<string>, name: string, sep: string, k: nat) {
    FileName(Stem(name, sep, k)) !in dir &&
    forall j :: 0 <= j < k ==> FileName(Stem(name, sep, j)) in dir
  }

  /** `stem` is the first free candidate for `name` in `dir`. */
  ghost predicate IsFreshStem(dir: set<string>, name: string, sep: string, stem: string) {
    exists k :: FirstFree(dir, name, sep, k) && stem == Stem(name, sep, k)
  }

  /** There is only one first free candidate. */
  lemma FirstFreeUnique(dir: set<string>, name: string, sep: string, k1: nat, k2: nat)
    requires FirstFree(dir, name, sep, k1) && FirstFree(dir, name, sep, k2)
    ensures k1 == k2
  {
  }

  /** A subset is no larger than its superset. */
  lemma {:induction false} SubsetSize<T>(a: set<T>, b: set<T>)
    requires a <= b
    ensures |a| <= |b|
  {
    if a != {} {
      var x :| x in a;
      SubsetSize(a - {x}, b - {x});
    }
  }

  /** The `while os.path.exists(filename)` loop: starting from the label,
      try the numbered names in turn until one is not in the directory. It
      returns the stem (`unique_name` in the observation dialog); the file
      written is `FileName` of it. It always stops, since every name tried
      is a different member of the finite directory. */
  method FreshStem(dir: set<string>, name: string, sep: string) returns (stem: string)
    requires |sep| > 0
    ensures FileName(stem) !in dir
    ensures IsFreshStem(dir, name, sep, stem)
  {
    stem := name;
    var filename := stem + ".png";
    var counter := 1;
    ghost var tried: set<string> := {};
    while filename in dir
      invariant counter >= 1
      invariant stem == Stem(name, sep, counter - 1) && filename == FileName(stem)
      invariant forall j :: 0 <= j < counter - 1 ==> FileName(Stem(name, sep, j)) in dir
      invariant tried <= dir && |tried| == counter - 1
      invariant forall s :: s in tried ==> exists j :: 0 <= j < counter - 1 && s == FileName(Stem(name, sep, j))
      decreases |dir| - |tried|
    {
      forall s | s in tried
        ensures s != filename
      {
        var j :| 0 <= j < counter - 1 && s == FileName(Stem(name, sep, j));
        CandidatesDistinct(name, sep, j, counter - 1);
      }
      tried := tried + {filename};
      SubsetSize(tried, dir);
      stem := name + sep + NatToString(counter);
      filename := stem + ".png";
      counter := counter + 1;
    }
    assert FirstFree(dir, name, sep, counter - 1);
  }

  /** Saving two areas with the same label into an empty directory writes
      `II.png` and then `II_1.png`. */
  method SameLabelTwice() returns (first: string, second: string)
    ensures first == "II.png" && second == "II_1.png"
  {
    var dir: set<string> := {};
    var s1 := FreshStem(dir, "II", "_");
    ghost var k1 :| FirstFree(dir, "II", "_", k1) && s1 == Stem("II", "_", k1);
    assert FirstFree(dir, "II", "_", 0);
    FirstFreeUnique(dir, "II", "_", k1, 0);
    first := FileName(s1);
    dir := dir + {first};
    var s2 := FreshStem(dir, "II", "_");
    ghost var k2 :| FirstFree(dir, "II", "_", k2) && s2 == Stem("II", "_", k2);
    assert NatToString(1) == "1";
    assert FirstFree(dir, "II", "_", 1);
    FirstFreeUnique(dir, "II", "_", k2, 1);
    second := FileName(s2);
  }

  /** One image `save_all_areas` writes: its file name and the slice of the
      displayed image it holds. */
  datatype AreaFile = AreaFile(file: string, slice: Coordinates.Slice)

  /** The names of the files written. */
  function Written(out: seq<AreaFile>): set<string> {
    if |out| == 0 then {} else Written(out[..|out| - 1]) + {out[|out| - 1].file}
  }

  /** `file` is what the name search picks for `name` when `taken` holds
      the directory's files. */
  ghost predicate SavedUnder(taken: set<string>, name: string, file: string) {
    exists stem :: IsFreshStem(taken, name, "_", stem) && file == FileName(stem)
  }

  /** One written file holds the area of rectangle `r`, which is not empty
      (`cv2.imwrite` would have raised), and is named by the search against
      `before`. */
  ghost predicate SavedFrom(before: set<string>, r: Annotations.Rect, a: AreaFile,
                            resized: Coordinates.Size, original: Coordinates.Size)
    requires original.width > 0 && original.height > 0
  {
    a.slice == Coordinates.ScaledSlice(r, resized, original) && !Coordinates.EmptyRegion(a.slice, resized) &&
    SavedUnder(before, r.name, a.file)
  }

  /** Each written file is the area of the rectangle at the same position,
      named by the search against the directory as it was just before,
      that is with the earlier files of the same run added. */
  ghost predicate SavedInOrder(dir: set<string>, rects: seq<Annotations.Rect>, out: seq<AreaFile>,
                               resized: Coordinates.Size, original: Coordinates.Size)
    requires original.width > 0 && original.height > 0
  {
    |out| <= |rects| &&
    (|out| == 0 ||
     (SavedInOrder(dir, rects, out[..|out| - 1], resized, original) &&
      SavedFrom(dir + Written(out[..|out| - 1]), rects[|out| - 1], out[|out| - 1], resized, original)))
  }

  /** Saving one more area keeps the earlier ones as they were. */
  lemma SavedInOrderSnoc(dir: set<string>, rects: seq<Annotations.Rect>, out: seq<AreaFile>,
                         resized: Coordinates.Size, original: Coordinates.Size, next: AreaFile)
    requires original.width > 0 && original.height > 0
    requires SavedInOrder(dir, rects, out, resized, original) && |out| < |rects|
    requires SavedFrom(dir + Written(out), rects[|out|], next, resized, original)
    ensures SavedInOrder(dir, rects, out + [next], resized, original)
    ensures Written(out + [next]) == Written(out) + {next.file}
  {
    assert (out + [next])[..|out|] == out;
  }

  /** In a run saved in order, the `i`-th file holds the `i`-th rectangle's
      area and was named against the directory plus the files before it. */
  lemma {:induction false} SavedInOrderAt(dir: set<string>, rects: seq<Annotations.Rect>, out: seq<AreaFile>,
                                          resized: Coordinates.Size, original: Coordinates.Size, i: nat)
    requires original.width > 0 && original.height > 0
    requires SavedInOrder(dir, rects, out, resized, original) && i < |out|
    ensures i < |rects| && SavedFrom(dir + Written(out[..i]), rects[i], out[i], resized, original)
  {
    if i < |out| - 1 {
      var init := out[..|out| - 1];
      assert init[..i] == out[..i] && init[i] == out[i];
      SavedInOrderAt(dir, rects, init, resized, original, i);
    }
  }

  /** An earlier file is among the files written before a later one. */
  lemma {:induction false} WrittenHasEarlier(out: seq<AreaFile>, i: nat, j: nat)
    requires i < j <= |out|
    ensures out[i].file in Written(out[..j])
  {
    var prefix := out[..j];
    assert prefix[..j - 1] == out[..j - 1] && prefix[j - 1] == out[j - 1];
    if i < j - 1 {
      WrittenHasEarlier(out, i, j - 1);
    }
  }

  /** No file of the directory is overwritten, and no two areas of one run
      share a file. */
  lemma SaveNeverOverwrites(dir: set<string>, rects: seq<Annotations.Rect>, out: seq<AreaFile>,
                            resized: Coordinates.Size, original: Coordinates.Size, i: nat, j: nat)
    requires original.width > 0 && original.height > 0
    requires SavedInOrder(dir, rects, out, resized, original) && i < j < |out|
    ensures out[j].file !in dir && out[i].file != out[j].file
  {
    SavedInOrderAt(dir, rects, out, resized, original, j);
    WrittenHasEarlier(out, i, j);
  }

  /** The first file written is not in the directory either. */
  lemma FirstSaveFresh(dir: set<string>, rects: seq<Annotations.Rect>, out: seq<AreaFile>,
                       resized: Coordinates.Size, original: Coordinates.Size)
    requires original.width > 0 && original.height > 0
    requires SavedInOrder(dir, rects, out, resized, original) && 0 < |out|
    ensures out[0].file !in dir
  {
    SavedInOrderAt(dir, rects, out, resized, original, 0);
    assert out[..0] == [];
  }

  /** A run saved in order overwrites no file of the directory and writes
      no file twice. */
  lemma SavedRunFresh(dir: set<string>, rects: seq<Annotations.Rect>, out: seq<AreaFile>,
                      resized: Coordinates.Size, original: Coordinates.Size)
    requires original.width > 0 && original.height > 0
    requires SavedInOrder(dir, rects, out, resized, original)
    ensures forall i :: 0 <= i < |out| ==> out[i].file !in dir
    ensures forall i, j :: 0 <= i < j < |out| ==> out[i].file != out[j].file
  {
    forall i | 0 <= i < |out|
      ensures out[i].file !in dir
    {
      if i == 0 {
        FirstSaveFresh(dir, rects, out, resized, original);
      } else {
        SaveNeverOverwrites(dir, rects, out, resized, original, 0, i);
      }
    }
    forall i, j | 0 <= i < j < |out|
      ensures out[i].file != out[j].file
    {
      SaveNeverOverwrites(dir, rects, out, resized, original, i, j);
    }
  }

  /** `save_all_areas`: nothing is written when there are no rectangles,
      no image (`img is None`) or no directory chosen; otherwise each
      rectangle, in list order, is cut out of the displayed image and
      written under the first free `label[_k].png`, the files already
      written counting as taken. The first rectangle whose region is empty
      makes `cv2.imwrite` raise; the handler reports the failure and the
      rectangles after it are not saved. The recorded original size is
      positive whenever there are rectangles, since drawing one needs an
      image that was read; without rectangles it may still be (0, 0) with
      `img` set, after a reset reloaded a file that could not be read when
      it was opened. So the files written are those of
      the rectangles before the first empty region, none of them overwrites
      a file of the directory and no two areas share a file. */
  method SaveAllAreas(dir: set<string>, rects: seq<Annotations.Rect>, hasImage: bool, dirChosen: bool,
                      resized: Coordinates.Size, original: Coordinates.Size)
    returns (out: seq<AreaFile>, newDir: set<string>, failed: bool)
    requires hasImage && |rects| > 0 ==> original.width > 0 && original.height > 0
    ensures !hasImage || |rects| == 0 || !dirChosen ==> out == [] && newDir == dir && !failed
    ensures hasImage && dirChosen && !failed ==> |out| == |rects|
    ensures failed ==> hasImage && |out| < |rects|
    ensures hasImage && failed ==>
              Coordinates.EmptyRegion(Coordinates.ScaledSlice(rects[|out|], resized, original), resized)
    ensures hasImage && |rects| > 0 ==> SavedInOrder(dir, rects, out, resized, original)
    ensures forall i :: 0 <= i < |out| ==> out[i].file !in dir
    ensures forall i, j :: 0 <= i < j < |out| ==> out[i].file != out[j].file
    ensures newDir == dir + Written(out)
  {
    out, newDir, failed := [], dir, false;
    if |rects| == 0 || !hasImage {
      return;
    }
    if !dirChosen {
      return;
    }
    for i := 0 to |rects|
      invariant |out| == i && !failed
      invariant SavedInOrder(dir, rects, out, resized, original)
      invariant newDir == dir + Written(out)
    {
      var slice := Coordinates.ScaledSlice(rects[i], resized, original);
      var stem := FreshStem(newDir, rects[i].name, "_");
      var filename := FileName(stem);
      if Coordinates.EmptyRegion(slice, resized) {
        failed := true;
        break;
      }
      SavedInOrderSnoc(dir, rects, out, resized, original, AreaFile(filename, slice));
      out := out + [AreaFile(filename, slice)];
      newDir := newDir + {filename};
    }
    SavedRunFresh(dir, rects, out, resized, original);
  }

  /** A click without a drag as the first rectangle: the save fails at once
      and writes nothing. */
  method SaveClickOnly(dir: set<string>, p: Annotations.Rect, resized: Coordinates.Size, original: Coordinates.Size)
    returns (out: seq<AreaFile>, failed: bool)
    requires original.width > 0 && original.height > 0
    requires p.x1 == p.x2
    ensures failed && out == []
  {
    Coordinates.ClickWithoutDragIsEmpty(p, resized, original);
    var newDir;
    out, newDir, failed := SaveAllAreas(dir, [p], true, true, resized, original);
  }

  /** Before any image is opened, `img` is None and the recorded original
      size is (0, 0): Save only warns and writes nothing. */
  method SaveBeforeOpening(dir: set<string>, rects: seq<Annotations.Rect>) returns (out: seq<AreaFile>, failed: bool)
    ensures out == [] && !failed
  {
    var newDir;
    out, newDir, failed := SaveAllAreas(dir, rects, false, true, Coordinates.Size(1260, 900), Coordinates.Size(0, 0));
  }

  /** A file that could not be read when it was opened, then reloaded by a
      reset: `img` is set, the size is still (0, 0) and no rectangle can
      have been drawn. Save only warns and writes nothing. */
  method SaveAfterResetReload(dir: set<string>, resized: Coordinates.Size) returns (out: seq<AreaFile>, failed: bool)
    ensures out == [] && !failed
  {
    var newDir;
    out, newDir, failed := SaveAllAreas(dir, [], true, true, resized, Coordinates.Size(0, 0));
  }

  /** The position of the last `c` in `s`, if any. */
  function LastIndexOf(s: string, c: char): (r: Option<nat>)
    ensures r.None? ==> c !in s
    ensures r.Some? ==> r.value < |s| && s[r.value] == c && c !in s[r.value + 1..]
  {
    if |s| == 0 then None
    else if s[|s| - 1] == c then Some(|s| - 1)
    else
      var r := LastIndexOf(s[..|s| - 1], c);
      assert s == s[..|s| - 1] + [s[|s| - 1]];
      if r.Some? then
        assert s[r.value + 1..] == s[..|s| - 1][r.value + 1..] + [s[|s| - 1]];
        r
      else r
  }

  /** `path.rsplit('.', 1)[0] + "_nobg.png"`: everything before the last dot
      of the whole path (all of it when there is none), then the suffix. */
  function NobgPath(path: string): string {
    var dot := LastIndexOf(path, '.');
    (if dot.Some? then path[..dot.value] else path) + "_nobg.png"
  }

  /** The rewritten path keeps everything before the last dot, drops the dot
      and what follows it (which holds no further dot), and always ends in
      `_nobg.png`. */
  lemma NobgPathShape(path: string)
    ensures var p := NobgPath(path);
            exists stem :: p == stem + "_nobg.png" &&
              ((stem == path && '.' !in path) ||
               (|stem| < |path| && path[..|stem|] == stem && path[|stem|] == '.' && '.' !in path[|stem| + 1..]))
  {
    var dot := LastIndexOf(path, '.');
    if dot.Some? {
      var stem := path[..dot.value];
      assert NobgPath(path) == stem + "_nobg.png";
    } else {
      assert NobgPath(path) == path + "_nobg.png";
    }
  }

  /** `scan.jpg` is rewritten to `scan_nobg.png`. */
  lemma NobgPathExample()
    ensures NobgPath("scan.jpg") == "scan_nobg.png"
  {
    assert LastIndexOf("scan.jpg", '.') == Some(4);
  }

  /** The split is on the last dot of the whole path, not of the file name:
      an extension-less file inside a dotted folder loses the folder's tail. */
  lemma NobgPathDottedFolder()
    ensures NobgPath("a.b/scan") == "a_nobg.png"
  {
    assert LastIndexOf("a.b/scan", '.') == Some(1);
  }
}
