/**
 The pure parts of the image viewer window: which dropped files it keeps,
 which stored path a click on the list selects, and the path the
 metadata-free copy is written to. The window is reduced to the state those
 handlers read and write: the stored paths, the texts shown in the list and
 the selected path.
 */
module Viewer {
  import opened Outcomes
  import opened Text

  /** The extensions the drop handler accepts, lower case. */
  predicate IsImageExtension(e: string) {
    e == ".jpg" || e == ".jpeg" || e == ".png"
  }

  /** `path.lower().endswith((".jpg", ".jpeg", ".png"))` */
  predicate IsImagePath(p: string)
    ensures IsImagePath(p) ==> |p| >= 4
  {
    EndsWithIgnoringCase(p, ".jpg") || EndsWithIgnoringCase(p, ".jpeg") || EndsWithIgnoringCase(p, ".png")
  }

  /** The filter ignores letter case: a path is accepted exactly when its lower-cased form is. */
  lemma ImagePathIgnoresCase(p: string)
    ensures IsImagePath(Lower(p)) <==> IsImagePath(p)
  {
    LowerIdempotent(p);
  }

  /** The dropped paths the handler keeps, in drop order (proto-type.py:71-73). */
  function AcceptedImages(dropped: seq<string>): (r: seq<string>)
    ensures |r| <= |dropped|
    ensures forall p :: p in r <==> p in dropped && IsImagePath(p)
  {
    if |dropped| == 0 then []
    else
      var rest := AcceptedImages(dropped[1..]);
      assert forall p :: p in dropped <==> p == dropped[0] || p in dropped[1..];
      (if IsImagePath(dropped[0]) then [dropped[0]] else []) + rest
  }

  /** Filtering two drops one after the other keeps what filtering them together keeps. */
  lemma {:induction false} AcceptedImagesAppend(a: seq<string>, b: seq<string>)
    ensures AcceptedImages(a + b) == AcceptedImages(a) + AcceptedImages(b)
    decreases |a|
  {
    if |a| == 0 {
      assert a + b == b;
    } else {
      assert (a + b)[0] == a[0];
      assert (a + b)[1..] == a[1..] + b;
      AcceptedImagesAppend(a[1..], b);
    }
  }

  /** What the viewer's handlers share: stored paths, list texts, selected path. */
  datatype ViewerState = ViewerState(paths: seq<string>, items: seq<string>, selected: Option<string>)

  /** The list shows, at each row, the basename of the path stored at that position. */
  predicate ItemsMatchPaths(v: ViewerState) {
    |v.items| == |v.paths| && forall i :: 0 <= i < |v.paths| ==> v.items[i] == Basename(v.paths[i])
  }

  function Basenames(ps: seq<string>): (r: seq<string>)
    ensures |r| == |ps|
    ensures forall i :: 0 <= i < |ps| ==> r[i] == Basename(ps[i])
  {
    seq(|ps|, i requires 0 <= i < |ps| => Basename(ps[i]))
  }

  /**
   dropEvent (proto-type.py:68-75): every accepted path is appended to the
   stored paths and its basename to the list.
   */
  function Drop(v: ViewerState, dropped: seq<string>): (w: ViewerState)
    // earlier paths stay where they were
    ensures |v.paths| <= |w.paths| && w.paths[..|v.paths|] == v.paths
    // appended once each, in drop order, with their basenames shown in the same order
    ensures w.paths == v.paths + AcceptedImages(dropped)
    ensures w.items == v.items + Basenames(AcceptedImages(dropped))
    ensures ItemsMatchPaths(v) ==> ItemsMatchPaths(w)
    ensures w.selected == v.selected
  {
    var accepted := AcceptedImages(dropped);
    var w := ViewerState(v.paths + accepted, v.items + Basenames(accepted), v.selected);
    assert w.paths[..|v.paths|] == v.paths;
    w
  }

  /** The paths a drop adds are exactly the dropped image paths. */
  lemma DropAddsImagePaths(v: ViewerState, dropped: seq<string>)
    ensures var w := Drop(v, dropped);
            forall p :: p in w.paths[|v.paths|..] <==> p in dropped && IsImagePath(p)
  {
    var w := Drop(v, dropped);
    assert w.paths[|v.paths|..] == AcceptedImages(dropped);
  }

  lemma BasenamesAppend(a: seq<string>, b: seq<string>)
    ensures Basenames(a + b) == Basenames(a) + Basenames(b)
  {
    var l, r := Basenames(a + b), Basenames(a) + Basenames(b);
    assert |l| == |r|;
    forall i | 0 <= i < |l|
      ensures l[i] == r[i]
    {
      if i < |a| {
        assert (a + b)[i] == a[i] && r[i] == Basenames(a)[i];
      } else {
        assert (a + b)[i] == b[i - |a|] && r[i] == Basenames(b)[i - |a|];
      }
    }
    assert l == r;
  }

  /** Dropping `a` and then `b` stores the same paths as dropping `a + b` at once. */
  lemma DropTwicePaths(v: ViewerState, a: seq<string>, b: seq<string>)
    ensures Drop(Drop(v, a), b).paths == Drop(v, a + b).paths
  {
    AcceptedImagesAppend(a, b);
    SeqAssoc(v.paths, AcceptedImages(a), AcceptedImages(b));
  }

  /** Dropping `a` and then `b` shows the same list as dropping `a + b` at once. */
  lemma DropTwiceItems(v: ViewerState, a: seq<string>, b: seq<string>)
    ensures Drop(Drop(v, a), b).items == Drop(v, a + b).items
  {
    var na, nb := Basenames(AcceptedImages(a)), Basenames(AcceptedImages(b));
    AcceptedImagesAppend(a, b);
    BasenamesAppend(AcceptedImages(a), AcceptedImages(b));
    SeqAssoc(v.items, na, nb);
  }

  /** Dropping `a` and then `b` leaves the same state as dropping `a + b` at once. */
  lemma DropTwice(v: ViewerState, a: seq<string>, b: seq<string>)
    ensures Drop(Drop(v, a), b) == Drop(v, a + b)
  {
    DropTwicePaths(v, a, b);
    DropTwiceItems(v, a, b);
  }

  lemma UpperCasePngAccepted()
    ensures IsImagePath("/p/a.PNG")
  {
    assert Lower(".PNG") == ".png";
    assert "/p/a.PNG" == "/p/a" + ".PNG";
    PngLength("/p/a", ".PNG");
  }

  lemma GifRejected()
    ensures !IsImagePath("/p/b.gif")
  {
    assert Lower(".gif") == ".gif";
    assert "/p/b.gif" == "/p/b" + ".gif";
    GifIsNotImage("/p/b", ".gif");
  }

  lemma JpegAccepted()
    ensures IsImagePath("/p/c.jpeg")
  {
    assert Lower(".jpeg") == ".jpeg";
    assert "/p/c.jpeg" == "/p/c" + ".jpeg";
    JpegLength("/p/c", ".jpeg");
  }

  /** The upper-case extension passes, `.gif` does not. */
  lemma DropFilterExamples()
    ensures AcceptedImages(["/p/a.PNG", "/p/b.gif", "/p/c.jpeg"]) == ["/p/a.PNG", "/p/c.jpeg"]
  {
    UpperCasePngAccepted();
    GifRejected();
    JpegAccepted();
    KeepFirstAndLast("/p/a.PNG", "/p/b.gif", "/p/c.jpeg");
  }

  lemma KeepFirstAndLast(x: string, y: string, z: string)
    requires IsImagePath(x) && !IsImagePath(y) && IsImagePath(z)
    ensures AcceptedImages([x, y, z]) == [x, z]
  {
    assert [x, y, z][1..] == [y, z] && [y, z][1..] == [z] && [z][1..] == [];
    assert AcceptedImages([z]) == [z];
    assert AcceptedImages([y, z]) == [z];
  }

  /** The position of the first occurrence of `x` in `s`, if any. */
  function FirstIndex<T(==)>(s: seq<T>, x: T): (r: Option<nat>)
    ensures r.Some? ==> r.value < |s| && s[r.value] == x && x !in s[..r.value]
    ensures r.None? <==> x !in s
  {
    if |s| == 0 then None
    else if s[0] == x then Some(0)
    else
      var rest := FirstIndex(s[1..], x);
      if rest.None? then None
      else
        assert s[..rest.value + 1] == [s[0]] + s[1..][..rest.value];
        Some(rest.value + 1)
  }

  /**
   load_selected_image (proto-type.py:77-85), with `load_metadata` reduced to
   its effect on the selected path (proto-type.py:99). `current` is the text
   of the list's current item, if there is one.
   */
  function SelectItem(v: ViewerState, current: Option<string>): (w: ViewerState)
    ensures w.paths == v.paths && w.items == v.items
    // with a matching path, the first one becomes the selected path
    ensures current.Some? && current.value in Basenames(v.paths) ==>
              exists i :: (0 <= i < |v.paths| && w.selected == Some(v.paths[i]) &&
                           Basename(v.paths[i]) == current.value &&
                           current.value !in Basenames(v.paths)[..i])
    // without one, nothing changes
    ensures current.None? || current.value !in Basenames(v.paths) ==> w == v
  {
    if current.None? then v
    else
      match FirstIndex(Basenames(v.paths), current.value)
      case None => v
      case Some(i) => v.(selected := Some(v.paths[i]))
  }

  /**
   Clicking any row of a consistent list selects a path, and the one selected
   is the first with that row's basename, at or before the row.
   */
  lemma SelectingShownItemFindsPath(v: ViewerState, row: int)
    requires ItemsMatchPaths(v) && 0 <= row < |v.items|
    ensures exists i :: (0 <= i <= row && SelectItem(v, Some(v.items[row])).selected == Some(v.paths[i]) &&
                         Basename(v.paths[i]) == v.items[row])
  {
    var name, names := v.items[row], Basenames(v.paths);
    FirstIndexAtMost(names, name, row);
    var i := FirstIndex(names, name).value;
    assert SelectItem(v, Some(name)).selected == Some(v.paths[i]);
    assert Basename(v.paths[i]) == names[i];
  }

  /** The first occurrence is at or before any occurrence. */
  lemma {:induction false} FirstIndexAtMost<T>(s: seq<T>, x: T, j: int)
    requires 0 <= j < |s| && s[j] == x
    ensures FirstIndex(s, x).Some? && FirstIndex(s, x).value <= j
    decreases j
  {
    if s[0] != x {
      assert s[1..][j - 1] == x;
      FirstIndexAtMost(s[1..], x, j - 1);
    }
  }

  /** Two stored paths with the same basename: clicking either row selects the first. */
  lemma DuplicateBasenameSelectsFirst(p: string, q: string, selected: Option<string>)
    requires Basename(p) == Basename(q)
    ensures var v := ViewerState([p, q], [Basename(p), Basename(q)], selected);
            SelectItem(v, Some(v.items[1])).selected == Some(p)
  {
  }

  lemma DuplicateBasenameExample()
    ensures var v := ViewerState(["/a/x.png", "/b/x.png"], ["x.png", "x.png"], None);
            SelectItem(v, Some("x.png")).selected == Some("/a/x.png")
  {
    assert "/a/x.png" == "/a" + "/" + "x.png" && "/b/x.png" == "/b" + "/" + "x.png";
    BasenameAfterSlash("/a", "x.png");
    BasenameAfterSlash("/b", "x.png");
    DuplicateBasenameSelectsFirst("/a/x.png", "/b/x.png", None);
  }

  // ---------------------------------------------------------------------
  // The output path of remove_metadata

  /**
   The output path exactly as proto-type.py:110 computes it: three global,
   case-sensitive replacements over the whole path.
   */
  function CleanPath(p: string): (r: string)
    ensures |r| >= |p|
  {
    var s1 := Replace(p, ".jpg", "_clean.jpg");
    var s2 := Replace(s1, ".jpeg", "_clean.jpeg");
    ReplaceLength(p, ".jpg", "_clean.jpg");
    ReplaceLength(s1, ".jpeg", "_clean.jpeg");
    ReplaceLength(s2, ".png", "_clean.png");
    Replace(s2, ".png", "_clean.png")
  }

  /** The rewrite leaves a path unchanged exactly when no lower-case pattern occurs in it. */
  lemma CleanPathIdentityIff(p: string)
    ensures CleanPath(p) == p <==> !Occurs(p, ".jpg") && !Occurs(p, ".jpeg") && !Occurs(p, ".png")
  {
    var s1 := Replace(p, ".jpg", "_clean.jpg");
    var s2 := Replace(s1, ".jpeg", "_clean.jpeg");
    var s3 := Replace(s2, ".png", "_clean.png");
    ReplaceLength(p, ".jpg", "_clean.jpg");
    ReplaceLength(s1, ".jpeg", "_clean.jpeg");
    ReplaceLength(s2, ".png", "_clean.png");
    if !Occurs(p, ".jpg") {
      ReplaceAbsent(p, ".jpg", "_clean.jpg");
      if !Occurs(p, ".jpeg") {
        ReplaceAbsent(s1, ".jpeg", "_clean.jpeg");
        if !Occurs(p, ".png") {
          ReplaceAbsent(s2, ".png", "_clean.png");
        }
      }
    }
  }

  /** A path with no lower-case `j` and no lower-case `p` is its own output path. */
  lemma CleanPathWithoutLowerPatterns(p: string)
    requires 'j' !in p && 'p' !in p
    ensures CleanPath(p) == p
  {
    MissingCharRulesOut(p, ".jpg", 1);
    MissingCharRulesOut(p, ".jpeg", 1);
    MissingCharRulesOut(p, ".png", 1);
    CleanPathIdentityIff(p);
  }

  /**
   The upper-case image `/d/IMG.JPG` is accepted by the drop filter, yet its
   output path is the path itself: saving would overwrite the original.
   */
  lemma UpperCaseImageMapsToItself()
    ensures IsImagePath("/d/IMG.JPG")
    ensures CleanPath("/d/IMG.JPG") == "/d/IMG.JPG"
  {
    UpperCaseJpgAccepted();
    UpperCaseJpgUnchanged();
  }

  lemma UpperCaseJpgAccepted()
    ensures IsImagePath("/d/IMG.JPG")
  {
    assert Lower(".JPG") == ".jpg";
    assert "/d/IMG.JPG" == "/d/IMG" + ".JPG";
    JpgLength("/d/IMG", ".JPG");
  }

  lemma UpperCaseJpgUnchanged()
    ensures CleanPath("/d/IMG.JPG") == "/d/IMG.JPG"
  {
    CleanPathWithoutLowerPatterns("/d/IMG.JPG");
  }

  /** Patterns inside directory names are rewritten too. */
  lemma DirectoryNameRewritten()
    ensures CleanPath("/a.png.d/x.png") == "/a_clean.png.d/x_clean.png"
  {
    var p := "/a.png.d/x.png";
    assert 'j' !in p;
    MissingCharRulesOut(p, ".jpg", 1);
    ReplaceAbsent(p, ".jpg", "_clean.jpg");
    MissingCharRulesOut(p, ".jpeg", 1);
    ReplaceAbsent(p, ".jpeg", "_clean.jpeg");
    PngInDirectoryAndFile();
  }

  lemma PngInDirectoryAndFile()
    ensures Replace("/a.png.d/x.png", ".png", "_clean.png") == "/a_clean.png.d/x_clean.png"
  {
    assert "/a.png.d/x.png" == "/a" + ".png" + ".d/x" + ".png";
    assert "/a_clean.png.d/x_clean.png" == "/a" + "_clean.png" + ".d/x" + "_clean.png";
    PngTwice("/a", ".d/x");
  }

  lemma PngTwice(a: string, c: string)
    requires 'g' !in a && 'g' !in c
    ensures Replace(a + ".png" + c + ".png", ".png", "_clean.png") == a + "_clean.png" + c + "_clean.png"
  {
    assert a + ".png" + c + ".png" == a + ".png" + (c + ".png");
    PngReplacedOnce(a, c + ".png");
    assert c + ".png" == c + ".png" + [];
    PngReplacedOnce(c, []);
    assert Replace([], ".png", "_clean.png") == [];
  }

  /** The first `.png` after a stem without `g` is replaced, and the rest follows. */
  lemma PngReplacedOnce(a: string, b: string)
    requires 'g' !in a
    ensures Replace(a + ".png" + b, ".png", "_clean.png") == a + "_clean.png" + Replace(b, ".png", "_clean.png")
  {
    assert ".png"[..3] == ".pn";
    assert 'g' !in a + ".pn";
    MissingCharRulesOut(a + ".pn", ".png", 3);
    ReplaceFirst(a, ".png", b, "_clean.png");
  }

  /** `s` holds a `.` at index `d` and nowhere else. */
  predicate OnlyDotAt(s: string, d: int) {
    0 <= d < |s| && s[d] == '.' && forall i :: 0 <= i < |s| && i != d ==> s[i] != '.'
  }

  lemma OnlyDotAfterStem(stem: string, tail: string, k: int)
    requires '.' !in stem && OnlyDotAt(tail, k)
    ensures OnlyDotAt(stem + tail, |stem| + k)
  {
    var s := stem + tail;
    forall i | 0 <= i < |s| && i != |stem| + k ensures s[i] != '.' {
      if i < |stem| {
        assert s[i] == stem[i];
      } else {
        assert s[i] == tail[i - |stem|];
      }
    }
  }

  /** A pattern starting with `.` can only occur at the one dot of `s`. */
  lemma DotPatternOnlyAtDot(s: string, d: int, pat: string)
    requires OnlyDotAt(s, d) && |pat| > 0 && pat[0] == '.'
    ensures Occurs(s, pat) <==> OccursAt(s, pat, d)
  {
    forall i | 0 <= i <= |s| && OccursAt(s, pat, i) ensures i == d {
      assert s[i..i + |pat|][0] == s[i];
    }
  }

  /** A pattern starting with `.` that does not fit at the one dot of `s` is not replaced. */
  lemma ReplaceMissesDot(s: string, d: int, pat: string, rep: string, k: int)
    requires OnlyDotAt(s, d) && |pat| > 0 && pat[0] == '.'
    requires d + |pat| > |s| || (0 <= k < |pat| && d + k < |s| && s[d + k] != pat[k])
    ensures Replace(s, pat, rep) == s
  {
    DotPatternOnlyAtDot(s, d, pat);
    if d + |pat| <= |s| {
      assert s[d..d + |pat|][k] == s[d + k];
    }
    ReplaceAbsent(s, pat, rep);
  }

  /** `stem + ext` with the pattern `ext` at its only dot becomes `stem + "_clean" + ext` under that step. */
  lemma ReplaceAtOnlyDot(stem: string, ext: string)
    requires '.' !in stem && OnlyDotAt(ext, 0) && |ext| > 1
    ensures Replace(stem + ext, ext, "_clean" + ext) == stem + "_clean" + ext
  {
    var init := ext[..|ext| - 1];
    assert OnlyDotAt(init, 0) by {
      forall i | 0 <= i < |init| ensures init[i] == ext[i] { }
    }
    OnlyDotAfterStem(stem, init, 0);
    DotPatternOnlyAtDot(stem + init, |stem|, ext);
    assert stem + ext == stem + ext + [];
    ReplaceFirst(stem, ext, [], "_clean" + ext);
    assert Replace([], ext, "_clean" + ext) == [];
  }

  lemma CleanJpg(stem: string)
    requires '.' !in stem
    ensures CleanPath(stem + ".jpg") == stem + "_clean.jpg"
  {
    assert OnlyDotAt(".jpg", 0);
    ReplaceAtOnlyDot(stem, ".jpg");
    var s1 := stem + "_clean.jpg";
    assert "_clean" + ".jpg" == "_clean.jpg";
    assert stem + "_clean" + ".jpg" == s1;
    assert OnlyDotAt("_clean.jpg", 6);
    OnlyDotAfterStem(stem, "_clean.jpg", 6);
    ReplaceMissesDot(s1, |stem| + 6, ".jpeg", "_clean.jpeg", 0);
    assert s1[|stem| + 7] == 'j';
    ReplaceMissesDot(s1, |stem| + 6, ".png", "_clean.png", 1);
  }

  lemma CleanJpeg(stem: string)
    requires '.' !in stem
    ensures CleanPath(stem + ".jpeg") == stem + "_clean.jpeg"
  {
    var s := stem + ".jpeg";
    assert OnlyDotAt(".jpeg", 0);
    OnlyDotAfterStem(stem, ".jpeg", 0);
    assert s[|stem| + 3] == 'e';
    ReplaceMissesDot(s, |stem|, ".jpg", "_clean.jpg", 3);
    ReplaceAtOnlyDot(stem, ".jpeg");
    var s2 := stem + "_clean.jpeg";
    assert "_clean" + ".jpeg" == "_clean.jpeg";
    assert stem + "_clean" + ".jpeg" == s2;
    assert OnlyDotAt("_clean.jpeg", 6);
    OnlyDotAfterStem(stem, "_clean.jpeg", 6);
    assert s2[|stem| + 7] == 'j';
    ReplaceMissesDot(s2, |stem| + 6, ".png", "_clean.png", 1);
  }

  lemma CleanPng(stem: string)
    requires '.' !in stem
    ensures CleanPath(stem + ".png") == stem + "_clean.png"
  {
    var s := stem + ".png";
    assert OnlyDotAt(".png", 0);
    OnlyDotAfterStem(stem, ".png", 0);
    assert s[|stem| + 1] == 'p';
    ReplaceMissesDot(s, |stem|, ".jpg", "_clean.jpg", 1);
    ReplaceMissesDot(s, |stem|, ".jpeg", "_clean.jpeg", 1);
    ReplaceAtOnlyDot(stem, ".png");
    assert "_clean" + ".png" == "_clean.png";
  }

  /**
   On the paths the rewrite was written for, a single dot followed by a
   lower-case extension, it inserts `_clean` before the extension.
   */
  lemma CleanPathSingleExtension(stem: string, ext: string)
    requires '.' !in stem && IsImageExtension(ext)
    ensures CleanPath(stem + ext) == stem + "_clean" + ext
  {
    if ext == ".jpg" {
      CleanJpg(stem);
    } else if ext == ".jpeg" {
      CleanJpeg(stem);
    } else {
      CleanPng(stem);
    }
  }

  // ---------------------------------------------------------------------
  // The chain as one pass

  /** An extension pattern of the chain: a dot, then at least one character that is neither a dot nor `_`. */
  predicate DotPattern(pat: string) {
    |pat| > 1 && pat[0] == '.' && '.' !in pat[1..] && '_' !in pat[1..]
  }

  /** Neither string is a prefix of the other, so the two never start at the same index. */
  predicate Incomparable(a: string, b: string) {
    !(a <= b) && !(b <= a)
  }

  const ImagePatterns: set<string> := {".jpg", ".jpeg", ".png"}

  /** Some pattern of `pats` starts at the front of `s`. */
  predicate StartsWithAny(s: string, pats: set<string>) {
    exists pat :: pat in pats && OccursAt(s, pat, 0)
  }

  /**
   A single left-to-right pass that copies `s` and writes `_clean` in front of
   every index at which a pattern of `pats` begins.
   */
  function Mark(s: string, pats: set<string>): (r: string)
    ensures |r| >= |s|
    decreases |s|
  {
    if |s| == 0 then []
    else (if StartsWithAny(s, pats) then "_clean" else []) + [s[0]] + Mark(s[1..], pats)
  }

  lemma NoPatternAtNonDot(s: string, pat: string)
    requires |s| > 0 && s[0] != '.' && DotPattern(pat)
    ensures !OccursAt(s, pat, 0)
  {
    if |pat| <= |s| {
      assert s[..|pat|][0] != pat[0];
    }
  }

  lemma DifferAt(a: string, b: string, k: int)
    requires 0 <= k < |a| && k < |b| && a[k] != b[k]
    ensures Incomparable(a, b)
  {
    if |a| <= |b| {
      assert b[..|a|][k] != a[k];
    } else {
      assert a[..|b|][k] != b[k];
    }
  }

  /** Two incomparable patterns never both start at the front of `s`. */
  lemma NotBothAtFront(s: string, a: string, b: string)
    requires OccursAt(s, a, 0) && Incomparable(a, b)
    ensures !OccursAt(s, b, 0)
  {
    if |b| <= |s| {
      if |a| <= |b| {
        assert s[..|b|][..|a|] == a;
      } else {
        assert s[..|a|][..|b|] == s[..|b|];
      }
    }
  }

  lemma OccursAtFrontCons(c: char, u: string, w: string)
    requires |w| > 0
    ensures OccursAt([c] + u, w, 0) <==> c == w[0] && OccursAt(u, w[1..], 0)
  {
    if |w| <= |u| + 1 {
      assert ([c] + u)[..|w|] == [c] + u[..|w| - 1];
      assert w == [w[0]] + w[1..];
    }
  }

  /** A pass copies a dot-free prefix unchanged: no pattern begins inside it. */
  lemma {:induction false} MarkPassesDotFree(x: string, t: string, pats: set<string>)
    requires '.' !in x
    requires forall pat :: pat in pats ==> DotPattern(pat)
    ensures Mark(x + t, pats) == x + Mark(t, pats)
    decreases |x|
  {
    if |x| == 0 {
      assert x + t == t;
    } else {
      var s := x + t;
      forall pat | pat in pats ensures !OccursAt(s, pat, 0) {
        NoPatternAtNonDot(s, pat);
      }
      assert s[1..] == x[1..] + t;
      MarkPassesDotFree(x[1..], t, pats);
      assert x == [x[0]] + x[1..];
    }
  }

  /** Where `pat` starts, the pass writes `_clean` and copies `pat`, then goes on after it. */
  lemma MarkAtPattern(s: string, pat: string)
    requires DotPattern(pat) && OccursAt(s, pat, 0)
    ensures Mark(s, {pat}) == "_clean" + pat + Mark(s[|pat|..], {pat})
  {
    var rest := s[|pat|..];
    assert s[1..] == pat[1..] + rest;
    MarkPassesDotFree(pat[1..], rest, {pat});
    assert StartsWithAny(s, {pat});
    assert [s[0]] + pat[1..] == pat;
    assert Mark(s, {pat}) == "_clean" + ([s[0]] + (pat[1..] + Mark(rest, {pat})));
  }

  /** Where `pat` starts, the replacement step and the pass agree once they agree after the occurrence. */
  lemma ReplaceIsMarkAtPattern(s: string, pat: string)
    requires DotPattern(pat) && OccursAt(s, pat, 0)
    requires Replace(s[|pat|..], pat, "_clean" + pat) == Mark(s[|pat|..], {pat})
    ensures Replace(s, pat, "_clean" + pat) == Mark(s, {pat})
  {
    MarkAtPattern(s, pat);
    assert s[..|pat|] == pat;
  }

  /** Where `pat` does not start, both copy the first character and go on. */
  lemma ReplaceIsMarkElsewhere(s: string, pat: string)
    requires DotPattern(pat) && |s| > 0 && !OccursAt(s, pat, 0)
    requires Replace(s[1..], pat, "_clean" + pat) == Mark(s[1..], {pat})
    ensures Replace(s, pat, "_clean" + pat) == Mark(s, {pat})
  {
    MarkStep(s, {pat});
    assert !StartsWithAny(s, {pat});
    assert CleanIf(false) + ([s[0]] + Mark(s[1..], {pat})) == [s[0]] + Mark(s[1..], {pat});
    if |s| < |pat| {
      assert Replace(s[1..], pat, "_clean" + pat) == s[1..];
      assert s == [s[0]] + s[1..];
    } else {
      ReplaceSkip(s, pat, "_clean" + pat);
    }
  }

  /** One replacement step of the chain is one pass with its own pattern. */
  lemma {:induction false} ReplaceIsMark(s: string, pat: string)
    requires DotPattern(pat)
    ensures Replace(s, pat, "_clean" + pat) == Mark(s, {pat})
    decreases |s|
  {
    if |s| > 0 {
      if OccursAt(s, pat, 0) {
        ReplaceIsMark(s[|pat|..], pat);
        ReplaceIsMarkAtPattern(s, pat);
      } else {
        ReplaceIsMark(s[1..], pat);
        ReplaceIsMarkElsewhere(s, pat);
      }
    }
  }

  /** Where a pattern starts, neither the pass's output nor the input starts with a word without dots or underscores. */
  lemma PlainWordNotAtPattern(t: string, w: string, pats: set<string>)
    requires |w| > 0 && '.' !in w && '_' !in w && |t| > 0
    requires forall pat :: pat in pats ==> DotPattern(pat)
    requires StartsWithAny(t, pats)
    ensures !OccursAt(Mark(t, pats), w, 0) && !OccursAt(t, w, 0)
  {
    var pat :| pat in pats && OccursAt(t, pat, 0);
    assert t[..|pat|][0] == t[0];
    var m := Mark(t, pats);
    MarkStep(t, pats);
    assert m[0] == '_';
    assert w[0] != '.' && w[0] != '_';
    if |w| <= |t| {
      assert t[..|w|][0] != w[0];
    }
    if |w| <= |m| {
      assert m[..|w|][0] != w[0];
    }
  }

  /** Elsewhere the pass copies the first character, so the word's first character is compared with it. */
  lemma PlainWordElsewhere(t: string, w: string, pats: set<string>)
    requires |w| > 0 && |t| > 0 && !StartsWithAny(t, pats)
    requires OccursAt(Mark(t[1..], pats), w[1..], 0) <==> OccursAt(t[1..], w[1..], 0)
    ensures OccursAt(Mark(t, pats), w, 0) <==> OccursAt(t, w, 0)
  {
    MarkStep(t, pats);
    assert CleanIf(false) + ([t[0]] + Mark(t[1..], pats)) == [t[0]] + Mark(t[1..], pats);
    OccursAtFrontCons(t[0], Mark(t[1..], pats), w);
    OccursAtFrontCons(t[0], t[1..], w);
    assert t == [t[0]] + t[1..];
  }

  /** A pass never creates nor destroys a front occurrence of a word without dots or underscores. */
  lemma {:induction false} MarkKeepsPlainPrefix(t: string, w: string, pats: set<string>)
    requires '.' !in w && '_' !in w
    requires forall pat :: pat in pats ==> DotPattern(pat)
    ensures OccursAt(Mark(t, pats), w, 0) <==> OccursAt(t, w, 0)
    decreases |w|
  {
    if |w| > 0 && |t| > 0 {
      if StartsWithAny(t, pats) {
        PlainWordNotAtPattern(t, w, pats);
      } else {
        MarkKeepsPlainPrefix(t[1..], w[1..], pats);
        PlainWordElsewhere(t, w, pats);
      }
    }
  }

  function CleanIf(b: bool): string {
    if b then "_clean" else []
  }

  lemma CleanIfDotFree(b: bool)
    ensures '.' !in CleanIf(b)
  {
    assert forall i :: 0 <= i < |"_clean"| ==> "_clean"[i] != '.';
  }

  /** The front step of a pass, with the inserted text named. */
  lemma MarkStep(s: string, pats: set<string>)
    requires |s| > 0
    ensures Mark(s, pats) == CleanIf(StartsWithAny(s, pats)) + ([s[0]] + Mark(s[1..], pats))
  {
  }

  /** A pass with `pat` sees an occurrence at the front of a marked string exactly when the unmarked one has it. */
  lemma MarkedFront(s: string, pats: set<string>, pat: string)
    requires |s| > 0 && DotPattern(pat)
    requires forall p :: p in pats ==> DotPattern(p)
    ensures Mark([s[0]] + Mark(s[1..], pats), {pat})
         == CleanIf(OccursAt(s, pat, 0)) + ([s[0]] + Mark(Mark(s[1..], pats), {pat}))
  {
    var rest := Mark(s[1..], pats);
    var u := [s[0]] + rest;
    assert u[1..] == rest;
    MarkKeepsPlainPrefix(s[1..], pat[1..], pats);
    OccursAtFrontCons(s[0], rest, pat);
    OccursAtFrontCons(s[0], s[1..], pat);
    assert s == [s[0]] + s[1..];
    assert StartsWithAny(u, {pat}) <==> OccursAt(s, pat, 0);
  }

  /** The front step of a pass with `pat` over the output of a pass with `pats`. */
  lemma ComposeFront(s: string, pats: set<string>, pat: string)
    requires |s| > 0 && DotPattern(pat)
    requires forall p :: p in pats ==> DotPattern(p)
    ensures Mark(Mark(s, pats), {pat})
         == CleanIf(StartsWithAny(s, pats)) + (CleanIf(OccursAt(s, pat, 0)) + ([s[0]] + Mark(Mark(s[1..], pats), {pat})))
  {
    var ins := CleanIf(StartsWithAny(s, pats));
    var u := [s[0]] + Mark(s[1..], pats);
    MarkStep(s, pats);
    CleanIfDotFree(StartsWithAny(s, pats));
    MarkPassesDotFree(ins, u, {pat});
    MarkedFront(s, pats, pat);
  }

  /** A pattern of `pats + {pat}` starts at the front exactly when one of `pats` or `pat` does. */
  lemma StartsWithAnyUnion(s: string, pats: set<string>, pat: string)
    ensures StartsWithAny(s, pats + {pat}) <==> StartsWithAny(s, pats) || OccursAt(s, pat, 0)
  {
    if OccursAt(s, pat, 0) {
      assert pat in pats + {pat};
    }
  }

  /** The front step of one pass with `pats + {pat}`: at most one of the two begins at the front. */
  lemma UnionFront(s: string, pats: set<string>, pat: string)
    requires |s| > 0
    requires forall p :: p in pats ==> Incomparable(p, pat)
    ensures Mark(s, pats + {pat})
         == CleanIf(StartsWithAny(s, pats)) + (CleanIf(OccursAt(s, pat, 0)) + ([s[0]] + Mark(s[1..], pats + {pat})))
  {
    var tail := [s[0]] + Mark(s[1..], pats + {pat});
    MarkStep(s, pats + {pat});
    StartsWithAnyUnion(s, pats, pat);
    if StartsWithAny(s, pats) {
      var p :| p in pats && OccursAt(s, p, 0);
      NotBothAtFront(s, p, pat);
    }
    assert CleanIf(false) + tail == tail;
  }

  /**
   A pass with `pat` after a pass with `pats` is one pass with both, when
   `pat` never starts where a pattern of `pats` does.
   */
  lemma {:induction false} MarkCompose(s: string, pats: set<string>, pat: string)
    requires DotPattern(pat)
    requires forall p :: p in pats ==> DotPattern(p) && Incomparable(p, pat)
    ensures Mark(Mark(s, pats), {pat}) == Mark(s, pats + {pat})
    decreases |s|
  {
    if |s| > 0 {
      ComposeFront(s, pats, pat);
      UnionFront(s, pats, pat);
      MarkCompose(s[1..], pats, pat);
    }
  }

  /**
   The three replacements never disturb one another: the chain equals one pass
   that writes `_clean` in front of every `.jpg`, `.jpeg` and `.png` of the
   path, wherever in the path they stand.
   */
  lemma CleanPathMarksEveryPattern(p: string)
    ensures CleanPath(p) == Mark(p, ImagePatterns)
  {
    var s1 := Replace(p, ".jpg", "_clean.jpg");
    var s2 := Replace(s1, ".jpeg", "_clean.jpeg");
    assert "_clean" + ".jpg" == "_clean.jpg";
    assert "_clean" + ".jpeg" == "_clean.jpeg";
    assert "_clean" + ".png" == "_clean.png";
    assert DotPattern(".jpg") && DotPattern(".jpeg") && DotPattern(".png");
    DifferAt(".jpg", ".jpeg", 3);
    DifferAt(".jpg", ".png", 1);
    DifferAt(".jpeg", ".png", 1);
    ReplaceIsMark(p, ".jpg");
    ReplaceIsMark(s1, ".jpeg");
    ReplaceIsMark(s2, ".png");
    MarkCompose(p, {".jpg"}, ".jpeg");
    assert {".jpg"} + {".jpeg"} == {".jpg", ".jpeg"};
    MarkCompose(p, {".jpg", ".jpeg"}, ".png");
    assert {".jpg", ".jpeg"} + {".png"} == ImagePatterns;
  }

  // ---------------------------------------------------------------------
  // The output path as intended

  /** The length of the image extension `p` ends with, ignoring case; 0 for none. */
  function ImageExtensionLength(p: string): (n: nat)
    ensures n <= |p|
    ensures n > 0 <==> IsImagePath(p)
  {
    if EndsWithIgnoringCase(p, ".jpeg") then 5
    else if EndsWithIgnoringCase(p, ".jpg") || EndsWithIgnoringCase(p, ".png") then 4
    else 0
  }

  /** The last `ImageExtensionLength(p)` characters of an image path are its extension. */
  lemma ExtensionAtEnd(p: string)
    requires IsImagePath(p)
    ensures IsImageExtension(Lower(p[|p| - ImageExtensionLength(p)..]))
  {
    var n := ImageExtensionLength(p);
    LowerSlice(p, |p| - n);
  }

  lemma NoSlashIn(s: string)
    requires '/' !in Lower(s)
    ensures '/' !in s
  {
    forall i | 0 <= i < |s| ensures s[i] != '/' {
      assert Lower(s)[i] == LowerChar(s[i]);
    }
  }

  /** Inserting `_clean` before an image extension gives another image path. */
  lemma InsertBeforeExtension(p: string, n: int)
    requires 0 < n <= |p| && IsImageExtension(Lower(p[|p| - n..]))
    ensures var k := |p| - n;
            var r := p[..k] + "_clean" + p[k..];
            IsImagePath(r) && '/' !in p[k..]
  {
    var k := |p| - n;
    var pre, ext := p[..k] + "_clean", p[k..];
    var e := Lower(ext);
    assert '/' !in e;
    NoSlashIn(ext);
    LowerAppend(pre, ext);
    var l := Lower(pre + ext);
    assert l[|l| - n..] == e;
    assert EndsWith(l, e);
  }

  /**
   The output path the rewrite evidently intends: `_clean` inserted before
   the final extension of an image path, matched case-insensitively; any
   other path is returned unchanged.
   */
  function CleanOutputPath(p: string): (r: string)
    ensures !IsImagePath(p) ==> r == p
    ensures IsImagePath(p) ==> r != p && IsImagePath(r)
    ensures IsImagePath(p) ==>
              exists k :: (0 <= k <= |p| && r == p[..k] + "_clean" + p[k..] &&
                           IsImageExtension(Lower(p[k..])) && '/' !in p[k..])
  {
    var n := ImageExtensionLength(p);
    if n == 0 then p
    else
      var k := |p| - n;
      ExtensionAtEnd(p);
      InsertBeforeExtension(p, n);
      var r := p[..k] + "_clean" + p[k..];
      assert |r| == |p| + 6;
      r
  }

  lemma DotFourFromEndIsNotJpeg(l: string)
    requires |l| >= 4 && l[|l| - 4] == '.'
    ensures !EndsWith(l, ".jpeg")
  {
    if |l| >= 5 {
      assert l[|l| - 5..][1] == l[|l| - 4];
    }
  }

  lemma JpegLength(stem: string, ext: string)
    requires Lower(ext) == ".jpeg"
    ensures ImageExtensionLength(stem + ext) == 5
  {
    LowerEndsWith(stem, ext);
  }

  lemma JpgLength(stem: string, ext: string)
    requires Lower(ext) == ".jpg"
    ensures ImageExtensionLength(stem + ext) == 4
  {
    LowerEndsWith(stem, ext);
    var l := Lower(stem + ext);
    assert l[|l| - 4..] == ".jpg";
    assert l[|l| - 4] == '.';
    DotFourFromEndIsNotJpeg(l);
  }

  lemma PngLength(stem: string, ext: string)
    requires Lower(ext) == ".png"
    ensures ImageExtensionLength(stem + ext) == 4
  {
    LowerEndsWith(stem, ext);
    var l := Lower(stem + ext);
    assert l[|l| - 4..] == ".png";
    assert l[|l| - 4] == '.' && l[|l| - 3] == 'p';
    DotFourFromEndIsNotJpeg(l);
    ThreeFromEndRulesOut(l, ".jpg");
  }

  /** A `.gif` file, in any case, is not an image path. */
  lemma GifIsNotImage(stem: string, ext: string)
    requires Lower(ext) == ".gif"
    ensures !IsImagePath(stem + ext)
  {
    LowerEndsWith(stem, ext);
    var l := Lower(stem + ext);
    assert l[|l| - 4..] == ".gif";
    assert l[|l| - 4] == '.' && l[|l| - 3] == 'g';
    DotFourFromEndIsNotJpeg(l);
    ThreeFromEndRulesOut(l, ".jpg");
    ThreeFromEndRulesOut(l, ".png");
  }

  /** The corrected rewrite inserts `_clean` right before the extension, whatever its case. */
  lemma CleanOutputPathOf(stem: string, ext: string)
    requires 0 < |ext| && ImageExtensionLength(stem + ext) == |ext|
    ensures CleanOutputPath(stem + ext) == stem + "_clean" + ext
  {
    var p := stem + ext;
    assert p[..|stem|] == stem && p[|stem|..] == ext;
  }

  /** Where the rewrite works, the two agree. */
  lemma CleanOutputPathAgrees(stem: string, ext: string)
    requires '.' !in stem && IsImageExtension(ext)
    ensures CleanOutputPath(stem + ext) == CleanPath(stem + ext)
  {
    CleanPathSingleExtension(stem, ext);
    if ext == ".jpg" {
      assert Lower(".jpg") == ".jpg";
      JpgLength(stem, ext);
    } else if ext == ".jpeg" {
      assert Lower(".jpeg") == ".jpeg";
      JpegLength(stem, ext);
    } else {
      assert Lower(".png") == ".png";
      PngLength(stem, ext);
    }
    CleanOutputPathOf(stem, ext);
  }

  /** The corrected path differs from the input, and keeps the directory. */
  lemma CleanOutputPathExamples()
    ensures CleanOutputPath("/d/IMG.JPG") == "/d/IMG_clean.JPG"
    ensures CleanOutputPath("/a.png.d/x.png") == "/a.png.d/x_clean.png"
  {
    CleanOutputUpperCase();
    CleanOutputDottedDirectory();
  }

  lemma CleanOutputUpperCase()
    ensures CleanOutputPath("/d/IMG.JPG") == "/d/IMG_clean.JPG"
  {
    assert Lower(".JPG") == ".jpg";
    assert "/d/IMG.JPG" == "/d/IMG" + ".JPG";
    assert "/d/IMG_clean.JPG" == "/d/IMG" + "_clean" + ".JPG";
    JpgLength("/d/IMG", ".JPG");
    CleanOutputPathOf("/d/IMG", ".JPG");
  }

  lemma CleanOutputDottedDirectory()
    ensures CleanOutputPath("/a.png.d/x.png") == "/a.png.d/x_clean.png"
  {
    assert Lower(".png") == ".png";
    assert "/a.png.d/x.png" == "/a.png.d/x" + ".png";
    assert "/a.png.d/x_clean.png" == "/a.png.d/x" + "_clean" + ".png";
    PngLength("/a.png.d/x", ".png");
    CleanOutputPathOf("/a.png.d/x", ".png");
  }

  /**
   remove_metadata (proto-type.py:108-111): the path the copy is written to,
   computed by the rewrite of line 110, or nothing when no image has been
   selected.
   */
  function RemoveTarget(v: ViewerState): (r: Option<string>)
    ensures r.Some? <==> v.selected.Some? && v.selected.value != ""
    // the copy lands on the original exactly when no lower-case pattern occurs in its path
    ensures r.Some? ==>
              (r.value == v.selected.value <==>
               !Occurs(v.selected.value, ".jpg") && !Occurs(v.selected.value, ".jpeg") &&
               !Occurs(v.selected.value, ".png"))
    ensures r.Some? ==> |r.value| >= |v.selected.value|
  {
    match v.selected
    case None => None
    case Some(p) =>
      if p == "" then None
      else
        CleanPathIdentityIff(p);
        Some(CleanPath(p))
  }

  /** Removing the metadata of the selected `/d/IMG.JPG` writes the copy over the original. */
  lemma RemoveTargetOverwritesUpperCase(paths: seq<string>, items: seq<string>)
    ensures RemoveTarget(ViewerState(paths, items, Some("/d/IMG.JPG"))) == Some("/d/IMG.JPG")
  {
    UpperCaseJpgUnchanged();
  }

  /**
   The target remove_metadata evidently intends: the corrected output path,
   which for an image path never coincides with the original.
   */
  function CorrectedRemoveTarget(v: ViewerState): (r: Option<string>)
    ensures r.Some? <==> v.selected.Some? && v.selected.value != ""
    ensures r.Some? && IsImagePath(v.selected.value) ==> r.value != v.selected.value
    ensures r.Some? ==> IsImagePath(v.selected.value) ==> IsImagePath(r.value)
  {
    match v.selected
    case None => None
    case Some(p) => if p == "" then None else Some(CleanOutputPath(p))
  }
}
