/** The ring-map editor: the `"angle_index"` point keys, point deletion,
    the bounded undo stack with its Cancel restore, the greedy
    minimum-distance auto-clean, and the image/display coordinate maps. */
module PointEditor {
  import opened Numeric
  import opened Optional
  import opened RingMaps
  import opened Decimal

  // ---- the key "angle_index" ----

  /** The length of the leading run without `_`. */
  function RunLength(s: string): (n: nat)
    ensures n <= |s|
    ensures forall i :: 0 <= i < n ==> s[i] != '_'
    ensures n < |s| ==> s[n] == '_'
  {
    if s == [] || s[0] == '_' then 0 else 1 + RunLength(s[1..])
  }

  /** `split(separator: "_")`: the maximal runs without `_`, empty pieces
      omitted (Swift's default). */
  function Fields(s: string): (fs: seq<string>)
    ensures forall i :: 0 <= i < |fs| ==> |fs[i]| >= 1 && '_' !in fs[i]
    decreases |s|
  {
    if s == [] then []
    else if s[0] == '_' then Fields(s[1..])
    else
      var n := RunLength(s);
      [s[..n]] + Fields(s[n..])
  }

  /** The key of the `point`-th ring at angle `ring`. */
  function FormatKey(ring: int, point: int): string
  {
    IntString(ring) + "_" + IntString(point)
  }

  /** The guard of `deletePoint`: exactly two pieces, both integers. */
  function ParseKey(key: string): Option<(int, int)>
  {
    var fs := Fields(key);
    if |fs| != 2 then None
    else
      var a, b := ParseInt(fs[0]), ParseInt(fs[1]);
      if a.Some? && b.Some? then Some((a.value, b.value)) else None
  }

  lemma {:induction false} RunLengthOfWord(w: string, rest: string)
    requires '_' !in w && (rest == [] || rest[0] == '_')
    ensures RunLength(w + rest) == |w|
  {
    if w != [] {
      assert (w + rest)[1..] == w[1..] + rest;
      RunLengthOfWord(w[1..], rest);
    }
  }

  lemma FieldsOfWord(w: string, rest: string)
    requires |w| >= 1 && '_' !in w && (rest == [] || rest[0] == '_')
    ensures Fields(w + rest) == [w] + Fields(rest)
  {
    RunLengthOfWord(w, rest);
    assert (w + rest)[..|w|] == w;
    assert (w + rest)[|w|..] == rest;
  }

  /** The text of an `Int` is one field. */
  lemma IntStringIsWord(k: int)
    ensures |IntString(k)| >= 1 && '_' !in IntString(k)
  {
  }

  /** Formatting then parsing a key gives back the angle and the index. */
  lemma KeyRoundTrip(ring: int, point: int)
    requires InInt64(ring) && InInt64(point)
    ensures ParseKey(FormatKey(ring, point)) == Some((ring, point))
  {
    IntStringIsWord(ring);
    IntStringIsWord(point);
    FieldsOfPair(IntString(ring), IntString(point));
    assert FormatKey(ring, point) == IntString(ring) + "_" + IntString(point);
    ParseIntString(ring);
    ParseIntString(point);
  }

  /** Two words joined by one `_` split back into the two words. */
  lemma FieldsOfPair(a: string, b: string)
    requires |a| >= 1 && '_' !in a && |b| >= 1 && '_' !in b
    ensures Fields(a + "_" + b) == [a, b]
  {
    FieldsOfWord(b, []);
    assert b + [] == b;
    assert ("_" + b)[1..] == b;
    assert Fields("_" + b) == [b];
    FieldsOfWord(a, "_" + b);
    assert a + "_" + b == a + ("_" + b);
  }

  /** So distinct points have distinct keys. */
  lemma KeysDistinct(r1: int, p1: int, r2: int, p2: int)
    requires InInt64(r1) && InInt64(p1) && InInt64(r2) && InInt64(p2)
    requires (r1, p1) != (r2, p2)
    ensures FormatKey(r1, p1) != FormatKey(r2, p2)
  {
    KeyRoundTrip(r1, p1);
    KeyRoundTrip(r2, p2);
  }

  /** Keys the guard rejects: one piece, and a piece that is not a number. */
  lemma MalformedKeys()
    ensures ParseKey("7") == None
    ensures ParseKey("a_1") == None
  {
    FieldsOfWord("7", []);
    assert "7" + [] == "7";
    FieldsOfPair("a", "1");
    assert !AllDigits("a");
  }

  // ---- the editor state ----

  /** The edited ring map and the undo snapshots, oldest first. */
  datatype Editor = Editor(rings: RingMap, undo: seq<RingMap>)

  const UndoLimit: nat := 20

  /** The undo stack after `saveToUndoStack`: append, then evict the oldest
      one when over the limit. */
  function Push<T>(undo: seq<T>, m: T): (u: seq<T>)
    ensures |u| >= 1 && u[|u| - 1] == m
    ensures |undo| <= UndoLimit ==> |u| <= UndoLimit
    ensures |u| <= |undo| + 1
  {
    var u := undo + [m];
    if |u| > UndoLimit then u[1..] else u
  }

  function SaveToUndo(e: Editor): (r: Editor)
    ensures r.rings == e.rings
  {
    Editor(e.rings, Push(e.undo, e.rings))
  }

  /** `undo`: nothing on an empty stack, otherwise pop the last snapshot into
      the map. */
  function Undo(e: Editor): (r: Editor)
    ensures e.undo == [] ==> r == e
    ensures e.undo != [] ==> r.rings == e.undo[|e.undo| - 1] && r.undo + [r.rings] == e.undo
  {
    if e.undo == [] then e else Editor(e.undo[|e.undo| - 1], e.undo[..|e.undo| - 1])
  }

  /** Cancel: the oldest retained snapshot, or the map itself when there is
      none. */
  function CancelRings(e: Editor): RingMap
  {
    Oldest(e.undo, e.rings)
  }

  /** `undoStack.first`, or `current` on an empty stack. */
  function Oldest<T>(undo: seq<T>, current: T): (m: T)
    ensures undo != [] ==> m == undo[0]
  {
    if undo != [] then undo[0] else current
  }

  /** Opening the editor saves the initial map. */
  function Open(m: RingMap): (e: Editor)
    ensures e.rings == m && e.undo == [m]
  {
    SaveToUndo(Editor(m, []))
  }

  /** The result of an edit that may trap. */
  datatype Outcome = Edited(editor: Editor) | Crash

  /** `deletePoint`: a malformed key does nothing; otherwise a snapshot is
      saved and the ring removed, which traps for an index out of range;
      a list left empty loses its key. */
  function DeletePoint(e: Editor, key: string): (r: Outcome)
    ensures ParseKey(key).None? ==> r == Edited(e)
    ensures r.Crash? <==> ParseKey(key).Some? && ParseKey(key).value.0 in e.rings
                          && !(0 <= ParseKey(key).value.1 < |e.rings[ParseKey(key).value.0]|)
  {
    match ParseKey(key)
    case None => Edited(e)
    case Some((ring, p)) =>
      var s := SaveToUndo(e);
      if ring !in s.rings then Edited(s)
      else
        var cs := s.rings[ring];
        if !(0 <= p < |cs|) then Crash
        else
          var rest := cs[..p] + cs[p + 1..];
          Edited(Editor(if rest == [] then s.rings - {ring} else s.rings[ring := rest], s.undo))
  }

  /** Deleting by a point's own key removes exactly that ring, drops the
      angle when it was the last one, leaves every other angle alone and
      saves the previous map. */
  lemma DeleteByKey(e: Editor, ring: int, p: int)
    requires InInt64(ring) && InInt64(p) && ring in e.rings && 0 <= p < |e.rings[ring]|
    ensures var r := DeletePoint(e, FormatKey(ring, p));
      && r.Edited?
      && r.editor.undo == Push(e.undo, e.rings)
      && (|e.rings[ring]| == 1 <==> ring !in r.editor.rings)
      && (ring in r.editor.rings ==> r.editor.rings[ring] == e.rings[ring][..p] + e.rings[ring][p + 1..])
      && (forall k :: k != ring ==> (k in r.editor.rings <==> k in e.rings))
      && (forall k :: k != ring && k in e.rings ==> r.editor.rings[k] == e.rings[k])
  {
    KeyRoundTrip(ring, p);
    var cs := e.rings[ring];
    assert |cs[..p] + cs[p + 1..]| == |cs| - 1;
  }

  /** A successful deletion is undone by `undo`: the map comes back, and so
      does the stack unless the snapshot evicted the oldest entry. */
  lemma DeleteThenUndo(e: Editor, key: string)
    requires ParseKey(key).Some? && DeletePoint(e, key).Edited?
    ensures Undo(DeletePoint(e, key).editor).rings == e.rings
    ensures |e.undo| < UndoLimit ==> Undo(DeletePoint(e, key).editor).undo == e.undo
  {
  }

  /** The undo stack after pushing each of `snaps` in turn. */
  function PushAll<T>(undo: seq<T>, snaps: seq<T>): seq<T>
    decreases |snaps|
  {
    if snaps == [] then undo else PushAll(Push(undo, snaps[0]), snaps[1..])
  }

  /** Reference: the last `UndoLimit` entries. */
  function LastWindow<T>(s: seq<T>): (w: seq<T>)
  {
    if |s| <= UndoLimit then s else s[|s| - UndoLimit..]
  }

  /** One push onto a stack within the limit keeps the newest `UndoLimit`
      entries. */
  lemma PushKeepsNewest<T>(undo: seq<T>, m: T)
    requires |undo| <= UndoLimit
    ensures Push(undo, m) == LastWindow(undo + [m])
  {
  }

  /** Starting from at most `UndoLimit` snapshots, any run of pushes keeps
      exactly the most recent `UndoLimit`. */
  lemma {:induction false} PushAllWindow<T>(undo: seq<T>, snaps: seq<T>)
    requires |undo| <= UndoLimit
    ensures PushAll(undo, snaps) == LastWindow(undo + snaps)
    decreases |snaps|
  {
    if snaps != [] {
      PushAllWindow(Push(undo, snaps[0]), snaps[1..]);
      PushThenRest(undo, snaps[0], snaps[1..]);
      assert undo + [snaps[0]] + snaps[1..] == undo + snaps;
    }
  }

  /** One push keeps the window of everything pushed afterwards. */
  lemma PushThenRest<T>(undo: seq<T>, x: T, rest: seq<T>)
    requires |undo| <= UndoLimit
    ensures LastWindow(Push(undo, x) + rest) == LastWindow(undo + [x] + rest)
  {
    var all := undo + [x] + rest;
    if |undo| + 1 > UndoLimit {
      assert Push(undo, x) + rest == all[1..];
      WindowDrop(all);
    } else {
      assert Push(undo, x) + rest == all;
    }
  }

  /** Dropping the first of more than `UndoLimit` entries keeps the window. */
  lemma WindowDrop<T>(s: seq<T>)
    requires |s| > UndoLimit
    ensures LastWindow(s[1..]) == LastWindow(s)
  {
    assert s[1..][|s| - 1 - UndoLimit..] == s[|s| - UndoLimit..];
  }

  /** The oldest entry after opening on `m0` and pushing `snaps`. */
  lemma OldestAfterPushes<T>(m0: T, snaps: seq<T>)
    ensures PushAll([m0], snaps) != []
    ensures PushAll([m0], snaps)[0] == if |snaps| < UndoLimit then m0 else snaps[|snaps| - UndoLimit]
  {
    PushAllWindow([m0], snaps);
    WindowOfCons(m0, snaps);
  }

  lemma WindowOfCons<T>(m0: T, snaps: seq<T>)
    ensures LastWindow([m0] + snaps) != []
    ensures LastWindow([m0] + snaps)[0] == if |snaps| < UndoLimit then m0 else snaps[|snaps| - UndoLimit]
  {
    var all := [m0] + snaps;
    if |snaps| >= UndoLimit {
      assert all[|all| - UndoLimit] == snaps[|snaps| - UndoLimit];
    }
  }

  /** Cancel (`CancelRings`, the `Oldest` of the stack) after opening on
      `m0`, which leaves `[m0]` on the stack, and saving `snaps`, whatever
      the map `current` then is: with fewer than `UndoLimit` saves it
      restores `m0`; after more it restores the snapshot `UndoLimit` saves
      back, not the initial map. */
  lemma CancelRestores<T>(m0: T, snaps: seq<T>, current: T)
    ensures Oldest(PushAll([m0], snaps), current)
            == if |snaps| < UndoLimit then m0 else snaps[|snaps| - UndoLimit]
  {
    OldestAfterPushes(m0, snaps);
  }

  // ---- auto-clean ----

  const MinimumDistance: real := 10.0

  /** `sqrt(pow(dx, 2) + pow(dy, 2))` between two ring points. */
  function Distance(trig: Trig, a: Ring, b: Ring): real
  {
    trig.sqrt(SquaredDistance(a, b))
  }

  function SquaredDistance(a: Ring, b: Ring): (d: real)
    ensures d >= 0.0
  {
    (a.x - b.x) * (a.x - b.x) + (a.y - b.y) * (a.y - b.y)
  }

  /** The inner search with its `break`: is `c` closer than the minimum to
      some kept point? */
  function NearAny(trig: Trig, c: Ring, kept: seq<Ring>): (b: bool)
    ensures b <==> exists j :: 0 <= j < |kept| && Distance(trig, c, kept[j]) < MinimumDistance
  {
    if kept == [] then false
    else if Distance(trig, c, kept[0]) < MinimumDistance then true
    else
      var b := NearAny(trig, c, kept[1..]);
      assert forall j :: 1 <= j < |kept| ==> kept[j] == kept[1..][j - 1];
      b
  }

  /** The cleaned list after the loop has visited `xs`: each point kept
      unless it is too close to one already kept. */
  function CleanList(trig: Trig, xs: seq<Ring>): seq<Ring>
  {
    if xs == [] then []
    else
      var c := CleanList(trig, xs[..|xs| - 1]);
      if NearAny(trig, xs[|xs| - 1], c) then c else c + [xs[|xs| - 1]]
  }

  /** The positions of the kept points, alongside `CleanList`. */
  function KeptIndices(trig: Trig, xs: seq<Ring>): seq<nat>
  {
    if xs == [] then []
    else
      var c := KeptIndices(trig, xs[..|xs| - 1]);
      if NearAny(trig, xs[|xs| - 1], CleanList(trig, xs[..|xs| - 1])) then c else c + [|xs| - 1]
  }

  /** Kept points are at least the minimum distance from every point kept
      before them. */
  predicate Spaced(trig: Trig, ys: seq<Ring>)
  {
    forall i, j :: 0 <= i < j < |ys| ==> Distance(trig, ys[j], ys[i]) >= MinimumDistance
  }

  /** The loop of `autoClean` for one angle. */
  method CleanCenters(trig: Trig, centers: seq<Ring>) returns (cleaned: seq<Ring>)
    ensures cleaned == CleanList(trig, centers)
  {
    cleaned := [];
    for i := 0 to |centers|
      invariant cleaned == CleanList(trig, centers[..i])
    {
      var center := centers[i];
      var tooClose := false;
      for j := 0 to |cleaned|
        invariant tooClose == NearAny(trig, center, cleaned[..j])
      {
        assert cleaned[..j + 1] == cleaned[..j] + [cleaned[j]];
        if Distance(trig, center, cleaned[j]) < MinimumDistance {
          tooClose := true;
          break;
        }
      }
      assert cleaned[..|cleaned|] == cleaned;
      assert centers[..i + 1][..i] == centers[..i];
      if !tooClose {
        cleaned := cleaned + [center];
      }
    }
    assert centers[..|centers|] == centers;
  }

  /** The cleaned list is a subsequence: the kept positions increase and
      pick out exactly the kept points. */
  lemma {:induction false} CleanIsSubsequence(trig: Trig, xs: seq<Ring>)
    ensures var r, ix := CleanList(trig, xs), KeptIndices(trig, xs);
      && |ix| == |r|
      && (forall k :: 0 <= k < |ix| ==> ix[k] < |xs| && r[k] == xs[ix[k]])
      && (forall k, l :: 0 <= k < l < |ix| ==> ix[k] < ix[l])
  {
    if xs != [] {
      var pre := xs[..|xs| - 1];
      CleanIsSubsequence(trig, pre);
      assert forall k :: 0 <= k < |pre| ==> pre[k] == xs[k];
    }
  }

  /** The first point always survives. */
  lemma {:induction false} CleanKeepsFirst(trig: Trig, xs: seq<Ring>)
    requires xs != []
    ensures CleanList(trig, xs) != [] && CleanList(trig, xs)[0] == xs[0]
  {
    var pre := xs[..|xs| - 1];
    if pre != [] {
      CleanKeepsFirst(trig, pre);
      assert pre[0] == xs[0];
    }
  }

  /** Kept points are pairwise at least the minimum distance apart. */
  lemma {:induction false} CleanSpaced(trig: Trig, xs: seq<Ring>)
    ensures Spaced(trig, CleanList(trig, xs))
  {
    if xs != [] {
      CleanSpaced(trig, xs[..|xs| - 1]);
    }
  }

  /** Every dropped point is too close to some kept point. */
  lemma {:induction false} CleanCovers(trig: Trig, xs: seq<Ring>)
    ensures forall i :: 0 <= i < |xs| ==>
      xs[i] in CleanList(trig, xs) || NearAny(trig, xs[i], CleanList(trig, xs))
  {
    if xs != [] {
      var pre := xs[..|xs| - 1];
      CleanCovers(trig, pre);
      var c := CleanList(trig, pre);
      forall i | 0 <= i < |xs|
        ensures xs[i] in CleanList(trig, xs) || NearAny(trig, xs[i], CleanList(trig, xs))
      {
        if i < |pre| {
          assert xs[i] == pre[i];
          if xs[i] !in c {
            var j :| 0 <= j < |c| && Distance(trig, xs[i], c[j]) < MinimumDistance;
            assert CleanList(trig, xs)[j] == c[j];
          }
        }
      }
    }
  }

  /** A spaced list is left as it is. */
  lemma {:induction false} CleanOfSpaced(trig: Trig, ys: seq<Ring>)
    requires Spaced(trig, ys)
    ensures CleanList(trig, ys) == ys
  {
    if ys != [] {
      var pre, last := ys[..|ys| - 1], ys[|ys| - 1];
      SpacedSplit(trig, ys);
      CleanOfSpaced(trig, pre);
      assert pre + [last] == ys;
    }
  }

  /** A spaced list is a spaced prefix plus a last point far from all of it. */
  lemma SpacedSplit(trig: Trig, ys: seq<Ring>)
    requires Spaced(trig, ys) && ys != []
    ensures Spaced(trig, ys[..|ys| - 1])
    ensures !NearAny(trig, ys[|ys| - 1], ys[..|ys| - 1])
  {
    var pre := ys[..|ys| - 1];
    assert forall i :: 0 <= i < |pre| ==> pre[i] == ys[i];
  }

  /** A second clean removes nothing. */
  lemma CleanIdempotent(trig: Trig, xs: seq<Ring>)
    ensures CleanList(trig, CleanList(trig, xs)) == CleanList(trig, xs)
  {
    CleanSpaced(trig, xs);
    CleanOfSpaced(trig, CleanList(trig, xs));
  }

  /** With an exact square root the distance test is a test on the squared
      distance. */
  lemma TooCloseSquared(trig: Trig, a: Ring, b: Ring)
    requires ExactSqrt(trig)
    ensures Distance(trig, a, b) < MinimumDistance <==> SquaredDistance(a, b) < 100.0
  {
    var d2 := SquaredDistance(a, b);
    RootBelowTen(trig.sqrt(d2), d2);
  }

  /** For a non-negative root `s` of `d2`: `s < 10` exactly when `d2 < 100`. */
  lemma RootBelowTen(s: real, d2: real)
    requires s >= 0.0 && s * s == d2
    ensures s < 10.0 <==> d2 < 100.0
  {
    if s < 10.0 {
      assert s * s <= s * 10.0;
    } else {
      assert s * s >= s * 10.0;
    }
  }

  /** `autoClean` on the map: every list cleaned, and a key kept only when
      its cleaned list is not empty. */
  function CleanMap(trig: Trig, m: RingMap): (r: RingMap)
    ensures forall k :: k in r ==> k in m && r[k] == CleanList(trig, m[k])
  {
    map k | k in m && CleanList(trig, m[k]) != [] :: CleanList(trig, m[k])
  }

  /** The keys that survive are exactly those with a non-empty list. */
  lemma CleanMapKeys(trig: Trig, m: RingMap)
    ensures forall k :: k in CleanMap(trig, m) <==> k in m && m[k] != []
  {
    forall k | k in m && m[k] != []
      ensures CleanList(trig, m[k]) != []
    {
      CleanKeepsFirst(trig, m[k]);
    }
  }

  /** Cleaning the map twice is cleaning it once. */
  lemma CleanMapIdempotent(trig: Trig, m: RingMap)
    ensures CleanMap(trig, CleanMap(trig, m)) == CleanMap(trig, m)
  {
    var c := CleanMap(trig, m);
    CleanMapKeys(trig, m);
    CleanMapKeys(trig, c);
    forall k | k in c
      ensures CleanList(trig, c[k]) == c[k]
    {
      CleanIdempotent(trig, m[k]);
    }
  }

  /** `autoClean` on the editor: save a snapshot, then clean. */
  function AutoClean(trig: Trig, e: Editor): (r: Editor)
    ensures r.undo == Push(e.undo, e.rings)
  {
    Editor(CleanMap(trig, e.rings), Push(e.undo, e.rings))
  }

  /** Undo after `autoClean` brings the map back. */
  lemma AutoCleanThenUndo(trig: Trig, e: Editor)
    ensures Undo(AutoClean(trig, e)).rings == e.rings
  {
  }

  // ---- display coordinates ----

  const DisplayMax: real := 500.0

  /** `displaySize`: the image's aspect ratio with the larger side 500. */
  function DisplaySize(iw: real, ih: real): (d: (real, real))
    requires iw > 0.0 && ih > 0.0
  {
    var aspect := iw / ih;
    if aspect > 1.0 then (DisplayMax, DisplayMax / aspect) else (DisplayMax * aspect, DisplayMax)
  }

  /** The display keeps the aspect ratio, and its larger side is 500. */
  lemma DisplaySizeShape(iw: real, ih: real)
    requires iw > 0.0 && ih > 0.0
    ensures var d := DisplaySize(iw, ih); var w, h := d.0, d.1;
      && w * ih == h * iw
      && 0.0 < w <= DisplayMax && 0.0 < h <= DisplayMax
      && Max(w, h) == DisplayMax
  {
    var a := iw / ih;
    assert a * ih == iw;
    if a > 1.0 {
      var h := DisplayMax / a;
      assert h * a == DisplayMax;
      assert h < DisplayMax;
      assert DisplayMax * ih == h * a * ih;
    } else {
      assert DisplayMax * a <= DisplayMax;
    }
  }

  /** Image coordinates to display coordinates, as for every drawn point. */
  function ToDisplay(p: (real, real), iw: real, ih: real): (real, real)
    requires iw > 0.0 && ih > 0.0
  {
    ScalePoint(p, (iw, ih), DisplaySize(iw, ih))
  }

  /** Display coordinates back to image coordinates, as for the centre. */
  function ToImage(q: (real, real), iw: real, ih: real): (real, real)
    requires iw > 0.0 && ih > 0.0
  {
    DisplaySizeShape(iw, ih);
    ScalePoint(q, DisplaySize(iw, ih), (iw, ih))
  }

  /** The two conversions undo each other. */
  lemma DisplayRoundTrip(p: (real, real), iw: real, ih: real)
    requires iw > 0.0 && ih > 0.0
    ensures ToImage(ToDisplay(p, iw, ih), iw, ih) == p
    ensures ToDisplay(ToImage(p, iw, ih), iw, ih) == p
  {
    DisplaySizeShape(iw, ih);
    ScaleBack(p, (iw, ih), DisplaySize(iw, ih));
    ScaleBack(p, DisplaySize(iw, ih), (iw, ih));
  }

  /** A point measured against size `a`, placed on size `b`. */
  function ScalePoint(p: (real, real), a: (real, real), b: (real, real)): (real, real)
    requires a.0 > 0.0 && a.1 > 0.0
  {
    (p.0 / a.0 * b.0, p.1 / a.1 * b.1)
  }

  lemma ScaleBack(p: (real, real), a: (real, real), b: (real, real))
    requires a.0 > 0.0 && a.1 > 0.0 && b.0 > 0.0 && b.1 > 0.0
    ensures ScalePoint(ScalePoint(p, a, b), b, a) == p
  {
    var q := ScalePoint(p, a, b);
    assert q.0 == p.0 / a.0 * b.0 && q.1 == p.1 / a.1 * b.1;
    var r := ScalePoint(q, b, a);
    assert r.0 == q.0 / b.0 * a.0 && r.1 == q.1 / b.1 * a.1;
    ScaleBackAxis(p.0, a.0, b.0);
    ScaleBackAxis(p.1, a.1, b.1);
    assert r.0 == p.0 && r.1 == p.1;
  }

  /** `x / a * b / b * a == x`. */
  lemma ScaleBackAxis(x: real, a: real, b: real)
    requires a > 0.0 && b > 0.0
    ensures x / a * b / b * a == x
  {
    var y := x / a;
    assert y * a == x;
    assert y * b / b == y;
  }
}
