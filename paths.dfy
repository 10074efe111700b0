/** The lexical clean-up `filepath.Clean` performs on Unix, which
    `filepath.Join` applies to the path it builds: empty and `.` segments
    are dropped, a `..` segment removes the segment before it (or, at the
    root, nothing), and an empty result is `.`. */
module Paths {
  import opened FileManager

  /** The segments of a path between its separators: a path with k
      separators has k + 1 segments, some of them possibly empty. */
  function Split(p: string): (r: seq<string>)
    ensures |r| >= 1
  {
    if p == [] then [[]] else Push(Split(p[..|p| - 1]), p[|p| - 1])
  }

  /** The segments after one more character: a separator opens a new
      segment, any other character extends the last one. */
  function Push(segments: seq<string>, c: char): (r: seq<string>)
    requires |segments| >= 1
    ensures |r| >= 1
  {
    if c == Separator then segments + [[]]
    else segments[..|segments| - 1] + [segments[|segments| - 1] + [c]]
  }

  /** One segment of the path, applied to the segments kept so far. */
  function Step(kept: seq<string>, segment: string, rooted: bool): seq<string> {
    if segment == "" || segment == "." then kept
    else if segment == ".." then
      if kept != [] && kept[|kept| - 1] != ".." then kept[..|kept| - 1]
      else if rooted then kept
      else kept + [".."]
    else kept + [segment]
  }

  /** The segments left after every segment was applied in order. */
  function Resolve(segments: seq<string>, rooted: bool): seq<string> {
    if segments == [] then [] else Step(Resolve(segments[..|segments| - 1], rooted), segments[|segments| - 1], rooted)
  }

  /** The segments joined by one separator each. */
  function JoinAll(kept: seq<string>): string {
    if kept == [] then []
    else if |kept| == 1 then kept[0]
    else JoinAll(kept[..|kept| - 1]) + [Separator] + kept[|kept| - 1]
  }

  function Render(kept: seq<string>, rooted: bool): string {
    if rooted then [Separator] + JoinAll(kept)
    else if kept == [] then "."
    else JoinAll(kept)
  }

  /** `filepath.Clean`. */
  function Clean(p: string): string {
    if p == [] then "." else Render(Resolve(Split(p), p[0] == Separator), p[0] == Separator)
  }

  /** The file `f` directly inside the cleaned directory `c`. */
  function InDirectory(c: string, f: string): string {
    if c == "." then f else if c == [Separator] then c + f else c + [Separator] + f
  }

  /** A name that `Clean` keeps as one segment of its own. */
  predicate PlainName(f: string) {
    f != [] && f != "." && f != ".." && Separator !in f
  }

  /** A non-empty name made plain: invalid characters (the separator
      among them) become `_`, and the names `.` and `..` get a leading `_`. */
  function PlainFileName(n: string): (r: string)
    requires n != []
    ensures PlainName(r)
  {
    var m := ReplaceInvalid(n);
    assert Separator == InvalidChars[0];
    if m == "." || m == ".." then
      assert ([Replacement] + m)[0] == Replacement;
      [Replacement] + m
    else m
  }

  lemma PlainFileNameKeepsValidNames(n: string)
    requires PlainName(n) && NoInvalidChars(n)
    ensures PlainFileName(n) == n
  {
    ReplaceInvalidIdentity(n);
  }

  lemma {:induction false} SplitNoSeparator(s: string)
    requires Separator !in s
    ensures Split(s) == [s]
    decreases |s|
  {
    if s != [] {
      SplitNoSeparator(s[..|s| - 1]);
      assert s[..|s| - 1] + [s[|s| - 1]] == s;
    }
  }

  lemma PushAppend(x: seq<string>, y: seq<string>, c: char)
    requires |y| >= 1
    ensures Push(x + y, c) == x + Push(y, c)
  {
    assert (x + y)[..|x + y| - 1] == x + y[..|y| - 1];
  }

  /** A separator splits the segments of the two sides apart. */
  lemma {:induction false} SplitAppend(a: string, b: string)
    ensures Split(a + [Separator] + b) == Split(a) + Split(b)
    decreases |b|
  {
    var p := a + [Separator] + b;
    if b == [] {
      assert p[..|p| - 1] == a && p[|p| - 1] == Separator;
      assert Split(p) == Push(Split(a), Separator);
    } else {
      var b' := b[..|b| - 1];
      var c := b[|b| - 1];
      assert p[..|p| - 1] == a + [Separator] + b' && p[|p| - 1] == c;
      assert Split(p) == Push(Split(a + [Separator] + b'), c);
      SplitAppend(a, b');
      PushAppend(Split(a), Split(b'), c);
      assert Split(b) == Push(Split(b'), c);
    }
  }

  /** No segment holds a separator. */
  lemma {:induction false} SplitSegments(p: string)
    ensures forall i :: 0 <= i < |Split(p)| ==> Separator !in Split(p)[i]
    decreases |p|
  {
    if p != [] {
      SplitSegments(p[..|p| - 1]);
    }
  }

  /** The kept segments are never empty, never `.` and hold no separator. */
  lemma {:induction false} ResolveKeepsNames(segments: seq<string>, rooted: bool)
    requires forall i :: 0 <= i < |segments| ==> Separator !in segments[i]
    ensures forall i :: 0 <= i < |Resolve(segments, rooted)| ==>
      var s := Resolve(segments, rooted)[i]; s != [] && s != "." && Separator !in s
    decreases |segments|
  {
    if segments != [] {
      ResolveKeepsNames(segments[..|segments| - 1], rooted);
    }
  }

  lemma {:induction false} JoinAllLength(kept: seq<string>)
    requires forall i :: 0 <= i < |kept| ==> kept[i] != []
    ensures |JoinAll(kept)| >= 2 * |kept| - 1
    decreases |kept|
  {
    if |kept| > 1 {
      JoinAllLength(kept[..|kept| - 1]);
    }
  }

  lemma ResolveAppendName(segments: seq<string>, f: string, rooted: bool)
    requires PlainName(f)
    ensures Resolve(segments + [f], rooted) == Resolve(segments, rooted) + [f]
  {
    assert (segments + [f])[..|segments|] == segments;
  }

  lemma JoinAllAppend(kept: seq<string>, f: string)
    requires kept != []
    ensures JoinAll(kept + [f]) == JoinAll(kept) + [Separator] + f
  {
    assert (kept + [f])[..|kept|] == kept;
  }

  /** Rendering one more plain name puts it directly inside what the kept
      segments render to. */
  lemma RenderAppendName(kept: seq<string>, f: string, rooted: bool)
    requires PlainName(f)
    requires forall i :: 0 <= i < |kept| ==> kept[i] != [] && kept[i] != "." && Separator !in kept[i]
    ensures Render(kept + [f], rooted) == InDirectory(Render(kept, rooted), f)
  {
    if kept == [] {
      assert kept + [f] == [f] && JoinAll([f]) == f;
      if rooted {
        assert Render(kept, rooted) == [Separator] && [Separator] != ".";
      } else {
        assert Render(kept, rooted) == ".";
      }
    } else {
      JoinAllAppend(kept, f);
      JoinAllLength(kept);
      var j := JoinAll(kept);
      if |kept| == 1 {
        assert j == kept[0];
      }
      assert j != "." && j != [Separator];
      if rooted {
        assert Render(kept, rooted) == [Separator] + j;
        assert |[Separator] + j| >= 2;
      } else {
        assert Render(kept, rooted) == j;
      }
    }
  }

  /** A plain name after a separator ends up directly inside the cleaned
      directory. */
  lemma CleanAppendName(d: string, f: string)
    requires d != [] && PlainName(f)
    ensures Clean(d + [Separator] + f) == InDirectory(Clean(d), f)
  {
    var p := d + [Separator] + f;
    var rooted := d[0] == Separator;
    assert p[0] == d[0];
    SplitAppend(d, f);
    SplitNoSeparator(f);
    assert Split(p) == Split(d) + [f];
    ResolveAppendName(Split(d), f, rooted);
    SplitSegments(d);
    ResolveKeepsNames(Split(d), rooted);
    RenderAppendName(Resolve(Split(d), rooted), f, rooted);
  }

  /** A separator and a name without one add that name as a segment. */
  lemma SplitAppendName(p: string, s: string)
    requires Separator !in s
    ensures Split(p + [Separator] + s) == Split(p) + [s]
  {
    SplitAppend(p, s);
    SplitNoSeparator(s);
  }

  /** The file name `../../f`. */
  function Climb(f: string): string {
    ".." + [Separator] + ".." + [Separator] + f
  }

  lemma SplitClimb(a: string, b: string, f: string)
    requires PlainName(a) && PlainName(b) && PlainName(f)
    ensures Split(a + [Separator] + b + [Separator] + Climb(f)) == [a, b, "..", "..", f]
  {
    var t1 := ".." + [Separator] + "..";
    SplitNoSeparator("..");
    SplitAppendName("..", "..");
    assert Split(t1) == ["..", ".."];
    SplitAppendName(t1, f);
    assert Split(Climb(f)) == ["..", "..", f];
    SplitNoSeparator(a);
    SplitAppendName(a, b);
    SplitAppend(a + [Separator] + b, Climb(f));
  }

  lemma ResolveClimb(a: string, b: string, f: string)
    requires PlainName(a) && PlainName(b) && PlainName(f)
    ensures Resolve([a, b, "..", "..", f], false) == [f]
  {
    var segs := [a, b, "..", "..", f];
    assert segs[..1][..0] == [];
    assert Resolve(segs[..1], false) == [a];
    assert segs[..2][..1] == segs[..1];
    assert Resolve(segs[..2], false) == [a, b];
    assert segs[..3][..2] == segs[..2];
    assert Resolve(segs[..3], false) == [a];
    assert segs[..4][..3] == segs[..3];
    assert Resolve(segs[..4], false) == [];
  }

  /** Two `..` segments after two plain names climb back out of both. */
  lemma CleanClimbsOut(a: string, b: string, f: string)
    requires PlainName(a) && PlainName(b) && PlainName(f)
    ensures Clean(a + [Separator] + b + [Separator] + Climb(f)) == f
  {
    var p := a + [Separator] + b + [Separator] + Climb(f);
    assert p[0] == a[0];
    SplitClimb(a, b, f);
    ResolveClimb(a, b, f);
  }

  /** Two plain names joined by a separator clean to themselves. */
  lemma CleanKeepsNames(a: string, b: string)
    requires PlainName(a) && PlainName(b)
    ensures Clean(a + [Separator] + b) == a + [Separator] + b
  {
    SplitNoSeparator(a);
    SplitNoSeparator(b);
    SplitAppend(a, b);
    var segs := [a, b];
    assert Split(a + [Separator] + b) == segs;
    assert segs[..1][..0] == [];
    assert Resolve(segs[..1], false) == [a];
    assert Resolve(segs, false) == segs;
    assert JoinAll(segs) == JoinAll(segs[..1]) + [Separator] + b;
  }
}
