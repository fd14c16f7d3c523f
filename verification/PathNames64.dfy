/** Path normalisation in the x86_64 VFS: the text machine the kernel runs, the stack of
    components it stands for, and exactly when the two agree. */
module PathNames64 {
  const MAX_BYTES: nat := 64

  // ----- splitting into components

  predicate Plain(y: string) { '/' !in y }

  /** The end of the run of non-separators at the start of `t`. */
  function RunEnd(t: string): (j: nat)
    ensures j <= |t| && Plain(t[..j]) && (j < |t| ==> t[j] == '/')
    decreases |t|
  {
    if t == "" || t[0] == '/' then 0
    else
      var k := RunEnd(t[1..]);
      assert t[..k + 1] == [t[0]] + t[1..][..k];
      k + 1
  }

  /** The components of a path: its maximal runs of non-separators. */
  function Segments(t: string): seq<string>
    decreases |t|
  {
    if t == "" then []
    else if t[0] == '/' then Segments(t[1..])
    else [t[..RunEnd(t)]] + Segments(t[RunEnd(t)..])
  }

  lemma {:induction false} RunEndUnique(t: string, j: nat)
    requires j <= |t| && Plain(t[..j]) && (j < |t| ==> t[j] == '/')
    ensures RunEnd(t) == j
    decreases |t|
  {
    if j > 0 {
      assert t[0] == t[..j][0];
      assert t[1..][..j - 1] == t[..j][1..];
      RunEndUnique(t[1..], j - 1);
    }
  }

  /** A separator cuts a path into independent parts. */
  lemma {:induction false} SegmentsSplit(a: string, b: string)
    ensures Segments(a + "/" + b) == Segments(a) + Segments(b)
    decreases |a|
  {
    var t := a + "/" + b;
    if a == "" {
      assert t[1..] == b;
    } else if a[0] == '/' {
      assert t[1..] == a[1..] + "/" + b;
      SegmentsSplit(a[1..], b);
    } else {
      var j := RunEnd(a);
      assert t[..j] == a[..j];
      RunEndUnique(t, j);
      if j == |a| {
        assert a[j..] == "" && t[j..] == "/" + b;
        assert ("/" + b)[1..] == b;
      } else {
        assert t[j..] == a[j..] + "/" + b;
        SegmentsSplit(a[j..], b);
      }
    }
  }

  lemma SegmentsOfPlain(y: string)
    requires Plain(y)
    ensures Segments(y) == if y == "" then [] else [y]
  {
    if y != "" {
      assert y[..|y|] == y;
      RunEndUnique(y, |y|);
      assert y[|y|..] == "";
    }
  }

  // ----- the text machine

  /** Chars dropped until the text is "/" or ends in a separator. */
  function BackUp(t: string): string
    decreases |t|
  {
    if |t| > 1 && t[|t| - 1] != '/' then BackUp(t[..|t| - 1]) else t
  }

  /** What `..` does to the text so far. */
  function PopText(t: string): string { if |t| > 1 then BackUp(t[..|t| - 1]) else t }

  function PushText(t: string, seg: string): string { (if |t| > 1 then t + "/" else t) + seg }

  function StepText(t: string, seg: string): string {
    if seg == "." then t else if seg == ".." then PopText(t) else PushText(t, seg)
  }

  function RunText(t: string, segs: seq<string>): string
    decreases |segs|
  {
    if segs == [] then t else RunText(StepText(t, segs[0]), segs[1..])
  }

  /** What `x86_64_vfs_normalize_path` leaves in the buffer. */
  function Normalized(path: string): string { RunText("/", Segments(path)) }

  // ----- the same machine on pieces between separators

  /** "/" followed by the pieces with a separator between neighbours. */
  function Text(pieces: seq<string>): string
    decreases |pieces|
  {
    if |pieces| == 0 then "/"
    else if |pieces| == 1 then "/" + pieces[0]
    else Text(pieces[..|pieces| - 1]) + "/" + pieces[|pieces| - 1]
  }

  function PopPieces(p: seq<string>): seq<string> {
    var n := |p|;
    if n <= 1 then []
    else if p[n - 1] != "" then p[..n - 1] + [""]
    else if n == 2 then []
    else p[..n - 2] + [""]
  }

  function StepPieces(p: seq<string>, seg: string): seq<string> {
    if seg == "." then p else if seg == ".." then PopPieces(p) else p + [seg]
  }

  function RunPieces(p: seq<string>, segs: seq<string>): seq<string>
    decreases |segs|
  {
    if segs == [] then p else RunPieces(StepPieces(p, segs[0]), segs[1..])
  }

  predicate Name(y: string) { y != "" && y != "." && y != ".." && Plain(y) }

  /** Pieces the machine can hold: names and empty pieces, the first a name. */
  ghost predicate Shaped(p: seq<string>) {
    && (forall i :: 0 <= i < |p| ==> p[i] == "" || Name(p[i]))
    && (p != [] ==> Name(p[0]))
  }

  ghost predicate Parts(segs: seq<string>) { forall i :: 0 <= i < |segs| ==> segs[i] != "" && Plain(segs[i]) }

  lemma {:induction false} SegmentsParts(t: string)
    ensures Parts(Segments(t))
    decreases |t|
  {
    if t != "" {
      if t[0] == '/' {
        SegmentsParts(t[1..]);
      } else {
        SegmentsParts(t[RunEnd(t)..]);
      }
    }
  }

  lemma {:induction false} BackUpTo(t: string, y: string)
    requires t != "" && t[|t| - 1] == '/' && Plain(y)
    ensures BackUp(t + y) == t
    decreases |y|
  {
    if y == "" {
      assert t + y == t;
    } else {
      var u := t + y;
      assert u[|u| - 1] == y[|y| - 1];
      assert u[..|u| - 1] == t + y[..|y| - 1];
      BackUpTo(t, y[..|y| - 1]);
    }
  }

  lemma {:induction false} TextLong(p: seq<string>)
    requires Shaped(p) && p != []
    ensures |Text(p)| > 1
    decreases |p|
  {
    if |p| > 1 {
      TextLong(p[..|p| - 1]);
    }
  }

  /** Adding a piece to a non-empty list adds a separator and the piece. */
  lemma TextSnoc(p: seq<string>, y: string)
    ensures Text(p + [y]) == if p == [] then "/" + y else Text(p) + "/" + y
  {
    assert (p + [y])[..|p|] == p;
  }

  lemma PushPiece(p: seq<string>, y: string)
    requires Shaped(p) && Name(y)
    ensures PushText(Text(p), y) == Text(p + [y]) && Shaped(p + [y])
  {
    TextSnoc(p, y);
    if p != [] {
      TextLong(p);
    }
  }

  lemma PopPiece(p: seq<string>)
    requires Shaped(p)
    ensures PopText(Text(p)) == Text(PopPieces(p)) && Shaped(PopPieces(p))
  {
    if p != [] {
      TextLong(p);
      if |p| == 1 {
        assert Text(p)[..|Text(p)| - 1] == "/" + p[0][..|p[0]| - 1];
        BackUpTo("/", p[0][..|p[0]| - 1]);
      } else if p[|p| - 1] != "" {
        PopName(p);
      } else {
        PopEmpty(p);
      }
    }
  }

  lemma PopName(p: seq<string>)
    requires Shaped(p) && |p| > 1 && p[|p| - 1] != "" && |Text(p)| > 1
    ensures BackUp(Text(p)[..|Text(p)| - 1]) == Text(p[..|p| - 1] + [""])
  {
    var front, last := p[..|p| - 1], p[|p| - 1];
    assert p == front + [last];
    TextSnoc(front, last);
    TextSnoc(front, "");
    var t := Text(front) + "/";
    assert Text(p)[..|Text(p)| - 1] == t + last[..|last| - 1];
    BackUpTo(t, last[..|last| - 1]);
    assert t + "" == t;
  }

  lemma PopEmpty(p: seq<string>)
    requires Shaped(p) && |p| > 1 && p[|p| - 1] == "" && |Text(p)| > 1
    ensures BackUp(Text(p)[..|Text(p)| - 1]) == Text(if |p| == 2 then [] else p[..|p| - 2] + [""])
  {
    var front := p[..|p| - 1];
    assert p == front + [""];
    TextSnoc(front, "");
    assert Text(p)[..|Text(p)| - 1] == Text(front);
    PopBare(front);
    assert front[..|front| - 1] == p[..|p| - 2];
  }

  /** Backing up over a whole last piece. */
  lemma PopBare(p: seq<string>)
    requires Shaped(p) && p != []
    ensures BackUp(Text(p)) == Text(if |p| == 1 then [] else p[..|p| - 1] + [""])
  {
    var n := |p|;
    if n == 1 {
      BackUpTo("/", p[0]);
    } else {
      var front, last := p[..n - 1], p[n - 1];
      assert p == front + [last];
      TextSnoc(front, last);
      TextSnoc(front, "");
      BackUpTo(Text(front) + "/", last);
      assert Text(front) + "/" + "" == Text(front) + "/";
    }
  }

  /** The text machine is the piece machine, rendered. */
  lemma {:induction false} TextIsPieces(p: seq<string>, segs: seq<string>)
    requires Shaped(p) && Parts(segs)
    ensures RunText(Text(p), segs) == Text(RunPieces(p, segs)) && Shaped(RunPieces(p, segs))
    decreases |segs|
  {
    hide Shaped, PopPieces, PopText, PushText, Text;
    if segs != [] {
      var seg := segs[0];
      if seg == "." {
        TextIsPieces(p, segs[1..]);
      } else if seg == ".." {
        PopPiece(p);
        TextIsPieces(PopPieces(p), segs[1..]);
      } else {
        PushPiece(p, seg);
        TextIsPieces(p + [seg], segs[1..]);
      }
    }
  }

  // ----- the stack of components

  function StepStack(s: seq<string>, seg: string): seq<string> {
    if seg == "." then s
    else if seg == ".." then (if s == [] then [] else s[..|s| - 1])
    else s + [seg]
  }

  function RunStack(s: seq<string>, segs: seq<string>): seq<string>
    decreases |segs|
  {
    if segs == [] then s else RunStack(StepStack(s, segs[0]), segs[1..])
  }

  /** What a path names: "." skipped, ".." removing the component before it. */
  function Resolved(path: string): seq<string> { RunStack([], Segments(path)) }

  /** Counters a caller can keep: how many `..` would empty the buffer, and whether a `..` has
      left something pending since it was last empty. */
  datatype Depth = Depth(height: nat, open: bool, dirty: bool)

  function StepDepth(d: Depth, seg: string): Depth {
    if seg == "." then d
    else if seg == ".." then
      var h := if d.height == 0 then 0 else d.height - 1;
      Depth(h, h > 0, h > 0)
    else Depth(d.height + (if d.open then 2 else 1), false, d.dirty)
  }

  function RunDepth(d: Depth, segs: seq<string>): Depth
    decreases |segs|
  {
    if segs == [] then d else RunDepth(StepDepth(d, segs[0]), segs[1..])
  }

  /** No `..` left a component pending since the buffer was last empty. */
  predicate Clean(path: string) { !RunDepth(Depth(0, false, false), Segments(path)).dirty }

  ghost predicate Tracks(p: seq<string>, s: seq<string>, d: Depth) {
    && d.open == (p != [] && p[|p| - 1] == "")
    && d.height == |p| - (if d.open then 1 else 0)
    && (d.dirty <==> "" in p)
    && |s| <= d.height && (!d.dirty ==> p == s)
    && "" !in s
  }

  lemma TracksPush(p: seq<string>, s: seq<string>, d: Depth, seg: string)
    requires Tracks(p, s, d) && seg != "" && seg != "." && seg != ".."
    ensures Tracks(p + [seg], s + [seg], StepDepth(d, seg))
  {
    var q := p + [seg];
    assert q[|q| - 1] == seg;
    assert "" in q <==> "" in p;
  }

  lemma TracksPop(p: seq<string>, s: seq<string>, d: Depth)
    requires Tracks(p, s, d) && Shaped(p)
    ensures Tracks(PopPieces(p), StepStack(s, ".."), StepDepth(d, ".."))
  {
    var q := PopPieces(p);
    if |q| > 0 {
      assert q[|q| - 1] == "";
    }
  }

  /** The counters describe both machines throughout. */
  lemma {:induction false} RunTracks(p: seq<string>, s: seq<string>, d: Depth, segs: seq<string>)
    requires Tracks(p, s, d) && Shaped(p) && Parts(segs)
    ensures Tracks(RunPieces(p, segs), RunStack(s, segs), RunDepth(d, segs))
    decreases |segs|
  {
    hide Tracks, Shaped, PopPieces, StepDepth;
    if segs != [] {
      var seg := segs[0];
      if seg == "." {
        assert StepDepth(d, seg) == d by { DotDepth(d); }
        RunTracks(p, s, d, segs[1..]);
      } else if seg == ".." {
        TracksPop(p, s, d);
        PopPiece(p);
        RunTracks(PopPieces(p), StepStack(s, seg), StepDepth(d, seg), segs[1..]);
      } else {
        TracksPush(p, s, d, seg);
        PushPiece(p, seg);
        RunTracks(p + [seg], s + [seg], StepDepth(d, seg), segs[1..]);
      }
    }
  }

  lemma DotDepth(d: Depth)
    ensures StepDepth(d, ".") == d
  {
  }

  // ----- reading a text back

  function NonEmpty(p: seq<string>): seq<string>
    decreases |p|
  {
    if p == [] then [] else NonEmpty(p[..|p| - 1]) + (if p[|p| - 1] == "" then [] else [p[|p| - 1]])
  }

  function Chars(p: seq<string>): nat
    decreases |p|
  {
    if p == [] then 0 else Chars(p[..|p| - 1]) + |p[|p| - 1]|
  }

  lemma {:induction false} SegmentsOfText(p: seq<string>)
    requires Shaped(p)
    ensures Segments(Text(p)) == NonEmpty(p)
    decreases |p|
  {
    if p == [] {
      assert "/"[1..] == "";
    } else {
      var front, last := p[..|p| - 1], p[|p| - 1];
      assert p == front + [last];
      SegmentsOfPlain(last);
      TextSnoc(front, last);
      if front == [] {
        assert "" + "/" + last == "/" + last;
        SegmentsSplit("", last);
      } else {
        SegmentsOfText(front);
        SegmentsSplit(Text(front), last);
      }
    }
  }

  lemma {:induction false} TextLength(p: seq<string>)
    requires p != []
    ensures |Text(p)| == |p| + Chars(p)
    decreases |p|
  {
    if |p| > 1 {
      TextLength(p[..|p| - 1]);
    } else {
      assert p[..0] == [];
    }
  }

  lemma {:induction false} NonEmptyFacts(p: seq<string>)
    ensures Chars(NonEmpty(p)) == Chars(p) && "" !in NonEmpty(p) && |NonEmpty(p)| <= |p|
    ensures |NonEmpty(p)| == |p| <==> "" !in p
    ensures "" !in p ==> NonEmpty(p) == p
    ensures forall y :: y in NonEmpty(p) ==> y in p
    decreases |p|
  {
    if p != [] {
      var front, last := p[..|p| - 1], p[|p| - 1];
      assert p == front + [last];
      NonEmptyFacts(front);
      if last != "" {
        assert NonEmpty(p)[..|NonEmpty(front)|] == NonEmpty(front);
      } else {
        assert NonEmpty(p) == NonEmpty(front);
        assert p[|p| - 1] in p;
      }
    }
  }

  /** Texts of shaped lists differ as soon as only one of them has an empty piece. */
  lemma TextTellsEmpty(p: seq<string>, s: seq<string>)
    requires Shaped(p) && Shaped(s) && "" !in s && Text(p) == Text(s)
    ensures p == s
  {
    SegmentsOfText(p);
    SegmentsOfText(s);
    NonEmptyFacts(p);
    NonEmptyFacts(s);
    if p == [] || s == [] {
      if p != [] {
        TextLong(p);
      }
      if s != [] {
        TextLong(s);
      }
    } else {
      TextLength(p);
      TextLength(s);
    }
  }

  // ----- the theorems

  ghost predicate Names(s: seq<string>) { forall i :: 0 <= i < |s| ==> Name(s[i]) }

  lemma NamesShaped(s: seq<string>)
    requires Names(s)
    ensures Shaped(s) && "" !in s
  {
  }

  lemma {:induction false} StackNames(s: seq<string>, segs: seq<string>)
    requires Names(s) && Parts(segs)
    ensures Names(RunStack(s, segs))
    decreases |segs|
  {
    if segs != [] {
      StackNames(StepStack(s, segs[0]), segs[1..]);
    }
  }

  lemma Machines(path: string)
    ensures var p, s := RunPieces([], Segments(path)), Resolved(path);
      && Normalized(path) == Text(p) && Shaped(p) && Names(s) && ("" in p <==> !Clean(path)) && ("" !in p ==> p == s)
  {
    hide RunText, RunPieces, RunStack, RunDepth;
    var segs := Segments(path);
    SegmentsParts(path);
    TextIsPieces([], segs);
    RunTracks([], [], Depth(0, false, false), segs);
    StackNames([], segs);
  }

  /** The buffer holds the path the components resolve to exactly when the path is clean. */
  lemma ResolvesExactly(path: string)
    ensures Normalized(path) == Text(Resolved(path)) <==> Clean(path)
  {
    hide Normalized, Resolved, Clean, Shaped, Names, RunPieces, Text;
    Machines(path);
    var p, s := RunPieces([], Segments(path)), Resolved(path);
    NamesShaped(s);
    if Text(p) == Text(s) {
      TextTellsEmpty(p, s);
    }
  }

  /** Going up from the second level leaves a separator behind: "/a/b/.." becomes "/a/". */
  lemma LeavesSeparator(a: string, b: string)
    requires Name(a) && Name(b)
    ensures Normalized("/" + a + "/" + b + "/" + "..") == "/" + a + "/"
      && Resolved("/" + a + "/" + b + "/" + "..") == [a]
  {
    hide Segments, RunText, RunDepth;
    var path, segs := "/" + a + "/" + b + "/" + "..", [a, b, ".."];
    assert Segments(path) == segs by {
      assert "" + "/" + a == "/" + a;
      SegmentsNone();
      SegmentsSplit("", a);
      SegmentsSplit("/" + a, b);
      SegmentsSplit("/" + a + "/" + b, "..");
      SegmentsOfPlain(a);
      SegmentsOfPlain(b);
      SegmentsOfPlain("..");
    }
    Machines(path);
    ThreeSteps(a, b);
    assert [a, ""][..1] == [a];
    assert "/" + a + "/" + "" == "/" + a + "/";
  }

  lemma ThreeSteps(a: string, b: string)
    requires Name(a) && Name(b)
    ensures RunPieces([], [a, b, ".."]) == [a, ""] && RunStack([], [a, b, ".."]) == [a]
  {
    var s := [a, b, ".."];
    assert s[1..] == [b, ".."] && [b, ".."][1..] == [".."] && [".."][1..] == [];
    assert [] + [a] == [a] && [a] + [b] == [a, b];
    assert RunPieces([], s) == RunPieces([a], [b, ".."]);
    assert RunPieces([a], [b, ".."]) == RunPieces([a, b], [".."]);
    assert RunPieces([a, b], [".."]) == RunPieces(PopPieces([a, b]), []);
    assert RunStack([], s) == RunStack([a], [b, ".."]);
    assert RunStack([a], [b, ".."]) == RunStack([a, b], [".."]);
    assert RunStack([a, b], [".."]) == RunStack([a], []);
  }

  lemma {:induction false} OnlyPushes(p: seq<string>, segs: seq<string>)
    requires Names(segs)
    ensures RunPieces(p, segs) == p + segs
    decreases |segs|
  {
    if segs == [] {
      assert p + segs == p;
    } else {
      OnlyPushes(p + [segs[0]], segs[1..]);
      assert p + [segs[0]] + segs[1..] == p + segs;
    }
  }

  lemma NonEmptyNames(p: seq<string>)
    requires Shaped(p)
    ensures Names(NonEmpty(p))
  {
    NonEmptyFacts(p);
    var q := NonEmpty(p);
    forall i | 0 <= i < |q| ensures Name(q[i]) {
      assert q[i] in q;
      assert q[i] in p;
    }
  }

  /** Normalising again changes nothing exactly when the path is clean. */
  lemma IdempotentExactly(path: string)
    ensures Normalized(Normalized(path)) == Normalized(path) <==> Clean(path)
  {
    hide Clean, Shaped, Names, Text, RunPieces, RunText, Resolved;
    Machines(path);
    var p := RunPieces([], Segments(path));
    var q := NonEmpty(p);
    SegmentsOfText(p);
    NonEmptyNames(p);
    NamesShaped(q);
    Machines(Normalized(path));
    OnlyPushes([], q);
    assert [] + q == q;
    assert Normalized(Normalized(path)) == Text(q);
    NonEmptyFacts(p);
    if Text(p) == Text(q) {
      TextTellsEmpty(p, q);
    }
  }

  /** Going up only from the top level or the first one keeps a path clean. */
  ghost predicate Shallow(height: nat, segs: seq<string>)
    decreases |segs|
  {
    segs == [] || ((segs[0] == ".." ==> height < 2)
      && Shallow(StepDepth(Depth(height, false, false), segs[0]).height, segs[1..]))
  }

  lemma {:induction false} ShallowClean(d: Depth, segs: seq<string>)
    requires !d.dirty && !d.open && Shallow(d.height, segs)
    ensures !RunDepth(d, segs).dirty
    decreases |segs|
  {
    if segs != [] {
      ShallowClean(StepDepth(d, segs[0]), segs[1..]);
    }
  }

  // ----- the normaliser as it runs

  lemma SegmentsNone()
    ensures Segments("") == []
  {
  }

  lemma SkipSeparator(t: string)
    requires t != "" && t[0] == '/'
    ensures Segments(t) == Segments(t[1..])
  {
  }

  /** The backing-up loop. */
  method BackUpIn(buffer: array<char>, from: nat) returns (out: nat)
    requires 0 < from <= buffer.Length
    ensures 0 < out <= from && buffer[..out] == BackUp(buffer[..from])
  {
    out := from;
    while out > 1 && buffer[out - 1] != '/'
      invariant 0 < out <= from && BackUp(buffer[..out]) == BackUp(buffer[..from])
    {
      assert buffer[..out][..out - 1] == buffer[..out - 1];
      out := out - 1;
    }
  }

  /** The separator, when needed, and the component. */
  method Append(buffer: array<char>, start: nat, seg: string) returns (out: nat)
    requires 0 < start && (if start > 1 then start + 1 else start) + |seg| < buffer.Length
    modifies buffer
    ensures out == (if start > 1 then start + 1 else start) + |seg|
      && buffer[..out] == PushText(old(buffer[..start]), seg) && buffer[out] == '\0'
  {
    out := start;
    if out > 1 {
      buffer[out] := '/';
      out := out + 1;
    }
    ghost var base := buffer[..out];
    assert base == if start > 1 then old(buffer[..start]) + "/" else old(buffer[..start]);
    var at := out;
    for i := 0 to |seg|
      invariant out == at + i && buffer[..out] == base + seg[..i]
    {
      buffer[out] := seg[i];
      out := out + 1;
    }
    assert seg[..|seg|] == seg;
    buffer[out] := '\0';
  }

  /** `x86_64_vfs_normalize_path`. `path` is the text before the terminating NUL. Every absolute
      path of fewer than 64 bytes is accepted and nothing else; all writes stay in the buffer,
      so the source's own checks for a full buffer never act. */
  method NormalizePath(path: string, buffer: array<char>) returns (ok: bool, length: nat)
    requires buffer.Length == MAX_BYTES
    modifies buffer
    ensures ok <==> path != "" && path[0] == '/' && |path| < MAX_BYTES
    ensures ok ==> length < MAX_BYTES && buffer[..length] == Normalized(path) && buffer[length] == '\0'
  {
    hide BackUp, PushText, Segments;
    length := 0;
    if path == "" || path[0] != '/' {
      return false, 0;
    }
    var i, out := 0, 1;
    buffer[0] := '/';
    assert path[0..] == path && buffer[..1] == "/";
    while i < MAX_BYTES && i < |path|
      invariant i <= |path| && i <= MAX_BYTES && 0 < out < MAX_BYTES && (out == 1 || out <= i)
      invariant i == 0 || i == |path| || i == MAX_BYTES || path[i] == '/'
      invariant RunText(buffer[..out], Segments(path[i..])) == Normalized(path)
      decreases |path| - i
    {
      ghost var head := i;
      i := SkipSeparators(path, i);
      if i >= MAX_BYTES || i == |path| {
        break;
      }
      var start := i;
      i := SegmentEnd(path, i);
      if i >= MAX_BYTES {
        return false, 0;
      }
      var seg := path[start..i];
      if seg == "." {
        continue;
      }
      if seg == ".." {
        if out > 1 {
          ghost var t := buffer[..out];
          assert t[..|t| - 1] == buffer[..out - 1];
          out := BackUpIn(buffer, out - 1);
          buffer[out] := '\0';
        }
        continue;
      }
      assert start > head && (if out > 1 then out + 1 else out) <= start;
      out := Append(buffer, out, seg);
    }
    if i >= MAX_BYTES {
      return false, 0;
    }
    assert path[i..] == "";
    SegmentsNone();
    buffer[out] := '\0';
    return true, out;
  }

  /** Skips separators; the components left are the same. */
  method SkipSeparators(path: string, from: nat) returns (i: nat)
    requires from < |path| && from < MAX_BYTES
    ensures from <= i <= |path| && i <= MAX_BYTES && (i < |path| && i < MAX_BYTES ==> path[i] != '/')
    ensures path[from] == '/' ==> i > from
    ensures Segments(path[i..]) == Segments(path[from..])
  {
    i := from;
    while i < MAX_BYTES && i < |path| && path[i] == '/'
      invariant from <= i <= |path| && i <= MAX_BYTES && Segments(path[i..]) == Segments(path[from..])
      invariant i > from || i == from
    {
      SkipSeparator(path[i..]);
      assert path[i..][1..] == path[i + 1..];
      i := i + 1;
    }
  }

  /** The end of the component at `from`, and the components from there on. */
  method SegmentEnd(path: string, from: nat) returns (i: nat)
    requires from < |path| && from < MAX_BYTES && path[from] != '/'
    ensures from < i <= |path| && i <= MAX_BYTES
    ensures i < MAX_BYTES ==>
      (i == |path| || path[i] == '/') && Segments(path[from..]) == [path[from..i]] + Segments(path[i..])
  {
    i := from;
    while i < MAX_BYTES && i < |path| && path[i] != '/'
      invariant from <= i <= |path| && i <= MAX_BYTES && Plain(path[from..i])
      invariant i == from ==> path[i] != '/'
    {
      i := i + 1;
    }
    if i < MAX_BYTES {
      ghost var t := path[from..];
      assert t[..i - from] == path[from..i] && t[i - from..] == path[i..];
      RunEndUnique(t, i - from);
    }
  }
}
