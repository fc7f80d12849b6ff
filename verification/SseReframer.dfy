/** The streaming client's server-sent-event reframer: network chunks in, event frames out. */
module SseReframer {
  import opened Texts

  const SEPARATOR := "\n\n"

  // ---------------------------------------------------------------- splitting a whole text

  predicate SeparatorAt(s: string, i: nat) {
    i + 1 < |s| && s[i] == '\n' && s[i + 1] == '\n'
  }

  ghost predicate NoSeparator(s: string) {
    forall i :: !SeparatorAt(s, i)
  }

  /** Where the leftmost separator from i on starts, or the length of the text. */
  function FirstSeparator(s: string, i: nat): (k: nat)
    requires i <= |s|
    ensures i <= k <= |s|
    ensures k < |s| ==> SeparatorAt(s, k)
    ensures forall j :: i <= j < k ==> !SeparatorAt(s, j)
    decreases |s| - i
  {
    if i == |s| || SeparatorAt(s, i) then i else FirstSeparator(s, i + 1)
  }

  datatype Pieces = Pieces(frames: seq<string>, rest: string)

  /** Cut at the leftmost separator, again and again. */
  function Split(s: string): Pieces
    decreases |s|
  {
    var k := FirstSeparator(s, 0);
    if k == |s| then Pieces([], s)
    else
      var later := Split(s[k + 2..]);
      Pieces([s[..k]] + later.frames, later.rest)
  }

  /** What is yielded for one frame: nothing if it is empty. */
  function Yield(frame: string): seq<string> {
    if frame == "" then [] else [frame + SEPARATOR]
  }

  function Emit(frames: seq<string>): seq<string> {
    if frames == [] then [] else Yield(frames[0]) + Emit(frames[1..])
  }

  /** What is yielded for the text left over when the stream ends. */
  function EmitTail(rest: string): seq<string> {
    if Strip(rest) == "" then [] else [Strip(rest)]
  }

  function Output(text: string): seq<string> {
    Emit(Split(text).frames) + EmitTail(Split(text).rest)
  }

  function Concat(chunks: seq<string>): string {
    if chunks == [] then "" else Concat(chunks[..|chunks| - 1]) + chunks[|chunks| - 1]
  }

  // ---------------------------------------------------------------- splitting a stream

  /** More text does not move a separator already found. */
  lemma {:induction false} FirstSeparatorStays(a: string, b: string, i: nat)
    requires i <= |a| && FirstSeparator(a, i) < |a|
    ensures FirstSeparator(a + b, i) == FirstSeparator(a, i)
    decreases |a| - i
  {
    if !SeparatorAt(a, i) {
      FirstSeparatorStays(a, b, i + 1);
      assert SeparatorAt(a + b, i) ==> SeparatorAt(a, i) by {
        assert FirstSeparator(a, i + 1) + 1 < |a|;
      }
    }
  }

  /** Splitting may stop at any point of the text and resume with what was left over. */
  lemma {:induction false} SplitResumes(a: string, b: string)
    ensures Split(a + b).frames == Split(a).frames + Split(Split(a).rest + b).frames
    ensures Split(a + b).rest == Split(Split(a).rest + b).rest
    decreases |a|
  {
    var k := FirstSeparator(a, 0);
    if k < |a| {
      FirstSeparatorStays(a, b, 0);
      assert (a + b)[k + 2..] == a[k + 2..] + b && (a + b)[..k] == a[..k];
      SplitResumes(a[k + 2..], b);
      Regroup([a[..k]], Split(a[k + 2..]).frames, Split(Split(a).rest + b).frames);
    }
  }

  lemma {:induction false} EmitAppend(xs: seq<string>, ys: seq<string>)
    ensures Emit(xs + ys) == Emit(xs) + Emit(ys)
  {
    if xs == [] {
      assert xs + ys == ys;
    } else {
      EmitAppend(xs[1..], ys);
      assert (xs + ys)[1..] == xs[1..] + ys && (xs + ys)[0] == xs[0];
      Regroup(Yield(xs[0]), Emit(xs[1..]), Emit(ys));
    }
  }

  lemma EmitFirst(f: string, later: seq<string>)
    ensures Emit([f] + later) == Yield(f) + Emit(later)
  {
    assert ([f] + later)[1..] == later;
  }

  lemma {:induction false} CutOnce(s: string)
    requires FirstSeparator(s, 0) < |s|
    ensures var k := FirstSeparator(s, 0);
            && Emit(Split(s).frames) == Yield(s[..k]) + Emit(Split(s[k + 2..]).frames)
            && Split(s).rest == Split(s[k + 2..]).rest
  {
    var k := FirstSeparator(s, 0);
    EmitFirst(s[..k], Split(s[k + 2..]).frames);
  }

  /** The inner loop: cut frames off the front of the buffer while it holds a separator. */
  method CutFrames(text: string) returns (frames: seq<string>, buf: string)
    ensures frames == Emit(Split(text).frames) && buf == Split(text).rest
  {
    frames, buf := [], text;
    var k := FirstSeparator(buf, 0);
    while k < |buf|
      invariant k == FirstSeparator(buf, 0)
      invariant frames + Emit(Split(buf).frames) == Emit(Split(text).frames)
      invariant Split(buf).rest == Split(text).rest
      decreases |buf|
    {
      var frame := buf[..k];
      CutOnce(buf);
      Regroup(frames, Yield(frame), Emit(Split(buf[k + 2..]).frames));
      buf := buf[k + 2..];
      if frame != "" {
        frames := frames + [frame + SEPARATOR];
      } else {
        assert frames + Yield(frame) == frames;
      }
      k := FirstSeparator(buf, 0);
    }
  }

  /** The reframing loop of chat_completion_stream: what it yields depends only on the text, not on
      how the network cut it into chunks. */
  method Reframe(chunks: seq<string>) returns (yielded: seq<string>)
    ensures yielded == Output(Concat(chunks))
  {
    yielded := [];
    var buf := "";
    for i := 0 to |chunks|
      invariant yielded == Emit(Split(Concat(chunks[..i])).frames)
      invariant buf == Split(Concat(chunks[..i])).rest
    {
      var raw := chunks[i];
      ghost var text := Concat(chunks[..i]);
      assert chunks[..i + 1][..i] == chunks[..i];
      if raw == "" {
        assert text + raw == text;
        continue;
      }
      SplitResumes(text, raw);
      EmitAppend(Split(text).frames, Split(buf + raw).frames);
      var frames;
      frames, buf := CutFrames(buf + raw);
      yielded := yielded + frames;
    }
    assert chunks[..|chunks|] == chunks;
    var tail := Strip(buf);
    if tail != "" {
      yielded := yielded + [tail];
    }
  }

  // ---------------------------------------------------------------- what the splitting is

  function Rejoin(frames: seq<string>, rest: string): string {
    if frames == [] then rest else frames[0] + SEPARATOR + Rejoin(frames[1..], rest)
  }

  /** Frames that end where the first separator starts, and a rest without one. */
  ghost predicate LeftmostPieces(p: Pieces) {
    && (forall i :: 0 <= i < |p.frames| ==> NoSeparator(p.frames[i] + "\n"))
    && NoSeparator(p.rest)
  }

  lemma FirstSeparatorOf(f: string, more: string)
    requires NoSeparator(f + "\n")
    ensures FirstSeparator(f + SEPARATOR + more, 0) == |f|
  {
    var s := f + SEPARATOR + more;
    assert s[|f|] == '\n' && s[|f| + 1] == '\n';
    assert SeparatorAt(s, |f|);
    forall j: nat | 0 <= j < |f| ensures !SeparatorAt(s, j) {
      var t := f + "\n";
      assert !SeparatorAt(t, j);
      assert s[j] == t[j] && s[j + 1] == t[j + 1];
    }
    var k := FirstSeparator(s, 0);
    assert k <= |f|;
  }

  lemma FrameHasNoSeparator(s: string, k: nat)
    requires k + 1 < |s| && s[k] == '\n' && forall j :: 0 <= j < k ==> !SeparatorAt(s, j)
    ensures NoSeparator(s[..k] + "\n")
  {
    var t := s[..k] + "\n";
    forall j: nat ensures !SeparatorAt(t, j) {
      if j + 1 < |t| {
        assert t[j] == s[j] && t[j + 1] == s[j + 1];
        assert !SeparatorAt(s, j);
      }
    }
  }

  lemma {:induction false} SplitIsLeftmost(s: string)
    ensures LeftmostPieces(Split(s))
    decreases |s|
  {
    var k := FirstSeparator(s, 0);
    if k < |s| {
      SplitIsLeftmost(s[k + 2..]);
      FrameHasNoSeparator(s, k);
    } else {
      assert forall j: nat :: !SeparatorAt(s, j);
    }
  }

  lemma RejoinFirst(f: string, frames: seq<string>, rest: string)
    ensures Rejoin([f] + frames, rest) == f + SEPARATOR + Rejoin(frames, rest)
  {
    assert ([f] + frames)[1..] == frames;
  }

  lemma {:induction false} SplitRejoins(s: string)
    ensures Rejoin(Split(s).frames, Split(s).rest) == s
    decreases |s|
  {
    var k := FirstSeparator(s, 0);
    if k < |s| {
      var later := Split(s[k + 2..]);
      SplitRejoins(s[k + 2..]);
      RejoinFirst(s[..k], later.frames, later.rest);
      assert s == s[..k] + SEPARATOR + s[k + 2..];
    }
  }

  /** Splitting loses nothing and is the only leftmost way to cut the text. */
  lemma {:induction false} SplitIsTheOnlyOne(s: string, p: Pieces)
    ensures p == Split(s) <==> LeftmostPieces(p) && Rejoin(p.frames, p.rest) == s
    decreases |s|
  {
    SplitIsLeftmost(s);
    SplitRejoins(s);
    if LeftmostPieces(p) && Rejoin(p.frames, p.rest) == s {
      if p.frames == [] {
        assert forall j: nat :: !SeparatorAt(s, j);
      } else {
        var q := Pieces(p.frames[1..], p.rest);
        var f, more := p.frames[0], Rejoin(q.frames, q.rest);
        FirstSeparatorOf(f, more);
        assert s[..|f|] == f && s[|f| + 2..] == more;
        assert forall i :: 0 <= i < |q.frames| ==> q.frames[i] == p.frames[i + 1];
        SplitIsTheOnlyOne(more, q);
        assert p.frames == [f] + q.frames;
      }
    }
  }

  // ---------------------------------------------------------------- only empty frames are lost

  function NonEmpty(frames: seq<string>): seq<string> {
    if frames == [] then [] else (if frames[0] == "" then [] else [frames[0]]) + NonEmpty(frames[1..])
  }

  lemma {:induction false} ConcatFirst(x: string, ys: seq<string>)
    ensures Concat([x] + ys) == x + Concat(ys)
  {
    if ys == [] {
      assert [x] + ys == [x];
      assert [x][..0] == [];
      assert Concat([x]) == Concat([]) + x;
    } else {
      var k := |ys| - 1;
      ConcatFirst(x, ys[..k]);
      assert ([x] + ys)[..k + 1] == [x] + ys[..k];
      Regroup(x, Concat(ys[..k]), ys[k]);
    }
  }

  lemma {:induction false} EmittedRejoins(frames: seq<string>, rest: string)
    ensures Concat(Emit(frames)) + rest == Rejoin(NonEmpty(frames), rest)
  {
    if frames == [] {
      assert Concat(Emit(frames)) + rest == rest;
    } else {
      var f, more := frames[0], frames[1..];
      EmittedRejoins(more, rest);
      if f == "" {
        assert Emit(frames) == Emit(more) && NonEmpty(frames) == NonEmpty(more);
      } else {
        ConcatFirst(f + SEPARATOR, Emit(more));
        Regroup(f + SEPARATOR, Concat(Emit(more)), rest);
        RejoinFirst(f, NonEmpty(more), rest);
      }
    }
  }

  lemma {:induction false} ConcatAppend(xs: seq<string>, ys: seq<string>)
    ensures Concat(xs + ys) == Concat(xs) + Concat(ys)
  {
    if ys == [] {
      assert xs + ys == xs;
    } else {
      var k := |ys| - 1;
      ConcatAppend(xs, ys[..k]);
      assert (xs + ys)[..|xs| + k] == xs + ys[..k];
      Regroup(Concat(xs), Concat(ys[..k]), ys[k]);
    }
  }

  /** Everything yielded over the whole stream, run together: the text with its empty frames taken out
      and what follows the last separator stripped. The stripped rest is a piece of its own, and only
      if there is any. */
  lemma OutputIs(text: string)
    ensures var p := Split(text);
            && Concat(Output(text)) == Rejoin(NonEmpty(p.frames), Strip(p.rest))
            && |Output(text)| == |NonEmpty(p.frames)| + (if Strip(p.rest) == "" then 0 else 1)
            && (Strip(p.rest) != "" ==> Output(text)[|Output(text)| - 1] == Strip(p.rest))
  {
    var p := Split(text);
    ConcatAppend(Emit(p.frames), EmitTail(p.rest));
    EmittedRejoins(p.frames, Strip(p.rest));
    EmitCount(p.frames);
    var tail := Strip(p.rest);
    if tail != "" {
      assert [tail][..0] == [];
      assert Concat([tail]) == Concat([]) + tail;
    }
  }

  lemma {:induction false} EmitCount(frames: seq<string>)
    ensures |Emit(frames)| == |NonEmpty(frames)|
  {
    if frames != [] {
      EmitCount(frames[1..]);
    }
  }

  /** Frames are cut at two line breaks in a row, and yielded with them. */
  lemma SeparatorIsBlankLine(s: string, i: nat, frame: string)
    requires i + 2 <= |s|
    ensures SeparatorAt(s, i) <==> s[i..i + 2] == "\n\n"
    ensures frame != "" ==> Yield(frame) == [frame + "\n\n"]
  {
    assert s[i..i + 2] == [s[i], s[i + 1]];
  }

  lemma {:induction false} EmptyFramesCost(frames: seq<string>, rest: string)
    ensures |NonEmpty(frames)| <= |frames|
    ensures |Rejoin(frames, rest)| == |Rejoin(NonEmpty(frames), rest)| + |SEPARATOR| * (|frames| - |NonEmpty(frames)|)
  {
    if frames != [] {
      EmptyFramesCost(frames[1..], rest);
      if frames[0] == "" {
        assert NonEmpty(frames) == NonEmpty(frames[1..]);
      } else {
        RejoinFirst(frames[0], NonEmpty(frames[1..]), rest);
      }
    }
  }

  lemma {:induction false} AllNonEmptyIff(frames: seq<string>)
    ensures |NonEmpty(frames)| <= |frames|
    ensures NonEmpty(frames) == frames <==> "" !in frames
    ensures |NonEmpty(frames)| == |frames| <==> "" !in frames
  {
    if frames != [] {
      AllNonEmptyIff(frames[1..]);
      assert frames == [frames[0]] + frames[1..];
    }
  }

  /** What is yielded and what is left over run together are the text with its empty frames taken
      out, character by character; nothing is lost exactly when no frame is empty. Only the strip at
      the end of the stream can drop anything else. */
  lemma NothingElseLost(text: string)
    ensures var p := Split(text);
            var kept := Concat(Emit(p.frames)) + p.rest;
            && kept == Rejoin(NonEmpty(p.frames), p.rest)
            && |text| == |kept| + 2 * (|p.frames| - |NonEmpty(p.frames)|)
            && (kept == text <==> "" !in p.frames)
  {
    var p := Split(text);
    SplitRejoins(text);
    EmittedRejoins(p.frames, p.rest);
    EmptyFramesCost(p.frames, p.rest);
    AllNonEmptyIff(p.frames);
  }
}
