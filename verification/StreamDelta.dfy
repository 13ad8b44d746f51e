// Normalising the frames of a completion stream (core/stream_text_delta.py).
//
// Some backends send increments, others the whole text so far in every frame.  The normaliser
// guesses from the frames which it is and returns what to show for each frame.
module StreamDelta {

  datatype Mode = Unset | Inc | Cum

  datatype Normalizer = Normalizer(mode: Mode, snap: string)

  const Fresh := Normalizer(Unset, "")

  // append_stream_delta: the piece to show, and the confirmed text.
  function Append(acc: string, delta: string): (string, string) {
    if delta == "" then ("", acc)
    else if acc != "" && acc <= delta then (delta[|acc|..], delta)
    else (delta, acc + delta)
  }

  // feed: the new state and the piece to show; `raw` is the debugging switch.
  function Feed(n: Normalizer, delta: string, raw: bool): (Normalizer, string) {
    if delta == "" then (n, "")
    else if raw then (n.(snap := n.snap + delta), delta)
    else if n.snap == "" && n.mode.Unset? then (n.(snap := delta), delta)
    else if n.snap == delta then (n, "")
    else if n.snap != "" && n.snap <= delta then (Normalizer(Cum, delta), delta[|n.snap|..])
    else if n.mode.Cum? then (n.(snap := delta), delta)
    else (Normalizer(Inc, n.snap + delta), delta)
  }

  class StreamDeltaNormalizer {
    var mode: Mode
    var snap: string

    constructor ()
      ensures Value() == Fresh
    {
      mode, snap := Unset, "";
    }

    function Value(): Normalizer
      reads this
    {
      Normalizer(mode, snap)
    }

    method FeedDelta(delta: string, raw: bool) returns (piece: string)
      modifies this
      ensures (Value(), piece) == Feed(old(Value()), delta, raw)
    {
      if delta == "" { return ""; }
      if raw {
        snap := snap + delta;
        return delta;
      }
      if mode.Unset? {
        if snap == "" {
          snap := delta;
          return delta;
        }
        if snap == delta { return ""; }
        if snap <= delta && |delta| > |snap| {
          mode := Cum;
          piece := delta[|snap|..];
          snap := delta;
          return;
        }
        mode := Inc;
        snap := snap + delta;
        return delta;
      }
      if mode.Cum? {
        if snap == delta { return ""; }
        if snap != "" && snap <= delta {
          piece := delta[|snap|..];
          snap := delta;
          return;
        }
        snap := delta;
        return delta;
      }
      if delta == snap { return ""; }
      if snap != "" && snap <= delta && |delta| > |snap| {
        mode := Cum;
        piece := delta[|snap|..];
        snap := delta;
        return;
      }
      snap := snap + delta;
      piece := delta;
    }
  }

  // What is shown for a frame, in every mode: what it adds to the text remembered if it starts with that,
  // and otherwise all of it, so also a frame that breaks off a cumulative stream.
  lemma PieceExactly(n: Normalizer, delta: string)
    ensures Feed(n, delta, false).1 == if n.snap != "" && n.snap <= delta then delta[|n.snap|..] else delta
    ensures Feed(n, delta, true).1 == delta
  {
    if n.snap == delta { assert delta[|n.snap|..] == ""; }
  }

  // What is remembered then: the text so far for an increment, the frame itself for a cumulative one, and
  // the mode only moves from unset to increments or to cumulative, and from increments to cumulative.
  lemma RememberedExactly(n: Normalizer, delta: string)
    requires delta != ""
    ensures var next := Feed(n, delta, false).0;
            && next.snap == (if n.mode.Cum? || (n.snap != "" && n.snap <= delta) then delta else n.snap + delta)
            && (next.mode.Cum? <==> n.mode.Cum? || (n.snap != "" && n.snap < delta))
            && (next.mode.Unset? <==> n.mode.Unset? && (n.snap == "" || n.snap == delta))
    ensures Feed(n, delta, true).0 == n.(snap := n.snap + delta)
  {
    if n.snap == "" { assert n.snap + delta == delta; }
  }

  datatype Frame = Frame(delta: string, raw: bool)

  function After(n: Normalizer, frames: seq<Frame>): Normalizer
    decreases |frames|
  {
    if frames == [] then n else After(Feed(n, frames[0].delta, frames[0].raw).0, frames[1..])
  }

  function Shown(n: Normalizer, frames: seq<Frame>): string
    decreases |frames|
  {
    if frames == [] then ""
    else
      var (n', piece) := Feed(n, frames[0].delta, frames[0].raw);
      piece + Shown(n', frames[1..])
  }

  predicate Suffix(a: string, b: string) { |a| <= |b| && b[|b| - |a|..] == a }

  lemma FeedKeepsSuffix(n: Normalizer, shown: string, delta: string, raw: bool)
    requires Suffix(n.snap, shown)
    ensures Suffix(Feed(n, delta, raw).0.snap, shown + Feed(n, delta, raw).1)
  {
  }

  // On every stream, switched to raw or back at any frame, what the normaliser remembers is the end
  // of what has been shown.
  lemma {:induction false} SnapIsSuffixOfShown(n: Normalizer, shown: string, frames: seq<Frame>)
    requires Suffix(n.snap, shown)
    ensures Suffix(After(n, frames).snap, shown + Shown(n, frames))
    decreases |frames|
  {
    if frames == [] {
      assert shown + "" == shown;
    } else {
      var (n', piece) := Feed(n, frames[0].delta, frames[0].raw);
      FeedKeepsSuffix(n, shown, frames[0].delta, frames[0].raw);
      SnapIsSuffixOfShown(n', shown + piece, frames[1..]);
      assert (shown + piece) + Shown(n', frames[1..]) == shown + Shown(n, frames);
    }
  }

  // ---------------------------------------------------------------------------------------------
  // Agreement with append_stream_delta
  // ---------------------------------------------------------------------------------------------

  // Frame by frame, both show the same piece and confirm the same text.
  predicate Lockstep(n: Normalizer, acc: string, frames: seq<string>)
    decreases |frames|
  {
    frames == [] ||
    (var (n', piece) := Feed(n, frames[0], false);
     var (piece', acc') := Append(acc, frames[0]);
     piece == piece' && n'.snap == acc' && Lockstep(n', acc', frames[1..]))
  }

  // Once a frame has properly extended the text so far, every further frame starts with it.
  predicate IncThenCum(cum: bool, text: string, frames: seq<string>)
    decreases |frames|
  {
    if frames == [] then true
    else if frames[0] == "" then IncThenCum(cum, text, frames[1..])
    else if text != "" && text <= frames[0] then IncThenCum(cum || frames[0] != text, frames[0], frames[1..])
    else !cum && IncThenCum(cum, text + frames[0], frames[1..])
  }

  lemma {:induction false} LockstepExactly(n: Normalizer, frames: seq<string>)
    requires n.snap == "" ==> n.mode.Unset?
    ensures Lockstep(n, n.snap, frames) <==> IncThenCum(n.mode.Cum?, n.snap, frames)
    decreases |frames|
  {
    if frames != [] {
      var f, rest := frames[0], frames[1..];
      var (n', piece) := Feed(n, f, false);
      if f == "" {
        LockstepExactly(n, rest);
      } else if n.snap != "" && n.snap <= f {
        assert f == n.snap ==> f[|n.snap|..] == "";
        LockstepExactly(n', rest);
      } else if n.mode.Cum? {
        assert |n.snap + f| > |f|;
      } else {
        assert n.snap == "" ==> n.snap + f == f;
        LockstepExactly(n', rest);
      }
    }
  }

  // Main result on agreement: the normaliser agrees with append_stream_delta on a stream exactly
  // when the stream is increments followed by cumulative frames.
  lemma AgreesExactlyOnIncThenCum(frames: seq<string>)
    ensures Lockstep(Fresh, "", frames) <==> IncThenCum(false, "", frames)
  {
    LockstepExactly(Fresh, frames);
  }

  function Plain(frames: seq<string>): seq<Frame> {
    seq(|frames|, k requires 0 <= k < |frames| => Frame(frames[k], false))
  }

  // The whole text: increments are appended, cumulative frames replace.
  function FullText(text: string, incs: seq<string>, cums: seq<string>): string
    decreases |incs| + |cums|
  {
    if incs != [] then FullText(text + incs[0], incs[1..], cums)
    else if cums != [] then FullText(if cums[0] == "" then text else cums[0], [], cums[1..])
    else text
  }

  // No increment looks like the whole text so far, every cumulative frame starts with it.
  predicate Faithful(text: string, incs: seq<string>, cums: seq<string>)
    decreases |incs| + |cums|
  {
    if incs != [] then (text == "" || incs[0] == "" || !(text <= incs[0])) && Faithful(text + incs[0], incs[1..], cums)
    else if cums != [] then (cums[0] == "" || text <= cums[0]) && Faithful(if cums[0] == "" then text else cums[0], [], cums[1..])
    else true
  }

  lemma ShownCons(n: Normalizer, f: string, rest: seq<string>)
    ensures var (n', piece) := Feed(n, f, false);
            Shown(n, Plain([f] + rest)) == piece + Shown(n', Plain(rest))
  {
    assert Plain([f] + rest)[0] == Frame(f, false) && Plain([f] + rest)[1..] == Plain(rest);
  }

  // A frame is shown so that what was remembered and what is shown make up what is remembered next.
  lemma FrameShown(n: Normalizer, f: string, next: Normalizer, shownRest: string, all: string)
    requires next == Feed(n, f, false).0 && n.snap + Feed(n, f, false).1 == next.snap
    requires next.snap + shownRest == all
    ensures n.snap + (Feed(n, f, false).1 + shownRest) == all
  {
  }

  lemma {:induction false} CumsShown(n: Normalizer, cums: seq<string>)
    requires Faithful(n.snap, [], cums) && (n.snap == "" ==> n.mode.Unset?)
    ensures n.snap + Shown(n, Plain(cums)) == FullText(n.snap, [], cums)
    decreases |cums|
  {
    if cums == [] {
      assert n.snap + "" == n.snap;
    } else {
      var f, rest := cums[0], cums[1..];
      var next := Feed(n, f, false).0;
      assert cums == [f] + rest;
      CumsShown(next, rest);
      ShownCons(n, f, rest);
      FrameShown(n, f, next, Shown(next, Plain(rest)), FullText(n.snap, [], cums));
    }
  }

  lemma {:induction false} ShownIsFullText(n: Normalizer, incs: seq<string>, cums: seq<string>)
    requires Faithful(n.snap, incs, cums) && !n.mode.Cum? && (n.snap == "" ==> n.mode.Unset?)
    ensures n.snap + Shown(n, Plain(incs + cums)) == FullText(n.snap, incs, cums)
    decreases |incs|
  {
    if incs == [] {
      assert incs + cums == cums;
      CumsShown(n, cums);
    } else {
      var f, rest := incs[0], incs[1..] + cums;
      var next := Feed(n, f, false).0;
      assert incs + cums == [f] + rest;
      assert n.snap + f == next.snap;
      ShownIsFullText(next, incs[1..], cums);
      ShownCons(n, f, rest);
      FrameShown(n, f, next, Shown(next, Plain(rest)), FullText(n.snap, incs, cums));
    }
  }

  // Main result: a stream of increments followed by cumulative frames is shown as exactly the whole
  // text, once.
  lemma StreamShownOnce(incs: seq<string>, cums: seq<string>)
    requires Faithful("", incs, cums)
    ensures Shown(Fresh, Plain(incs + cums)) == FullText("", incs, cums)
  {
    ShownIsFullText(Fresh, incs, cums);
    assert "" + Shown(Fresh, Plain(incs + cums)) == Shown(Fresh, Plain(incs + cums));
  }

  function TotalLength(frames: seq<string>): nat {
    if frames == [] then 0 else |frames[0]| + TotalLength(frames[1..])
  }

  lemma {:induction false} ShownAtMost(n: Normalizer, frames: seq<string>)
    ensures |Shown(n, Plain(frames))| <= TotalLength(frames)
    decreases |frames|
  {
    if frames != [] {
      assert frames == [frames[0]] + frames[1..];
      ShownCons(n, frames[0], frames[1..]);
      ShownAtMost(Feed(n, frames[0], false).0, frames[1..]);
    }
  }

  lemma {:induction false} FullTextLength(text: string, incs: seq<string>)
    ensures |FullText(text, incs, [])| == |text| + TotalLength(incs)
    decreases |incs|
  {
    if incs != [] { FullTextLength(text + incs[0], incs[1..]); }
  }

  // From the first increment that is mistaken for a cumulative frame on, something is missing.
  lemma {:induction false} UnfaithfulIsShort(n: Normalizer, incs: seq<string>)
    requires !n.mode.Cum? && (n.snap == "" ==> n.mode.Unset?) && !Faithful(n.snap, incs, [])
    ensures |Shown(n, Plain(incs))| < TotalLength(incs)
    decreases |incs|
  {
    var f, rest := incs[0], incs[1..];
    var next := Feed(n, f, false).0;
    assert incs == [f] + rest;
    ShownCons(n, f, rest);
    if n.snap != "" && f != "" && n.snap <= f {
      ShownAtMost(next, rest);
    } else {
      assert n.snap + f == next.snap;
      UnfaithfulIsShort(next, rest);
    }
  }

  // Main result on increments: they are shown in full exactly when none of them begins with the
  // whole text so far.
  lemma IncrementsShownExactly(incs: seq<string>)
    ensures Shown(Fresh, Plain(incs)) == FullText("", incs, []) <==> Faithful("", incs, [])
  {
    if Faithful("", incs, []) {
      StreamShownOnce(incs, []);
      assert incs + [] == incs;
    } else {
      UnfaithfulIsShort(Fresh, incs);
      FullTextLength("", incs);
    }
  }

  // An increment that begins with the whole text so far cannot be told from a cumulative frame and
  // loses that beginning.
  lemma RepeatedTextIsLost()
    ensures Shown(Fresh, Plain(["a", "ab"])) == "ab" != FullText("", ["a", "ab"], [])
  {
  }
}
