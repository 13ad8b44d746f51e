// Unified-diff hunks over a list of lines (core/apply_patch_unified.py).
//
// `_apply_hunk` walks one hunk over the file with moving indices; the hunk loop sorts the hunks by
// start line, highest first, and applies them one after the other.  The results here say what
// that amounts to: a simultaneous splice of all hunks into the original, whose failure and result
// do not depend on the order in which the hunks are listed, and which the inverse patch undoes.
module Hunks {
  import opened Wrappers

  type Line = string

  // One body line: " " context, "-" deletion, "+" addition, "\" the no-newline note.
  datatype HunkLine = Context(text: Line) | Delete(text: Line) | Add(text: Line) | Note(text: Line)

  datatype Hunk = Hunk(oldStart: nat, body: seq<HunkLine>)

  // The four ValueErrors of `_apply_hunk`; `at` is the 1-based line number it reports.
  datatype Mismatch =
    | ContextPastEnd(text: Line)
    | ContextDiffers(at: nat, found: Line, text: Line)
    | DeletePastEnd(text: Line)
    | DeleteDiffers(at: nat, found: Line, text: Line)

  function OldSide(body: seq<HunkLine>): seq<Line> {
    if body == [] then []
    else if body[0].Context? || body[0].Delete? then [body[0].text] + OldSide(body[1..])
    else OldSide(body[1..])
  }

  function NewSide(body: seq<HunkLine>): seq<Line> {
    if body == [] then []
    else if body[0].Context? || body[0].Add? then [body[0].text] + NewSide(body[1..])
    else NewSide(body[1..])
  }

  // Python slices clamp at the end of the list.
  function Before(lines: seq<Line>, p: nat): seq<Line> {
    if p <= |lines| then lines[..p] else lines
  }

  function After(lines: seq<Line>, p: nat): seq<Line> {
    if p <= |lines| then lines[p..] else []
  }

  predicate Fits(lines: seq<Line>, side: seq<Line>, p: nat) {
    side == [] || (p + |side| <= |lines| && lines[p..p + |side|] == side)
  }

  // The part of the output produced from index i on.
  function Walk(lines: seq<Line>, body: seq<HunkLine>, i: nat): Result<seq<Line>, Mismatch>
    decreases |body|
  {
    if body == [] then Success(After(lines, i))
    else
      match body[0]
      case Context(t) =>
        if i >= |lines| then Failure(ContextPastEnd(t))
        else if lines[i] != t then Failure(ContextDiffers(i + 1, lines[i], t))
        else Emit([t], Walk(lines, body[1..], i + 1))
      case Delete(t) =>
        if i >= |lines| then Failure(DeletePastEnd(t))
        else if lines[i] != t then Failure(DeleteDiffers(i + 1, lines[i], t))
        else Walk(lines, body[1..], i + 1)
      case Add(t) => Emit([t], Walk(lines, body[1..], i))
      case Note(_) => Walk(lines, body[1..], i)
  }

  function Emit(out: seq<Line>, r: Result<seq<Line>, Mismatch>): Result<seq<Line>, Mismatch> {
    match r
    case Success(v) => Success(out + v)
    case Failure(_) => r
  }

  function Splice(lines: seq<Line>, body: seq<HunkLine>, p: nat): Result<seq<Line>, Mismatch> {
    Emit(Before(lines, p), Walk(lines, body, p))
  }

  // A hunk is accepted exactly when its old side stands at the given place, and then that stretch
  // is replaced by the new side.
  lemma {:induction false} WalkReplacesOldSide(lines: seq<Line>, body: seq<HunkLine>, i: nat)
    ensures Walk(lines, body, i).Success? <==> Fits(lines, OldSide(body), i)
    ensures Walk(lines, body, i).Success? ==>
              Walk(lines, body, i).value == NewSide(body) + After(lines, i + |OldSide(body)|)
    decreases |body|
  {
    if body != [] {
      var t, rest := body[0].text, body[1..];
      if body[0].Context? || body[0].Delete? {
        WalkReplacesOldSide(lines, rest, i + 1);
        FitsStep(lines, t, OldSide(rest), i);
        EmitFront(t, NewSide(rest), After(lines, i + 1 + |OldSide(rest)|));
      } else {
        WalkReplacesOldSide(lines, rest, i);
        EmitFront(t, NewSide(rest), After(lines, i + |OldSide(rest)|));
      }
    }
  }

  lemma EmitFront(t: Line, a: seq<Line>, b: seq<Line>)
    ensures Emit([t], Success(a + b)) == Success([t] + a + b)
  {
    assert [t] + (a + b) == [t] + a + b;
  }

  lemma FitsStep(lines: seq<Line>, t: Line, rest: seq<Line>, i: nat)
    ensures Fits(lines, [t] + rest, i) <==> i < |lines| && lines[i] == t && Fits(lines, rest, i + 1)
  {
    var side := [t] + rest;
    if i + |side| <= |lines| {
      assert lines[i..i + |side|] == [lines[i]] + lines[i + 1..i + 1 + |rest|];
      assert side[0] == t && side[1..] == rest;
      assert lines[i..i + |side|][1..] == lines[i + 1..i + 1 + |rest|];
    }
  }

  // Which error is raised: the one for the first line of the old side that the file does not have.
  lemma {:induction false} WalkReportsFirstClash(lines: seq<Line>, body: seq<HunkLine>, i: nat) returns (k: nat)
    requires Walk(lines, body, i).Failure?
    ensures k < |OldSide(body)| && Fits(lines, OldSide(body)[..k], i)
    ensures var e := Walk(lines, body, i).error;
            && e.text == OldSide(body)[k]
            && (e.ContextPastEnd? || e.DeletePastEnd? <==> i + k >= |lines|)
            && (e.ContextDiffers? || e.DeleteDiffers? ==>
                  i + k < |lines| && e.at == i + k + 1 && e.found == lines[i + k] != e.text)
    decreases |body|
  {
    var side := OldSide(body);
    if body[0].Add? || body[0].Note? {
      k := WalkReportsFirstClash(lines, body[1..], i);
    } else if i < |lines| && lines[i] == body[0].text {
      var k' := WalkReportsFirstClash(lines, body[1..], i + 1);
      k := k' + 1;
      assert side[..k] == [body[0].text] + OldSide(body[1..])[..k'];
      FitsStep(lines, body[0].text, OldSide(body[1..])[..k'], i);
    } else {
      k := 0;
    }
  }

  lemma {:induction false} SpliceReplacesOldSide(lines: seq<Line>, body: seq<HunkLine>, p: nat)
    ensures Splice(lines, body, p).Success? <==> Fits(lines, OldSide(body), p)
    ensures Splice(lines, body, p).Success? ==>
              Splice(lines, body, p).value == Before(lines, p) + NewSide(body) + After(lines, p + |OldSide(body)|)
  {
    WalkReplacesOldSide(lines, body, p);
    var tail := After(lines, p + |OldSide(body)|);
    assert Before(lines, p) + (NewSide(body) + tail) == Before(lines, p) + NewSide(body) + tail;
  }

  method ApplyHunk(lines: seq<Line>, body: seq<HunkLine>, oldStart: nat) returns (r: Result<seq<Line>, Mismatch>)
    requires oldStart >= 1
    ensures r == Splice(lines, body, oldStart - 1)
    ensures r.Success? <==> Fits(lines, OldSide(body), oldStart - 1)
    ensures r.Success? ==>
              r.value == Before(lines, oldStart - 1) + NewSide(body) + After(lines, oldStart - 1 + |OldSide(body)|)
  {
    SpliceReplacesOldSide(lines, body, oldStart - 1);
    var res := Before(lines, oldStart - 1);
    var i := oldStart - 1;
    var hi := 0;
    while hi < |body|
      invariant 0 <= hi <= |body|
      invariant Emit(res, Walk(lines, body[hi..], i)) == Splice(lines, body, oldStart - 1)
    {
      assert body[hi..][0] == body[hi] && body[hi..][1..] == body[hi + 1..];
      ghost var rest := Walk(lines, body[hi + 1..], i + 1);
      ghost var rest' := Walk(lines, body[hi + 1..], i);
      match body[hi] {
        case Context(t) =>
          if i >= |lines| { return Failure(ContextPastEnd(t)); }
          if lines[i] != t { return Failure(ContextDiffers(i + 1, lines[i], t)); }
          EmitTwice(res, [t], rest);
          res := res + [lines[i]];
          i := i + 1;
        case Delete(t) =>
          if i >= |lines| { return Failure(DeletePastEnd(t)); }
          if lines[i] != t { return Failure(DeleteDiffers(i + 1, lines[i], t)); }
          i := i + 1;
        case Add(t) =>
          EmitTwice(res, [t], rest');
          res := res + [t];
        case Note(_) =>
      }
      hi := hi + 1;
    }
    res := res + After(lines, i);
    r := Success(res);
  }

  lemma EmitTwice(a: seq<Line>, b: seq<Line>, r: Result<seq<Line>, Mismatch>)
    ensures Emit(a, Emit(b, r)) == Emit(a + b, r)
  {
    if r.Success? {
      assert a + (b + r.value) == (a + b) + r.value;
    }
  }

  // ---------------------------------------------------------------------------------------------
  // The hunk loop
  // ---------------------------------------------------------------------------------------------

  // 0-based index at which a hunk is placed: start lines below 1 count as 1.
  function Lo(h: Hunk): nat {
    if h.oldStart >= 1 then h.oldStart - 1 else 0
  }

  function Old(h: Hunk): seq<Line> { OldSide(h.body) }

  function New(h: Hunk): seq<Line> { NewSide(h.body) }

  function Hi(h: Hunk): nat { Lo(h) + |Old(h)| }

  predicate HunkFits(lines: seq<Line>, h: Hunk) { Fits(lines, Old(h), Lo(h)) }

  // Stable sort on the start line, highest first.
  function SortDescending(hs: seq<Hunk>): seq<Hunk> {
    if hs == [] then [] else InsertDescending(hs[0], SortDescending(hs[1..]))
  }

  function InsertDescending(h: Hunk, hs: seq<Hunk>): seq<Hunk> {
    if hs == [] || hs[0].oldStart <= h.oldStart then [h] + hs
    else [hs[0]] + InsertDescending(h, hs[1..])
  }

  lemma {:induction false} InsertPermutes(h: Hunk, hs: seq<Hunk>)
    ensures multiset(InsertDescending(h, hs)) == multiset{h} + multiset(hs)
  {
    if hs == [] || hs[0].oldStart <= h.oldStart {
    } else {
      assert hs == [hs[0]] + hs[1..];
      InsertPermutes(h, hs[1..]);
    }
  }

  lemma {:induction false} InsertKeepsDescending(h: Hunk, hs: seq<Hunk>)
    requires Descending(hs)
    ensures Descending(InsertDescending(h, hs))
    ensures forall x :: x in InsertDescending(h, hs) ==> x == h || x in hs
  {
    if hs == [] || hs[0].oldStart <= h.oldStart {
    } else {
      InsertKeepsDescending(h, hs[1..]);
      var rest := InsertDescending(h, hs[1..]);
      assert forall j :: 0 <= j < |rest| ==> rest[j] in rest;
    }
  }

  // The sort lists the same hunks with non-increasing start lines.
  lemma {:induction false} SortIsDescending(hs: seq<Hunk>)
    ensures Descending(SortDescending(hs))
    ensures multiset(SortDescending(hs)) == multiset(hs)
  {
    if hs != [] {
      assert hs == [hs[0]] + hs[1..];
      SortIsDescending(hs[1..]);
      InsertKeepsDescending(hs[0], SortDescending(hs[1..]));
      InsertPermutes(hs[0], SortDescending(hs[1..]));
    }
  }

  predicate Descending(hs: seq<Hunk>) {
    forall i, j :: 0 <= i < j < |hs| ==> hs[i].oldStart >= hs[j].oldStart
  }

  function Keep(p: Hunk -> bool, hs: seq<Hunk>): seq<Hunk> {
    if hs == [] then [] else (if p(hs[0]) then [hs[0]] else []) + Keep(p, hs[1..])
  }

  lemma {:induction false} KeptExactly(p: Hunk -> bool, hs: seq<Hunk>)
    ensures forall h :: h in Keep(p, hs) <==> h in hs && p(h)
  {
    if hs != [] {
      KeptExactly(p, hs[1..]);
      assert hs == [hs[0]] + hs[1..];
    }
  }

  lemma KeepCons(p: Hunk -> bool, h: Hunk, hs: seq<Hunk>)
    ensures Keep(p, [h] + hs) == if p(h) then [h] + Keep(p, hs) else Keep(p, hs)
  {
    assert ([h] + hs)[1..] == hs;
  }

  lemma InsertCons(h: Hunk, x: Hunk, rest: seq<Hunk>)
    ensures InsertDescending(h, [x] + rest)
            == if x.oldStart <= h.oldStart then [h] + ([x] + rest) else [x] + InsertDescending(h, rest)
  {
    assert ([x] + rest)[1..] == rest;
  }

  lemma InsertOnTop(h: Hunk, hs: seq<Hunk>)
    requires forall x :: x in hs ==> x.oldStart <= h.oldStart
    ensures InsertDescending(h, hs) == [h] + hs
  {
    if hs != [] { assert hs[0] in hs; }
  }

  lemma DescendingTail(hs: seq<Hunk>)
    requires hs != [] && Descending(hs)
    ensures Descending(hs[1..]) && hs == [hs[0]] + hs[1..]
    ensures forall x :: x in hs ==> x.oldStart <= hs[0].oldStart
  {
  }

  lemma {:induction false} InsertThenKeep(p: Hunk -> bool, h: Hunk, hs: seq<Hunk>)
    requires Descending(hs)
    ensures Keep(p, InsertDescending(h, hs)) == if p(h) then InsertDescending(h, Keep(p, hs)) else Keep(p, hs)
  {
    if hs == [] {
      KeepCons(p, h, []);
    } else {
      var x, rest := hs[0], hs[1..];
      DescendingTail(hs);
      KeepCons(p, x, rest);
      if x.oldStart <= h.oldStart {
        KeptExactly(p, hs);
        InsertOnTop(h, Keep(p, hs));
        KeepCons(p, h, hs);
      } else {
        InsertThenKeep(p, h, rest);
        KeepCons(p, x, InsertDescending(h, rest));
        InsertCons(h, x, Keep(p, rest));
      }
    }
  }

  // Selecting and sorting commute.
  lemma {:induction false} SortThenKeep(p: Hunk -> bool, hs: seq<Hunk>)
    ensures Keep(p, SortDescending(hs)) == SortDescending(Keep(p, hs))
  {
    if hs != [] {
      SortThenKeep(p, hs[1..]);
      SortIsDescending(hs[1..]);
      InsertThenKeep(p, hs[0], SortDescending(hs[1..]));
      KeepCons(p, hs[0], hs[1..]);
      assert hs == [hs[0]] + hs[1..];
      SortCons(hs[0], Keep(p, hs[1..]));
    }
  }

  lemma SortCons(h: Hunk, hs: seq<Hunk>)
    ensures SortDescending([h] + hs) == InsertDescending(h, SortDescending(hs))
  {
    assert ([h] + hs)[1..] == hs;
  }

  lemma {:induction false} SortKeepsDescending(hs: seq<Hunk>)
    requires Descending(hs)
    ensures SortDescending(hs) == hs
  {
    if hs != [] {
      assert Descending(hs[1..]);
      SortKeepsDescending(hs[1..]);
      if |hs| > 1 { assert hs[1..][0] == hs[1]; }
    }
  }

  function StartsAt(start: nat): Hunk -> bool {
    (h: Hunk) => h.oldStart == start
  }

  // The sort is stable: hunks with one start line stay in the order listed.
  lemma SortIsStable(hs: seq<Hunk>, start: nat)
    ensures Keep(StartsAt(start), SortDescending(hs)) == Keep(StartsAt(start), hs)
  {
    var p := StartsAt(start);
    SortThenKeep(p, hs);
    KeptExactly(p, hs);
    var same := Keep(p, hs);
    forall i, j | 0 <= i < j < |same|
      ensures same[i].oldStart >= same[j].oldStart
    {
      assert same[i] in same && same[j] in same;
    }
    SortKeepsDescending(same);
  }

  // Hunks that share a start line are equal.
  predicate StartsDiffer(hs: seq<Hunk>) {
    forall a, b :: a in hs && b in hs && a.oldStart == b.oldStart ==> a == b
  }

  lemma SortedHeads(s: seq<Hunk>, t: seq<Hunk>)
    requires Descending(s) && Descending(t) && multiset(s) == multiset(t) && StartsDiffer(s) && s != []
    ensures t != [] && s[0] == t[0] && multiset(s[1..]) == multiset(t[1..])
  {
    assert |multiset(s)| == |multiset(t)|;
    SameElements(s, t);
    DescendingTail(s);
    DescendingTail(t);
    assert s[0] in t && t[0] in s;
    SameRest(s, t);
  }

  lemma SameRest(s: seq<Hunk>, t: seq<Hunk>)
    requires s != [] && t != [] && s[0] == t[0] && multiset(s) == multiset(t)
    ensures multiset(s[1..]) == multiset(t[1..])
  {
    assert s == [s[0]] + s[1..] && t == [t[0]] + t[1..];
    assert multiset(s[1..]) == multiset(s) - multiset{s[0]};
    assert multiset(t[1..]) == multiset(t) - multiset{t[0]};
  }

  lemma {:induction false} SortedAlike(s: seq<Hunk>, t: seq<Hunk>)
    requires Descending(s) && Descending(t) && multiset(s) == multiset(t) && StartsDiffer(s)
    ensures s == t
  {
    if s == [] {
      assert |multiset(t)| == 0;
    } else {
      SortedHeads(s, t);
      DescendingTail(s);
      DescendingTail(t);
      SortedAlike(s[1..], t[1..]);
    }
  }

  lemma {:induction false} SortIgnoresOrder(a: seq<Hunk>, b: seq<Hunk>)
    requires multiset(a) == multiset(b) && StartsDiffer(a)
    ensures SortDescending(a) == SortDescending(b)
  {
    SortIsDescending(a);
    SortIsDescending(b);
    SameElements(a, SortDescending(a));
    SortedAlike(SortDescending(a), SortDescending(b));
  }

  function ApplyInOrder(lines: seq<Line>, hs: seq<Hunk>): Result<seq<Line>, Mismatch>
    decreases |hs|
  {
    if hs == [] then Success(lines)
    else
      match Splice(lines, hs[0].body, Lo(hs[0]))
      case Success(lines') => ApplyInOrder(lines', hs[1..])
      case Failure(e) => Failure(e)
  }

  function PatchLines(lines: seq<Line>, hs: seq<Hunk>): Result<seq<Line>, Mismatch> {
    ApplyInOrder(lines, SortDescending(hs))
  }

  method ApplyHunks(lines: seq<Line>, hs: seq<Hunk>) returns (r: Result<seq<Line>, Mismatch>)
    ensures r == PatchLines(lines, hs)
  {
    var sorted := SortDescending(hs);
    var fileLines := lines;
    for n := 0 to |sorted|
      invariant ApplyInOrder(fileLines, sorted[n..]) == PatchLines(lines, hs)
    {
      assert sorted[n..][0] == sorted[n] && sorted[n..][1..] == sorted[n + 1..];
      var start := if sorted[n].oldStart >= 1 then sorted[n].oldStart else 1;
      var one := ApplyHunk(fileLines, sorted[n].body, start);
      if one.Failure? { return one; }
      fileLines := one.value;
    }
    r := Success(fileLines);
  }

  // ---------------------------------------------------------------------------------------------
  // What the hunk loop computes
  // ---------------------------------------------------------------------------------------------

  predicate Apart(a: Hunk, b: Hunk) {
    Lo(a) != Lo(b) && (if Lo(a) < Lo(b) then Hi(a) <= Lo(b) else Hi(b) <= Lo(a))
  }

  // Every hunk is listed once, with its own start line and its own stretch of old lines.
  ghost predicate Separate(hs: seq<Hunk>) {
    && (forall h :: h in hs ==> multiset(hs)[h] == 1)
    && (forall a, b :: a in hs && b in hs && a != b ==> Apart(a, b))
  }

  // A hunk without old lines is the only kind that can be placed past the end.
  predicate InRange(n: nat, hs: seq<Hunk>) {
    forall h :: h in hs && Old(h) == [] ==> Lo(h) <= n
  }

  function AddedAt(hs: seq<Hunk>, k: nat): seq<Line> {
    if hs == [] then []
    else if Lo(hs[0]) == k then New(hs[0])
    else AddedAt(hs[1..], k)
  }

  predicate Covered(hs: seq<Hunk>, k: nat) {
    exists h :: h in hs && Lo(h) <= k < Hi(h)
  }

  // All hunks at once: at every index of the original, the new side of the hunk that starts there,
  // then the original line unless some hunk's old side covers it.  No hunk order is involved.
  function SpliceAll(lines: seq<Line>, hs: seq<Hunk>, k: nat): seq<Line>
    requires k <= |lines|
    decreases |lines| - k
  {
    AddedAt(hs, k) +
    if k == |lines| then []
    else (if Covered(hs, k) then [] else [lines[k]]) + SpliceAll(lines, hs, k + 1)
  }

  lemma {:induction false} AddedAtUnique(hs: seq<Hunk>, h: Hunk)
    requires h in hs
    requires forall x :: x in hs && Lo(x) == Lo(h) ==> x == h
    ensures AddedAt(hs, Lo(h)) == New(h)
  {
    if Lo(hs[0]) != Lo(h) {
      AddedAtUnique(hs[1..], h);
    }
  }

  lemma {:induction false} AddedAtNothing(hs: seq<Hunk>, k: nat)
    requires forall h :: h in hs ==> Lo(h) != k
    ensures AddedAt(hs, k) == []
  {
    if hs != [] {
      AddedAtNothing(hs[1..], k);
    }
  }

  // Once every hunk has started and only `top` can still be open, the rest of the file follows.
  lemma {:induction false} SpliceAllTail(lines: seq<Line>, hs: seq<Hunk>, k: nat, end: nat)
    requires k <= |lines| && end <= |lines|
    requires forall h :: h in hs ==> Lo(h) < k
    requires forall j: nat :: k <= j ==> (Covered(hs, j) <==> j < end)
    ensures SpliceAll(lines, hs, k) == lines[if k < end then end else k..]
    decreases |lines| - k
  {
    AddedAtNothing(hs, k);
    if k < |lines| {
      SpliceAllTail(lines, hs, k + 1, end);
    }
  }

  predicate Below(hs: seq<Hunk>, q: nat) {
    forall x :: x in hs ==> Hi(x) <= q && Lo(x) < q
  }

  function Replaced(lines: seq<Line>, h: Hunk): seq<Line>
    requires Hi(h) <= |lines|
  {
    lines[..Lo(h)] + New(h) + lines[Hi(h)..]
  }

  lemma SpliceAboveAll(lines: seq<Line>, rest: seq<Hunk>, q: nat)
    requires Below(rest, q) && q <= |lines|
    ensures SpliceAll(lines, rest, q) == lines[q..]
  {
    AddedAtNothing(rest, q);
    if q < |lines| {
      assert !Covered(rest, q);
      SpliceAllTail(lines, rest, q + 1, q);
    }
  }

  lemma CoveredFromTop(h: Hunk, rest: seq<Hunk>, j: nat)
    requires Below(rest, Lo(h)) && Lo(h) <= j
    ensures Covered([h] + rest, j) <==> j < Hi(h)
  {
  }

  lemma CoveredBelowTop(h: Hunk, rest: seq<Hunk>, j: nat)
    requires j < Lo(h)
    ensures Covered([h] + rest, j) <==> Covered(rest, j)
  {
  }

  lemma SpliceAtTop(lines: seq<Line>, h: Hunk, rest: seq<Hunk>)
    requires Below(rest, Lo(h)) && Hi(h) <= |lines|
    ensures SpliceAll(lines, [h] + rest, Lo(h)) == New(h) + lines[Hi(h)..]
  {
    var q, hs, end := Lo(h), [h] + rest, Hi(h);
    assert AddedAt(hs, q) == New(h);
    CoveredFromTop(h, rest, q);
    if q < |lines| {
      forall j: nat | q < j
        ensures Covered(hs, j) <==> j < end
      {
        CoveredFromTop(h, rest, j);
      }
      SpliceAllTail(lines, hs, q + 1, end);
      SpliceAllFrom(lines, hs, q, end);
    }
  }

  lemma SpliceAllFrom(lines: seq<Line>, hs: seq<Hunk>, q: nat, end: nat)
    requires q < |lines| && q <= end <= |lines| && (Covered(hs, q) <==> q < end)
    requires SpliceAll(lines, hs, q + 1) == lines[if q + 1 < end then end else q + 1..]
    ensures SpliceAll(lines, hs, q) == AddedAt(hs, q) + lines[end..]
  {
  }

  lemma ReplacedParts(lines: seq<Line>, h: Hunk)
    requires Hi(h) <= |lines|
    ensures |Replaced(lines, h)| >= Lo(h)
    ensures Replaced(lines, h)[..Lo(h)] == lines[..Lo(h)]
    ensures Replaced(lines, h)[Lo(h)..] == New(h) + lines[Hi(h)..]
  {
  }

  // Applying the highest hunk first leaves the splice of the others to be done.
  lemma {:induction false} SpliceAllPeel(lines: seq<Line>, h: Hunk, rest: seq<Hunk>, k: nat)
    requires Below(rest, Lo(h)) && Hi(h) <= |lines| && k <= Lo(h) <= |Replaced(lines, h)|
    ensures SpliceAll(Replaced(lines, h), rest, k) == SpliceAll(lines, [h] + rest, k)
    decreases Lo(h) - k
  {
    ReplacedParts(lines, h);
    var lines', top := Replaced(lines, h), Lo(h);
    if k == top {
      SpliceAboveAll(lines', rest, k);
      SpliceAtTop(lines, h, rest);
    } else {
      SpliceAllPeel(lines, h, rest, k + 1);
      CoveredBelowTop(h, rest, k);
      AddedBelowTop(h, rest, k);
      assert lines'[k] == lines'[..top][k] == lines[..top][k] == lines[k];
      SpliceAllStep(lines', rest, lines, [h] + rest, k);
    }
  }

  lemma AddedBelowTop(h: Hunk, rest: seq<Hunk>, k: nat)
    requires k < Lo(h)
    ensures AddedAt([h] + rest, k) == AddedAt(rest, k)
  {
  }

  lemma {:induction false} SpliceAllStep(a: seq<Line>, hs: seq<Hunk>, b: seq<Line>, ks: seq<Hunk>, k: nat)
    requires k < |a| && k < |b| && a[k] == b[k]
    requires AddedAt(hs, k) == AddedAt(ks, k) && (Covered(hs, k) <==> Covered(ks, k))
    requires SpliceAll(a, hs, k + 1) == SpliceAll(b, ks, k + 1)
    ensures SpliceAll(a, hs, k) == SpliceAll(b, ks, k)
  {
  }

  lemma SeparateTail(hs: seq<Hunk>)
    requires hs != [] && Separate(hs)
    ensures Separate(hs[1..])
    ensures hs[0] !in hs[1..]
  {
    assert hs == [hs[0]] + hs[1..];
    assert multiset(hs) == multiset{hs[0]} + multiset(hs[1..]);
    assert multiset(hs)[hs[0]] == 1;
    forall h | h in hs[1..]
      ensures multiset(hs[1..])[h] == 1
    {
      assert h in hs;
      assert multiset(hs)[h] == 1;
      assert h in multiset(hs[1..]);
    }
  }

  lemma HeadIsAbove(hs: seq<Hunk>)
    requires hs != [] && Separate(hs) && Descending(hs)
    ensures Below(hs[1..], Lo(hs[0]))
  {
    SeparateTail(hs);
    forall x | x in hs[1..]
      ensures Hi(x) <= Lo(hs[0]) && Lo(x) < Lo(hs[0])
    {
      assert x in hs && hs[0] in hs && Apart(x, hs[0]);
    }
  }

  lemma FitsBelow(lines: seq<Line>, h: Hunk, x: Hunk)
    requires Hi(h) <= |lines| && Hi(x) <= Lo(h)
    ensures HunkFits(Replaced(lines, h), x) <==> HunkFits(lines, x)
  {
  }

  lemma SpliceIsReplaced(lines: seq<Line>, h: Hunk)
    requires Lo(h) <= |lines|
    ensures Splice(lines, h.body, Lo(h)).Success? <==> HunkFits(lines, h)
    ensures HunkFits(lines, h) ==> Hi(h) <= |lines| && Splice(lines, h.body, Lo(h)) == Success(Replaced(lines, h))
  {
    WalkReplacesOldSide(lines, h.body, Lo(h));
    if HunkFits(lines, h) {
      assert lines[..Lo(h)] + (New(h) + lines[Hi(h)..]) == Replaced(lines, h);
    }
  }

  lemma {:induction false} DescendingIsSpliceAll(lines: seq<Line>, hs: seq<Hunk>)
    requires Separate(hs) && Descending(hs) && InRange(|lines|, hs)
    ensures ApplyInOrder(lines, hs).Success? <==> forall h :: h in hs ==> HunkFits(lines, h)
    ensures ApplyInOrder(lines, hs).Success? ==> ApplyInOrder(lines, hs).value == SpliceAll(lines, hs, 0)
    decreases |hs|, 0
  {
    if hs == [] {
      SpliceAllNothing(lines, 0);
    } else {
      var h, rest := hs[0], hs[1..];
      assert hs == [h] + rest;
      assert h in hs;
      if Lo(h) > |lines| {
        WalkReplacesOldSide(lines, h.body, Lo(h));
      } else {
        SpliceIsReplaced(lines, h);
        if HunkFits(lines, h) {
          DescendingIsSpliceAllStep(lines, hs, h, rest);
        }
      }
    }
  }

  lemma {:induction false} DescendingIsSpliceAllStep(lines: seq<Line>, hs: seq<Hunk>, h: Hunk, rest: seq<Hunk>)
    requires Separate(hs) && Descending(hs) && InRange(|lines|, hs) && hs == [h] + rest
    requires HunkFits(lines, h) && Hi(h) <= |lines|
    ensures ApplyInOrder(Replaced(lines, h), rest).Success? <==> forall x :: x in hs ==> HunkFits(lines, x)
    ensures ApplyInOrder(Replaced(lines, h), rest).Success? ==>
              ApplyInOrder(Replaced(lines, h), rest).value == SpliceAll(lines, hs, 0)
    decreases |rest|, 1
  {
    HeadIsAbove(hs);
    SeparateTail(hs);
    assert hs[1..] == rest && hs[0] == h;
    var lines' := Replaced(lines, h);
    forall x | x in rest
      ensures HunkFits(lines', x) <==> HunkFits(lines, x)
      ensures Old(x) == [] ==> Lo(x) <= |lines'|
    {
      FitsBelow(lines, h, x);
    }
    DescendingIsSpliceAll(lines', rest);
    ReplacedParts(lines, h);
    SpliceAllPeel(lines, h, rest, 0);
  }

  lemma {:induction false} SpliceAllNothing(lines: seq<Line>, k: nat)
    requires k <= |lines|
    ensures SpliceAll(lines, [], k) == lines[k..]
    decreases |lines| - k
  {
    if k < |lines| {
      SpliceAllNothing(lines, k + 1);
    }
  }

  lemma {:induction false} SpliceAllReordered(lines: seq<Line>, a: seq<Hunk>, b: seq<Hunk>, k: nat)
    requires Separate(a) && multiset(a) == multiset(b) && k <= |lines|
    ensures SpliceAll(lines, a, k) == SpliceAll(lines, b, k)
    decreases |lines| - k
  {
    SameElements(a, b);
    if h :| h in a && Lo(h) == k {
      AddedAtUnique(a, h);
      AddedAtUnique(b, h);
    } else {
      AddedAtNothing(a, k);
      AddedAtNothing(b, k);
    }
    assert Covered(a, k) <==> Covered(b, k);
    if k < |lines| {
      SpliceAllReordered(lines, a, b, k + 1);
    }
  }

  lemma SameElements(a: seq<Hunk>, b: seq<Hunk>)
    requires multiset(a) == multiset(b)
    ensures forall h :: h in a <==> h in b
  {
    forall h
      ensures h in a <==> h in b
    {
      assert h in a <==> h in multiset(a);
      assert h in b <==> h in multiset(b);
    }
  }

  // Main result on the hunk loop: hunks with separate old ranges are applied exactly when each of
  // them fits the ORIGINAL lines, and then they are spliced in simultaneously.
  lemma {:induction false} PatchIsSimultaneousSplice(lines: seq<Line>, hs: seq<Hunk>)
    requires Separate(hs) && InRange(|lines|, hs)
    ensures PatchLines(lines, hs).Success? <==> forall h :: h in hs ==> HunkFits(lines, h)
    ensures PatchLines(lines, hs).Success? ==> PatchLines(lines, hs).value == SpliceAll(lines, hs, 0)
  {
    var sorted := SortDescending(hs);
    SortIsDescending(hs);
    SameElements(hs, sorted);
    DescendingIsSpliceAll(lines, sorted);
    SpliceAllReordered(lines, hs, sorted, 0);
  }

  // Listing the hunks in another order changes nothing, errors included, as long as different hunks
  // have different start lines.
  lemma PatchOrderIrrelevant(lines: seq<Line>, a: seq<Hunk>, b: seq<Hunk>)
    requires multiset(a) == multiset(b) && StartsDiffer(a)
    ensures PatchLines(lines, a) == PatchLines(lines, b)
  {
    SortIgnoresOrder(a, b);
  }

  lemma ApplyOne(lines: seq<Line>, h: Hunk)
    ensures ApplyInOrder(lines, [h]) == Splice(lines, h.body, Lo(h))
  {
    assert [h][1..] == [];
  }

  lemma TwoInOrder(lines: seq<Line>, a: Hunk, b: Hunk)
    requires a.oldStart >= b.oldStart
    ensures SortDescending([a, b]) == [a, b]
    ensures Splice(lines, a.body, Lo(a)).Success? ==>
              ApplyInOrder(lines, [a, b]) == Splice(Splice(lines, a.body, Lo(a)).value, b.body, Lo(b))
  {
    assert [a, b][1..] == [b] && [b][1..] == [];
    assert SortDescending([b]) == [b];
    if Splice(lines, a.body, Lo(a)).Success? {
      ApplyOne(Splice(lines, a.body, Lo(a)).value, b);
    }
  }

  // What is left of an insertion x and the lines behind it once as many lines are taken off its front
  // as `side` has.
  function Leftover(x: seq<Line>, side: seq<Line>): seq<Line> {
    (x + side)[|side|..]
  }

  lemma OldBehindInsertion(p: seq<Line>, x: seq<Line>, side: seq<Line>, t: seq<Line>)
    ensures var after := p + (x + (side + t));
            && (Fits(after, side, |p|) <==> x + side == side + Leftover(x, side))
            && After(after, |p| + |side|) == Leftover(x, side) + t && Before(after, |p|) == p
  {
    var after, xo := p + (x + (side + t)), x + side;
    assert after == p + (xo + t);
    assert xo == xo[..|side|] + xo[|side|..];
    assert after[|p|..|p| + |side|] == xo[..|side|];
    assert after[|p| + |side|..] == xo[|side|..] + t;
    if xo == side + Leftover(x, side) { assert xo[..|side|] == side; }
  }

  // An insertion first, then the hunk that shares its start line.
  lemma InsertionThenOther(p: seq<Line>, t: seq<Line>, a: Hunk, b: Hunk)
    requires a.oldStart == b.oldStart && Lo(a) == |p| && Old(a) == []
    ensures var r, y := PatchLines(p + (Old(b) + t), [a, b]), Leftover(New(a), Old(b));
            && (r.Success? <==> New(a) + Old(b) == Old(b) + y)
            && (r.Success? ==> r.value == p + (New(b) + (y + t)))
  {
    var rest := Old(b) + t;
    SpliceMiddle(p, rest, a.body);
    assert [] + rest == rest;
    var once := p + (New(a) + rest);
    OldBehindInsertion(p, New(a), Old(b), t);
    SpliceReplacesOldSide(once, b.body, |p|);
    TwoInOrder(p + rest, a, b);
    LineAssoc(p, New(b), Leftover(New(a), Old(b)) + t);
  }

  // The other order is what a diff means: the insertion ends up before the new lines of the other.
  lemma OtherThenInsertion(p: seq<Line>, t: seq<Line>, a: Hunk, b: Hunk)
    requires a.oldStart == b.oldStart && Lo(a) == |p| && Old(a) == []
    ensures PatchLines(p + (Old(b) + t), [b, a]) == Success(p + (New(a) + (New(b) + t)))
  {
    SpliceMiddle(p, t, b.body);
    SpliceMiddle(p, New(b) + t, a.body);
    assert [] + (New(b) + t) == New(b) + t;
    TwoInOrder(p + (Old(b) + t), b, a);
  }

  lemma LineAssoc(a: seq<Line>, b: seq<Line>, c: seq<Line>)
    ensures (a + b) + c == a + (b + c)
  {
  }

  // An insertion that shares its start line with any hunk that stands there: the listing order does not
  // matter exactly if the inserted lines can be pushed through both sides of the other hunk, leaving
  // the same lines behind.  For two insertions that means that their texts commute.
  lemma SharedStartDependsOnOrder(p: seq<Line>, t: seq<Line>, a: Hunk, b: Hunk)
    requires a.oldStart == b.oldStart && Lo(a) == |p| && Old(a) == []
    ensures var lines, y := p + (Old(b) + t), Leftover(New(a), Old(b));
            && PatchLines(lines, [b, a]) == Success(p + (New(a) + (New(b) + t)))
            && (PatchLines(lines, [a, b]).Success? <==> New(a) + Old(b) == Old(b) + y)
            && (PatchLines(lines, [a, b]).Success? ==> PatchLines(lines, [a, b]).value == p + (New(b) + (y + t)))
            && (PatchLines(lines, [a, b]) == PatchLines(lines, [b, a])
                <==> New(a) + Old(b) == Old(b) + y && New(a) + New(b) == New(b) + y)
  {
    var y := Leftover(New(a), Old(b));
    InsertionThenOther(p, t, a, b);
    OtherThenInsertion(p, t, a, b);
    SameResult(p, New(a), New(b), y, t);
  }

  lemma SameResult(p: seq<Line>, x: seq<Line>, new': seq<Line>, y: seq<Line>, t: seq<Line>)
    requires |x| == |y|
    ensures p + (new' + (y + t)) == p + (x + (new' + t)) <==> x + new' == new' + y
  {
    SameMiddle(p, new' + y, x + new', t);
    assert p + (new' + y) + t == p + (new' + (y + t));
    assert p + (x + new') + t == p + (x + (new' + t));
  }

  lemma SameMiddle(a: seq<Line>, x: seq<Line>, y: seq<Line>, b: seq<Line>)
    requires |x| == |y|
    ensures a + x + b == a + y + b <==> x == y
  {
    if a + x + b == a + y + b {
      assert x == (a + x + b)[|a|..|a| + |x|];
      assert y == (a + y + b)[|a|..|a| + |y|];
    }
  }

  // ---------------------------------------------------------------------------------------------
  // The inverse patch
  // ---------------------------------------------------------------------------------------------

  function InvertBody(body: seq<HunkLine>): seq<HunkLine> {
    if body == [] then []
    else
      [match body[0]
       case Add(t) => Delete(t)
       case Delete(t) => Add(t)
       case Context(t) => Context(t)
       case Note(t) => Note(t)] + InvertBody(body[1..])
  }

  lemma {:induction false} InvertSwapsSides(body: seq<HunkLine>)
    ensures OldSide(InvertBody(body)) == NewSide(body)
    ensures NewSide(InvertBody(body)) == OldSide(body)
  {
    if body != [] {
      InvertSwapsSides(body[1..]);
      assert InvertBody(body)[1..] == InvertBody(body[1..]);
    }
  }

  // Listed highest first, each hunk ending before the previous one starts.
  predicate Stacked(hs: seq<Hunk>) {
    forall i :: 0 <= i < |hs| - 1 ==> Hi(hs[i + 1]) <= Lo(hs[i])
  }

  function Growth(hs: seq<Hunk>): int {
    if hs == [] then 0 else |New(hs[0])| - |Old(hs[0])| + Growth(hs[1..])
  }

  lemma {:induction false} GrowthBound(hs: seq<Hunk>)
    requires hs != [] && Stacked(hs)
    ensures Hi(hs[0]) + Growth(hs) >= 0
    ensures Stacked(hs[1..])
  {
    if |hs| > 1 {
      assert hs[1..][0] == hs[1];
      assert Hi(hs[0 + 1]) <= Lo(hs[0]);
      StackedTail(hs);
      GrowthBound(hs[1..]);
    }
  }

  lemma StackedTail(hs: seq<Hunk>)
    requires hs != [] && Stacked(hs)
    ensures Stacked(hs[1..])
    ensures |hs| > 1 ==> Hi(hs[1]) <= Lo(hs[0])
  {
  }

  // Additions and deletions swapped, each start moved by the net growth of the hunks below it.
  function Inverse(hs: seq<Hunk>): (r: seq<Hunk>)
    requires Stacked(hs)
    ensures |r| == |hs|
    ensures hs != [] ==> Lo(r[0]) == Lo(hs[0]) + Growth(hs[1..])
    ensures hs != [] ==> Hi(r[0]) == Hi(hs[0]) + Growth(hs)
    ensures Stacked(r)
  {
    if hs == [] then []
    else
      StackedTail(hs);
      InvertSwapsSides(hs[0].body);
      if |hs| == 1 then
        [Hunk(Lo(hs[0]) + 1, InvertBody(hs[0].body))]
      else
        GrowthBound(hs[1..]);
        var rest := Inverse(hs[1..]);
        [Hunk(Lo(hs[0]) + 1 + Growth(hs[1..]), InvertBody(hs[0].body))] + rest
  }

  lemma SpliceIsLocal(a: seq<Line>, t: seq<Line>, h: Hunk)
    requires Hi(h) <= |a|
    ensures HunkFits(a + t, h) <==> HunkFits(a, h)
    ensures Replaced(a + t, h) == Replaced(a, h) + t
    ensures |Replaced(a, h)| == |a| + |New(h)| - |Old(h)|
  {
  }

  // Hunks that end inside a prefix of the file act on that prefix alone.
  lemma {:induction false} StackedIsLocal(a: seq<Line>, t: seq<Line>, hs: seq<Hunk>)
    requires Stacked(hs) && (hs != [] ==> Hi(hs[0]) <= |a|)
    ensures ApplyInOrder(a + t, hs).Success? <==> ApplyInOrder(a, hs).Success?
    ensures ApplyInOrder(a, hs).Success? ==>
              && ApplyInOrder(a + t, hs).value == ApplyInOrder(a, hs).value + t
              && |ApplyInOrder(a, hs).value| == |a| + Growth(hs)
    decreases |hs|
  {
    if hs != [] {
      var h := hs[0];
      StackedTail(hs);
      SpliceIsReplaced(a, h);
      SpliceIsReplaced(a + t, h);
      SpliceIsLocal(a, t, h);
      if HunkFits(a, h) {
        StackedIsLocal(Replaced(a, h), t, hs[1..]);
      }
    }
  }

  lemma SpliceMiddle(p: seq<Line>, t: seq<Line>, body: seq<HunkLine>)
    ensures Splice(p + (OldSide(body) + t), body, |p|) == Success(p + (NewSide(body) + t))
  {
    var side := OldSide(body);
    var lines := p + (side + t);
    WalkReplacesOldSide(lines, body, |p|);
    assert lines[|p|..|p| + |side|] == side;
    assert lines[..|p|] == p && lines[|p| + |side|..] == t;
  }

  lemma {:induction false} InverseInOrderUndoes(lines: seq<Line>, hs: seq<Hunk>)
    requires Stacked(hs) && (hs != [] ==> Hi(hs[0]) <= |lines|)
    requires ApplyInOrder(lines, hs).Success?
    ensures ApplyInOrder(ApplyInOrder(lines, hs).value, Inverse(hs)) == Success(lines)
    decreases |hs|
  {
    if hs != [] {
      var h := hs[0];
      var low, tail := lines[..Lo(h)], lines[Hi(h)..];
      StackedTail(hs);
      var p := ApplyTop(lines, hs, low, tail);
      InverseInOrderUndoes(low, hs[1..]);
      InverseTop(p, tail, hs, low);
    }
  }

  lemma {:induction false} ApplyTop(lines: seq<Line>, hs: seq<Hunk>, low: seq<Line>, tail: seq<Line>) returns (p: seq<Line>)
    requires hs != [] && Stacked(hs) && Hi(hs[0]) <= |lines|
    requires low == lines[..Lo(hs[0])] && tail == lines[Hi(hs[0])..]
    requires ApplyInOrder(lines, hs).Success?
    ensures ApplyInOrder(low, hs[1..]) == Success(p) && |p| == |low| + Growth(hs[1..])
    ensures ApplyInOrder(lines, hs) == Success(p + (New(hs[0]) + tail))
    ensures lines == low + (Old(hs[0]) + tail)
    ensures hs[1..] != [] ==> Hi(hs[1..][0]) <= |low|
  {
    var h, rest := hs[0], hs[1..];
    StackedTail(hs);
    SpliceIsReplaced(lines, h);
    assert Replaced(lines, h) == low + (New(h) + tail);
    OldStands(lines, h);
    StackedIsLocal(low, New(h) + tail, rest);
    p := ApplyInOrder(low, rest).value;
  }

  lemma OldStands(lines: seq<Line>, h: Hunk)
    requires Hi(h) <= |lines| && HunkFits(lines, h)
    ensures lines == lines[..Lo(h)] + (Old(h) + lines[Hi(h)..])
  {
  }

  // The inverse of the highest hunk comes first and puts its old lines back above the rest.
  lemma InverseTop(p: seq<Line>, tail: seq<Line>, hs: seq<Hunk>, low: seq<Line>)
    requires hs != [] && Stacked(hs) && Stacked(hs[1..])
    requires |low| == Lo(hs[0]) && |p| == |low| + Growth(hs[1..])
    requires ApplyInOrder(p, Inverse(hs[1..])) == Success(low)
    ensures ApplyInOrder(p + (New(hs[0]) + tail), Inverse(hs)) == Success(low + (Old(hs[0]) + tail))
  {
    var h, rest, inv := hs[0], hs[1..], Inverse(hs);
    StackedTail(hs);
    InverseParts(hs);
    InvertSwapsSides(h.body);
    SpliceMiddle(p, tail, inv[0].body);
    ApplyStep(p + (New(h) + tail), inv, p + (Old(h) + tail));
    StackedIsLocal(p, Old(h) + tail, Inverse(rest));
  }

  lemma ApplyStep(a: seq<Line>, hs: seq<Hunk>, b: seq<Line>)
    requires hs != [] && Splice(a, hs[0].body, Lo(hs[0])) == Success(b)
    ensures ApplyInOrder(a, hs) == ApplyInOrder(b, hs[1..])
  {
  }

  lemma InverseParts(hs: seq<Hunk>)
    requires hs != [] && Stacked(hs) && Stacked(hs[1..])
    ensures Inverse(hs)[1..] == Inverse(hs[1..])
    ensures Inverse(hs)[0].body == InvertBody(hs[0].body)
    ensures hs[1..] != [] ==> Hi(Inverse(hs[1..])[0]) <= Lo(hs[0]) + Growth(hs[1..])
  {
  }

  lemma {:induction false} StackedIsOrdered(hs: seq<Hunk>, i: nat, j: nat)
    requires Stacked(hs) && i < j < |hs|
    ensures Lo(hs[j]) <= Lo(hs[i])
    decreases j - i
  {
    assert Hi(hs[i + 1]) <= Lo(hs[i]);
    if i + 1 < j { StackedIsOrdered(hs, i + 1, j); }
  }

  lemma {:induction false} InverseStartsPositive(hs: seq<Hunk>)
    requires Stacked(hs)
    ensures forall i :: 0 <= i < |hs| ==> Inverse(hs)[i].oldStart >= 1
  {
    if hs != [] {
      StackedTail(hs);
      InverseStartsPositive(hs[1..]);
      if |hs| > 1 { GrowthBound(hs[1..]); }
      forall i | 0 <= i < |hs|
        ensures Inverse(hs)[i].oldStart >= 1
      {
        if i > 0 { assert Inverse(hs)[i] == Inverse(hs[1..])[i - 1]; }
      }
    }
  }

  // Patch, then inverse patch (listed highest first): the original lines come back, for every
  // number of hunks and every hunk shape.
  lemma {:induction false} InversePatchRestores(lines: seq<Line>, hs: seq<Hunk>)
    requires Stacked(hs) && (hs != [] ==> Hi(hs[0]) <= |lines|)
    requires ApplyInOrder(lines, hs).Success?
    ensures PatchLines(ApplyInOrder(lines, hs).value, Inverse(hs)) == Success(lines)
  {
    InverseStaysSorted(hs);
    InverseInOrderUndoes(lines, hs);
  }

  lemma {:induction false} InverseStaysSorted(hs: seq<Hunk>)
    requires Stacked(hs)
    ensures SortDescending(Inverse(hs)) == Inverse(hs)
  {
    var inv := Inverse(hs);
    InverseStartsPositive(hs);
    forall i, j | 0 <= i < j < |inv|
      ensures inv[i].oldStart >= inv[j].oldStart
    {
      StackedIsOrdered(inv, i, j);
    }
    SortKeepsDescending(inv);
  }

  // Hunks placed past the end add nothing.
  predicate FarAddNothing(n: nat, hs: seq<Hunk>) {
    forall h :: h in hs && Lo(h) > n ==> New(h) == []
  }

  lemma SpliceGrows(lines: seq<Line>, h: Hunk)
    requires Splice(lines, h.body, Lo(h)).Success?
    ensures |Splice(lines, h.body, Lo(h)).value| == |lines| + |New(h)| - |Old(h)|
    ensures Lo(h) > |lines| ==> Old(h) == [] && Splice(lines, h.body, Lo(h)).value == lines + New(h)
    ensures Lo(h) <= |lines| ==> Hi(h) <= |lines|
  {
    SpliceReplacesOldSide(lines, h.body, Lo(h));
    if Lo(h) > |lines| { assert lines + New(h) + [] == lines + New(h); }
  }

  // Every accepted list of hunks changes the length by its growth.
  lemma {:induction false} AcceptedGrows(lines: seq<Line>, hs: seq<Hunk>)
    requires ApplyInOrder(lines, hs).Success?
    ensures |ApplyInOrder(lines, hs).value| == |lines| + Growth(hs)
    decreases |hs|
  {
    if hs != [] {
      SpliceGrows(lines, hs[0]);
      AcceptedGrows(Splice(lines, hs[0].body, Lo(hs[0])).value, hs[1..]);
    }
  }

  lemma FirstFails(lines: seq<Line>, hs: seq<Hunk>)
    requires hs != [] && Old(hs[0]) != [] && Hi(hs[0]) > |lines|
    ensures ApplyInOrder(lines, hs).Failure?
  {
    SpliceReplacesOldSide(lines, hs[0].body, Lo(hs[0]));
  }

  lemma FirstIsIdle(lines: seq<Line>, hs: seq<Hunk>)
    requires hs != [] && Old(hs[0]) == [] && New(hs[0]) == []
    ensures ApplyInOrder(lines, hs) == ApplyInOrder(lines, hs[1..])
  {
    SpliceReplacesOldSide(lines, hs[0].body, Lo(hs[0]));
    assert Before(lines, Lo(hs[0])) + [] + After(lines, Lo(hs[0])) == lines;
  }

  // A top hunk past the end that adds something: its inverse ends behind the end of the result.
  lemma {:induction false} FarTopFails(lines: seq<Line>, hs: seq<Hunk>)
    requires Stacked(hs) && hs != [] && ApplyInOrder(lines, hs).Success?
    requires Lo(hs[0]) > |lines| && New(hs[0]) != []
    ensures ApplyInOrder(ApplyInOrder(lines, hs).value, Inverse(hs)).Failure?
  {
    SpliceGrows(lines, hs[0]);
    AcceptedGrows(lines, hs);
    StackedTail(hs);
    InverseParts(hs);
    InvertSwapsSides(hs[0].body);
    FirstFails(ApplyInOrder(lines, hs).value, Inverse(hs));
  }

  // One that adds nothing does nothing, and neither does its inverse.
  lemma {:induction false} FarTopIdle(lines: seq<Line>, hs: seq<Hunk>)
    requires Stacked(hs) && hs != [] && ApplyInOrder(lines, hs).Success?
    requires Lo(hs[0]) > |lines| && New(hs[0]) == []
    ensures Stacked(hs[1..]) && ApplyInOrder(lines, hs) == ApplyInOrder(lines, hs[1..])
    ensures ApplyInOrder(ApplyInOrder(lines, hs).value, Inverse(hs))
            == ApplyInOrder(ApplyInOrder(lines, hs).value, Inverse(hs[1..]))
    ensures FarAddNothing(|lines|, hs) <==> FarAddNothing(|lines|, hs[1..])
  {
    SpliceGrows(lines, hs[0]);
    FirstIsIdle(lines, hs);
    StackedTail(hs);
    InverseParts(hs);
    InvertSwapsSides(hs[0].body);
    FirstIsIdle(ApplyInOrder(lines, hs).value, Inverse(hs));
    assert hs == [hs[0]] + hs[1..];
  }

  lemma NearTopNoneFar(n: nat, hs: seq<Hunk>)
    requires Stacked(hs) && hs != [] && Lo(hs[0]) <= n
    ensures FarAddNothing(n, hs)
  {
    forall h | h in hs
      ensures Lo(h) <= n
    {
      var i :| 0 <= i < |hs| && hs[i] == h;
      if i > 0 { StackedIsOrdered(hs, 0, i); }
    }
  }

  lemma {:induction false} InverseInOrderExactly(lines: seq<Line>, hs: seq<Hunk>)
    requires Stacked(hs) && ApplyInOrder(lines, hs).Success?
    ensures FarAddNothing(|lines|, hs) ==> ApplyInOrder(ApplyInOrder(lines, hs).value, Inverse(hs)) == Success(lines)
    ensures !FarAddNothing(|lines|, hs) ==> ApplyInOrder(ApplyInOrder(lines, hs).value, Inverse(hs)).Failure?
    decreases |hs|
  {
    if hs == [] || Lo(hs[0]) <= |lines| {
      if hs != [] {
        SpliceGrows(lines, hs[0]);
        NearTopNoneFar(|lines|, hs);
      }
      InverseInOrderUndoes(lines, hs);
    } else if New(hs[0]) != [] {
      assert hs[0] in hs;
      FarTopFails(lines, hs);
    } else {
      FarTopIdle(lines, hs);
      InverseInOrderExactly(lines, hs[1..]);
    }
  }

  // Main result on the inverse: after any accepted patch with separate hunks, listed in any order, the
  // inverse patch gives the original lines if no hunk past the end adds anything, and otherwise fails.
  lemma {:induction false} InverseUndoesPatch(lines: seq<Line>, hs: seq<Hunk>)
    requires Separate(hs) && PatchLines(lines, hs).Success?
    ensures Stacked(SortDescending(hs))
    ensures PatchLines(PatchLines(lines, hs).value, Inverse(SortDescending(hs))) == Success(lines)
            <==> FarAddNothing(|lines|, hs)
    ensures !FarAddNothing(|lines|, hs) ==> PatchLines(PatchLines(lines, hs).value, Inverse(SortDescending(hs))).Failure?
  {
    var sorted := SortDescending(hs);
    SortIsDescending(hs);
    SameElements(hs, sorted);
    SortedIsStacked(hs, sorted);
    InverseStaysSorted(sorted);
    InverseInOrderExactly(lines, sorted);
    assert FarAddNothing(|lines|, hs) <==> FarAddNothing(|lines|, sorted);
  }

  lemma SortedIsStacked(hs: seq<Hunk>, sorted: seq<Hunk>)
    requires Separate(hs) && multiset(sorted) == multiset(hs) && Descending(sorted)
    ensures Stacked(sorted)
  {
    SameElements(hs, sorted);
    forall i | 0 <= i < |sorted| - 1
      ensures Hi(sorted[i + 1]) <= Lo(sorted[i])
    {
      DistinctPlaces(sorted, i, i + 1);
      assert Apart(sorted[i], sorted[i + 1]);
    }
  }

  lemma DistinctPlaces(hs: seq<Hunk>, i: nat, j: nat)
    requires Separate(hs) && i < j < |hs|
    ensures hs[i] != hs[j]
  {
    var a, b := hs[..j], hs[j..];
    assert hs == a + b;
    assert a[i] == hs[i] && b[0] == hs[j];
    assert hs[i] in multiset(a) && hs[j] in multiset(b);
    assert multiset(hs) == multiset(a) + multiset(b);
    assert multiset(hs)[hs[j]] == 1;
  }

  // No hunk with an empty new side touches the hunk above it.
  predicate NoErasedTouch(hs: seq<Hunk>) {
    forall a, b :: a in hs && b in hs && a != b && New(b) == [] ==> Hi(b) != Lo(a)
  }

  // Neighbours in the inverse share their start line exactly when the lower of the two erases its
  // lines and touches the other.
  lemma {:induction false} InverseStartsCoincide(hs: seq<Hunk>, i: nat)
    requires Stacked(hs) && i < |hs| - 1
    ensures Inverse(hs)[i].oldStart == Inverse(hs)[i + 1].oldStart <==> New(hs[i + 1]) == [] && Hi(hs[i + 1]) == Lo(hs[i])
  {
    StackedTail(hs);
    var tail := Inverse(hs[1..]);
    assert Inverse(hs)[1..] == tail;
    if i > 0 {
      InverseStartsCoincide(hs[1..], i - 1);
    } else {
      InverseStartsPositive(hs);
      assert hs[1..][0] == hs[1] && tail[0] == Inverse(hs)[1];
      assert Growth(hs[1..]) == |New(hs[1])| - |Old(hs[1])| + Growth(hs[1..][1..]);
    }
  }

  predicate ErasedTouchAt(hs: seq<Hunk>, i: nat)
    requires i < |hs| - 1
  {
    New(hs[i + 1]) == [] && Hi(hs[i + 1]) == Lo(hs[i])
  }

  predicate SharesStart(inv: seq<Hunk>, i: nat)
    requires i < |inv| - 1
  {
    inv[i].oldStart == inv[i + 1].oldStart
  }

  lemma StackedStartsDiffer(inv: seq<Hunk>, i: nat, j: nat)
    requires Stacked(inv) && forall k :: 0 <= k < |inv| ==> inv[k].oldStart >= 1
    requires forall k: nat :: k < |inv| - 1 ==> !SharesStart(inv, k)
    requires i < j < |inv|
    ensures inv[i].oldStart != inv[j].oldStart
  {
    StackedIsOrdered(inv, i, i + 1);
    assert !SharesStart(inv, i);
    if i + 1 < j { StackedIsOrdered(inv, i + 1, j); }
  }

  predicate PairwiseStarts(hs: seq<Hunk>) {
    forall i: nat, j: nat :: i < j < |hs| ==> hs[i].oldStart != hs[j].oldStart
  }

  lemma NeighboursDecide(inv: seq<Hunk>)
    requires Stacked(inv) && forall k :: 0 <= k < |inv| ==> inv[k].oldStart >= 1
    ensures PairwiseStarts(inv) <==> forall k: nat :: k < |inv| - 1 ==> !SharesStart(inv, k)
  {
    if forall k: nat :: k < |inv| - 1 ==> !SharesStart(inv, k) {
      forall i: nat, j: nat | i < j < |inv|
        ensures inv[i].oldStart != inv[j].oldStart
      {
        StackedStartsDiffer(inv, i, j);
      }
    }
  }

  lemma DifferAlike(hs: seq<Hunk>, inv: seq<Hunk>)
    requires |inv| == |hs| && Stacked(inv) && forall k :: 0 <= k < |inv| ==> inv[k].oldStart >= 1
    requires forall i: nat :: i < |hs| - 1 ==> (SharesStart(inv, i) <==> ErasedTouchAt(hs, i))
    ensures PairwiseStarts(inv) <==> forall i: nat :: i < |hs| - 1 ==> !ErasedTouchAt(hs, i)
  {
    NeighboursDecide(inv);
  }

  // So all inverse starts differ exactly when no erasing hunk touches the next one above it.
  lemma {:induction false} InverseStartsDiffer(hs: seq<Hunk>)
    requires Stacked(hs)
    ensures PairwiseStarts(Inverse(hs)) <==> forall i: nat :: i < |hs| - 1 ==> !ErasedTouchAt(hs, i)
  {
    InverseStartsPositive(hs);
    forall i: nat | i < |hs| - 1
      ensures SharesStart(Inverse(hs), i) <==> ErasedTouchAt(hs, i)
    {
      InverseStartsCoincide(hs, i);
    }
    DifferAlike(hs, Inverse(hs));
  }

  // With different starts every listing of the inverse patch does what the one highest first does, ...
  lemma {:induction false} InverseInAnyOrder(lines: seq<Line>, hs: seq<Hunk>, listed: seq<Hunk>)
    requires Separate(hs) && PatchLines(lines, hs).Success?
    requires Stacked(SortDescending(hs)) && multiset(listed) == multiset(Inverse(SortDescending(hs)))
    requires StartsDiffer(Inverse(SortDescending(hs)))
    ensures PatchLines(PatchLines(lines, hs).value, listed) == Success(lines) <==> FarAddNothing(|lines|, hs)
  {
    InverseUndoesPatch(lines, hs);
    PatchOrderIrrelevant(PatchLines(lines, hs).value, Inverse(SortDescending(hs)), listed);
  }

  lemma NoErasedTouchSorted(hs: seq<Hunk>, sorted: seq<Hunk>)
    requires Separate(hs) && NoErasedTouch(hs) && multiset(sorted) == multiset(hs)
    ensures forall i: nat :: i < |sorted| - 1 ==> !ErasedTouchAt(sorted, i)
  {
    SameElements(hs, sorted);
    SeparateReordered(hs, sorted);
    forall i: nat | i < |sorted| - 1
      ensures !ErasedTouchAt(sorted, i)
    {
      DistinctPlaces(sorted, i, i + 1);
      assert sorted[i] in sorted && sorted[i + 1] in sorted;
    }
  }

  // ... which can be told from the patch itself.
  lemma AnyInverseListingRestores(lines: seq<Line>, hs: seq<Hunk>, listed: seq<Hunk>)
    requires Separate(hs) && PatchLines(lines, hs).Success? && NoErasedTouch(hs)
    ensures Stacked(SortDescending(hs))
    ensures multiset(listed) == multiset(Inverse(SortDescending(hs))) ==>
              (PatchLines(PatchLines(lines, hs).value, listed) == Success(lines) <==> FarAddNothing(|lines|, hs))
  {
    var sorted := SortDescending(hs);
    InverseUndoesPatch(lines, hs);
    if multiset(listed) == multiset(Inverse(sorted)) {
      SortIsDescending(hs);
      NoErasedTouchSorted(hs, sorted);
      InverseStartsDiffer(sorted);
      IndexedStartsDiffer(Inverse(sorted));
      InverseInAnyOrder(lines, hs, listed);
    }
  }

  lemma IndexedStartsDiffer(hs: seq<Hunk>)
    requires PairwiseStarts(hs)
    ensures StartsDiffer(hs)
  {
  }

  lemma SeparateReordered(a: seq<Hunk>, b: seq<Hunk>)
    requires Separate(a) && multiset(a) == multiset(b)
    ensures Separate(b)
  {
    SameElements(a, b);
  }

  // Where an erasing hunk does touch the one above it, listing the inverse lowest first restores the
  // lines exactly if the erased lines can be pushed through both sides of that other hunk; for two
  // touching deletions, if the deleted texts commute.
  lemma AscendingInverseOfErasure(p: seq<Line>, t: seq<Line>, low: Hunk, top: Hunk)
    requires low.oldStart == |p| + 1 && top.oldStart == |p| + |Old(low)| + 1
    requires Old(low) != [] && New(low) == []
    ensures var x, u, v := Old(low), Old(top), New(top);
            var lines, after, y := p + (x + (u + t)), p + (v + t), Leftover(x, v);
            && PatchLines(lines, [low, top]) == Success(after)
            && Stacked([top, low]) && |Inverse([top, low])| == 2
            && var inv := Inverse([top, low]);
               && PatchLines(after, inv) == Success(lines)
               && (PatchLines(after, [inv[1], inv[0]]).Success? <==> x + v == v + y)
               && (PatchLines(after, [inv[1], inv[0]]).Success? ==>
                     PatchLines(after, [inv[1], inv[0]]).value == p + (u + (y + t)))
               && (PatchLines(after, [inv[1], inv[0]]) == Success(lines) <==> x + v == v + y && x + u == u + y)
  {
    ErasePatch(p, t, low, top);
    var inv := InverseOfTwo(low, top);
    assert inv == [inv[0], inv[1]];
    SharedStartDependsOnOrder(p, t, inv[1], inv[0]);
  }

  lemma ErasePatch(p: seq<Line>, t: seq<Line>, low: Hunk, top: Hunk)
    requires low.oldStart == |p| + 1 && top.oldStart == |p| + |Old(low)| + 1
    requires Old(low) != [] && New(low) == []
    ensures PatchLines(p + (Old(low) + (Old(top) + t)), [low, top]) == Success(p + (New(top) + t))
  {
    var x, u, v := Old(low), Old(top), New(top);
    SpliceMiddle(p + x, t, top.body);
    LineAssoc(p, x, u + t);
    LineAssoc(p, x, v + t);
    SpliceMiddle(p, v + t, low.body);
    assert [] + (v + t) == v + t;
    TwoInOrder(p + (x + (u + t)), top, low);
    SortTwo(low, top);
  }

  lemma SortTwo(a: Hunk, b: Hunk)
    requires a.oldStart < b.oldStart
    ensures SortDescending([a, b]) == [b, a]
  {
    assert [a, b][1..] == [b];
    SortKeepsDescending([b]);
    InsertCons(a, b, []);
    assert InsertDescending(a, []) == [a] && [b] + [] == [b] && [b] + [a] == [b, a];
  }

  lemma InverseOfTwo(low: Hunk, top: Hunk) returns (inv: seq<Hunk>)
    requires low.oldStart >= 1 && top.oldStart == low.oldStart + |Old(low)| && New(low) == []
    ensures Stacked([top, low]) && inv == Inverse([top, low]) && |inv| == 2
    ensures inv[0].oldStart == low.oldStart == inv[1].oldStart
    ensures Old(inv[0]) == New(top) && New(inv[0]) == Old(top) && Old(inv[1]) == [] && New(inv[1]) == Old(low)
  {
    assert [top, low][1..] == [low] && [low][1..] == [];
    inv := Inverse([top, low]);
    InverseParts([top, low]);
    InvertSwapsSides(low.body);
    InvertSwapsSides(top.body);
    InverseStartsPositive([top, low]);
    assert Growth([low]) == -|Old(low)|;
    assert inv[1..] == Inverse([low]) && inv[1] == Inverse([low])[0];
  }
}
