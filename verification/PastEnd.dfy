// Patches with hunks placed past the end of the file (core/apply_patch_unified.py).
//
// The hunk loop works from the highest start line down and clamps places past the end, so the far
// hunks come first and build up a text behind the file, each within what the higher ones have put
// there.  The near hunks then meet the file with that text already appended.
module PastEnd {
  import opened Hunks
  import opened Wrappers

  function FarFrom(n: nat): Hunk -> bool {
    (h: Hunk) => Lo(h) > n
  }

  function NearTo(n: nat): Hunk -> bool {
    (h: Hunk) => Lo(h) <= n
  }

  function Far(n: nat, hs: seq<Hunk>): seq<Hunk> { Keep(FarFrom(n), hs) }

  function Near(n: nat, hs: seq<Hunk>): seq<Hunk> { Keep(NearTo(n), hs) }

  // The hunks as they look to a file that begins n lines later.
  function Lowered(n: nat, hs: seq<Hunk>): seq<Hunk> {
    if hs == [] then [] else [LoweredOne(n, hs[0])] + Lowered(n, hs[1..])
  }

  function LoweredOne(n: nat, h: Hunk): Hunk {
    if h.oldStart > n then h.(oldStart := h.oldStart - n) else h
  }

  // What the far hunks alone make of an empty file.
  function FarPatch(n: nat, hs: seq<Hunk>): Result<seq<Line>, Mismatch> {
    PatchLines([], Lowered(n, Far(n, hs)))
  }

  function TextOf(r: Result<seq<Line>, Mismatch>): seq<Line> {
    if r.Success? then r.value else []
  }

  // ---------------------------------------------------------------------------------------------
  // Far hunks first
  // ---------------------------------------------------------------------------------------------

  lemma {:induction false} ApplyConcat(lines: seq<Line>, a: seq<Hunk>, b: seq<Hunk>)
    ensures ApplyInOrder(lines, a + b)
            == match ApplyInOrder(lines, a)
               case Success(v) => ApplyInOrder(v, b)
               case Failure(e) => Failure(e)
    decreases |a|
  {
    if a == [] {
      assert a + b == b;
    } else {
      assert (a + b)[0] == a[0] && (a + b)[1..] == a[1..] + b;
      var one := Splice(lines, a[0].body, Lo(a[0]));
      if one.Success? { ApplyConcat(one.value, a[1..], b); }
    }
  }

  lemma ConsConcat(h: Hunk, a: seq<Hunk>, b: seq<Hunk>)
    ensures [h] + (a + b) == ([h] + a) + b
  {
  }

  lemma {:induction false} NoneKept(p: Hunk -> bool, hs: seq<Hunk>)
    requires forall h :: h in hs ==> !p(h)
    ensures Keep(p, hs) == []
  {
    if hs != [] {
      assert hs[0] in hs;
      NoneKept(p, hs[1..]);
    }
  }

  lemma {:induction false} FarThenNear(n: nat, hs: seq<Hunk>)
    requires Descending(hs)
    ensures hs == Far(n, hs) + Near(n, hs)
  {
    if hs != [] {
      var h, rest := hs[0], hs[1..];
      DescendingTail(hs);
      FarThenNear(n, rest);
      KeepCons(FarFrom(n), h, rest);
      KeepCons(NearTo(n), h, rest);
      if Lo(h) > n {
        ConsConcat(h, Far(n, rest), Near(n, rest));
      } else {
        NoneKept(FarFrom(n), rest);
        assert [] + Near(n, rest) == Near(n, rest) && [] + ([h] + rest) == [h] + rest;
      }
    }
  }

  lemma FitsBehind(lines: seq<Line>, t: seq<Line>, side: seq<Line>, q: nat)
    ensures Fits(lines + t, side, |lines| + q) <==> Fits(t, side, q)
  {
    if side != [] && q + |side| <= |t| {
      assert (lines + t)[|lines| + q..|lines| + q + |side|] == t[q..q + |side|];
    }
  }

  lemma PartsBehind(lines: seq<Line>, t: seq<Line>, q: nat, end: nat, new': seq<Line>)
    ensures Before(lines + t, |lines| + q) + new' + After(lines + t, |lines| + end)
            == lines + (Before(t, q) + new' + After(t, end))
  {
    EndsBehind(lines, t, q);
    EndsBehind(lines, t, end);
    LineAssoc(lines, Before(t, q), new');
    LineAssoc(lines, Before(t, q) + new', After(t, end));
  }

  lemma EndsBehind(lines: seq<Line>, t: seq<Line>, q: nat)
    ensures Before(lines + t, |lines| + q) == lines + Before(t, q)
    ensures After(lines + t, |lines| + q) == After(t, q)
  {
  }

  lemma SpliceBehind(lines: seq<Line>, t: seq<Line>, body: seq<HunkLine>, q: nat)
    ensures Splice(lines + t, body, |lines| + q).Success? <==> Splice(t, body, q).Success?
    ensures Splice(t, body, q).Success? ==> Splice(lines + t, body, |lines| + q).value == lines + Splice(t, body, q).value
  {
    SpliceReplacesOldSide(t, body, q);
    SpliceReplacesOldSide(lines + t, body, |lines| + q);
    FitsBehind(lines, t, OldSide(body), q);
    if Splice(t, body, q).Success? {
      var end := q + |OldSide(body)|;
      assert |lines| + q + |OldSide(body)| == |lines| + end;
      PartsBehind(lines, t, q, end, NewSide(body));
    }
  }

  lemma {:induction false} LoweredApplies(lines: seq<Line>, t: seq<Line>, far: seq<Hunk>)
    requires forall h :: h in far ==> Lo(h) > |lines|
    ensures ApplyInOrder(lines + t, far).Success? <==> ApplyInOrder(t, Lowered(|lines|, far)).Success?
    ensures ApplyInOrder(t, Lowered(|lines|, far)).Success? ==>
              ApplyInOrder(lines + t, far).value == lines + ApplyInOrder(t, Lowered(|lines|, far)).value
    decreases |far|
  {
    if far != [] {
      var h, low := far[0], Lowered(|lines|, far);
      assert h in far && Lo(low[0]) + |lines| == Lo(h);
      assert low[1..] == Lowered(|lines|, far[1..]);
      SpliceBehind(lines, t, h.body, Lo(low[0]));
      if Splice(t, h.body, Lo(low[0])).Success? {
        LoweredApplies(lines, Splice(t, h.body, Lo(low[0])).value, far[1..]);
      }
    }
  }

  lemma {:induction false} InsertLowered(n: nat, h: Hunk, hs: seq<Hunk>)
    requires h.oldStart > n && forall x :: x in hs ==> x.oldStart > n
    ensures InsertDescending(LoweredOne(n, h), Lowered(n, hs)) == Lowered(n, InsertDescending(h, hs))
  {
    if hs == [] {
      assert [h][1..] == [];
    } else {
      var x, rest := hs[0], hs[1..];
      assert x in hs;
      InsertCons(LoweredOne(n, h), LoweredOne(n, x), Lowered(n, rest));
      if x.oldStart <= h.oldStart {
        assert ([h] + hs)[1..] == hs;
      } else {
        InsertLowered(n, h, rest);
        assert ([x] + InsertDescending(h, rest))[1..] == InsertDescending(h, rest);
      }
    }
  }

  lemma {:induction false} SortLowered(n: nat, hs: seq<Hunk>)
    requires forall x :: x in hs ==> x.oldStart > n
    ensures SortDescending(Lowered(n, hs)) == Lowered(n, SortDescending(hs))
  {
    if hs != [] {
      assert hs[0] in hs;
      SortLowered(n, hs[1..]);
      SortCons(LoweredOne(n, hs[0]), Lowered(n, hs[1..]));
      SortIsDescending(hs[1..]);
      SameElements(SortDescending(hs[1..]), hs[1..]);
      InsertLowered(n, hs[0], SortDescending(hs[1..]));
    }
  }

  lemma FarPatchSorted(n: nat, hs: seq<Hunk>)
    ensures FarPatch(n, hs) == ApplyInOrder([], Lowered(n, Far(n, SortDescending(hs))))
  {
    KeptExactly(FarFrom(n), hs);
    SortLowered(n, Far(n, hs));
    SortThenKeep(FarFrom(n), hs);
  }

  // For every file and every patch: the far hunks first make their text of an empty file, and then
  // the near ones patch the file with that text appended.
  lemma FarHunksComeFirst(lines: seq<Line>, hs: seq<Hunk>)
    ensures var far := FarPatch(|lines|, hs);
            var near := PatchLines(lines + TextOf(far), Near(|lines|, hs));
            && (PatchLines(lines, hs).Success? <==> far.Success? && near.Success?)
            && (PatchLines(lines, hs).Success? ==> PatchLines(lines, hs) == near)
  {
    var n, sorted := |lines|, SortDescending(hs);
    SortIsDescending(hs);
    FarThenNear(n, sorted);
    ApplyConcat(lines, Far(n, sorted), Near(n, sorted));
    KeptExactly(FarFrom(n), sorted);
    LoweredApplies(lines, [], Far(n, sorted));
    assert lines + [] == lines;
    FarPatchSorted(n, hs);
    SortThenKeep(NearTo(n), hs);
  }

  // ---------------------------------------------------------------------------------------------
  // Separate hunks
  // ---------------------------------------------------------------------------------------------

  lemma {:induction false} KeepCounts(p: Hunk -> bool, hs: seq<Hunk>, h: Hunk)
    ensures multiset(Keep(p, hs))[h] == if p(h) then multiset(hs)[h] else 0
  {
    if hs != [] {
      KeepCounts(p, hs[1..], h);
      assert hs == [hs[0]] + hs[1..];
    }
  }

  lemma KeepSeparate(p: Hunk -> bool, hs: seq<Hunk>)
    requires Separate(hs)
    ensures Separate(Keep(p, hs))
  {
    KeptExactly(p, hs);
    forall h | h in Keep(p, hs)
      ensures multiset(Keep(p, hs))[h] == 1
    {
      KeepCounts(p, hs, h);
    }
  }

  // Main result: separate hunks anywhere are accepted exactly when the far ones alone can be applied
  // to an empty file and every near one fits the file with the text of the far ones behind it; then
  // the near ones are spliced into that, simultaneously.
  lemma FarPatchIsSplice(lines: seq<Line>, hs: seq<Hunk>)
    requires Separate(hs)
    ensures var far := FarPatch(|lines|, hs);
            var whole, near := lines + TextOf(far), Near(|lines|, hs);
            && (PatchLines(lines, hs).Success? <==> far.Success? && forall h :: h in near ==> HunkFits(whole, h))
            && (PatchLines(lines, hs).Success? ==> PatchLines(lines, hs).value == SpliceAll(whole, near, 0))
  {
    var whole, near := lines + TextOf(FarPatch(|lines|, hs)), Near(|lines|, hs);
    FarHunksComeFirst(lines, hs);
    KeptExactly(NearTo(|lines|), hs);
    KeepSeparate(NearTo(|lines|), hs);
    PatchIsSimultaneousSplice(whole, near);
  }

  // The hunk asks for no line past the end.
  predicate Inside(n: nat, h: Hunk) {
    Old(h) == [] || Hi(h) <= n
  }

  lemma FitsWhole(lines: seq<Line>, t: seq<Line>, h: Hunk)
    requires Inside(|lines|, h)
    ensures HunkFits(lines + t, h) <==> HunkFits(lines, h)
  {
    if Old(h) != [] { assert (lines + t)[Lo(h)..Hi(h)] == lines[Lo(h)..Hi(h)]; }
  }

  lemma {:induction false} InsertionsApply(t: seq<Line>, hs: seq<Hunk>)
    requires forall h :: h in hs ==> Old(h) == []
    ensures ApplyInOrder(t, hs).Success?
    decreases |hs|
  {
    if hs != [] {
      assert hs[0] in hs;
      SpliceReplacesOldSide(t, hs[0].body, Lo(hs[0]));
      InsertionsApply(Splice(t, hs[0].body, Lo(hs[0])).value, hs[1..]);
    }
  }

  lemma {:induction false} LoweredElements(n: nat, hs: seq<Hunk>)
    ensures |Lowered(n, hs)| == |hs| && forall i :: 0 <= i < |hs| ==> Lowered(n, hs)[i] == LoweredOne(n, hs[i])
  {
    if hs != [] { LoweredElements(n, hs[1..]); }
  }

  lemma FarInsertionsApply(n: nat, hs: seq<Hunk>)
    requires forall h :: h in hs && Lo(h) > n ==> Old(h) == []
    ensures FarPatch(n, hs).Success?
  {
    var far, low := Far(n, hs), Lowered(n, Far(n, hs));
    KeptExactly(FarFrom(n), hs);
    LoweredElements(n, far);
    SortIsDescending(low);
    SameElements(low, SortDescending(low));
    forall h | h in low
      ensures Old(h) == []
    {
      var i :| 0 <= i < |low| && low[i] == h;
      assert far[i] in far;
    }
    InsertionsApply([], SortDescending(low));
  }

  lemma InsideFarIsInsertion(n: nat, hs: seq<Hunk>)
    requires forall h :: h in hs ==> Inside(n, h)
    ensures forall h :: h in hs && Lo(h) > n ==> Old(h) == []
  {
  }

  // As long as no hunk asks for lines past the end, "every hunk fits the original" decides, and the
  // far text follows the simultaneous splice of the near hunks.
  lemma {:induction false} InsidePatchIsSplice(lines: seq<Line>, hs: seq<Hunk>)
    requires Separate(hs) && forall h :: h in hs ==> Inside(|lines|, h)
    ensures PatchLines(lines, hs).Success? <==> forall h :: h in hs ==> HunkFits(lines, h)
    ensures PatchLines(lines, hs).Success? ==>
              PatchLines(lines, hs).value == SpliceAll(lines, Near(|lines|, hs), 0) + TextOf(FarPatch(|lines|, hs))
  {
    var n, near, t := |lines|, Near(|lines|, hs), TextOf(FarPatch(|lines|, hs));
    InsideFarIsInsertion(n, hs);
    FarInsertionsApply(n, hs);
    FarPatchIsSplice(lines, hs);
    KeptExactly(NearTo(n), hs);
    forall h | h in hs
      ensures HunkFits(lines + t, h) <==> HunkFits(lines, h)
    {
      FitsWhole(lines, t, h);
    }
    forall h | h in near
      ensures Hi(h) <= n
    {
    }
    SpliceAllAppended(lines, t, near, 0);
  }

  lemma {:induction false} SpliceAllAppended(lines: seq<Line>, t: seq<Line>, near: seq<Hunk>, k: nat)
    requires k <= |lines| && forall h :: h in near ==> Hi(h) <= |lines|
    ensures SpliceAll(lines + t, near, k) == SpliceAll(lines, near, k) + t
    decreases |lines| - k
  {
    if k < |lines| {
      SpliceAllAppended(lines, t, near, k + 1);
      SpliceAllAt(lines, near, k);
      SpliceAllAt(lines + t, near, k);
      assert (lines + t)[k] == lines[k];
      LineAssoc(Here(lines, near, k), SpliceAll(lines, near, k + 1), t);
    } else {
      EndAppended(lines, t, near);
    }
  }

  function Here(lines: seq<Line>, hs: seq<Hunk>, k: nat): seq<Line>
    requires k < |lines|
  {
    AddedAt(hs, k) + if Covered(hs, k) then [] else [lines[k]]
  }

  lemma SpliceAllAt(lines: seq<Line>, hs: seq<Hunk>, k: nat)
    requires k < |lines|
    ensures SpliceAll(lines, hs, k) == Here(lines, hs, k) + SpliceAll(lines, hs, k + 1)
  {
    LineAssoc(AddedAt(hs, k), if Covered(hs, k) then [] else [lines[k]], SpliceAll(lines, hs, k + 1));
  }

  lemma EndAppended(lines: seq<Line>, t: seq<Line>, near: seq<Hunk>)
    requires forall h :: h in near ==> Hi(h) <= |lines|
    ensures SpliceAll(lines + t, near, |lines|) == SpliceAll(lines, near, |lines|) + t
  {
    var n, whole := |lines|, lines + t;
    assert SpliceAll(lines, near, n) == AddedAt(near, n);
    assert whole[n..] == t;
    if t != [] {
      assert !Covered(near, n);
      SpliceAllTail(whole, near, n + 1, n);
      assert [whole[n]] + whole[n + 1..] == t;
    }
  }

  // Of the accepted patches exactly those with a hunk that asks for lines past the end have a hunk
  // that does not fit the original: it is matched against text another hunk of the patch has added.
  lemma AcceptedThoughUnfit(lines: seq<Line>, hs: seq<Hunk>)
    requires Separate(hs) && PatchLines(lines, hs).Success?
    ensures (exists h :: h in hs && !HunkFits(lines, h)) <==> exists h :: h in hs && !Inside(|lines|, h)
  {
    if forall h :: h in hs ==> Inside(|lines|, h) {
      InsidePatchIsSplice(lines, hs);
    }
    if h :| h in hs && !Inside(|lines|, h) {
      assert !HunkFits(lines, h);
    }
  }

  // Such patches exist: the second line asked for by the first hunk comes from the far one.
  lemma BorrowedLine(s: Line, t: Line)
    ensures var hs := [Hunk(1, [Context(s), Context(t)]), Hunk(3, [Add(t)])];
            Separate(hs) && PatchLines([s], hs) == Success([s, t]) && !HunkFits([s], hs[0])
  {
    var a, b := Hunk(1, [Context(s), Context(t)]), Hunk(3, [Add(t)]);
    ContextSides(s, t);
    SpliceReplacesOldSide([s], b.body, 2);
    assert [s] + [t] + [] == [s, t];
    SpliceReplacesOldSide([s, t], a.body, 0);
    assert [s, t][0..2] == [s, t] && [] + [s, t] + [] == [s, t];
    TwoInOrder([s], b, a);
    SortTwo(a, b);
    assert multiset([a, b])[a] == 1 && multiset([a, b])[b] == 1;
  }

  lemma ContextSides(s: Line, t: Line)
    ensures OldSide([Context(s), Context(t)]) == [s, t] && NewSide([Context(s), Context(t)]) == [s, t]
    ensures OldSide([Add(t)]) == [] && NewSide([Add(t)]) == [t]
  {
    var one := [Context(t)];
    assert one[1..] == [] && [Add(t)][1..] == [];
    assert OldSide(one) == [t] && NewSide(one) == [t];
    assert [Context(s), Context(t)][1..] == one;
    assert [s] + [t] == [s, t];
  }

  // ---------------------------------------------------------------------------------------------
  // The order of the far text
  // ---------------------------------------------------------------------------------------------

  function Adding(n: nat): Hunk -> bool {
    (h: Hunk) => Lo(h) > n && New(h) != []
  }

  function Adds(): Hunk -> bool {
    (h: Hunk) => New(h) != []
  }

  predicate Insertions(hs: seq<Hunk>) {
    forall h :: h in hs ==> Old(h) == []
  }

  lemma InsertionSplice(t: seq<Line>, h: Hunk)
    requires Old(h) == []
    ensures Splice(t, h.body, Lo(h)).Success?
    ensures New(h) == [] ==> Splice(t, h.body, Lo(h)).value == t
  {
    SpliceReplacesOldSide(t, h.body, Lo(h));
    if New(h) == [] { assert Before(t, Lo(h)) + [] + After(t, Lo(h)) == t; }
  }

  lemma ApplyCons(t: seq<Line>, h: Hunk, rest: seq<Hunk>)
    requires Splice(t, h.body, Lo(h)).Success?
    ensures ApplyInOrder(t, [h] + rest) == ApplyInOrder(Splice(t, h.body, Lo(h)).value, rest)
  {
    assert ([h] + rest)[1..] == rest;
  }

  // Insertions of nothing can be left out.
  lemma {:induction false} IdleLeftOut(t: seq<Line>, hs: seq<Hunk>)
    requires Insertions(hs)
    ensures ApplyInOrder(t, hs) == ApplyInOrder(t, Keep(Adds(), hs))
    decreases |hs|
  {
    if hs != [] {
      var h, rest := hs[0], hs[1..];
      assert h in hs && hs == [h] + rest;
      KeepCons(Adds(), h, rest);
      InsertionSplice(t, h);
      ApplyCons(t, h, rest);
      IdleLeftOut(Splice(t, h.body, Lo(h)).value, rest);
      if New(h) != [] { ApplyCons(t, h, Keep(Adds(), rest)); }
    }
  }

  // The first line stays first.
  lemma {:induction false} FirstLineStays(t: seq<Line>, hs: seq<Hunk>)
    requires Insertions(hs) && t != [] && forall h :: h in hs ==> Lo(h) > 0
    ensures ApplyInOrder(t, hs).Success? && ApplyInOrder(t, hs).value != [] && ApplyInOrder(t, hs).value[0] == t[0]
    decreases |hs|
  {
    if hs != [] {
      var h := hs[0];
      assert h in hs;
      SpliceReplacesOldSide(t, h.body, Lo(h));
      var t' := Splice(t, h.body, Lo(h)).value;
      assert Before(t, Lo(h))[0] == t[0];
      FirstLineStays(t', hs[1..]);
    }
  }

  lemma {:induction false} KeepTwice(n: nat, hs: seq<Hunk>)
    ensures Keep(Adds(), Lowered(n, Far(n, hs))) == Lowered(n, Keep(Adding(n), hs))
  {
    if hs != [] {
      var h, rest := hs[0], hs[1..];
      assert hs == [h] + rest;
      KeepTwice(n, rest);
      KeepCons(FarFrom(n), h, rest);
      KeepCons(Adding(n), h, rest);
      if Lo(h) > n {
        LoweredCons(n, h, Far(n, rest));
        KeepCons(Adds(), LoweredOne(n, h), Lowered(n, Far(n, rest)));
        LoweredCons(n, h, Keep(Adding(n), rest));
      }
    }
  }

  lemma LoweredCons(n: nat, h: Hunk, hs: seq<Hunk>)
    ensures Lowered(n, [h] + hs) == [LoweredOne(n, h)] + Lowered(n, hs)
  {
    assert ([h] + hs)[1..] == hs;
  }

  lemma FarPatchOfAdding(n: nat, hs: seq<Hunk>)
    requires forall h :: h in hs && Lo(h) > n ==> Old(h) == []
    ensures FarPatch(n, hs) == ApplyInOrder([], Lowered(n, SortDescending(Keep(Adding(n), hs))))
  {
    var sorted := SortDescending(hs);
    FarPatchSorted(n, hs);
    SortIsDescending(hs);
    SameElements(hs, sorted);
    LoweredInsertions(n, sorted);
    IdleLeftOut([], Lowered(n, Far(n, sorted)));
    KeepTwice(n, sorted);
    SortThenKeep(Adding(n), hs);
  }

  lemma LoweredInsertions(n: nat, hs: seq<Hunk>)
    requires forall h :: h in hs && Lo(h) > n ==> Old(h) == []
    ensures Insertions(Lowered(n, Far(n, hs)))
  {
    var far, low := Far(n, hs), Lowered(n, Far(n, hs));
    KeptExactly(FarFrom(n), hs);
    LoweredElements(n, far);
    forall h | h in low
      ensures Old(h) == []
    {
      var i :| 0 <= i < |low| && low[i] == h;
      assert far[i] in far;
    }
  }

  // The far text is in start order when at most one far hunk adds anything: it is what that one adds.
  lemma SingleFarText(n: nat, hs: seq<Hunk>)
    requires forall h :: h in hs && Lo(h) > n ==> Old(h) == []
    requires |Keep(Adding(n), hs)| <= 1
    ensures var adding := Keep(Adding(n), hs);
            FarPatch(n, hs) == Success(if adding == [] then [] else New(adding[0]))
  {
    var adding := Keep(Adding(n), hs);
    FarPatchOfAdding(n, hs);
    if adding != [] {
      var h := LoweredOne(n, adding[0]);
      assert adding == [adding[0]] && adding[1..] == [];
      assert SortDescending(adding) == adding;
      LoweredCons(n, adding[0], []);
      ApplyOne([], h);
      KeptExactly(Adding(n), hs);
      assert adding[0] in adding;
      SpliceReplacesOldSide([], h.body, Lo(h));
      assert Before([], Lo(h)) + New(h) + After([], Lo(h)) == New(h);
    }
  }

  // With more of them it is not: the text of the highest comes first, whatever the others add.
  lemma {:induction false} HighestFarTextFirst(n: nat, hs: seq<Hunk>)
    requires forall h :: h in hs && Lo(h) > n ==> Old(h) == []
    requires Keep(Adding(n), hs) != []
    ensures var top := SortDescending(Keep(Adding(n), hs))[0];
            && (forall h :: h in hs && Lo(h) > n && New(h) != [] ==> h.oldStart <= top.oldStart)
            && FarPatch(n, hs).Success? && FarPatch(n, hs).value != [] && New(top) != []
            && FarPatch(n, hs).value[0] == New(top)[0]
  {
    var adding := Keep(Adding(n), hs);
    var sorted := SortDescending(adding);
    FarPatchOfAdding(n, hs);
    KeptExactly(Adding(n), hs);
    SortIsDescending(adding);
    SameElements(adding, sorted);
    DescendingTail(sorted);
    TopTextFirst(n, sorted);
  }

  lemma TopTextFirst(n: nat, sorted: seq<Hunk>)
    requires sorted != [] && forall h :: h in sorted ==> Lo(h) > n && Old(h) == [] && New(h) != []
    ensures var r := ApplyInOrder([], Lowered(n, sorted));
            r.Success? && r.value != [] && r.value[0] == New(sorted[0])[0]
  {
    var low := Lowered(n, sorted);
    LoweredElements(n, sorted);
    assert sorted[0] in sorted;
    SpliceReplacesOldSide([], low[0].body, Lo(low[0]));
    var t := Splice([], low[0].body, Lo(low[0])).value;
    assert t == New(sorted[0]);
    forall h | h in low[1..]
      ensures Old(h) == [] && Lo(h) > 0
    {
      var i :| 1 <= i < |low| && low[i] == h;
      assert sorted[i] in sorted;
    }
    FirstLineStays(t, low[1..]);
  }

  // A lower insertion even lands inside the text of a higher one.
  lemma FarTextInterleaves(s: Line, t: Line, u: Line)
    ensures PatchLines([], [Hunk(2, [Add(s)]), Hunk(3, [Add(t), Add(u)])]) == Success([t, s, u])
  {
    var a, b := Hunk(2, [Add(s)]), Hunk(3, [Add(t), Add(u)]);
    Sides(s, t, u);
    SpliceReplacesOldSide([], b.body, 2);
    assert [] + [t, u] + [] == [t, u];
    SpliceReplacesOldSide([t, u], a.body, 1);
    assert [t, u][..1] == [t] && [t, u][1..] == [u] && [t] + [s] + [u] == [t, s, u];
    TwoInOrder([], b, a);
    SortTwo(a, b);
  }

  lemma Sides(s: Line, t: Line, u: Line)
    ensures OldSide([Add(s)]) == [] && NewSide([Add(s)]) == [s]
    ensures OldSide([Add(t), Add(u)]) == [] && NewSide([Add(t), Add(u)]) == [t, u]
  {
    assert [Add(t), Add(u)][1..] == [Add(u)] && [Add(u)][1..] == [] && [Add(s)][1..] == [];
    assert [t] + [u] == [t, u];
  }
}
