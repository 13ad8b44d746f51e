// Applying a whole patch to the workspace, with backups, and undoing it
// (core/apply_patch_unified.py).
//
// A store holds the workspace files, the backup directories and the `last_success` marker.  Every
// step of `apply_unified_diff_to_workspace` that can raise is a `Fault`; the step may leave its
// file half written.  Reading a file translates newlines, so what is read back need not be what
// was on disk: the results below say exactly when that matters.
module PatchStore {
  import opened Wrappers
  import opened Text
  import H = Hunks
  import P = PastEnd

  // One parsed "---" block of the patch text.
  datatype Section = Section(rel: string, isNew: bool, hunks: seq<H.Hunk>)

  datatype Op = Op(rel: string, lines: seq<H.Line>)

  datatype PlanError =
    | NoSections
    | NoTarget
    | NoHunks(rel: string)
    | DeletionInNewFile(rel: string)
    | TargetMissing(rel: string)
    | HunkRaises(mismatch: H.Mismatch)

  // A manifest entry: `saved` is the name of the backup copy, None for a file the patch creates.
  datatype Entry = Entry(rel: string, saved: Option<string>)

  datatype Backup = Backup(copies: map<string, string>, manifest: Option<seq<Entry>>)

  datatype Marker = NoMarker | Points(id: string) | Torn

  datatype Store = Store(files: map<string, string>, vault: map<string, Backup>, last: Marker)

  // Where an exception is raised; `left` is what a failing write leaves in its file, None if nothing.
  datatype Fault =
    | NoFault
    | AtRead
    | AtCopy(op: nat)
    | AtWrite(op: nat, left: Option<string>)
    | AtManifest
    | AtMarker(torn: bool)

  datatype Outcome =
    | Rejected(why: PlanError)
    | Raised
    | RolledBack
    | Applied(rels: seq<string>)

  datatype RollbackOutcome = NoBackup | MarkerUnusable | CopyMissing(name: string) | Restored

  // ---------------------------------------------------------------------------------------------
  // Text
  // ---------------------------------------------------------------------------------------------

  // Reading in text mode: "\r\n" and a lone "\r" become "\n".
  function ReadText(raw: string): string {
    if raw == "" then ""
    else if raw[0] != '\r' then [raw[0]] + ReadText(raw[1..])
    else if |raw| > 1 && raw[1] == '\n' then "\n" + ReadText(raw[2..])
    else "\n" + ReadText(raw[1..])
  }

  lemma {:induction false} ReadTextHasNoReturn(raw: string)
    ensures '\r' !in ReadText(raw)
    ensures |ReadText(raw)| <= |raw|
  {
    if raw != "" {
      ReadTextHasNoReturn(raw[1..]);
      if |raw| > 1 { ReadTextHasNoReturn(raw[2..]); }
    }
  }

  // A file reads back as it is on disk exactly when it holds no carriage return.
  lemma {:induction false} ReadTextFaithful(raw: string)
    ensures ReadText(raw) == raw <==> '\r' !in raw
  {
    ReadTextHasNoReturn(raw);
    if raw != "" && raw[0] != '\r' {
      ReadTextFaithful(raw[1..]);
      assert raw == [raw[0]] + raw[1..];
    }
  }

  // And what becomes of a return: with the newline behind it, or alone, it becomes one newline.
  lemma {:induction false} ReadTextTranslates(a: string, b: string)
    requires '\r' !in a
    ensures ReadText(a + "\r\n" + b) == a + "\n" + ReadText(b)
    ensures b == "" || b[0] != '\n' ==> ReadText(a + "\r" + b) == a + "\n" + ReadText(b)
  {
    if a == "" {
      assert a + "\r\n" + b == "\r\n" + b && ("\r\n" + b)[2..] == b;
      assert a + "\r" + b == "\r" + b && ("\r" + b)[1..] == b;
      assert a + "\n" + ReadText(b) == "\n" + ReadText(b);
    } else {
      ReadTextTranslates(a[1..], b);
      assert (a + "\r\n" + b)[1..] == a[1..] + "\r\n" + b && (a + "\r" + b)[1..] == a[1..] + "\r" + b;
      assert a[0] in a && [a[0]] + (a[1..] + "\n" + ReadText(b)) == a + "\n" + ReadText(b);
    }
  }

  lemma ReadTextTwice(raw: string)
    ensures ReadText(ReadText(raw)) == ReadText(raw)
  {
  }

  function Split(text: string): (r: seq<string>)
    ensures r != []
  {
    if text == "" then [""]
    else
      var rest := Split(text[1..]);
      if text[0] == '\n' then [""] + rest else [[text[0]] + rest[0]] + rest[1..]
  }

  // split("\n") without the empty piece behind a final newline
  function LinesOf(text: string): seq<H.Line> {
    var r := Split(text);
    if r[|r| - 1] == "" then r[..|r| - 1] else r
  }

  function Join(lines: seq<string>): string {
    if lines == [] then ""
    else if |lines| == 1 then lines[0]
    else lines[0] + "\n" + Join(lines[1..])
  }

  function BodyOf(lines: seq<H.Line>): string {
    var text := Join(lines);
    if text != "" && text[|text| - 1] != '\n' then text + "\n" else text
  }

  // Separators become "__", so different paths can share a backup name.
  function SafeName(rel: string): string {
    if rel == "" then ""
    else (if rel[0] == '/' || rel[0] == '\\' then "__" else [rel[0]]) + SafeName(rel[1..])
  }

  // The path with every separator written as two underscores.
  function Flattened(rel: string): string {
    Concat(seq(|rel|, i requires 0 <= i < |rel| => if rel[i] == '/' || rel[i] == '\\' then "__" else [rel[i]]))
  }

  // That is what the backup name is, so two paths share a name exactly if they are equal after it.
  lemma {:induction false} SafeNameSpelled(rel: string)
    ensures SafeName(rel) == Flattened(rel)
  {
    if rel != "" {
      SafeNameSpelled(rel[1..]);
      var pieces := seq(|rel|, i requires 0 <= i < |rel| => if rel[i] == '/' || rel[i] == '\\' then "__" else [rel[i]]);
      var rest := rel[1..];
      assert pieces[1..] == seq(|rest|, i requires 0 <= i < |rest| => if rest[i] == '/' || rest[i] == '\\' then "__" else [rest[i]]);
    }
  }

  // No backslash, and no underscore just before an underscore or a separator.
  predicate PlainPath(rel: string) {
    '\\' !in rel && forall i :: 0 <= i < |rel| - 1 && rel[i] == '_' ==> rel[i + 1] != '_' && rel[i + 1] != '/'
  }

  lemma PlainTail(rel: string)
    requires rel != "" && PlainPath(rel)
    ensures PlainPath(rel[1..]) && (|rel| > 1 && rel[0] == '_' ==> rel[1] != '_' && rel[1] != '/')
  {
    var tail := rel[1..];
    forall i | 0 <= i < |tail| - 1 && tail[i] == '_'
      ensures tail[i + 1] != '_' && tail[i + 1] != '/'
    {
      assert rel[i + 1] == '_';
    }
  }

  // Different plain paths have different backup names.
  lemma {:induction false} PlainPathsApart(p: string, q: string)
    requires PlainPath(p) && PlainPath(q) && SafeName(p) == SafeName(q)
    ensures p == q
  {
    if p != "" && q != "" {
      PlainTail(p);
      PlainTail(q);
      if p[0] == q[0] {
        TailName(p);
        TailName(q);
        PlainPathsApart(p[1..], q[1..]);
        assert p == [p[0]] + p[1..] && q == [q[0]] + q[1..];
      } else if p[0] == '/' {
        UnderscoreApart(q, p);
      } else {
        UnderscoreApart(p, q);
      }
    }
  }

  lemma TailName(p: string)
    requires p != ""
    ensures var head := if p[0] == '/' || p[0] == '\\' then "__" else [p[0]];
            SafeName(p) == head + SafeName(p[1..]) && SafeName(p)[|head|..] == SafeName(p[1..])
  {
  }

  lemma UnderscoreApart(p: string, q: string)
    requires p != "" && q != "" && PlainPath(p) && '\\' !in q && p[0] != '/' && p[0] != q[0]
    ensures SafeName(p) != SafeName(q)
  {
    PlainTail(p);
    TailName(p);
    TailName(q);
    assert p[0] != '\\' && q[0] != '\\';
    assert SafeName(p)[0] == p[0];
    if q[0] != '/' {
      assert SafeName(q)[0] == q[0];
    } else if |p| > 1 {
      TailName(p[1..]);
      assert p[1] in p && p[1] != '\\';
      assert SafeName(q)[0] == '_' && SafeName(q)[1] == '_';
      if p[0] == '_' {
        assert SafeName(p[1..])[0] == p[1];
        assert SafeName(p)[1] == p[1];
      }
    }
  }

  // ---------------------------------------------------------------------------------------------
  // Planning: from parsed sections to full new contents; nothing is written
  // ---------------------------------------------------------------------------------------------

  predicate HasDeletion(body: seq<H.HunkLine>) {
    exists k :: 0 <= k < |body| && body[k].Delete?
  }

  function AllNew(hs: seq<H.Hunk>): seq<H.Line> {
    if hs == [] then [] else H.New(hs[0]) + AllNew(hs[1..])
  }

  function Bodies(hs: seq<H.Hunk>): seq<H.HunkLine> {
    if hs == [] then [] else hs[0].body + Bodies(hs[1..])
  }

  lemma {:induction false} NewSideAppend(a: seq<H.HunkLine>, b: seq<H.HunkLine>)
    ensures H.NewSide(a + b) == H.NewSide(a) + H.NewSide(b)
  {
    if a == [] {
      assert a + b == b;
    } else {
      assert (a + b)[0] == a[0] && (a + b)[1..] == a[1..] + b;
      NewSideAppend(a[1..], b);
      var t := [a[0].text];
      assert t + (H.NewSide(a[1..]) + H.NewSide(b)) == (t + H.NewSide(a[1..])) + H.NewSide(b);
    }
  }

  // A new file holds the context and added lines of all its hunks, in order.
  lemma {:induction false} AllNewLines(hs: seq<H.Hunk>)
    ensures AllNew(hs) == H.NewSide(Bodies(hs))
  {
    if hs != [] {
      AllNewLines(hs[1..]);
      NewSideAppend(hs[0].body, Bodies(hs[1..]));
    }
  }

  function PlanOne(files: map<string, string>, sec: Section): Result<Op, PlanError> {
    if sec.rel == "" then Failure(NoTarget)
    else if sec.hunks == [] then Failure(NoHunks(sec.rel))
    else if sec.isNew then
      if exists k :: 0 <= k < |sec.hunks| && HasDeletion(sec.hunks[k].body) then Failure(DeletionInNewFile(sec.rel))
      else Success(Op(sec.rel, AllNew(sec.hunks)))
    else if sec.rel !in files then Failure(TargetMissing(sec.rel))
    else
      match H.PatchLines(LinesOf(ReadText(files[sec.rel])), sec.hunks)
      case Success(lines) => Success(Op(sec.rel, lines))
      case Failure(m) => Failure(HunkRaises(m))
  }

  function PlanEach(files: map<string, string>, secs: seq<Section>): Result<seq<Op>, PlanError> {
    if secs == [] then Success([])
    else
      match PlanOne(files, secs[0])
      case Failure(e) => Failure(e)
      case Success(op) =>
        match PlanEach(files, secs[1..])
        case Failure(e) => Failure(e)
        case Success(ops) => Success([op] + ops)
  }

  function Plan(files: map<string, string>, secs: seq<Section>): Result<seq<Op>, PlanError> {
    if secs == [] then Failure(NoSections) else PlanEach(files, secs)
  }

  function Rels(ops: seq<Op>): seq<string> {
    seq(|ops|, k requires 0 <= k < |ops| => ops[k].rel)
  }

  // ---------------------------------------------------------------------------------------------
  // The transaction
  // ---------------------------------------------------------------------------------------------

  function Prev(before: map<string, string>, rel: string): Option<string> {
    if rel in before then Some(ReadText(before[rel])) else None
  }

  // Backup copies written by the first n operations.
  function Copies(start: map<string, string>, before: map<string, string>, ops: seq<Op>, n: nat): map<string, string>
    requires n <= |ops|
  {
    if n == 0 then start
    else
      var m := Copies(start, before, ops, n - 1);
      match Prev(before, ops[n - 1].rel)
      case Some(text) => m[SafeName(ops[n - 1].rel) := text]
      case None => m
  }

  function EntryOf(before: map<string, string>, rel: string): Entry {
    Entry(rel, if rel in before then Some(SafeName(rel)) else None)
  }

  function Entries(before: map<string, string>, ops: seq<Op>): seq<Entry> {
    seq(|ops|, k requires 0 <= k < |ops| => EntryOf(before, ops[k].rel))
  }

  // Files after the first n operations have written.
  function Written(files: map<string, string>, ops: seq<Op>, n: nat): map<string, string>
    requires n <= |ops|
  {
    if n == 0 then files
    else Written(files, ops, n - 1)[ops[n - 1].rel := BodyOf(ops[n - 1].lines)]
  }

  function PutBack(files: map<string, string>, before: map<string, string>, rel: string): map<string, string> {
    match Prev(before, rel)
    case Some(text) => files[rel := text]
    case None => files - {rel}
  }

  // The restoring loop after the first n operations.
  function RestoredUpTo(files: map<string, string>, before: map<string, string>, ops: seq<Op>, n: nat): map<string, string>
    requires n <= |ops|
  {
    if n == 0 then files
    else PutBack(RestoredUpTo(files, before, ops, n - 1), before, ops[n - 1].rel)
  }

  // Files when the exception leaves the try block; None if no exception is raised.
  function FilesAtFault(files: map<string, string>, ops: seq<Op>, backup: bool, fault: Fault): Option<map<string, string>> {
    match fault
    case NoFault => None
    case AtRead => None
    case AtCopy(k) => if backup && k < |ops| then Some(files) else None
    case AtWrite(k, left) =>
      if k >= |ops| then None
      else if left.Some? then Some(Written(files, ops, k)[ops[k].rel := left.value])
      else Some(Written(files, ops, k))
    case AtManifest => if backup then Some(Written(files, ops, |ops|)) else None
    case AtMarker(_) => if backup then Some(Written(files, ops, |ops|)) else None
  }

  function BackupOf(s: Store, ops: seq<Op>, id: string): Backup {
    var start := if id in s.vault then s.vault[id].copies else map[];
    Backup(Copies(start, s.files, ops, |ops|), Some(Entries(s.files, ops)))
  }

  function ApplyOps(s: Store, ops: seq<Op>, id: string, backup: bool, fault: Fault): (Store, Outcome) {
    match FilesAtFault(s.files, ops, backup, fault)
    case Some(files) =>
      (Store(RestoredUpTo(files, s.files, ops, |ops|),
             if backup then s.vault - {id} else s.vault,
             if fault == AtMarker(true) then Torn else s.last),
       RolledBack)
    case None =>
      var files := Written(s.files, ops, |ops|);
      (if backup then Store(files, s.vault[id := BackupOf(s, ops, id)], Points(id)) else s.(files := files),
       Applied(Rels(ops)))
  }

  function ApplyPatch(s: Store, secs: seq<Section>, id: string, backup: bool, fault: Fault): (Store, Outcome) {
    match Plan(s.files, secs)
    case Failure(HunkRaises(_)) => (s, Raised)
    case Failure(e) => (s, Rejected(e))
    case Success(ops) => if fault.AtRead? then (s, Raised) else ApplyOps(s, ops, id, backup, fault)
  }

  // Manifest entries are restored one by one; a missing copy stops the loop where it is.
  function RestoreEntries(files: map<string, string>, copies: map<string, string>, es: seq<Entry>): (map<string, string>, RollbackOutcome)
    decreases |es|
  {
    if es == [] then (files, Restored)
    else
      match es[0].saved
      case None => RestoreEntries(files - {es[0].rel}, copies, es[1..])
      case Some(name) =>
        if name !in copies then (files, CopyMissing(name))
        else RestoreEntries(files[es[0].rel := ReadText(copies[name])], copies, es[1..])
  }

  function RollbackId(s: Store, id: string): (Store, RollbackOutcome) {
    if id !in s.vault || s.vault[id].manifest.None? then (s, NoBackup)
    else
      var r := RestoreEntries(s.files, s.vault[id].copies, s.vault[id].manifest.value);
      (s.(files := r.0), r.1)
  }

  // The id asked for; a missing or blank one means the one in the marker, "" if there is none.
  function RequestedId(last: Marker, which: Option<string>): string {
    var id := if which.Some? then Strip(which.value) else "";
    if id != "" then id else if last.Points? then Strip(last.id) else ""
  }

  function Rollback(s: Store, which: Option<string>): (Store, RollbackOutcome) {
    var id := RequestedId(s.last, which);
    if id == "" then (s, MarkerUnusable) else RollbackId(s, id)
  }

  // `ops` in front of what a later part of the patch gives.
  function Behind(ops: seq<Op>, r: Result<seq<Op>, PlanError>): Result<seq<Op>, PlanError> {
    match r
    case Success(rest) => Success(ops + rest)
    case Failure(_) => r
  }

  lemma NothingBefore(r: Result<seq<Op>, PlanError>)
    ensures Behind([], r) == r
  {
    if r.Success? { assert [] + r.value == r.value; }
  }

  lemma BehindStep(ops: seq<Op>, op: Op, r: Result<seq<Op>, PlanError>)
    ensures Behind(ops, Behind([op], r)) == Behind(ops + [op], r)
  {
    if r.Success? { assert ops + ([op] + r.value) == (ops + [op]) + r.value; }
  }

  lemma LineShift(a: seq<H.Line>, t: H.Line, b: seq<H.Line>)
    ensures a + ([t] + b) == (a + [t]) + b
  {
  }

  // The workspace on disk, as the program changes it.
  class Workspace {
    var files: map<string, string>
    var vault: map<string, Backup>
    var last: Marker

    constructor (files: map<string, string>)
      ensures Value() == Store(files, map[], NoMarker)
    {
      this.files, vault, last := files, map[], NoMarker;
    }

    function Value(): Store
      reads this
    {
      Store(files, vault, last)
    }

    method Apply(secs: seq<Section>, id: string, backup: bool, fault: Fault) returns (out: Outcome)
      modifies this
      ensures (Value(), out) == ApplyPatch(old(Value()), secs, id, backup, fault)
    {
      var plan := ParseToOperations(secs);
      if plan.Failure? {
        if plan.error.HunkRaises? { return Raised; }
        return Rejected(plan.error);
      }
      var ops := plan.value;
      if fault.AtRead? { return Raised; }
      var prevs := ReadAll(ops);
      var failed := WriteAll(ops, prevs, id, backup, fault);
      if failed {
        RestoreAll(ops, prevs, old(files));
        if backup { vault := vault - {id}; }
        return RolledBack;
      }
      return Applied(Rels(ops));
    }

    // All new contents, block by block; the first block that cannot be planned decides.
    method ParseToOperations(secs: seq<Section>) returns (plan: Result<seq<Op>, PlanError>)
      ensures plan == Plan(files, secs)
    {
      var ops: seq<Op> := [];
      NothingBefore(PlanEach(files, secs));
      for k := 0 to |secs|
        invariant Behind(ops, PlanEach(files, secs[k..])) == PlanEach(files, secs)
      {
        var sec := secs[k];
        assert secs[k..][0] == sec && secs[k..][1..] == secs[k + 1..];
        if sec.rel == "" { return Failure(NoTarget); }
        if sec.hunks == [] { return Failure(NoHunks(sec.rel)); }
        var lines: seq<H.Line>;
        if sec.isNew {
          var refused;
          refused, lines := NewFileLines(sec.hunks);
          if refused { return Failure(DeletionInNewFile(sec.rel)); }
        } else {
          if sec.rel !in files { return Failure(TargetMissing(sec.rel)); }
          var fileLines := Split(ReadText(files[sec.rel]));
          if fileLines[|fileLines| - 1] == "" { fileLines := fileLines[..|fileLines| - 1]; }
          var r := H.ApplyHunks(fileLines, sec.hunks);
          if r.Failure? { return Failure(HunkRaises(r.error)); }
          lines := r.value;
        }
        BehindStep(ops, Op(sec.rel, lines), PlanEach(files, secs[k + 1..]));
        ops := ops + [Op(sec.rel, lines)];
      }
      assert ops + [] == ops;
      if ops == [] { return Failure(NoSections); }
      plan := Success(ops);
    }

    // The lines of a new file, unless one of its hunks deletes.
    static method NewFileLines(hunks: seq<H.Hunk>) returns (refused: bool, lines: seq<H.Line>)
      ensures refused <==> exists k :: 0 <= k < |hunks| && HasDeletion(hunks[k].body)
      ensures !refused ==> lines == AllNew(hunks)
    {
      lines := [];
      for k := 0 to |hunks|
        invariant lines + AllNew(hunks[k..]) == AllNew(hunks)
        invariant forall j :: 0 <= j < k ==> !HasDeletion(hunks[j].body)
      {
        assert hunks[k..][0] == hunks[k] && hunks[k..][1..] == hunks[k + 1..];
        ghost var before := lines;
        var body := hunks[k].body;
        for i := 0 to |body|
          invariant lines + H.NewSide(body[i..]) == before + H.NewSide(body)
          invariant forall j :: 0 <= j < i ==> !body[j].Delete?
        {
          assert body[i..][0] == body[i] && body[i..][1..] == body[i + 1..];
          if body[i].Delete? {
            assert HasDeletion(hunks[k].body);
            return true, lines;
          }
          if body[i].Add? || body[i].Context? {
            LineShift(lines, body[i].text, H.NewSide(body[i + 1..]));
            lines := lines + [body[i].text];
          }
        }
        assert lines + [] == lines;
        H.LineAssoc(before, H.NewSide(body), AllNew(hunks[k + 1..]));
      }
      assert lines + [] == lines;
      refused := false;
    }

    method ReadAll(ops: seq<Op>) returns (prevs: seq<Option<string>>)
      ensures |prevs| == |ops|
      ensures forall j :: 0 <= j < |ops| ==> prevs[j] == Prev(files, ops[j].rel)
    {
      prevs := [];
      for k := 0 to |ops|
        invariant |prevs| == k
        invariant forall j :: 0 <= j < k ==> prevs[j] == Prev(files, ops[j].rel)
      {
        prevs := prevs + [if ops[k].rel in files then Some(ReadText(files[ops[k].rel])) else None];
      }
    }

    // The except block, `before` being the files when the targets were read.
    method RestoreAll(ops: seq<Op>, prevs: seq<Option<string>>, ghost before: map<string, string>)
      requires |prevs| == |ops|
      requires forall j :: 0 <= j < |ops| ==> prevs[j] == Prev(before, ops[j].rel)
      modifies this`files
      ensures files == RestoredUpTo(old(files), before, ops, |ops|)
    {
      for k := 0 to |ops|
        invariant files == RestoredUpTo(old(files), before, ops, k)
      {
        if prevs[k].None? {
          files := files - {ops[k].rel};
        } else {
          files := files[ops[k].rel := prevs[k].value];
        }
      }
    }

    // The body of the try block: copies, writes, manifest, marker.
    method WriteAll(ops: seq<Op>, prevs: seq<Option<string>>, id: string, backup: bool, fault: Fault) returns (failed: bool)
      requires |prevs| == |ops| && !fault.AtRead?
      requires forall j :: 0 <= j < |ops| ==> prevs[j] == Prev(files, ops[j].rel)
      modifies this
      ensures failed == FilesAtFault(old(files), ops, backup, fault).Some?
      ensures failed ==> files == FilesAtFault(old(files), ops, backup, fault).value
      ensures failed ==> if backup then vault - {id} == old(vault) - {id} else vault == old(vault)
      ensures failed ==> last == if fault == AtMarker(true) then Torn else old(last)
      ensures !failed ==> (Value(), Applied(Rels(ops))) == ApplyOps(old(Value()), ops, id, backup, fault)
    {
      var copies: map<string, string>, manifest: seq<Entry> := map[], [];
      if backup {
        failed, copies, manifest := CopyAll(ops, prevs, id, fault);
        if failed { return; }
      }
      failed := WriteFiles(ops, fault);
      if failed { return; }
      if backup {
        if fault.AtManifest? { return true; }
        vault := vault[id := Backup(copies, Some(manifest))];
        assert vault == old(vault)[id := BackupOf(old(Value()), ops, id)];
        if fault.AtMarker? {
          if fault.torn { last := Torn; }
          return true;
        }
        last := Points(id);
      }
    }

    method CopyAll(ops: seq<Op>, prevs: seq<Option<string>>, id: string, fault: Fault)
      returns (failed: bool, copies: map<string, string>, manifest: seq<Entry>)
      requires |prevs| == |ops|
      requires forall j :: 0 <= j < |ops| ==> prevs[j] == Prev(files, ops[j].rel)
      modifies this`vault
      ensures failed == (fault.AtCopy? && fault.op < |ops|)
      ensures !failed ==> Backup(copies, Some(manifest)) == BackupOf(old(Value()), ops, id)
      ensures vault == old(vault) || (id in vault && vault == old(vault)[id := vault[id]])
    {
      copies := if id in vault then vault[id].copies else map[];
      manifest := [];
      ghost var start := copies;
      for k := 0 to |ops|
        invariant copies == Copies(start, files, ops, k)
        invariant vault == old(vault) || (id in vault && vault == old(vault)[id := vault[id]])
        invariant fault.AtCopy? ==> k <= fault.op
        invariant |manifest| == k && forall j :: 0 <= j < k ==> manifest[j] == EntryOf(files, ops[j].rel)
      {
        if fault == AtCopy(k) { return true, copies, manifest; }
        if prevs[k].Some? {
          copies := copies[SafeName(ops[k].rel) := prevs[k].value];
          vault := vault[id := Backup(copies, if id in vault then vault[id].manifest else None)];
        }
        manifest := manifest + [Entry(ops[k].rel, if prevs[k].Some? then Some(SafeName(ops[k].rel)) else None)];
      }
      assert manifest == Entries(files, ops);
      failed := false;
    }

    method WriteFiles(ops: seq<Op>, fault: Fault) returns (failed: bool)
      modifies this`files
      ensures failed == (fault.AtWrite? && fault.op < |ops|)
      ensures failed ==> files == FilesAtFault(old(files), ops, true, fault).value
      ensures !failed ==> files == Written(old(files), ops, |ops|)
    {
      for k := 0 to |ops|
        invariant files == Written(old(files), ops, k)
        invariant fault.AtWrite? ==> k <= fault.op
      {
        if fault.AtWrite? && fault.op == k {
          if fault.left.Some? { files := files[ops[k].rel := fault.left.value]; }
          return true;
        }
        var body := Join(ops[k].lines);
        if body != "" && body[|body| - 1] != '\n' { body := body + "\n"; }
        files := files[ops[k].rel := body];
      }
      failed := false;
    }

    method RollbackBackup(which: Option<string>) returns (out: RollbackOutcome)
      modifies this
      ensures (Value(), out) == Rollback(old(Value()), which)
    {
      var id := "";
      if which.Some? { id := Strip(which.value); }
      if id == "" {
        if !last.Points? { return MarkerUnusable; }
        id := Strip(last.id);
        if id == "" { return MarkerUnusable; }
      }
      if id !in vault || vault[id].manifest.None? { return NoBackup; }
      out := RestoreFiles(vault[id].manifest.value, vault[id].copies);
    }

    // The loop over the manifest.
    method RestoreFiles(es: seq<Entry>, copies: map<string, string>) returns (out: RollbackOutcome)
      modifies this`files
      ensures (files, out) == RestoreEntries(old(files), copies, es)
    {
      for k := 0 to |es|
        invariant RestoreEntries(files, copies, es[k..]) == RestoreEntries(old(files), copies, es)
      {
        assert es[k..][0] == es[k] && es[k..][1..] == es[k + 1..];
        if es[k].saved.None? {
          files := files - {es[k].rel};
        } else {
          var name := es[k].saved.value;
          if name !in copies { return CopyMissing(name); }
          files := files[es[k].rel := ReadText(copies[name])];
        }
      }
      return Restored;
    }
  }

  // ---------------------------------------------------------------------------------------------
  // Lines and text
  // ---------------------------------------------------------------------------------------------

  lemma {:induction false} SplitOneLine(line: string, rest: string)
    requires '\n' !in line
    ensures Split(line + "\n" + rest) == [line] + Split(rest)
    ensures Split(line) == [line]
  {
    if line == "" {
      assert line + "\n" + rest == "\n" + rest;
      assert ("\n" + rest)[1..] == rest;
    } else {
      SplitOneLine(line[1..], rest);
      assert (line + "\n" + rest)[1..] == line[1..] + "\n" + rest;
      assert line == [line[0]] + line[1..];
    }
  }

  predicate NoNewlines(lines: seq<string>) {
    forall k :: 0 <= k < |lines| ==> '\n' !in lines[k]
  }

  lemma {:induction false} SplitJoin(lines: seq<string>)
    requires lines != [] && NoNewlines(lines)
    ensures Split(Join(lines)) == lines
    ensures Split(Join(lines) + "\n") == lines + [""]
    ensures (Join(lines) == "" || Join(lines)[|Join(lines)| - 1] == '\n') <==> lines[|lines| - 1] == ""
    ensures Join(lines) == "" <==> lines == [""]
  {
    if |lines| == 1 {
      SplitOneLine(lines[0], "");
      assert lines[0] + "\n" + "" == lines[0] + "\n";
      assert [lines[0]] + [""] == lines + [""];
    } else {
      var rest := Join(lines[1..]);
      SplitJoin(lines[1..]);
      SplitOneLine(lines[0], rest);
      SplitOneLine(lines[0], rest + "\n");
      assert Join(lines) + "\n" == lines[0] + "\n" + (rest + "\n");
      FirstLine(lines);
    }
  }

  lemma FirstLine(lines: seq<string>)
    requires |lines| > 1
    ensures lines == [lines[0]] + lines[1..]
    ensures [lines[0]] + (lines[1..] + [""]) == lines + [""]
    ensures lines[1..][|lines[1..]| - 1] == lines[|lines| - 1]
  {
  }

  // What is written reads back as the same lines exactly when the last line is not blank: a blank
  // last line is lost.
  lemma WrittenLinesReadBack(lines: seq<H.Line>)
    requires NoNewlines(lines)
    ensures LinesOf(BodyOf(lines)) == lines <==> lines == [] || lines[|lines| - 1] != ""
  {
    if lines != [] {
      SplitJoin(lines);
      if lines[|lines| - 1] != "" {
        assert (lines + [""])[..|lines|] == lines;
      } else {
        assert |LinesOf(BodyOf(lines))| == |lines| - 1;
      }
    }
  }

  lemma {:induction false} JoinSplit(text: string)
    ensures Join(Split(text)) == text
  {
    if text != "" {
      var rest := Split(text[1..]);
      JoinSplit(text[1..]);
      assert text == [text[0]] + text[1..];
      if text[0] == '\n' {
        JoinCons("", rest);
      } else {
        JoinFront(text[0], rest[0], rest[1..]);
        assert rest == [rest[0]] + rest[1..];
      }
    }
  }

  lemma JoinCons(line: string, rest: seq<string>)
    requires rest != []
    ensures Join([line] + rest) == line + "\n" + Join(rest)
  {
    assert ([line] + rest)[1..] == rest;
  }

  lemma JoinFront(c: char, line: string, rest: seq<string>)
    ensures Join([[c] + line] + rest) == [c] + Join([line] + rest)
  {
    if rest != [] {
      JoinCons([c] + line, rest);
      JoinCons(line, rest);
      ConcatThree([c], line, "\n" + Join(rest));
      ConcatThree(line, "\n", Join(rest));
      ConcatThree([c] + line, "\n", Join(rest));
    } else {
      assert [[c] + line] + rest == [[c] + line] && [line] + rest == [line];
    }
  }

  lemma ConcatThree(a: string, b: string, c: string)
    ensures (a + b) + c == a + (b + c)
  {
  }

  lemma {:induction false} JoinBlankLast(lines: seq<string>)
    requires lines != []
    ensures Join(lines + [""]) == Join(lines) + "\n"
  {
    var all := lines + [""];
    if |lines| == 1 {
      assert all[1..] == [""];
      assert lines[0] + "\n" + "" == lines[0] + "\n";
    } else {
      JoinBlankLast(lines[1..]);
      assert all[1..] == lines[1..] + [""];
      assert lines[0] + "\n" + (Join(lines[1..]) + "\n") == Join(lines) + "\n";
    }
  }

  // A patch that changes no line rewrites its file as it was exactly when the file is empty or ends
  // in exactly one newline behind a line that is not blank.
  lemma RewriteFaithful(text: string)
    ensures BodyOf(LinesOf(text)) == text <==>
              text == "" || (|text| > 1 && text[|text| - 1] == '\n' && text[|text| - 2] != '\n')
  {
    var pieces := Split(text);
    var n := |pieces| - 1;
    if pieces[n] != "" {
      OpenEndIsClosed(text);
    } else if n > 0 {
      assert pieces == pieces[..n] + [""];
      EndsInNewline(text, pieces[..n]);
      ClosedEnd(Join(pieces[..n]), text);
    } else {
      JoinSplit(text);
    }
  }

  lemma EndsInNewline(text: string, lines: seq<string>)
    requires lines != [] && Split(text) == lines + [""]
    ensures LinesOf(text) == lines && text == Join(lines) + "\n"
  {
    JoinSplit(text);
    JoinBlankLast(lines);
  }

  lemma ClosedEnd(text: string, whole: string)
    requires whole == text + "\n"
    ensures (if text != "" && text[|text| - 1] != '\n' then text + "\n" else text) == whole
            <==> |whole| > 1 && whole[|whole| - 1] == '\n' && whole[|whole| - 2] != '\n'
  {
  }

  lemma {:induction false} OpenEndIsClosed(text: string)
    requires Split(text)[|Split(text)| - 1] != ""
    ensures text != "" && text[|text| - 1] != '\n' && BodyOf(LinesOf(text)) == text + "\n"
  {
    var pieces := Split(text);
    var last := pieces[|pieces| - 1];
    JoinSplit(text);
    SplitHasNoNewlines(text);
    LastPieceEnds(pieces);
    assert LinesOf(text) == pieces && Join(pieces) == text;
    assert last[|last| - 1] in last && '\n' !in last;
  }

  lemma {:induction false} SplitHasNoNewlines(text: string)
    ensures NoNewlines(Split(text))
  {
    if text != "" {
      SplitHasNoNewlines(text[1..]);
      var rest := Split(text[1..]);
      assert '\n' !in rest[0];
    }
  }

  lemma {:induction false} LastPieceEnds(pieces: seq<string>)
    requires pieces != [] && pieces[|pieces| - 1] != ""
    ensures var last := pieces[|pieces| - 1];
            Join(pieces) != "" && Join(pieces)[|Join(pieces)| - 1] == last[|last| - 1]
  {
    if |pieces| > 1 { LastPieceEnds(pieces[1..]); }
  }

  // ---------------------------------------------------------------------------------------------
  // Atomicity
  // ---------------------------------------------------------------------------------------------

  predicate Touches(ops: seq<Op>, n: nat, p: string)
    requires n <= |ops|
  {
    exists k :: 0 <= k < n && ops[k].rel == p
  }

  function Targets(ops: seq<Op>): set<string> {
    set op | op in ops :: op.rel
  }

  lemma TargetsTouched(ops: seq<Op>, p: string)
    ensures p in Targets(ops) <==> Touches(ops, |ops|, p)
  {
  }

  // The files as they would be read, on the given paths; the others untouched.
  function Reread(files: map<string, string>, ps: set<string>): map<string, string> {
    map p | p in files :: if p in ps then ReadText(files[p]) else files[p]
  }

  ghost predicate SameAt(a: map<string, string>, b: map<string, string>, p: string) {
    (p in a <==> p in b) && (p in a ==> a[p] == b[p])
  }

  // p is present as before, with its text as it was read before.
  ghost predicate TextAt(a: map<string, string>, before: map<string, string>, p: string) {
    (p in a <==> p in before) && (p in a ==> a[p] == ReadText(before[p]))
  }

  // The last of the first n operations that targets p.
  function LastOp(ops: seq<Op>, n: nat, p: string): (r: Option<nat>)
    requires n <= |ops|
    ensures r.Some? ==> r.value < n && ops[r.value].rel == p
    ensures r.Some? ==> forall j :: r.value < j < n ==> ops[j].rel != p
    ensures r.None? ==> !Touches(ops, n, p)
  {
    if n == 0 then None
    else if ops[n - 1].rel == p then Some(n - 1)
    else LastOp(ops, n - 1, p)
  }

  lemma {:induction false} WrittenAt(files: map<string, string>, ops: seq<Op>, n: nat, p: string)
    requires n <= |ops|
    ensures match LastOp(ops, n, p)
            case None => SameAt(Written(files, ops, n), files, p)
            case Some(k) => p in Written(files, ops, n) && Written(files, ops, n)[p] == BodyOf(ops[k].lines)
  {
    if n > 0 {
      WrittenAt(files, ops, n - 1, p);
    }
  }

  lemma {:induction false} RestoredAt(files: map<string, string>, before: map<string, string>, ops: seq<Op>, n: nat, p: string)
    requires n <= |ops|
    ensures Touches(ops, n, p) ==> TextAt(RestoredUpTo(files, before, ops, n), before, p)
    ensures !Touches(ops, n, p) ==> SameAt(RestoredUpTo(files, before, ops, n), files, p)
  {
    if n > 0 {
      RestoredAt(files, before, ops, n - 1, p);
      if ops[n - 1].rel != p {
        assert Touches(ops, n, p) <==> Touches(ops, n - 1, p);
      }
    }
  }

  lemma FaultLeavesOthers(files: map<string, string>, ops: seq<Op>, backup: bool, fault: Fault, p: string)
    requires FilesAtFault(files, ops, backup, fault).Some? && !Touches(ops, |ops|, p)
    ensures SameAt(FilesAtFault(files, ops, backup, fault).value, files, p)
  {
    forall n: nat | n <= |ops|
      ensures SameAt(Written(files, ops, n), files, p)
    {
      assert !Touches(ops, n, p);
      WrittenAt(files, ops, n, p);
    }
    if fault.AtWrite? {
      assert ops[fault.op].rel != p;
    }
  }

  ghost predicate NoReturns(files: map<string, string>, ps: set<string>) {
    forall p :: p in ps && p in files ==> '\r' !in files[p]
  }

  lemma RereadExact(files: map<string, string>, ps: set<string>)
    ensures Reread(files, ps) == files <==> NoReturns(files, ps)
  {
    forall p | p in files {
      ReadTextFaithful(files[p]);
    }
    if Reread(files, ps) == files {
      forall p | p in ps && p in files
        ensures '\r' !in files[p]
      {
        assert Reread(files, ps)[p] == ReadText(files[p]);
      }
    }
  }

  // All or nothing: whichever step raises, and whatever a torn write leaves behind, an unsuccessful
  // call leaves every target as it was read, absent targets absent, and all other files untouched;
  // and the files are exactly as before if and only if no existing target holds a carriage return.
  // Only the marker can suffer, and only from its own torn write.
  lemma FailedPatchChangesNothing(s: Store, secs: seq<Section>, id: string, backup: bool, fault: Fault)
    requires !ApplyPatch(s, secs, id, backup, fault).1.Applied?
    ensures var (t, out) := ApplyPatch(s, secs, id, backup, fault);
            && (!out.RolledBack? ==> t == s)
            && (out.RolledBack? ==>
                  && Plan(s.files, secs).Success?
                  && t.files == Reread(s.files, Targets(Plan(s.files, secs).value))
                  && (t.files == s.files <==> NoReturns(s.files, Targets(Plan(s.files, secs).value))))
            && (id !in s.vault ==> t.vault == s.vault)
            && (t.last != s.last ==> out.RolledBack? && backup && fault == AtMarker(true) && t.last == Torn)
  {
    var (t, out) := ApplyPatch(s, secs, id, backup, fault);
    if out.RolledBack? {
      var ops := Plan(s.files, secs).value;
      var mid := FilesAtFault(s.files, ops, backup, fault).value;
      forall p
        ensures SameAt(t.files, Reread(s.files, Targets(ops)), p)
      {
        TargetsTouched(ops, p);
        RestoredAt(mid, s.files, ops, |ops|, p);
        if !Touches(ops, |ops|, p) {
          FaultLeavesOthers(s.files, ops, backup, fault, p);
        }
      }
      SameEverywhere(t.files, Reread(s.files, Targets(ops)));
      RereadExact(s.files, Targets(ops));
    }
  }

  lemma SameEverywhere(a: map<string, string>, b: map<string, string>)
    requires forall p :: SameAt(a, b, p)
    ensures a == b
  {
    forall p
      ensures p in a <==> p in b
      ensures p in a ==> a[p] == b[p]
    {
      assert SameAt(a, b, p);
    }
  }

  // A hunk that does not fit raises out of the call before anything is written, unless an earlier
  // block has already failed in its own way.
  lemma MisfitWritesNothing(s: Store, secs: seq<Section>, k: nat, id: string, backup: bool, fault: Fault)
    requires k < |secs| && !secs[k].isNew && secs[k].rel in s.files
    requires H.PatchLines(LinesOf(ReadText(s.files[secs[k].rel])), secs[k].hunks).Failure?
    ensures ApplyPatch(s, secs, id, backup, fault).0 == s
    ensures !ApplyPatch(s, secs, id, backup, fault).1.Applied?
    ensures secs[k].rel != "" && (forall j :: 0 <= j < k ==> PlanOne(s.files, secs[j]).Success?) ==>
              ApplyPatch(s, secs, id, backup, fault).1.Raised?
  {
    PlanFails(s.files, secs, k);
    if forall j :: 0 <= j < k ==> PlanOne(s.files, secs[j]).Success? {
      FirstFailureDecides(s.files, secs, k);
    }
  }

  lemma {:induction false} FirstFailureDecides(files: map<string, string>, secs: seq<Section>, k: nat)
    requires k < |secs| && PlanOne(files, secs[k]).Failure?
    requires forall j :: 0 <= j < k ==> PlanOne(files, secs[j]).Success?
    ensures PlanEach(files, secs) == Failure(PlanOne(files, secs[k]).error)
  {
    if k > 0 {
      assert PlanOne(files, secs[0]).Success?;
      forall j | 0 <= j < k - 1
        ensures PlanOne(files, secs[1..][j]).Success?
      {
        assert secs[1..][j] == secs[j + 1];
      }
      FirstFailureDecides(files, secs[1..], k - 1);
    }
  }

  lemma {:induction false} PlanFails(files: map<string, string>, secs: seq<Section>, k: nat)
    requires k < |secs| && PlanOne(files, secs[k]).Failure?
    ensures PlanEach(files, secs).Failure?
  {
    if k > 0 {
      PlanFails(files, secs[1..], k - 1);
    }
  }

  // The block names a file and has hunks; for a new file it deletes nothing, and otherwise the file
  // exists and the hunks fit it.
  predicate Acceptable(files: map<string, string>, sec: Section) {
    && sec.rel != "" && sec.hunks != []
    && if sec.isNew then forall i, j :: 0 <= i < |sec.hunks| && 0 <= j < |sec.hunks[i].body| ==> !sec.hunks[i].body[j].Delete?
       else sec.rel in files && H.PatchLines(LinesOf(ReadText(files[sec.rel])), sec.hunks).Success?
  }

  // The planning accepts exactly the patches that have blocks, all of them acceptable.
  lemma PlanAcceptsExactly(files: map<string, string>, secs: seq<Section>)
    ensures Plan(files, secs).Success? <==> secs != [] && forall k :: 0 <= k < |secs| ==> Acceptable(files, secs[k])
  {
    forall k | 0 <= k < |secs|
      ensures PlanOne(files, secs[k]).Success? <==> Acceptable(files, secs[k])
    {
      OneAcceptedExactly(files, secs[k]);
    }
    if PlanEach(files, secs).Success? {
      PlanIsPerSection(files, secs);
    } else {
      var k := FirstRefused(files, secs);
    }
  }

  lemma OneAcceptedExactly(files: map<string, string>, sec: Section)
    ensures PlanOne(files, sec).Success? <==> Acceptable(files, sec)
  {
    if sec.isNew && exists k :: 0 <= k < |sec.hunks| && HasDeletion(sec.hunks[k].body) {
      var i :| 0 <= i < |sec.hunks| && HasDeletion(sec.hunks[i].body);
      var j :| 0 <= j < |sec.hunks[i].body| && sec.hunks[i].body[j].Delete?;
    }
  }

  lemma {:induction false} FirstRefused(files: map<string, string>, secs: seq<Section>) returns (k: nat)
    requires PlanEach(files, secs).Failure?
    ensures k < |secs| && PlanOne(files, secs[k]) == Failure(PlanEach(files, secs).error)
  {
    if PlanOne(files, secs[0]).Failure? {
      k := 0;
    } else {
      var rest := FirstRefused(files, secs[1..]);
      k := rest + 1;
    }
  }

  // A successful call writes, for every target, the text its last section asks for, keeps the
  // others, and, if asked to, records a complete backup under its id; otherwise it leaves backups and
  // marker alone.
  lemma {:induction false} AppliedPatchWrites(s: Store, secs: seq<Section>, id: string, backup: bool, fault: Fault, p: string)
    requires ApplyPatch(s, secs, id, backup, fault).1.Applied?
    ensures Plan(s.files, secs).Success?
    ensures var t, ops := ApplyPatch(s, secs, id, backup, fault).0, Plan(s.files, secs).value;
            && (p !in Targets(ops) ==> SameAt(t.files, s.files, p))
            && (p in Targets(ops) ==>
                  && LastOp(ops, |ops|, p).Some? && p in t.files
                  && t.files[p] == BodyOf(ops[LastOp(ops, |ops|, p).value].lines))
            && (if backup then id in t.vault && t.vault[id] == BackupOf(s, ops, id) && t.last == Points(id)
                else t.vault == s.vault && t.last == s.last)
            && (forall x :: x != id ==> (x in t.vault <==> x in s.vault) && (x in s.vault ==> t.vault[x] == s.vault[x]))
  {
    var ops := Plan(s.files, secs).value;
    TargetsTouched(ops, p);
    WrittenAt(s.files, ops, |ops|, p);
  }

  lemma {:induction false} PlanIsPerSection(files: map<string, string>, secs: seq<Section>)
    requires PlanEach(files, secs).Success?
    ensures |PlanEach(files, secs).value| == |secs|
    ensures forall k :: 0 <= k < |secs| ==> PlanOne(files, secs[k]) == Success(PlanEach(files, secs).value[k])
  {
    if secs != [] {
      PlanIsPerSection(files, secs[1..]);
    }
  }

  // What a block asks its file to hold, for hunks with separate old ranges: all context and added
  // lines for a new file, else the simultaneous splice of the hunks into the content before the call,
  // with the text of hunks past its end appended first.
  function BlockLines(files: map<string, string>, sec: Section): seq<H.Line> {
    if sec.isNew || sec.rel !in files then H.NewSide(Bodies(sec.hunks))
    else
      var lines := LinesOf(ReadText(files[sec.rel]));
      var far := P.TextOf(P.FarPatch(|lines|, sec.hunks));
      H.SpliceAll(lines + far, P.Near(|lines|, sec.hunks), 0)
  }

  // End to end: after a successful call a file holds what the LAST block that names it asks for; an
  // earlier block for the same file has no effect.
  lemma LastBlockDecides(s: Store, secs: seq<Section>, id: string, backup: bool, fault: Fault, k: nat)
    requires ApplyPatch(s, secs, id, backup, fault).1.Applied?
    requires k < |secs| && forall j :: k < j < |secs| ==> secs[j].rel != secs[k].rel
    requires secs[k].isNew || H.Separate(secs[k].hunks)
    ensures var t, rel := ApplyPatch(s, secs, id, backup, fault).0, secs[k].rel;
            && (secs[k].isNew || rel in s.files)
            && rel in t.files && t.files[rel] == BodyOf(BlockLines(s.files, secs[k]))
    ensures var rels := ApplyPatch(s, secs, id, backup, fault).1.rels;
            |rels| == |secs| && forall j :: 0 <= j < |secs| ==> rels[j] == secs[j].rel
  {
    PlanIsPerSection(s.files, secs);
    var ops := Plan(s.files, secs).value;
    var op := ops[k];
    forall j | 0 <= j < |secs|
      ensures ops[j].rel == secs[j].rel
    {
      PlannedTarget(s.files, secs[j], ops[j]);
    }
    PlannedLines(s.files, secs[k], op);
    LastBlockWritten(s, secs, id, backup, fault, k, op);
  }

  lemma LastBlockWritten(s: Store, secs: seq<Section>, id: string, backup: bool, fault: Fault, k: nat, op: Op)
    requires ApplyPatch(s, secs, id, backup, fault).1.Applied?
    requires k < |secs| && forall j :: k < j < |secs| ==> secs[j].rel != secs[k].rel
    requires PlanOne(s.files, secs[k]) == Success(op)
    ensures var t := ApplyPatch(s, secs, id, backup, fault).0;
            op.rel in t.files && t.files[op.rel] == BodyOf(op.lines)
  {
    var ops := Plan(s.files, secs).value;
    PlanIsPerSection(s.files, secs);
    PlannedTarget(s.files, secs[k], op);
    forall j | k < j < |ops|
      ensures ops[j].rel != op.rel
    {
      PlannedTarget(s.files, secs[j], ops[j]);
    }
    AppliedFiles(s, secs, id, backup, fault, ops);
    LastWriterWins(s.files, ops, k);
  }

  lemma LastWriterWins(files: map<string, string>, ops: seq<Op>, k: nat)
    requires k < |ops| && forall j :: k < j < |ops| ==> ops[j].rel != ops[k].rel
    ensures ops[k].rel in Written(files, ops, |ops|)
    ensures Written(files, ops, |ops|)[ops[k].rel] == BodyOf(ops[k].lines)
  {
    WrittenAt(files, ops, |ops|, ops[k].rel);
    assert Touches(ops, |ops|, ops[k].rel);
  }

  lemma AppliedFiles(s: Store, secs: seq<Section>, id: string, backup: bool, fault: Fault, ops: seq<Op>)
    requires Plan(s.files, secs) == Success(ops) && ApplyPatch(s, secs, id, backup, fault).1.Applied?
    ensures ApplyPatch(s, secs, id, backup, fault).0.files == Written(s.files, ops, |ops|)
  {
  }

  lemma PlannedTarget(files: map<string, string>, sec: Section, op: Op)
    requires PlanOne(files, sec) == Success(op)
    ensures op.rel == sec.rel
  {
  }

  lemma PlannedLines(files: map<string, string>, sec: Section, op: Op)
    requires PlanOne(files, sec) == Success(op) && (sec.isNew || H.Separate(sec.hunks))
    ensures sec.isNew || sec.rel in files
    ensures op == Op(sec.rel, BlockLines(files, sec))
  {
    if sec.isNew {
      AllNewLines(sec.hunks);
    } else {
      P.FarPatchIsSplice(LinesOf(ReadText(files[sec.rel])), sec.hunks);
    }
  }

  // ---------------------------------------------------------------------------------------------
  // Undo
  // ---------------------------------------------------------------------------------------------

  // Existing targets that share a backup name hold the same text.
  ghost predicate NoClash(files: map<string, string>, ops: seq<Op>) {
    forall i, j :: 0 <= i < |ops| && 0 <= j < |ops| && ops[i].rel in files && ops[j].rel in files
                   && Flattened(ops[i].rel) == Flattened(ops[j].rel)
                   ==> ReadText(files[ops[i].rel]) == ReadText(files[ops[j].rel])
  }

  // As a caller can see to it: all targets are plain paths.
  lemma PlainTargetsApart(files: map<string, string>, ops: seq<Op>)
    requires forall i :: 0 <= i < |ops| ==> PlainPath(ops[i].rel)
    ensures NoClash(files, ops)
  {
    forall i, j | 0 <= i < |ops| && 0 <= j < |ops| && Flattened(ops[i].rel) == Flattened(ops[j].rel)
      ensures ops[i].rel == ops[j].rel
    {
      SafeNameSpelled(ops[i].rel);
      SafeNameSpelled(ops[j].rel);
      PlainPathsApart(ops[i].rel, ops[j].rel);
    }
  }

  lemma {:induction false} CopyComesFromTarget(start: map<string, string>, before: map<string, string>, ops: seq<Op>, n: nat, k: nat)
    returns (j: nat)
    requires k < n <= |ops| && ops[k].rel in before
    ensures j < n && ops[j].rel in before && SafeName(ops[j].rel) == SafeName(ops[k].rel)
    ensures SafeName(ops[k].rel) in Copies(start, before, ops, n)
    ensures Copies(start, before, ops, n)[SafeName(ops[k].rel)] == ReadText(before[ops[j].rel])
  {
    if ops[n - 1].rel in before && SafeName(ops[n - 1].rel) == SafeName(ops[k].rel) {
      j := n - 1;
    } else {
      j := CopyComesFromTarget(start, before, ops, n - 1, k);
    }
  }

  // Entries whose copies exist are all restored, each path to its own copy.
  lemma {:induction false} RestoreEntriesAt(files: map<string, string>, copies: map<string, string>, es: seq<Entry>, p: string)
    requires forall e :: e in es && e.saved.Some? ==> e.saved.value in copies
    requires forall e, e' :: e in es && e' in es && e.rel == e'.rel ==> e == e'
    ensures RestoreEntries(files, copies, es).1 == Restored
    ensures (forall e :: e in es ==> e.rel != p) ==> SameAt(RestoreEntries(files, copies, es).0, files, p)
    ensures forall e :: e in es && e.rel == p ==>
              var r := RestoreEntries(files, copies, es).0;
              if e.saved.None? then p !in r else p in r && r[p] == ReadText(copies[e.saved.value])
    decreases |es|
  {
    if es != [] {
      var rel := es[0].rel;
      assert es == [es[0]] + es[1..];
      var files' := if es[0].saved.None? then files - {rel} else files[rel := ReadText(copies[es[0].saved.value])];
      RestoreEntriesAt(files', copies, es[1..], p);
      assert RestoreEntries(files, copies, es) == RestoreEntries(files', copies, es[1..]);
    }
  }

  lemma EntriesUsable(s: Store, ops: seq<Op>, id: string)
    ensures var b := BackupOf(s, ops, id);
            && (forall e :: e in b.manifest.value && e.saved.Some? ==> e.saved.value in b.copies)
            && (forall e, e' :: e in b.manifest.value && e' in b.manifest.value && e.rel == e'.rel ==> e == e')
  {
    var b := BackupOf(s, ops, id);
    var start := if id in s.vault then s.vault[id].copies else map[];
    forall e | e in b.manifest.value
      ensures e == EntryOf(s.files, e.rel) && (e.saved.Some? ==> e.saved.value in b.copies)
    {
      var k :| 0 <= k < |ops| && b.manifest.value[k] == e;
      if e.saved.Some? {
        var j := CopyComesFromTarget(start, s.files, ops, |ops|, k);
      }
    }
  }

  // Rolling back one id, at any later time, touches exactly the files of that patch.
  lemma RollbackAt(s: Store, ops: seq<Op>, id: string, t: Store, p: string)
    requires id in t.vault && t.vault[id] == BackupOf(s, ops, id)
    ensures RollbackId(t, id).1 == Restored
    ensures p !in Targets(ops) ==> SameAt(RollbackId(t, id).0.files, t.files, p)
    ensures p in Targets(ops) ==>
              var r := RollbackId(t, id).0.files;
              && (p in r <==> p in s.files)
              && (p in s.files ==> SafeName(p) in t.vault[id].copies && r[p] == ReadText(t.vault[id].copies[SafeName(p)]))
  {
    var b := BackupOf(s, ops, id);
    EntriesUsable(s, ops, id);
    RestoreEntriesAt(t.files, b.copies, b.manifest.value, p);
    TargetsTouched(ops, p);
    if p in Targets(ops) {
      var k :| 0 <= k < |ops| && ops[k].rel == p;
      assert b.manifest.value[k] == EntryOf(s.files, p);
      assert EntryOf(s.files, p) in b.manifest.value;
    } else {
      forall e | e in b.manifest.value
        ensures e.rel != p
      {
        var k :| 0 <= k < |ops| && b.manifest.value[k] == e;
      }
    }
  }

  // Undo of one patch by its id: every file it touched gets its earlier text back, or disappears
  // again, exactly when no two of its existing targets with different texts share a backup name.
  lemma RollbackRestoresTargets(s: Store, ops: seq<Op>, id: string, t: Store)
    requires id in t.vault && t.vault[id] == BackupOf(s, ops, id)
    ensures RollbackId(t, id).1 == Restored && RollbackId(t, id).0.vault == t.vault
    ensures (forall p :: p in Targets(ops) ==> TextAt(RollbackId(t, id).0.files, s.files, p)) <==> NoClash(s.files, ops)
    ensures forall p :: p !in Targets(ops) ==> SameAt(RollbackId(t, id).0.files, t.files, p)
  {
    var r, b := RollbackId(t, id).0.files, BackupOf(s, ops, id);
    var start := if id in s.vault then s.vault[id].copies else map[];
    forall p
      ensures p !in Targets(ops) ==> SameAt(r, t.files, p)
    {
      RollbackAt(s, ops, id, t, p);
    }
    RollbackAt(s, ops, id, t, "");
    if NoClash(s.files, ops) {
      forall p | p in Targets(ops)
        ensures TextAt(r, s.files, p)
      {
        RollbackAt(s, ops, id, t, p);
        TargetsTouched(ops, p);
        if p in s.files {
          var k :| 0 <= k < |ops| && ops[k].rel == p;
          var j := CopyComesFromTarget(start, s.files, ops, |ops|, k);
          SafeNameSpelled(ops[j].rel);
          SafeNameSpelled(ops[k].rel);
          assert ReadText(s.files[ops[j].rel]) == ReadText(s.files[ops[k].rel]);
          ReadTextTwice(s.files[p]);
        }
      }
    }
    if forall p :: p in Targets(ops) ==> TextAt(r, s.files, p) {
      forall i, j | 0 <= i < |ops| && 0 <= j < |ops| && ops[i].rel in s.files && ops[j].rel in s.files
                    && Flattened(ops[i].rel) == Flattened(ops[j].rel)
        ensures ReadText(s.files[ops[i].rel]) == ReadText(s.files[ops[j].rel])
      {
        SafeNameSpelled(ops[i].rel);
        SafeNameSpelled(ops[j].rel);
        assert ops[i] in ops && ops[j] in ops;
        assert TextAt(r, s.files, ops[i].rel) && TextAt(r, s.files, ops[j].rel);
        RollbackAt(s, ops, id, t, ops[i].rel);
        RollbackAt(s, ops, id, t, ops[j].rel);
      }
    }
  }

  // Undo of one patch whose existing targets are plain paths.
  lemma PlainRollbackRestores(s: Store, ops: seq<Op>, id: string, t: Store)
    requires id in t.vault && t.vault[id] == BackupOf(s, ops, id)
    requires forall i :: 0 <= i < |ops| ==> PlainPath(ops[i].rel)
    ensures RollbackId(t, id).1 == Restored
    ensures forall p :: p in Targets(ops) ==> TextAt(RollbackId(t, id).0.files, s.files, p)
  {
    PlainTargetsApart(s.files, ops);
    RollbackRestoresTargets(s, ops, id, t);
  }

  lemma SameSafeName()
    ensures SafeName("a/b") == "a__b" && SafeName("a__b") == "a__b"
  {
  }

  // Patching "a/b" and "a__b" together saves both under one name: the undo gives the first file the
  // text of the second.
  lemma SharedBackupNameMixesFiles(s: Store, ops: seq<Op>, id: string, t: Store)
    requires s.files == map["a/b" := "x", "a__b" := "y"] && |ops| == 2 && ops[0].rel == "a/b" && ops[1].rel == "a__b"
    requires id in t.vault && t.vault[id] == BackupOf(s, ops, id)
    ensures RollbackId(t, id).1 == Restored
    ensures "a/b" in RollbackId(t, id).0.files && RollbackId(t, id).0.files["a/b"] == "y" != s.files["a/b"]
  {
    SameSafeName();
    assert ops[0] in ops;
    RollbackAt(s, ops, id, t, "a/b");
    ReadTextFaithful("y");
    assert "a/b"[1] != "a__b"[1];
    var start := if id in s.vault then s.vault[id].copies else map[];
    assert Copies(start, s.files, ops, 2)["a__b"] == ReadText(s.files["a__b"]);
    assert "x"[0] != "y"[0];
  }

  // Undo goes through exactly if every copy the manifest names is there.
  lemma {:induction false} RestoredExactly(files: map<string, string>, copies: map<string, string>, es: seq<Entry>)
    ensures RestoreEntries(files, copies, es).1.Restored? || RestoreEntries(files, copies, es).1.CopyMissing?
    ensures RestoreEntries(files, copies, es).1 == Restored <==> forall e :: e in es && e.saved.Some? ==> e.saved.value in copies
    ensures RestoreEntries(files, copies, es).1.CopyMissing? ==> RestoreEntries(files, copies, es).1.name !in copies
    decreases |es|
  {
    if es != [] {
      assert es == [es[0]] + es[1..];
      if es[0].saved.None? {
        RestoredExactly(files - {es[0].rel}, copies, es[1..]);
      } else if es[0].saved.value in copies {
        RestoredExactly(files[es[0].rel := ReadText(copies[es[0].saved.value])], copies, es[1..]);
      } else {
        assert es[0] in es;
      }
    }
  }

  // Without an id to go by nothing is touched, ...
  lemma NothingToUndo(s: Store, which: Option<string>)
    requires !s.last.Points? && (which.None? || Strip(which.value) == "")
    ensures Rollback(s, which) == (s, MarkerUnusable)
  {
  }

  // ... nor with one that has no complete backup.
  lemma UnknownBackup(s: Store, which: string)
    requires var id := Strip(which); id != "" && (id !in s.vault || s.vault[id].manifest.None?)
    ensures Rollback(s, Some(which)) == (s, NoBackup)
  {
  }

  // An id given explicitly is the one rolled back, blanks around it aside; a blank one stands for the
  // last success.
  lemma RequestedExactly(s: Store, id: string, which: Option<string>)
    requires Strip(id) == id != "" && s.last == Points(id)
    ensures Rollback(s, Some(id)) == RollbackId(s, id)
    ensures which.None? || Strip(which.value) == "" ==> Rollback(s, which) == RollbackId(s, id)
    ensures which.Some? && Strip(which.value) != "" ==> Rollback(s, which) == RollbackId(s, Strip(which.value))
  {
  }

  // ---------------------------------------------------------------------------------------------
  // Undoing a whole series of patches
  // ---------------------------------------------------------------------------------------------

  datatype Request = Request(secs: seq<Section>, id: string)

  function Next(s: Store, q: Request): Store { ApplyPatch(s, q.secs, q.id, true, NoFault).0 }

  // Every patch of the series is applied, under an id not used before.
  ghost predicate AllApplied(s: Store, qs: seq<Request>)
    decreases |qs|
  {
    qs == [] ||
    (&& qs[0].id !in s.vault
     && ApplyPatch(s, qs[0].secs, qs[0].id, true, NoFault).1.Applied?
     && NoClash(s.files, Plan(s.files, qs[0].secs).value)
     && AllApplied(Next(s, qs[0]), qs[1..]))
  }

  function AfterAll(s: Store, qs: seq<Request>): Store
    decreases |qs|
  {
    if qs == [] then s else AfterAll(Next(s, qs[0]), qs[1..])
  }

  // Rolling the ids back, newest first.
  function UndoAll(t: Store, qs: seq<Request>): (Store, bool)
    decreases |qs|
  {
    if qs == [] then (t, true)
    else
      var (u, ok) := UndoAll(t, qs[1..]);
      var (v, out) := RollbackId(u, qs[0].id);
      (v, ok && out == Restored)
  }

  ghost function TouchedByAll(s: Store, qs: seq<Request>): set<string>
    requires AllApplied(s, qs)
    decreases |qs|
  {
    if qs == [] then {} else Targets(Plan(s.files, qs[0].secs).value) + TouchedByAll(Next(s, qs[0]), qs[1..])
  }

  lemma {:induction false} BackupsKept(s: Store, qs: seq<Request>, id: string)
    requires AllApplied(s, qs) && id in s.vault
    ensures id in AfterAll(s, qs).vault && AfterAll(s, qs).vault[id] == s.vault[id]
    decreases |qs|
  {
    if qs != [] {
      BackupsKept(Next(s, qs[0]), qs[1..], id);
    }
  }

  lemma {:induction false} UndoKeepsVault(t: Store, qs: seq<Request>)
    ensures UndoAll(t, qs).0.vault == t.vault
  {
    if qs != [] {
      UndoKeepsVault(t, qs[1..]);
    }
  }

  // Main result on undo: however many patches were applied, rolling their ids back in reverse order
  // succeeds and gives every touched file the text it had at the start, or removes it again.
  lemma {:induction false} UndoSeriesRestores(s: Store, qs: seq<Request>)
    requires AllApplied(s, qs)
    ensures UndoAll(AfterAll(s, qs), qs).1
    ensures UndoAll(AfterAll(s, qs), qs).0.files == Reread(s.files, TouchedByAll(s, qs))
    ensures UndoAll(AfterAll(s, qs), qs).0.files == s.files <==> NoReturns(s.files, TouchedByAll(s, qs))
    decreases |qs|
  {
    RereadExact(s.files, TouchedByAll(s, qs));
    if qs == [] {
      assert Reread(s.files, {}) == s.files;
    } else {
      var q, s1, t := qs[0], Next(s, qs[0]), AfterAll(s, qs);
      var ops := Plan(s.files, q.secs).value;
      UndoSeriesRestores(s1, qs[1..]);
      UndoKeepsVault(t, qs[1..]);
      BackupsKept(s1, qs[1..], q.id);
      var u := UndoAll(t, qs[1..]).0;
      RollbackRestoresTargets(s, ops, q.id, u);
      UndoStep(s, q, ops, u, TouchedByAll(s1, qs[1..]));
    }
  }

  // What a caller can see to: applied under fresh ids, ...
  ghost predicate AllFresh(s: Store, qs: seq<Request>)
    decreases |qs|
  {
    qs == [] ||
    (&& qs[0].id !in s.vault
     && ApplyPatch(s, qs[0].secs, qs[0].id, true, NoFault).1.Applied?
     && AllFresh(Next(s, qs[0]), qs[1..]))
  }

  // ... naming plain paths only.
  ghost predicate AllPlain(qs: seq<Request>) {
    forall q, sec :: q in qs && sec in q.secs ==> PlainPath(sec.rel)
  }

  function NamedBy(qs: seq<Request>): set<string> {
    set q, sec | q in qs && sec in q.secs :: sec.rel
  }

  lemma PlannedNames(files: map<string, string>, secs: seq<Section>)
    requires Plan(files, secs).Success?
    ensures forall p :: p in Targets(Plan(files, secs).value) <==> exists sec :: sec in secs && sec.rel == p
  {
    var ops := Plan(files, secs).value;
    PlanIsPerSection(files, secs);
    forall k | 0 <= k < |secs|
      ensures ops[k].rel == secs[k].rel && ops[k] in ops && secs[k] in secs
    {
      PlannedTarget(files, secs[k], ops[k]);
    }
  }

  lemma {:induction false} PlainSeriesApplied(s: Store, qs: seq<Request>)
    requires AllFresh(s, qs) && AllPlain(qs)
    ensures AllApplied(s, qs) && TouchedByAll(s, qs) == NamedBy(qs)
    decreases |qs|
  {
    if qs != [] {
      var ops := Plan(s.files, qs[0].secs).value;
      PlannedNames(s.files, qs[0].secs);
      forall i | 0 <= i < |ops|
        ensures PlainPath(ops[i].rel)
      {
        assert ops[i] in ops && ops[i].rel in Targets(ops);
        var sec :| sec in qs[0].secs && sec.rel == ops[i].rel;
        assert qs[0] in qs;
      }
      PlainTargetsApart(s.files, ops);
      assert qs == [qs[0]] + qs[1..];
      PlainSeriesApplied(Next(s, qs[0]), qs[1..]);
      assert forall p :: p in NamedBy(qs) <==> p in Targets(ops) || p in NamedBy(qs[1..]);
    }
  }

  // So for plain paths and fresh ids every undo restores, with nothing else to be checked.
  lemma {:induction false} PlainSeriesRestores(s: Store, qs: seq<Request>)
    requires AllFresh(s, qs) && AllPlain(qs)
    ensures UndoAll(AfterAll(s, qs), qs).1
    ensures UndoAll(AfterAll(s, qs), qs).0.files == Reread(s.files, NamedBy(qs))
    ensures UndoAll(AfterAll(s, qs), qs).0.files == s.files <==> NoReturns(s.files, NamedBy(qs))
  {
    PlainSeriesApplied(s, qs);
    UndoSeriesRestores(s, qs);
  }

  lemma UndoStep(s: Store, q: Request, ops: seq<Op>, u: Store, later: set<string>)
    requires Plan(s.files, q.secs) == Success(ops)
    requires ApplyPatch(s, q.secs, q.id, true, NoFault).1.Applied?
    requires u.files == Reread(Next(s, q).files, later)
    requires forall p :: p in Targets(ops) ==> TextAt(RollbackId(u, q.id).0.files, s.files, p)
    requires forall p :: p !in Targets(ops) ==> SameAt(RollbackId(u, q.id).0.files, u.files, p)
    ensures RollbackId(u, q.id).0.files == Reread(s.files, Targets(ops) + later)
  {
    var r, goal := RollbackId(u, q.id).0.files, Reread(s.files, Targets(ops) + later);
    forall p
      ensures SameAt(r, goal, p)
    {
      if p in Targets(ops) {
        assert TextAt(r, s.files, p);
      } else {
        AppliedPatchWrites(s, q.secs, q.id, true, NoFault, p);
        assert SameAt(r, u.files, p);
      }
    }
    SameEverywhere(r, goal);
  }
}
