// Cloud synchronisation (core/sync_daemon.py): merging the manifests of several tenants, finding what
// to download, and what a cycle of downloads leaves behind.
module CloudSync {
  import opened Versions
  import opened Wrappers

  // ---------------------------------------------------------------------------------------------
  // Merging manifests
  // ---------------------------------------------------------------------------------------------

  datatype Item = Item(id: string, version: Option<string>, url: string, itemType: Option<string>, tier: Option<string>)

  // `value or default` on an optional string.
  function Or(v: Option<string>, default: string): string {
    if v.Some? && v.value != "" then v.value else default
  }

  // Merging only looks at how the items' versions compare.
  type Ranking = Item -> Version

  function VersionOf(item: Item): Version { Parse(Some(Or(item.version, "0.0.0"))) }

  predicate Newer(rank: Ranking, a: Item, b: Item) { Above(rank(a), rank(b)) }

  function IndexOfId(best: seq<Item>, id: string): (k: nat)
    ensures k <= |best|
    ensures k < |best| ==> best[k].id == id
    ensures forall j :: 0 <= j < k ==> best[j].id != id
  {
    if best == [] || best[0].id == id then 0 else 1 + IndexOfId(best[1..], id)
  }

  // The dict of best items in insertion order: replacing a value keeps its place.
  function Absorb(rank: Ranking, best: seq<Item>, item: Item): seq<Item> {
    var k := IndexOfId(best, item.id);
    if item.id == "" then best
    else if k == |best| then best + [item]
    else if Newer(rank, item, best[k]) then best[k := item]
    else best
  }

  function Fold(rank: Ranking, best: seq<Item>, items: seq<Item>): seq<Item>
    decreases |items|
  {
    if items == [] then best else Fold(rank, Absorb(rank, best, items[0]), items[1..])
  }

  function Flatten(chunks: seq<seq<Item>>): seq<Item> {
    if chunks == [] then [] else chunks[0] + Flatten(chunks[1..])
  }

  function Merge(rank: Ranking, items: seq<Item>): seq<Item> { Fold(rank, [], items) }

  method MergeManifests(chunks: seq<seq<Item>>) returns (merged: seq<Item>)
    ensures merged == Merge(VersionOf, Flatten(chunks))
  {
    merged := MergeRanked(chunks, VersionOf);
  }

  method MergeRanked(chunks: seq<seq<Item>>, rank: Ranking) returns (merged: seq<Item>)
    ensures merged == Merge(rank, Flatten(chunks))
  {
    merged := [];
    for c := 0 to |chunks|
      invariant Fold(rank, merged, Flatten(chunks[c..])) == Merge(rank, Flatten(chunks))
    {
      assert chunks[c..][0] == chunks[c] && chunks[c..][1..] == chunks[c + 1..];
      FoldAppend(rank, merged, chunks[c], Flatten(chunks[c + 1..]));
      merged := MergeChunk(merged, chunks[c], rank);
    }
  }

  method MergeChunk(best: seq<Item>, chunk: seq<Item>, rank: Ranking) returns (merged: seq<Item>)
    ensures merged == Fold(rank, best, chunk)
  {
    merged := best;
    for i := 0 to |chunk|
      invariant Fold(rank, merged, chunk[i..]) == Fold(rank, best, chunk)
    {
      assert chunk[i..][0] == chunk[i] && chunk[i..][1..] == chunk[i + 1..];
      merged := MergeItem(merged, chunk[i], rank);
    }
    assert chunk[|chunk|..] == [];
  }

  method MergeItem(best: seq<Item>, item: Item, rank: Ranking) returns (merged: seq<Item>)
    ensures merged == Absorb(rank, best, item)
  {
    if item.id == "" { return best; }
    var k := 0;
    while k < |best| && best[k].id != item.id
      invariant k <= |best| && forall j :: 0 <= j < k ==> best[j].id != item.id
    {
      k := k + 1;
    }
    if k == |best| {
      merged := best + [item];
    } else if Newer(rank, item, best[k]) {
      merged := best[k := item];
    } else {
      merged := best;
    }
  }

  lemma {:induction false} FoldAppend(rank: Ranking, best: seq<Item>, a: seq<Item>, b: seq<Item>)
    ensures Fold(rank, best, a + b) == Fold(rank, Fold(rank, best, a), b)
    decreases |a|
  {
    if a == [] {
      assert a + b == b;
    } else {
      assert (a + b)[0] == a[0] && (a + b)[1..] == a[1..] + b;
      FoldAppend(rank, Absorb(rank, best, a[0]), a[1..], b);
    }
  }

  ghost predicate DistinctIds(items: seq<Item>) {
    forall i, j :: 0 <= i < j < |items| ==> items[i].id != items[j].id
  }

  // Ids in the order in which they are first seen.
  function FirstSeen(items: seq<Item>): seq<string> {
    if items == [] then []
    else
      var n := |items| - 1;
      var ids := FirstSeen(items[..n]);
      if items[n].id == "" || items[n].id in ids then ids else ids + [items[n].id]
  }

  function Ids(items: seq<Item>): seq<string> {
    seq(|items|, k requires 0 <= k < |items| => items[k].id)
  }

  // The first among the items of its id with the highest version.
  ghost predicate Wins(rank: Ranking, items: seq<Item>, i: nat) {
    && i < |items| && items[i].id != ""
    && (forall j :: 0 <= j < i && items[j].id == items[i].id ==> Newer(rank, items[i], items[j]))
    && (forall j :: i < j < |items| && items[j].id == items[i].id ==> !Newer(rank, items[j], items[i]))
  }

  ghost predicate HoldsWinners(rank: Ranking, items: seq<Item>, best: seq<Item>) {
    && Ids(best) == FirstSeen(items)
    && DistinctIds(best)
    && (forall k :: 0 <= k < |best| ==> Winner(rank, items, best[k]))
  }

  ghost predicate Winner(rank: Ranking, items: seq<Item>, x: Item) {
    exists i: nat :: Wins(rank, items, i) && items[i] == x
  }

  lemma {:induction false} FirstSeenExact(items: seq<Item>, id: string)
    ensures id in FirstSeen(items) <==> id != "" && exists i :: 0 <= i < |items| && items[i].id == id
  {
    if items != [] {
      var n := |items| - 1;
      FirstSeenExact(items[..n], id);
      FirstSeenExact(items[..n], items[n].id);
      SeenLast(items, id);
    }
  }

  lemma SeenLast(items: seq<Item>, id: string)
    requires items != []
    ensures var n := |items| - 1;
            (exists i :: 0 <= i < |items| && items[i].id == id)
            <==> items[n].id == id || exists i :: 0 <= i < n && items[..n][i].id == id
  {
    var n := |items| - 1;
    if i :| 0 <= i < |items| && items[i].id == id && i < n {
      assert items[..n][i].id == id;
    }
    if i :| 0 <= i < n && items[..n][i].id == id {
      assert items[i].id == id;
    }
  }

  lemma FoldLast(rank: Ranking, items: seq<Item>)
    requires items != []
    ensures Merge(rank, items) == Absorb(rank, Merge(rank, items[..|items| - 1]), items[|items| - 1])
  {
    var n := |items| - 1;
    assert items == items[..n] + [items[n]];
    FoldAppend(rank, [], items[..n], [items[n]]);
    assert [items[n]][1..] == [];
    assert Fold(rank, Merge(rank, items[..n]), [items[n]]) == Fold(rank, Absorb(rank, Merge(rank, items[..n]), items[n]), []);
  }

  lemma WinnerStays(rank: Ranking, items: seq<Item>, i: nat)
    requires items != [] && i < |items| - 1 && Wins(rank, items[..|items| - 1], i)
    requires items[i].id == items[|items| - 1].id ==> !Newer(rank, items[|items| - 1], items[i])
    ensures Wins(rank, items, i)
  {
  }

  lemma WinnerBeaten(rank: Ranking, items: seq<Item>, i: nat)
    requires items != [] && i < |items| - 1 && Wins(rank, items[..|items| - 1], i)
    requires items[i].id == items[|items| - 1].id && Newer(rank, items[|items| - 1], items[i])
    ensures Wins(rank, items, |items| - 1)
  {
  }

  lemma AbsorbIds(rank: Ranking, best: seq<Item>, item: Item)
    ensures Ids(Absorb(rank, best, item))
            == if item.id == "" || item.id in Ids(best) then Ids(best) else Ids(best) + [item.id]
  {
    var k, after := IndexOfId(best, item.id), Absorb(rank, best, item);
    if item.id != "" {
      if k == |best| {
        assert item.id !in Ids(best);
        assert Ids(after) == Ids(best) + [item.id];
      } else {
        assert Ids(best)[k] == item.id;
        assert Ids(after) == Ids(best);
      }
    }
  }

  lemma AbsorbKeepsDistinct(rank: Ranking, best: seq<Item>, item: Item)
    requires DistinctIds(best)
    ensures DistinctIds(Absorb(rank, best, item))
  {
  }

  lemma {:induction false} AbsorbKeepsIds(rank: Ranking, items: seq<Item>, best: seq<Item>)
    requires items != [] && Ids(best) == FirstSeen(items[..|items| - 1]) && DistinctIds(best)
    ensures Ids(Absorb(rank, best, items[|items| - 1])) == FirstSeen(items)
    ensures DistinctIds(Absorb(rank, best, items[|items| - 1]))
  {
    AbsorbIds(rank, best, items[|items| - 1]);
    AbsorbKeepsDistinct(rank, best, items[|items| - 1]);
  }

  lemma WinnerUpdated(rank: Ranking, items: seq<Item>, x: Item)
    requires items != [] && Winner(rank, items[..|items| - 1], x)
    ensures var item := items[|items| - 1];
            Winner(rank, items, if item.id == x.id && Newer(rank, item, x) then item else x)
  {
    var head, item := items[..|items| - 1], items[|items| - 1];
    var i: nat :| Wins(rank, head, i) && head[i] == x;
    if item.id == x.id && Newer(rank, item, x) {
      WinnerBeaten(rank, items, i);
    } else {
      WinnerStays(rank, items, i);
    }
  }

  lemma AbsorbKeepsWinners(rank: Ranking, items: seq<Item>, best: seq<Item>)
    requires items != [] && HoldsWinners(rank, items[..|items| - 1], best)
    ensures HoldsWinners(rank, items, Absorb(rank, best, items[|items| - 1]))
  {
    var item := items[|items| - 1];
    var k, after := IndexOfId(best, item.id), Absorb(rank, best, item);
    AbsorbKeepsIds(rank, items, best);
    if item.id != "" && k == |best| {
      NewIdWins(rank, items, best);
    }
    forall j | 0 <= j < |after|
      ensures Winner(rank, items, after[j])
    {
      if j < |best| {
        WinnerHasId(rank, items[..|items| - 1], best[j]);
        WinnerUpdated(rank, items, best[j]);
      }
    }
  }

  lemma WinnerHasId(rank: Ranking, items: seq<Item>, x: Item)
    requires Winner(rank, items, x)
    ensures x.id != ""
  {
  }

  lemma NewIdWins(rank: Ranking, items: seq<Item>, best: seq<Item>)
    requires items != [] && items[|items| - 1].id != "" && Ids(best) == FirstSeen(items[..|items| - 1])
    requires forall j :: 0 <= j < |best| ==> best[j].id != items[|items| - 1].id
    ensures Wins(rank, items, |items| - 1)
    ensures items[|items| - 1].id !in FirstSeen(items[..|items| - 1])
  {
    var n, head := |items| - 1, items[..|items| - 1];
    assert items[n].id !in Ids(best);
    FirstSeenExact(head, items[n].id);
    forall j | 0 <= j < n
      ensures items[j].id != items[n].id
    {
      assert head[j] == items[j];
    }
  }

  // Main result on merging: one item per id, in the order the ids are first seen, and for each id
  // the first of its items with the highest version.  It holds for any ranking; the program's own
  // is VersionOf.
  lemma {:induction false} MergeKeepsWinners(rank: Ranking, items: seq<Item>)
    ensures HoldsWinners(rank, items, Merge(rank, items))
  {
    if items == [] {
      assert Ids(Merge(rank, items)) == [];
    } else {
      MergeKeepsWinners(rank, items[..|items| - 1]);
      FoldLast(rank, items);
      AbsorbKeepsWinners(rank, items, Merge(rank, items[..|items| - 1]));
    }
  }

  lemma {:induction false} FoldDistinct(rank: Ranking, best: seq<Item>, items: seq<Item>)
    requires DistinctIds(best + items) && forall k :: 0 <= k < |items| ==> items[k].id != ""
    ensures Fold(rank, best, items) == best + items
    decreases |items|
  {
    if items == [] {
      assert best + items == best;
    } else {
      var k := IndexOfId(best, items[0].id);
      assert forall i :: 0 <= i < |best| ==> (best + items)[i] == best[i];
      assert (best + items)[|best|] == items[0];
      assert (best + [items[0]]) + items[1..] == best + items;
      FoldDistinct(rank, best + [items[0]], items[1..]);
    }
  }

  lemma WinnersHaveIds(rank: Ranking, items: seq<Item>, best: seq<Item>)
    requires HoldsWinners(rank, items, best)
    ensures forall k :: 0 <= k < |best| ==> best[k].id != ""
  {
  }

  // Merging an already merged list with further tenants gives what merging everything at once does.
  lemma MergeIncrementally(rank: Ranking, a: seq<Item>, b: seq<Item>)
    ensures Merge(rank, Merge(rank, a) + b) == Merge(rank, a + b)
    ensures Merge(rank, Merge(rank, a)) == Merge(rank, a)
  {
    var m := Merge(rank, a);
    MergeKeepsWinners(rank, a);
    WinnersHaveIds(rank, a, m);
    assert [] + m == m;
    FoldDistinct(rank, [], m);
    FoldAppend(rank, [], m, b);
    FoldAppend(rank, [], a, b);
  }

  // A missing version counts as "0.0.0", for any reader to whom these are the same.
  lemma DefaultedVersion(parse: Option<string> -> Version, v: Option<string>)
    requires parse(None) == parse(Some("")) == parse(Some("0.0.0"))
    ensures parse(Some(Or(v, "0.0.0"))) == parse(v)
  {
  }

  // The program's ranking is that of the versions.
  lemma NewerIsHigher(a: Item, b: Item)
    ensures Newer(VersionOf, a, b) <==> Compare(a.version, b.version) > 0
  {
    assert NumeralValue("0") == 0 by {
      DigitsRead(0);
      assert Digits(0) == "0";
    }
    RenderedVersionParses("0.0.0", "0", "0", "0", "");
    DefaultedVersion(Parse, a.version);
    DefaultedVersion(Parse, b.version);
    AboveIsOrder(Parse(a.version), Parse(b.version));
  }

  lemma AboveIsOrder(v: Version, w: Version)
    ensures Above(v, w) <==> Order(v, w) > 0
  {
  }

  // Main result on the program's merge: every item it keeps stands in some manifest, has a strictly higher
  // version than all items of its id before it, and no later one has a higher version.
  lemma MergeKeepsNewest(items: seq<Item>, x: Item) returns (i: nat)
    requires x in Merge(VersionOf, items)
    ensures i < |items| && items[i] == x && x.id != ""
    ensures forall j :: 0 <= j < i && items[j].id == x.id ==> Compare(x.version, items[j].version) > 0
    ensures forall j :: i <= j < |items| && items[j].id == x.id ==> Compare(items[j].version, x.version) <= 0
  {
    MergeKeepsWinners(VersionOf, items);
    i := WinnerAt(VersionOf, items, x);
    forall j | 0 <= j < |items| && items[j].id == x.id
      ensures j < i ==> Compare(x.version, items[j].version) > 0
      ensures j >= i ==> Compare(items[j].version, x.version) <= 0
    {
      NewerIsHigher(x, items[j]);
      NewerIsHigher(items[j], x);
      if j == i { CompareIsPreorder(x.version, x.version, x.version); }
    }
  }

  lemma WinnerAt(rank: Ranking, items: seq<Item>, x: Item) returns (i: nat)
    requires HoldsWinners(rank, items, Merge(rank, items)) && x in Merge(rank, items)
    ensures Wins(rank, items, i) && items[i] == x
  {
    var best := Merge(rank, items);
    var k :| 0 <= k < |best| && best[k] == x;
    assert Winner(rank, items, best[k]);
    i :| Wins(rank, items, i) && items[i] == x;
  }

  // And every id that stands in a manifest is kept, once.
  lemma MergeKeepsEveryId(items: seq<Item>, j: nat)
    requires j < |items| && items[j].id != ""
    ensures DistinctIds(Merge(VersionOf, items))
    ensures exists k :: 0 <= k < |Merge(VersionOf, items)| && Merge(VersionOf, items)[k].id == items[j].id
  {
    MergeKeepsWinners(VersionOf, items);
    FirstSeenExact(items, items[j].id);
    var best := Merge(VersionOf, items);
    assert items[j].id in Ids(best);
    var k :| 0 <= k < |Ids(best)| && Ids(best)[k] == items[j].id;
    assert best[k].id == items[j].id;
  }

  // ---------------------------------------------------------------------------------------------
  // Local inventory, diff and download
  // ---------------------------------------------------------------------------------------------

  datatype Tier = Skill | L3Local | Gateway

  // Where an item is kept: skills/, l3_mcps/ or mcps/, by id.
  datatype Place = Place(tier: Tier, id: string)

  datatype Meta = Meta(url: string, version: Option<string>)

  // `present`: the directory (or gateway file) exists; `meta`: its .sync_meta, if readable.
  datatype Entry = Entry(present: bool, meta: Option<Meta>)

  type Inventory = map<Place, Entry>

  function EntryAt(inv: Inventory, p: Place): Entry { if p in inv then inv[p] else Entry(false, None) }

  function Upper(s: string): string {
    seq(|s|, k requires 0 <= k < |s| => if 'a' <= s[k] <= 'z' then s[k] - 32 as char else s[k])
  }

  function TierOf(item: Item): Option<Tier> {
    match item.itemType
    case None => Some(Skill)
    case Some(t) =>
      if t == "SKILL" then Some(Skill)
      else if t != "MCP" then None
      else if Upper(Or(item.tier, "L2_GATEWAY")) == "L3_LOCAL" then Some(L3Local)
      else Some(Gateway)
  }

  predicate NeedsUpdate(item: Item, e: Entry) {
    || !e.present
    || e.meta.None? || e.meta.value.url != item.url
    || Or(e.meta.value.version, "") == ""
    || Compare(Some(Or(item.version, "1.0.0")), e.meta.value.version) > 0
  }

  // What a successful download leaves behind.
  function Stored(url: string, item: Item): Entry {
    Entry(true, Some(Meta(url, Some(Or(item.version, "1.0.0")))))
  }

  // When an entry is outdated, and what the user has uninstalled for good.
  datatype Policy = Policy(outdated: (Item, Entry) -> bool, uninstalled: set<string>) {
    // All that cycles rely on: an entry that is up to date has the item's URL; an item just stored is up
    // to date exactly if its own URL was stored; and fetching another outdated item of the same URL
    // does not make it outdated.
    ghost predicate Lawful() {
      && (forall item, e :: !outdated(item, e) ==> e.present && e.meta.Some? && e.meta.value.url == item.url)
      && (forall item, url :: outdated(item, Stored(url, item)) <==> url != item.url)
      && (forall item: Item, other: Item, e :: item.url == other.url && !outdated(item, e) && outdated(other, e) ==>
            !outdated(item, Stored(other.url, other)))
    }
  }

  // The program's own.
  function Standard(uninstalled: set<string>): Policy { Policy(NeedsUpdate, uninstalled) }

  predicate Eligible(item: Item, policy: Policy) {
    item.id != "" && item.url != "" && item.id !in policy.uninstalled && TierOf(item).Some?
  }

  function PlaceOf(item: Item): Place
    requires TierOf(item).Some?
  {
    Place(TierOf(item).value, item.id)
  }

  predicate Planned(inv: Inventory, policy: Policy, item: Item) {
    Eligible(item, policy) && policy.outdated(item, EntryAt(inv, PlaceOf(item)))
  }

  function Diff(inv: Inventory, policy: Policy, manifest: seq<Item>): seq<Item> {
    if manifest == [] then []
    else (if Planned(inv, policy, manifest[0]) then [manifest[0]] else []) + Diff(inv, policy, manifest[1..])
  }

  // A failing download may leave anything at the item's own place.
  datatype Download = Fetched | Failed(left: Entry)

  function Store(inv: Inventory, rewrite: string -> string, item: Item, d: Download): Inventory
    requires TierOf(item).Some?
  {
    inv[PlaceOf(item) := Left(rewrite, item, d)]
  }

  // What a download leaves at the item's place.
  function Left(rewrite: string -> string, item: Item, d: Download): Entry {
    match d
    case Fetched => Stored(rewrite(item.url), item)
    case Failed(left) => left
  }

  // The downloads of one cycle, one after the other; `result` says how each of them ends.
  function Cycle(inv: Inventory, rewrite: string -> string, plan: seq<Item>, result: nat -> Download, k: nat): Inventory
    requires forall i :: 0 <= i < |plan| ==> TierOf(plan[i]).Some?
    requires k <= |plan|
  {
    if k == 0 then inv else Store(Cycle(inv, rewrite, plan, result, k - 1), rewrite, plan[k - 1], result(k - 1))
  }

  class CloudSyncDaemon {
    var inventory: Inventory

    constructor (inventory: Inventory)
      ensures this.inventory == inventory
    {
      this.inventory := inventory;
    }

    method DiffManifestVsLocal(uninstalled: set<string>, manifest: seq<Item>) returns (plan: seq<Item>)
      ensures plan == Diff(inventory, Standard(uninstalled), manifest)
    {
      plan := [];
      for k := 0 to |manifest|
        invariant plan + Diff(inventory, Standard(uninstalled), manifest[k..]) == Diff(inventory, Standard(uninstalled), manifest)
      {
        var item := manifest[k];
        assert manifest[k..][0] == item && manifest[k..][1..] == manifest[k + 1..];
        if item.id == "" || item.url == "" || item.id in uninstalled || TierOf(item).None? { continue; }
        var e := EntryAt(inventory, PlaceOf(item));
        if NeedsUpdate(item, e) { plan := plan + [item]; }
      }
    }

    method RunSyncCycle(uninstalled: set<string>, manifest: seq<Item>, rewrite: string -> string, result: nat -> Download)
      modifies this
      ensures var plan := Diff(old(inventory), Standard(uninstalled), manifest);
              && (forall i :: 0 <= i < |plan| ==> TierOf(plan[i]).Some?)
              && inventory == Cycle(old(inventory), rewrite, plan, result, |plan|)
    {
      var plan := DiffManifestVsLocal(uninstalled, manifest);
      DiffHasPlaces(inventory, Standard(uninstalled), manifest);
      for k := 0 to |plan|
        invariant inventory == Cycle(old(inventory), rewrite, plan, result, k)
      {
        inventory := Store(inventory, rewrite, plan[k], result(k));
      }
    }
  }

  // The plan: exactly the manifest items that are eligible and outdated, so none the user has
  // uninstalled for good.
  lemma {:induction false} DiffExact(inv: Inventory, policy: Policy, manifest: seq<Item>)
    ensures forall item :: item in Diff(inv, policy, manifest) <==> item in manifest && Planned(inv, policy, item)
    ensures forall i :: 0 <= i < |Diff(inv, policy, manifest)| ==>
              var item := Diff(inv, policy, manifest)[i];
              TierOf(item).Some? && item.id !in policy.uninstalled
  {
    if manifest != [] {
      DiffExact(inv, policy, manifest[1..]);
    }
    var d := Diff(inv, policy, manifest);
    forall i | 0 <= i < |d|
      ensures TierOf(d[i]).Some? && d[i].id !in policy.uninstalled
    {
      assert d[i] in d;
    }
  }

  // And it is in the order of the manifest: a part of the manifest makes its part of the plan.
  lemma {:induction false} DiffInOrder(inv: Inventory, policy: Policy, a: seq<Item>, b: seq<Item>)
    ensures Diff(inv, policy, a + b) == Diff(inv, policy, a) + Diff(inv, policy, b)
    decreases |a|
  {
    if a == [] {
      assert a + b == b;
    } else {
      assert (a + b)[0] == a[0] && (a + b)[1..] == a[1..] + b;
      DiffInOrder(inv, policy, a[1..], b);
    }
  }

  lemma {:induction false} DiffHasPlaces(inv: Inventory, policy: Policy, manifest: seq<Item>)
    ensures forall i :: 0 <= i < |Diff(inv, policy, manifest)| ==> TierOf(Diff(inv, policy, manifest)[i]).Some?
  {
    DiffExact(inv, policy, manifest);
  }

  // However the downloads end, everything outside the plan is left alone.
  lemma {:induction false} CycleTouchesPlanOnly(inv: Inventory, rewrite: string -> string, plan: seq<Item>, result: nat -> Download, k: nat, p: Place)
    requires forall i :: 0 <= i < |plan| ==> TierOf(plan[i]).Some?
    requires k <= |plan| && forall i :: 0 <= i < k ==> PlaceOf(plan[i]) != p
    ensures EntryAt(Cycle(inv, rewrite, plan, result, k), p) == EntryAt(inv, p)
  {
    if k > 0 { CycleTouchesPlanOnly(inv, rewrite, plan, result, k - 1, p); }
  }

  lemma {:induction false} CycleStores(inv: Inventory, rewrite: string -> string, plan: seq<Item>, result: nat -> Download, k: nat, i: nat)
    requires forall j :: 0 <= j < |plan| ==> TierOf(plan[j]).Some?
    requires i < k <= |plan| && forall j :: i < j < k ==> PlaceOf(plan[j]) != PlaceOf(plan[i])
    ensures EntryAt(Cycle(inv, rewrite, plan, result, k), PlaceOf(plan[i])) == Left(rewrite, plan[i], result(i))
  {
    if i < k - 1 { CycleStores(inv, rewrite, plan, result, k - 1, i); }
  }

  lemma {:induction false} DiffKeepsDistinct(inv: Inventory, policy: Policy, manifest: seq<Item>)
    requires DistinctIds(manifest)
    ensures DistinctIds(Diff(inv, policy, manifest))
  {
    if manifest != [] {
      DiffKeepsDistinct(inv, policy, manifest[1..]);
      DiffExact(inv, policy, manifest[1..]);
      var rest := Diff(inv, policy, manifest[1..]);
      forall j | 0 <= j < |rest|
        ensures rest[j].id != manifest[0].id
      {
        assert rest[j] in rest && rest[j] in manifest[1..];
      }
    }
  }

  // A stored item is up to date exactly when its URL was stored unchanged.
  lemma StoredIsCurrent(item: Item, url: string)
    ensures NeedsUpdate(item, Stored(url, item)) <==> url != item.url
  {
    CompareIsPreorder(Some(Or(item.version, "1.0.0")), Some(Or(item.version, "1.0.0")), None);
  }

  // Fetching another entry of the same URL makes no item due that was not.
  lemma StaysCurrent(item: Item, other: Item, e: Entry)
    ensures item.url == other.url && !NeedsUpdate(item, e) && NeedsUpdate(other, e) ==>
              !NeedsUpdate(item, Stored(other.url, other))
  {
    if item.url == other.url && !NeedsUpdate(item, e) && NeedsUpdate(other, e) {
      var mine, its := Some(Or(item.version, "1.0.0")), Some(Or(other.version, "1.0.0"));
      CompareIsPreorder(its, e.meta.value.version, mine);
      CompareIsPreorder(e.meta.value.version, mine, mine);
      CompareIsPreorder(mine, e.meta.value.version, mine);
      CompareIsPreorder(mine, its, mine);
    }
  }

  // The program's rule meets the laws.
  lemma StandardIsLawful(uninstalled: set<string>)
    ensures Standard(uninstalled).Lawful()
  {
    forall item, url
      ensures NeedsUpdate(item, Stored(url, item)) <==> url != item.url
    {
      StoredIsCurrent(item, url);
    }
    forall item: Item, other: Item, e
      ensures item.url == other.url && !NeedsUpdate(item, e) && NeedsUpdate(other, e) ==>
                !NeedsUpdate(item, Stored(other.url, other))
    {
      StaysCurrent(item, other, e);
    }
  }

  // s is t, which has no small letters, in whatever case.
  predicate AnyCase(s: string, t: string) {
    |s| == |t| && forall k :: 0 <= k < |t| ==> s[k] == t[k] || ('A' <= t[k] <= 'Z' && s[k] as int == t[k] as int + 32)
  }

  lemma UpperExactly(s: string, t: string)
    requires forall k :: 0 <= k < |t| ==> !('a' <= t[k] <= 'z')
    ensures Upper(s) == t <==> AnyCase(s, t)
  {
    if AnyCase(s, t) {
      assert forall k :: 0 <= k < |t| ==> Upper(s)[k] == t[k];
    }
    if Upper(s) == t {
      forall k | 0 <= k < |t|
        ensures s[k] == t[k] || ('A' <= t[k] <= 'Z' && s[k] as int == t[k] as int + 32)
      {
        assert Upper(s)[k] == t[k];
      }
    }
  }

  // Which of the three places an item goes to, if any; untyped items are skills.
  lemma TierExactly(item: Item)
    ensures TierOf(item) == Some(Skill) <==> item.itemType == None || item.itemType == Some("SKILL")
    ensures TierOf(item) == Some(L3Local) <==> item.itemType == Some("MCP") && item.tier.Some? && AnyCase(item.tier.value, "L3_LOCAL")
    ensures TierOf(item) == Some(Gateway) <==> item.itemType == Some("MCP") && !(item.tier.Some? && AnyCase(item.tier.value, "L3_LOCAL"))
  {
    var tier := Or(item.tier, "L2_GATEWAY");
    UpperExactly(tier, "L3_LOCAL");
    assert !AnyCase("L2_GATEWAY", "L3_LOCAL");
    assert item.tier == Some("") ==> !AnyCase(item.tier.value, "L3_LOCAL");
  }

  // Nothing is installed there, or what is has no usable metadata, or another URL, or no version, or a
  // lower one; an item without a version counts as "1.0.0".
  ghost predicate Outdated(inv: Inventory, p: Place, item: Item) {
    p in inv && inv[p].present && inv[p].meta.Some? && inv[p].meta.value.url == item.url
      && inv[p].meta.value.version.Some? && inv[p].meta.value.version.value != ""
    ==> Compare(if item.version == None || item.version == Some("") then Some("1.0.0") else item.version,
                inv[p].meta.value.version) > 0
  }

  lemma OutdatedExactly(inv: Inventory, p: Place, item: Item)
    ensures NeedsUpdate(item, EntryAt(inv, p)) <==> Outdated(inv, p, item)
  {
  }

  // Main result on the diff: an item of the manifest is downloaded if and only if it has an id, a URL and
  // a known type, has not been uninstalled for good, and is outdated at the place of its tier and id.
  lemma PlanExactly(inv: Inventory, uninstalled: set<string>, manifest: seq<Item>, item: Item)
    ensures item in Diff(inv, Standard(uninstalled), manifest) <==>
              && item in manifest && item.id != "" && item.url != "" && item.id !in uninstalled
              && TierOf(item).Some? && Outdated(inv, Place(TierOf(item).value, item.id), item)
  {
    DiffExact(inv, Standard(uninstalled), manifest);
    if TierOf(item).Some? { OutdatedExactly(inv, Place(TierOf(item).value, item.id), item); }
  }

  // An installed item is fetched again under the same URL exactly if that gives it a strictly higher
  // version.
  lemma NoDowngradeUnderOneUrl(item: Item, e: Entry)
    requires e.present && e.meta.Some? && e.meta.value.url == item.url && Or(e.meta.value.version, "") != ""
    ensures NeedsUpdate(item, e) <==> Compare(Stored(item.url, item).meta.value.version, e.meta.value.version) > 0
  {
  }

  lemma {:induction false} DiffEmpty(inv: Inventory, policy: Policy, manifest: seq<Item>)
    ensures Diff(inv, policy, manifest) == [] <==> forall item :: item in manifest ==> !Planned(inv, policy, item)
  {
    DiffExact(inv, policy, manifest);
    var d := Diff(inv, policy, manifest);
    if d != [] { assert d[0] in d; }
  }

  // Whether a planned item is due again after its download.
  predicate DueAgain(policy: Policy, rewrite: string -> string, item: Item, d: Download) {
    match d
    case Fetched => rewrite(item.url) != item.url
    case Failed(left) => policy.outdated(item, left)
  }

  lemma PlannedAgain(after: Inventory, policy: Policy, rewrite: string -> string, item: Item, d: Download)
    requires policy.Lawful()
    requires Eligible(item, policy) && EntryAt(after, PlaceOf(item)) == Left(rewrite, item, d)
    ensures Planned(after, policy, item) <==> DueAgain(policy, rewrite, item, d)
  {
    assert policy.outdated(item, Stored(rewrite(item.url), item)) <==> rewrite(item.url) != item.url;
  }

  // A planned item after the cycle.
  lemma PlannedItemAfter(inv: Inventory, policy: Policy, plan: seq<Item>, rewrite: string -> string, result: nat -> Download, i: nat)
    requires policy.Lawful()
    requires forall j :: 0 <= j < |plan| ==> TierOf(plan[j]).Some?
    requires DistinctIds(plan) && i < |plan| && Planned(inv, policy, plan[i])
    ensures Planned(Cycle(inv, rewrite, plan, result, |plan|), policy, plan[i]) <==> DueAgain(policy, rewrite, plan[i], result(i))
  {
    CycleStores(inv, rewrite, plan, result, |plan|, i);
    PlannedAgain(Cycle(inv, rewrite, plan, result, |plan|), policy, rewrite, plan[i], result(i));
  }

  // A manifest item outside the plan after the cycle.
  lemma OtherItemAfter(inv: Inventory, policy: Policy, plan: seq<Item>, rewrite: string -> string, result: nat -> Download, item: Item)
    requires forall j :: 0 <= j < |plan| ==> TierOf(plan[j]).Some? && plan[j].id != item.id
    ensures Planned(Cycle(inv, rewrite, plan, result, |plan|), policy, item) <==> Planned(inv, policy, item)
  {
    if Eligible(item, policy) {
      CycleTouchesPlanOnly(inv, rewrite, plan, result, |plan|, PlaceOf(item));
    }
  }

  // What one cycle leaves to the next, however its downloads end: over a manifest with distinct ids
  // exactly the planned items whose download failed and left them outdated, and those whose URL was
  // rewritten.  (The rewritten URL is stored, the manifest's own URL is compared.)
  lemma {:induction false} NextDiffExactly(inv: Inventory, policy: Policy, manifest: seq<Item>, rewrite: string -> string,
                        result: nat -> Download, item: Item)
    requires policy.Lawful()
    requires DistinctIds(manifest) && item in manifest
    ensures var plan := Diff(inv, policy, manifest);
            && (forall i :: 0 <= i < |plan| ==> TierOf(plan[i]).Some?)
            && (item in Diff(Cycle(inv, rewrite, plan, result, |plan|), policy, manifest)
                <==> exists i: nat :: i < |plan| && plan[i] == item && DueAgain(policy, rewrite, item, result(i)))
  {
    var plan := Diff(inv, policy, manifest);
    DiffExact(inv, policy, manifest);
    DiffKeepsDistinct(inv, policy, manifest);
    DiffExact(Cycle(inv, rewrite, plan, result, |plan|), policy, manifest);
    forall i: nat | i < |plan| && plan[i] == item
      ensures Planned(Cycle(inv, rewrite, plan, result, |plan|), policy, item) <==> DueAgain(policy, rewrite, item, result(i))
    {
      assert plan[i] in plan;
      PlannedItemAfter(inv, policy, plan, rewrite, result, i);
    }
    if item !in plan {
      OutsidePlan(manifest, plan, item);
      OtherItemAfter(inv, policy, plan, rewrite, result, item);
    }
  }

  // Main result on cycles: after a cycle whose downloads all succeed the next diff is empty if and
  // only if rewriting left the URL of every planned item alone.
  lemma {:induction false} CycleConverges(inv: Inventory, policy: Policy, manifest: seq<Item>, rewrite: string -> string, result: nat -> Download)
    requires policy.Lawful()
    requires DistinctIds(manifest)
    requires forall i: nat :: i < |Diff(inv, policy, manifest)| ==> result(i).Fetched?
    ensures var plan := Diff(inv, policy, manifest);
            && (forall i :: 0 <= i < |plan| ==> TierOf(plan[i]).Some?)
            && var after := Cycle(inv, rewrite, plan, result, |plan|);
               Diff(after, policy, manifest) == [] <==> forall item :: item in plan ==> rewrite(item.url) == item.url
  {
    var plan := Diff(inv, policy, manifest);
    DiffExact(inv, policy, manifest);
    var after := Cycle(inv, rewrite, plan, result, |plan|);
    DiffExact(after, policy, manifest);
    forall item | item in manifest
      ensures item in Diff(after, policy, manifest) <==> item in plan && rewrite(item.url) != item.url
    {
      NextDiffExactly(inv, policy, manifest, rewrite, result, item);
    }
    var next := Diff(after, policy, manifest);
    if next != [] { assert next[0] in next; }
  }

  lemma OutsidePlan(manifest: seq<Item>, plan: seq<Item>, item: Item)
    requires DistinctIds(manifest) && item in manifest && item !in plan && forall x :: x in plan ==> x in manifest
    ensures forall i :: 0 <= i < |plan| ==> plan[i].id != item.id
  {
    forall i | 0 <= i < |plan|
      ensures plan[i].id != item.id
    {
      assert plan[i] in plan;
      var a :| 0 <= a < |manifest| && manifest[a] == plan[i];
      var b :| 0 <= b < |manifest| && manifest[b] == item;
      assert a != b;
    }
  }

  // For several tenants the manifest is a merge, whose ids are distinct: one cycle is enough, with the
  // same exception.
  lemma MergedCycleConverges(rank: Ranking, inv: Inventory, policy: Policy, items: seq<Item>, rewrite: string -> string, result: nat -> Download)
    requires policy.Lawful()
    requires forall i: nat :: i < |Diff(inv, policy, Merge(rank, items))| ==> result(i).Fetched?
    ensures var plan := Diff(inv, policy, Merge(rank, items));
            && (forall i :: 0 <= i < |plan| ==> TierOf(plan[i]).Some?)
            && (Diff(Cycle(inv, rewrite, plan, result, |plan|), policy, Merge(rank, items)) == []
                <==> forall item :: item in plan ==> rewrite(item.url) == item.url)
  {
    MergeKeepsWinners(rank, items);
    CycleConverges(inv, policy, Merge(rank, items), rewrite, result);
  }

  // A single tenant's manifest is used unmerged: if it names one place with two URLs, there is
  // something to download whatever is installed, in every cycle.
  lemma ConflictingUrlsNeverSettle(inv: Inventory, policy: Policy, manifest: seq<Item>, a: Item, b: Item)
    requires policy.Lawful()
    requires a in manifest && b in manifest && Eligible(a, policy) && Eligible(b, policy)
    requires PlaceOf(a) == PlaceOf(b) && a.url != b.url
    ensures Diff(inv, policy, manifest) != []
  {
    DiffEmpty(inv, policy, manifest);
    assert Planned(inv, policy, a) || Planned(inv, policy, b);
  }

  // ---------------------------------------------------------------------------------------------
  // Unmerged manifests over many cycles
  // ---------------------------------------------------------------------------------------------

  predicate SamePlace(policy: Policy, a: Item, b: Item) {
    Eligible(a, policy) && Eligible(b, policy) && PlaceOf(a) == PlaceOf(b)
  }

  // Eligible entries for one place have one URL.
  ghost predicate UrlsAgree(policy: Policy, manifest: seq<Item>) {
    forall a, b :: a in manifest && b in manifest && SamePlace(policy, a, b) ==> a.url == b.url
  }

  function AllFetched(): nat -> Download { _ => Fetched }

  function Unchanged(): string -> string { u => u }

  predicate Placed(plan: seq<Item>) {
    forall i :: 0 <= i < |plan| ==> TierOf(plan[i]).Some?
  }

  // One cycle with rewriting in which every download succeeds, and n of them.
  function FullCycle(inv: Inventory, policy: Policy, manifest: seq<Item>, rewrite: string -> string): Inventory {
    var plan := Diff(inv, policy, manifest);
    DiffHasPlaces(inv, policy, manifest);
    Cycle(inv, rewrite, plan, AllFetched(), |plan|)
  }

  function FullCycles(inv: Inventory, policy: Policy, manifest: seq<Item>, rewrite: string -> string, n: nat): Inventory
    decreases n
  {
    if n == 0 then inv
    else FullCycles(FullCycle(inv, policy, manifest, rewrite), policy, manifest, rewrite, n - 1)
  }

  // The same without rewriting.
  function GoodCycle(inv: Inventory, policy: Policy, manifest: seq<Item>): Inventory {
    FullCycle(inv, policy, manifest, Unchanged())
  }

  function GoodCycles(inv: Inventory, policy: Policy, manifest: seq<Item>, n: nat): Inventory {
    FullCycles(inv, policy, manifest, Unchanged(), n)
  }

  // The last item of the plan for a place, if there is one.
  function LastFor(plan: seq<Item>, p: Place): (r: Option<nat>)
    requires Placed(plan)
    ensures r.Some? ==> r.value < |plan| && PlaceOf(plan[r.value]) == p
    ensures r.Some? ==> forall j :: r.value < j < |plan| ==> PlaceOf(plan[j]) != p
    ensures r.None? ==> forall j :: 0 <= j < |plan| ==> PlaceOf(plan[j]) != p
  {
    if plan == [] then None
    else
      var n := |plan| - 1;
      if PlaceOf(plan[n]) == p then Some(n) else LastFor(plan[..n], p)
  }

  // After a cycle a place holds what the last planned item for it leaves, or what it held.
  lemma FullCycleAt(inv: Inventory, policy: Policy, manifest: seq<Item>, rewrite: string -> string, p: Place)
    requires Placed(Diff(inv, policy, manifest))
    ensures var plan := Diff(inv, policy, manifest);
            EntryAt(FullCycle(inv, policy, manifest, rewrite), p)
            == match LastFor(plan, p)
               case Some(i) => Left(rewrite, plan[i], Fetched)
               case None => EntryAt(inv, p)
  {
    var plan := Diff(inv, policy, manifest);
    match LastFor(plan, p)
    case Some(i) => CycleStores(inv, rewrite, plan, AllFetched(), |plan|, i);
    case None => CycleTouchesPlanOnly(inv, rewrite, plan, AllFetched(), |plan|, p);
  }

  lemma PlannedMember(inv: Inventory, policy: Policy, manifest: seq<Item>, i: nat)
    requires i < |Diff(inv, policy, manifest)|
    ensures Diff(inv, policy, manifest)[i] in manifest && Planned(inv, policy, Diff(inv, policy, manifest)[i])
  {
    DiffExact(inv, policy, manifest);
    assert Diff(inv, policy, manifest)[i] in Diff(inv, policy, manifest);
  }

  lemma NothingNewDue(inv: Inventory, policy: Policy, manifest: seq<Item>, item: Item)
    requires policy.Lawful()
    ensures UrlsAgree(policy, manifest) && item in manifest && !Planned(inv, policy, item) ==>
              !Planned(GoodCycle(inv, policy, manifest), policy, item)
  {
    if UrlsAgree(policy, manifest) && item in manifest && Eligible(item, policy) {
      var plan, p := Diff(inv, policy, manifest), PlaceOf(item);
      DiffHasPlaces(inv, policy, manifest);
      FullCycleAt(inv, policy, manifest, Unchanged(), p);
      if LastFor(plan, p).Some? {
        var i := LastFor(plan, p).value;
        PlannedMember(inv, policy, manifest, i);
        assert SamePlace(policy, item, plan[i]);
        assert policy.outdated(plan[i], EntryAt(inv, p));
      }
    }
  }

  lemma {:induction false} FewerPlanned(before: Inventory, after: Inventory, policy: Policy, manifest: seq<Item>)
    requires forall x :: x in manifest && Planned(after, policy, x) ==> Planned(before, policy, x)
    ensures |Diff(after, policy, manifest)| <= |Diff(before, policy, manifest)|
    ensures (exists x :: x in manifest && Planned(before, policy, x) && !Planned(after, policy, x)) ==>
              |Diff(after, policy, manifest)| < |Diff(before, policy, manifest)|
  {
    if manifest != [] {
      assert manifest[0] in manifest;
      FewerPlanned(before, after, policy, manifest[1..]);
    }
  }

  // The item fetched last is not due again.
  lemma LastDropsOut(inv: Inventory, policy: Policy, manifest: seq<Item>) returns (item: Item)
    requires policy.Lawful()
    requires Diff(inv, policy, manifest) != []
    ensures item in manifest && Planned(inv, policy, item)
    ensures !Planned(GoodCycle(inv, policy, manifest), policy, item)
  {
    var plan := Diff(inv, policy, manifest);
    DiffExact(inv, policy, manifest);
    item := plan[|plan| - 1];
    assert item in plan;
    FullCycleAt(inv, policy, manifest, Unchanged(), PlaceOf(item));
    assert !policy.outdated(item, Stored(item.url, item));
  }

  lemma GoodCycleShrinksPlan(inv: Inventory, policy: Policy, manifest: seq<Item>)
    requires policy.Lawful()
    requires UrlsAgree(policy, manifest) && Diff(inv, policy, manifest) != []
    ensures |Diff(GoodCycle(inv, policy, manifest), policy, manifest)| < |Diff(inv, policy, manifest)|
  {
    var after := GoodCycle(inv, policy, manifest);
    forall x | x in manifest && Planned(after, policy, x)
      ensures Planned(inv, policy, x)
    {
      NothingNewDue(inv, policy, manifest, x);
    }
    var item := LastDropsOut(inv, policy, manifest);
    FewerPlanned(inv, after, policy, manifest);
  }

  predicate AtRest(inv: Inventory, policy: Policy, manifest: seq<Item>) {
    Diff(inv, policy, manifest) == []
  }

  function Due(inv: Inventory, policy: Policy, manifest: seq<Item>): nat {
    |Diff(inv, policy, manifest)|
  }

  lemma OneMoreCycle(inv: Inventory, policy: Policy, manifest: seq<Item>, m: nat)
    ensures GoodCycles(inv, policy, manifest, m + 1)
            == GoodCycles(GoodCycle(inv, policy, manifest), policy, manifest, m)
  {
  }

  lemma FewerDue(inv: Inventory, policy: Policy, manifest: seq<Item>)
    requires policy.Lawful()
    requires UrlsAgree(policy, manifest) && Due(inv, policy, manifest) > 0
    ensures Due(GoodCycle(inv, policy, manifest), policy, manifest) < Due(inv, policy, manifest)
  {
    GoodCycleShrinksPlan(inv, policy, manifest);
  }

  lemma NothingDue(inv: Inventory, policy: Policy, manifest: seq<Item>)
    requires Due(inv, policy, manifest) == 0
    ensures AtRest(GoodCycles(inv, policy, manifest, 0), policy, manifest)
  {
  }

  // At most as many good cycles are needed as items are due.
  lemma {:induction false} AgreeingUrlsSettle(inv: Inventory, policy: Policy, manifest: seq<Item>) returns (n: nat)
    requires policy.Lawful()
    requires UrlsAgree(policy, manifest)
    ensures n <= Due(inv, policy, manifest)
    ensures AtRest(GoodCycles(inv, policy, manifest, n), policy, manifest)
    decreases Due(inv, policy, manifest)
  {
    if Due(inv, policy, manifest) == 0 {
      NothingDue(inv, policy, manifest);
      n := 0;
    } else {
      FewerDue(inv, policy, manifest);
      var m := AgreeingUrlsSettle(GoodCycle(inv, policy, manifest), policy, manifest);
      OneMoreCycle(inv, policy, manifest, m);
      n := m + 1;
    }
  }

  // Rewriting leaves the URLs of all planned items alone.
  predicate PlanKept(inv: Inventory, policy: Policy, manifest: seq<Item>, rewrite: string -> string) {
    forall item :: item in Diff(inv, policy, manifest) ==> rewrite(item.url) == item.url
  }

  lemma {:induction false} KeptCycle(inv: Inventory, plan: seq<Item>, rewrite: string -> string, k: nat)
    requires Placed(plan) && k <= |plan| && forall i :: 0 <= i < |plan| ==> rewrite(plan[i].url) == plan[i].url
    ensures Cycle(inv, rewrite, plan, AllFetched(), k) == Cycle(inv, Unchanged(), plan, AllFetched(), k)
  {
    if k > 0 { KeptCycle(inv, plan, rewrite, k - 1); }
  }

  // Without rewriting in the plan a cycle is a good cycle, and the next plan is no larger.
  lemma KeptCycleIsGood(inv: Inventory, policy: Policy, manifest: seq<Item>, rewrite: string -> string)
    requires policy.Lawful()
    requires UrlsAgree(policy, manifest) && PlanKept(inv, policy, manifest, rewrite)
    ensures FullCycle(inv, policy, manifest, rewrite) == GoodCycle(inv, policy, manifest)
    ensures PlanKept(GoodCycle(inv, policy, manifest), policy, manifest, rewrite)
  {
    var plan, after := Diff(inv, policy, manifest), GoodCycle(inv, policy, manifest);
    DiffHasPlaces(inv, policy, manifest);
    forall i | 0 <= i < |plan|
      ensures rewrite(plan[i].url) == plan[i].url
    {
      assert plan[i] in plan;
    }
    KeptCycle(inv, plan, rewrite, |plan|);
    forall item | item in Diff(after, policy, manifest)
      ensures item in plan
    {
      DiffExact(after, policy, manifest);
      DiffExact(inv, policy, manifest);
      NothingNewDue(inv, policy, manifest, item);
    }
  }

  lemma {:induction false} KeptCyclesAreGood(inv: Inventory, policy: Policy, manifest: seq<Item>, rewrite: string -> string, n: nat)
    requires policy.Lawful()
    requires UrlsAgree(policy, manifest) && PlanKept(inv, policy, manifest, rewrite)
    ensures FullCycles(inv, policy, manifest, rewrite, n) == GoodCycles(inv, policy, manifest, n)
    decreases n
  {
    if n > 0 {
      KeptCycleIsGood(inv, policy, manifest, rewrite);
      KeptCyclesAreGood(GoodCycle(inv, policy, manifest), policy, manifest, rewrite, n - 1);
    }
  }

  // A planned item whose URL is rewritten is planned again: whatever is stored last at its place has
  // the same URL, rewritten.
  lemma RewrittenStaysDue(inv: Inventory, policy: Policy, manifest: seq<Item>, rewrite: string -> string, item: Item)
    requires policy.Lawful()
    requires UrlsAgree(policy, manifest) && item in Diff(inv, policy, manifest) && rewrite(item.url) != item.url
    ensures item in Diff(FullCycle(inv, policy, manifest, rewrite), policy, manifest)
  {
    var plan, after := Diff(inv, policy, manifest), FullCycle(inv, policy, manifest, rewrite);
    DiffExact(inv, policy, manifest);
    DiffExact(after, policy, manifest);
    var p := PlaceOf(item);
    FullCycleAt(inv, policy, manifest, rewrite, p);
    var k :| 0 <= k < |plan| && plan[k] == item;
    var i := LastFor(plan, p).value;
    PlannedMember(inv, policy, manifest, i);
    assert SamePlace(policy, item, plan[i]);
  }

  lemma {:induction false} RewrittenNeverSettles(inv: Inventory, policy: Policy, manifest: seq<Item>, rewrite: string -> string,
                                                 item: Item, n: nat)
    requires policy.Lawful()
    requires UrlsAgree(policy, manifest) && item in Diff(inv, policy, manifest) && rewrite(item.url) != item.url
    ensures !AtRest(FullCycles(inv, policy, manifest, rewrite, n), policy, manifest)
    decreases n
  {
    if n > 0 {
      RewrittenStaysDue(inv, policy, manifest, rewrite, item);
      RewrittenNeverSettles(FullCycle(inv, policy, manifest, rewrite), policy, manifest, rewrite, item, n - 1);
    }
  }

  ghost predicate Settles(inv: Inventory, policy: Policy, manifest: seq<Item>, rewrite: string -> string) {
    exists n: nat :: AtRest(FullCycles(inv, policy, manifest, rewrite, n), policy, manifest)
  }

  lemma KeptSettles(inv: Inventory, policy: Policy, manifest: seq<Item>, rewrite: string -> string)
    requires policy.Lawful()
    requires UrlsAgree(policy, manifest) && PlanKept(inv, policy, manifest, rewrite)
    ensures Settles(inv, policy, manifest, rewrite)
  {
    var n := AgreeingUrlsSettle(inv, policy, manifest);
    KeptCyclesAreGood(inv, policy, manifest, rewrite, n);
  }

  // Main result for any manifest, merged or not, and any rewriting: some number of cycles whose
  // downloads all succeed leaves nothing to download if and only if no two eligible entries for one
  // place have different URLs and rewriting leaves the URLs of all items planned at the start alone.
  lemma SettlesExactly(inv: Inventory, policy: Policy, manifest: seq<Item>, rewrite: string -> string)
    requires policy.Lawful()
    ensures Settles(inv, policy, manifest, rewrite)
            <==> UrlsAgree(policy, manifest) && PlanKept(inv, policy, manifest, rewrite)
  {
    if !UrlsAgree(policy, manifest) {
      var a, b :| a in manifest && b in manifest && SamePlace(policy, a, b) && a.url != b.url;
      forall n: nat
        ensures !AtRest(FullCycles(inv, policy, manifest, rewrite, n), policy, manifest)
      {
        ConflictingUrlsNeverSettle(FullCycles(inv, policy, manifest, rewrite, n), policy, manifest, a, b);
      }
    } else if PlanKept(inv, policy, manifest, rewrite) {
      KeptSettles(inv, policy, manifest, rewrite);
    } else {
      var item :| item in Diff(inv, policy, manifest) && rewrite(item.url) != item.url;
      forall n: nat
        ensures !AtRest(FullCycles(inv, policy, manifest, rewrite, n), policy, manifest)
      {
        RewrittenNeverSettles(inv, policy, manifest, rewrite, item, n);
      }
    }
  }
}
