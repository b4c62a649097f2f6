/** The import of a cluster's guests into the workload inventory (`import_workloads`). */
module InventoryImport {
  import opened Wrappers

  /** A guest as Proxmox reports it. */
  datatype Guest = Guest(
    vmid: int,
    node: Option<string>,
    kind: string,
    name: Option<string>,
    status: Option<string>,
    maxcpu: Option<nat>,
    maxmem: Option<nat>,
    maxdisk: Option<nat>,
    template: bool)

  /** A workload row of the cluster; its key is the vmid. */
  datatype Workload = Workload(
    node: string,
    kind: string,
    name: Option<string>,
    powerState: string,
    cpuCores: Option<nat>,
    memoryBytes: Option<nat>,
    diskBytes: Option<nat>,
    isTemplate: bool,
    isPresent: bool,
    organization: Option<nat>,
    observedAt: int,
    version: nat)

  type Rows = map<int, Workload>

  datatype Error = PveInvalidResponse

  datatype Summary = Summary(discovered: nat, created: nat, updated: nat)

  // ----- what the code computes -----------------------------------------------------

  function UpperChar(c: char): char {
    if 'a' <= c <= 'z' then (c as int - 32) as char else c
  }

  function Upper(s: string): string {
    seq(|s|, i requires 0 <= i < |s| => UpperChar(s[i]))
  }

  /** `not s.strip()` */
  predicate Blank(s: string) {
    forall i :: 0 <= i < |s| ==> '\t' <= s[i] <= '\r' || '\U{1c}' <= s[i] <= ' '
  }

  function PowerState(g: Guest): string {
    var s := if g.status.Some? && g.status.value != "" then Upper(g.status.value) else "UNKNOWN";
    if |s| > 20 then "UNKNOWN" else s
  }

  // ----- what an import means -----------------------------------------------------

  /** The capital at the place of a small letter in the alphabet; any other character itself. */
  ghost predicate IsCapitalOf(d: char, c: char) {
    if 'a' <= c <= 'z' then 'A' <= d <= 'Z' && d as int - 'A' as int == c as int - 'a' as int else d == c
  }

  ghost predicate InCapitals(t: string, s: string) {
    |t| == |s| && forall i :: 0 <= i < |s| ==> IsCapitalOf(t[i], s[i])
  }

  /** The name of a kind of guest, in capitals, for whatever case it is reported in. */
  ghost predicate IsKind(kind: string, reported: string) {
    kind in {"QEMU", "LXC"} && InCapitals(kind, reported)
  }

  ghost predicate HasText(s: string) {
    exists i :: 0 <= i < |s| && !('\t' <= s[i] <= '\r' || '\U{1c}' <= s[i] <= ' ')
  }

  /** The checks one item must pass, its neighbours aside. */
  ghost predicate Fits(g: Guest) {
    && g.vmid > 0
    && (exists kind :: IsKind(kind, g.kind))
    && g.node.Some? && HasText(g.node.value) && |g.node.value| <= 255
    && (g.name.Some? ==> |g.name.value| <= 255)
  }

  /** The reported state in capitals; unknown if there is none or it is too long to store. */
  ghost predicate ShowsState(shown: string, status: Option<string>) {
    if status.None? || |status.value| == 0 || |status.value| > 20 then shown == "UNKNOWN"
    else InCapitals(shown, status.value)
  }

  /** The row holds what the guest reports. */
  ghost predicate Describes(w: Workload, g: Guest) {
    && g.node == Some(w.node) && IsKind(w.kind, g.kind) && w.name == g.name && ShowsState(w.powerState, g.status)
    && w.cpuCores == g.maxcpu && w.memoryBytes == g.maxmem && w.diskBytes == g.maxdisk
    && w.isTemplate == g.template && w.isPresent
  }

  lemma OneCapital(a: char, b: char, c: char)
    requires IsCapitalOf(a, c) && IsCapitalOf(b, c)
    ensures a == b
  {
  }

  lemma OneInCapitals(a: string, b: string, s: string)
    requires InCapitals(a, s) && InCapitals(b, s)
    ensures a == b
  {
    forall i | 0 <= i < |s|
      ensures a[i] == b[i]
    {
      OneCapital(a[i], b[i], s[i]);
    }
  }

  lemma UpperCharIsCapital(c: char)
    ensures IsCapitalOf(UpperChar(c), c)
  {
  }

  lemma UpperIsInCapitals(s: string)
    ensures InCapitals(Upper(s), s)
  {
    forall i | 0 <= i < |s|
      ensures IsCapitalOf(Upper(s)[i], s[i])
    {
      UpperCharIsCapital(s[i]);
    }
  }

  /** The code's tests and values are those meant. */
  lemma CodeMeans(g: Guest)
    ensures Upper(g.kind) in {"QEMU", "LXC"} <==> exists kind :: IsKind(kind, g.kind)
    ensures Upper(g.kind) in {"QEMU", "LXC"} ==> IsKind(Upper(g.kind), g.kind)
    ensures ShowsState(PowerState(g), g.status)
    ensures g.node.Some? ==> (Blank(g.node.value) <==> !HasText(g.node.value))
  {
    UpperIsInCapitals(g.kind);
    assert Upper(g.kind) in {"QEMU", "LXC"} ==> IsKind(Upper(g.kind), g.kind);
    if kind :| IsKind(kind, g.kind) {
      OneInCapitals(kind, Upper(g.kind), g.kind);
    }
    if g.status.Some? {
      UpperIsInCapitals(g.status.value);
    }
  }

  /** The row of a reported guest, given the row it had before, if any. */
  ghost predicate RowOf(before: Rows, w: Workload, g: Guest, now: int) {
    && Describes(w, g) && w.observedAt == now
    && (if g.vmid in before
        then w.organization == before[g.vmid].organization && w.version == before[g.vmid].version + 1
        else w.organization == None && w.version == 1)
  }

  ghost predicate Distinct(guests: seq<Guest>) {
    forall i, j :: 0 <= i < j < |guests| ==> guests[i].vmid != guests[j].vmid
  }

  ghost predicate Reported(guests: seq<Guest>, vmid: int) {
    exists i :: 0 <= i < |guests| && guests[i].vmid == vmid
  }

  /** The items are all acceptable and no vmid occurs twice. */
  ghost predicate Importable(guests: seq<Guest>) {
    (forall i :: 0 <= i < |guests| ==> Fits(guests[i])) && Distinct(guests)
  }

  /** After the import each reported guest has its row, and every other row is as it was. */
  ghost predicate Imported(before: Rows, guests: seq<Guest>, now: int, after: Rows) {
    && (forall i :: 0 <= i < |guests| ==>
          guests[i].vmid in after && RowOf(before, after[guests[i].vmid], guests[i], now))
    && (forall v :: !Reported(guests, v) ==> (v in after <==> v in before) && (v in before ==> after[v] == before[v]))
  }

  // ----- the loop -------------------------------------------------------------------

  class Inventory {
    var rows: Rows

    constructor ()
      ensures rows == map[]
    {
      rows := map[];
    }

    /** Create or overwrite the row of one guest. */
    method WriteRow(existing: Rows, guest: Guest, now: int) returns (after: Rows, isNew: bool)
      requires Fits(guest)
      ensures guest.vmid in after && after == existing[guest.vmid := after[guest.vmid]]
      ensures RowOf(existing, after[guest.vmid], guest, now)
      ensures isNew <==> guest.vmid !in existing
      ensures |after| == |existing| + if isNew then 1 else 0
    {
      CodeMeans(guest);
      var powerState := PowerState(guest);
      isNew := guest.vmid !in existing;
      if isNew {
        after := existing[guest.vmid := Workload(
          guest.node.value, Upper(guest.kind), guest.name, powerState, guest.maxcpu, guest.maxmem, guest.maxdisk,
          guest.template, true, None, now, 1)];
      } else {
        var w := existing[guest.vmid];
        w := w.(node := guest.node.value, kind := Upper(guest.kind), name := guest.name, powerState := powerState);
        w := w.(cpuCores := guest.maxcpu, memoryBytes := guest.maxmem, diskBytes := guest.maxdisk);
        w := w.(isTemplate := guest.template, isPresent := true, observedAt := now, version := w.version + 1);
        after := existing[guest.vmid := w];
        assert after.Keys == existing.Keys;
      }
    }

    /** All or nothing: an unacceptable or repeated item changes no row. */
    method ImportWorkloads(guests: seq<Guest>, now: int) returns (r: Result<Summary, Error>)
      modifies this
      ensures r.Ok? <==> Importable(guests)
      ensures r.Err? ==> rows == old(rows)
      ensures r.Ok? ==>
        && Imported(old(rows), guests, now, rows)
        && r.value.discovered == |guests| == r.value.created + r.value.updated
        && r.value.created == |rows| - |old(rows)|
    {
      hide Imported, RowOf, Reported, Distinct, IsKind, HasText, Upper, Blank;
      NothingImported(rows, now);
      var existing := rows;
      var created, updated := 0, 0;
      var seen: set<int> := {};
      for i := 0 to |guests|
        invariant forall j :: 0 <= j < i ==> Fits(guests[j])
        invariant Distinct(guests[..i])
        invariant forall v :: v in seen <==> Reported(guests[..i], v)
        invariant Imported(rows, guests[..i], now, existing)
        invariant created + updated == i && created == |existing| - |rows|
        invariant rows == old(rows)
      {
        var guest := guests[i];
        assert guests[..i + 1] == guests[..i] + [guest];
        CodeMeans(guest);
        if guest.vmid <= 0 || guest.vmid in seen || Upper(guest.kind) !in {"QEMU", "LXC"}
           || guest.node.None? || Blank(guest.node.value) || |guest.node.value| > 255
           || (guest.name.Some? && |guest.name.value| > 255) {
          RepeatedIsNotImportable(guests, i);
          return Err(PveInvalidResponse);
        }
        seen := seen + {guest.vmid};
        ghost var before := existing;
        var isNew;
        existing, isNew := WriteRow(existing, guest, now);
        if isNew {
          created := created + 1;
        } else {
          updated := updated + 1;
        }
        OneMoreImported(rows, guests, i, now, before, existing);
        SeenGrows(guests, i);
        DistinctGrows(guests, i);
      }
      assert guests[..|guests|] == guests;
      assert Importable(guests);
      rows := existing;
      return Ok(Summary(|guests|, created, updated));
    }
  }

  lemma SeenGrows(guests: seq<Guest>, i: nat)
    requires i < |guests|
    ensures forall v :: Reported(guests[..i + 1], v) <==> Reported(guests[..i], v) || v == guests[i].vmid
  {
    var a, b := guests[..i], guests[..i + 1];
    assert b[i] == guests[i];
    forall v
      ensures Reported(b, v) <==> Reported(a, v) || v == guests[i].vmid
    {
      if Reported(a, v) {
        var k :| 0 <= k < |a| && a[k].vmid == v;
        assert b[k].vmid == v;
      }
      if Reported(b, v) && v != guests[i].vmid {
        var k :| 0 <= k < |b| && b[k].vmid == v;
        assert a[k].vmid == v;
      }
    }
  }

  lemma NothingImported(rows: Rows, now: int)
    ensures Imported(rows, [], now, rows) && Distinct([]) && forall v :: !Reported([], v)
  {
  }

  lemma DistinctGrows(guests: seq<Guest>, i: nat)
    requires i < |guests| && Distinct(guests[..i]) && !Reported(guests[..i], guests[i].vmid)
    ensures Distinct(guests[..i + 1])
  {
    var a, b := guests[..i], guests[..i + 1];
    forall j, k | 0 <= j < k < |b|
      ensures b[j].vmid != b[k].vmid
    {
      assert a[j] == b[j];
      assert Reported(a, a[j].vmid);
    }
  }

  lemma RepeatedIsNotImportable(guests: seq<Guest>, i: nat)
    requires i < |guests| && (!Fits(guests[i]) || Reported(guests[..i], guests[i].vmid))
    ensures !Importable(guests)
  {
    if Reported(guests[..i], guests[i].vmid) {
      var k :| 0 <= k < i && guests[..i][k].vmid == guests[i].vmid;
      assert guests[k].vmid == guests[i].vmid;
    }
  }

  /** The next guest gets its row; earlier ones keep theirs. */
  lemma OneMoreImported(before: Rows, guests: seq<Guest>, i: nat, now: int, mid: Rows, after: Rows)
    requires i < |guests| && Imported(before, guests[..i], now, mid) && !Reported(guests[..i], guests[i].vmid)
    requires guests[i].vmid in after && RowOf(mid, after[guests[i].vmid], guests[i], now)
    requires after == mid[guests[i].vmid := after[guests[i].vmid]]
    ensures Imported(before, guests[..i + 1], now, after)
  {
    var a, b := guests[..i], guests[..i + 1];
    SeenGrows(guests, i);
    forall k | 0 <= k < |b|
      ensures b[k].vmid in after && RowOf(before, after[b[k].vmid], b[k], now)
    {
      if k < i {
        assert a[k] == b[k];
        assert Reported(a, a[k].vmid);
      }
    }
  }

  // ----- what follows -----------------------------------------------------------------

  /** Two rows that describe a guest agree on all it reports. */
  lemma OneDescription(a: Workload, b: Workload, g: Guest)
    requires Describes(a, g) && Describes(b, g)
    ensures a.kind == b.kind && a.powerState == b.powerState
  {
    OneInCapitals(a.kind, b.kind, g.kind);
    if g.status.Some? && 0 < |g.status.value| <= 20 {
      OneInCapitals(a.powerState, b.powerState, g.status.value);
    }
  }

  /** The outcome is determined: there is one set of rows an import may leave. */
  lemma ImportIsDetermined(before: Rows, guests: seq<Guest>, now: int, a: Rows, b: Rows)
    requires Imported(before, guests, now, a) && Imported(before, guests, now, b)
    ensures a == b
  {
    forall v
      ensures (v in a <==> v in b) && (v in a ==> a[v] == b[v])
    {
      if Reported(guests, v) {
        var i :| 0 <= i < |guests| && guests[i].vmid == v;
        assert RowOf(before, a[v], guests[i], now) && RowOf(before, b[v], guests[i], now);
        OneDescription(a[v], b[v], guests[i]);
      }
    }
    assert a.Keys == b.Keys;
  }

  /** Importing the same list again creates no row and touches only the reported ones, of
      which it changes the time of observation and the version and nothing else. */
  lemma ReimportOnlyRefreshes(before: Rows, guests: seq<Guest>, t1: int, once: Rows, t2: int, twice: Rows)
    requires Imported(before, guests, t1, once) && Imported(once, guests, t2, twice)
    ensures twice.Keys == once.Keys
    ensures forall v :: v in once ==>
      twice[v] == if Reported(guests, v) then once[v].(observedAt := t2, version := once[v].version + 1) else once[v]
  {
    forall v
      ensures v in twice <==> v in once
      ensures v in once ==>
        twice[v] == if Reported(guests, v) then once[v].(observedAt := t2, version := once[v].version + 1) else once[v]
    {
      if Reported(guests, v) {
        var i :| 0 <= i < |guests| && guests[i].vmid == v;
        assert RowOf(before, once[v], guests[i], t1) && RowOf(once, twice[v], guests[i], t2);
        OneDescription(once[v], twice[v], guests[i]);
      }
    }
    assert forall v :: v in twice.Keys <==> v in once.Keys;
  }

  /** Ownership survives every import; a row that exists never goes away. */
  lemma OwnershipSurvives(before: Rows, guests: seq<Guest>, now: int, after: Rows)
    requires Imported(before, guests, now, after)
    ensures forall v :: v in before ==> v in after && after[v].organization == before[v].organization
    ensures forall v :: v in after && v !in before ==> Reported(guests, v) && after[v].organization == None
  {
    forall v | v in before || v in after
      ensures v in before ==> v in after && after[v].organization == before[v].organization
      ensures v in after && v !in before ==> Reported(guests, v) && after[v].organization == None
    {
      if Reported(guests, v) {
        var i :| 0 <= i < |guests| && guests[i].vmid == v;
        assert RowOf(before, after[v], guests[i], now);
      }
    }
  }
}
