/** The model roster: how a refresh turns the last snapshot and the two upstream lists into the
    next snapshot.
 */
module ModelRoster {
  import opened Wrappers

  datatype Row = Row(
    firstSeen: int, name: string, reasoning: bool, variants: seq<string>, status: string, deprecated: bool, stale: bool)

  datatype Snapshot = Snapshot(ids: map<string, Row>, version: nat)

  /** A catalogue row; an empty name stands for a missing one. */
  datatype CatalogRow = CatalogRow(name: string, reasoning: bool, variants: seq<string>, status: Option<string>)

  datatype Catalog =
    | NotModified
    | Buckets(opencode: map<string, CatalogRow>, go: map<string, CatalogRow>)

  /** One successful refresh: the catalogue, the ids confirmed by the zen endpoint if it could
      be reached, and the time. */
  datatype Refresh = Refresh(catalog: Catalog, zen: Option<set<string>>, now: int)

  // ---------------------------------------------------------------- roster ids

  datatype Bucket = Opencode | OpencodeGo

  function Prefix(b: Bucket): string {
    match b case Opencode => "opencode" case OpencodeGo => "opencode-go"
  }

  function Id(b: Bucket, mid: string): string {
    Prefix(b) + "/" + mid
  }

  /** The model id inside a roster id: what follows the first slash, or all of it. */
  function Mid(id: string): string {
    if '/' !in id then id else AfterSlash(id)
  }

  function AfterSlash(id: string): string {
    if id == "" then "" else if id[0] == '/' then id[1..] else AfterSlash(id[1..])
  }

  lemma {:induction false} AfterSlashOf(bucket: string, mid: string)
    requires '/' !in bucket
    ensures AfterSlash(bucket + "/" + mid) == mid
  {
    var id := bucket + "/" + mid;
    if bucket == "" {
      assert id[1..] == mid;
    } else {
      assert bucket[0] in bucket && forall c <- bucket[1..] :: c in bucket;
      AfterSlashOf(bucket[1..], mid);
      assert id[1..] == bucket[1..] + "/" + mid;
    }
  }

  lemma MidOf(b: Bucket, mid: string)
    ensures Mid(Id(b, mid)) == mid
  {
    AfterSlashOf(Prefix(b), mid);
    assert Id(b, mid)[|Prefix(b)|] == '/';
  }

  lemma BucketsDiffer(a: string, b: string)
    ensures Id(Opencode, a) != Id(OpencodeGo, b)
  {
    assert Id(Opencode, a)[8] == '/' && Id(OpencodeGo, b)[8] == '-';
  }

  /** The id recovered from a roster id is the one it was made of, and the two buckets never
      make the same roster id. */
  lemma IdsAreUnique()
    ensures forall b, mid :: Mid(Id(b, mid)) == mid
    ensures forall a, b :: Id(Opencode, a) != Id(OpencodeGo, b)
  {
    forall b, mid ensures Mid(Id(b, mid)) == mid {
      MidOf(b, mid);
    }
    forall a, b ensures Id(Opencode, a) != Id(OpencodeGo, b) {
      BucketsDiffer(a, b);
    }
  }

  // ---------------------------------------------------------------- specification

  predicate Retired(status: string, zen: Option<set<string>>, mid: string) {
    status == "deprecated" || (zen.Some? && mid !in zen.value)
  }

  function ZenOnly(c: Catalog, zen: Option<set<string>>): set<string>
    requires c.Buckets?
  {
    if zen.None? then {} else set m <- zen.value | m !in c.opencode && m !in c.go
  }

  function IdsOf(b: Bucket, mids: set<string>): set<string> {
    set m <- mids :: Id(b, m)
  }

  /** The roster ids a new catalogue yields. */
  function Listed(r: Refresh): set<string>
    requires r.catalog.Buckets?
  {
    IdsOf(Opencode, r.catalog.opencode.Keys)
    + IdsOf(OpencodeGo, set m <- r.catalog.go | m !in r.catalog.opencode)
    + IdsOf(Opencode, ZenOnly(r.catalog, r.zen))
  }

  function CatalogRowOf(c: Catalog, mid: string): Option<CatalogRow>
    requires c.Buckets?
  {
    if mid in c.opencode then Some(c.opencode[mid])
    else if mid in c.go then Some(c.go[mid])
    else None
  }

  /** `emit`. */
  function EmittedRow(prior: map<string, Row>, r: Refresh, id: string, mid: string, row: Option<CatalogRow>): Row {
    var status := if row.Some? && row.value.status.Some? then row.value.status.value else "live";
    Row(if id in prior then prior[id].firstSeen else r.now,
        if row.Some? && row.value.name != "" then row.value.name else mid,
        row.Some? && row.value.reasoning,
        if row.Some? then row.value.variants else [],
        status, Retired(status, r.zen, mid), false)
  }

  function ListedRow(prior: map<string, Row>, r: Refresh, id: string): Row
    requires r.catalog.Buckets?
  {
    EmittedRow(prior, r, id, Mid(id), CatalogRowOf(r.catalog, Mid(id)))
  }

  function Emitted(prior: map<string, Row>, r: Refresh, ids: set<string>): map<string, Row>
    requires r.catalog.Buckets?
  {
    map id <- ids :: ListedRow(prior, r, id)
  }

  /** The rows among `ids` that are kept one more cycle although they are no longer listed. */
  function Graced(prior: map<string, Row>, ids: set<string>, listed: set<string>): map<string, Row> {
    map id <- prior | id in ids && id !in listed && !prior[id].stale :: prior[id].(stale := true, deprecated := true)
  }

  function NextIds(prior: map<string, Row>, r: Refresh): map<string, Row> {
    if r.catalog.NotModified? then
      map id <- prior | !prior[id].stale ::
        prior[id].(deprecated := Retired(prior[id].status, r.zen, Mid(id)))
    else
      Graced(prior, prior.Keys, Listed(r)) + Emitted(prior, r, Listed(r))
  }

  function Added(prior: map<string, Row>, next: map<string, Row>): set<string> {
    set id <- next | id !in prior
  }

  function WentStale(prior: map<string, Row>, next: map<string, Row>): set<string> {
    set id <- next | next[id].stale && !(id in prior && prior[id].stale)
  }

  function Refreshed(prior: Option<Snapshot>, r: Refresh): Snapshot {
    var ids := if prior.Some? then prior.value.ids else map[];
    var next := NextIds(ids, r);
    var version := if prior.Some? then prior.value.version else 0;
    var bump := prior.Some? && |Added(ids, next)| + |WentStale(ids, next)| > 0;
    Snapshot(next, version + if bump then 1 else 0)
  }

  /** The snapshots after each of a run of successful refreshes, the last one last. */
  function Run(rs: seq<Refresh>): Option<Snapshot> {
    if rs == [] then None else Some(Refreshed(Run(rs[..|rs| - 1]), rs[|rs| - 1]))
  }

  function Live(s: Snapshot): set<string> {
    set id <- s.ids | !s.ids[id].stale
  }

  // ---------------------------------------------------------------- one refresh

  /** After a new catalogue the live rows are exactly the listed ones. */
  lemma LiveIsListed(prior: Option<Snapshot>, r: Refresh)
    requires r.catalog.Buckets?
    ensures Live(Refreshed(prior, r)) == Listed(r)
  {
    hide Listed, Mid, CatalogRowOf;
  }

  /** Nothing is in the next snapshot that is neither listed nor was live. */
  lemma StaleGone(prior: Snapshot, r: Refresh)
    requires r.catalog.Buckets?
    ensures Refreshed(Some(prior), r).ids.Keys <= Listed(r) + Live(prior)
  {
    hide Listed, Mid, CatalogRowOf;
  }

  /** A live row does not vanish, a stale row comes back to life or is dropped, and a row keeps
      its first sighting. */
  lemma RowLifecycle(prior: Snapshot, r: Refresh, id: string)
    requires id in prior.ids
    ensures var next := Refreshed(Some(prior), r);
      && (id in Live(prior) ==> id in next.ids)
      && (id !in Live(prior) && id in next.ids ==> id in Live(next))
      && (id in next.ids ==> next.ids[id].firstSeen == prior.ids[id].firstSeen)
  {
  }

  /** The deprecated flag of every live row is the one the last refresh justifies. */
  lemma DeprecatedFlag(prior: Option<Snapshot>, r: Refresh, id: string)
    ensures var next := Refreshed(prior, r);
      id in next.ids ==>
        next.ids[id].deprecated == (next.ids[id].stale || Retired(next.ids[id].status, r.zen, Mid(id)))
  {
  }

  /** The version stays exactly when no id is new and no live id went stale. */
  lemma VersionKeptExactly(prior: Snapshot, r: Refresh)
    ensures var next := Refreshed(Some(prior), r);
      && prior.version <= next.version
      && (next.version == prior.version <==> next.ids.Keys <= prior.ids.Keys && Live(prior) <= Live(next))
  {
    forall id | id in prior.ids
      ensures id in Live(prior) ==> id in Refreshed(Some(prior), r).ids
    {
      RowLifecycle(prior, r, id);
    }
    hide NextIds;
    StaleCount(prior, Refreshed(Some(prior), r));
  }

  lemma StaleCount(prior: Snapshot, next: Snapshot)
    requires forall id <- Live(prior) :: id in next.ids
    ensures |Added(prior.ids, next.ids)| + |WentStale(prior.ids, next.ids)| == 0
      <==> next.ids.Keys <= prior.ids.Keys && Live(prior) <= Live(next)
  {
    var added, stale := Added(prior.ids, next.ids), WentStale(prior.ids, next.ids);
    forall id | id in next.ids ensures id in added <==> id !in prior.ids {}
    forall id | id in Live(prior) ensures id in stale <==> id !in Live(next) {}
    forall id | id in stale && id !in added ensures id in Live(prior) {}
    if next.ids.Keys <= prior.ids.Keys && Live(prior) <= Live(next) {
      assert added == {} && stale == {};
    }
  }

  function StaleIds(s: Snapshot): set<string> {
    set id <- s.ids | s.ids[id].stale
  }

  /** With the version kept, the live ids are the same exactly when no stale id is listed
      again: such an id comes back without a new version. */
  lemma LiveKeptExactly(prior: Snapshot, r: Refresh)
    requires Refreshed(Some(prior), r).version == prior.version
    ensures var next := Refreshed(Some(prior), r);
      (Live(next) == Live(prior)) <==> (r.catalog.Buckets? ==> Listed(r) !! StaleIds(prior))
  {
    VersionKeptExactly(prior, r);
    var next := Refreshed(Some(prior), r);
    if r.catalog.Buckets? {
      hide Refreshed, NextIds, Listed;
      LiveIsListed(Some(prior), r);
    } else {
      UnchangedLive(prior, r);
    }
  }

  lemma UnchangedLive(prior: Snapshot, r: Refresh)
    requires r.catalog.NotModified?
    ensures Live(Refreshed(Some(prior), r)) == Live(prior)
  {
    hide Listed, Mid, CatalogRowOf;
  }

  /** With the version kept, the roster has the same ids, live and stale, exactly when there was
      no stale id: a stale id comes back or is dropped without a new version. */
  lemma RosterKeptExactly(prior: Snapshot, r: Refresh)
    requires Refreshed(Some(prior), r).version == prior.version
    ensures var next := Refreshed(Some(prior), r);
      (next.ids.Keys == prior.ids.Keys && Live(next) == Live(prior)) <==> StaleIds(prior) == {}
  {
    VersionKeptExactly(prior, r);
    forall id | id in prior.ids
      ensures id !in Live(prior) && id in Refreshed(Some(prior), r).ids ==> id in Live(Refreshed(Some(prior), r))
    {
      RowLifecycle(prior, r, id);
    }
    hide Refreshed;
    NoneStale(prior);
    if id :| id in StaleIds(prior) {
      assert id in prior.ids && id !in Live(prior);
    }
  }

  lemma NoneStale(s: Snapshot)
    ensures StaleIds(s) == {} <==> forall id <- s.ids :: !s.ids[id].stale
    ensures StaleIds(s) == {} ==> Live(s) == s.ids.Keys
  {
    assert forall id <- s.ids :: s.ids[id].stale ==> id in StaleIds(s);
  }

  // ---------------------------------------------------------------- what is served

  /** What `getModels` serves of a row; whether it is new also depends on the clock. */
  datatype ModelOption = ModelOption(name: string, reasoning: bool, variants: seq<string>, deprecated: bool, firstSeen: int)

  function OptionOf(id: string, row: Row): ModelOption {
    ModelOption(if row.name != "" then row.name else id, row.reasoning, row.variants, row.deprecated, row.firstSeen)
  }

  function Served(s: Snapshot): map<string, ModelOption> {
    map id <- s.ids :: OptionOf(id, s.ids[id])
  }

  /** The refresh serves `id` as before: an unchanged catalogue must find it live with the flag
      that the zen set justifies, a new one must list it with the same particulars. */
  predicate StaysServed(prior: map<string, Row>, r: Refresh, id: string)
    requires id in prior
  {
    match r.catalog
    case NotModified => !prior[id].stale && prior[id].deprecated == Retired(prior[id].status, r.zen, Mid(id))
    case Buckets(_, _) => id in Listed(r) && OptionOf(id, ListedRow(prior, r, id)) == OptionOf(id, prior[id])
  }

  /** With the version kept, what is served is the same exactly when every id of the roster
      stays served as before. */
  lemma ServedKeptExactly(prior: Snapshot, r: Refresh)
    requires Refreshed(Some(prior), r).version == prior.version
    ensures Served(Refreshed(Some(prior), r)) == Served(prior) <==> forall id <- prior.ids :: StaysServed(prior.ids, r, id)
  {
    var next := Refreshed(Some(prior), r);
    VersionKeptExactly(prior, r);
    forall id | id in prior.ids
      ensures StaysServed(prior.ids, r, id)
        <==> id in next.ids && OptionOf(id, next.ids[id]) == OptionOf(id, prior.ids[id])
    {
      RowServed(prior, r, id);
    }
    hide StaysServed, Refreshed, OptionOf;
    if Served(next) == Served(prior) {
      forall id | id in prior.ids ensures StaysServed(prior.ids, r, id) {
        assert id in Served(prior) && id in Served(next);
        assert Served(next)[id] == Served(prior)[id];
      }
    }
  }

  lemma RowServed(prior: Snapshot, r: Refresh, id: string)
    requires id in prior.ids && Refreshed(Some(prior), r).version == prior.version
    ensures var next := Refreshed(Some(prior), r);
      StaysServed(prior.ids, r, id)
      <==> id in next.ids && OptionOf(id, next.ids[id]) == OptionOf(id, prior.ids[id])
  {
    VersionKeptExactly(prior, r);
    hide Listed, ListedRow;
    RowLifecycle(prior, r, id);
    if r.catalog.Buckets? {
      LiveIsListed(Some(prior), r);
    }
  }

  /** An unchanged catalogue never moves the version, and serves the same exactly when no id was
      stale and no flag has to change: a model that zen no longer confirms is served as
      deprecated without a new version. */
  lemma FlagFlipsSilently(prior: Snapshot, r: Refresh)
    requires r.catalog.NotModified?
    ensures Refreshed(Some(prior), r).version == prior.version
    ensures Served(Refreshed(Some(prior), r)) == Served(prior)
      <==> StaleIds(prior) == {}
           && forall id <- prior.ids :: prior.ids[id].deprecated == Retired(prior.ids[id].status, r.zen, Mid(id))
  {
    VersionKeptExactly(prior, r);
    UnchangedLive(prior, r);
    assert Refreshed(Some(prior), r).ids.Keys <= prior.ids.Keys;
    NoneStale(prior);
    hide Refreshed, NextIds, Retired;
    ServedKeptExactly(prior, r);
  }

  lemma StaleIdReturnsSilently(row: Row, c: CatalogRow)
    requires row.stale && c.status == None
    ensures var prior := Snapshot(map[Id(Opencode, "m") := row], 7);
      var next := Refreshed(Some(prior), Refresh(Buckets(map["m" := c], map[]), None, 0));
      next.version == 7 && Live(prior) == {} && Live(next) == {Id(Opencode, "m")}
  {
    var prior := Snapshot(map[Id(Opencode, "m") := row], 7);
    var r := Refresh(Buckets(map["m" := c], map[]), None, 0);
    OnlyListed(c);
    hide Id, Listed, NextIds;
    LiveIsListed(Some(prior), r);
    StaleGone(prior, r);
    VersionKeptExactly(prior, r);
  }

  lemma OnlyListed(c: CatalogRow)
    ensures Listed(Refresh(Buckets(map["m" := c], map[]), None, 0)) == {Id(Opencode, "m")}
  {
    hide Id;
    assert "m" in map["m" := c];
  }

  // ---------------------------------------------------------------- what the rows say

  /** The row of a listed model: name, reasoning, variants and status are the catalogue's, with
      the model id for a missing name and "live" for a missing status; it is deprecated when its
      status says so or a known zen set lacks it; it was first seen when it came into the roster. */
  lemma ListedRowIs(prior: Option<Snapshot>, r: Refresh, mid: string)
    requires r.catalog.Buckets? && (mid in r.catalog.opencode || mid in r.catalog.go)
    ensures var next := Refreshed(prior, r);
      var id := if mid in r.catalog.opencode then "opencode/" + mid else "opencode-go/" + mid;
      var c := if mid in r.catalog.opencode then r.catalog.opencode[mid] else r.catalog.go[mid];
      && id in next.ids
      && next.ids[id].name == (if c.name != "" then c.name else mid)
      && next.ids[id].reasoning == c.reasoning && next.ids[id].variants == c.variants
      && next.ids[id].status == (match c.status case None => "live" case Some(status) => status)
      && (next.ids[id].deprecated <==> next.ids[id].status == "deprecated" || (r.zen.Some? && mid !in r.zen.value))
      && !next.ids[id].stale
      && next.ids[id].firstSeen == if prior.Some? && id in prior.value.ids then prior.value.ids[id].firstSeen else r.now
  {
    var bucket := if mid in r.catalog.opencode then Opencode else OpencodeGo;
    IdIs(mid);
    RowOf(prior, r, bucket, mid);
  }

  /** A model that only zen confirms is listed under its id, live, without reasoning or variants. */
  lemma ZenRowIs(prior: Option<Snapshot>, r: Refresh, mid: string)
    requires r.catalog.Buckets? && r.zen.Some? && mid in r.zen.value && mid !in r.catalog.opencode && mid !in r.catalog.go
    ensures var next := Refreshed(prior, r);
      var id := "opencode/" + mid;
      && id in next.ids
      && next.ids[id]
         == Row(if prior.Some? && id in prior.value.ids then prior.value.ids[id].firstSeen else r.now, mid, false, [], "live", false, false)
  {
    IdIs(mid);
    RowOf(prior, r, Opencode, mid);
  }

  lemma IdIs(mid: string)
    ensures Id(Opencode, mid) == "opencode/" + mid && Id(OpencodeGo, mid) == "opencode-go/" + mid
  {
  }

  lemma RowOf(prior: Option<Snapshot>, r: Refresh, bucket: Bucket, mid: string)
    requires r.catalog.Buckets?
    requires match bucket
      case Opencode => mid in r.catalog.opencode || (r.zen.Some? && mid in r.zen.value && mid !in r.catalog.go)
      case OpencodeGo => mid in r.catalog.go && mid !in r.catalog.opencode
    ensures var ids := if prior.Some? then prior.value.ids else map[];
      var id := Id(bucket, mid);
      id in Refreshed(prior, r).ids
      && Refreshed(prior, r).ids[id] == EmittedRow(ids, r, id, mid, CatalogRowOf(r.catalog, mid))
  {
    MidOf(bucket, mid);
    InIdsOf(bucket, bucket, if bucket == Opencode then r.catalog.opencode.Keys else (set m <- r.catalog.go | m !in r.catalog.opencode), mid);
    InIdsOf(bucket, Opencode, ZenOnly(r.catalog, r.zen), mid);
    hide Id, Mid, CatalogRowOf, EmittedRow;
    assert Id(bucket, mid) in Listed(r);
  }

  /** A live row that is no longer listed stays one cycle, stale and deprecated and otherwise as
      it was; with an unchanged catalogue a live row stays as it was but for the flag, and a stale
      one goes. */
  lemma KeptRowIs(prior: Snapshot, r: Refresh, id: string)
    requires id in prior.ids
    ensures var next := Refreshed(Some(prior), r);
      var row := prior.ids[id];
      && (r.catalog.Buckets? && id !in Listed(r) ==>
            && (id in next.ids <==> !row.stale)
            && (!row.stale ==> next.ids[id] == row.(stale := true, deprecated := true)))
      && (r.catalog.NotModified? ==>
            && (id in next.ids <==> !row.stale)
            && (!row.stale ==>
                  next.ids[id] == row.(deprecated := row.status == "deprecated" || (r.zen.Some? && Mid(id) !in r.zen.value))))
  {
    hide Listed, Mid, CatalogRowOf;
  }

  /** The version counts up by one with every refresh that adds an id or loses a live one, and
      starts at 0. */
  lemma VersionIs(prior: Snapshot, r: Refresh)
    ensures var next := Refreshed(Some(prior), r);
      next.version == prior.version + if next.ids.Keys <= prior.ids.Keys && Live(prior) <= Live(next) then 0 else 1
    ensures Refreshed(None, r).version == 0
  {
    hide NextIds;
    VersionKeptExactly(prior, r);
  }

  // ---------------------------------------------------------------- no twins

  /** No two live rows carry the same model. */
  ghost predicate NoTwins(s: Snapshot) {
    forall a, b | a in Live(s) && b in Live(s) && Mid(a) == Mid(b) :: a == b
  }

  lemma ListedNoTwins(r: Refresh, a: string, b: string)
    requires r.catalog.Buckets? && a in Listed(r) && b in Listed(r) && Mid(a) == Mid(b)
    ensures a == b
  {
    IdsAreUnique();
    hide Id, Mid;
    var m := Mid(a);
    assert a == Id(Opencode, m) || a == Id(OpencodeGo, m);
    assert b == Id(Opencode, m) || b == Id(OpencodeGo, m);
  }

  lemma RefreshKeepsNoTwins(prior: Option<Snapshot>, r: Refresh)
    requires prior.Some? ==> NoTwins(prior.value)
    ensures NoTwins(Refreshed(prior, r))
  {
    hide Mid;
    if r.catalog.NotModified? {
      if prior.Some? { UnchangedLive(prior.value, r); }
    } else {
      LiveIsListed(prior, r);
      hide NextIds, Listed;
      forall a, b | a in Listed(r) && b in Listed(r) && Mid(a) == Mid(b) ensures a == b {
        ListedNoTwins(r, a, b);
      }
    }
  }

  /** A model in the opencode bucket is listed there and nowhere else; one that is only in the
      other bucket keeps that bucket's prefix; one that only zen confirms is listed as
      opencode. */
  lemma BucketPrecedence(prior: Option<Snapshot>, r: Refresh, mid: string)
    requires r.catalog.Buckets?
    ensures var live := Live(Refreshed(prior, r));
      && (Id(Opencode, mid) in live
          <==> mid in r.catalog.opencode || (mid !in r.catalog.go && r.zen.Some? && mid in r.zen.value))
      && (Id(OpencodeGo, mid) in live <==> mid in r.catalog.go && mid !in r.catalog.opencode)
  {
    LiveIsListed(prior, r);
    var goOnly := set m <- r.catalog.go | m !in r.catalog.opencode;
    InIdsOf(Opencode, Opencode, r.catalog.opencode.Keys, mid);
    InIdsOf(Opencode, Opencode, ZenOnly(r.catalog, r.zen), mid);
    InIdsOf(Opencode, OpencodeGo, goOnly, mid);
    InIdsOf(OpencodeGo, Opencode, r.catalog.opencode.Keys, mid);
    InIdsOf(OpencodeGo, Opencode, ZenOnly(r.catalog, r.zen), mid);
    InIdsOf(OpencodeGo, OpencodeGo, goOnly, mid);
    hide Id, NextIds, IdsOf;
  }

  lemma InIdsOf(b: Bucket, other: Bucket, mids: set<string>, mid: string)
    ensures Id(b, mid) in IdsOf(other, mids) <==> b == other && mid in mids
  {
    IdsAreUnique();
    hide Id, Mid;
  }

  // ---------------------------------------------------------------- runs of refreshes

  lemma {:induction false} ReachableNoTwins(rs: seq<Refresh>)
    requires rs != []
    ensures NoTwins(Run(rs).value)
  {
    var before := rs[..|rs| - 1];
    if before != [] {
      ReachableNoTwins(before);
    }
    RefreshKeepsNoTwins(Run(before), rs[|rs| - 1]);
  }

  /** Between any two snapshots of a run the version never falls, and if it is the same no id
      was added and no live id was lost. */
  lemma {:induction false} EqualVersions(rs: seq<Refresh>, k: nat)
    requires 0 < k <= |rs|
    ensures var first, last := Run(rs[..k]).value, Run(rs).value;
      && first.version <= last.version
      && (first.version == last.version ==> last.ids.Keys <= first.ids.Keys && Live(first) <= Live(last))
  {
    if k == |rs| {
      assert rs[..k] == rs;
    } else {
      var before := rs[..|rs| - 1];
      assert before[..k] == rs[..k];
      EqualVersions(before, k);
      VersionKeptExactly(Run(before).value, rs[|rs| - 1]);
    }
  }

  /** `id` is in every snapshot from the `k`-th on. */
  predicate PresentSince(rs: seq<Refresh>, k: nat, id: string)
    requires 0 < k <= |rs|
  {
    id in Run(rs).value.ids && (k < |rs| ==> PresentSince(rs[..|rs| - 1], k, id))
  }

  /** While an id stays present, its first sighting stays the same. */
  lemma {:induction false} FirstSeenKept(rs: seq<Refresh>, k: nat, id: string)
    requires 0 < k <= |rs|
    ensures PresentSince(rs, k, id) ==>
      var first := Run(rs[..k]).value;
      id in Run(rs).value.ids && id in first.ids && Run(rs).value.ids[id].firstSeen == first.ids[id].firstSeen
  {
    hide Refreshed;
    if k == |rs| {
      assert rs[..k] == rs;
    } else if PresentSince(rs, k, id) {
      var before := rs[..|rs| - 1];
      assert before[..k] == rs[..k];
      FirstSeenKept(before, k, id);
      RowLifecycle(Run(before).value, rs[|rs| - 1], id);
    }
  }

  // ---------------------------------------------------------------- the refresh in place

  class Roster {
    var cache: Option<Snapshot>

    constructor ()
      ensures cache == None
    {
      cache := None;
    }

    /** `doRefresh`, once both lists have been fetched. */
    method DoRefresh(r: Refresh)
      modifies this
      ensures cache == Some(Refreshed(old(cache), r))
    {
      hide NextIds, Emitted, Listed;
      var prior := if cache.Some? then cache.value.ids else map[];
      var hadPrior := cache.Some?;
      var next: map<string, Row> := map[];
      if r.catalog.NotModified? {
        next := CarryOver(prior, r);
      } else {
        next := EmitAll(prior, r);
        next := KeepStale(prior, r, next);
      }
      var added := set id <- next | id !in prior;
      var wentStale := set id <- next | next[id].stale && !(id in prior && prior[id].stale);
      assert added == Added(prior, next) && wentStale == WentStale(prior, next);
      var version := if hadPrior then cache.value.version else 0;
      cache := Some(Snapshot(next, version + if hadPrior && |added| + |wentStale| > 0 then 1 else 0));
    }

    /** The branch for an unchanged catalogue. */
    method CarryOver(prior: map<string, Row>, r: Refresh) returns (next: map<string, Row>)
      requires r.catalog.NotModified?
      ensures next == NextIds(prior, r)
    {
      next := map[];
      var todo := prior.Keys;
      while todo != {}
        invariant todo <= prior.Keys
        invariant next == map id <- prior | id !in todo && !prior[id].stale ::
          prior[id].(deprecated := Retired(prior[id].status, r.zen, Mid(id)))
        decreases |todo|
      {
        var id :| id in todo;
        if !prior[id].stale {
          next := next[id := prior[id].(deprecated := Retired(prior[id].status, r.zen, Mid(id)))];
        }
        todo := todo - {id};
      }
    }

    /** The three emit loops. */
    method EmitAll(prior: map<string, Row>, r: Refresh) returns (next: map<string, Row>)
      requires r.catalog.Buckets?
      ensures next == Emitted(prior, r, Listed(r))
    {
      var c := r.catalog;
      var opencode := c.opencode.Keys;
      var goOnly := set m <- c.go | m !in c.opencode;
      var zenOnly := ZenOnly(c, r.zen);
      next := EmitLoop(prior, r, Opencode, opencode, {}, map[]);
      next := EmitLoop(prior, r, OpencodeGo, goOnly, IdsOf(Opencode, opencode), next);
      next := EmitLoop(prior, r, Opencode, zenOnly, IdsOf(Opencode, opencode) + IdsOf(OpencodeGo, goOnly), next);
    }

    /** One emit loop; `listed` are the ids emitted before. */
    method EmitLoop(prior: map<string, Row>, r: Refresh, bucket: Bucket, mids: set<string>,
                    ghost listed: set<string>, start: map<string, Row>)
      returns (next: map<string, Row>)
      requires r.catalog.Buckets? && start == Emitted(prior, r, listed)
      ensures next == Emitted(prior, r, listed + IdsOf(bucket, mids))
    {
      hide ListedRow, Id;
      next := start;
      var todo := mids;
      while todo != {}
        invariant todo <= mids
        invariant next == Emitted(prior, r, listed + IdsOf(bucket, mids - todo))
        decreases |todo|
      {
        var mid :| mid in todo;
        EmitOne(prior, r, bucket, mids - todo, mid, listed);
        next := next[Id(bucket, mid) := EmittedRow(prior, r, Id(bucket, mid), mid, CatalogRowOf(r.catalog, mid))];
        assert mids - (todo - {mid}) == (mids - todo) + {mid};
        todo := todo - {mid};
      }
      assert mids - todo == mids;
    }

    /** The stale grace: ids that are no longer listed stay for one refresh. */
    method KeepStale(prior: map<string, Row>, r: Refresh, start: map<string, Row>) returns (next: map<string, Row>)
      requires r.catalog.Buckets? && start == Emitted(prior, r, Listed(r))
      ensures next == NextIds(prior, r)
    {
      hide ListedRow, Listed, WithGrace;
      next := start;
      GraceEnds(prior, r, start);
      var todo := prior.Keys;
      while todo != {}
        invariant todo <= prior.Keys
        invariant next == WithGrace(prior, prior.Keys - todo, start)
        decreases |todo|
      {
        var id :| id in todo;
        GraceOne(prior, prior.Keys - todo, id, start);
        if id !in next && !prior[id].stale {
          next := next[id := prior[id].(stale := true, deprecated := true)];
        }
        assert prior.Keys - (todo - {id}) == (prior.Keys - todo) + {id};
        todo := todo - {id};
      }
      assert prior.Keys - todo == prior.Keys;
    }
  }

  lemma EmitOne(prior: map<string, Row>, r: Refresh, bucket: Bucket, mids: set<string>, mid: string, listed: set<string>)
    requires r.catalog.Buckets?
    ensures var id := Id(bucket, mid);
      Emitted(prior, r, listed + IdsOf(bucket, mids + {mid}))
        == Emitted(prior, r, listed + IdsOf(bucket, mids))[id := EmittedRow(prior, r, id, mid, CatalogRowOf(r.catalog, mid))]
  {
    MidOf(bucket, mid);
    hide Id, Mid, EmittedRow, CatalogRowOf;
    assert IdsOf(bucket, mids + {mid}) == IdsOf(bucket, mids) + {Id(bucket, mid)};
  }

  function WithGrace(prior: map<string, Row>, seen: set<string>, start: map<string, Row>): map<string, Row> {
    Graced(prior, seen, start.Keys) + start
  }

  lemma GraceEnds(prior: map<string, Row>, r: Refresh, start: map<string, Row>)
    requires r.catalog.Buckets? && start == Emitted(prior, r, Listed(r))
    ensures WithGrace(prior, prior.Keys, start) == NextIds(prior, r)
    ensures WithGrace(prior, prior.Keys - prior.Keys, start) == start
  {
    hide ListedRow, Listed;
    assert start.Keys == Listed(r);
    assert Graced(prior, prior.Keys - prior.Keys, start.Keys) == map[];
  }

  lemma GraceOne(prior: map<string, Row>, seen: set<string>, id: string, start: map<string, Row>)
    requires id in prior && id !in seen
    ensures WithGrace(prior, seen + {id}, start)
         == if id !in start && !prior[id].stale
            then WithGrace(prior, seen, start)[id := prior[id].(stale := true, deprecated := true)]
            else WithGrace(prior, seen, start)
    ensures id in WithGrace(prior, seen, start) <==> id in start
  {
    var row := prior[id].(stale := true, deprecated := true);
    if id !in start && !prior[id].stale {
      assert Graced(prior, seen + {id}, start.Keys) == Graced(prior, seen, start.Keys)[id := row];
    } else {
      assert Graced(prior, seen + {id}, start.Keys) == Graced(prior, seen, start.Keys);
    }
  }
}
