/** Provisioning on Cloudflare: find or create a KV namespace and a tunnel, and keep one DNS record
    pointing at the tunnel, against remote state on which any request can fail, also after it took
    effect. */
module CfDeploy {
  import opened Results
  import opened Text

  type Id = string

  const SCRIPT_NAME := "xray-vless-ws-bridge"
  const TUNNEL_NAME := SCRIPT_NAME + "-tunnel"
  const NAMESPACE_TITLE := SCRIPT_NAME + "-kv"
  const HOSTNAME_PREFIX := "vless"

  /** Anything with an id and a name: a tunnel, a KV namespace, a zone. */
  datatype Named = Named(id: Id, name: string)

  /** A CNAME record. */
  datatype Record = Record(id: Id, zone: Id, name: string, content: string, proxied: bool)

  datatype Config = Config(apiToken: string, domain: string, tunnelToken: string, wsHost: string,
    quotedPassword: string)

  /** The writing requests that were sent. */
  datatype Write =
    | CreateTunnel(name: string)
    | CreateNamespace(title: string)
    | WriteRecord(zone: Id, host: string)
    | UploadScript(namespaceId: Id)
    | AttachDomain(host: string)

  function WorkerHostname(domain: string): (host: string)
  {
    HOSTNAME_PREFIX + "." + domain
  }

  function Target(tunnelId: Id): (content: string)
  {
    tunnelId + ".cfargotunnel.com"
  }

  // ---- lists the server keeps

  /** The first entry with the name. */
  function Find(list: seq<Named>, name: string): (r: Option<Id>)
  {
    if list == [] then None else if list[0].name == name then Some(list[0].id) else Find(list[1..], name)
  }

  function Count(list: seq<Named>, name: string): (n: nat)
  {
    if list == [] then 0 else (if list[0].name == name then 1 else 0) + Count(list[1..], name)
  }

  lemma {:induction false} FindCount(list: seq<Named>, name: string)
    ensures Find(list, name).None? <==> Count(list, name) == 0
    ensures Find(list, name).Some? ==> Named(Find(list, name).value, name) in list
  {
    if list != [] {
      FindCount(list[1..], name);
    }
  }

  lemma {:induction false} CountConcat(a: seq<Named>, b: seq<Named>, name: string)
    ensures Count(a + b, name) == Count(a, name) + Count(b, name)
  {
    if a == [] {
      assert a + b == b;
    } else {
      assert (a + b)[1..] == a[1..] + b;
      CountConcat(a[1..], b, name);
    }
  }

  /** The server adds new entries where it likes. */
  ghost predicate Inserted<T(!new)>(before: seq<T>, after: seq<T>, x: T)
  {
    exists k :: 0 <= k <= |before| && after == before[..k] + [x] + before[k..]
  }

  lemma InsertedCount(before: seq<Named>, after: seq<Named>, x: Named, name: string)
    requires Inserted(before, after, x)
    ensures Count(after, name) == Count(before, name) + if x.name == name then 1 else 0
    ensures x in after
  {
    var k :| 0 <= k <= |before| && after == before[..k] + [x] + before[k..];
    assert before == before[..k] + before[k..];
    CountConcat(before[..k], before[k..], name);
    CountConcat(before[..k], [x], name);
    CountConcat(before[..k] + [x], before[k..], name);
    assert after[k] == x;
  }

  /** The only entry with a name is the one found. */
  lemma {:induction false} FindOnly(list: seq<Named>, x: Named)
    requires x in list && Count(list, x.name) == 1
    ensures Find(list, x.name) == Some(x.id)
  {
    FindCount(list[1..], x.name);
    if list[0].name == x.name {
      if list[0] != x {
        InList(list[1..], x);
      }
    } else {
      FindOnly(list[1..], x);
    }
  }

  lemma {:induction false} InList(list: seq<Named>, x: Named)
    requires x in list
    ensures Count(list, x.name) > 0
  {
    if list[0] != x {
      InList(list[1..], x);
    }
  }

  /** What listing the records of one host returns. */
  function Listing(records: seq<Record>, zone: Id, host: string): (r: seq<Record>)
  {
    if records == [] then []
    else
      (if records[0].zone == zone && records[0].name == host then [records[0]] else [])
      + Listing(records[1..], zone, host)
  }

  lemma {:induction false} ListingConcat(a: seq<Record>, b: seq<Record>, zone: Id, host: string)
    ensures Listing(a + b, zone, host) == Listing(a, zone, host) + Listing(b, zone, host)
  {
    if a == [] {
      assert a + b == b;
    } else {
      assert (a + b)[1..] == a[1..] + b;
      ListingConcat(a[1..], b, zone, host);
    }
  }

  lemma InsertedListing(before: seq<Record>, after: seq<Record>, x: Record, zone: Id, host: string)
    requires Inserted(before, after, x)
    ensures x.zone != zone || x.name != host ==> Listing(after, zone, host) == Listing(before, zone, host)
    ensures x.zone == zone && x.name == host && Listing(before, zone, host) == [] ==> Listing(after, zone, host) == [x]
  {
    var k :| 0 <= k <= |before| && after == before[..k] + [x] + before[k..];
    assert before == before[..k] + before[k..];
    ListingAround(before[..k], x, before[k..], zone, host);
  }

  lemma ListingAround(a: seq<Record>, x: Record, b: seq<Record>, zone: Id, host: string)
    ensures var l := Listing(a + [x] + b, zone, host);
      if x.zone == zone && x.name == host then l == Listing(a, zone, host) + [x] + Listing(b, zone, host)
      else l == Listing(a + b, zone, host)
    ensures Listing(a + b, zone, host) == Listing(a, zone, host) + Listing(b, zone, host)
  {
    assert Listing([x], zone, host) == if x.zone == zone && x.name == host then [x] else [];
    hide Listing;
    ListingConcat(a, b, zone, host);
    ListingConcat(a, [x], zone, host);
    ListingConcat(a + [x], b, zone, host);
  }

  /** Replace the content of the record with an id. */
  function Put(records: seq<Record>, x: Record): (r: seq<Record>)
    ensures |r| == |records|
  {
    if records == [] then []
    else [if records[0].id == x.id && records[0].zone == x.zone then x else records[0]] + Put(records[1..], x)
  }

  ghost predicate UniqueIds(records: seq<Record>)
  {
    forall i, j :: 0 <= i < j < |records| ==> records[i].id != records[j].id || records[i].zone != records[j].zone
  }

  /** Putting a record back under its own name changes that host's list in one place only. */
  lemma {:induction false} PutListing(records: seq<Record>, x: Record, zone: Id, host: string)
    requires forall r :: r in records && r.id == x.id && r.zone == x.zone ==> r.name == x.name
    ensures Listing(Put(records, x), zone, host) == Put(Listing(records, zone, host), x)
  {
    if records != [] {
      PutListing(records[1..], x, zone, host);
      var rest := Listing(records[1..], zone, host);
      assert ([records[0]] + rest)[1..] == rest;
      assert [] + rest == rest;
    }
  }

  lemma {:induction false} PutAbsent(records: seq<Record>, x: Record)
    requires forall r :: r in records ==> r.id != x.id || r.zone != x.zone
    ensures Put(records, x) == records
  {
    if records != [] {
      PutAbsent(records[1..], x);
    }
  }

  lemma {:induction false} ListingIn(records: seq<Record>, zone: Id, host: string, r: Record)
    ensures r in Listing(records, zone, host) <==> r in records && r.zone == zone && r.name == host
  {
    if records != [] {
      ListingIn(records[1..], zone, host, r);
    }
  }

  lemma {:induction false} PutUnique(records: seq<Record>, x: Record)
    ensures forall i :: 0 <= i < |records| ==>
      Put(records, x)[i].id == records[i].id && Put(records, x)[i].zone == records[i].zone
    ensures UniqueIds(records) ==> UniqueIds(Put(records, x))
  {
    if records != [] {
      PutUnique(records[1..], x);
    }
  }

  // ---- the server

  class Remote {
    /** Entries on the one page of namespaces that is read. */
    const pageSize: nat
    const zones: seq<Named>
    const tokens: Id -> string
    var tunnels: seq<Named>
    var namespaces: seq<Named>
    var records: seq<Record>
    var script: Option<Id> // the namespace the deployed script is bound to
    var domains: set<string>
    var writes: seq<Write>

    /** Requests that failed or whose reply was lost. */
    ghost var failures: nat

    ghost predicate Valid()
      reads this
    {
      UniqueIds(records)
    }

    /** A request with nothing to remember: it succeeds or it fails. */
    method Ask() returns (ok: bool)
      modifies this`failures
      ensures failures == old(failures) + if ok then 0 else 1
    {
      ok := *;
      if !ok {
        failures := failures + 1;
      }
    }

    /** A writing request takes effect or not; without effect it cannot succeed, and with effect its
        reply can still be lost. */
    method Send(w: Write) returns (took: bool, ok: bool)
      modifies this`writes, this`failures
      ensures writes == old(writes) + [w] && (ok ==> took)
      ensures failures == old(failures) + if ok then 0 else 1
    {
      writes := writes + [w];
      took := *;
      ok := *;
      ok := ok && took;
      if !ok {
        failures := failures + 1;
      }
    }

    function FirstPage(): (r: seq<Named>)
      reads this
      ensures r <= namespaces && (|namespaces| <= pageSize ==> r == namespaces)
    {
      if |namespaces| <= pageSize then namespaces else namespaces[..pageSize]
    }

    method PostNamespace(title: string) returns (id: Option<Id>)
      modifies this`namespaces, this`writes, this`failures
      ensures failures == old(failures) + if id.Some? then 0 else 1
      ensures writes == old(writes) + [CreateNamespace(title)]
      ensures namespaces == old(namespaces) || exists n :: Inserted(old(namespaces), namespaces, Named(n, title))
      ensures id.Some? ==> Inserted(old(namespaces), namespaces, Named(id.value, title))
    {
      var took, ok := Send(CreateNamespace(title));
      id := None;
      if took {
        var n := FreshId(Ids(namespaces));
        namespaces := InsertAnywhere(namespaces, Named(n, title));
        if ok {
          id := Some(n);
        }
      }
    }

    method PostTunnel(name: string) returns (id: Option<Id>)
      modifies this`tunnels, this`writes, this`failures
      ensures failures == old(failures) + if id.Some? then 0 else 1
      ensures writes == old(writes) + [CreateTunnel(name)]
      ensures tunnels == old(tunnels) || exists n :: Inserted(old(tunnels), tunnels, Named(n, name))
      ensures id.Some? ==> Inserted(old(tunnels), tunnels, Named(id.value, name))
    {
      var took, ok := Send(CreateTunnel(name));
      id := None;
      if took {
        var n := FreshId(Ids(tunnels));
        tunnels := InsertAnywhere(tunnels, Named(n, name));
        if ok {
          id := Some(n);
        }
      }
    }

    method PostRecord(zone: Id, host: string, content: string) returns (ok: bool)
      requires Valid()
      modifies this`records, this`writes, this`failures
      ensures failures == old(failures) + if ok then 0 else 1
      ensures Valid() && writes == old(writes) + [WriteRecord(zone, host)]
      ensures records == old(records)
        || exists n :: Inserted(old(records), records, Record(n, zone, host, content, true))
      ensures ok ==> exists n :: Inserted(old(records), records, Record(n, zone, host, content, true))
    {
      var took;
      took, ok := Send(WriteRecord(zone, host));
      if took {
        var n := FreshId(set r | r in records :: r.id);
        ghost var before := records;
        records := InsertAnywhere(records, Record(n, zone, host, content, true));
        InsertedUnique(before, records, Record(n, zone, host, content, true));
      }
    }

    method PutScript(namespaceId: Id) returns (ok: bool)
      modifies this`script, this`writes, this`failures
      ensures failures == old(failures) + if ok then 0 else 1
      ensures writes == old(writes) + [UploadScript(namespaceId)]
      ensures script in {old(script), Some(namespaceId)} && (ok ==> script == Some(namespaceId))
    {
      var took;
      took, ok := Send(UploadScript(namespaceId));
      if took {
        script := Some(namespaceId);
      }
    }

    method PutDomain(host: string) returns (ok: bool)
      modifies this`domains, this`writes, this`failures
      ensures failures == old(failures) + if ok then 0 else 1
      ensures writes == old(writes) + [AttachDomain(host)]
      ensures domains in {old(domains), old(domains) + {host}} && (ok ==> host in domains)
    {
      var took;
      took, ok := Send(AttachDomain(host));
      if took {
        domains := domains + {host};
      }
    }

    method PutRecord(zone: Id, id: Id, host: string, content: string) returns (ok: bool)
      requires Valid()
      modifies this`records, this`writes, this`failures
      ensures failures == old(failures) + if ok then 0 else 1
      ensures Valid() && writes == old(writes) + [WriteRecord(zone, host)]
      ensures records == old(records) || records == Put(old(records), Record(id, zone, host, content, true))
      ensures ok ==> records == Put(old(records), Record(id, zone, host, content, true))
    {
      var took;
      took, ok := Send(WriteRecord(zone, host));
      if took {
        PutUnique(records, Record(id, zone, host, content, true));
        records := Put(records, Record(id, zone, host, content, true));
      }
    }
  }

  // ---- helpers of the server

  function Ids(list: seq<Named>): (r: set<Id>)
  {
    set n | n in list :: n.id
  }

  method InsertAnywhere<T(!new)>(list: seq<T>, x: T) returns (r: seq<T>)
    ensures Inserted(list, r, x)
  {
    var k :| 0 <= k <= |list|;
    r := list[..k] + [x] + list[k..];
  }

  method FreshId(ids: set<Id>) returns (id: Id)
    ensures id !in ids
  {
    var rest := ids;
    id := "";
    while rest != {}
      invariant rest <= ids
      invariant forall n :: n in ids && n !in rest ==> |n| < |id|
      decreases rest
    {
      var n :| n in rest;
      if |n| >= |id| {
        id := n + "0";
      }
      rest := rest - {n};
    }
  }

  lemma InsertedUnique(before: seq<Record>, after: seq<Record>, x: Record)
    requires Inserted(before, after, x) && UniqueIds(before)
    requires forall r :: r in before ==> r.id != x.id
    ensures UniqueIds(after)
  {
    var k :| 0 <= k <= |before| && after == before[..k] + [x] + before[k..];
    forall i, j | 0 <= i < j < |after| ensures after[i].id != after[j].id || after[i].zone != after[j].zone {
      if i == k {
        assert after[j] == before[j - 1];
      } else if j == k {
        assert after[i] == before[i];
      }
    }
  }

  // ---- find or create

  /** An existing namespace on the page that is read is reused without a write; otherwise one is
      created, which makes a duplicate exactly when the title stands beyond the page. */
  method EnsureKVNamespace(remote: Remote, title: string) returns (id: Option<Id>)
    modifies remote`namespaces, remote`writes, remote`failures
    ensures remote.failures == old(remote.failures) + if id.Some? then 0 else 1
    ensures Find(old(remote.FirstPage()), title).Some? ==>
      && remote.namespaces == old(remote.namespaces) && remote.writes == old(remote.writes)
      && (id.Some? ==> id == Find(old(remote.FirstPage()), title))
    ensures Find(old(remote.FirstPage()), title).None? ==>
      && remote.writes in {old(remote.writes), old(remote.writes) + [CreateNamespace(title)]}
      && Count(remote.namespaces, title) <= Count(old(remote.namespaces), title) + 1
    ensures Find(old(remote.FirstPage()), title).None? && id.Some? ==>
      Count(remote.namespaces, title) == Count(old(remote.namespaces), title) + 1
    ensures id.Some? ==> Named(id.value, title) in remote.namespaces
    ensures |remote.namespaces| <= |old(remote.namespaces)| + 1
    ensures remote.writes == old(remote.writes) ==> remote.namespaces == old(remote.namespaces)
    ensures Count(remote.namespaces, title) == Count(old(remote.namespaces), title) ==>
      |remote.namespaces| == |old(remote.namespaces)|
    ensures Count(remote.namespaces, title) >= Count(old(remote.namespaces), title)
    ensures forall other :: other != title ==> Count(remote.namespaces, other) == Count(old(remote.namespaces), other)
  {
    FindCount(remote.FirstPage(), title);
    var ok := remote.Ask();
    if !ok {
      return None;
    }
    id := Find(remote.FirstPage(), title);
    if id.Some? {
      return;
    }
    ghost var before := remote.namespaces;
    id := remote.PostNamespace(title);
    if remote.namespaces != before {
      var n :| Inserted(before, remote.namespaces, Named(n, title));
      forall other: string
        ensures Count(remote.namespaces, other) == Count(before, other) + if other == title then 1 else 0
      {
        InsertedCount(before, remote.namespaces, Named(n, title), other);
      }
    }
    if id.Some? {
      InsertedCount(before, remote.namespaces, Named(id.value, title), title);
    }
  }

  /** While the listing is complete the title never gets a second namespace. */
  method EnsureTunnel(remote: Remote, name: string) returns (id: Option<Id>)
    modifies remote`tunnels, remote`writes, remote`failures
    ensures remote.failures == old(remote.failures) + if id.Some? then 0 else 1
    ensures Count(old(remote.tunnels), name) > 0 ==>
      remote.tunnels == old(remote.tunnels) && remote.writes == old(remote.writes)
    ensures Count(old(remote.tunnels), name) == 0 ==>
      && Count(remote.tunnels, name) <= 1
      && remote.writes in {old(remote.writes), old(remote.writes) + [CreateTunnel(name)]}
    ensures forall other :: other != name ==> Count(remote.tunnels, other) == Count(old(remote.tunnels), other)
    ensures id.Some? ==> id == Find(remote.tunnels, name)
  {
    FindCount(remote.tunnels, name);
    var ok := remote.Ask();
    if !ok {
      return None;
    }
    id := Find(remote.tunnels, name);
    if id.Some? {
      return;
    }
    ghost var before := remote.tunnels;
    id := remote.PostTunnel(name);
    if remote.tunnels != before {
      var n :| Inserted(before, remote.tunnels, Named(n, name));
      forall other: string
        ensures Count(remote.tunnels, other) == Count(before, other) + if other == name then 1 else 0
      {
        InsertedCount(before, remote.tunnels, Named(n, name), other);
      }
    }
    if id.Some? {
      InsertedCount(before, remote.tunnels, Named(id.value, name), name);
      FindOnly(remote.tunnels, Named(id.value, name));
    }
  }

  // ---- the DNS route

  /** The first record of the host is a proxied CNAME to the tunnel. */
  ghost predicate RoutedTo(records: seq<Record>, zone: Id, host: string, tunnelId: Id)
  {
    var listing := Listing(records, zone, host);
    listing != [] && listing[0].content == Target(tunnelId) && listing[0].proxied
  }

  /** The target of a tunnel is its id under the common domain, so a host is routed to one tunnel at most. */
  lemma RouteIsExclusive(records: seq<Record>, zone: Id, host: string, a: Id, b: Id)
    requires RoutedTo(records, zone, host, a)
    ensures RoutedTo(records, zone, host, b) <==> a == b
    ensures var content := Listing(records, zone, host)[0].content;
            |content| > |a| && content[..|a|] == a && content[|a|..] == ".cfargotunnel.com"
  {
    hide Listing;
    assert Target(a)[..|a|] == a;
    assert Target(b)[..|b|] == b;
  }

  /** The records of all other hosts are as before. */
  ghost predicate OthersKept(before: seq<Record>, after: seq<Record>, zone: Id, host: string)
  {
    forall z, h :: z != zone || h != host ==> Listing(after, z, h) == Listing(before, z, h)
  }

  lemma PostedRecord(before: seq<Record>, after: seq<Record>, x: Record)
    requires Inserted(before, after, x)
    ensures OthersKept(before, after, x.zone, x.name)
    ensures Listing(before, x.zone, x.name) == [] ==> Listing(after, x.zone, x.name) == [x]
  {
    forall z: Id, h: string ensures z != x.zone || h != x.name ==> Listing(after, z, h) == Listing(before, z, h) {
      InsertedListing(before, after, x, z, h);
    }
    InsertedListing(before, after, x, x.zone, x.name);
  }

  lemma UniqueOwner(records: seq<Record>, r: Record, x: Record)
    requires UniqueIds(records) && r in records && x in records && r.id == x.id && r.zone == x.zone
    ensures r == x
  {
    var i :| 0 <= i < |records| && records[i] == r;
    var j :| 0 <= j < |records| && records[j] == x;
  }

  lemma PutRecordListing(records: seq<Record>, first: Record, x: Record)
    requires UniqueIds(records) && Listing(records, x.zone, x.name) != []
    requires first == Listing(records, x.zone, x.name)[0] && x.id == first.id
    ensures OthersKept(records, Put(records, x), x.zone, x.name)
    ensures Listing(Put(records, x), x.zone, x.name) != [] && Listing(Put(records, x), x.zone, x.name)[0] == x
  {
    ListingIn(records, x.zone, x.name, first);
    forall r | r in records && r.id == x.id && r.zone == x.zone ensures r.name == x.name {
      UniqueOwner(records, r, first);
    }
    PutListing(records, x, x.zone, x.name);
    forall z: Id, h: string | z != x.zone || h != x.name
      ensures Listing(Put(records, x), z, h) == Listing(records, z, h)
    {
      PutListing(records, x, z, h);
      forall r | r in Listing(records, z, h) ensures r.id != x.id || r.zone != x.zone {
        ListingIn(records, z, h, r);
        if r.id == x.id && r.zone == x.zone {
          UniqueOwner(records, r, first);
        }
      }
      PutAbsent(Listing(records, z, h), x);
    }
  }

  /** Success means the route is in place; a route already in place is not written again. */
  method EnsureDNSRoute(remote: Remote, zone: Id, host: string, tunnelId: Id) returns (ok: bool)
    requires remote.Valid()
    modifies remote`records, remote`writes, remote`failures
    ensures remote.failures == old(remote.failures) + if ok then 0 else 1
    ensures remote.Valid() && OthersKept(old(remote.records), remote.records, zone, host)
    ensures ok ==> RoutedTo(remote.records, zone, host, tunnelId)
    ensures RoutedTo(old(remote.records), zone, host, tunnelId) ==>
      remote.records == old(remote.records) && remote.writes == old(remote.writes)
    ensures remote.writes in {old(remote.writes), old(remote.writes) + [WriteRecord(zone, host)]}
  {
    ok := remote.Ask();
    if !ok {
      return;
    }
    hide Listing, Put, UniqueIds, Target;
    var listing := Listing(remote.records, zone, host);
    ghost var before := remote.records;
    if listing == [] {
      ok := remote.PostRecord(zone, host, Target(tunnelId));
      if remote.records != before {
        var n :| Inserted(before, remote.records, Record(n, zone, host, Target(tunnelId), true));
        PostedRecord(before, remote.records, Record(n, zone, host, Target(tunnelId), true));
      } else if ok {
        var n :| Inserted(before, remote.records, Record(n, zone, host, Target(tunnelId), true));
        PostedRecord(before, remote.records, Record(n, zone, host, Target(tunnelId), true));
      }
      return;
    }
    var existing := listing[0];
    if existing.content == Target(tunnelId) && existing.proxied {
      return true;
    }
    PutRecordListing(before, existing, Record(existing.id, zone, host, Target(tunnelId), true));
    ok := remote.PutRecord(zone, existing.id, host, Target(tunnelId));
  }

  // ---- the named tunnel

  /** Whether a tunnel is provisioned at all. */
  predicate Applies(cfg: Config)
  {
    && cfg.tunnelToken == "" && cfg.wsHost != "" && cfg.wsHost != "trycloudflare.com"
    && cfg.wsHost != WorkerHostname(cfg.domain)
    && (cfg.wsHost == cfg.domain || HasSuffix(cfg.wsHost, "." + cfg.domain))
  }

  /** The guards, by what they keep out: a tunnel token of one's own, no host or the default one, the Worker's
      hostname, and every host that is neither the domain nor below it. */
  lemma AppliesIff(cfg: Config)
    ensures Applies(cfg) <==>
      && cfg.tunnelToken == "" && cfg.wsHost !in {"", "trycloudflare.com", WorkerHostname(cfg.domain)}
      && (cfg.wsHost == cfg.domain || exists sub :: cfg.wsHost == sub + ("." + cfg.domain))
  {
    hide WorkerHostname, HasSuffix;
    PrefixAndSuffix(cfg.wsHost, "." + cfg.domain);
  }

  /** The tunnel exists and the host's first record is a proxied CNAME to it. */
  ghost predicate Routed(remote: Remote, cfg: Config)
    reads remote
  {
    var tunnel, zone := Find(remote.tunnels, TUNNEL_NAME), Find(remote.zones, cfg.domain);
    tunnel.Some? && zone.Some? && RoutedTo(remote.records, zone.value, cfg.wsHost, tunnel.value)
  }

  /** What a tunnel pass needs beyond requests that succeed: the zone, and a token for the tunnel. */
  ghost predicate Grantable(remote: Remote, cfg: Config)
    reads remote
  {
    var tunnel := Find(remote.tunnels, TUNNEL_NAME);
    Find(remote.zones, cfg.domain).Some? && (tunnel.Some? ==> remote.tokens(tunnel.value) != "")
  }

  /** The writes a tunnel pass may send. */
  ghost predicate TunnelWrites(before: seq<Write>, after: seq<Write>, host: string)
  {
    before <= after && forall w :: w in after[|before|..] ==>
      w == CreateTunnel(TUNNEL_NAME) || (w.WriteRecord? && w.host == host)
  }

  /** Token of the routed tunnel, or the empty token without touching anything when the guards say
      no; `None` is an error. */
  method EnsureNamedTunnel(remote: Remote, cfg: Config) returns (token: Option<string>)
    requires remote.Valid()
    modifies remote`tunnels, remote`records, remote`writes, remote`failures
    ensures remote.Valid()
    ensures remote.failures >= old(remote.failures)
    ensures remote.failures == old(remote.failures) && Grantable(remote, cfg) ==> token.Some?
    ensures !Applies(cfg) ==> token == Some("") && remote.tunnels == old(remote.tunnels)
                              && remote.records == old(remote.records) && remote.writes == old(remote.writes)
    ensures Applies(cfg) && token.Some? ==>
      Routed(remote, cfg) && token.value != "" && token.value == remote.tokens(Find(remote.tunnels, TUNNEL_NAME).value)
    ensures old(Routed(remote, cfg)) ==>
      remote.tunnels == old(remote.tunnels) && remote.records == old(remote.records)
        && remote.writes == old(remote.writes)
    ensures Count(remote.tunnels, TUNNEL_NAME) <= 1 || remote.tunnels == old(remote.tunnels)
    ensures TunnelWrites(old(remote.writes), remote.writes, cfg.wsHost)
  {
    hide RoutedTo, Target, HasSuffix, Count, OthersKept, UniqueIds, Find;
    if cfg.tunnelToken != "" || cfg.wsHost == "" || cfg.wsHost == "trycloudflare.com" {
      return Some("");
    }
    if cfg.wsHost == WorkerHostname(cfg.domain) {
      return Some("");
    }
    if cfg.wsHost != cfg.domain && !HasSuffix(cfg.wsHost, "." + cfg.domain) {
      return Some("");
    }
    FindCount(remote.tunnels, TUNNEL_NAME);
    var tunnelId := EnsureTunnel(remote, TUNNEL_NAME);
    if tunnelId.None? {
      return None;
    }
    var ok := remote.Ask();
    if !ok || remote.tokens(tunnelId.value) == "" {
      return None;
    }
    token := Some(remote.tokens(tunnelId.value));
    ok := remote.Ask();
    var zone := Find(remote.zones, cfg.domain);
    if !ok || zone.None? {
      return None;
    }
    ok := EnsureDNSRoute(remote, zone.value, cfg.wsHost, tunnelId.value);
    if !ok {
      return None;
    }
  }

  // ---- a whole run

  function WebhookURL(cfg: Config): (url: string)
    ensures url != ""
  {
    "https://" + WorkerHostname(cfg.domain) + "/setapi?password=" + cfg.quotedPassword
  }

  /** The Worker is live: its script is bound to a namespace with the right title and its hostname is
      attached. */
  ghost predicate WorkerLive(remote: Remote, cfg: Config)
    reads remote
  {
    && remote.script.Some? && Named(remote.script.value, NAMESPACE_TITLE) in remote.namespaces
    && WorkerHostname(cfg.domain) in remote.domains
  }

  /** What the KV and tunnel steps aim at is already there. */
  ghost predicate Settled(remote: Remote, cfg: Config)
    reads remote
  {
    Find(remote.FirstPage(), NAMESPACE_TITLE).Some? && (Applies(cfg) ==> Routed(remote, cfg))
  }

  /** The writes a run may send; a DNS write never names the Worker's hostname. */
  ghost predicate RunWrite(cfg: Config, w: Write)
  {
    match w
    case CreateTunnel(name) => name == TUNNEL_NAME
    case CreateNamespace(title) => title == NAMESPACE_TITLE
    case WriteRecord(_, host) => host == cfg.wsHost != WorkerHostname(cfg.domain)
    case UploadScript(_) => true
    case AttachDomain(host) => host == WorkerHostname(cfg.domain)
  }

  ghost predicate RunWrites(cfg: Config, before: seq<Write>, after: seq<Write>)
  {
    before <= after && forall w :: w in after[|before|..] ==> RunWrite(cfg, w)
  }

  /** Only the unconditional re-deployment is sent: no create and no DNS write. */
  ghost predicate ReadsOnly(before: seq<Write>, after: seq<Write>)
  {
    before <= after && forall w :: w in after[|before|..] ==> w.UploadScript? || w.AttachDomain?
  }

  /** A listing that sees the title, or still has room for it. */
  ghost predicate Complete(remote: Remote)
    reads remote
  {
    Seen(remote.namespaces, remote.pageSize)
  }

  predicate Seen(list: seq<Named>, pageSize: nat)
  {
    if Count(list, NAMESPACE_TITLE) > 0 then |list| <= pageSize else |list| < pageSize
  }

  lemma StaysSeen(before: seq<Named>, after: seq<Named>, pageSize: nat)
    requires Seen(before, pageSize) && |after| <= |before| + 1
    requires Count(before, NAMESPACE_TITLE) > 0 ==> after == before
    requires Count(before, NAMESPACE_TITLE) <= Count(after, NAMESPACE_TITLE) <= Count(before, NAMESPACE_TITLE) + 1
    requires Count(after, NAMESPACE_TITLE) == Count(before, NAMESPACE_TITLE) ==> |after| == |before|
    ensures Seen(after, pageSize)
    ensures Count(after, NAMESPACE_TITLE) <= Max(1, Count(before, NAMESPACE_TITLE))
  {
    hide Count;
  }

  function Max(a: nat, b: nat): (r: nat)
  {
    if a < b then b else a
  }

  lemma OneMoreWrite(cfg: Config, before: seq<Write>, after: seq<Write>, w: Write)
    requires RunWrites(cfg, before, after) && RunWrite(cfg, w)
    ensures RunWrites(cfg, before, after + [w])
    ensures ReadsOnly(before, after) && (w.UploadScript? || w.AttachDomain?) ==> ReadsOnly(before, after + [w])
  {
    assert (after + [w])[|before|..] == after[|before|..] + [w];
  }

  lemma MayCreate(cfg: Config, writes: seq<Write>)
    ensures RunWrites(cfg, writes, writes) && ReadsOnly(writes, writes)
    ensures RunWrites(cfg, writes, writes + [CreateNamespace(NAMESPACE_TITLE)])
  {
    OneMoreWrite(cfg, writes, writes, CreateNamespace(NAMESPACE_TITLE));
  }

  lemma MayDeploy(cfg: Config, namespaceId: Id)
    ensures RunWrite(cfg, UploadScript(namespaceId)) && RunWrite(cfg, AttachDomain(WorkerHostname(cfg.domain)))
  {
  }

  /** On a complete listing the page read has the title if any does. */
  lemma SeenIsFound(remote: Remote)
    ensures Seen(remote.namespaces, remote.pageSize) && Count(remote.namespaces, NAMESPACE_TITLE) > 0 ==>
      Find(remote.FirstPage(), NAMESPACE_TITLE).Some?
  {
    hide Count, Find;
    FindCount(remote.namespaces, NAMESPACE_TITLE);
  }

  /** The Worker half: namespace, script, domain. */
  method EnsureWorker(remote: Remote, cfg: Config) returns (ok: bool)
    modifies remote`namespaces, remote`script, remote`domains, remote`writes, remote`failures
    ensures remote.failures == old(remote.failures) + if ok then 0 else 1
    ensures ok ==> WorkerLive(remote, cfg)
    ensures RunWrites(cfg, old(remote.writes), remote.writes)
    ensures Find(old(remote.FirstPage()), NAMESPACE_TITLE).Some? ==>
      remote.namespaces == old(remote.namespaces) && ReadsOnly(old(remote.writes), remote.writes)
    ensures old(Complete(remote)) ==> Complete(remote)
    ensures old(Complete(remote)) ==>
      Count(remote.namespaces, NAMESPACE_TITLE) <= Max(1, Count(old(remote.namespaces), NAMESPACE_TITLE))
  {
    hide Count, Find, Inserted, RunWrites, ReadsOnly, RunWrite, WorkerHostname, Seen;
    ghost var start, before := remote.writes, remote.namespaces;
    SeenIsFound(remote);
    MayCreate(cfg, start);
    ok := remote.Ask(); // resolving the account
    if !ok {
      return;
    }
    var namespaceId := EnsureKVNamespace(remote, NAMESPACE_TITLE);
    if Seen(before, remote.pageSize) {
      StaysSeen(before, remote.namespaces, remote.pageSize);
    }
    MayDeploy(cfg, if namespaceId.Some? then namespaceId.value else "");
    OneMoreWrite(cfg, start, remote.writes, UploadScript(if namespaceId.Some? then namespaceId.value else ""));
    if namespaceId.None? {
      return false;
    }
    ok := remote.PutScript(namespaceId.value);
    if !ok {
      return;
    }
    OneMoreWrite(cfg, start, remote.writes, AttachDomain(WorkerHostname(cfg.domain)));
    ok := remote.PutDomain(WorkerHostname(cfg.domain));
  }

  /** A run that fails in its tunnel half still returns the Worker's URL. */
  method Ensure(remote: Remote, cfg: Config) returns (webhook: string, token: string, failed: bool)
    requires remote.Valid()
    modifies remote
    ensures remote.Valid()
    ensures cfg.apiToken == "" || cfg.domain == "" ==>
      webhook == "" && token == "" && !failed && remote.writes == old(remote.writes)
    ensures cfg.apiToken != "" && cfg.domain != "" && !failed ==>
      && webhook == WebhookURL(cfg) && WorkerLive(remote, cfg)
      && if Applies(cfg)
         then Routed(remote, cfg) && token == remote.tokens(Find(remote.tunnels, TUNNEL_NAME).value) != ""
         else token == ""
    ensures failed ==> token == ""
    ensures remote.failures >= old(remote.failures)
    ensures remote.failures == old(remote.failures) && (Applies(cfg) ==> Grantable(remote, cfg)) ==> !failed
    ensures webhook != "" ==> webhook == WebhookURL(cfg) && WorkerLive(remote, cfg)
    ensures RunWrites(cfg, old(remote.writes), remote.writes)
    ensures old(Settled(remote, cfg)) ==> Settled(remote, cfg) && ReadsOnly(old(remote.writes), remote.writes)
    ensures Count(remote.tunnels, TUNNEL_NAME) <= Max(1, Count(old(remote.tunnels), TUNNEL_NAME))
    ensures old(Complete(remote)) ==> Complete(remote)
    ensures old(Complete(remote)) ==>
      Count(remote.namespaces, NAMESPACE_TITLE) <= Max(1, Count(old(remote.namespaces), NAMESPACE_TITLE))
  {
    if cfg.apiToken == "" || cfg.domain == "" {
      return "", "", false;
    }
    hide Count, Find, Inserted, RoutedTo, UniqueIds;
    var ok := EnsureWorker(remote, cfg);
    if !ok {
      return "", "", true;
    }
    ghost var between := remote.writes;
    var tunnelToken := EnsureNamedTunnel(remote, cfg);
    RunThenTunnel(cfg, old(remote.writes), between, remote.writes);
    if tunnelToken.None? {
      return WebhookURL(cfg), "", true;
    }
    return WebhookURL(cfg), tunnelToken.value, false;
  }

  lemma RunThenTunnel(cfg: Config, a: seq<Write>, b: seq<Write>, c: seq<Write>)
    requires RunWrites(cfg, a, b) && TunnelWrites(b, c, cfg.wsHost)
    requires !Applies(cfg) ==> b == c
    ensures RunWrites(cfg, a, c)
    ensures b == c && ReadsOnly(a, b) ==> ReadsOnly(a, c)
  {
    assert c[|a|..] == b[|a|..] + c[|b|..];
  }

  lemma RunsConcat(cfg: Config, a: seq<Write>, b: seq<Write>, c: seq<Write>)
    requires RunWrites(cfg, a, b) && RunWrites(cfg, b, c)
    ensures RunWrites(cfg, a, c)
  {
    assert c[|a|..] == b[|a|..] + c[|b|..];
  }

  /** Any number of runs, each of which may fail at any request, then one more.  That one succeeds if
      none of its own requests fails and what it needs exists; if it succeeds, everything is in
      place, and the runs made no duplicate while the listing stayed complete. */
  method Converge(remote: Remote, cfg: Config, attempts: nat) returns (failed: bool, ghost earlier: nat)
    requires remote.Valid() && cfg.apiToken != "" && cfg.domain != ""
    modifies remote
    ensures remote.Valid()
    ensures remote.failures == earlier && (Applies(cfg) ==> Grantable(remote, cfg)) ==> !failed
    ensures !failed ==> WorkerLive(remote, cfg) && (Applies(cfg) ==> Routed(remote, cfg))
    ensures !failed && |remote.namespaces| <= remote.pageSize ==> Settled(remote, cfg)
    ensures RunWrites(cfg, old(remote.writes), remote.writes)
    ensures Count(remote.tunnels, TUNNEL_NAME) <= Max(1, Count(old(remote.tunnels), TUNNEL_NAME))
    ensures old(Complete(remote)) ==> Complete(remote)
    ensures old(Complete(remote)) ==>
      Count(remote.namespaces, NAMESPACE_TITLE) <= Max(1, Count(old(remote.namespaces), NAMESPACE_TITLE))
  {
    hide Routed, Remote.Valid, Applies, RunWrites, ReadsOnly, Grantable;
    var webhook, token;
    assert RunWrites(cfg, remote.writes, remote.writes) by { RunsNone(cfg, remote.writes); }
    for i := 0 to attempts
      invariant remote.Valid() && RunWrites(cfg, old(remote.writes), remote.writes)
      invariant Count(remote.tunnels, TUNNEL_NAME) <= Max(1, Count(old(remote.tunnels), TUNNEL_NAME))
      invariant old(Complete(remote)) ==> Complete(remote)
      invariant old(Complete(remote)) ==>
        Count(remote.namespaces, NAMESPACE_TITLE) <= Max(1, Count(old(remote.namespaces), NAMESPACE_TITLE))
    {
      ghost var before := remote.writes;
      webhook, token, failed := Ensure(remote, cfg);
      RunsConcat(cfg, old(remote.writes), before, remote.writes);
    }
    ghost var before := remote.writes;
    earlier := remote.failures;
    webhook, token, failed := Ensure(remote, cfg);
    RunsConcat(cfg, old(remote.writes), before, remote.writes);
    if !failed {
      InNamespaces(remote.namespaces, remote.script.value);
    }
  }

  lemma RunsNone(cfg: Config, writes: seq<Write>)
    ensures RunWrites(cfg, writes, writes)
  {
  }

  lemma InNamespaces(namespaces: seq<Named>, id: Id)
    requires Named(id, NAMESPACE_TITLE) in namespaces
    ensures Find(namespaces, NAMESPACE_TITLE).Some?
  {
    InList(namespaces, Named(id, NAMESPACE_TITLE));
    FindCount(namespaces, NAMESPACE_TITLE);
  }
}
