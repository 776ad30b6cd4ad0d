/** The Worker bridge: configuration and subscription kept in RAM over an optional KV store, and the
    rewriting of request paths.  A missing value and the empty string are both "".  Requests are
    handled one at a time in one isolate and KV calls succeed. */
module Worker {
  import opened Results
  import opened Text

  const DEFAULT_TRANSPORT := "websocket"

  /** The routing configuration. */
  datatype Config = Config(host: string, path: string, entry: string)

  const NOTHING := Config("", "", "")

  datatype Fields = Fields(wshost: string, wspath: string, entrypath: string, transport: string)

  /** The JSON body of a POST; `payloads` is empty when it is not an array. */
  datatype Body = Body(fields: Fields, payloads: seq<string>)

  /** A call of the configuration endpoint; `body` is missing when it does not parse. */
  datatype ApiRequest = ApiRequest(verb: string, password: string, query: Fields, body: Option<Body>)

  /** Any other request. */
  datatype ProxyRequest = ProxyRequest(verb: string, isWebSocket: bool, pathname: string, search: string)

  datatype Response =
    | Status(code: nat)
    | Saved(config: Config, transport: string)
    | Subscription(body: string)
    | Fetch(verb: string, origin: string, path: string, search: string)

  // ---- paths

  predicate EndsWithSlash(s: string)
  {
    s != "" && s[|s| - 1] == '/'
  }

  /** Every run of slashes becomes one. */
  function Collapse(s: string): (r: string)
  {
    if s == "" then ""
    else if |s| > 1 && s[0] == '/' && s[1] == '/' then Collapse(s[1..])
    else [s[0]] + Collapse(s[1..])
  }

  predicate Clean(s: string)
  {
    forall i :: 0 <= i < |s| - 1 ==> s[i] != '/' || s[i + 1] != '/'
  }

  function WithSlash(s: string): (r: string)
    ensures StartsWith(r, "/")
  {
    if StartsWith(s, "/") then s else "/" + s
  }

  /** Drop one trailing slash, but never the only character. */
  function Strip(s: string): (r: string)
    requires StartsWith(s, "/")
    ensures StartsWith(r, "/")
  {
    if |s| > 1 && EndsWithSlash(s) then s[..|s| - 1] else s
  }

  function TargetPath(c: Config): (r: string)
    ensures StartsWith(r, "/")
  {
    Strip(WithSlash(c.path))
  }

  function EntryPath(c: Config): (r: string)
    ensures StartsWith(r, "/")
  {
    Strip(WithSlash(if c.entry != "" then c.entry else c.path))
  }

  /** A path equal to the entry or below it; everything is below the root. */
  predicate Under(pathname: string, entry: string)
  {
    entry == "/" || pathname == entry || StartsWith(pathname, entry + "/")
  }

  lemma UnderExtends(pathname: string, entry: string)
    requires Under(pathname, entry) && entry != "/"
    ensures |entry| <= |pathname| && pathname == entry + pathname[|entry|..]
    ensures pathname[|entry|..] == "" || pathname[|entry|..][0] == '/'
  {
    if pathname != entry {
      assert pathname[..|entry|] == (entry + "/")[..|entry|] == entry;
      assert pathname[|entry|] == (entry + "/")[|entry|] == '/';
    } else {
      assert pathname[|entry|..] == "";
    }
  }

  /** What follows the entry. */
  function Suffix(pathname: string, entry: string): (r: string)
    requires Under(pathname, entry)
  {
    if entry == "/" then pathname
    else
      UnderExtends(pathname, entry);
      pathname[|entry|..]
  }

  function OrRoot(s: string): (r: string)
  {
    if s == "" then "/" else s
  }

  function Rewrite(pathname: string, entry: string, target: string): (r: string)
    requires Under(pathname, entry)
  {
    var suffix := Suffix(pathname, entry);
    OrRoot(Collapse(if target == "/" then suffix else target + suffix))
  }

  function Origin(host: string): (r: string)
  {
    if StartsWith(host, "https://") || StartsWith(host, "http://") then host else "https://" + host
  }

  /** How a request is answered under a configuration. */
  function Route(c: Config, req: ProxyRequest): (r: Response)
  {
    if c.path == "" then Status(503)
    else
      var target, entry := TargetPath(c), EntryPath(c);
      if req.isWebSocket && req.pathname == entry then
        Fetch("GET", Origin(c.host), OrRoot(Collapse(if target == "/" then "" else target)), req.search)
      else if Under(req.pathname, entry) then
        Fetch(req.verb, Origin(c.host), Rewrite(req.pathname, entry, target), req.search)
      else Status(404)
  }

  // ---- laws of collapsing

  lemma CleanPart(a: string, b: string, c: string)
    requires Clean(a + b + c)
    ensures Clean(b) && Clean(a + b)
    ensures Clean(c)
    ensures b != "" && EndsWithSlash(b) ==> c == "" || c[0] != '/'
  {
    var s := a + b + c;
    forall i | 0 <= i < |b| - 1 ensures b[i] != '/' || b[i + 1] != '/' {
      assert s[|a| + i] == b[i] && s[|a| + i + 1] == b[i + 1];
    }
    forall i | 0 <= i < |c| - 1 ensures c[i] != '/' || c[i + 1] != '/' {
      assert s[|a| + |b| + i] == c[i] && s[|a| + |b| + i + 1] == c[i + 1];
    }
    forall i | 0 <= i < |a + b| - 1 ensures (a + b)[i] != '/' || (a + b)[i + 1] != '/' {
      assert s[i] == (a + b)[i] && s[i + 1] == (a + b)[i + 1];
    }
    if b != "" && c != "" {
      assert s[|a| + |b| - 1] == b[|b| - 1] && s[|a| + |b| - 1 + 1] == c[0];
    }
  }

  lemma {:induction false} CollapseClean(s: string)
    ensures Clean(Collapse(s))
    ensures Clean(s) ==> Collapse(s) == s
    ensures s != "" ==> Collapse(s) != "" && Collapse(s)[0] == s[0]
  {
    if s == "" {
    } else {
      CollapseClean(s[1..]);
      assert Clean(s) ==> Clean(s[1..]) by {
        if Clean(s) {
          CleanPart("", s[..1], s[1..]);
        }
      }
    }
  }

  /** The non-empty segments between slashes, and the one being read. */
  function Segments(s: string, open: string): (r: seq<string>)
    decreases |s|
  {
    if s == "" then (if open == "" then [] else [open])
    else if s[0] == '/' then (if open == "" then [] else [open]) + Segments(s[1..], "")
    else Segments(s[1..], open + [s[0]])
  }

  /** Collapsing changes no segment. */
  lemma {:induction false} CollapseKeepsSegments(s: string, open: string)
    ensures Segments(Collapse(s), open) == Segments(s, open)
    decreases |s|
  {
    if s == "" {
    } else if |s| > 1 && s[0] == '/' && s[1] == '/' {
      CollapseKeepsSegments(s[1..], open);
      assert Segments(s[1..], open) == (if open == "" then [] else [open]) + Segments(s[2..], "")
        by { assert s[1..][1..] == s[2..]; }
      assert Segments(s[1..], "") == Segments(s[2..], "") by { assert s[1..][1..] == s[2..]; }
    } else {
      CollapseKeepsSegments(s[1..], if s[0] == '/' then "" else open + [s[0]]);
      assert Collapse(s)[1..] == Collapse(s[1..]);
    }
  }

  lemma {:induction false} SegmentsConcat(a: string, b: string, open: string)
    requires b == "" || b[0] == '/'
    ensures Segments(a + b, open) == Segments(a, open) + Segments(b, "")
    decreases |a|
  {
    if a == "" {
      assert a + b == b;
    } else {
      assert (a + b)[1..] == a[1..] + b;
      SegmentsConcat(a[1..], b, if a[0] == '/' then "" else open + [a[0]]);
    }
  }

  lemma {:induction false} CollapseConcat(a: string, b: string)
    requires !EndsWithSlash(a)
    ensures Collapse(a + b) == Collapse(a) + Collapse(b)
  {
    if a == "" {
      assert a + b == b;
    } else {
      assert (a + b)[1..] == a[1..] + b;
      CollapseConcat(a[1..], b);
    }
  }

  /** One slash of the pair at a seam is lost. */
  lemma {:induction false} CollapseSeam(a: string, b: string)
    requires EndsWithSlash(a) && b != "" && b[0] == '/'
    ensures Collapse(a + b) == Collapse(a + b[1..])
  {
    if |a| == 1 {
      assert a + b == "/" + b && (a + b)[1..] == b && b == a + b[1..];
    } else {
      assert (a + b)[1..] == a[1..] + b;
      assert (a + b[1..])[1..] == a[1..] + b[1..];
      CollapseSeam(a[1..], b);
    }
  }

  // ---- what routing guarantees

  /** A request is forwarded exactly when its path is the entry or below it, and the path it is sent
      on with begins with a slash and has no repeated one, so it cannot name another host. */
  lemma RouteForwards(c: Config, req: ProxyRequest)
    requires c.path != "" && StartsWith(req.pathname, "/")
    ensures Route(c, req).Fetch? <==> Under(req.pathname, EntryPath(c))
    ensures Route(c, req).Fetch? ==> StartsWith(Route(c, req).path, "/") && Clean(Route(c, req).path)
    ensures Route(c, req).Fetch? && !req.isWebSocket ==> Route(c, req).verb == req.verb
    ensures Route(c, req).Fetch? ==> Route(c, req).search == req.search
  {
    hide TargetPath, EntryPath, Rewrite, Collapse, Clean, Origin;
    var target, entry := TargetPath(c), EntryPath(c);
    OrRootClean(if target == "/" then "" else target);
    if Under(req.pathname, entry) {
      RewriteClean(req.pathname, entry, target);
    }
  }

  lemma OrRootClean(s: string)
    requires s == "" || s[0] == '/'
    ensures Clean(OrRoot(Collapse(s))) && StartsWith(OrRoot(Collapse(s)), "/")
  {
    CollapseClean(s);
  }

  lemma RewriteClean(pathname: string, entry: string, target: string)
    requires Under(pathname, entry) && StartsWith(pathname, "/") && StartsWith(target, "/")
    ensures StartsWith(Rewrite(pathname, entry, target), "/") && Clean(Rewrite(pathname, entry, target))
  {
    hide Clean, Collapse;
    if entry != "/" {
      UnderExtends(pathname, entry);
    }
    var suffix := Suffix(pathname, entry);
    OrRootClean(if target == "/" then suffix else target + suffix);
  }

  /** The forwarded path consists of the target's segments followed by those after the entry. */
  lemma RewriteSegments(pathname: string, entry: string, target: string)
    requires Under(pathname, entry) && StartsWith(pathname, "/") && StartsWith(target, "/")
    ensures Segments(Rewrite(pathname, entry, target), "") ==
      Segments(target, "") + Segments(Suffix(pathname, entry), "")
  {
    var suffix := Suffix(pathname, entry);
    if entry != "/" {
      UnderExtends(pathname, entry);
    }
    RootSegments();
    hide Segments, Collapse, Suffix, Under;
    var whole := if target == "/" then suffix else target + suffix;
    CollapseKeepsSegments(whole, "");
    assert Segments(OrRoot(Collapse(whole)), "") == Segments(Collapse(whole), "");
    if target != "/" {
      SegmentsConcat(target, suffix, "");
    }
  }

  lemma RootSegments()
    ensures Segments("/", "") == [] && Segments("", "") == []
  {
  }

  ghost predicate CleanUnder(p: string, entry: string)
  {
    Clean(p) && StartsWith(p, "/") && Under(p, entry)
  }

  /** No two clean paths are sent to one path. */
  ghost predicate Injective(entry: string, target: string)
  {
    forall p, q :: CleanUnder(p, entry) && CleanUnder(q, entry) && p != q ==>
      Rewrite(p, entry, target) != Rewrite(q, entry, target)
  }

  lemma SuffixClean(p: string, entry: string)
    requires Clean(p) && StartsWith(p, "/") && Under(p, entry)
    ensures Clean(Suffix(p, entry))
    ensures entry != "/" ==> p == entry + Suffix(p, entry)
    ensures Suffix(p, entry) == "" || Suffix(p, entry)[0] == '/'
  {
    if entry != "/" {
      UnderExtends(p, entry);
      CleanPart("", entry, Suffix(p, entry));
    }
  }

  lemma RewriteOpen(p: string, entry: string, target: string)
    requires Clean(p) && StartsWith(p, "/") && Under(p, entry)
    requires StartsWith(target, "/") && !EndsWithSlash(target)
    ensures Rewrite(p, entry, target) == Collapse(target) + Suffix(p, entry)
  {
    var s := Suffix(p, entry);
    SuffixClean(p, entry);
    CollapseConcat(target, s);
    CollapseClean(s);
    CollapseClean(target);
  }

  function Trim(s: string): (r: string)
  {
    if EndsWithSlash(s) then Trim(s[..|s| - 1]) else s
  }

  lemma {:induction false} CollapseTrim(a: string, b: string)
    requires b != "" && b[0] == '/'
    ensures Collapse(a + b) == Collapse(Trim(a)) + Collapse(b)
    decreases |a|
  {
    if EndsWithSlash(a) {
      var t := a[..|a| - 1];
      CollapseSeam(a, b);
      assert a + b[1..] == t + b;
      CollapseTrim(t, b);
    } else {
      CollapseConcat(a, b);
    }
  }

  lemma RewriteFromRoot(p: string, target: string)
    requires Clean(p) && StartsWith(p, "/") && StartsWith(target, "/")
    ensures Rewrite(p, "/", target) == Collapse(Trim(target)) + p
  {
    CollapseClean(p);
    CollapseTrim(target, p);
    assert Trim("/") == "" by { assert Trim("") == ""; }
    assert Collapse("") + p == p;
  }

  /** Under an entry that ends in a slash there is no clean path but the entry itself, and under an
      unclean entry there is none. */
  lemma OddEntry(p: string, entry: string)
    requires CleanUnder(p, entry) && entry != "/"
    ensures Clean(entry)
    ensures EndsWithSlash(entry) ==> p == entry
  {
    SuffixClean(p, entry);
    CleanPart("", entry, Suffix(p, entry));
    assert "" + entry + Suffix(p, entry) == p;
  }

  lemma Collides(entry: string, target: string)
    requires StartsWith(entry, "/") && Clean(entry) && !EndsWithSlash(entry)
    requires StartsWith(target, "/") && EndsWithSlash(target)
    ensures CleanUnder(entry, entry) && CleanUnder(entry + "/", entry)
    ensures Rewrite(entry, entry, target) == Rewrite(entry + "/", entry, target)
  {
    var q := entry + "/";
    assert entry + "/" == q && q[..|q|] == q;
    forall i | 0 <= i < |q| - 1 ensures q[i] != '/' || q[i + 1] != '/' {
      assert q[i] == entry[i];
      if i + 1 < |entry| {
        assert q[i + 1] == entry[i + 1];
      }
    }
    assert Suffix(entry, entry) == "" && Suffix(q, entry) == "/";
    if target == "/" {
      assert Collapse("") == "" && Collapse("/") == "/" by { assert "/"[1..] == ""; }
    } else {
      CollapseSeam(target, "/");
      assert "/"[1..] == "" && target + "" == target;
    }
  }

  /** Exactly when the rewrite is injective on clean paths: the target does not end in a slash, or the
      entry is the root, or the entry itself leaves at most one clean path. */
  lemma InjectiveIff(entry: string, target: string)
    requires StartsWith(entry, "/") && StartsWith(target, "/")
    ensures Injective(entry, target) <==>
      entry == "/" || !Clean(entry) || EndsWithSlash(entry) || !EndsWithSlash(target)
  {
    hide Clean, Rewrite, Collapse, Suffix, Under;
    if entry == "/" {
      forall p, q | CleanUnder(p, entry) && CleanUnder(q, entry) && p != q
        ensures Rewrite(p, entry, target) != Rewrite(q, entry, target)
      {
        RewriteFromRoot(p, target);
        RewriteFromRoot(q, target);
        Cancel(Collapse(Trim(target)), p, q);
      }
    } else if !Clean(entry) || EndsWithSlash(entry) {
      forall p, q | CleanUnder(p, entry) && CleanUnder(q, entry) ensures p == q {
        OddEntry(p, entry);
        OddEntry(q, entry);
      }
    } else if !EndsWithSlash(target) {
      forall p, q | CleanUnder(p, entry) && CleanUnder(q, entry) && p != q
        ensures Rewrite(p, entry, target) != Rewrite(q, entry, target)
      {
        RewriteOpen(p, entry, target);
        RewriteOpen(q, entry, target);
        SuffixClean(p, entry);
        SuffixClean(q, entry);
        Cancel(Collapse(target), Suffix(p, entry), Suffix(q, entry));
      }
    } else {
      Collides(entry, target);
      assert entry != entry + "/";
    }
  }

  lemma Cancel(a: string, p: string, q: string)
    requires p != q
    ensures a + p != a + q
  {
    assert (a + p)[|a|..] == p && (a + q)[|a|..] == q;
  }

  /** A configured target ends in a slash only if it is the root or was stored with two at its end. */
  lemma TargetEndsWithSlash(c: Config)
    ensures EndsWithSlash(TargetPath(c)) <==>
      WithSlash(c.path) == "/" || (|WithSlash(c.path)| > 1 && WithSlash(c.path)[|WithSlash(c.path)| - 2..] == "//")
  {
    var s := WithSlash(c.path);
    if |s| > 1 && EndsWithSlash(s) {
      assert s[..|s| - 1][|s| - 2] == s[|s| - 2];
    }
  }

  // ---- what was stored

  /** The server side's setting: the password, the encoding of payloads (which fails on ill-formed
      text) with its decoding, and whether a KV store is bound. */
  datatype Setting =
    Setting(password: string, encode: seq<string> -> Option<string>, decode: string -> string, bound: bool)

  predicate Authorised(s: Setting, req: ApiRequest)
  {
    (req.verb == "GET" || req.verb == "POST") && req.password == s.password
  }

  function FieldsOf(req: ApiRequest): (r: Option<Fields>)
  {
    if req.verb != "POST" then Some(req.query) else if req.body.Some? then Some(req.body.value.fields) else None
  }

  /** The fields an accepted call stores. */
  function Stored(s: Setting, req: ApiRequest): (r: Option<Fields>)
  {
    var f := FieldsOf(req);
    if Authorised(s, req) && f.Some? && f.value.wshost != "" && f.value.wspath != "" then f else None
  }

  /** The subscription a call stores, also when its host or path is missing. */
  function StoredSub(s: Setting, req: ApiRequest): (r: Option<string>)
  {
    if Authorised(s, req) && req.verb == "POST" && req.body.Some? && req.body.value.payloads != []
    then s.encode(req.body.value.payloads) else None
  }

  datatype Op = SetApi(api: ApiRequest) | GetSub(raw: bool) | Proxy(proxy: ProxyRequest) | Restart

  /** What the last calls stored. */
  datatype Memory = Memory(config: Config, transport: string, sub: string)

  const BLANK := Memory(NOTHING, "", "")

  function Remember(s: Setting, m: Memory, op: Op): (r: Memory)
  {
    match op
    case SetApi(req) =>
      var f, sub := Stored(s, req), StoredSub(s, req);
      var m := if sub.Some? then m.(sub := sub.value) else m;
      if f.None? then m
      else
        var entry := if f.value.entrypath != "" then f.value.entrypath else f.value.wspath;
        m.(config := Config(f.value.wshost, f.value.wspath, entry),
           transport := if f.value.transport != "" then f.value.transport else m.transport)
    case Restart => if s.bound then m else BLANK
    case _ => m
  }

  /** A stored configuration has a host and a path. */
  predicate Proper(c: Config)
  {
    c == NOTHING || (c.host != "" && c.path != "")
  }

  /** What RAM holds of the configuration: whether it was stored or loaded since the start of the
      isolate, and the transport. */
  datatype Ram = Ram(loaded: bool, transport: string)

  const COLD := Ram(false, DEFAULT_TRANSPORT)

  /** `m` is what was stored before the operation. */
  function RamStep(s: Setting, m: Memory, ram: Ram, op: Op): (r: Ram)
  {
    match op
    case SetApi(req) =>
      var f := Stored(s, req);
      if f.None? then ram else Ram(true, if f.value.transport != "" then f.value.transport else ram.transport)
    case Proxy(_) =>
      if s.bound && !ram.loaded && m.config != NOTHING
      then Ram(true, if m.transport != "" then m.transport else ram.transport) else ram
    case Restart => COLD
    case GetSub(_) => ram
  }

  /** The response to an operation; a restart has none. */
  function Respond(s: Setting, m: Memory, ram: Ram, op: Op): (r: Response)
  {
    match op
    case GetSub(raw) => if m.sub == "" then Status(503) else Subscription(if raw then s.decode(m.sub) else m.sub)
    case Proxy(req) => Route(m.config, req)
    case SetApi(req) =>
      if Stored(s, req).Some? then Saved(Remember(s, m, op).config, RamStep(s, m, ram, op).transport)
      else if req.verb != "GET" && req.verb != "POST" then Status(405)
      else if req.password != s.password then Status(403) else Status(400)
    case Restart => Status(200)
  }

  // ---- the isolate

  datatype Key = TargetHost | TargetPathKey | EntryPathKey | TargetTransport | SubscriptionKey

  function Get(kv: map<Key, string>, k: Key): (r: string)
  {
    if k in kv then kv[k] else ""
  }

  /** The store holds what was stored last. */
  predicate Kept(kv: map<Key, string>, m: Memory)
  {
    && Config(Get(kv, TargetHost), Get(kv, TargetPathKey), Get(kv, EntryPathKey)) == m.config
    && Get(kv, TargetTransport) == m.transport && Get(kv, SubscriptionKey) == m.sub
  }

  lemma KeptConfig(kv: map<Key, string>, m: Memory, host: string, path: string, entry: string)
    requires Kept(kv, m)
    ensures Kept(kv[TargetHost := host][TargetPathKey := path][EntryPathKey := entry],
                 m.(config := Config(host, path, entry)))
  {
  }

  lemma KeptTransport(kv: map<Key, string>, m: Memory, transport: string)
    requires Kept(kv, m)
    ensures Kept(kv[TargetTransport := transport], m.(transport := transport))
  {
  }

  class Isolate {
    const setting: Setting
    var config: Config
    var transport: string
    var sub: string
    var kv: map<Key, string>

    /** RAM holds what `ram` says of it, and RAM and KV together hold what `m` says was stored last. */
    ghost predicate Holds(m: Memory, ram: Ram)
      reads this
    {
      && Proper(m.config)
      && (if setting.bound then ram.loaded ==> m.config != NOTHING else ram.loaded <==> m.config != NOTHING)
      && config == (if ram.loaded then m.config else NOTHING)
      && transport == ram.transport
      && (sub == m.sub || (setting.bound && sub == ""))
      && (setting.bound ==> Kept(kv, m))
    }

    constructor (setting: Setting)
      ensures Holds(BLANK, COLD) && this.setting == setting
    {
      this.setting := setting;
      config, transport, sub, kv := NOTHING, DEFAULT_TRANSPORT, "", map[];
    }

    /** A new isolate starts with empty RAM. */
    method RestartIsolate(ghost m: Memory, ghost ram: Ram)
      requires Holds(m, ram)
      modifies this
      ensures Holds(Remember(setting, m, Restart), COLD) && kv == old(kv)
    {
      config, transport, sub := NOTHING, DEFAULT_TRANSPORT, "";
    }

    method StoreSub(content: string, ghost m: Memory, ghost ram: Ram)
      requires Holds(m, ram)
      modifies this`sub, this`kv
      ensures Holds(m.(sub := content), ram)
    {
      sub := content;
      if setting.bound {
        kv := kv[SubscriptionKey := content];
      }
    }

    method StoreConfig(fields: Fields, entrypath: string, ghost m: Memory, ghost ram: Ram)
      requires Holds(m, ram) && fields.wshost != "" && fields.wspath != ""
      modifies this`config, this`transport, this`kv
      ensures config == Config(fields.wshost, fields.wspath, entrypath)
      ensures transport == if fields.transport != "" then fields.transport else ram.transport
      ensures Holds(m.(config := Config(fields.wshost, fields.wspath, entrypath),
                       transport := if fields.transport != "" then fields.transport else m.transport),
                    Ram(true, if fields.transport != "" then fields.transport else ram.transport))
    {
      hide Kept, Get;
      if setting.bound {
        KeptConfig(kv, m, fields.wshost, fields.wspath, entrypath);
        KeptTransport(kv[TargetHost := fields.wshost][TargetPathKey := fields.wspath][EntryPathKey := entrypath],
                      m.(config := Config(fields.wshost, fields.wspath, entrypath)), fields.transport);
      }
      config := Config(fields.wshost, fields.wspath, entrypath);
      if fields.transport != "" {
        transport := fields.transport;
      }
      if setting.bound {
        kv := kv[TargetHost := fields.wshost];
        kv := kv[TargetPathKey := fields.wspath];
        kv := kv[EntryPathKey := entrypath];
        if fields.transport != "" {
          kv := kv[TargetTransport := fields.transport];
        }
      }
    }

    /** The status of every call; an accepted one stores the configuration and repeats it with the
        transport in RAM. */
    method SetApiCall(req: ApiRequest, ghost m: Memory, ghost ram: Ram) returns (r: Response)
      requires Holds(m, ram)
      modifies this
      ensures Holds(Remember(setting, m, SetApi(req)), RamStep(setting, m, ram, SetApi(req)))
      ensures r == Respond(setting, m, ram, SetApi(req))
    {
      hide Holds;
      if req.verb != "GET" && req.verb != "POST" {
        return Status(405);
      }
      if req.password != setting.password {
        return Status(403);
      }
      var fields: Fields;
      if req.verb == "POST" {
        if req.body.None? {
          return Status(400);
        }
        fields := req.body.value.fields;
        var payloads := req.body.value.payloads;
        if |payloads| > 0 {
          var subContent := setting.encode(payloads);
          if subContent.Some? {
            StoreSub(subContent.value, m, ram);
          }
        }
      } else {
        fields := req.query;
      }
      var entrypath := if fields.entrypath == "" then fields.wspath else fields.entrypath;
      if fields.wshost == "" || fields.wspath == "" {
        return Status(400);
      }
      ghost var stored := StoredSub(setting, req);
      StoreConfig(fields, entrypath, if stored.Some? then m.(sub := stored.value) else m, ram);
      return Saved(config, transport);
    }

    /** The subscription served is the last one stored. */
    method ServeSub(raw: bool, ghost m: Memory, ghost ram: Ram) returns (r: Response)
      requires Holds(m, ram)
      modifies this`sub
      ensures Holds(m, ram)
      ensures r == if m.sub == "" then Status(503) else Subscription(if raw then setting.decode(m.sub) else m.sub)
    {
      var s := sub;
      if s == "" && setting.bound {
        s := Get(kv, SubscriptionKey);
        if s != "" {
          sub := s;
        }
      }
      if s == "" {
        return Status(503);
      }
      return Subscription(if raw then setting.decode(s) else s);
    }

    /** Requests are routed by the last configuration stored. */
    method HandleProxy(req: ProxyRequest, ghost m: Memory, ghost ram: Ram) returns (r: Response)
      requires Holds(m, ram)
      modifies this`config, this`transport
      ensures Holds(m, RamStep(setting, m, ram, Proxy(req))) && r == Route(m.config, req)
    {
      hide Route;
      if setting.bound {
        if config.host == "" || config.path == "" {
          var host, path := Get(kv, TargetHost), Get(kv, TargetPathKey);
          var entry, kvTransport := Get(kv, EntryPathKey), Get(kv, TargetTransport);
          if host != "" && path != "" {
            config := Config(host, path, entry);
            if kvTransport != "" {
              transport := kvTransport;
            }
          }
        }
      }
      return Route(config, req);
    }
  }

  // ---- whole runs

  ghost function MemoryAfter(s: Setting, ops: seq<Op>): (m: Memory)
  {
    if ops == [] then BLANK else Remember(s, MemoryAfter(s, ops[..|ops| - 1]), ops[|ops| - 1])
  }

  ghost function RamAfter(s: Setting, ops: seq<Op>): (ram: Ram)
  {
    if ops == [] then COLD
    else
      var init := ops[..|ops| - 1];
      RamStep(s, MemoryAfter(s, init), RamAfter(s, init), ops[|ops| - 1])
  }

  /** Every response is the one that the earlier operations call for. */
  ghost predicate Answered(s: Setting, ops: seq<Op>, responses: seq<Response>)
  {
    |responses| == |ops| && forall i :: 0 <= i < |ops| ==>
      responses[i] == Respond(s, MemoryAfter(s, ops[..i]), RamAfter(s, ops[..i]), ops[i])
  }

  /** Any run of calls, requests and restarts: routing and subscriptions are given by what was stored
      last, and so is the answer to a configuration call but for the transport, which is the one in
      RAM. */
  method Session(s: Setting, ops: seq<Op>) returns (responses: seq<Response>)
    ensures Answered(s, ops, responses)
  {
    var isolate := new Isolate(s);
    responses := [];
    hide Isolate.Holds, Remember, RamStep, Respond;
    for i := 0 to |ops|
      invariant isolate.setting == s && isolate.Holds(MemoryAfter(s, ops[..i]), RamAfter(s, ops[..i]))
      invariant Answered(s, ops[..i], responses)
    {
      hide Answered, MemoryAfter, RamAfter;
      ghost var m, ram := MemoryAfter(s, ops[..i]), RamAfter(s, ops[..i]);
      AfterOne(s, ops, i);
      OneResponse(s, m, ram, ops[i]);
      var r := Status(200);
      match ops[i] {
        case SetApi(req) => r := isolate.SetApiCall(req, m, ram);
        case GetSub(raw) => r := isolate.ServeSub(raw, m, ram);
        case Proxy(req) => r := isolate.HandleProxy(req, m, ram);
        case Restart => isolate.RestartIsolate(m, ram);
      }
      AnsweredNext(s, ops, i, responses, r);
      responses := responses + [r];
    }
    assert ops[..|ops|] == ops;
  }

  lemma AnsweredNext(s: Setting, ops: seq<Op>, i: nat, responses: seq<Response>, r: Response)
    requires i < |ops| && Answered(s, ops[..i], responses)
    requires r == Respond(s, MemoryAfter(s, ops[..i]), RamAfter(s, ops[..i]), ops[i])
    ensures Answered(s, ops[..i + 1], responses + [r])
  {
    hide Respond, MemoryAfter, RamAfter;
    var longer := ops[..i + 1];
    forall j | 0 <= j < i + 1
      ensures (responses + [r])[j] == Respond(s, MemoryAfter(s, longer[..j]), RamAfter(s, longer[..j]), longer[j])
    {
      assert longer[..j] == ops[..j];
      assert j < i ==> ops[..i][..j] == ops[..j];
    }
  }

  lemma AfterOne(s: Setting, ops: seq<Op>, i: nat)
    requires i < |ops|
    ensures MemoryAfter(s, ops[..i + 1]) == Remember(s, MemoryAfter(s, ops[..i]), ops[i])
    ensures RamAfter(s, ops[..i + 1]) == RamStep(s, MemoryAfter(s, ops[..i]), RamAfter(s, ops[..i]), ops[i])
  {
    assert ops[..i + 1][..i] == ops[..i];
    hide Remember, RamStep;
  }

  lemma OneResponse(s: Setting, m: Memory, ram: Ram, op: Op)
    ensures op.GetSub? || op.Proxy? ==> Remember(s, m, op) == m
    ensures op.GetSub? ==> RamStep(s, m, ram, op) == ram
    ensures op == Restart ==> Respond(s, m, ram, op) == Status(200) && RamStep(s, m, ram, op) == COLD
    ensures op.GetSub? ==>
      Respond(s, m, ram, op) == if m.sub == "" then Status(503)
        else Subscription(if op.raw then s.decode(m.sub) else m.sub)
    ensures op.Proxy? ==> Respond(s, m, ram, op) == Route(m.config, op.proxy)
  {
    hide Route;
  }

  // ---- restarts

  function WithoutRestarts(ops: seq<Op>): (r: seq<Op>)
    ensures |r| <= |ops|
  {
    if ops == [] then []
    else
      var r := WithoutRestarts(ops[..|ops| - 1]);
      if ops[|ops| - 1] == Restart then r else r + [ops[|ops| - 1]]
  }

  lemma {:induction false} MemoryWithoutRestarts(s: Setting, ops: seq<Op>)
    requires s.bound
    ensures MemoryAfter(s, WithoutRestarts(ops)) == MemoryAfter(s, ops)
  {
    if ops != [] {
      var init, last := ops[..|ops| - 1], ops[|ops| - 1];
      MemoryWithoutRestarts(s, init);
      var r := WithoutRestarts(init);
      assert (r + [last])[..|r|] == r;
    }
  }

  /** What is left of a prefix is a prefix of what is left. */
  lemma {:induction false} WithoutRestartsPrefix(ops: seq<Op>, i: nat)
    requires i < |ops| && ops[i] != Restart
    ensures var k := |WithoutRestarts(ops[..i])|;
      && k < |WithoutRestarts(ops)| && WithoutRestarts(ops)[k] == ops[i]
      && WithoutRestarts(ops)[..k] == WithoutRestarts(ops[..i])
  {
    var init := ops[..|ops| - 1];
    if i < |init| {
      WithoutRestartsPrefix(init, i);
      assert init[..i] == ops[..i];
    } else {
      assert init == ops[..i];
    }
  }

  /** With a KV store restarts cannot be seen: take them out of a run, and every request and every
      subscription is still answered the same. */
  lemma RestartsInvisible(s: Setting, ops: seq<Op>, responses: seq<Response>, others: seq<Response>, i: nat)
    requires s.bound && Answered(s, ops, responses) && Answered(s, WithoutRestarts(ops), others)
    requires i < |ops| && (ops[i].GetSub? || ops[i].Proxy?)
    ensures var k := |WithoutRestarts(ops[..i])|; k < |others| && others[k] == responses[i]
  {
    hide Route;
    var k := |WithoutRestarts(ops[..i])|;
    WithoutRestartsPrefix(ops, i);
    MemoryWithoutRestarts(s, ops[..i]);
    assert others[k] == Respond(s, MemoryAfter(s, WithoutRestarts(ops)[..k]), RamAfter(s, WithoutRestarts(ops)[..k]),
      ops[i]);
  }

  // ---- the transport that a configuration call reports

  function OrDefault(transport: string): (r: string)
  {
    if transport == "" then DEFAULT_TRANSPORT else transport
  }

  predicate StoresConfig(s: Setting, op: Op)
  {
    op.SetApi? && Stored(s, op.api).Some?
  }

  predicate StoresTransport(s: Setting, op: Op)
  {
    StoresConfig(s, op) && Stored(s, op.api).value.transport != ""
  }

  /** The last restart is at `r`, and no transport was stored after it. */
  ghost predicate LastRestart(s: Setting, ops: seq<Op>, r: int)
  {
    0 <= r < |ops| && ops[r] == Restart && forall i :: r < i < |ops| ==>
      ops[i] != Restart && !StoresTransport(s, ops[i])
  }

  /** Since the last restart a call without a transport was accepted before any request came in, and
      no call with one. */
  ghost predicate Forgotten(s: Setting, ops: seq<Op>)
  {
    exists r, j :: LastRestart(s, ops, r) && r < j < |ops| && StoresConfig(s, ops[j])
      && forall i :: r < i < j ==> !ops[i].Proxy?
  }

  /** Since the last restart no request came in and no transport was stored. */
  ghost predicate Idle(s: Setting, ops: seq<Op>)
  {
    exists r :: LastRestart(s, ops, r) && forall i :: r < i < |ops| ==> !ops[i].Proxy?
  }

  lemma LastRestartNext(s: Setting, ops: seq<Op>, op: Op, r: int)
    ensures LastRestart(s, ops + [op], r) <==>
      if op == Restart then r == |ops| else LastRestart(s, ops, r) && !StoresTransport(s, op)
  {
    hide StoresTransport;
    var longer := ops + [op];
    assert longer[|ops|] == op && forall i :: 0 <= i < |ops| ==> longer[i] == ops[i];
    if op == Restart {
      assert !StoresTransport(s, op) by { RestartStoresNothing(s); }
    }
  }

  lemma RestartStoresNothing(s: Setting)
    ensures !StoresTransport(s, Restart) && !StoresConfig(s, Restart)
  {
  }

  lemma IdleNext(s: Setting, ops: seq<Op>, op: Op)
    ensures Idle(s, ops + [op]) <==> op == Restart || (Idle(s, ops) && !op.Proxy? && !StoresTransport(s, op))
  {
    hide StoresTransport, LastRestart;
    var longer := ops + [op];
    assert longer[|ops|] == op && forall i :: 0 <= i < |ops| ==> longer[i] == ops[i];
    forall r: int ensures LastRestart(s, longer, r) <==>
      if op == Restart then r == |ops| else LastRestart(s, ops, r) && !StoresTransport(s, op)
    {
      LastRestartNext(s, ops, op, r);
    }
    forall r: int | LastRestart(s, ops, r) ensures 0 <= r < |ops| { LastRestartRange(s, ops, r); }
    if op == Restart {
      assert LastRestart(s, longer, |ops|);
    } else if Idle(s, ops) && !op.Proxy? && !StoresTransport(s, op) {
      var r :| LastRestart(s, ops, r) && forall i :: r < i < |ops| ==> !ops[i].Proxy?;
      assert LastRestart(s, longer, r);
    }
  }

  lemma LastRestartRange(s: Setting, ops: seq<Op>, r: int)
    requires LastRestart(s, ops, r)
    ensures 0 <= r < |ops|
  {
  }

  lemma ForgottenNext(s: Setting, ops: seq<Op>, op: Op)
    ensures Forgotten(s, ops + [op]) <==>
      op != Restart && !StoresTransport(s, op) && (Forgotten(s, ops) || (StoresConfig(s, op) && Idle(s, ops)))
  {
    hide StoresTransport, StoresConfig, LastRestart;
    var longer := ops + [op];
    assert longer[|ops|] == op && forall i :: 0 <= i < |ops| ==> longer[i] == ops[i];
    forall r: int ensures LastRestart(s, longer, r) <==>
      if op == Restart then r == |ops| else LastRestart(s, ops, r) && !StoresTransport(s, op)
    {
      LastRestartNext(s, ops, op, r);
    }
    forall r: int | LastRestart(s, ops, r) ensures 0 <= r < |ops| { LastRestartRange(s, ops, r); }
  }

  /** What RAM knows, in terms of the run so far. */
  ghost predicate Tells(s: Setting, ops: seq<Op>, m: Memory, ram: Ram)
  {
    && (if ram.loaded then ram.transport == (if Forgotten(s, ops) then DEFAULT_TRANSPORT else OrDefault(m.transport))
        else ram.transport == DEFAULT_TRANSPORT && !Forgotten(s, ops))
    && (!ram.loaded && m.config != NOTHING ==> s.bound && Idle(s, ops))
    && (ram.loaded && Idle(s, ops) ==> Forgotten(s, ops))
    && (ram.loaded || m.transport != "" ==> m.config != NOTHING)
  }

  lemma TellsNext(s: Setting, ops: seq<Op>, op: Op, m: Memory, ram: Ram)
    requires Tells(s, ops, m, ram)
    ensures Tells(s, ops + [op], Remember(s, m, op), RamStep(s, m, ram, op))
  {
    ForgottenNext(s, ops, op);
    IdleNext(s, ops, op);
    hide Forgotten, Idle;
  }

  lemma {:induction false} RamTells(s: Setting, ops: seq<Op>)
    ensures Tells(s, ops, MemoryAfter(s, ops), RamAfter(s, ops))
  {
    if ops != [] {
      var init, last := ops[..|ops| - 1], ops[|ops| - 1];
      RamTells(s, init);
      TellsNext(s, init, last, MemoryAfter(s, init), RamAfter(s, init));
      assert ops == init + [last];
    }
  }

  /** Exactly when an accepted call reports the transport stored last (the default if none was): unless
      it is forgotten, or it is the default anyway. */
  lemma ReportedTransportIff(s: Setting, ops: seq<Op>, responses: seq<Response>, i: nat)
    requires Answered(s, ops, responses) && i < |ops| && StoresConfig(s, ops[i])
    ensures responses[i].Saved?
    ensures var stored := OrDefault(MemoryAfter(s, ops[..i + 1]).transport);
      responses[i].transport == stored <==> !Forgotten(s, ops[..i + 1]) || stored == DEFAULT_TRANSPORT
  {
    AfterOne(s, ops, i);
    RamTells(s, ops[..i + 1]);
    hide Forgotten, Idle, MemoryAfter, RamAfter;
    assert RamAfter(s, ops[..i + 1]).loaded;
  }

  function PlainCall(transport: string): (op: Op)
  {
    SetApi(ApiRequest("GET", "", Fields("h", "p", "", transport), None))
  }

  /** Store a transport, restart, store a configuration without one: the default is reported although
      the KV store holds the transport. */
  lemma TransportForgotten(s: Setting, responses: seq<Response>)
    requires s.bound && s.password == ""
    requires Answered(s, [PlainCall("xhttp"), Restart, PlainCall("")], responses)
    ensures responses[2] == Saved(Config("h", "p", "p"), "websocket")
    ensures MemoryAfter(s, [PlainCall("xhttp"), Restart, PlainCall("")]).transport == "xhttp"
  {
    var a, b := PlainCall("xhttp"), PlainCall("");
    var ops := [a, Restart, b];
    assert ops[..0] == [];
    assert ops[..3] == ops;
    AfterOne(s, ops, 0);
    AfterOne(s, ops, 1);
    AfterOne(s, ops, 2);
    assert MemoryAfter(s, ops[..1]) == Memory(Config("h", "p", "p"), "xhttp", "");
  }
}
