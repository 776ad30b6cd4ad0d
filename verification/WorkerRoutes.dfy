/** Where the bridge sends a request, stated from the stored configuration alone. */
module WorkerRoutes {
  import opened Results
  import opened Text
  import opened Worker

  // ---- paths and their segments

  function NonEmpty(pieces: seq<string>): (r: seq<string>)
  {
    if pieces == [] then [] else (if pieces[0] == "" then [] else [pieces[0]]) + NonEmpty(pieces[1..])
  }

  /** The segments are the non-empty pieces between slashes. */
  lemma {:induction false} SegmentsSplit(s: string, open: string)
    requires '/' !in open
    ensures Segments(s, open) == NonEmpty(Split(open + s, '/'))
    decreases |s|
  {
    hide Split;
    if s == "" {
      assert open + s == open;
      SplitWhole(open);
    } else if s[0] == '/' {
      SegmentsSplit(s[1..], "");
      assert "" + s[1..] == s[1..];
      assert open + s == open + ['/'] + s[1..];
      SplitFirst(open, '/', s[1..]);
      assert ([open] + Split(s[1..], '/'))[1..] == Split(s[1..], '/');
    } else {
      SegmentsSplit(s[1..], open + [s[0]]);
      assert open + [s[0]] + s[1..] == open + s;
    }
  }

  lemma SplitWhole(s: string)
    requires '/' !in s
    ensures Split(s, '/') == [s] && NonEmpty([s]) == if s == "" then [] else [s]
  {
    assert NonEmpty([s][1..]) == [];
  }

  function Joined(segments: seq<string>): (r: string)
  {
    if segments == [] then "" else "/" + segments[0] + Joined(segments[1..])
  }

  /** The path with the given segments, with or without a slash after the last one. */
  function PathOf(segments: seq<string>, slash: bool): (r: string)
  {
    if segments == [] then "/" else Joined(segments) + if slash then "/" else ""
  }

  lemma PathOfNext(first: string, segments: seq<string>, slash: bool)
    requires segments == [] ==> slash
    ensures PathOf([first] + segments, slash) == "/" + first + PathOf(segments, slash)
  {
    hide Joined;
    JoinedNext(first, segments);
    if segments == [] {
      JoinedNone();
      assert "/" + first + "" + "/" == "/" + first + "/";
    } else {
      var end := if slash then "/" else "";
      assert ("/" + first + Joined(segments)) + end == "/" + first + (Joined(segments) + end);
    }
  }

  lemma JoinedNext(first: string, segments: seq<string>)
    ensures Joined([first] + segments) == "/" + first + Joined(segments)
  {
    assert ([first] + segments)[1..] == segments;
  }

  lemma JoinedNone()
    ensures Joined([]) == ""
  {
  }

  lemma PathOfOne(segment: string)
    ensures PathOf([segment], false) == "/" + segment
  {
    hide Joined;
    JoinedNext(segment, []);
    JoinedNone();
    assert [segment] + [] == [segment];
  }

  lemma {:induction false} PathFromSegments(s: string, open: string)
    requires '/' !in open && Clean(s) && (open == "" ==> s == "" || s[0] != '/')
    ensures "/" + open + s == PathOf(Segments(s, open), EndsWithSlash("/" + open + s))
    decreases |s|
  {
    hide Clean, PathOf;
    var whole := "/" + open + s;
    if s == "" {
      NothingOpen(open);
    } else if s[0] == '/' {
      CleanRest(s);
      PathFromSegments(s[1..], "");
      var rest := "/" + "" + s[1..];
      assert rest == s && whole == "/" + open + rest;
      assert EndsWithSlash(whole) == EndsWithSlash(rest);
      SegmentsRoot(s);
      NoSegments(s[1..]);
      PathOfNext(open, Segments(s[1..], ""), EndsWithSlash(rest));
    } else {
      CleanRest(s);
      PathFromSegments(s[1..], open + [s[0]]);
      assert "/" + (open + [s[0]]) + s[1..] == whole;
    }
  }

  lemma NothingOpen(open: string)
    requires '/' !in open
    ensures "/" + open + "" == PathOf(Segments("", open), EndsWithSlash("/" + open + ""))
  {
    assert "/" + open + "" == "/" + open;
    if open != "" {
      PathOfOne(open);
    }
  }

  lemma SegmentsRoot(s: string)
    requires s != "" && s[0] == '/'
    ensures Segments(s, "") == Segments(s[1..], "")
  {
  }

  /** A text without segments holds nothing but slashes. */
  lemma {:induction false} NoSegments(s: string)
    ensures Segments(s, "") == [] ==> s == "" || EndsWithSlash(s)
  {
    if s != "" && s[0] == '/' {
      NoSegments(s[1..]);
    } else if s != "" {
      OpenSegments(s[1..], "" + [s[0]]);
    }
  }

  lemma {:induction false} OpenSegments(s: string, open: string)
    requires open != ""
    ensures Segments(s, open) != []
    decreases |s|
  {
    if s != "" && s[0] != '/' {
      OpenSegments(s[1..], open + [s[0]]);
    }
  }

  lemma CleanRest(s: string)
    requires Clean(s) && s != ""
    ensures Clean(s[1..])
    ensures s[0] == '/' ==> s[1..] == "" || s[1..][0] != '/'
  {
    CleanPart("", s[..1], s[1..]);
    assert "" + s[..1] + s[1..] == s;
  }

  /** A rooted path without repeated slashes is determined by its segments and its last character. */
  lemma CleanPath(p: string)
    requires StartsWith(p, "/") && Clean(p)
    ensures p == PathOf(Segments(p, ""), EndsWithSlash(p))
  {
    hide Clean, PathOf, Segments;
    assert p[0] == '/';
    CleanRest(p);
    PathFromSegments(p[1..], "");
    SegmentsRoot(p);
    assert "/" + "" + p[1..] == p;
  }

  lemma {:induction false} CollapseLast(s: string)
    ensures EndsWithSlash(Collapse(s)) == EndsWithSlash(s)
  {
    if s != "" {
      CollapseLast(s[1..]);
      if |s| == 1 {
        assert s[1..] == "";
      } else {
        assert s[1..][|s| - 2] == s[|s| - 1];
        CollapseClean(s[1..]);
      }
    }
  }

  // ---- normalised texts

  /** `path` is the stored text, given a leading slash if it has none and without one slash at its end unless
      that is all there is. */
  ghost predicate Normalised(stored: string, path: string)
  {
    var rooted := if stored != "" && stored[0] == '/' then stored else "/" + stored;
    rooted == path + if |rooted| > 1 && rooted[|rooted| - 1] == '/' then "/" else ""
  }

  lemma NormalisedIs(stored: string, path: string)
    ensures Normalised(stored, path) <==> path == Strip(WithSlash(stored))
  {
    var rooted := WithSlash(stored);
    if |rooted| > 1 && EndsWithSlash(rooted) {
      var s := rooted[..|rooted| - 1];
      assert rooted == s + "/";
      if rooted == path + "/" {
        assert (path + "/")[..|path|] == path;
      }
    } else {
      assert path + "" == path;
    }
  }

  lemma NormalisedSegments(stored: string)
    ensures Segments(Strip(WithSlash(stored)), "") == Segments(stored, "")
  {
    hide Segments;
    var rooted := WithSlash(stored);
    if !StartsWith(stored, "/") {
      SegmentsRoot(rooted);
      assert rooted[1..] == stored;
    }
    if |rooted| > 1 && EndsWithSlash(rooted) {
      var s := rooted[..|rooted| - 1];
      assert rooted == s + "/";
      SegmentsConcat(s, "/", "");
      RootSegments();
    }
  }

  // ---- the answer

  /** The text after the entry if the path is the entry or goes on with a slash. */
  ghost predicate After(pathname: string, entry: string, rest: string)
  {
    if entry == "/" then rest == pathname else pathname == entry + rest && (rest == "" || rest[0] == '/')
  }

  lemma AfterIs(pathname: string, entry: string, rest: string)
    ensures After(pathname, entry, rest) <==> Under(pathname, entry) && rest == Suffix(pathname, entry)
  {
    if entry != "/" {
      if Under(pathname, entry) {
        UnderExtends(pathname, entry);
      }
      if After(pathname, entry, rest) {
        assert pathname[|entry|..] == rest && pathname[..|entry|] == entry;
        if rest != "" {
          assert pathname[..|entry| + 1] == entry + "/";
        } else {
          assert pathname == entry;
        }
      }
    }
  }

  ghost predicate NamesScheme(host: string)
  {
    (|host| >= 7 && host[..7] == "http://") || (|host| >= 8 && host[..8] == "https://")
  }

  lemma OriginIs(host: string)
    ensures Origin(host) == if NamesScheme(host) then host else "https://" + host
  {
  }

  /** Without a path every request is refused. */
  lemma RouteWithoutPath(c: Config, req: ProxyRequest)
    ensures Route(c, req) == Status(503) <==> c.path == ""
  {
    hide TargetPath, EntryPath, Under, Rewrite, Collapse, Origin;
  }

  /** Outside the entry there is nothing. */
  lemma RouteOutside(c: Config, req: ProxyRequest, entry: string)
    requires c.path != "" && Normalised(if c.entry != "" then c.entry else c.path, entry)
    ensures Route(c, req) == Status(404) <==> !exists rest :: After(req.pathname, entry, rest)
  {
    hide TargetPath, Under, Rewrite, Collapse, Origin, Strip, WithSlash, After, Suffix;
    NormalisedIs(if c.entry != "" then c.entry else c.path, entry);
    EntryIs(c);
    if Under(req.pathname, entry) {
      AfterIs(req.pathname, entry, Suffix(req.pathname, entry));
    }
    EntryItself(entry);
    forall rest | After(req.pathname, entry, rest)
      ensures Under(req.pathname, entry)
    {
      AfterIs(req.pathname, entry, rest);
    }
  }

  lemma EntryIs(c: Config)
    ensures EntryPath(c) == Strip(WithSlash(if c.entry != "" then c.entry else c.path))
    ensures TargetPath(c) == Strip(WithSlash(c.path))
  {
  }

  lemma EntryItself(entry: string)
    ensures Under(entry, entry)
  {
  }

  lemma AfterRooted(pathname: string, entry: string, rest: string)
    requires StartsWith(pathname, "/") && After(pathname, entry, rest)
    ensures rest == "" || rest[0] == '/'
    ensures rest == "" ==> pathname == entry
  {
    assert rest == "" ==> entry + rest == entry;
  }

  predicate EndsWithTwo(s: string)
  {
    |s| >= 2 && s[|s| - 1] == '/' && s[|s| - 2] == '/'
  }

  /** Under the entry a request goes to the stored host, with the stored path's segments before those that
      follow the entry, and with a slash at the end when what follows has one (or, when nothing does, when the
      stored path ends in two).  At the entry itself a WebSocket request is sent to the stored path alone. */
  lemma RouteInside(c: Config, req: ProxyRequest, entry: string, rest: string)
    requires c.path != "" && Normalised(if c.entry != "" then c.entry else c.path, entry)
    requires StartsWith(req.pathname, "/") && After(req.pathname, entry, rest)
    ensures var upgrade := req.isWebSocket && req.pathname == entry;
            var added := if upgrade then "" else rest;
            var segments := Segments(c.path, "") + Segments(added, "");
            var slash := if added != "" then added[|added| - 1] == '/' else EndsWithTwo(c.path);
            Route(c, req) == Fetch(if upgrade then "GET" else req.verb,
                                   if NamesScheme(c.host) then c.host else "https://" + c.host,
                                   PathOf(segments, slash), req.search)
  {
    hide TargetPath, EntryPath, Under, Collapse, Origin, Strip, WithSlash, After, Suffix, Clean, PathOf, NamesScheme,
      Segments, Normalised, EndsWithSlash, EndsWithTwo;
    NormalisedIs(if c.entry != "" then c.entry else c.path, entry);
    NormalisedSegments(c.path);
    EntryIs(c);
    AfterIs(req.pathname, entry, rest);
    AfterRooted(req.pathname, entry, rest);
    OriginIs(c.host);
    var added := if req.isWebSocket && req.pathname == entry then "" else rest;
    var target := TargetPath(c);
    assert added == "" ==> target + added == target;
    Sent(target, added);
    SlashSent(c.path, added);
  }

  /** What is sent for a normalised target and the text added to it. */
  lemma Sent(target: string, added: string)
    requires StartsWith(target, "/") && (added == "" || added[0] == '/')
    ensures OrRoot(Collapse(if target == "/" then added else target + added))
         == PathOf(Segments(target, "") + Segments(added, ""), EndsWithSlash(if added != "" then added else target))
  {
    RootSegments();
    RootPath(EndsWithSlash(if added != "" then added else target));
    hide Collapse, Clean, PathOf, Segments, EndsWithSlash;
    var whole := if target == "/" then added else target + added;
    if whole == "" {
      CollapseNothing();
      assert Segments(target, "") + Segments(added, "") == [];
    } else {
      CollapseClean(whole);
      CollapseKeepsSegments(whole, "");
      CollapseLast(whole);
      if target != "/" {
        SegmentsConcat(target, added, "");
      } else {
        assert [] + Segments(added, "") == Segments(added, "");
      }
      LastOf(target, added);
      CleanPath(Collapse(whole));
    }
  }

  lemma RootPath(slash: bool)
    ensures PathOf([], slash) == "/"
  {
  }

  lemma CollapseNothing()
    ensures Collapse("") == ""
  {
  }

  lemma LastOf(a: string, b: string)
    ensures EndsWithSlash(a + b) == EndsWithSlash(if b != "" then b else a)
  {
    assert b == "" ==> a + b == a;
  }

  /** A normalised path ends in a slash if it is the root or was stored with two. */
  lemma SlashSent(stored: string, added: string)
    requires stored != ""
    ensures PathOf(Segments(stored, "") + Segments(added, ""),
                   EndsWithSlash(if added != "" then added else Strip(WithSlash(stored))))
         == PathOf(Segments(stored, "") + Segments(added, ""),
                   if added != "" then added[|added| - 1] == '/' else EndsWithTwo(stored))
  {
    RootSegments();
    RootPath(true);
    RootPath(false);
    hide PathOf, Segments;
    if added == "" && EndsWithSlash(Strip(WithSlash(stored))) != EndsWithTwo(stored) {
      StoredEnd(stored);
      assert Segments(stored, "") + Segments(added, "") == [];
    }
  }

  lemma StoredEnd(stored: string)
    requires stored != ""
    ensures stored == "/" || EndsWithSlash(Strip(WithSlash(stored))) == EndsWithTwo(stored)
  {
    var rooted := WithSlash(stored);
    RootedEnd(stored);
    StripEnd(rooted);
    hide WithSlash, Strip;
  }

  lemma RootedEnd(stored: string)
    requires stored != ""
    ensures var rooted := WithSlash(stored);
            && EndsWithTwo(rooted) == EndsWithTwo(stored) && (rooted == "/" <==> stored == "/")
  {
    if !StartsWith(stored, "/") {
      assert stored[..1] != "/";
    }
  }

  lemma StripEnd(rooted: string)
    requires StartsWith(rooted, "/")
    ensures rooted == "/" || EndsWithSlash(Strip(rooted)) == EndsWithTwo(rooted)
  {
    if |rooted| > 1 && EndsWithSlash(rooted) {
      assert rooted[..|rooted| - 1][|rooted| - 2] == rooted[|rooted| - 2];
    }
  }

  // ---- the configuration endpoint

  /** The fields a call brings: those of the query, or with POST those of a body that parses. */
  ghost predicate Brings(req: ApiRequest, f: Fields)
  {
    (req.verb == "GET" && f == req.query) || (req.verb == "POST" && req.body.Some? && f == req.body.value.fields)
  }

  predicate Known(req: ApiRequest)
  {
    req.verb == "GET" || req.verb == "POST"
  }

  /** No fields with a host and a path. */
  ghost predicate BringsNothing(req: ApiRequest)
  {
    forall f :: Brings(req, f) ==> f.wshost == "" || f.wspath == ""
  }

  /** Which calls are refused, in the order of the checks; they store no configuration. */
  lemma ApiRefuses(s: Setting, m: Memory, ram: Ram, req: ApiRequest)
    ensures Respond(s, m, ram, SetApi(req)) == Status(405) <==> !Known(req)
    ensures Respond(s, m, ram, SetApi(req)) == Status(403) <==> Known(req) && req.password != s.password
    ensures Respond(s, m, ram, SetApi(req)) == Status(400) <==>
      Known(req) && req.password == s.password && BringsNothing(req)
    ensures Respond(s, m, ram, SetApi(req)).Status? ==>
      Remember(s, m, SetApi(req)).config == m.config && Remember(s, m, SetApi(req)).transport == m.transport
  {
    var f := FieldsOf(req);
    if Known(req) && f.Some? {
      assert Brings(req, f.value);
    }
  }

  /** What an accepted call is told and stores: the entry is the path when none is given, and the transport stays
      when none is given. */
  lemma ApiAccepts(s: Setting, m: Memory, ram: Ram, req: ApiRequest, f: Fields)
    requires Brings(req, f) && req.password == s.password && f.wshost != "" && f.wspath != ""
    ensures var config := Config(f.wshost, f.wspath, if f.entrypath == "" then f.wspath else f.entrypath);
            && Remember(s, m, SetApi(req)).config == config
            && Remember(s, m, SetApi(req)).transport == (if f.transport == "" then m.transport else f.transport)
            && Respond(s, m, ram, SetApi(req))
               == Saved(config, if f.transport == "" then ram.transport else f.transport)
  {
  }

  /** The subscription changes with every call under the password that posts payloads which can be encoded, whether
      or not it brings a host and a path, and with no other. */
  lemma SubscriptionStored(s: Setting, m: Memory, req: ApiRequest)
    ensures var stored := if req.verb == "POST" && req.password == s.password && req.body.Some?
                             && req.body.value.payloads != [] then s.encode(req.body.value.payloads) else None;
            Remember(s, m, SetApi(req)).sub == if stored.Some? then stored.value else m.sub
  {
  }
}
