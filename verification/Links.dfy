/** The vless:// links: their printer and their parser.  A character stands for one byte. */
module Links {
  import opened Results
  import opened SniList
  import opened Text

  predicate IsBytes(s: string)
  {
    forall i :: 0 <= i < |s| ==> s[i] as int < 256
  }

  // ---- percent-encoding

  predicate Unreserved(c: char)
  {
    'A' <= c <= 'Z' || 'a' <= c <= 'z' || '0' <= c <= '9' || c == '_' || c == '.' || c == '-' || c == '~'
  }

  function HexDigit(n: nat): (c: char)
    requires n < 16
  {
    "0123456789ABCDEF"[n]
  }

  function HexValue(c: char): (r: Option<nat>)
    ensures r.Some? ==> r.value < 16
  {
    if '0' <= c <= '9' then Some(c as int - '0' as int)
    else if 'A' <= c <= 'F' then Some(c as int - 'A' as int + 10)
    else if 'a' <= c <= 'f' then Some(c as int - 'a' as int + 10)
    else None
  }

  function Escape(c: char): (r: string)
    requires c as int < 256
    ensures |r| == 3
  {
    ['%', HexDigit(c as int / 16), HexDigit(c as int % 16)]
  }

  function QuoteChar(c: char): (r: string)
    requires c as int < 256
    ensures |r| == 1 || |r| == 3
  {
    if Unreserved(c) then [c] else Escape(c)
  }

  function Quote(s: string): (r: string)
    requires IsBytes(s)
  {
    if s == "" then "" else QuoteChar(s[0]) + Quote(s[1..])
  }

  lemma {:induction false} QuoteSnoc(s: string, c: char)
    requires IsBytes(s + [c])
    ensures IsBytes(s) && c as int < 256 && Quote(s + [c]) == Quote(s) + QuoteChar(c)
  {
    hide QuoteChar;
    assert (s + [c])[|s|] == c;
    assert forall i :: 0 <= i < |s| ==> s[i] == (s + [c])[i];
    if s == "" {
      assert (s + [c])[1..] == "";
      assert Quote("") == "";
    } else {
      assert (s + [c])[1..] == s[1..] + [c];
      QuoteSnoc(s[1..], c);
    }
  }

  lemma NothingQuoted(s: string)
    requires IsBytes(s)
    ensures IsBytes(s[..0]) && Quote(s[..0]) == ""
  {
  }

  lemma QuoteNext(s: string, i: nat)
    requires IsBytes(s) && i < |s|
    ensures IsBytes(s[..i]) && IsBytes(s[..i + 1]) && s[i] as int < 256
    ensures Quote(s[..i + 1]) == Quote(s[..i]) + QuoteChar(s[i])
  {
    hide Quote, QuoteChar;
    assert s[..i + 1] == s[..i] + [s[i]];
    QuoteSnoc(s[..i], s[i]);
  }

  lemma QuoteCharIs(c: char)
    requires c as int < 256
    ensures QuoteChar(c) ==
      if Unreserved(c) then [c] else ['%'] + [HexDigit(c as int / 16)] + [HexDigit(c as int % 16)]
  {
  }

  method SafeQuote(s: string) returns (r: string)
    requires IsBytes(s)
    ensures r == Quote(s)
  {
    hide Quote, QuoteChar, Escape, HexDigit, IsBytes, Unreserved;
    r := "";
    NothingQuoted(s);
    for i := 0 to |s|
      invariant IsBytes(s[..i]) && r == Quote(s[..i])
    {
      QuoteNext(s, i);
      var c := s[i];
      QuoteCharIs(c);
      if Unreserved(c) {
        r := r + [c];
      } else {
        r := r + ['%'];
        r := r + [HexDigit(c as int / 16)];
        r := r + [HexDigit(c as int % 16)];
      }
    }
    assert s[..|s|] == s;
  }

  /** An escape sequence at the start. */
  predicate EscapeAt(s: string)
  {
    |s| >= 3 && s[0] == '%' && HexValue(s[1]).Some? && HexValue(s[2]).Some?
  }

  function EscapeByte(s: string): (c: char)
    requires EscapeAt(s)
  {
    (HexValue(s[1]).value * 16 + HexValue(s[2]).value) as char
  }

  /** Percent-decoding as forms do it: a stray percent sign stands for itself. */
  function Decode(s: string): (r: string)
    decreases |s|
  {
    if s == "" then ""
    else if EscapeAt(s) then [EscapeByte(s)] + Decode(s[3..])
    else [s[0]] + Decode(s[1..])
  }

  /** Percent-decoding that refuses a stray percent sign. */
  function DecodeStrict(s: string): (r: Option<string>)
    decreases |s|
  {
    if s == "" then Some("")
    else if EscapeAt(s) then
      var r := DecodeStrict(s[3..]);
      if r.None? then None else Some([EscapeByte(s)] + r.value)
    else if s[0] == '%' then None
    else
      var r := DecodeStrict(s[1..]);
      if r.None? then None else Some([s[0]] + r.value)
  }

  lemma HexRoundTrip(c: char)
    requires c as int < 256
    ensures EscapeAt(Escape(c)) && EscapeByte(Escape(c)) == c
  {
    HexDigitValue(c as int / 16);
    HexDigitValue(c as int % 16);
    assert c as int / 16 * 16 + c as int % 16 == c as int;
  }

  lemma HexDigitValue(n: nat)
    requires n < 16
    ensures HexValue(HexDigit(n)) == Some(n)
  {
  }

  lemma EscapePrefix(c: char, tail: string)
    requires c as int < 256
    ensures EscapeAt(Escape(c) + tail) && EscapeByte(Escape(c) + tail) == c
    ensures (Escape(c) + tail)[3..] == tail
  {
    HexRoundTrip(c);
    var e, s := Escape(c), Escape(c) + tail;
    hide Escape, HexValue;
    assert s[0] == e[0] && s[1] == e[1] && s[2] == e[2];
  }

  lemma DecodeOne(c: char, tail: string)
    requires c as int < 256
    ensures Decode(QuoteChar(c) + tail) == [c] + Decode(tail)
    ensures DecodeStrict(QuoteChar(c) + tail) ==
      if DecodeStrict(tail).Some? then Some([c] + DecodeStrict(tail).value) else None
  {
    hide Escape, EscapeByte;
    if Unreserved(c) {
      assert ([c] + tail)[1..] == tail;
      assert !EscapeAt([c] + tail);
    } else {
      EscapePrefix(c, tail);
      hide EscapeAt;
    }
  }

  /** Decoding undoes quoting, also with text after it. */
  lemma {:induction false} DecodeQuote(s: string, rest: string)
    requires IsBytes(s)
    ensures Decode(Quote(s) + rest) == s + Decode(rest)
    ensures DecodeStrict(Quote(s) + rest) ==
      if DecodeStrict(rest).Some? then Some(s + DecodeStrict(rest).value) else None
  {
    hide Decode, DecodeStrict, QuoteChar;
    if s == "" {
      assert Quote(s) + rest == rest;
      assert "" + Decode(rest) == Decode(rest);
      if DecodeStrict(rest).Some? {
        assert "" + DecodeStrict(rest).value == DecodeStrict(rest).value;
      }
    } else {
      DecodeQuote(s[1..], rest);
      var tail := Quote(s[1..]) + rest;
      assert Quote(s) + rest == QuoteChar(s[0]) + tail;
      hide Quote;
      DecodeOne(s[0], tail);
      assert [s[0]] + (s[1..] + Decode(rest)) == s + Decode(rest);
      if DecodeStrict(rest).Some? {
        assert [s[0]] + (s[1..] + DecodeStrict(rest).value) == s + DecodeStrict(rest).value;
      }
    }
  }

  predicate UpperHex(c: char)
  {
    '0' <= c <= '9' || 'A' <= c <= 'F'
  }

  /** Unreserved characters and upper-case escapes, and nothing else. */
  predicate WellQuoted(s: string)
  {
    if s == "" then true
    else if |s| >= 3 && s[0] == '%' then UpperHex(s[1]) && UpperHex(s[2]) && WellQuoted(s[3..])
    else Unreserved(s[0]) && WellQuoted(s[1..])
  }

  lemma {:induction false} QuoteWellQuoted(s: string)
    requires IsBytes(s)
    ensures WellQuoted(Quote(s))
    ensures forall c :: c in Quote(s) ==> c == '%' || Unreserved(c)
  {
    if s != "" {
      QuoteWellQuoted(s[1..]);
      var q, tail := QuoteChar(s[0]), Quote(s[1..]);
      assert (q + tail)[|q|..] == tail;
      HexDigitUpper(s[0] as int / 16);
      HexDigitUpper(s[0] as int % 16);
      assert forall c :: c in q ==> c == '%' || Unreserved(c);
    }
  }

  lemma HexDigitUpper(n: nat)
    requires n < 16
    ensures UpperHex(HexDigit(n))
  {
  }

  /** Text that needs no quoting is its own quotation. */
  lemma {:induction false} QuoteFixes(s: string)
    requires IsBytes(s)
    ensures Quote(s) == s <==> forall c :: c in s ==> Unreserved(c)
  {
    if s != "" {
      QuoteFixes(s[1..]);
      QuoteLength(s[1..]);
      assert s == [s[0]] + s[1..];
      assert forall c :: c in s <==> c == s[0] || c in s[1..];
      if !Unreserved(s[0]) {
        assert |Quote(s)| > |s|;
      } else {
        assert Quote(s) == [s[0]] + Quote(s[1..]);
        assert Quote(s) == s ==> Quote(s)[1..] == s[1..];
      }
    }
  }

  lemma {:induction false} QuoteLength(s: string)
    requires IsBytes(s)
    ensures |Quote(s)| >= |s|
  {
    if s != "" {
      QuoteLength(s[1..]);
    }
  }

  // ---- query parameters

  function PlusToSpace(s: string): (r: string)
  {
    if s == "" then "" else [if s[0] == '+' then ' ' else s[0]] + PlusToSpace(s[1..])
  }

  function FormDecode(s: string): (r: string)
  {
    Decode(PlusToSpace(s))
  }

  function Field(piece: string): (r: (string, string))
  {
    var i := IndexOf(piece, '=');
    if i.None? then (FormDecode(piece), "") else (FormDecode(piece[..i.value]), FormDecode(piece[i.value + 1..]))
  }

  /** The first value of a parameter; a missing one and an empty one are both "". */
  function GetIn(pieces: seq<string>, name: string): (r: string)
  {
    if pieces == [] then ""
    else if pieces[0] != "" && Field(pieces[0]).0 == name then Field(pieces[0]).1
    else GetIn(pieces[1..], name)
  }

  function Get(query: string, name: string): (r: string)
  {
    GetIn(Split(if |query| > 0 && query[0] == '?' then query[1..] else query, '&'), name)
  }

  lemma {:induction false} PlusAbsent(s: string)
    requires '+' !in s
    ensures PlusToSpace(s) == s
  {
    if s != "" {
      PlusAbsent(s[1..]);
    }
  }

  lemma {:induction false} DecodePlain(s: string)
    requires '%' !in s
    ensures Decode(s) == s && DecodeStrict(s) == Some(s)
  {
    if s != "" {
      DecodePlain(s[1..]);
      assert s == [s[0]] + s[1..];
    }
  }

  /** Characters that stand for themselves in a query value. */
  predicate Plain(s: string)
  {
    '%' !in s && '+' !in s && '&' !in s
  }

  function Pair(key: string, value: string): (r: string)
    ensures r != ""
  {
    (key + ['=']) + value
  }

  lemma FieldOfPair(key: string, value: string)
    requires Plain(key) && '=' !in key
    ensures Field(Pair(key, value)) == (key, FormDecode(value))
    ensures '&' in Pair(key, value) <==> '&' in value
  {
    FirstSeparator(key, '=', value);
    PlusAbsent(key);
    DecodePlain(key);
  }

  lemma PlainDecodes(s: string)
    requires Plain(s)
    ensures FormDecode(s) == s
  {
    PlusAbsent(s);
    DecodePlain(s);
  }

  lemma QuoteAvoids(s: string, c: char)
    requires IsBytes(s) && c != '%' && !Unreserved(c)
    ensures c !in Quote(s)
  {
    hide Quote, WellQuoted, IsBytes;
    QuoteWellQuoted(s);
  }

  lemma QuoteDecodes(s: string)
    requires IsBytes(s)
    ensures FormDecode(Quote(s)) == s && '&' !in Quote(s) && '#' !in Quote(s)
  {
    assert Decode("") == "";
    assert !Unreserved('&') && !Unreserved('#') && !Unreserved('+');
    hide Decode, Quote, PlusToSpace, IsBytes, Unreserved;
    QuoteAvoids(s, '&');
    QuoteAvoids(s, '#');
    QuoteAvoids(s, '+');
    PlusAbsent(Quote(s));
    DecodeQuote(s, "");
    assert Quote(s) + "" == Quote(s) && s + "" == s;
  }

  predicate IsKey(key: string)
  {
    Plain(key) && '=' !in key
  }

  function Chunk(key: string): (r: string)
  {
    ['&'] + (key + ['='])
  }

  /** One more parameter at the end of a query is one more piece. */
  lemma AppendPair(query: string, key: string, value: string)
    requires IsKey(key) && '&' !in value
    ensures Split(query + Chunk(key) + value, '&') == Split(query, '&') + [Pair(key, value)]
  {
    hide Split;
    Assoc(['&'], key + ['='], value);
    Assoc(query, Chunk(key), value);
    Assoc(query, ['&'], Pair(key, value));
    SplitConcat(query, '&', Pair(key, value));
    assert '&' !in Pair(key, value);
    assert Split(Pair(key, value), '&') == [Pair(key, value)];
  }

  // ---- the parser

  datatype Node = Node(remark: string, host: string, port: string, security: string, net: string,
                       sni: string, path: string, hostHeader: string)

  function Or(a: string, b: string): (r: string)
  {
    if a == "" then b else a
  }

  const FAILED := Node("VLESS Node", "", "", "none", "ws", "", "", "")

  function UpTo(s: string, i: Option<nat>): (r: string)
    requires i.Some? ==> i.value <= |s|
  {
    if i.Some? then s[..i.value] else s
  }

  /** The remark is the one before cosmetic clean-up.  `utf8` says which bytes are well-formed text;
      decoding others throws, and then nothing is recovered. */
  function ParseVlessUrl(utf8: string -> bool, url: string): (r: Node)
  {
    if |url| < 8 || url[..8] != "vless://" then FAILED.(remark := Or(url, "VLESS Node"))
    else
      var rest := url[8..];
      var hash := LastIndexOf(rest, '#');
      var remark := if hash.Some? then DecodeStrict(rest[hash.value + 1..]) else Some("VLESS Node");
      if remark.None? || (hash.Some? && !utf8(remark.value)) then FAILED
      else
        ParseMain(remark.value, UpTo(rest, hash))
  }

  function ParseMain(remark: string, main: string): (r: Node)
  {
    var at := IndexOf(main, '@');
    var hostPortQuery := if at.Some? then main[at.value + 1..] else main;
    var question := IndexOf(hostPortQuery, '?');
    var query := if question.Some? then hostPortQuery[question.value + 1..] else "";
    var parts := Split(UpTo(hostPortQuery, question), ':');
    var port := Or(if |parts| > 1 then parts[1] else "", "443");
    Node(remark, parts[0], port, Or(Get(query, "security"), if port == "443" then "tls" else "none"),
         Or(Get(query, "type"), "ws"), Get(query, "sni"), Get(query, "path"), Get(query, "host"))
  }

  // ---- one link

  function Link(uuid: string, sni: string, port: string, query: string, fragment: string): (r: string)
  {
    "vless://" + (uuid + ['@'] + (sni + [':'] + port + ['?'] + query) + ['#'] + fragment)
  }

  lemma AfterScheme(a: string, b: string)
    ensures (a + b)[..|a|] == a && (a + b)[|a|..] == b
  {
  }

  lemma ParseLink(utf8: string -> bool, uuid: string, sni: string, port: string, query: string, fragment: string,
      remark: string)
    requires '@' !in uuid && '?' !in port && '#' !in fragment && DecodeStrict(fragment) == Some(remark)
    ensures ParseVlessUrl(utf8, Link(uuid, sni, port, query, fragment)) ==
      if utf8(remark) then ParseMain(remark, uuid + ['@'] + (sni + [':'] + port + ['?'] + query)) else FAILED
  {
    hide ParseMain, DecodeStrict, LastIndexOf;
    var main := uuid + ['@'] + (sni + [':'] + port + ['?'] + query);
    var url := Link(uuid, sni, port, query, fragment);
    assert url == "vless://" + (main + ['#'] + fragment);
    AfterScheme("vless://", main + ['#'] + fragment);
    LastSeparator(main, '#', fragment);
  }

  lemma ParseHostPort(remark: string, uuid: string, sni: string, port: string, query: string)
    requires '@' !in uuid && '?' !in port && ':' !in port && port != "" && ':' !in sni && '?' !in sni
    ensures ParseMain(remark, uuid + ['@'] + (sni + [':'] + port + ['?'] + query)) ==
      Node(remark, sni, port, Or(Get(query, "security"), if port == "443" then "tls" else "none"),
           Or(Get(query, "type"), "ws"), Get(query, "sni"), Get(query, "path"), Get(query, "host"))
  {
    hide Get;
    FirstSeparator(uuid, '@', sni + [':'] + port + ['?'] + query);
    FirstSeparator(sni + [':'] + port, '?', query);
    FirstSeparator(sni, ':', port);
    assert Split(sni + [':'] + port, ':') == [sni] + Split(port, ':');
  }

  lemma FirstPartCut(sni: string, rest: string)
    requires rest != "" && rest[0] == ':' && (':' in sni || '?' in sni)
    ensures var text := sni + rest; |Split(UpTo(text, IndexOf(text, '?')), ':')[0]| < |sni|
  {
    var text := sni + rest;
    if '?' in sni {
      var i :| 0 <= i < |sni| && sni[i] == '?';
      assert text[i] == '?';
      IndexOfBy(text, '?', i);
      hide Split, IndexOf;
    } else {
      var i :| 0 <= i < |sni| && sni[i] == ':';
      IndexOfSkip(sni, rest, '?');
      var hostPort := UpTo(text, IndexOf(text, '?'));
      assert hostPort[i] == ':';
      IndexOfBy(hostPort, ':', i);
    }
  }

  /** A separator inside the SNI cuts it short. */
  lemma HostCut(remark: string, uuid: string, sni: string, port: string, query: string)
    requires '@' !in uuid && (':' in sni || '?' in sni)
    ensures |ParseMain(remark, uuid + ['@'] + (sni + [':'] + port + ['?'] + query)).host| < |sni|
  {
    var text := sni + [':'] + port + ['?'] + query;
    FirstSeparator(uuid, '@', text);
    var rest := [':'] + port + ['?'] + query;
    hide Get, Split, IndexOf, Or;
    assert text == sni + rest;
    FirstPartCut(sni, rest);
  }

  // ---- the printer

  datatype LinkConfig = LinkConfig(wsPath: string, wsHost: string, transport: string, xhttpMode: string,
    fakeSni: seq<SniEntry>)

  /** The configured host unless it is left at its default. */
  function HostInfo(cfg: LinkConfig, tunnelHost: string): (r: string)
  {
    if cfg.wsHost != "" && cfg.wsHost != "trycloudflare.com" then cfg.wsHost else tunnelHost
  }

  function Net(cfg: LinkConfig): (r: string)
  {
    if cfg.transport == "xhttp" then "xhttp" else "ws"
  }

  function Extras(cfg: LinkConfig, tls: bool): (r: string)
  {
    if cfg.transport != "xhttp" then "&ed=2048"
    else (if tls then "&alpn=h2&mode=" else "&mode=") + Or(cfg.xhttpMode, "auto")
  }

  /** The two printed forms. */
  function TlsText(uuid: string, sni: string, net: string, path: string, host: string, extras: string,
      remark: string): (r: string)
  {
    "vless://" + uuid + "@" + sni + ":443?type=" + net + "&encryption=none&security=tls&path=" + path + "&host=" + host
    + "&sni=" + host + extras + "#" + remark + "%20TLS"
  }

  function PlainText(uuid: string, sni: string, net: string, path: string, host: string, extras: string,
      remark: string): (r: string)
  {
    "vless://" + uuid + "@" + sni + ":80?type=" + net + "&encryption=none&security=&path=" + path + "&host=" + host
    + extras + "#" + remark + "%20NO%20TLS"
  }

  /** The link of one entry. */
  function EntryLink(cfg: LinkConfig, uuid: string, host: string, entry: SniEntry, tls: bool): (r: string)
    requires IsBytes(cfg.wsPath) && IsBytes(entry.remark)
  {
    if tls then TlsText(uuid, entry.sni, Net(cfg), Quote(cfg.wsPath), host, Extras(cfg, true), Quote(entry.remark))
    else PlainText(uuid, entry.sni, Net(cfg), Quote(cfg.wsPath), host, Extras(cfg, false), Quote(entry.remark))
  }

  /** Two links an entry, in order: TLS on 443, then without TLS on 80. */
  method BuildLinks(cfg: LinkConfig, uuid: string, tunnelHost: string) returns (payloads: seq<string>)
    requires IsBytes(cfg.wsPath) && forall e :: e in cfg.fakeSni ==> IsBytes(e.remark)
    ensures |payloads| == 2 * |cfg.fakeSni|
    ensures forall i :: 0 <= i < |cfg.fakeSni| ==>
      && payloads[2 * i] == EntryLink(cfg, uuid, HostInfo(cfg, tunnelHost), cfg.fakeSni[i], true)
      && payloads[2 * i + 1] == EntryLink(cfg, uuid, HostInfo(cfg, tunnelHost), cfg.fakeSni[i], false)
  {
    hide Quote, TlsText, PlainText;
    var encodedPath := SafeQuote(cfg.wsPath);
    var host := tunnelHost;
    if cfg.wsHost != "" && cfg.wsHost != "trycloudflare.com" {
      host := cfg.wsHost;
    }
    var net := "ws";
    var extraTls, extraPlain := "&ed=2048", "&ed=2048";
    if cfg.transport == "xhttp" {
      net := "xhttp";
      var mode := cfg.xhttpMode;
      if mode == "" {
        mode := "auto";
      }
      extraTls := "&alpn=h2&mode=" + mode;
      extraPlain := "&mode=" + mode;
    }
    assert extraTls == Extras(cfg, true) && extraPlain == Extras(cfg, false) && net == Net(cfg)
      && host == HostInfo(cfg, tunnelHost);
    hide Extras, Net, HostInfo;
    payloads := [];
    for i := 0 to |cfg.fakeSni|
      invariant |payloads| == 2 * i
      invariant forall k :: 0 <= k < i ==>
        && payloads[2 * k] == EntryLink(cfg, uuid, host, cfg.fakeSni[k], true)
        && payloads[2 * k + 1] == EntryLink(cfg, uuid, host, cfg.fakeSni[k], false)
    {
      var entry := cfg.fakeSni[i];
      var encodedRemark := SafeQuote(entry.remark);
      payloads := payloads + [TlsText(uuid, entry.sni, net, encodedPath, host, extraTls, encodedRemark),
                              PlainText(uuid, entry.sni, net, encodedPath, host, extraPlain, encodedRemark)];
    }
  }

  // ---- regrouping a printed link

  lemma LinkShape(v: string, uuid: string, at: string, sni: string, colon: string, port: string, mark: string,
                  query: string, hash: string, fragment: string)
    ensures v + uuid + at + sni + (colon + port + mark) + query + hash + fragment
      == v + (uuid + at + (sni + colon + port + mark + query) + hash + fragment)
  {
    var address := sni + colon + port + mark + query;
    Assoc(colon, port, mark);
    Assoc(sni, colon, port + mark);
    Assoc(sni + colon, port, mark);
    assert sni + (colon + port + mark) == sni + colon + port + mark;
    Assoc(v + uuid + at, sni, colon + port + mark);
    Assoc(v + uuid + at, sni + (colon + port + mark), query);
    Assoc(v, uuid, at);
    Assoc(v, uuid + at, address);
    Assoc(v, uuid + at + address, hash);
    Assoc(v, uuid + at + address + hash, fragment);
  }

  /** Move a chain of appended pieces behind what precedes it. */
  lemma Gather6(x: string, head: string, q1: string, q2: string, q3: string, q4: string, q5: string, q6: string)
    ensures x + (head + q1) + q2 + q3 + q4 + q5 + q6 == (x + head) + (q1 + q2 + q3 + q4 + q5 + q6)
  {
    Assoc(x, head, q1);
    var y := x + head;
    Assoc(y, q1, q2);
    Assoc(y, q1 + q2, q3);
    Assoc(y, q1 + q2 + q3, q4);
    Assoc(y, q1 + q2 + q3 + q4, q5);
    Assoc(y, q1 + q2 + q3 + q4 + q5, q6);
  }

  function TlsQuery(net: string, path: string, host: string, extras: string): (r: string)
  {
    "type=" + net + "&encryption=none&security=tls&path=" + path + "&host=" + host + "&sni=" + host + extras
  }

  function PlainQuery(net: string, path: string, host: string, extras: string): (r: string)
  {
    "type=" + net + "&encryption=none&security=&path=" + path + "&host=" + host + extras
  }

  lemma GroupTls(v: string, uuid: string, at: string, sni: string, colon: string, port: string, mark: string,
      t: string, net: string,
                 e: string, path: string, h: string, host: string, s: string, extras: string, hash: string,
                   remark: string, end: string)
    ensures v + uuid + at + sni + (colon + port + mark + t) + net + e + path + h + host + s + host + extras + hash
      + remark + end
      == v + (uuid + at + (sni + colon + port + mark + (t + net + e + path + h + host + s + host + extras)) + hash
        + (remark + end))
  {
    var x, head := v + uuid + at + sni, colon + port + mark;
    Gather6(x, head, t, net, e, path, h, host);
    var q := t + net + e + path + h + host;
    Assoc(x + head, q, s);
    Assoc(x + head, q + s, host);
    Assoc(x + head, q + s + host, extras);
    Assoc(x + head + (q + s + host + extras) + hash, remark, end);
    LinkShape(v, uuid, at, sni, colon, port, mark, q + s + host + extras, hash, remark + end);
  }

  lemma GroupPlain(v: string, uuid: string, at: string, sni: string, colon: string, port: string, mark: string,
      t: string, net: string,
                   e: string, path: string, h: string, host: string, extras: string, hash: string, remark: string,
                     end: string)
    ensures v + uuid + at + sni + (colon + port + mark + t) + net + e + path + h + host + extras + hash + remark + end
      == v + (uuid + at + (sni + colon + port + mark + (t + net + e + path + h + host + extras)) + hash
        + (remark + end))
  {
    var x, head := v + uuid + at + sni, colon + port + mark;
    Gather6(x, head, t, net, e, path, h, host);
    var q := t + net + e + path + h + host;
    Assoc(x + head, q, extras);
    Assoc(x + head + (q + extras) + hash, remark, end);
    LinkShape(v, uuid, at, sni, colon, port, mark, q + extras, hash, remark + end);
  }

  lemma TlsTextIsLink(uuid: string, sni: string, net: string, path: string, host: string, extras: string,
      remark: string)
    ensures TlsText(uuid, sni, net, path, host, extras, remark)
      == Link(uuid, sni, "443", TlsQuery(net, path, host, extras), remark + "%20TLS")
  {
    assert ":443?type=" == [':'] + "443" + ['?'] + "type=";
    GroupTls("vless://", uuid, "@", sni, [':'], "443", ['?'], "type=", net, "&encryption=none&security=tls&path=", path,
             "&host=", host, "&sni=", extras, "#", remark, "%20TLS");
  }

  lemma PlainTextIsLink(uuid: string, sni: string, net: string, path: string, host: string, extras: string,
      remark: string)
    ensures PlainText(uuid, sni, net, path, host, extras, remark)
      == Link(uuid, sni, "80", PlainQuery(net, path, host, extras), remark + "%20NO%20TLS")
  {
    assert ":80?type=" == [':'] + "80" + ['?'] + "type=";
    GroupPlain("vless://", uuid, "@", sni, [':'], "80", ['?'], "type=", net, "&encryption=none&security=&path=", path,
               "&host=", host, extras, "#", remark, "%20NO%20TLS");
  }

  // ---- reading a printed query

  lemma Spread(q: string, a: string, b: string, c: string, d: string, e: string)
    ensures q + (a + b + c + d + e) == q + a + b + c + d + e
  {
    Assoc(q, a, b);
    Assoc(q, a + b, c);
    Assoc(q, a + b + c, d);
    Assoc(q, a + b + c + d, e);
  }

  lemma FourMore(q: string, k1: string, v1: string, k2: string, v2: string, k3: string, v3: string, k4: string,
      v4: string)
    requires IsKey(k1) && IsKey(k2) && IsKey(k3) && IsKey(k4) && '&' !in v1 && '&' !in v2 && '&' !in v3 && '&' !in v4
    ensures Split(q + Chunk(k1) + v1 + Chunk(k2) + v2 + Chunk(k3) + v3 + Chunk(k4) + v4, '&')
      == Split(q, '&') + [Pair(k1, v1), Pair(k2, v2), Pair(k3, v3), Pair(k4, v4)]
  {
    hide Split, Pair, Chunk, IsKey;
    var q1 := q + Chunk(k1) + v1;
    var q2 := q1 + Chunk(k2) + v2;
    var q3 := q2 + Chunk(k3) + v3;
    AppendPair(q, k1, v1);
    AppendPair(q1, k2, v2);
    AppendPair(q2, k3, v3);
    AppendPair(q3, k4, v4);
  }

  /** The parameters of printed links. */
  datatype Param = Type | Encryption | Security | Path | Host | Sni | Alpn | Mode | Ed

  function Name(p: Param): (r: string)
  {
    match p
    case Type => "type"
    case Encryption => "encryption"
    case Security => "security"
    case Path => "path"
    case Host => "host"
    case Sni => "sni"
    case Alpn => "alpn"
    case Mode => "mode"
    case Ed => "ed"
  }

  lemma NameIsKey(p: Param)
    ensures IsKey(Name(p))
  {
  }

  lemma NamesDiffer(p: Param, q: Param)
    ensures Name(p) == Name(q) ==> p == q
  {
  }

  /** The part of the format between the transport and the path. */
  function Middle(none: string, security: string): (r: string)
  {
    Chunk(Name(Encryption)) + none + Chunk(Name(Security)) + security + Chunk(Name(Path))
  }

  lemma EncryptionChunk()
    ensures Chunk("encryption") + "none" == "&encryption=none"
  {
  }

  lemma SecurityChunk(security: string)
    ensures "&encryption=none" + Chunk("security") + security == "&encryption=none&security=" + security
  {
    assert "&encryption=none" + Chunk("security") == "&encryption=none&security=";
  }

  lemma MiddlesAre()
    ensures Middle("none", "tls") == "&encryption=none&security=tls&path="
    ensures Middle("none", "") == "&encryption=none&security=&path="
  {
    EncryptionChunk();
    SecurityChunk("tls");
    SecurityChunk("");
    assert Chunk("path") == "&path=";
    hide Chunk;
    assert "&encryption=none&security=" + "tls" == "&encryption=none&security=tls";
    assert "&encryption=none&security=tls" + "&path=" == "&encryption=none&security=tls&path=";
    assert "&encryption=none&security=" + "" == "&encryption=none&security=";
    assert "&encryption=none&security=" + "&path=" == "&encryption=none&security=&path=";
  }

  lemma ChunksAre()
    ensures Chunk(Name(Host)) == "&host=" && Chunk(Name(Sni)) == "&sni=" && Pair(Name(Type), "") == "type="
  {
  }

  /** The pieces in front of a printed query. */
  predicate Front(pieces: seq<string>, none: string, net: string, security: string, path: string, host: string)
  {
    && |pieces| >= 5 && pieces[0] == Pair(Name(Type), net) && pieces[1] == Pair(Name(Encryption), none)
    && pieces[2] == Pair(Name(Security), security) && pieces[3] == Pair(Name(Path), path)
      && pieces[4] == Pair(Name(Host), host)
  }

  lemma OnePiece(key: string, value: string)
    requires '&' !in value
    ensures IsKey(key) ==> Split(Pair(key, value), '&') == [Pair(key, value)]
  {
    if IsKey(key) {
      assert '&' !in Pair(key, value);
    }
  }

  lemma FrontPieces(none: string, net: string, security: string, path: string, host: string)
    requires '&' !in none && '&' !in net && '&' !in security && '&' !in path && '&' !in host
    ensures var pieces := Split(Pair(Name(Type), net) + Middle(none, security) + path + Chunk(Name(Host)) + host, '&');
      |pieces| == 5 && Front(pieces, none, net, security, path, host)
  {
    hide Split, Pair, Chunk, IsKey, Name;
    var q := Pair(Name(Type), net);
    OnePiece(Name(Type), net);
    NameIsKey(Type);
    NameIsKey(Encryption);
    NameIsKey(Security);
    NameIsKey(Path);
    NameIsKey(Host);
    Spread(q, Chunk(Name(Encryption)), none, Chunk(Name(Security)), security, Chunk(Name(Path)));
    FourMore(q, Name(Encryption), none, Name(Security), security, Name(Path), path, Name(Host), host);
  }

  /** Reading a parameter off the front of a list of pieces. */
  lemma GetStep(key: string, value: string, pieces: seq<string>, name: string)
    requires IsKey(key) && '&' !in value && pieces != [] && pieces[0] == Pair(key, value)
    ensures GetIn(pieces, name) == if name == key then FormDecode(value) else GetIn(pieces[1..], name)
  {
    FieldOfPair(key, value);
  }

  lemma GetFront(none: string, net: string, security: string, path: string, host: string, pieces: seq<string>, p: Param)
    requires '&' !in none && '&' !in net && '&' !in security && '&' !in path && '&' !in host
    requires Front(pieces, none, net, security, path, host)
    ensures GetIn(pieces, Name(p)) ==
      match p
      case Type => FormDecode(net)
      case Encryption => FormDecode(none)
      case Security => FormDecode(security)
      case Path => FormDecode(path)
      case Host => FormDecode(host)
      case _ => GetIn(pieces[5..], Name(p))
  {
    hide GetIn, FormDecode, Pair, Name, IsKey;
    GetStepOther(Type, net, pieces, p);
    GetStepOther(Encryption, none, pieces[1..], p);
    assert pieces[1..][1..] == pieces[2..];
    GetStepOther(Security, security, pieces[2..], p);
    assert pieces[2..][1..] == pieces[3..];
    GetStepOther(Path, path, pieces[3..], p);
    assert pieces[3..][1..] == pieces[4..];
    GetStepOther(Host, host, pieces[4..], p);
    assert pieces[4..][1..] == pieces[5..];
  }

  lemma GetStepOther(q: Param, value: string, pieces: seq<string>, p: Param)
    requires '&' !in value && pieces != [] && pieces[0] == Pair(Name(q), value)
    ensures GetIn(pieces, Name(p)) == if p == q then FormDecode(value) else GetIn(pieces[1..], Name(p))
  {
    hide Name, GetIn, Pair, FormDecode, IsKey;
    NameIsKey(q);
    NamesDiffer(p, q);
    GetStep(Name(q), value, pieces, Name(p));
  }

  lemma TlsQueryIs(net: string, path: string, host: string, extras: string)
    ensures TlsQuery(net, path, host, extras)
      == Pair(Name(Type), net) + Middle("none", "tls") + path + Chunk(Name(Host)) + host + Chunk(Name(Sni)) + host
        + extras
  {
    MiddlesAre();
    ChunksAre();
    assert Pair(Name(Type), net) == "type=" + net;
    hide Middle, Chunk, Pair, Name;
  }

  lemma PlainQueryIs(net: string, path: string, host: string, extras: string)
    ensures PlainQuery(net, path, host, extras)
      == Pair(Name(Type), net) + Middle("none", "") + path + Chunk(Name(Host)) + host + extras
  {
    MiddlesAre();
    ChunksAre();
    assert Pair(Name(Type), net) == "type=" + net;
    hide Middle, Chunk, Pair, Name;
  }

  lemma PiecesWithSni(q: string, host: string, more: string)
    requires '&' !in host
    ensures Split(q + Chunk(Name(Sni)) + host + (['&'] + more), '&')
      == Split(q, '&') + [Pair(Name(Sni), host)] + Split(more, '&')
  {
    hide Split, Pair, Chunk, IsKey, Name;
    NameIsKey(Sni);
    AppendPair(q, Name(Sni), host);
    Assoc(q + Chunk(Name(Sni)) + host, ['&'], more);
    SplitConcat(q + Chunk(Name(Sni)) + host, '&', more);
  }

  lemma PiecesWithout(q: string, more: string)
    ensures Split(q + (['&'] + more), '&') == Split(q, '&') + Split(more, '&')
  {
    hide Split;
    Assoc(q, ['&'], more);
    SplitConcat(q, '&', more);
  }

  lemma GetSni(none: string, net: string, security: string, path: string, host: string, front: seq<string>,
      more: seq<string>, p: Param)
    requires '&' !in none && '&' !in net && '&' !in security && '&' !in path && '&' !in host
    requires |front| == 5 && Front(front, none, net, security, path, host)
    ensures GetIn(front + [Pair(Name(Sni), host)] + more, Name(p)) ==
      match p
      case Type => FormDecode(net)
      case Encryption => FormDecode(none)
      case Security => FormDecode(security)
      case Path => FormDecode(path)
      case Host => FormDecode(host)
      case Sni => FormDecode(host)
      case _ => GetIn(more, Name(p))
  {
    hide GetIn, FormDecode, Name, Pair;
    var pieces := front + [Pair(Name(Sni), host)] + more;
    GetFront(none, net, security, path, host, pieces, p);
    assert pieces[5..][0] == Pair(Name(Sni), host);
    GetStepOther(Sni, host, pieces[5..], p);
    assert pieces[5..][1..] == more;
  }

  lemma GetTls(net: string, path: string, host: string, more: string, p: Param)
    requires '&' !in net && '&' !in path && '&' !in host
    ensures GetIn(Split(TlsQuery(net, path, host, ['&'] + more), '&'), Name(p)) ==
      match p
      case Type => FormDecode(net)
      case Encryption => FormDecode("none")
      case Security => FormDecode("tls")
      case Path => FormDecode(path)
      case Host => FormDecode(host)
      case Sni => FormDecode(host)
      case _ => GetIn(Split(more, '&'), Name(p))
  {
    assert '&' !in "none" && '&' !in "tls";
    hide GetIn, FormDecode, Name, Split, Pair, Chunk, Middle, TlsQuery, Front;
    var q := Pair(Name(Type), net) + Middle("none", "tls") + path + Chunk(Name(Host)) + host;
    TlsQueryIs(net, path, host, ['&'] + more);
    FrontPieces("none", net, "tls", path, host);
    PiecesWithSni(q, host, more);
    GetSni("none", net, "tls", path, host, Split(q, '&'), Split(more, '&'), p);
  }

  lemma GetPlain(net: string, path: string, host: string, more: string, p: Param)
    requires '&' !in net && '&' !in path && '&' !in host
    ensures GetIn(Split(PlainQuery(net, path, host, ['&'] + more), '&'), Name(p)) ==
      match p
      case Type => FormDecode(net)
      case Encryption => FormDecode("none")
      case Security => FormDecode("")
      case Path => FormDecode(path)
      case Host => FormDecode(host)
      case _ => GetIn(Split(more, '&'), Name(p))
  {
    assert '&' !in "none" && '&' !in "";
    hide GetIn, FormDecode, Name, Split, Pair, Chunk, Middle, PlainQuery;
    var q := Pair(Name(Type), net) + Middle("none", "") + path + Chunk(Name(Host)) + host;
    PlainQueryIs(net, path, host, ['&'] + more);
    FrontPieces("none", net, "", path, host);
    PiecesWithout(q, more);
    var pieces := Split(q, '&') + Split(more, '&');
    assert pieces[5..] == Split(more, '&');
    GetFront("none", net, "", path, host, pieces, p);
  }

  lemma QueriesStartWithT(net: string, path: string, host: string, extras: string)
    ensures TlsQuery(net, path, host, extras)[0] == 't' && PlainQuery(net, path, host, extras)[0] == 't'
  {
  }

  function QueryOf(cfg: LinkConfig, host: string, tls: bool): (r: string)
    requires IsBytes(cfg.wsPath)
  {
    if tls then TlsQuery(Net(cfg), Quote(cfg.wsPath), host, Extras(cfg, true))
    else PlainQuery(Net(cfg), Quote(cfg.wsPath), host, Extras(cfg, false))
  }

  lemma GetOf(cfg: LinkConfig, host: string, tls: bool, p: Param)
    requires IsBytes(cfg.wsPath) && Plain(host)
    ensures Get(QueryOf(cfg, host, tls), Name(p)) ==
      match p
      case Type => FormDecode(Net(cfg))
      case Encryption => FormDecode("none")
      case Security => if tls then FormDecode("tls") else FormDecode("")
      case Path => FormDecode(Quote(cfg.wsPath))
      case Host => FormDecode(host)
      case _ => if tls && p == Sni then FormDecode(host) else GetIn(Split(Extras(cfg, tls)[1..], '&'), Name(p))
  {
    var path, more := Quote(cfg.wsPath), Extras(cfg, tls)[1..];
    assert Extras(cfg, tls) == ['&'] + more;
    assert '&' !in Net(cfg);
    hide FormDecode, Split, Quote, Extras, IsBytes, GetIn, Net, Name;
    QuoteDecodes(cfg.wsPath);
    QueriesStartWithT(Net(cfg), path, host, Extras(cfg, tls));
    hide TlsQuery, PlainQuery;
    if tls {
      GetTls(Net(cfg), path, host, more, p);
    } else {
      GetPlain(Net(cfg), path, host, more, p);
    }
  }

  lemma ValuesDecode(cfg: LinkConfig, host: string)
    requires IsBytes(cfg.wsPath) && Plain(host)
    ensures FormDecode(Net(cfg)) == Net(cfg) && FormDecode("tls") == "tls" && FormDecode("") == ""
    ensures FormDecode(host) == host && FormDecode(Quote(cfg.wsPath)) == cfg.wsPath
  {
    assert Plain(Net(cfg)) && Plain("tls") && Plain("");
    hide FormDecode, Plain, IsBytes, Quote;
    QuoteDecodes(cfg.wsPath);
    PlainDecodes(host);
    PlainDecodes(Net(cfg));
    PlainDecodes("tls");
    PlainDecodes("");
  }

  /** What the parameters of a printed link read back as. */
  lemma QueryReads(cfg: LinkConfig, host: string, tls: bool)
    requires IsBytes(cfg.wsPath) && Plain(host)
    ensures var q := QueryOf(cfg, host, tls);
      && Get(q, "type") == Net(cfg) && Get(q, "security") == (if tls then "tls" else "")
      && Get(q, "path") == cfg.wsPath && Get(q, "host") == host && (tls ==> Get(q, "sni") == host)
  {
    hide FormDecode, Get, QueryOf, Quote, IsBytes, Plain, Net;
    ValuesDecode(cfg, host);
    GetOf(cfg, host, tls, Type);
    GetOf(cfg, host, tls, Security);
    GetOf(cfg, host, tls, Path);
    GetOf(cfg, host, tls, Host);
    GetOf(cfg, host, tls, Sni);
  }

  // ---- printing, then parsing

  function Label(tls: bool): (r: string)
  {
    if tls then "%20TLS" else "%20NO%20TLS"
  }

  function DecodedLabel(tls: bool): (r: string)
  {
    if tls then " TLS" else " NO TLS"
  }

  lemma SpaceDecodes(rest: string)
    ensures DecodeStrict("%20" + rest) ==
      if DecodeStrict(rest).Some? then Some(" " + DecodeStrict(rest).value) else None
  {
    var s := "%20" + rest;
    assert s[3..] == rest && s[0] == '%' && s[1] == '2' && s[2] == '0';
  }

  lemma TlsLabelDecodes()
    ensures DecodeStrict("%20TLS") == Some(" TLS")
  {
    DecodePlain("TLS");
    hide DecodeStrict;
    SpaceDecodes("TLS");
    assert "%20" + "TLS" == "%20TLS" && " " + "TLS" == " TLS";
  }

  lemma LabelDecodes(tls: bool)
    ensures DecodeStrict(Label(tls)) == Some(DecodedLabel(tls)) && '#' !in Label(tls)
  {
    hide DecodeStrict, Quote;
    TlsLabelDecodes();
    if !tls {
      QuoteFixes("NO");
      DecodeQuote("NO", "%20TLS");
      SpaceDecodes("NO" + "%20TLS");
      assert "%20" + ("NO" + "%20TLS") == "%20NO%20TLS" && " " + ("NO" + " TLS") == " NO TLS";
    }
  }

  lemma FragmentDecodes(remark: string, tls: bool)
    requires IsBytes(remark)
    ensures '#' !in Quote(remark) + Label(tls)
    ensures DecodeStrict(Quote(remark) + Label(tls)) == Some(remark + DecodedLabel(tls))
  {
    hide DecodeStrict, Quote, WellQuoted;
    QuoteWellQuoted(remark);
    DecodeQuote(remark, Label(tls));
    LabelDecodes(tls);
  }

  lemma EntryLinkParses(utf8: string -> bool, cfg: LinkConfig, uuid: string, host: string, entry: SniEntry, tls: bool)
    requires IsBytes(cfg.wsPath) && IsBytes(entry.remark) && '@' !in uuid
    ensures var remark, port := entry.remark + DecodedLabel(tls), if tls then "443" else "80";
      ParseVlessUrl(utf8, EntryLink(cfg, uuid, host, entry, tls)) ==
        if utf8(remark)
        then ParseMain(remark, uuid + ['@'] + (entry.sni + [':'] + port + ['?'] + QueryOf(cfg, host, tls)))
        else FAILED
  {
    var port := if tls then "443" else "80";
    FragmentDecodes(entry.remark, tls);
    TlsTextIsLink(uuid, entry.sni, Net(cfg), Quote(cfg.wsPath), host, Extras(cfg, true), Quote(entry.remark));
    PlainTextIsLink(uuid, entry.sni, Net(cfg), Quote(cfg.wsPath), host, Extras(cfg, false), Quote(entry.remark));
    assert '?' !in port;
    hide DecodeStrict, TlsQuery, PlainQuery, Quote, Link, ParseVlessUrl, ParseMain, TlsText, PlainText, Extras, Net;
    ParseLink(utf8, uuid, entry.sni, port, QueryOf(cfg, host, tls), Quote(entry.remark) + Label(tls),
      entry.remark + DecodedLabel(tls));
  }

  /** Everything printed is read back, for every path, remark and mode; the empty security of the
      plain link becomes "none".  Only a remark that is not well-formed text loses the whole link. */
  lemma LinkRoundTrip(utf8: string -> bool, cfg: LinkConfig, uuid: string, host: string, entry: SniEntry, tls: bool)
    requires IsBytes(cfg.wsPath) && IsBytes(entry.remark) && Plain(host)
    requires '@' !in uuid && ':' !in entry.sni && '?' !in entry.sni
    ensures var remark := entry.remark + DecodedLabel(tls);
      var node := ParseVlessUrl(utf8, EntryLink(cfg, uuid, host, entry, tls));
      if !utf8(remark) then node == FAILED
      else node == Node(remark, entry.sni, if tls then "443" else "80", if tls then "tls" else "none",
                        Net(cfg), if tls then host else node.sni, cfg.wsPath, host)
  {
    var remark, port := entry.remark + DecodedLabel(tls), if tls then "443" else "80";
    assert '?' !in port && ':' !in port && port != "" && Net(cfg) != "";
    hide DecodeStrict, Get, QueryOf, Quote, EntryLink, ParseVlessUrl, ParseMain, Net, Plain, IsBytes;
    EntryLinkParses(utf8, cfg, uuid, host, entry, tls);
    QueryReads(cfg, host, tls);
    ParseHostPort(remark, uuid, entry.sni, port, QueryOf(cfg, host, tls));
  }

  /** The address is read back exactly when it has no separator in it. */
  lemma AddressRecoveredIff(utf8: string -> bool, cfg: LinkConfig, uuid: string, host: string, entry: SniEntry,
      tls: bool)
    requires IsBytes(cfg.wsPath) && IsBytes(entry.remark) && '@' !in uuid
    requires utf8(entry.remark + DecodedLabel(tls))
    ensures ParseVlessUrl(utf8, EntryLink(cfg, uuid, host, entry, tls)).host == entry.sni <==>
      ':' !in entry.sni && '?' !in entry.sni
  {
    var remark, port := entry.remark + DecodedLabel(tls), if tls then "443" else "80";
    assert '?' !in port && ':' !in port && port != "";
    hide DecodeStrict, Get, QueryOf, Quote, EntryLink, ParseVlessUrl, ParseMain, IsBytes;
    EntryLinkParses(utf8, cfg, uuid, host, entry, tls);
    if ':' !in entry.sni && '?' !in entry.sni {
      ParseHostPort(remark, uuid, entry.sni, port, QueryOf(cfg, host, tls));
    } else {
      HostCut(remark, uuid, entry.sni, port, QueryOf(cfg, host, tls));
    }
  }

  lemma NoSniIn(key: string, value: string)
    requires IsKey(key) && |key| != 3 && '&' !in value
    ensures GetIn([Pair(key, value)], "sni") == ""
  {
    FieldOfPair(key, value);
  }

  /** The plain link has no SNI, unless the mode smuggles parameters in. */
  lemma PlainLinkHasNoSni(cfg: LinkConfig, host: string)
    requires IsBytes(cfg.wsPath) && Plain(host) && '&' !in cfg.xhttpMode
    ensures Get(QueryOf(cfg, host, false), "sni") == ""
  {
    var value := if cfg.transport != "xhttp" then "2048" else Or(cfg.xhttpMode, "auto");
    var key := if cfg.transport != "xhttp" then "ed" else "mode";
    var more := Extras(cfg, false)[1..];
    assert more == Pair(key, value);
    assert IsKey(key) && |key| != 3 && '&' !in value;
    OnePiece(key, value);
    NoSniIn(key, value);
    hide QueryOf, Get, GetIn, Split, Pair, IsKey, FormDecode, Extras;
    GetOf(cfg, host, false, Sni);
  }

  /** What comes after the ampersand of the extras. */
  function ExtraPieces(cfg: LinkConfig, tls: bool): (r: seq<string>)
  {
    var mode := Pair(Name(Mode), Or(cfg.xhttpMode, "auto"));
    if cfg.transport != "xhttp" then [Pair(Name(Ed), "2048")]
    else if tls then [Pair(Name(Alpn), "h2"), mode] else [mode]
  }

  lemma ExtrasAre(cfg: LinkConfig, tls: bool)
    requires '&' !in cfg.xhttpMode
    ensures Split(Extras(cfg, tls)[1..], '&') == ExtraPieces(cfg, tls)
  {
    NameIsKey(Mode);
    NameIsKey(Ed);
    var m := Or(cfg.xhttpMode, "auto");
    var more := Extras(cfg, tls)[1..];
    if cfg.transport != "xhttp" {
      assert more == Pair(Name(Ed), "2048");
      OnePiece(Name(Ed), "2048");
    } else if tls {
      assert more == Pair(Name(Alpn), "h2") + ['&'] + Pair(Name(Mode), m);
      AlpnFirst(Pair(Name(Mode), m));
      OnePiece(Name(Mode), m);
    } else {
      assert more == Pair(Name(Mode), m);
      OnePiece(Name(Mode), m);
    }
  }

  lemma AlpnFirst(rest: string)
    ensures Split(Pair(Name(Alpn), "h2") + ['&'] + rest, '&') == [Pair(Name(Alpn), "h2")] + Split(rest, '&')
  {
    assert '&' !in Pair(Name(Alpn), "h2");
    hide Split;
    SplitFirst(Pair(Name(Alpn), "h2"), '&', rest);
  }

  lemma ExtraValues(cfg: LinkConfig, tls: bool, p: Param)
    requires Plain(cfg.xhttpMode) && (p == Alpn || p == Mode || p == Ed)
    ensures GetIn(ExtraPieces(cfg, tls), Name(p)) ==
      if cfg.transport != "xhttp" then (if p == Ed then "2048" else "")
      else if p == Mode then Or(cfg.xhttpMode, "auto") else if p == Alpn && tls then "h2" else ""
  {
    assert Plain("2048") && Plain("h2") && Plain("auto");
    var pieces, m := ExtraPieces(cfg, tls), Or(cfg.xhttpMode, "auto");
    hide Name, Pair, FormDecode;
    PlainDecodes("2048");
    PlainDecodes("h2");
    PlainDecodes(m);
    assert GetIn([], Name(p)) == "";
    hide GetIn;
    if cfg.transport != "xhttp" {
      GetStepOther(Ed, "2048", pieces, p);
    } else if tls {
      GetStepOther(Alpn, "h2", pieces, p);
      GetStepOther(Mode, m, pieces[1..], p);
      assert pieces[1..][1..] == [];
    } else {
      GetStepOther(Mode, m, pieces, p);
    }
  }

  /** With xhttp a link carries its mode, "auto" by default, and over TLS the protocol h2; otherwise it asks for 2048
      bytes of early data. */
  lemma ExtrasRead(cfg: LinkConfig, host: string, tls: bool)
    requires IsBytes(cfg.wsPath) && Plain(host) && Plain(cfg.xhttpMode)
    ensures var q := QueryOf(cfg, host, tls);
      && Get(q, "ed") == (if cfg.transport == "xhttp" then "" else "2048")
      && Get(q, "mode") == (if cfg.transport != "xhttp" then "" else if cfg.xhttpMode == "" then "auto"
                            else cfg.xhttpMode)
      && Get(q, "alpn") == (if cfg.transport == "xhttp" && tls then "h2" else "")
  {
    hide Get, QueryOf, GetIn, Split, Extras, ExtraPieces, IsBytes;
    ExtrasAre(cfg, tls);
    assert '&' !in cfg.xhttpMode;
    hide Plain;
    GetOf(cfg, host, tls, Ed);
    GetOf(cfg, host, tls, Mode);
    GetOf(cfg, host, tls, Alpn);
    ExtraValues(cfg, tls, Ed);
    ExtraValues(cfg, tls, Mode);
    ExtraValues(cfg, tls, Alpn);
  }

  /** The host header of a printed link is the tunnel's host exactly as long as none is configured: the default
      counts as none.  Its transport is the configured one, with WebSocket for any name but xhttp. */
  lemma PrintedHost(utf8: string -> bool, cfg: LinkConfig, uuid: string, tunnelHost: string, entry: SniEntry,
                    tls: bool)
    requires IsBytes(cfg.wsPath) && IsBytes(entry.remark) && Plain(cfg.wsHost) && Plain(tunnelHost)
    requires '@' !in uuid && ':' !in entry.sni && '?' !in entry.sni && utf8(entry.remark + DecodedLabel(tls))
    ensures var node := ParseVlessUrl(utf8, EntryLink(cfg, uuid, HostInfo(cfg, tunnelHost), entry, tls));
      && (cfg.wsHost == "" || cfg.wsHost == "trycloudflare.com" ==> node.hostHeader == tunnelHost)
      && (cfg.wsHost != "" && cfg.wsHost != "trycloudflare.com" ==> node.hostHeader == cfg.wsHost)
      && (cfg.transport == "xhttp" ==> node.net == "xhttp") && (cfg.transport != "xhttp" ==> node.net == "ws")
  {
    hide ParseVlessUrl, EntryLink, IsBytes, Plain, DecodedLabel;
    LinkRoundTrip(utf8, cfg, uuid, HostInfo(cfg, tunnelHost), entry, tls);
  }
}
