/** The FAKE_SNI list: comma-separated entries, each with an optional "#remark". */
module SniList {
  import opened Text

  datatype SniEntry = SniEntry(sni: string, remark: string)

  datatype SniResult = Entries(list: seq<SniEntry>) | EmptyList | EmptySni(item: string) | NoEntries

  /** ASCII white space. */
  predicate Space(c: char)
  {
    c == ' ' || c == '\t' || c == '\n' || c == '\r' || c == '\U{000B}' || c == '\U{000C}'
  }

  function TrimLeft(s: string): (r: string)
    ensures r != "" ==> !Space(r[0])
    ensures forall c :: c in r ==> c in s
  {
    if s != "" && Space(s[0]) then TrimLeft(s[1..]) else s
  }

  function TrimRight(s: string): (r: string)
    ensures r <= s && (r != "" ==> !Space(r[|r| - 1]))
  {
    if s != "" && Space(s[|s| - 1]) then TrimRight(s[..|s| - 1]) else s
  }

  /** No white space at either end. */
  predicate Trimmed(s: string)
  {
    s != "" ==> !Space(s[0]) && !Space(s[|s| - 1])
  }

  function TrimSpace(s: string): (r: string)
    ensures Trimmed(r) && forall c :: c in r ==> c in s
    ensures Trimmed(s) ==> r == s
  {
    TrimRight(TrimLeft(s))
  }

  function Digits(n: nat): (r: string)
    ensures r != "" && forall c :: c in r ==> '0' <= c <= '9'
  {
    (if n < 10 then "" else Digits(n / 10)) + ["0123456789"[n % 10]]
  }

  function DefaultRemark(idx: nat): (r: string)
    ensures r != "" && ',' !in r
  {
    "Tunnel " + Digits(idx + 1)
  }

  /** The entry that a trimmed item at a position of the list stands for. */
  function EntryOf(item: string, idx: nat): (e: SniEntry)
  {
    var hash := IndexOf(item, '#');
    if hash.None? then SniEntry(item, DefaultRemark(idx))
    else
      var remark := TrimSpace(item[hash.value + 1..]);
      SniEntry(TrimSpace(item[..hash.value]), if remark == "" then DefaultRemark(idx) else remark)
  }

  function DecimalValue(s: string): (n: int)
  {
    if s == "" then 0 else 10 * DecimalValue(s[..|s| - 1]) + (s[|s| - 1] as int - '0' as int)
  }

  lemma DigitValue(d: nat)
    requires d < 10
    ensures "0123456789"[d] as int - '0' as int == d
  {
  }

  /** The digits of a number are its decimal digits. */
  lemma {:induction false} DigitsValue(n: nat)
    ensures DecimalValue(Digits(n)) == n
  {
    DigitValue(n % 10);
    var front := if n < 10 then "" else Digits(n / 10);
    var last := "0123456789"[n % 10];
    if n >= 10 {
      DigitsValue(n / 10);
    }
    assert (front + [last])[..|front|] == front;
    assert Digits(n) == front + [last];
  }

  /** Tunnel and a number, counted from one. */
  predicate Numbered(remark: string, idx: nat)
  {
    |remark| > 7 && remark[..7] == "Tunnel " && DecimalValue(remark[7..]) == idx + 1
  }

  lemma DefaultIsNumbered(idx: nat)
    ensures Numbered(DefaultRemark(idx), idx)
  {
    DigitsValue(idx + 1);
    var remark := DefaultRemark(idx);
    assert remark[7..] == Digits(idx + 1);
    assert remark[..7] == "Tunnel ";
    hide Digits, DecimalValue;
  }

  /** An item without a remark, or with a blank one, is called after its position in the list. */
  lemma UnnamedEntry(sni: string, blanks: string, idx: nat)
    requires '#' !in sni && Trimmed(sni) && forall c :: c in blanks ==> Space(c)
    ensures EntryOf(sni, idx).sni == sni && Numbered(EntryOf(sni, idx).remark, idx)
    ensures var e := EntryOf(sni + ['#'] + blanks, idx); e.sni == sni && Numbered(e.remark, idx)
  {
    hide DefaultRemark, Numbered, IndexOf, TrimSpace;
    DefaultIsNumbered(idx);
    FirstSeparator(sni, '#', blanks);
    TrimSplits(blanks);
    TrimSplits(sni);
  }

  lemma {:induction false} LeftSplits(s: string)
    ensures |TrimLeft(s)| <= |s| && s[|s| - |TrimLeft(s)|..] == TrimLeft(s)
    ensures forall i :: 0 <= i < |s| - |TrimLeft(s)| ==> Space(s[i])
  {
    if s != "" && Space(s[0]) {
      LeftSplits(s[1..]);
    }
  }

  lemma {:induction false} RightSplits(s: string)
    ensures |TrimRight(s)| <= |s| && forall i :: |TrimRight(s)| <= i < |s| ==> Space(s[i])
  {
    if s != "" && Space(s[|s| - 1]) {
      RightSplits(s[..|s| - 1]);
    }
  }

  /** Trimming takes off white space at both ends and nothing else. */
  lemma TrimSplits(s: string)
    ensures exists i, j :: 0 <= i <= j <= |s| && TrimSpace(s) == s[i..j]
              && (forall k :: 0 <= k < i || j <= k < |s| ==> Space(s[k]))
    ensures Trimmed(TrimSpace(s))
  {
    LeftSplits(s);
    RightSplits(TrimLeft(s));
    var i := |s| - |TrimLeft(s)|;
    var j := i + |TrimSpace(s)|;
    assert TrimSpace(s) == s[i..j];
    assert forall k :: j <= k < |s| ==> s[k] == TrimLeft(s)[k - i];
  }

  /** All entries of the parts from position `idx` on: blank parts are skipped but counted. */
  function Collect(parts: seq<string>, idx: nat): (r: SniResult)
    ensures r.Entries? || r.EmptySni?
  {
    if parts == [] then Entries([])
    else
      var item := TrimSpace(parts[0]);
      var rest := Collect(parts[1..], idx + 1);
      if item == "" then rest
      else if EntryOf(item, idx).sni == "" then EmptySni(item)
      else if rest.Entries? then Entries([EntryOf(item, idx)] + rest.list) else rest
  }

  function SniSpec(raw: string): (r: SniResult)
  {
    var t := TrimSpace(raw);
    if t == "" then EmptyList
    else
      var r := Collect(Split(t, ','), 0);
      if r == Entries([]) then NoEntries else r
  }

  method ParseSNIList(raw: string) returns (r: SniResult)
    ensures r == SniSpec(raw)
  {
    hide TrimSpace, Split, EntryOf;
    var trimmed := TrimSpace(raw);
    if trimmed == "" {
      return EmptyList;
    }
    var parts := Split(trimmed, ',');
    var out: seq<SniEntry> := [];
    for idx := 0 to |parts|
      invariant var rest := Collect(parts[idx..], idx);
        Collect(parts, 0) == if rest.Entries? then Entries(out + rest.list) else rest
    {
      var item := TrimSpace(parts[idx]);
      assert parts[idx..][1..] == parts[idx + 1..];
      if item == "" {
        continue;
      }
      var entry := EntryOf(item, idx);
      if entry.sni == "" {
        return EmptySni(item);
      }
      ghost var before, rest := out, Collect(parts[idx + 1..], idx + 1);
      out := out + [entry];
      assert rest.Entries? ==> before + ([entry] + rest.list) == out + rest.list;
    }
    if |out| == 0 {
      return NoEntries;
    }
    return Entries(out);
  }

  /** What the link printer may rely on. */
  predicate GoodEntry(e: SniEntry)
  {
    && e.sni != "" && Trimmed(e.sni) && ',' !in e.sni && '#' !in e.sni
    && e.remark != "" && Trimmed(e.remark) && ',' !in e.remark
  }

  lemma DefaultRemarkTrimmed(idx: nat)
    ensures Trimmed(DefaultRemark(idx))
  {
    var d := Digits(idx + 1);
    assert d[|d| - 1] in d;
  }

  lemma EntryIsGood(item: string, idx: nat)
    requires Trimmed(item) && ',' !in item && EntryOf(item, idx).sni != ""
    ensures GoodEntry(EntryOf(item, idx))
  {
    DefaultRemarkTrimmed(idx);
    var hash := IndexOf(item, '#');
    if hash.Some? {
      IndexOfFirst(item, '#');
      assert item == item[..hash.value] + item[hash.value..];
    }
  }

  lemma {:induction false} SplitPieces(s: string, c: char)
    ensures forall p :: p in Split(s, c) ==> c !in p
    decreases |s|
  {
    var i := IndexOf(s, c);
    if i.Some? {
      IndexOfFirst(s, c);
      SplitPieces(s[i.value + 1..], c);
    }
  }

  lemma {:induction false} CollectGood(parts: seq<string>, idx: nat)
    requires forall p :: p in parts ==> ',' !in p
    requires Collect(parts, idx).Entries?
    ensures forall e :: e in Collect(parts, idx).list ==> GoodEntry(e)
  {
    if parts != [] {
      CollectGood(parts[1..], idx + 1);
      var item := TrimSpace(parts[0]);
      if item != "" {
        EntryIsGood(item, idx);
      }
    }
  }

  /** Blank parts make no entry but count as positions. */
  lemma {:induction false} EntryAtPosition(parts: seq<string>, idx: nat, k: nat)
    requires Collect(parts, idx).Entries? && k < |parts| && TrimSpace(parts[k]) != ""
    ensures EntryOf(TrimSpace(parts[k]), idx + k) in Collect(parts, idx).list
  {
    hide TrimSpace, EntryOf;
    if k > 0 {
      EntryAtPosition(parts[1..], idx + 1, k - 1);
    }
  }

  /** Every accepted list has entries, and all of them are good. */
  lemma ListIsGood(raw: string)
    requires SniSpec(raw).Entries?
    ensures SniSpec(raw).list != []
    ensures forall e :: e in SniSpec(raw).list ==> GoodEntry(e)
  {
    var t := TrimSpace(raw);
    SplitPieces(t, ',');
    CollectGood(Split(t, ','), 0);
  }

  /** A list written out. */
  function Join(list: seq<SniEntry>): (r: string)
    requires list != []
  {
    var item := list[0].sni + ['#'] + list[0].remark;
    if |list| == 1 then item else item + [','] + Join(list[1..])
  }

  lemma ItemReads(e: SniEntry, idx: nat)
    requires GoodEntry(e)
    ensures var item := e.sni + ['#'] + e.remark;
      item != "" && Trimmed(item) && ',' !in item && TrimSpace(item) == item && EntryOf(item, idx) == e
  {
    FirstSeparator(e.sni, '#', e.remark);
  }

  lemma ItemTrimmed(e: SniEntry, b: string)
    requires GoodEntry(e) && b != "" && Trimmed(b)
    ensures var s := e.sni + ['#'] + e.remark + [','] + b; s != "" && Trimmed(s)
  {
  }

  lemma CollectFirst(e: SniEntry, rest: seq<string>, idx: nat)
    requires GoodEntry(e) && Collect(rest, idx + 1).Entries?
    ensures Collect([e.sni + ['#'] + e.remark] + rest, idx) == Entries([e] + Collect(rest, idx + 1).list)
  {
    var item := e.sni + ['#'] + e.remark;
    ItemReads(e, idx);
    assert e.sni != "";
    assert ([item] + rest)[1..] == rest;
    hide EntryOf, TrimSpace, GoodEntry;
  }

  predicate AllGood(list: seq<SniEntry>)
  {
    forall e :: e in list ==> GoodEntry(e)
  }

  lemma JoinUnfolds(list: seq<SniEntry>)
    requires |list| > 1 && GoodEntry(list[0])
    ensures Join(list) == list[0].sni + ['#'] + list[0].remark + [','] + Join(list[1..])
    ensures Split(Join(list), ',') == [list[0].sni + ['#'] + list[0].remark] + Split(Join(list[1..]), ',')
  {
    ItemReads(list[0], 0);
    hide Split;
    SplitFirst(list[0].sni + ['#'] + list[0].remark, ',', Join(list[1..]));
  }

  lemma JoinOne(e: SniEntry, idx: nat)
    requires GoodEntry(e)
    ensures Join([e]) != "" && Trimmed(Join([e])) && Collect(Split(Join([e]), ','), idx) == Entries([e])
  {
    var item := e.sni + ['#'] + e.remark;
    ItemReads(e, idx);
    assert Join([e]) == item && Split(item, ',') == [item];
    hide EntryOf, GoodEntry, TrimSpace, Split, Join, Trimmed;
    assert Collect([], idx + 1) == Entries([]);
    CollectFirst(e, [], idx);
    assert [item] + [] == [item] && [e] + [] == [e];
  }

  lemma {:induction false} JoinReads(list: seq<SniEntry>, idx: nat)
    requires list != [] && AllGood(list)
    ensures Join(list) != "" && Trimmed(Join(list))
    ensures Collect(Split(Join(list), ','), idx) == Entries(list)
  {
    assert GoodEntry(list[0]);
    if |list| == 1 {
      JoinOne(list[0], idx);
      assert list == [list[0]];
    } else {
      assert AllGood(list[1..]);
      JoinReads(list[1..], idx + 1);
      JoinStep(list, idx);
    }
  }

  lemma JoinStep(list: seq<SniEntry>, idx: nat)
    requires |list| > 1 && GoodEntry(list[0])
    requires Join(list[1..]) != "" && Trimmed(Join(list[1..]))
    requires Collect(Split(Join(list[1..]), ','), idx + 1) == Entries(list[1..])
    ensures Join(list) != "" && Trimmed(Join(list))
    ensures Collect(Split(Join(list), ','), idx) == Entries(list)
  {
    hide GoodEntry, TrimSpace, Split, Join, Collect, Trimmed;
    JoinUnfolds(list);
    ItemTrimmed(list[0], Join(list[1..]));
    CollectFirst(list[0], Split(Join(list[1..]), ','), idx);
    assert list == [list[0]] + list[1..];
  }

  /** Writing a list of good entries out and parsing it gives the list back. */
  lemma ListRoundTrip(list: seq<SniEntry>)
    requires list != [] && AllGood(list)
    ensures SniSpec(Join(list)) == Entries(list)
  {
    JoinReads(list, 0);
  }
}
