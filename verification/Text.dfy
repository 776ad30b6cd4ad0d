/** Searching and splitting text. */
module Text {
  import opened Results

  predicate StartsWith(s: string, p: string)
  {
    |p| <= |s| && s[..|p|] == p
  }

  predicate HasSuffix(s: string, suffix: string)
  {
    |suffix| <= |s| && s[|s| - |suffix|..] == suffix
  }

  /** What the two tests mean. */
  lemma PrefixAndSuffix(s: string, p: string)
    ensures StartsWith(s, p) <==> exists rest :: s == p + rest
    ensures HasSuffix(s, p) <==> exists front :: s == front + p
  {
    if StartsWith(s, p) {
      assert s == p + s[|p|..];
    }
    if HasSuffix(s, p) {
      assert s == s[..|s| - |p|] + p;
    }
    forall rest | s == p + rest
      ensures StartsWith(s, p)
    {
      assert (p + rest)[..|p|] == p;
    }
    forall front | s == front + p
      ensures HasSuffix(s, p)
    {
      assert (front + p)[|front|..] == p;
    }
  }

  function IndexOf(s: string, c: char): (r: Option<nat>)
    ensures r.None? <==> c !in s
    ensures r.Some? ==> r.value < |s| && s[r.value] == c
  {
    if s == "" then None
    else if s[0] == c then Some(0)
    else
      var r := IndexOf(s[1..], c);
      if r.None? then None else Some(r.value + 1)
  }

  /** It is the first. */
  lemma {:induction false} IndexOfFirst(s: string, c: char)
    requires c in s
    ensures c !in s[..IndexOf(s, c).value]
  {
    if s[0] != c {
      IndexOfFirst(s[1..], c);
      var i := IndexOf(s[1..], c).value;
      assert s[..i + 1] == [s[0]] + s[1..][..i];
    }
  }

  function LastIndexOf(s: string, c: char): (r: Option<nat>)
    ensures r.None? <==> c !in s
    ensures r.Some? ==> r.value < |s| && s[r.value] == c && c !in s[r.value + 1..]
  {
    if s == "" then None
    else if s[|s| - 1] == c then Some(|s| - 1)
    else
      var r := LastIndexOf(s[..|s| - 1], c);
      if r.None? then None else
        assert s[r.value + 1..] == s[..|s| - 1][r.value + 1..] + [s[|s| - 1]];
        r
  }

  lemma {:induction false} IndexOfBy(s: string, c: char, i: nat)
    requires i < |s| && s[i] == c
    ensures IndexOf(s, c).Some? && IndexOf(s, c).value <= i
  {
    if s[0] != c {
      IndexOfBy(s[1..], c, i - 1);
    }
  }

  lemma {:induction false} IndexOfSkip(a: string, b: string, c: char)
    requires c !in a
    ensures IndexOf(a + b, c) == if IndexOf(b, c).Some? then Some(|a| + IndexOf(b, c).value) else None
  {
    if a == "" {
      assert a + b == b;
    } else {
      IndexOfSkip(a[1..], b, c);
      assert (a + b)[1..] == a[1..] + b && (a + b)[0] == a[0];
      IndexOfNext(a + b, c);
      hide IndexOf;
    }
  }

  lemma IndexOfNext(s: string, c: char)
    requires s != "" && s[0] != c
    ensures IndexOf(s, c) == if IndexOf(s[1..], c).None? then None else Some(IndexOf(s[1..], c).value + 1)
  {
  }

  lemma {:induction false} LastIndexOfSkip(a: string, b: string, c: char)
    requires c !in b
    ensures LastIndexOf(a + b, c) == LastIndexOf(a, c)
  {
    if b == "" {
      assert a + b == a;
    } else {
      assert (a + b)[..|a + b| - 1] == a + b[..|b| - 1];
      LastIndexOfSkip(a, b[..|b| - 1], c);
    }
  }

  /** The first separator is the one that ends a piece without any. */
  lemma FirstSeparator(a: string, c: char, b: string)
    requires c !in a
    ensures IndexOf(a + [c] + b, c) == Some(|a|)
    ensures (a + [c] + b)[..|a|] == a && (a + [c] + b)[|a| + 1..] == b
  {
    assert a + [c] + b == a + ([c] + b);
    assert IndexOf([c] + b, c) == Some(0);
    hide IndexOf;
    IndexOfSkip(a, [c] + b, c);
    SeparatorParts(a, c, b);
  }

  lemma LastIndexOfSnoc(a: string, c: char)
    ensures LastIndexOf(a + [c], c) == Some(|a|)
  {
    var s := a + [c];
    assert s[|s| - 1] == c;
  }

  lemma SeparatorParts(a: string, c: char, b: string)
    ensures (a + [c] + b)[..|a|] == a && (a + [c] + b)[|a| + 1..] == b
  {
  }

  lemma LastSeparator(a: string, c: char, b: string)
    requires c !in b
    ensures LastIndexOf(a + [c] + b, c) == Some(|a|)
    ensures (a + [c] + b)[..|a|] == a && (a + [c] + b)[|a| + 1..] == b
  {
    hide LastIndexOf;
    LastIndexOfSnoc(a, c);
    LastIndexOfSkip(a + [c], b, c);
    SeparatorParts(a, c, b);
  }

  function Split(s: string, c: char): (r: seq<string>)
    ensures r != [] && |r[0]| <= |s|
    ensures c !in s ==> r == [s]
    decreases |s|
  {
    var i := IndexOf(s, c);
    if i.None? then [s] else [s[..i.value]] + Split(s[i.value + 1..], c)
  }

  lemma SplitFirst(a: string, c: char, b: string)
    requires c !in a
    ensures Split(a + [c] + b, c) == [a] + Split(b, c)
  {
    FirstSeparator(a, c, b);
  }

  /** Splitting a joined text splits its halves. */
  lemma {:induction false} SplitConcat(a: string, c: char, b: string)
    ensures Split(a + [c] + b, c) == Split(a, c) + Split(b, c)
    decreases |a|
  {
    hide Split;
    var i := IndexOf(a, c);
    if i.None? {
      SplitFirst(a, c, b);
    } else {
      IndexOfFirst(a, c);
      var head, back := a[..i.value], a[i.value + 1..];
      hide IndexOf;
      assert a == head + [c] + back;
      SplitFirst(head, c, back);
      assert a + [c] + b == head + [c] + (back + [c] + b);
      SplitFirst(head, c, back + [c] + b);
      SplitConcat(back, c, b);
    }
  }

  lemma Assoc(a: string, b: string, c: string)
    ensures (a + b) + c == a + (b + c)
  {
  }
}
