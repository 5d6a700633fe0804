/** The three pieces of Go string handling that scoring relies on, written
    over bytes: counting the matches of the pattern `[a-zA-Z0-9]`,
    `strings.TrimSpace` and `strings.Split` with a one-character separator.
    A `char` stands for one byte of the Go string, so `|s|` is Go's `len(s)`. */
module Strings {

  /** One match of the regular expression `[a-zA-Z0-9]`. */
  predicate IsAsciiAlnum(c: char) {
    'a' <= c <= 'z' || 'A' <= c <= 'Z' || '0' <= c <= '9'
  }

  /** The number of matches `FindAllString(s, -1)` returns for `[a-zA-Z0-9]`:
      every match is one character long and matches never overlap. */
  function AlnumCount(s: string): (n: nat)
    ensures n <= |s|
    ensures n == |s| <==> forall i | 0 <= i < |s| :: IsAsciiAlnum(s[i])
  {
    if s == [] then 0
    else
      var init := s[..|s| - 1];
      assert forall i | 0 <= i < |init| :: init[i] == s[i];
      AlnumCount(init) + (if IsAsciiAlnum(s[|s| - 1]) then 1 else 0)
  }

  /** The positions of `s` the pattern matches: the reference definition
      of the count. */
  ghost function AlnumPositions(s: string): set<int> {
    set i | 0 <= i < |s| && IsAsciiAlnum(s[i])
  }

  lemma {:induction false} AlnumCountIsMatchCount(s: string)
    ensures AlnumCount(s) == |AlnumPositions(s)|
  {
    if s != [] {
      var init := s[..|s| - 1];
      AlnumCountIsMatchCount(init);
      var last := |s| - 1;
      if IsAsciiAlnum(s[last]) {
        assert AlnumPositions(s) == AlnumPositions(init) + {last};
        assert last !in AlnumPositions(init);
      } else {
        assert AlnumPositions(s) == AlnumPositions(init);
      }
    }
  }

  /** Counting matches is additive over concatenation. */
  lemma {:induction false} AlnumCountAppend(a: string, b: string)
    ensures AlnumCount(a + b) == AlnumCount(a) + AlnumCount(b)
  {
    if b != [] {
      var init := b[..|b| - 1];
      assert (a + b)[..|a + b| - 1] == a + init;
      AlnumCountAppend(a, init);
    } else {
      assert a + b == a;
    }
  }

  /** Go's ASCII white space: tab, newline, vertical tab, form feed,
      carriage return and space. */
  predicate IsAsciiSpace(c: char) {
    c == ' ' || '\t' <= c <= '\r'
  }

  predicate AllSpace(s: string) {
    forall i | 0 <= i < |s| :: IsAsciiSpace(s[i])
  }

  function LeadingSpaces(s: string): (n: nat)
    ensures n <= |s| && AllSpace(s[..n])
    ensures n < |s| ==> !IsAsciiSpace(s[n])
  {
    if s == [] || !IsAsciiSpace(s[0]) then 0
    else
      var n := 1 + LeadingSpaces(s[1..]);
      assert forall i | 1 <= i < n :: s[i] == s[1..][i - 1];
      n
  }

  function TrailingSpaces(s: string): (n: nat)
    ensures n <= |s| && AllSpace(s[|s| - n..])
    ensures n < |s| ==> !IsAsciiSpace(s[|s| - n - 1])
  {
    if s == [] || !IsAsciiSpace(s[|s| - 1]) then 0
    else
      var init := s[..|s| - 1];
      var n := 1 + TrailingSpaces(init);
      assert forall i | |s| - n <= i < |s| - 1 :: s[i] == init[i];
      n
  }

  /** `strings.TrimSpace` on ASCII white space: what is left of `s` after
      dropping its leading and trailing white space (see `TrimSpaceTrims`). */
  function TrimSpace(s: string): (t: string)
    ensures |t| <= |s|
  {
    var i := LeadingSpaces(s);
    var rest := s[i..];
    rest[..|rest| - TrailingSpaces(rest)]
  }

  /** The trimmed text is a slice of `s` with only white space around it;
      it neither starts nor ends with white space, and it is empty exactly
      when `s` is all white space. */
  lemma TrimSpaceTrims(s: string)
    ensures var t := TrimSpace(s);
      && (t == [] <==> AllSpace(s))
      && (t != [] ==> !IsAsciiSpace(t[0]) && !IsAsciiSpace(t[|t| - 1]))
      && exists i | 0 <= i <= |s| - |t| :: s[i..i + |t|] == t && AllSpace(s[..i]) && AllSpace(s[i + |t|..])
  {
    TrimSpaceSlice(s);
    TrimSpaceEdges(s);
    TrimSpaceEmpty(s);
  }

  lemma TrimSpaceSlice(s: string)
    ensures var i := LeadingSpaces(s); var t := TrimSpace(s);
      && i + |t| <= |s| && s[i..i + |t|] == t && AllSpace(s[..i]) && AllSpace(s[i + |t|..])
  {
    var i := LeadingSpaces(s);
    var rest := s[i..];
    var k := TrailingSpaces(rest);
    var m := |rest| - k;
    SliceOfSuffix(s, i, m);
    assert rest[m..] == s[i + m..];
  }

  /** Taking the first `m` elements of `s[i..]` is the slice `s[i..i + m]`. */
  lemma SliceOfSuffix(s: string, i: nat, m: nat)
    requires i + m <= |s|
    ensures s[i..][..m] == s[i..i + m]
  {
  }

  lemma TrimSpaceEdges(s: string)
    ensures var t := TrimSpace(s);
      t != [] ==> !IsAsciiSpace(t[0]) && !IsAsciiSpace(t[|t| - 1])
  {
    var i := LeadingSpaces(s);
    var rest := s[i..];
    var k := TrailingSpaces(rest);
    var t := rest[..|rest| - k];
    if t != [] {
      assert t[0] == s[i];
      assert t[|t| - 1] == rest[|rest| - k - 1];
    }
  }

  lemma TrimSpaceEmpty(s: string)
    ensures TrimSpace(s) == [] <==> AllSpace(s)
  {
    var i := LeadingSpaces(s);
    var rest := s[i..];
    var k := TrailingSpaces(rest);
    if TrimSpace(s) == [] {
      assert k == |rest| && rest[|rest| - k..] == rest;
      assert s == s[..i] + rest;
      AllSpaceAppend(s[..i], rest);
    }
    if AllSpace(s) {
      assert i == |s|;
      assert rest == [];
    }
  }

  lemma AllSpaceAppend(a: string, b: string)
    requires AllSpace(a) && AllSpace(b)
    ensures AllSpace(a + b)
  {
    assert forall j | 0 <= j < |a + b| :: (a + b)[j] == if j < |a| then a[j] else b[j - |a|];
  }

  /** Text that neither starts nor ends with a space is already trimmed. */
  lemma TrimSpaceUnchanged(s: string)
    requires s != [] ==> !IsAsciiSpace(s[0]) && !IsAsciiSpace(s[|s| - 1])
    ensures TrimSpace(s) == s
  {
    assert LeadingSpaces(s) == 0;
    assert TrailingSpaces(s) == 0;
    assert s[0..][..|s| - 0] == s;
  }

  lemma TrimSpaceIdempotent(s: string)
    ensures TrimSpace(TrimSpace(s)) == TrimSpace(s)
  {
    var t := TrimSpace(s);
    TrimSpaceTrims(s);
    assert LeadingSpaces(t) == 0;
    assert TrailingSpaces(t) == 0;
    assert t[0..][..|t| - 0] == t;
  }

  /** The pieces `strings.Join` glues back together with `sep` between them. */
  function Join(parts: seq<string>, sep: char): (s: string)
    requires |parts| >= 1
    ensures |parts| == 1 ==> s == parts[0]
  {
    if |parts| == 1 then parts[0] else parts[0] + [sep] + Join(parts[1..], sep)
  }

  /** The position of the first `c` in `s`, as `strings.IndexByte` finds it. */
  function IndexOf(s: string, c: char): (i: nat)
    requires c in s
    ensures i < |s| && s[i] == c && c !in s[..i]
  {
    if s[0] == c then 0
    else
      assert c in s[1..] by { assert s == [s[0]] + s[1..]; }
      var i := 1 + IndexOf(s[1..], c);
      assert s[..i] == [s[0]] + s[1..][..i - 1];
      i
  }

  /** `strings.Split(s, string(sep))`: like the library, it cuts at the
      first separator and goes on with what follows (see `SplitSpec`). */
  function Split(s: string, sep: char): (parts: seq<string>)
    ensures |parts| >= 1
    decreases |s|
  {
    if sep !in s then [s]
    else
      var i := IndexOf(s, sep);
      [s[..i]] + Split(s[i + 1..], sep)
  }

  /** One more piece than there are separators in `s` (so `[""]` for the
      empty string), no piece holds a separator, and joining the pieces
      gives `s` back. */
  lemma {:induction false} SplitSpec(s: string, sep: char)
    ensures var parts := Split(s, sep);
      && |parts| == multiset(s)[sep] + 1
      && (forall i | 0 <= i < |parts| :: sep !in parts[i])
      && Join(parts, sep) == s
    decreases |s|
  {
    if sep !in s {
      assert multiset(s)[sep] == 0;
    } else {
      var i := IndexOf(s, sep);
      var head := s[..i];
      var rest := Split(s[i + 1..], sep);
      SplitSpec(s[i + 1..], sep);
      assert Split(s, sep) == [head] + rest;
      assert s == head + [sep] + s[i + 1..];
      assert multiset(s) == multiset(head) + multiset{sep} + multiset(s[i + 1..]);
      assert multiset(head)[sep] == 0;
      assert ([head] + rest)[1..] == rest;
    }
  }

  /** A piece without separators splits into itself. */
  lemma SplitPiece(a: string, sep: char)
    requires sep !in a
    ensures Split(a, sep) == [a]
  {
  }

  /** A piece followed by a separator splits off as the first piece. */
  lemma SplitAfterPiece(a: string, sep: char, t: string)
    requires sep !in a
    ensures Split(a + [sep] + t, sep) == [a] + Split(t, sep)
  {
    var s := a + [sep] + t;
    assert s[|a|] == sep;
    var i := IndexOf(s, sep);
    assert i == |a|;
    assert s[..i] == a;
    assert s[i + 1..] == t;
  }

  /** Splitting undoes joining, whenever no piece holds the separator. */
  lemma {:induction false} SplitJoin(parts: seq<string>, sep: char)
    requires |parts| >= 1
    requires forall i | 0 <= i < |parts| :: sep !in parts[i]
    ensures Split(Join(parts, sep), sep) == parts
  {
    if |parts| == 1 {
      SplitPiece(parts[0], sep);
    } else {
      SplitJoin(parts[1..], sep);
      SplitAfterPiece(parts[0], sep, Join(parts[1..], sep));
      assert [parts[0]] + parts[1..] == parts;
    }
  }
}
