/** The parts of Go's `strings` package that the handlers and entities use, on code points. */
module GoStrings {

  /** `unicode.IsSpace`. */
  predicate IsSpace(c: char) {
    || '\t' <= c <= '\r' || c == ' ' || c == '\U{85}' || c == '\U{A0}' || c == '\U{1680}'
    || '\U{2000}' <= c <= '\U{200A}' || c == '\U{2028}' || c == '\U{2029}' || c == '\U{202F}'
    || c == '\U{205F}' || c == '\U{3000}'
  }

  ghost predicate AllSpace(s: string) {
    forall i :: 0 <= i < |s| ==> IsSpace(s[i])
  }

  function TrimLeft(s: string): string {
    if s != "" && IsSpace(s[0]) then TrimLeft(s[1..]) else s
  }

  function TrimRight(s: string): string {
    if s != "" && IsSpace(s[|s| - 1]) then TrimRight(s[..|s| - 1]) else s
  }

  function TrimSpace(s: string): string {
    TrimRight(TrimLeft(s))
  }

  lemma {:induction false} TrimLeftParts(s: string) returns (left: string)
    ensures s == left + TrimLeft(s) && AllSpace(left)
    ensures TrimLeft(s) != "" ==> !IsSpace(TrimLeft(s)[0])
  {
    left := "";
    if s != "" && IsSpace(s[0]) {
      var rest := TrimLeftParts(s[1..]);
      left := [s[0]] + rest;
    }
  }

  lemma {:induction false} TrimRightParts(s: string) returns (right: string)
    ensures s == TrimRight(s) + right && AllSpace(right)
    ensures TrimRight(s) != "" ==> !IsSpace(TrimRight(s)[|TrimRight(s)| - 1])
  {
    right := "";
    if s != "" && IsSpace(s[|s| - 1]) {
      var rest := TrimRightParts(s[..|s| - 1]);
      right := rest + [s[|s| - 1]];
      assert s == s[..|s| - 1] + [s[|s| - 1]];
    }
  }

  /** The characters with the Unicode property White_Space, one by one. */
  lemma SpacesAre(c: char)
    ensures IsSpace(c) <==> c as int in {0x9, 0xA, 0xB, 0xC, 0xD, 0x20, 0x85, 0xA0, 0x1680, 0x2000, 0x2001, 0x2002,
                                         0x2003, 0x2004, 0x2005, 0x2006, 0x2007, 0x2008, 0x2009, 0x200A, 0x2028,
                                         0x2029, 0x202F, 0x205F, 0x3000}
  {
  }

  /** `bare` is `s` without the space around it. */
  ghost predicate IsBare(s: string, bare: string) {
    && (bare != "" ==> !IsSpace(bare[0]) && !IsSpace(bare[|bare| - 1]))
    && exists left, right :: s == left + bare + right && AllSpace(left) && AllSpace(right)
  }

  /** What comes before a text that does not start with space contains every leading space. */
  lemma StartsNoLater(s: string, left: string, rest: string, left': string, rest': string)
    requires s == left + rest == left' + rest'
    requires AllSpace(left) && rest' != "" && !IsSpace(rest'[0])
    ensures |left| <= |left'|
  {
    assert !IsSpace(s[|left'|]);
    assert forall i :: 0 <= i < |left| ==> s[i] == left[i];
  }

  lemma EndsNoEarlier(s: string, rest: string, right: string, rest': string, right': string)
    requires s == rest + right == rest' + right'
    requires AllSpace(right) && rest' != "" && !IsSpace(rest'[|rest'| - 1])
    ensures |right| <= |right'|
  {
    assert !IsSpace(s[|rest'| - 1]);
    assert forall i :: 0 <= i < |right| ==> s[|rest| + i] == right[i];
  }

  lemma BlankIsBare(s: string, bare: string)
    requires IsBare(s, bare)
    ensures bare == "" <==> AllSpace(s)
  {
    var left, right :| s == left + bare + right && AllSpace(left) && AllSpace(right);
    if bare != "" {
      assert s[|left|] == bare[0];
    }
  }

  /** Nothing else than trimming leaves a text without the space around it. */
  lemma TrimSpaceIff(s: string, bare: string)
    ensures IsBare(s, bare) <==> bare == TrimSpace(s)
  {
    var left := TrimLeftParts(s);
    var right := TrimRightParts(TrimLeft(s));
    var trimmed := TrimSpace(s);
    assert s == left + trimmed + right;
    if trimmed != "" {
      assert trimmed[0] == TrimLeft(s)[0];
    }
    assert IsBare(s, trimmed);
    if IsBare(s, bare) {
      BlankIsBare(s, bare);
      BlankIsBare(s, trimmed);
      if bare != "" {
        OneBare(s, bare, trimmed);
      }
    }
  }

  lemma OneBare(s: string, bare: string, bare': string)
    requires IsBare(s, bare) && IsBare(s, bare') && bare != "" && bare' != ""
    ensures bare == bare'
  {
    var left, right :| s == left + bare + right && AllSpace(left) && AllSpace(right);
    var left', right' :| s == left' + bare' + right' && AllSpace(left') && AllSpace(right');
    BareNoLonger(s, left, bare, right, left', bare', right');
    BareNoLonger(s, left', bare', right', left, bare, right);
    assert bare == s[|left|..|left| + |bare|];
    assert bare' == s[|left'|..|left'| + |bare'|];
  }

  lemma BareNoLonger(s: string, left: string, bare: string, right: string, left': string, bare': string, right': string)
    requires s == left + bare + right == left' + bare' + right' && bare' != ""
    requires AllSpace(left) && AllSpace(right) && !IsSpace(bare'[0]) && !IsSpace(bare'[|bare'| - 1])
    ensures |left| <= |left'| && |right| <= |right'|
  {
    assert s == left + (bare + right) && s == left' + (bare' + right');
    StartsNoLater(s, left, bare + right, left', bare' + right');
    EndsNoEarlier(s, left + bare, right, left' + bare', right');
  }

  /** Trimming leaves nothing exactly when there is nothing but space. */
  lemma TrimSpaceBlank(s: string)
    ensures TrimSpace(s) == "" <==> AllSpace(s)
  {
    var left := TrimLeftParts(s);
    var right := TrimRightParts(TrimLeft(s));
    assert s == left + (TrimSpace(s) + right);
    if TrimSpace(s) == "" {
      assert TrimSpace(s) + right == right;
    } else {
      var k := |left| + |TrimSpace(s)| - 1;
      assert s[k] == TrimSpace(s)[|TrimSpace(s)| - 1];
      assert !IsSpace(s[k]);
    }
  }

  /** `strings.Split(s, sep)` for a separator of one character. */
  function Split(s: string, sep: char): (parts: seq<string>)
    ensures |parts| > 0
  {
    if s == "" then [""]
    else
      var rest := Split(s[1..], sep);
      if s[0] == sep then [""] + rest else [[s[0]] + rest[0]] + rest[1..]
  }

  function Join(parts: seq<string>, sep: char): string {
    if parts == [] then "" else if |parts| == 1 then parts[0] else parts[0] + [sep] + Join(parts[1..], sep)
  }

  lemma {:induction false} SplitHasNoSeparator(s: string, sep: char)
    ensures forall i :: 0 <= i < |Split(s, sep)| ==> sep !in Split(s, sep)[i]
  {
    if s != "" {
      SplitHasNoSeparator(s[1..], sep);
    }
  }

  /** Splitting loses nothing and leaves no separator: it is the one inverse of joining. */
  lemma {:induction false} SplitInvertsJoin(s: string, sep: char)
    ensures Join(Split(s, sep), sep) == s
    ensures forall i :: 0 <= i < |Split(s, sep)| ==> sep !in Split(s, sep)[i]
  {
    SplitHasNoSeparator(s, sep);
    if s != "" {
      SplitInvertsJoin(s[1..], sep);
      SplitStep(s, s[0], s[1..], sep);
      JoinPrefixed(s[0], Split(s[1..], sep), sep);
      assert [s[0]] + s[1..] == s;
    }
  }

  lemma JoinPrefixed(c: char, parts: seq<string>, sep: char)
    requires parts != []
    ensures Join(Prefixed(c, parts, sep), sep) == [c] + Join(parts, sep)
  {
    if c == sep {
      assert ([""] + parts)[1..] == parts;
    } else {
      var longer := [[c] + parts[0]] + parts[1..];
      assert longer[1..] == parts[1..];
      if |parts| > 1 {
        assert ([c] + parts[0]) + [sep] + Join(parts[1..], sep) == [c] + (parts[0] + [sep] + Join(parts[1..], sep));
      }
    }
  }

  /** A separator between two texts splits them apart. */
  lemma {:induction false} SplitConcat(a: string, b: string, sep: char)
    ensures Split(a + [sep] + b, sep) == Split(a, sep) + Split(b, sep)
  {
    var s := a + [sep] + b;
    if a == "" {
      assert s[1..] == b;
    } else {
      SplitConcat(a[1..], b, sep);
      SplitStep(s, a[0], a[1..] + [sep] + b, sep);
      SplitStep(a, a[0], a[1..], sep);
      PrefixedConcat(a[0], Split(a[1..], sep), Split(b, sep), sep);
    }
  }

  function Prefixed(c: char, parts: seq<string>, sep: char): seq<string>
    requires parts != []
  {
    if c == sep then [""] + parts else [[c] + parts[0]] + parts[1..]
  }

  lemma SplitStep(s: string, c: char, rest: string, sep: char)
    requires s == [c] + rest
    ensures Split(s, sep) == Prefixed(c, Split(rest, sep), sep)
  {
    assert s[1..] == rest;
  }

  lemma PrefixedConcat(c: char, left: seq<string>, right: seq<string>, sep: char)
    requires left != []
    ensures Prefixed(c, left + right, sep) == Prefixed(c, left, sep) + right
  {
  }
}
