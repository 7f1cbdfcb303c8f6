/** The string handling of the keyword column: Python's whitespace class,
    `str.strip()`, and `str.split(r",\s*")` on a keyword cell. */
module Text {
  import opened Seqs

  /** The characters Python's `str.isspace()` accepts: the ASCII controls
      TAB to CR, the separators U+001C to U+001F, the space, NEL, NBSP and
      the Unicode space separators. The regular-expression class `\s` on
      `str` patterns and `str.strip()` use the same set. */
  predicate IsSpace(c: char) {
    || ('\t' <= c <= '\r')
    || ('\U{1C}' <= c <= ' ')
    || c == '\U{85}' || c == '\U{A0}' || c == '\U{1680}'
    || ('\U{2000}' <= c <= '\U{200A}')
    || c == '\U{2028}' || c == '\U{2029}' || c == '\U{202F}' || c == '\U{205F}' || c == '\U{3000}'
  }

  predicate AllSpace(s: string) {
    forall k :: 0 <= k < |s| ==> IsSpace(s[k])
  }

  /** Neither end of `s` is whitespace. */
  predicate IsTrimmed(s: string) {
    s == [] || (!IsSpace(s[0]) && !IsSpace(s[|s| - 1]))
  }

  /** `str.lstrip()`: drops the whitespace at the front of `s`. */
  function TrimLeft(s: string): (r: string)
    ensures |r| <= |s|
    decreases |s|
  {
    if s != [] && IsSpace(s[0]) then TrimLeft(s[1..]) else s
  }

  /** What `lstrip()` promises: the result is the longest suffix of `s`
      that does not start with whitespace. */
  lemma {:induction false} TrimLeftSpec(s: string)
    ensures var r := TrimLeft(s);
            && r == s[|s| - |r|..]
            && AllSpace(s[..|s| - |r|])
            && (r == [] || !IsSpace(r[0]))
    decreases |s|
  {
    if s != [] && IsSpace(s[0]) {
      TrimLeftSpec(s[1..]);
      var r := TrimLeft(s[1..]);
      assert s[1..][|s[1..]| - |r|..] == s[|s| - |r|..];
      SpacePrefix(s, |s| - |r|);
    }
  }

  /** A whitespace character followed by whitespace is whitespace. */
  lemma SpacePrefix(s: string, n: nat)
    requires 1 <= n <= |s| && IsSpace(s[0]) && AllSpace(s[1..][..n - 1])
    ensures AllSpace(s[..n])
  {
    forall k | 0 <= k < n ensures IsSpace(s[..n][k]) {
      if k > 0 {
        assert s[..n][k] == s[1..][..n - 1][k - 1];
      }
    }
  }

  /** `str.rstrip()`: drops the whitespace at the end of `s`. */
  function TrimRight(s: string): (r: string)
    ensures |r| <= |s|
    decreases |s|
  {
    if s != [] && IsSpace(s[|s| - 1]) then TrimRight(s[..|s| - 1]) else s
  }

  /** What `rstrip()` promises: the result is the longest prefix of `s`
      that does not end with whitespace. */
  lemma {:induction false} TrimRightSpec(s: string)
    ensures var r := TrimRight(s);
            && r == s[..|r|]
            && AllSpace(s[|r|..])
            && (r == [] || !IsSpace(r[|r| - 1]))
    decreases |s|
  {
    if s != [] && IsSpace(s[|s| - 1]) {
      TrimRightSpec(s[..|s| - 1]);
      var r := TrimRight(s[..|s| - 1]);
      assert s[..|s| - 1][..|r|] == s[..|r|];
      SpaceSuffix(s, |r|);
    }
  }

  /** Whitespace followed by a final whitespace character is whitespace. */
  lemma SpaceSuffix(s: string, n: nat)
    requires n < |s| && IsSpace(s[|s| - 1]) && AllSpace(s[..|s| - 1][n..])
    ensures AllSpace(s[n..])
  {
    forall k | 0 <= k < |s| - n ensures IsSpace(s[n..][k]) {
      if k < |s| - 1 - n {
        assert s[n..][k] == s[..|s| - 1][n..][k];
      }
    }
  }

  /** `str.strip()`: `s` with its leading and trailing whitespace removed. */
  function Strip(s: string): (r: string)
    ensures IsTrimmed(r)
  {
    var l := TrimLeft(s);
    TrimLeftSpec(s);
    TrimRightSpec(l);
    TrimRight(l)
  }

  /** The stripped string is a slice of `s`, everything cut off is
      whitespace, and neither end of the result is; together these
      determine it. */
  lemma StripIsSlice(s: string)
    ensures exists i, j :: 0 <= i <= j <= |s| && Strip(s) == s[i..j] && AllSpace(s[..i]) && AllSpace(s[j..])
  {
    var l := TrimLeft(s);
    var i := |s| - |l|;
    var j := i + |Strip(s)|;
    TrimLeftSpec(s);
    StripBounds(s, l, i, j);
  }

  lemma StripBounds(s: string, l: string, i: nat, j: nat)
    requires l == TrimLeft(s) && i == |s| - |l| && j == i + |TrimRight(l)|
    ensures j <= |s| && Strip(s) == s[i..j] && AllSpace(s[j..])
  {
    var r := TrimRight(l);
    TrimLeftSpec(s);
    TrimRightSpec(l);
    SliceOfSlice(s, l, r);
  }

  /** A prefix `r` of a suffix `l` of `s` is a slice of `s`. */
  lemma SliceOfSlice<T>(s: seq<T>, l: seq<T>, r: seq<T>)
    requires |l| <= |s| && l == s[|s| - |l|..] && |r| <= |l| && r == l[..|r|]
    ensures r == s[|s| - |l|..|s| - |l| + |r|] && l[|r|..] == s[|s| - |l| + |r|..]
  {
  }

  /** The number of occurrences of `c` in `s`. */
  function CountChar(s: string, c: char): nat
    decreases |s|
  {
    if s == [] then 0 else (if s[0] == c then 1 else 0) + CountChar(s[1..], c)
  }

  /** Removing whitespace never removes a comma. */
  lemma {:induction false} CountCommasTrimLeft(s: string)
    ensures CountChar(TrimLeft(s), ',') == CountChar(s, ',')
    decreases |s|
  {
    if s != [] && IsSpace(s[0]) {
      CountCommasTrimLeft(s[1..]);
    }
  }

  /** `str.split(",")`: the pieces between commas, empty ones included. */
  function SplitComma(s: string): (parts: seq<string>)
    ensures |parts| == 1 + CountChar(s, ',')
    ensures forall i :: 0 <= i < |parts| ==> ',' !in parts[i]
    decreases |s|
  {
    if s == [] then [""]
    else
      var rest := SplitComma(s[1..]);
      if s[0] == ',' then [""] + rest
      else [[s[0]] + rest[0]] + rest[1..]
  }

  /** `str.split(r",\s*")` as the regular-expression engine runs it: a comma
      together with the whitespace run that follows it is one separator. */
  function SplitCommaSpace(s: string): (parts: seq<string>)
    ensures |parts| == 1 + CountChar(s, ',')
    decreases |s|
  {
    if s == [] then [""]
    else if s[0] == ',' then
      CountCommasTrimLeft(s[1..]);
      [""] + SplitCommaSpace(TrimLeft(s[1..]))
    else
      var rest := SplitCommaSpace(s[1..]);
      [[s[0]] + rest[0]] + rest[1..]
  }

  /** `sep.join(parts)`. */
  function Join(parts: seq<string>, sep: char): string
    decreases |parts|
  {
    if parts == [] then ""
    else if |parts| == 1 then parts[0]
    else parts[0] + [sep] + Join(parts[1..], sep)
  }

  /** Joining the comma-split pieces with commas gives the cell back. */
  lemma {:induction false} JoinSplitComma(s: string)
    ensures Join(SplitComma(s), ',') == s
    decreases |s|
  {
    if s != [] {
      JoinSplitComma(s[1..]);
      var rest := SplitComma(s[1..]);
      if s[0] == ',' {
        assert SplitComma(s) == [""] + rest;
        assert ([""] + rest)[1..] == rest;
      } else {
        JoinConsHead(s[0], rest, ',');
      }
    }
  }

  lemma JoinConsHead(c: char, parts: seq<string>, sep: char)
    requires |parts| >= 1
    ensures Join([[c] + parts[0]] + parts[1..], sep) == [c] + Join(parts, sep)
  {
    var q := [[c] + parts[0]] + parts[1..];
    assert q[1..] == parts[1..];
  }

  /** Splitting pieces joined with commas gives the pieces back, provided
      there is at least one piece and none of them holds a comma. */
  lemma {:induction false} SplitCommaJoin(parts: seq<string>)
    requires |parts| >= 1
    requires forall i :: 0 <= i < |parts| ==> ',' !in parts[i]
    ensures SplitComma(Join(parts, ',')) == parts
    decreases |parts|
  {
    if |parts| == 1 {
      SplitCommaPrefix(parts[0], "");
      assert parts[0] + "" == parts[0];
    } else {
      var tail := Join(parts[1..], ',');
      SplitCommaJoin(parts[1..]);
      assert Join(parts, ',') == parts[0] + ("," + tail);
      SplitCommaPrefix(parts[0], "," + tail);
      assert ("," + tail)[1..] == tail;
      assert parts[0] + "" == parts[0];
      assert parts == [parts[0]] + parts[1..];
    }
  }

  /** A comma-free prefix extends the first piece only. */
  lemma {:induction false} SplitCommaPrefix(w: string, t: string)
    requires ',' !in w
    ensures SplitComma(w + t) == [w + SplitComma(t)[0]] + SplitComma(t)[1..]
    decreases |w|
  {
    if w == [] {
      var p := SplitComma(t);
      assert w + t == t && w + p[0] == p[0];
      assert p == [p[0]] + p[1..];
    } else {
      assert (w + t)[0] == w[0];
      assert (w + t)[1..] == w[1..] + t;
      SplitCommaPrefix(w[1..], t);
      assert [w[0]] + (w[1..] + SplitComma(t)[0]) == w + SplitComma(t)[0];
    }
  }

  /** Removing leading whitespace from a cell only trims its first piece. */
  lemma {:induction false} SplitCommaTrimLeft(x: string)
    ensures SplitComma(TrimLeft(x)) == [TrimLeft(SplitComma(x)[0])] + SplitComma(x)[1..]
    decreases |x|
  {
    if x != [] && IsSpace(x[0]) {
      SplitCommaTrimLeft(x[1..]);
      var rest := SplitComma(x[1..]);
      assert ([x[0]] + rest[0])[1..] == rest[0];
    } else if x != [] {
      var p := SplitComma(x);
      assert p[0] == [] || p[0][0] == x[0];
    }
  }

  /** The `,\s*` split and the plain comma split differ only in the
      whitespace that opens the second and later pieces. */
  lemma {:induction false} SplitCommaSpaceBySplitComma(s: string)
    ensures SplitCommaSpace(s) == [SplitComma(s)[0]] + Map(TrimLeft, SplitComma(s)[1..])
    decreases |s|
  {
    if s != [] {
      if s[0] == ',' {
        var x := s[1..];
        var u := TrimLeft(x);
        SplitCommaSpaceBySplitComma(u);
        SplitCommaTrimLeft(x);
        var q := SplitComma(x);
        assert SplitComma(u) == [TrimLeft(q[0])] + q[1..];
        assert SplitComma(u)[1..] == q[1..];
        assert q == [q[0]] + q[1..];
        MapConcat(TrimLeft, [q[0]], q[1..]);
        assert SplitComma(s) == [""] + q;
        assert SplitComma(s)[1..] == q;
      } else {
        SplitCommaSpaceBySplitComma(s[1..]);
        var q := SplitComma(s[1..]);
        assert SplitComma(s)[1..] == q[1..];
      }
    }
  }

  /** `str.strip()` after `lstrip()` is `str.strip()`. */
  lemma StripTrimLeft(s: string)
    ensures Strip(TrimLeft(s)) == Strip(s)
  {
    var l := TrimLeft(s);
    TrimLeftSpec(s);
    assert TrimLeft(l) == l;
  }

  /** After stripping, the `,\s*` split used by the dashboard and the plain
      comma split give the same tokens. */
  lemma StripSplitEquivalence(s: string)
    ensures Map(Strip, SplitCommaSpace(s)) == Map(Strip, SplitComma(s))
  {
    var a, b := SplitCommaSpace(s), SplitComma(s);
    SplitCommaSpaceBySplitComma(s);
    var m := Map(TrimLeft, b[1..]);
    assert a == [b[0]] + m;
    forall i | 1 <= i < |a| ensures a[i] == TrimLeft(b[i]) {
      assert a[i] == m[i - 1];
      assert b[1..][i - 1] == b[i];
    }
    StripPointwise(a, b);
  }

  lemma StripPointwise(a: seq<string>, b: seq<string>)
    requires |a| == |b| >= 1 && a[0] == b[0]
    requires forall i :: 1 <= i < |a| ==> a[i] == TrimLeft(b[i])
    ensures Map(Strip, a) == Map(Strip, b)
  {
    var ma, mb := Map(Strip, a), Map(Strip, b);
    forall i | 0 <= i < |a| ensures ma[i] == mb[i] {
      if i > 0 {
        StripTrimLeft(b[i]);
      }
    }
  }
  /** Leading whitespace does not survive `lstrip()`. */
  lemma {:induction false} TrimLeftSpaces(sp: string, t: string)
    requires AllSpace(sp)
    ensures TrimLeft(sp + t) == TrimLeft(t)
    decreases |sp|
  {
    if sp != [] {
      assert (sp + t)[0] == sp[0];
      assert (sp + t)[1..] == sp[1..] + t;
      TrimLeftSpaces(sp[1..], t);
    } else {
      assert sp + t == t;
    }
  }

  /** `strip()` leaves a string without surrounding whitespace unchanged. */
  lemma StripTrimmed(w: string)
    requires IsTrimmed(w)
    ensures Strip(w) == w
  {
    assert TrimLeft(w) == w;
  }

  /** Whitespace never holds a comma. */
  lemma SpacesHaveNoComma(sp: string)
    requires AllSpace(sp)
    ensures ',' !in sp
  {
  }
  /** `strip()` removes whitespace put in front of a stripped string. */
  lemma StripAfterSpaces(sp: string, w: string)
    requires AllSpace(sp) && IsTrimmed(w)
    ensures Strip(sp + w) == w
  {
    TrimLeftSpaces(sp, w);
    StripTrimLeft(sp + w);
    StripTrimmed(w);
  }
}
