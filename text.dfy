/** The Python string operations the core relies on: `str.strip()`,
    `str.split(sep)`, `sep.join(parts)`, `str.replace(pat, rep)` and the
    decimal rendering of integers used by `'{:02}'.format`. */
module Text {

  /** Python's `str.isspace()` for one character. */
  predicate IsSpace(c: char) {
    || c == ' '
    || ('\t' <= c <= '\r')
    || ('\U{1C}' <= c <= '\U{1F}')
    || c == '\U{85}' || c == '\U{A0}' || c == '\U{1680}'
    || ('\U{2000}' <= c <= '\U{200A}')
    || c == '\U{2028}' || c == '\U{2029}' || c == '\U{202F}' || c == '\U{205F}' || c == '\U{3000}'
  }

  predicate AllSpace(s: string) {
    forall i :: 0 <= i < |s| ==> IsSpace(s[i])
  }

  /** `s.lstrip()`: the suffix left after removing leading whitespace. */
  function StripLeft(s: string): (r: string)
    ensures |r| <= |s|
    ensures r == [] || !IsSpace(r[0])
  {
    if |s| > 0 && IsSpace(s[0]) then StripLeft(s[1..]) else s
  }

  /** `s.rstrip()`: the prefix left after removing trailing whitespace. */
  function StripRight(s: string): (r: string)
    ensures |r| <= |s|
    ensures r == [] || !IsSpace(r[|r| - 1])
  {
    if |s| > 0 && IsSpace(s[|s| - 1]) then StripRight(s[..|s| - 1]) else s
  }

  /** `s.strip()` */
  function Strip(s: string): (r: string)
    ensures |r| <= |s|
    ensures r == [] || (!IsSpace(r[0]) && !IsSpace(r[|r| - 1]))
  {
    var t := StripLeft(s);
    StripRightPrefix(t);
    StripRight(t)
  }

  /** `s.lstrip()` is a suffix of `s`, and what it removes is whitespace. */
  lemma {:induction false} StripLeftSuffix(s: string)
    ensures StripLeft(s) == s[|s| - |StripLeft(s)|..]
    ensures AllSpace(s[..|s| - |StripLeft(s)|])
  {
    if |s| > 0 && IsSpace(s[0]) {
      var r := StripLeft(s[1..]);
      StripLeftSuffix(s[1..]);
      assert s[..|s| - |r|] == [s[0]] + s[1..][..|s[1..]| - |r|];
    }
  }

  /** `s.rstrip()` is a prefix of `s`, and what it removes is whitespace. */
  lemma {:induction false} StripRightPrefix(s: string)
    ensures StripRight(s) == s[..|StripRight(s)|]
    ensures AllSpace(s[|StripRight(s)|..])
  {
    if |s| > 0 && IsSpace(s[|s| - 1]) {
      var r := StripRight(s[..|s| - 1]);
      StripRightPrefix(s[..|s| - 1]);
      assert s[|r|..] == s[..|s| - 1][|r|..] + [s[|s| - 1]];
    }
  }

  lemma {:induction false} StripLeftPadded(ws: string, t: string)
    requires AllSpace(ws)
    requires t == [] || !IsSpace(t[0])
    ensures StripLeft(ws + t) == t
  {
    if ws != [] {
      assert (ws + t)[1..] == ws[1..] + t;
      StripLeftPadded(ws[1..], t);
    }
  }

  lemma {:induction false} StripRightPadded(t: string, ws: string)
    requires AllSpace(ws)
    requires t == [] || !IsSpace(t[|t| - 1])
    ensures StripRight(t + ws) == t
  {
    if ws != [] {
      assert (t + ws)[..|t + ws| - 1] == t + ws[..|ws| - 1];
      StripRightPadded(t, ws[..|ws| - 1]);
    }
  }

  /** Stripping a text padded with whitespace on both sides gives back the
      text, provided it neither starts nor ends with whitespace. */
  lemma StripPadded(lead: string, t: string, trail: string)
    requires AllSpace(lead) && AllSpace(trail)
    requires t != [] && !IsSpace(t[0]) && !IsSpace(t[|t| - 1])
    ensures Strip(lead + t + trail) == t
  {
    assert lead + t + trail == lead + (t + trail);
    StripLeftPadded(lead, t + trail);
    StripRightPadded(t, trail);
  }

  /** `s.split(sep)` for a non-empty separator: the pieces between the
      non-overlapping occurrences of `sep`, found from the left. */
  function SplitOn(s: string, sep: string): (parts: seq<string>)
    requires |sep| > 0
    ensures |parts| >= 1
    decreases |s|
  {
    if |s| < |sep| then [s]
    else if s[..|sep|] == sep then [""] + SplitOn(s[|sep|..], sep)
    else
      var rest := SplitOn(s[1..], sep);
      [[s[0]] + rest[0]] + rest[1..]
  }

  /** `sep.join(parts)` */
  function JoinWith(parts: seq<string>, sep: string): (r: string)
    ensures |parts| >= 1 ==> |parts[0]| <= |r|
  {
    if |parts| == 0 then ""
    else if |parts| == 1 then parts[0]
    else parts[0] + sep + JoinWith(parts[1..], sep)
  }

  /** A character put in front of the first piece ends up in front of the
      joined string. */
  lemma {:induction false} JoinExtendFirst(c: char, parts: seq<string>, sep: string)
    requires |parts| >= 1
    ensures JoinWith([[c] + parts[0]] + parts[1..], sep) == [c] + JoinWith(parts, sep)
  {
    var ext := [[c] + parts[0]] + parts[1..];
    assert ext[0] == [c] + parts[0] && ext[1..] == parts[1..];
    if |parts| > 1 {
      assert JoinWith(ext, sep) == ([c] + parts[0]) + sep + JoinWith(parts[1..], sep);
    }
  }

  /** An empty first piece contributes only its separator. */
  lemma {:induction false} JoinEmptyFirst(parts: seq<string>, sep: string)
    requires |parts| >= 1
    ensures JoinWith([""] + parts, sep) == sep + JoinWith(parts, sep)
  {
    assert ([""] + parts)[0] == "" && ([""] + parts)[1..] == parts;
  }

  /** Splitting loses nothing: joining the pieces with the separator gives
      back the original string. */
  lemma {:induction false} JoinSplit(s: string, sep: string)
    requires |sep| > 0
    ensures JoinWith(SplitOn(s, sep), sep) == s
    decreases |s|
  {
    if |s| < |sep| {
    } else if s[..|sep|] == sep {
      JoinSplit(s[|sep|..], sep);
      JoinEmptyFirst(SplitOn(s[|sep|..], sep), sep);
      assert s == s[..|sep|] + s[|sep|..];
    } else {
      JoinSplit(s[1..], sep);
      JoinExtendFirst(s[0], SplitOn(s[1..], sep), sep);
      assert s == [s[0]] + s[1..];
    }
  }

  /** A string without the separator character is a single piece. */
  lemma {:induction false} SplitWithoutSeparator(s: string, c: char)
    requires c !in s
    ensures SplitOn(s, [c]) == [s]
    decreases |s|
  {
    if |s| >= 1 {
      assert s[..1] == [s[0]];
      SplitWithoutSeparator(s[1..], c);
      assert s == [s[0]] + s[1..];
    }
  }

  /** A first character other than the separator joins the first piece. */
  lemma SplitConsOther(x: char, rest: string, c: char)
    requires x != c
    ensures var r := SplitOn(rest, [c]);
            SplitOn([x] + rest, [c]) == [[x] + r[0]] + r[1..]
  {
    var s := [x] + rest;
    assert s[..1] != [c];
    assert s[1..] == rest;
  }

  /** A first character equal to the separator starts a new, empty piece. */
  lemma SplitConsSeparator(rest: string, c: char)
    ensures SplitOn([c] + rest, [c]) == [""] + SplitOn(rest, [c])
  {
    var s := [c] + rest;
    assert s[..1] == [c];
    assert s[1..] == rest;
  }

  lemma ConcatAssoc<T>(p: seq<T>, q: seq<T>, r: seq<T>)
    ensures p + (q + r) == (p + q) + r
  {
  }

  /** One character in front of both sides keeps a split around `c`. */
  lemma SplitAroundStep(x: char, a: string, b: string, c: char)
    requires SplitOn(a + [c] + b, [c]) == SplitOn(a, [c]) + SplitOn(b, [c])
    ensures SplitOn([x] + a + [c] + b, [c]) == SplitOn([x] + a, [c]) + SplitOn(b, [c])
  {
    var tail := a + [c] + b;
    assert [x] + a + [c] + b == [x] + tail;
    var ra := SplitOn(a, [c]);
    var rb := SplitOn(b, [c]);
    if x == c {
      SplitConsSeparator(tail, c);
      SplitConsSeparator(a, c);
      ConcatAssoc([""], ra, rb);
    } else {
      SplitConsOther(x, tail, c);
      assert (ra + rb)[0] == ra[0];
      assert (ra + rb)[1..] == ra[1..] + rb;
      SplitConsOther(x, a, c);
      ConcatAssoc([[x] + ra[0]], ra[1..], rb);
    }
  }

  /** Splitting on one character distributes over an occurrence of it. */
  lemma {:induction false} SplitAround(a: string, b: string, c: char)
    ensures SplitOn(a + [c] + b, [c]) == SplitOn(a, [c]) + SplitOn(b, [c])
    decreases |a|
  {
    if |a| == 0 {
      assert a + [c] + b == [c] + b;
      SplitConsSeparator(b, c);
      assert SplitOn(a, [c]) == [""];
    } else {
      SplitAround(a[1..], b, c);
      SplitAroundStep(a[0], a[1..], b, c);
      assert a == [a[0]] + a[1..];
    }
  }

  /** The first piece of a split is a prefix of the string. */
  lemma {:induction false} SplitFirstPrefix(s: string, sep: string)
    requires |sep| > 0
    ensures |SplitOn(s, sep)[0]| <= |s|
    ensures forall k :: 0 <= k < |SplitOn(s, sep)[0]| ==> SplitOn(s, sep)[0][k] == s[k]
    decreases |s|
  {
    if |s| >= |sep| && s[..|sep|] != sep {
      SplitFirstPrefix(s[1..], sep);
      var rest := SplitOn(s[1..], sep);
      var first := [s[0]] + rest[0];
      assert SplitOn(s, sep) == [first] + rest[1..];
      forall k | 0 < k < |first| ensures first[k] == s[k] {
        assert first[k] == rest[0][k - 1] == s[1..][k - 1];
      }
    }
  }

  /** A character in front of a text without `sep` adds no occurrence, when
      the two are the start of a string that does not start with `sep`. */
  lemma ConsPieceAvoids(s: string, sep: string, f: string)
    requires |sep| > 0 && |s| >= |sep| && s[..|sep|] != sep
    requires |f| + 1 <= |s| && forall k :: 0 <= k < |f| ==> f[k] == s[k + 1]
    requires forall j :: !OccursAt(f, sep, j)
    ensures forall j :: !OccursAt([s[0]] + f, sep, j)
  {
    var first := [s[0]] + f;
    forall j ensures !OccursAt(first, sep, j) {
      if j == 0 && |sep| <= |first| {
        forall k | 0 <= k < |sep| ensures first[k] == s[k] {
          if k > 0 {
            assert first[k] == f[k - 1];
          }
        }
        assert first[..|sep|] == s[..|sep|];
      } else if 0 < j && j + |sep| <= |first| {
        assert first[j..j + |sep|] == f[j - 1..j - 1 + |sep|];
        assert !OccursAt(f, sep, j - 1);
      }
    }
  }

  /** No piece of a split holds the separator: `str.split` cuts at every
      occurrence. */
  lemma {:induction false} SplitPiecesAvoidSeparator(s: string, sep: string)
    requires |sep| > 0
    ensures forall i, j :: 0 <= i < |SplitOn(s, sep)| ==> !OccursAt(SplitOn(s, sep)[i], sep, j)
    decreases |s|
  {
    var parts := SplitOn(s, sep);
    if |s| < |sep| {
      assert parts == [s];
    } else if s[..|sep|] == sep {
      SplitPiecesAvoidSeparator(s[|sep|..], sep);
      var rest := SplitOn(s[|sep|..], sep);
      assert parts == [""] + rest;
      forall i, j | 0 <= i < |parts| ensures !OccursAt(parts[i], sep, j) {
        if i > 0 {
          assert parts[i] == rest[i - 1];
        }
      }
    } else {
      SplitPiecesAvoidSeparator(s[1..], sep);
      SplitFirstPrefix(s[1..], sep);
      var rest := SplitOn(s[1..], sep);
      assert forall k :: 0 <= k < |rest[0]| ==> rest[0][k] == s[k + 1];
      ConsPieceAvoids(s, sep, rest[0]);
      assert parts == [[s[0]] + rest[0]] + rest[1..];
      forall i, j | 0 <= i < |parts| ensures !OccursAt(parts[i], sep, j) {
        if i > 0 {
          assert parts[i] == rest[i];
        }
      }
    }
  }

  /** No piece of a split on one character contains that character. */
  lemma {:induction false} SplitPiecesWithoutSeparator(s: string, c: char)
    ensures forall i :: 0 <= i < |SplitOn(s, [c])| ==> c !in SplitOn(s, [c])[i]
    decreases |s|
  {
    if |s| >= 1 {
      SplitPiecesWithoutSeparator(s[1..], c);
      if s[0] != c {
        assert s[..1] != [c];
      } else {
        assert s[..1] == [c];
      }
    }
  }

  /** Joining pieces that do not contain the separator character and splitting
      again gives back the pieces. */
  lemma {:induction false} SplitJoin(parts: seq<string>, c: char)
    requires |parts| >= 1
    requires forall i :: 0 <= i < |parts| ==> c !in parts[i]
    ensures SplitOn(JoinWith(parts, [c]), [c]) == parts
    decreases |parts|
  {
    SplitWithoutSeparator(parts[0], c);
    if |parts| > 1 {
      SplitJoin(parts[1..], c);
      SplitAround(parts[0], JoinWith(parts[1..], [c]), c);
      assert [parts[0]] + parts[1..] == parts;
    }
  }

  /** Python's `s.replace(pat, rep)`: every non-overlapping occurrence of
      `pat`, found from the left, is replaced by `rep`; an empty `pat`
      matches between all characters and at both ends. */
  function ReplaceAll(s: string, pat: string, rep: string): (r: string)
    ensures |pat| > 0 && |rep| <= |pat| ==> |r| <= |s|
    ensures |pat| > 0 && |rep| >= |pat| ==> |r| >= |s|
    decreases |s|
  {
    if |pat| == 0 then InsertEverywhere(s, rep)
    else if |s| < |pat| then s
    else if s[..|pat|] == pat then rep + ReplaceAll(s[|pat|..], pat, rep)
    else [s[0]] + ReplaceAll(s[1..], pat, rep)
  }

  /** `s.replace('', rep)` */
  function InsertEverywhere(s: string, rep: string): string {
    if |s| == 0 then rep else rep + [s[0]] + InsertEverywhere(s[1..], rep)
  }

  /** Replacing a string by itself changes nothing. */
  lemma {:induction false} ReplaceAllSame(s: string, x: string)
    ensures ReplaceAll(s, x, x) == s
    decreases |s|
  {
    if |x| == 0 {
      InsertNothing(s);
    } else if |s| < |x| {
    } else if s[..|x|] == x {
      ReplaceAllSame(s[|x|..], x);
      assert s == s[..|x|] + s[|x|..];
    } else {
      ReplaceAllSame(s[1..], x);
      assert s == [s[0]] + s[1..];
    }
  }

  lemma {:induction false} InsertNothing(s: string)
    ensures InsertEverywhere(s, "") == s
  {
    if |s| > 0 {
      InsertNothing(s[1..]);
      assert s == [s[0]] + s[1..];
    }
  }

  /** `x` occurs in `s` at index `i`. */
  predicate OccursAt(s: string, x: string, i: int) {
    0 <= i && i + |x| <= |s| && s[i..i + |x|] == x
  }

  /** A string in which `x` does not occur is left unchanged. */
  lemma {:induction false} ReplaceAbsent(s: string, x: string, y: string)
    requires |x| > 0
    requires forall i :: !OccursAt(s, x, i)
    ensures ReplaceAll(s, x, y) == s
    decreases |s|
  {
    if |s| >= |x| {
      assert !OccursAt(s, x, 0);
      assert s[..|x|] != x;
      forall i ensures !OccursAt(s[1..], x, i) {
        if OccursAt(s[1..], x, i) {
          assert s[1..][i..i + |x|] == s[i + 1..i + 1 + |x|];
          assert OccursAt(s, x, i + 1);
        }
      }
      ReplaceAbsent(s[1..], x, y);
      assert s == [s[0]] + s[1..];
    }
  }

  /** A first character at which no occurrence starts is copied. */
  lemma ReplaceCopiesFront(t: string, x: string, y: string)
    requires |x| > 0 && |t| > 0 && !OccursAt(t, x, 0)
    ensures ReplaceAll(t, x, y) == [t[0]] + ReplaceAll(t[1..], x, y)
  {
    if |t| >= |x| {
      assert t[..|x|] != x;
    } else {
      assert t == [t[0]] + t[1..];
    }
  }

  /** A prefix in which no occurrence of `x` starts is copied unchanged. */
  lemma {:induction false} ReplaceSkipsPrefix(p: string, s: string, x: string, y: string)
    requires |x| > 0
    requires forall i :: 0 <= i < |p| ==> !OccursAt(p + s, x, i)
    ensures ReplaceAll(p + s, x, y) == p + ReplaceAll(s, x, y)
    decreases |p|
  {
    if |p| > 0 {
      var t := p + s;
      var u := p[1..] + s;
      assert t[1..] == u;
      forall i | 0 <= i < |p[1..]| ensures !OccursAt(u, x, i) {
        assert !OccursAt(t, x, i + 1);
      }
      ReplaceSkipsPrefix(p[1..], s, x, y);
      assert !OccursAt(t, x, 0);
      ReplaceCopiesFront(t, x, y);
      assert t[0] == p[0];
      ConcatAssoc([p[0]], p[1..], ReplaceAll(s, x, y));
      assert [p[0]] + p[1..] == p;
    } else {
      assert p + s == s;
    }
  }

  /** An occurrence inside `q` is an occurrence in `p + x + q`, shifted. */
  lemma OccurrenceShifted(p: string, x: string, q: string, i: int)
    requires OccursAt(q, x, i)
    ensures OccursAt(p + x + q, x, |p| + |x| + i)
  {
    var t := p + x + q;
    assert t[|p| + |x| + i..|p| + |x| + i + |x|] == q[i..i + |x|];
  }

  /** The only occurrence of `x` in `p + x + q` leaves none in `p` and
      none in `q`. */
  lemma SingleOccurrenceSides(p: string, x: string, q: string)
    requires |x| > 0
    requires forall i :: OccursAt(p + x + q, x, i) ==> i == |p|
    ensures forall i :: 0 <= i < |p| ==> !OccursAt(p + (x + q), x, i)
    ensures forall i :: !OccursAt(q, x, i)
  {
    assert p + x + q == p + (x + q);
    forall i | OccursAt(q, x, i) ensures false {
      OccurrenceShifted(p, x, q, i);
    }
  }

  /** When `x` occurs in `p + x + q` only after `p`, exactly that occurrence
      is replaced. */
  lemma ReplaceSingle(p: string, x: string, q: string, y: string)
    requires |x| > 0
    requires forall i :: OccursAt(p + x + q, x, i) ==> i == |p|
    ensures ReplaceAll(p + x + q, x, y) == p + y + q
  {
    SingleOccurrenceSides(p, x, q);
    ReplaceSkipsPrefix(p, x + q, x, y);
    ReplaceAbsent(q, x, y);
    ReplaceAtFront(x, q, y);
    assert p + x + q == p + (x + q);
    assert p + (y + q) == p + y + q;
  }

  /** An occurrence at the front is replaced and the rest is scanned. */
  lemma ReplaceAtFront(x: string, q: string, y: string)
    requires |x| > 0
    ensures ReplaceAll(x + q, x, y) == y + ReplaceAll(q, x, y)
  {
    var s := x + q;
    assert s[..|x|] == x && s[|x|..] == q;
  }

  /** The digit character for 0 <= d < 10. */
  function DigitChar(d: nat): char
    requires d < 10
  {
    ('0' as int + d) as char
  }

  predicate IsDigit(c: char) {
    '0' <= c <= '9'
  }

  predicate AllDigits(s: string) {
    forall i :: 0 <= i < |s| ==> IsDigit(s[i])
  }

  /** `str(n)` for a non-negative integer. */
  function Decimal(n: nat): (s: string)
    ensures |s| >= 1 && AllDigits(s)
    ensures (|s| == 1) == (n < 10)
    ensures n >= 10 ==> s[0] != '0'
    decreases n
  {
    if n < 10 then [DigitChar(n)] else Decimal(n / 10) + [DigitChar(n % 10)]
  }

  /** `int(s)` for a string of decimal digits. */
  function ParseDecimal(s: string): nat
    requires AllDigits(s)
  {
    if |s| == 0 then 0
    else ParseDecimal(s[..|s| - 1]) * 10 + (s[|s| - 1] as int - '0' as int)
  }

  /** Reading back the decimal rendering of a number gives the number. */
  lemma {:induction false} ParseDecimalOfDecimal(n: nat)
    ensures ParseDecimal(Decimal(n)) == n
    decreases n
  {
    if n >= 10 {
      var s := Decimal(n);
      ParseDecimalOfDecimal(n / 10);
      assert s[..|s| - 1] == Decimal(n / 10);
    }
  }

  /** A leading zero does not change the value read. */
  lemma {:induction false} ParseLeadingZero(s: string)
    requires AllDigits(s)
    ensures ParseDecimal("0" + s) == ParseDecimal(s)
    decreases |s|
  {
    if |s| > 0 {
      assert ("0" + s)[..|"0" + s| - 1] == "0" + s[..|s| - 1];
      ParseLeadingZero(s[..|s| - 1]);
    }
  }
}
