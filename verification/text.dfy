/** String primitives of the .NET base library that the game parser relies on,
    written out as pure functions over `string` (= `seq<char>`). */
module Text {

  /** .NET white space: the Unicode space, line and paragraph separators
      plus the control characters U+0009..U+000D and U+0085. */
  predicate IsWhiteSpace(c: char) {
    c == ' ' || ('\t' <= c <= '\r') || c == '\U{0085}' || c == '\U{00A0}'
    || c == '\U{1680}' || ('\U{2000}' <= c <= '\U{200A}') || c == '\U{2028}'
    || c == '\U{2029}' || c == '\U{202F}' || c == '\U{205F}' || c == '\U{3000}'
  }

  /** ASCII decimal digit (the .NET digit test and the regex digit class, restricted to ASCII). */
  predicate IsDigit(c: char) {
    '0' <= c <= '9'
  }

  /** Ordinal prefix test. */
  predicate StartsWith(s: string, prefix: string) {
    |prefix| <= |s| && s[..|prefix|] == prefix
  }

  function TrimStart(s: string): (r: string)
    decreases |s|
  {
    if |s| > 0 && IsWhiteSpace(s[0]) then TrimStart(s[1..]) else s
  }

  function TrimEnd(s: string): (r: string)
    decreases |s|
  {
    if |s| > 0 && IsWhiteSpace(s[|s| - 1]) then TrimEnd(s[..|s| - 1]) else s
  }

  /** Trimming: drop leading and trailing white space. */
  function Trim(s: string): string {
    TrimEnd(TrimStart(s))
  }

  lemma {:induction false} TrimStartSpec(s: string)
    ensures var r := TrimStart(s);
      && |r| <= |s| && r == s[|s| - |r|..]
      && (|r| > 0 ==> !IsWhiteSpace(r[0]))
      && forall i :: 0 <= i < |s| - |r| ==> IsWhiteSpace(s[i])
    decreases |s|
  {
    if |s| > 0 && IsWhiteSpace(s[0]) {
      TrimStartSpec(s[1..]);
    }
  }

  lemma {:induction false} TrimEndSpec(s: string)
    ensures var r := TrimEnd(s);
      && |r| <= |s| && r == s[..|r|]
      && (|r| > 0 ==> !IsWhiteSpace(r[|r| - 1]))
      && forall i :: |r| <= i < |s| ==> IsWhiteSpace(s[i])
    decreases |s|
  {
    if |s| > 0 && IsWhiteSpace(s[|s| - 1]) {
      TrimEndSpec(s[..|s| - 1]);
    }
  }

  /** The trimmed string is the slice of the input that starts after the leading
      white space; it neither starts nor ends with white space, and everything
      cut away on either side is white space. */
  lemma TrimSpec(s: string)
    ensures var r := Trim(s); var i := |s| - |TrimStart(s)|;
      && 0 <= i <= |s| - |r| && r == s[i..i + |r|]
      && (forall k :: 0 <= k < i ==> IsWhiteSpace(s[k]))
      && (forall k :: i + |r| <= k < |s| ==> IsWhiteSpace(s[k]))
      && (|r| > 0 ==> !IsWhiteSpace(r[0]) && !IsWhiteSpace(r[|r| - 1]))
  {
    var t := TrimStart(s);
    TrimStartSpec(s);
    TrimEndSpec(t);
    var r := TrimEnd(t);
    var i := |s| - |t|;
    assert r == s[i..i + |r|];
    forall k | i + |r| <= k < |s|
      ensures IsWhiteSpace(s[k])
    {
      assert s[k] == t[k - i];
    }
    if |r| > 0 {
      assert r[0] == t[0];
    }
  }

  /** Cutting at every `c`: the pieces between occurrences of `c`; never empty. */
  function Split(s: string, c: char): (r: seq<string>)
    ensures |r| > 0
  {
    if |s| == 0 then [""]
    else if s[0] == c then [""] + Split(s[1..], c)
    else
      var rest := Split(s[1..], c);
      [[s[0]] + rest[0]] + rest[1..]
  }

  /** The pieces of `row` with one `c` between neighbours. */
  function Join(row: seq<string>, c: char): string {
    if |row| == 0 then ""
    else if |row| == 1 then row[0]
    else row[0] + [c] + Join(row[1..], c)
  }

  /** No piece of a split contains the separator. */
  lemma {:induction false} SplitPiecesFree(s: string, c: char)
    ensures forall k :: 0 <= k < |Split(s, c)| ==> c !in Split(s, c)[k]
  {
    if |s| > 0 {
      SplitPiecesFree(s[1..], c);
    }
  }

  /** Joining the pieces of a split restores the original text. */
  lemma {:induction false} JoinSplit(s: string, c: char)
    ensures Join(Split(s, c), c) == s
  {
    if |s| > 0 {
      JoinSplit(s[1..], c);
      var rest := Split(s[1..], c);
      if s[0] == c {
        assert s == [c] + s[1..];
      } else if |rest| == 1 {
        assert s == [s[0]] + rest[0];
      } else {
        assert rest == [rest[0]] + rest[1..];
        assert Join(rest, c) == rest[0] + [c] + Join(rest[1..], c);
        assert s == ([s[0]] + rest[0]) + [c] + Join(rest[1..], c);
      }
    }
  }

  lemma {:induction false} SplitOfFree(s: string, c: char)
    requires c !in s
    ensures Split(s, c) == [s]
  {
    if |s| > 0 {
      SplitOfFree(s[1..], c);
      assert s == [s[0]] + s[1..];
    }
  }

  lemma {:induction false} SplitAfterPiece(a: string, c: char, t: string)
    requires c !in a
    ensures Split(a + [c] + t, c) == [a] + Split(t, c)
  {
    if |a| == 0 {
      assert a + [c] + t == [c] + t;
      assert ([c] + t)[1..] == t;
    } else {
      SplitAfterPiece(a[1..], c, t);
      assert (a + [c] + t)[1..] == a[1..] + [c] + t;
      assert [a[0]] + a[1..] == a;
    }
  }

  /** Splitting a joined non-empty row whose cells avoid the separator restores the row. */
  lemma {:induction false} SplitJoin(row: seq<string>, c: char)
    requires |row| > 0
    requires forall k :: 0 <= k < |row| ==> c !in row[k]
    ensures Split(Join(row, c), c) == row
  {
    if |row| == 1 {
      SplitOfFree(row[0], c);
    } else {
      SplitJoin(row[1..], c);
      SplitAfterPiece(row[0], c, Join(row[1..], c));
      assert row == [row[0]] + row[1..];
    }
  }

  /** Index of the first occurrence of `c`, or `|s|` when there is none. */
  function IndexOf(s: string, c: char): (r: nat)
    ensures r <= |s|
    ensures r < |s| ==> s[r] == c
    ensures forall k :: 0 <= k < r ==> s[k] != c
    ensures r == |s| <==> c !in s
  {
    if |s| == 0 then 0
    else if s[0] == c then 0
    else 1 + IndexOf(s[1..], c)
  }

  /** `v` occurs in `s` from index `i` on, holds no `c`, and is followed by a
      `c` or by the end of `s`. */
  predicate PieceAt(s: string, i: nat, v: string, c: char) {
    && i + |v| <= |s| && s[i..i + |v|] == v && c !in v
    && (i + |v| == |s| || s[i + |v|] == c)
  }

  /** The second piece of a split on `c` is the text after the first `c` up to
      the next `c`, or to the end when there is no second one. */
  lemma {:induction false} SecondPiece(s: string, c: char)
    requires c in s
    ensures |Split(s, c)| >= 2
    ensures PieceAt(s, IndexOf(s, c) + 1, Split(s, c)[1], c)
  {
    if s[0] == c {
      SecondPieceHead(s, c);
    } else {
      SecondPieceShift(s, c);
      SecondPiece(s[1..], c);
      PieceAtShift(s, IndexOf(s[1..], c) + 1, Split(s[1..], c)[1], c);
    }
  }

  /** When `s` starts with `c`, the second piece is the first piece of the rest. */
  lemma SecondPieceHead(s: string, c: char)
    requires |s| > 0 && s[0] == c
    ensures |Split(s, c)| >= 2 && IndexOf(s, c) == 0
    ensures PieceAt(s, 1, Split(s, c)[1], c)
  {
    var t := s[1..];
    FirstPiece(t, c);
    var j := IndexOf(t, c);
    assert Split(s, c)[1] == Split(t, c)[0] == t[..j];
    assert s[1..1 + j] == t[..j];
    assert j < |t| ==> s[1 + j] == t[j];
  }

  /** A leading character other than `c` joins the first piece and leaves the
      second piece where it was, one position further on. */
  lemma SecondPieceShift(s: string, c: char)
    requires c in s && s[0] != c
    ensures c in s[1..]
    ensures |Split(s, c)| == |Split(s[1..], c)|
    ensures |Split(s, c)| >= 2 ==> Split(s, c)[1] == Split(s[1..], c)[1]
    ensures IndexOf(s, c) == IndexOf(s[1..], c) + 1
  {
    var j :| 0 <= j < |s| && s[j] == c;
    assert s[1..][j - 1] == c;
  }

  lemma PieceAtShift(s: string, i: nat, v: string, c: char)
    requires |s| > 0 && PieceAt(s[1..], i, v, c)
    ensures PieceAt(s, i + 1, v, c)
  {
    assert s[1..][i..i + |v|] == s[i + 1..i + 1 + |v|];
    assert i + |v| < |s| - 1 ==> s[1..][i + |v|] == s[i + 1 + |v|];
  }

  /** The first piece of a split is the text up to the first separator. */
  lemma {:induction false} FirstPiece(s: string, c: char)
    ensures var v := Split(s, c)[0];
      v == s[..IndexOf(s, c)]
  {
    if |s| > 0 && s[0] != c {
      FirstPiece(s[1..], c);
      assert s[..IndexOf(s, c)] == [s[0]] + s[1..][..IndexOf(s[1..], c)];
    }
  }

  /** ASCII upper-casing of one character. */
  function UpperAscii(c: char): char {
    if 'a' <= c <= 'z' then (c as int - 32) as char else c
  }

  /** Ordinal equality ignoring case, with ASCII case folding. */
  predicate EqualsIgnoreCase(a: string, b: string) {
    |a| == |b| && forall k :: 0 <= k < |a| ==> UpperAscii(a[k]) == UpperAscii(b[k])
  }

  /** Ordinal comparison: `a` sorts strictly before `b`. */
  predicate Less(a: string, b: string) {
    |b| > 0 && (|a| == 0 || a[0] < b[0] || (a[0] == b[0] && Less(a[1..], b[1..])))
  }

  /** Strings agreeing up to `i` and differing there are ordered by that character. */
  lemma {:induction false} LessAtFirstDifference(a: string, b: string, i: nat)
    requires i < |a| && i < |b| && a[..i] == b[..i] && a[i] < b[i]
    ensures Less(a, b)
  {
    if i > 0 {
      assert a[0] == a[..i][0] == b[..i][0] == b[0];
      assert a[1..][..i - 1] == a[..i][1..];
      assert b[1..][..i - 1] == b[..i][1..];
      LessAtFirstDifference(a[1..], b[1..], i - 1);
    }
  }

  lemma {:induction false} LessIrreflexive(a: string)
    ensures !Less(a, a)
  {
    if |a| > 0 {
      LessIrreflexive(a[1..]);
    }
  }

  lemma {:induction false} LessAsymmetric(a: string, b: string)
    ensures Less(a, b) ==> !Less(b, a)
  {
    if |a| > 0 && |b| > 0 && a[0] == b[0] {
      LessAsymmetric(a[1..], b[1..]);
    }
  }

  lemma {:induction false} LessTransitive(a: string, b: string, c: string)
    requires Less(a, b) && Less(b, c)
    ensures Less(a, c)
  {
    if |a| > 0 && a[0] == b[0] && b[0] == c[0] {
      LessTransitive(a[1..], b[1..], c[1..]);
    }
  }

  lemma {:induction false} LessTotal(a: string, b: string)
    ensures a == b || Less(a, b) || Less(b, a)
  {
    if |a| > 0 && |b| > 0 && a[0] == b[0] {
      LessTotal(a[1..], b[1..]);
      if a[1..] == b[1..] {
        assert a == [a[0]] + a[1..];
        assert b == [b[0]] + b[1..];
      }
    }
  }
}
