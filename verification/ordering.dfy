/** The order of `ParseGames`' result: descending by Date, ties descending by
    Time, a stable sort, with ordinal string comparison. */
module GameOrder {
  import opened Text
  import opened Games

  /** `a` has a strictly greater (Date, Time) key than `b`, so it comes first. */
  predicate Precedes(a: Game, b: Game) {
    Less(b.date, a.date) || (a.date == b.date && Less(b.time, a.time))
  }

  predicate SameKey(a: Game, b: Game) {
    a.date == b.date && a.time == b.time
  }

  /** Non-increasing by (Date, Time): no later game precedes an earlier one. */
  predicate Sorted(s: seq<Game>) {
    forall i, j :: 0 <= i < j < |s| ==> !Precedes(s[j], s[i])
  }

  /** The games of `s` whose key is (d, t), in their order in `s`. */
  function WithKey(s: seq<Game>, d: string, t: string): seq<Game> {
    if |s| == 0 then []
    else (if s[0].date == d && s[0].time == t then [s[0]] else []) + WithKey(s[1..], d, t)
  }

  lemma PrecedesAsymmetric(a: Game, b: Game)
    ensures Precedes(a, b) ==> !Precedes(b, a) && !SameKey(a, b)
  {
    LessAsymmetric(a.date, b.date);
    LessAsymmetric(a.time, b.time);
    LessIrreflexive(a.date);
    LessIrreflexive(a.time);
  }

  /** "Does not precede" is transitive, because ordinal order is a strict total order. */
  lemma NotPrecedesTransitive(a: Game, b: Game, c: Game)
    requires !Precedes(a, b) && !Precedes(b, c)
    ensures !Precedes(a, c)
  {
    LessTotal(a.date, b.date);
    LessTotal(b.date, c.date);
    LessTotal(a.time, b.time);
    LessTotal(b.time, c.time);
    if Precedes(a, c) {
      if Less(c.date, a.date) {
        // b.date lies between, so one of the two premises fails
        if Less(b.date, a.date) {
          LessAsymmetric(b.date, a.date);
        } else if Less(c.date, b.date) {
          LessAsymmetric(c.date, b.date);
        } else {
          LessTransitive(a.date, b.date, c.date);
          LessAsymmetric(c.date, a.date);
        }
      } else {
        LessIrreflexive(a.date);
        if a.date != b.date {
          if Less(a.date, b.date) {
            LessAsymmetric(a.date, b.date);
          }
        } else if Less(c.time, b.time) {
          LessAsymmetric(c.time, b.time);
        } else if Less(b.time, a.time) {
          LessAsymmetric(b.time, a.time);
        } else {
          LessTransitive(a.time, b.time, c.time);
          LessAsymmetric(c.time, a.time);
        }
      }
    }
  }

  lemma {:induction false} WithKeyAppend(a: seq<Game>, b: seq<Game>, d: string, t: string)
    ensures WithKey(a + b, d, t) == WithKey(a, d, t) + WithKey(b, d, t)
  {
    if |a| > 0 {
      WithKeyAppend(a[1..], b, d, t);
      assert (a + b)[0] == a[0];
      assert (a + b)[1..] == a[1..] + b;
      var h := if a[0].date == d && a[0].time == t then [a[0]] else [];
      calc {
        WithKey(a + b, d, t);
        h + WithKey(a[1..] + b, d, t);
        h + (WithKey(a[1..], d, t) + WithKey(b, d, t));
        (h + WithKey(a[1..], d, t)) + WithKey(b, d, t);
      }
    } else {
      assert a + b == b;
    }
  }

  /** Stable insertion of `x` into a sorted sequence: it goes in front of the
      first game it does not follow. */
  function Insert(x: Game, s: seq<Game>): (r: seq<Game>)
    requires Sorted(s)
    ensures Sorted(r)
    ensures multiset(r) == multiset(s) + multiset{x}
    ensures forall d, t :: WithKey(r, d, t) == WithKey([x] + s, d, t)
  {
    if |s| == 0 then [x]
    else if Precedes(s[0], x) then
      var rest := Insert(x, s[1..]);
      InsertBehind(x, s, rest);
      [s[0]] + rest
    else
      InsertInFront(x, s);
      [x] + s
  }

  lemma InsertInFront(x: Game, s: seq<Game>)
    requires Sorted(s) && |s| > 0 && !Precedes(s[0], x)
    ensures Sorted([x] + s)
  {
    forall j | 0 <= j < |s|
      ensures !Precedes(s[j], x)
    {
      if j > 0 {
        NotPrecedesTransitive(s[j], s[0], x);
      }
    }
  }

  lemma InsertBehind(x: Game, s: seq<Game>, rest: seq<Game>)
    requires Sorted(s) && |s| > 0 && Precedes(s[0], x)
    requires Sorted(rest) && multiset(rest) == multiset(s[1..]) + multiset{x}
    requires forall d, t :: WithKey(rest, d, t) == WithKey([x] + s[1..], d, t)
    ensures Sorted([s[0]] + rest)
    ensures multiset([s[0]] + rest) == multiset(s) + multiset{x}
    ensures forall d, t :: WithKey([s[0]] + rest, d, t) == WithKey([x] + s, d, t)
  {
    assert s == [s[0]] + s[1..];
    InsertBehindSorted(x, s, rest);
    forall d, t
      ensures WithKey([s[0]] + rest, d, t) == WithKey([x] + s, d, t)
    {
      InsertBehindStable(x, s, rest, d, t);
    }
  }

  lemma InsertBehindSorted(x: Game, s: seq<Game>, rest: seq<Game>)
    requires Sorted(s) && |s| > 0 && Precedes(s[0], x)
    requires Sorted(rest) && multiset(rest) == multiset(s[1..]) + multiset{x}
    ensures Sorted([s[0]] + rest)
  {
    forall j | 0 <= j < |rest|
      ensures !Precedes(rest[j], s[0])
    {
      assert rest[j] in multiset(rest);
      HeadNotPreceded(x, s, rest[j]);
    }
    var r := [s[0]] + rest;
    forall i, j | 0 <= i < j < |r|
      ensures !Precedes(r[j], r[i])
    {
      if i > 0 {
        assert r[i] == rest[i - 1] && r[j] == rest[j - 1];
      }
    }
  }

  lemma InsertBehindStable(x: Game, s: seq<Game>, rest: seq<Game>, d: string, t: string)
    requires |s| > 0 && Precedes(s[0], x)
    requires WithKey(rest, d, t) == WithKey([x] + s[1..], d, t)
    ensures WithKey([s[0]] + rest, d, t) == WithKey([x] + s, d, t)
  {
    PrecedesAsymmetric(s[0], x);
    WithKeyAppend([s[0]], rest, d, t);
    WithKeyAppend([s[0]], [x] + s[1..], d, t);
    SwapKeys(s[0], x, s[1..], d, t);
    assert [x] + s == [x, s[0]] + s[1..];
  }

  /** Nothing that is `x` or in the tail of a sorted `s` precedes its head,
      when the head precedes `x`. */
  lemma HeadNotPreceded(x: Game, s: seq<Game>, z: Game)
    requires Sorted(s) && |s| > 0 && Precedes(s[0], x)
    requires z in multiset(s[1..]) + multiset{x}
    ensures !Precedes(z, s[0])
  {
    PrecedesAsymmetric(s[0], x);
    if z != x {
      assert z in multiset(s[1..]);
      var k :| 0 <= k < |s[1..]| && s[1..][k] == z;
      assert s[k + 1] == z;
    }
  }

  /** Two games with different keys may swap places without changing any key's subsequence. */
  lemma SwapKeys(y: Game, x: Game, tail: seq<Game>, d: string, t: string)
    requires !SameKey(y, x)
    ensures WithKey([y] + ([x] + tail), d, t) == WithKey([x, y] + tail, d, t)
  {
    WithKeyAppend([y], [x] + tail, d, t);
    WithKeyAppend([x], tail, d, t);
    WithKeyAppend([x, y], tail, d, t);
    WithKeyAppend([x], [y], d, t);
    assert [x] + [y] == [x, y];
    assert ([x, y])[1..] == [y];
  }

  /** Stable sort, descending by Date and then by Time. */
  function SortGames(s: seq<Game>): (r: seq<Game>)
    ensures Sorted(r)
    ensures multiset(r) == multiset(s)
    ensures forall d, t :: WithKey(r, d, t) == WithKey(s, d, t)
  {
    if |s| == 0 then []
    else
      var rest := SortGames(s[1..]);
      assert s == [s[0]] + s[1..];
      assert forall d, t :: WithKey([s[0]] + rest, d, t) == WithKey(s, d, t) by {
        forall d, t
          ensures WithKey([s[0]] + rest, d, t) == WithKey(s, d, t)
        {
          WithKeyAppend([s[0]], rest, d, t);
          WithKeyAppend([s[0]], s[1..], d, t);
        }
      }
      Insert(s[0], rest)
  }

  /** Example: a game of 2024.02.01 is returned before one of 2024.01.01. */
  lemma LaterDateFirst(a: Game, b: Game)
    requires a.date == "2024.02.01" && b.date == "2024.01.01"
    ensures SortGames([b, a]) == [a, b]
  {
    var da, db := a.date, b.date;
    assert da[..6] == db[..6] && da[6] == '2' && db[6] == '1';
    LessAtFirstDifference(db, da, 6);
    assert Precedes(a, b);
    assert SortGames([b, a]) == Insert(b, SortGames([a]));
  }
}
