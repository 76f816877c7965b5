/** Walking along a sequence of n positions whose last leads back to position m, or
    out of the sequence when m is n; and when a walker meets one twice as fast. */
module Laps {
  import opened Division

  /** The position after k steps from position 0. */
  ghost function Walk(n: nat, m: nat, k: nat): nat {
    if k == 0 then 0
    else
      var p := Walk(n, m, k - 1);
      if p + 1 < n then p + 1 else m
  }

  lemma WalkStep(n: nat, m: nat, k: nat)
    ensures Walk(n, m, k + 1) == if Walk(n, m, k) + 1 < n then Walk(n, m, k) + 1 else m
  {
  }

  lemma {:induction false} StraightWalk(n: nat, k: nat)
    requires k <= n
    ensures Walk(n, n, k) == k
  {
    if k == 0 {
    } else {
      StraightWalk(n, k - 1);
    }
  }

  lemma {:induction false} WalkStaysInside(n: nat, m: nat, k: nat)
    requires m < n
    ensures Walk(n, m, k) < n
  {
    if k == 0 {
    } else {
      WalkStaysInside(n, m, k - 1);
    }
  }

  /** The walk in closed form: straight along the tail, then around the cycle. */
  lemma {:induction false} WalkIs(n: nat, m: nat, k: nat)
    requires m < n
    ensures Walk(n, m, k) == if k < m then k else m + (k - m) % (n - m)
  {
    if k > 0 {
      WalkIs(n, m, k - 1);
      if k > m {
        ModStep(k - 1 - m, n - m);
      } else if k == m {
        ModUnique(0, n - m, 0, 0);
      }
    } else if m == 0 {
      ModUnique(0, n - m, 0, 0);
    }
  }

  /** Walker and double-speed walker stand together exactly inside the cycle and
      after a whole number of laps. */
  lemma TogetherIff(n: nat, m: nat, s: nat)
    requires m < n && s >= 1
    ensures Walk(n, m, s) == Walk(n, m, 2 * s) <==> s >= m && s % (n - m) == 0
  {
    var c := n - m;
    WalkIs(n, m, s);
    WalkIs(n, m, 2 * s);
    if s >= m {
      ModAddIff(s - m, s, c);
      assert s - m + s == 2 * s - m;
    } else if 2 * s >= m {
      assert Walk(n, m, 2 * s) >= m;
    }
  }

  /** The first positive multiple of c that is at least m. */
  ghost function Meeting(m: nat, c: nat): nat
    requires c > 0
  {
    if m <= c then c else Meeting(m - c, c) + c
  }

  lemma AddLap(a: nat, c: nat)
    requires c > 0
    ensures (a + c) % c == a % c
  {
    ModUnique(c, c, 1, 0);
    ModAddIff(a, c, c);
  }

  lemma {:induction false} MeetingBounds(m: nat, c: nat)
    requires c > 0
    ensures Meeting(m, c) % c == 0 && Meeting(m, c) >= m
    ensures 0 < Meeting(m, c) <= m + c
    ensures m > 0 ==> Meeting(m, c) < m + c
    decreases m
  {
    if m <= c {
      ModUnique(c, c, 1, 0);
    } else {
      MeetingBounds(m - c, c);
      AddLap(Meeting(m - c, c), c);
    }
  }

  lemma {:induction false} NoEarlierMultiple(m: nat, c: nat, s: nat)
    requires c > 0 && 1 <= s < Meeting(m, c) && s % c == 0
    ensures s < m
    decreases m
  {
    if s < c {
      ModUnique(s, c, 0, s);
    } else if m > c && s > c {
      AddLap(s - c, c);
      NoEarlierMultiple(m - c, c, s - c);
    }
  }

  /** At Meeting(m, c) the two walkers stand together, and never before. */
  lemma MeetingIsFirst(n: nat, m: nat, s: nat)
    requires m < n && 1 <= s
    ensures Meeting(m, n - m) >= 1
    ensures s <= Meeting(m, n - m) ==>
              (Walk(n, m, s) == Walk(n, m, 2 * s) <==> s == Meeting(m, n - m))
    ensures Walk(n, m, s) < n && Walk(n, m, 2 * s) < n
  {
    var c := n - m;
    TogetherIff(n, m, s);
    MeetingBounds(m, c);
    WalkStaysInside(n, m, s);
    WalkStaysInside(n, m, 2 * s);
    if s < Meeting(m, c) && s % c == 0 {
      NoEarlierMultiple(m, c, s);
    }
  }

  /** Where the two walkers are in round s, on a cyclic and on a straight sequence. */
  lemma Positions(n: nat, m: nat, s: nat, d: nat)
    requires m <= n && 1 <= s && d == 2 * s
    requires if m < n then s <= Meeting(m, n - m) else d <= n
    ensures m < n ==> Walk(n, m, s) < n && Walk(n, m, d) < n && Walk(n, m, d + 1) < n
    ensures m < n ==> (Walk(n, m, s) == Walk(n, m, d) <==> s == Meeting(m, n - m))
    ensures m == n ==> Walk(n, m, s) == s && Walk(n, m, d) == d
    ensures m == n && d < n ==> Walk(n, m, d + 1) == d + 1
  {
    if m < n {
      MeetingIsFirst(n, m, s);
      WalkStaysInside(n, m, d + 1);
    } else {
      StraightWalk(n, s);
      StraightWalk(n, d);
      if d < n {
        StraightWalk(n, d + 1);
      }
    }
  }

  lemma FirstRound(n: nat, m: nat)
    requires m <= n
    ensures m < n ==> 1 <= Meeting(m, n - m) <= n
  {
    if m < n {
      MeetingBounds(m, n - m);
    }
  }
}
