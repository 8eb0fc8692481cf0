/** How the fetches of one phase share what is left of its budget (internal/poller/poller.go). */
module Budget {
  import opened Common
  import opened Config

  /** withBudgetFraction: the child deadline, `percent` of the time remaining, truncated. */
  function WithBudgetFraction(now: Time, deadline: Time, percent: nat): (child: Time)
    ensures child <= deadline && (now >= deadline || percent >= 100 ==> child == deadline)
    ensures now < deadline && percent < 100 ==>
      100 * (child - now) <= (deadline - now) * percent < 100 * (child - now + 1)
  {
    var remaining := deadline - now;
    if remaining <= 0 then deadline
    else
      var capped := remaining * percent / 100;
      if capped < remaining then now + capped else deadline
  }

  /** One fetch of the phase and the store work that follows it. */
  datatype Fetch = Fetch(percent: nat, used: nat, store: nat)

  /** Every fetch that begins inside its context ends by that context's deadline. */
  predicate KeepsBudgets(now: Time, deadline: Time, fetches: seq<Fetch>)
    decreases |fetches|
  {
    fetches == [] ||
    var f := fetches[0];
    && f.percent <= 100
    && (f.used == 0 || now + f.used <= WithBudgetFraction(now, deadline, f.percent))
    && KeepsBudgets(now + f.used + f.store, deadline, fetches[1..])
  }

  function TotalUsed(fetches: seq<Fetch>): nat {
    if fetches == [] then 0 else fetches[0].used + TotalUsed(fetches[1..])
  }

  /** 100 to the number of fetches. */
  function Whole(fetches: seq<Fetch>): nat {
    if fetches == [] then 1 else 100 * Whole(fetches[1..])
  }

  /** The product of what each fetch leaves, in percent. */
  function Left(fetches: seq<Fetch>): int {
    if fetches == [] then 1 else (100 - fetches[0].percent) * Left(fetches[1..])
  }

  lemma {:induction false} LeftIsPartOfWhole(fetches: seq<Fetch>)
    requires forall i :: 0 <= i < |fetches| ==> fetches[i].percent <= 100
    ensures 0 <= Left(fetches) <= Whole(fetches)
  {
    if fetches == [] {
    } else {
      LeftIsPartOfWhole(fetches[1..]);
      var p, l := fetches[0].percent, Left(fetches[1..]);
      MulMonotone(0, 100 - p, l);
      MulMonotone(100 - p, 100, l);
    }
  }

  lemma {:induction false} PercentsInRange(now: Time, deadline: Time, fetches: seq<Fetch>)
    requires KeepsBudgets(now, deadline, fetches)
    ensures forall i :: 0 <= i < |fetches| ==> fetches[i].percent <= 100
    decreases |fetches|
  {
    if fetches == [] {
    } else {
      PercentsInRange(now + fetches[0].used + fetches[0].store, deadline, fetches[1..]);
    }
  }

  lemma {:induction false} NothingAfterDeadline(now: Time, deadline: Time, fetches: seq<Fetch>)
    requires KeepsBudgets(now, deadline, fetches) && now >= deadline
    ensures TotalUsed(fetches) == 0
    decreases |fetches|
  {
    if fetches == [] {
    } else {
      NothingAfterDeadline(now + fetches[0].used + fetches[0].store, deadline, fetches[1..]);
    }
  }

  /** The step of the product bound: `u` used of `r`, then at most the share `d` of `w` of the rest. */
  lemma ShareStep(r: int, u: int, rest: int, p: int, l: int, w: int)
    requires 0 <= l <= w && 0 <= p <= 100 && 0 <= u && 100 * u <= r * p
    requires w * rest <= (r - u) * (w - l)
    ensures 100 * w * (u + rest) <= r * (100 * w - (100 - p) * l)
  {
    assert 100 * (w * rest) <= 100 * ((r - u) * (w - l));
    assert (r - u) * (w - l) == r * w - r * l - u * w + u * l;
    assert 100 * u * l <= r * p * l by {
      MulMonotone(100 * u, r * p, l);
    }
    assert 100 * w * (u + rest) == 100 * (u * w) + 100 * (w * rest);
    assert r * (100 * w - (100 - p) * l) == 100 * (r * w) - 100 * (r * l) + r * p * l;
  }

  lemma MulMonotone(a: int, b: int, c: int)
    requires a <= b && 0 <= c
    ensures a * c <= b * c
  {}

  /** What one fetch can use of the time remaining. */
  lemma OneFetch(now: Time, deadline: Time, f: Fetch)
    requires now <= deadline && f.percent <= 100
    requires f.used == 0 || now + f.used <= WithBudgetFraction(now, deadline, f.percent)
    ensures 100 * f.used <= (deadline - now) * f.percent
    ensures f.used <= deadline - now
  {
    var r := deadline - now;
    assert r * f.percent >= 0;
    assert r * f.percent <= r * 100 by {
      MulMonotone(f.percent, 100, r);
    }
  }

  /**
   Fetches capped one after another at percentages of what remains, with any store time in between,
   together use at most the budget less the product of what each cap leaves.
   */
  lemma {:induction false} FetchesLeaveAProduct(now: Time, deadline: Time, fetches: seq<Fetch>)
    requires now <= deadline && KeepsBudgets(now, deadline, fetches)
    ensures Whole(fetches) * TotalUsed(fetches) <= (deadline - now) * (Whole(fetches) - Left(fetches))
    decreases |fetches|, 0
  {
    if fetches != [] {
      var f, tail := fetches[0], fetches[1..];
      PercentsInRange(now, deadline, fetches);
      LeftIsPartOfWhole(tail);
      OneFetch(now, deadline, f);
      RestFits(now + f.used + f.store, deadline, tail, deadline - now - f.used);
      hide KeepsBudgets;
      ShareStep(deadline - now, f.used, TotalUsed(tail), f.percent, Left(tail), Whole(tail));
    }
  }

  lemma RestFits(now: Time, deadline: Time, fetches: seq<Fetch>, room: int)
    requires KeepsBudgets(now, deadline, fetches) && room >= 0 && room >= deadline - now
    ensures Whole(fetches) * TotalUsed(fetches) <= room * (Whole(fetches) - Left(fetches))
    decreases |fetches|, 1
  {
    PercentsInRange(now, deadline, fetches);
    LeftIsPartOfWhole(fetches);
    MulMonotone(0, room, Whole(fetches) - Left(fetches));
    if now <= deadline {
      FetchesLeaveAProduct(now, deadline, fetches);
      MulMonotone(deadline - now, room, Whole(fetches) - Left(fetches));
    } else {
      NothingAfterDeadline(now, deadline, fetches);
    }
  }

  /** The four fetches of the phase: the alerts feed, then three storm-report files. */
  function PhaseFetches(used: seq<nat>, store: seq<nat>): seq<Fetch>
    requires |used| == |store| == 4
  {
    [Fetch(ALERTS_FETCH_BUDGET_PERCENT, used[0], store[0]), Fetch(SPC_FETCH_BUDGET_PERCENT, used[1], store[1]),
     Fetch(SPC_FETCH_BUDGET_PERCENT, used[2], store[2]), Fetch(SPC_FETCH_BUDGET_PERCENT, used[3], store[3])]
  }

  lemma PhaseProduct(used: seq<nat>, store: seq<nat>)
    requires |used| == |store| == 4
    ensures
      var f := PhaseFetches(used, store);
      Whole(f) == 100_000_000 && Left(f) == 25_600_000 && TotalUsed(f) == used[0] + used[1] + used[2] + used[3]
  {
    var f := PhaseFetches(used, store);
    assert Whole(f[4..]) == 1 && Left(f[4..]) == 1 && TotalUsed(f[4..]) == 0;
    assert f[3..][1..] == f[4..] && f[2..][1..] == f[3..] && f[1..][1..] == f[2..];
    assert Left(f[3..]) == 80 && Left(f[2..]) == 6_400 && Left(f[1..]) == 512_000;
    assert TotalUsed(f[3..]) == used[3] && TotalUsed(f[2..]) == used[2] + used[3];
    assert TotalUsed(f[1..]) == used[1] + used[2] + used[3];
    assert Whole(f[3..]) == 100 && Whole(f[2..]) == 10_000 && Whole(f[1..]) == 1_000_000;
  }

  /** The fetches of a phase use at most 74.4% of it, so the trailing store work keeps 25.6% less its own pauses. */
  lemma FetchBudgetFloor(now: Time, deadline: Time, used: seq<nat>, store: seq<nat>)
    requires |used| == |store| == 4 && now <= deadline
    requires KeepsBudgets(now, deadline, PhaseFetches(used, store))
    ensures 1000 * (used[0] + used[1] + used[2] + used[3]) <= 744 * (deadline - now)
  {
    FetchesLeaveAProduct(now, deadline, PhaseFetches(used, store));
    PhaseProduct(used, store);
  }

  /** The bound is reached: fetches that take all they may use 744 of every 1000. */
  lemma FetchBudgetIsTight(now: Time)
    ensures KeepsBudgets(now, now + 1000, PhaseFetches([500, 100, 80, 64], [0, 0, 0, 0]))
    ensures TotalUsed(PhaseFetches([500, 100, 80, 64], [0, 0, 0, 0])) == 744
  {
    var f := PhaseFetches([500, 100, 80, 64], [0, 0, 0, 0]);
    PhaseProduct([500, 100, 80, 64], [0, 0, 0, 0]);
    assert f[3..][1..] == f[4..] && f[2..][1..] == f[3..] && f[1..][1..] == f[2..];
    assert KeepsBudgets(now + 744, now + 1000, f[4..]);
    assert KeepsBudgets(now + 680, now + 1000, f[3..]);
    assert KeepsBudgets(now + 600, now + 1000, f[2..]);
    assert KeepsBudgets(now + 500, now + 1000, f[1..]);
  }
}
