/** One attempt at choosing the lions of a puzzle: the lions present in the
    chosen year, shuffled, trimmed to eight, thinned by a further small count,
    with some slots handed to visiting lions, and then validated. Every random
    draw is a parameter; `Drawn` states which values Unity's integer
    `Random.Range(0, n)` can return. The unbounded `goto retry` loop is not
    modelled as a loop: an attempt is Accepted, Rejected (the source retries)
    or Crashed (the source throws), and the lemmas speak of accepted attempts. */
module Selection {
  import opened Common
  import opened Lions

  /** Largest number of lions a puzzle shows. */
  const MaxLions := 8

  /** The weighted table the extra removal count is read from. */
  const ExtraRemovalTable: seq<nat> := [0, 1, 1, 1, 2, 3]

  /** `v` is a value `Random.Range(0, n)` can return: one in [0, n), and 0
      itself when the range is empty. */
  predicate Drawn(v: int, n: int)
  {
    if n <= 0 then v == 0 else 0 <= v < n
  }

  /** `draws` are the values of successive draws `Range(0, n)`,
      `Range(0, n - 1)`, ... as a list of `n` elements shrinks by one per draw. */
  predicate DrawsFor(draws: seq<int>, n: int)
  {
    forall k :: 0 <= k < |draws| ==> Drawn(draws[k], n - k)
  }

  /** A lion's status in `year`; only ever read at observed years, where it is
      `status[year]`. */
  function StatusAt(l: Lion, year: nat): LionStatus
  {
    if year < |l.status| then l.status[year] else Null
  }

  /** The lions of `roster` that are part of the pride in `year`, in order. */
  function PresentIn(roster: seq<Lion>, year: nat): (r: seq<Lion>)
    ensures forall l :: l in r <==> l in roster && StatusAt(l, year) != Null
    ensures multiset(r) <= multiset(roster)
  {
    if |roster| == 0 then []
    else
      assert roster == [roster[0]] + roster[1..];
      (if StatusAt(roster[0], year) != Null then [roster[0]] else []) + PresentIn(roster[1..], year)
  }

  /** `List.RemoveAt(i)`. */
  function RemoveAt<T>(s: seq<T>, i: nat): (r: seq<T>)
    requires i < |s|
    ensures |r| == |s| - 1
    ensures multiset(r) == multiset(s) - multiset{s[i]}
    ensures forall j :: 0 <= j < i ==> r[j] == s[j]
    ensures forall j :: i <= j < |r| ==> r[j] == s[j + 1]
  {
    assert s == s[..i] + [s[i]] + s[i + 1..];
    s[..i] + s[i + 1..]
  }

  /** Removes, one after another, the elements at the drawn positions; a draw
      against an empty list makes `RemoveAt` throw. */
  function RemoveDrawn<T>(s: seq<T>, draws: seq<int>): (r: Result<seq<T>>)
    requires DrawsFor(draws, |s|)
    ensures r.Success? <==> |draws| <= |s|
    ensures r.Success? ==> |r.value| == |s| - |draws| && multiset(r.value) <= multiset(s)
    decreases |draws|
  {
    if |draws| == 0 then Success(s)
    else if |s| == 0 then Failure(IndexOutOfRange)
    else
      var rest := RemoveAt(s, draws[0]);
      assert DrawsFor(draws[1..], |rest|) by {
        forall k | 0 <= k < |draws[1..]| ensures Drawn(draws[1..][k], |rest| - k) {
          assert draws[1..][k] == draws[k + 1];
        }
      }
      RemoveDrawn(rest, draws[1..])
  }

  /** How many draws trimming to eight takes. */
  function Excess(n: nat): nat
  {
    if n > MaxLions then n - MaxLions else 0
  }

  /** `while (lions.Count > 8) lions.RemoveAt(Range(0, lions.Count))`. */
  function Trim<T>(s: seq<T>, draws: seq<int>): (r: seq<T>)
    requires |draws| == Excess(|s|) && DrawsFor(draws, |s|)
    ensures |r| == if |s| > MaxLions then MaxLions else |s|
    ensures multiset(r) <= multiset(s)
    ensures |s| <= MaxLions ==> r == s
  {
    RemoveDrawn(s, draws).value
  }

  /** The extra removal count `{ 0, 1, 1, 1, 2, 3 }[Range(0, 5)]`: the
      exclusive bound never reaches the trailing 3. */
  function ExtraRemovals(pick: int): (n: nat)
    requires Drawn(pick, 5)
    ensures n <= 2
  {
    ExtraRemovalTable[pick]
  }

  /** The lion `new Lion { Name, Male, Status = new LionStatus[16] }` with
      `Status[year] = Visiting`: Null in every other year, and no mother. */
  function VisitorLion(v: (string, bool), year: nat): (l: Lion)
    requires year < Years
    ensures Observed(l) && StatusAt(l, year) == Visiting
    ensures forall y :: 0 <= y < Years && y != year ==> StatusAt(l, y) == Null
  {
    Lion(v.0, None, v.1, seq(Years, y => if y == year then Visiting else Null))
  }

  /** `List.Remove(x)`: drops the first occurrence of `x`, if any. */
  function RemoveFirst<T(==)>(s: seq<T>, x: T): (r: seq<T>)
    ensures x in s ==> |r| == |s| - 1
    ensures x !in s ==> r == s
    ensures forall y :: y in r ==> y in s
  {
    if |s| == 0 then []
    else
      assert s == [s[0]] + s[1..];
      if s[0] == x then s[1..] else [s[0]] + RemoveFirst(s[1..], x)
  }

  /** No two visitors of the pool share a name. */
  predicate DistinctNames(pool: seq<(string, bool)>)
  {
    forall a, b :: 0 <= a < b < |pool| ==> pool[a].0 != pool[b].0
  }

  /** Removing the first occurrence of an element that does not occur earlier
      than position `p` removes position `p`. */
  lemma {:induction false} RemoveFirstAt<T>(s: seq<T>, p: nat)
    requires p < |s|
    requires forall j :: 0 <= j < p ==> s[j] != s[p]
    ensures RemoveFirst(s, s[p]) == RemoveAt(s, p)
  {
    if p > 0 {
      RemoveFirstAt(s[1..], p - 1);
      assert RemoveAt(s, p) == [s[0]] + RemoveAt(s[1..], p - 1);
    }
  }

  /** With distinct names, removing the entry drawn at `p` leaves entries
      whose names are distinct and differ from the drawn one. */
  lemma RemoveDrawnVisitor(pool: seq<(string, bool)>, p: nat)
    requires DistinctNames(pool) && p < |pool|
    ensures RemoveFirst(pool, pool[p]) == RemoveAt(pool, p)
    ensures DistinctNames(RemoveAt(pool, p))
    ensures forall w :: w in RemoveAt(pool, p) ==> w.0 != pool[p].0
  {
    RemoveFirstAt(pool, p);
    RemoveAtKeepsOthers(pool, p);
    RemoveAtDistinct(pool, p);
  }

  lemma RemoveAtKeepsOthers(pool: seq<(string, bool)>, p: nat)
    requires DistinctNames(pool) && p < |pool|
    ensures forall w :: w in RemoveAt(pool, p) ==> w.0 != pool[p].0
  {
    var r := RemoveAt(pool, p);
    forall w | w in r ensures w.0 != pool[p].0 {
      var j :| 0 <= j < |r| && r[j] == w;
      if j < p {
        assert w == pool[j];
      } else {
        assert w == pool[j + 1];
      }
    }
  }

  lemma RemoveAtDistinct(pool: seq<(string, bool)>, p: nat)
    requires DistinctNames(pool) && p < |pool|
    ensures DistinctNames(RemoveAt(pool, p))
  {
    var r := RemoveAt(pool, p);
    forall a, b | 0 <= a < b < |r| ensures r[a].0 != r[b].0 {
      var a' := if a < p then a else a + 1;
      var b' := if b < p then b else b + 1;
      assert r[a] == pool[a'] && r[b] == pool[b'];
    }
  }

  /** The pool entries the visitor loop draws, in the order it draws them:
      each draw indexes the pool left by the previous ones. */
  function DrawVisitors(pool: seq<(string, bool)>, picks: seq<int>): (r: seq<(string, bool)>)
    requires |picks| <= |pool| && DrawsFor(picks, |pool|)
    ensures |r| == |picks|
    ensures forall j :: 0 <= j < |r| ==> r[j] in pool
    decreases |picks|
  {
    if |picks| == 0 then []
    else
      var v := pool[picks[0]];
      var rest := RemoveFirst(pool, v);
      NextPicks(picks, |pool|);
      [v] + DrawVisitors(rest, picks[1..])
  }

  /** No visitor is drawn twice: from a pool of distinct names the drawn
      entries carry distinct names. */
  lemma {:induction false} DrawnVisitorsDistinct(pool: seq<(string, bool)>, picks: seq<int>)
    requires |picks| <= |pool| && DrawsFor(picks, |pool|)
    requires DistinctNames(pool)
    ensures DistinctNames(DrawVisitors(pool, picks))
    decreases |picks|
  {
    if |picks| > 0 {
      var p := picks[0];
      RemoveDrawnVisitor(pool, p);
      var rest := RemoveAt(pool, p);
      NextPicks(picks, |pool|);
      DrawnVisitorsDistinct(rest, picks[1..]);
      var tail := DrawVisitors(rest, picks[1..]);
      var r := DrawVisitors(pool, picks);
      assert r == [pool[p]] + tail;
      assert forall j :: 0 <= j < |tail| ==> tail[j] in rest;
      assert forall j :: 0 <= j < |tail| ==> tail[j].0 != pool[p].0;
    }
  }

  /** The visitor loop `for (i = k; i > 0; i--)`: slot `i` receives the pool
      entry at the next drawn position, which then leaves the pool, so slots
      k, k-1, ..., 1 receive the drawn entries in order. Indexing an empty pool
      throws. */
  function PlaceVisitors(s: seq<Lion>, pool: seq<(string, bool)>, year: nat, i: nat, picks: seq<int>)
    : (r: Result<seq<Lion>>)
    requires year < Years
    requires i == 0 || i < |s|
    requires |picks| == i && DrawsFor(picks, |pool|)
    ensures r.Success? <==> i <= |pool|
    ensures r.Success? ==>
      && |r.value| == |s|
      && (forall j :: 0 <= j < |s| && (j == 0 || j > i) ==> r.value[j] == s[j])
      && (forall j :: 1 <= j <= i ==> r.value[j] == VisitorLion(DrawVisitors(pool, picks)[i - j], year))
    decreases i
  {
    if i == 0 then Success(s)
    else if |pool| == 0 then Failure(IndexOutOfRange)
    else
      var v := pool[picks[0]];
      var rest := RemoveFirst(pool, v);
      NextPicks(picks, |pool|);
      PlaceVisitors(s[i := VisitorLion(v, year)], rest, year, i - 1, picks[1..])
  }

  /** After one draw the remaining draws fit the list one shorter. */
  lemma NextPicks(picks: seq<int>, n: int)
    requires |picks| > 0 && DrawsFor(picks, n)
    ensures DrawsFor(picks[1..], n - 1)
  {
    forall k | 0 <= k < |picks[1..]| ensures Drawn(picks[1..][k], n - 1 - k) {
      assert picks[1..][k] == picks[k + 1];
    }
  }

  // ---------------------------------------------------------------------
  // Validation

  /** A candidate lead huntress: a female that is an adult this year. */
  predicate IsLeadHuntress(l: Lion, year: nat)
  {
    !l.male && StatusAt(l, year) == Adult
  }

  /** `FirstOrDefault(l => !l.Male && l.Status[year] == Adult)`, as a position. */
  function LeadIndex(s: seq<Lion>, year: nat): (r: Option<nat>)
    ensures r.None? <==> forall j :: 0 <= j < |s| ==> !IsLeadHuntress(s[j], year)
    ensures r.Some? ==>
      && r.value < |s|
      && IsLeadHuntress(s[r.value], year)
      && forall j :: 0 <= j < r.value ==> !IsLeadHuntress(s[j], year)
  {
    if |s| == 0 then None
    else if IsLeadHuntress(s[0], year) then Some(0)
    else
      match LeadIndex(s[1..], year)
      case None => None
      case Some(i) => Some(i + 1)
  }

  /** Every unborn cub's mother is among the lions, by name. */
  predicate MothersPresent(s: seq<Lion>, year: nat)
  {
    forall c :: c in s && StatusAt(c, year) == Unborn ==>
      exists m :: m in s && Some(m.name) == c.mother
  }

  /** A lion that receives prey: not unborn, dead or absent. */
  predicate Claimant(l: Lion, year: nat)
  {
    var st := StatusAt(l, year);
    st != Unborn && st != Dead && st != Absent
  }

  function Claimants(s: seq<Lion>, year: nat): nat
  {
    Count(s, l => Claimant(l, year))
  }

  /** `lions.Remove(lead); lions.Insert(0, lead)` for the lead at position `i`. */
  function MoveToFront<T>(s: seq<T>, i: nat): (r: seq<T>)
    requires i < |s|
    ensures |r| == |s| && r[0] == s[i]
    ensures multiset(r) == multiset(s)
    ensures forall j :: 0 <= j < i ==> r[j + 1] == s[j]
    ensures forall j :: i < j < |s| ==> r[j] == s[j]
  {
    assert s == s[..i] + [s[i]] + s[i + 1..];
    [s[i]] + s[..i] + s[i + 1..]
  }

  /** What one pass through the `retry` label comes to. */
  datatype Outcome = Crashed(fault: Fault) | Rejected | Accepted(lions: seq<Lion>)

  /** The three checks and the reordering that follows them. */
  function Validate(s: seq<Lion>, year: nat): (r: Outcome)
    ensures !r.Crashed?
    ensures r.Accepted? <==> LeadIndex(s, year).Some? && MothersPresent(s, year) && Claimants(s, year) >= 2
    ensures r.Accepted? ==>
      var i := LeadIndex(s, year).value;
      && |r.lions| == |s|
      && r.lions[0] == s[i]
      && multiset(r.lions) == multiset(s)
      && IsLeadHuntress(r.lions[0], year)
      && MothersPresent(r.lions, year)
      && Claimants(r.lions, year) >= 2
  {
    match LeadIndex(s, year)
    case None => Rejected
    case Some(i) =>
      if !MothersPresent(s, year) || Claimants(s, year) < 2 then Rejected
      else
        var r := MoveToFront(s, i);
        ReorderKeepsChecks(s, i, year);
        Accepted(r)
  }

  /** Moving one lion to the front changes neither check. */
  lemma ReorderKeepsChecks(s: seq<Lion>, i: nat, year: nat)
    requires i < |s|
    ensures MothersPresent(MoveToFront(s, i), year) == MothersPresent(s, year)
    ensures Claimants(MoveToFront(s, i), year) == Claimants(s, year)
  {
    var r := MoveToFront(s, i);
    assert forall l :: l in r <==> l in s by {
      forall l ensures l in r <==> l in s {
        assert l in r <==> l in multiset(r);
      }
    }
    var p := l => Claimant(l, year);
    assert r == [s[i]] + s[..i] + s[i + 1..];
    assert s == s[..i] + [s[i]] + s[i + 1..];
    CountAppend([s[i]] + s[..i], s[i + 1..], p);
    CountAppend([s[i]], s[..i], p);
    CountAppend(s[..i] + [s[i]], s[i + 1..], p);
    CountAppend(s[..i], [s[i]], p);
  }

  /** The random draws of one attempt, in the order the source makes them. */
  datatype Draws = Draws(
    shuffled: seq<Lion>,       // the present lions after `Shuffle()`
    trim: seq<int>,            // positions removed while more than eight remain
    extraPick: int,            // index into the extra removal table
    extra: seq<int>,           // positions of the extra removals
    visitors: int,             // the loop start `Range(0, lions.Count / 2)`
    visitorPicks: seq<int>)    // positions drawn from the shrinking visitor pool

  /** The draws are ones the source can make for this roster, pool and year:
      the shuffle is a permutation and every draw is in its range. */
  predicate ValidDraws(roster: seq<Lion>, pool: seq<(string, bool)>, year: nat, d: Draws)
  {
    var n := |d.shuffled|;
    var capped := if n > MaxLions then MaxLions else n;
    && multiset(d.shuffled) == multiset(PresentIn(roster, year))
    && |d.trim| == Excess(n) && DrawsFor(d.trim, n)
    && Drawn(d.extraPick, 5)
    && |d.extra| == ExtraRemovals(d.extraPick) && DrawsFor(d.extra, capped)
    && Drawn(d.visitors, (capped - |d.extra|) / 2)
    && |d.visitorPicks| == d.visitors && DrawsFor(d.visitorPicks, |pool|)
  }

  /** A lion made by the visitor loop from an entry of the pool. */
  predicate FromPool(l: Lion, pool: seq<(string, bool)>, year: nat)
    requires year < Years
  {
    (l.name, l.male) in pool && l == VisitorLion((l.name, l.male), year)
  }

  /** The lions one attempt puts forward for validation: at most eight, each
      either a roster lion present this year or a visitor from the pool. */
  function Candidates(roster: seq<Lion>, pool: seq<(string, bool)>, year: nat, d: Draws): (r: Result<seq<Lion>>)
    requires year < Years
    requires ValidDraws(roster, pool, year, d)
    ensures r.Success? ==> |r.value| <= MaxLions
    ensures r.Success? ==> forall j :: 0 <= j < |r.value| ==>
      (r.value[j] in roster && StatusAt(r.value[j], year) != Null) || FromPool(r.value[j], pool, year)
  {
    var trimmed := Trim(d.shuffled, d.trim);
    match RemoveDrawn(trimmed, d.extra)
    case Failure(f) => Failure(f)
    case Success(kept) =>
      KeptArePresent(roster, year, d.shuffled, trimmed, kept);
      var r := PlaceVisitors(kept, pool, year, d.visitors, d.visitorPicks);
      if r.Success? then
        PlacedFrom(kept, pool, year, d.visitors, d.visitorPicks);
        r
      else r
  }

  /** Lions surviving the removals were present in the roster this year. */
  lemma KeptArePresent(roster: seq<Lion>, year: nat, shuffled: seq<Lion>, trimmed: seq<Lion>, kept: seq<Lion>)
    requires multiset(shuffled) == multiset(PresentIn(roster, year))
    requires multiset(trimmed) <= multiset(shuffled)
    requires multiset(kept) <= multiset(trimmed)
    ensures forall l :: l in kept ==> l in roster && StatusAt(l, year) != Null
  {
    forall l | l in kept ensures l in roster && StatusAt(l, year) != Null {
      assert l in multiset(kept);
      assert l in multiset(PresentIn(roster, year));
    }
  }

  /** Every slot after the visitor loop holds a lion it was given or a visitor
      from the pool. */
  lemma PlacedFrom(s: seq<Lion>, pool: seq<(string, bool)>, year: nat, i: nat, picks: seq<int>)
    requires year < Years
    requires i == 0 || i < |s|
    requires |picks| == i && DrawsFor(picks, |pool|)
    requires PlaceVisitors(s, pool, year, i, picks).Success?
    ensures var r := PlaceVisitors(s, pool, year, i, picks).value;
      forall j :: 0 <= j < |r| ==> r[j] in s || FromPool(r[j], pool, year)
  {
    var r := PlaceVisitors(s, pool, year, i, picks).value;
    var drawn := DrawVisitors(pool, picks);
    forall j | 0 <= j < |r| ensures r[j] in s || FromPool(r[j], pool, year) {
      if 1 <= j <= i {
        assert drawn[i - j] in pool;
      }
    }
  }

  /** One attempt: select the candidates, then validate them. */
  function Attempt(roster: seq<Lion>, pool: seq<(string, bool)>, year: nat, d: Draws): (r: Outcome)
    requires year < Years
    requires ValidDraws(roster, pool, year, d)
  {
    match Candidates(roster, pool, year, d)
    case Failure(f) => Crashed(f)
    case Success(lions) => Validate(lions, year)
  }

  /** What every accepted instance satisfies: two to eight lions, all present
      this year; the first female adult of the candidates leads at position 0
      and the rest are the other candidates; every unborn cub's mother is
      there; at least two lions receive prey. */
  lemma AcceptedInstance(roster: seq<Lion>, pool: seq<(string, bool)>, year: nat, d: Draws)
    requires year < Years
    requires forall l <- roster :: Observed(l)
    requires ValidDraws(roster, pool, year, d)
    requires Attempt(roster, pool, year, d).Accepted?
    ensures var inst := Attempt(roster, pool, year, d).lions;
      var cands := Candidates(roster, pool, year, d).value;
      && 2 <= |inst| <= MaxLions
      && IsLeadHuntress(inst[0], year)
      && inst[0] == cands[LeadIndex(cands, year).value]
      && (forall j :: 0 <= j < LeadIndex(cands, year).value ==> !IsLeadHuntress(cands[j], year))
      && multiset(inst) == multiset(cands)
      && MothersPresent(inst, year)
      && Claimants(inst, year) >= 2
      && (forall l <- inst :: Observed(l) && StatusAt(l, year) != Null)
  {
    var inst := Attempt(roster, pool, year, d).lions;
    var cands := Candidates(roster, pool, year, d).value;
    CountAtMostLength(inst, l => Claimant(l, year));
    forall l | l in inst ensures Observed(l) && StatusAt(l, year) != Null {
      assert l in multiset(cands);
      var j :| 0 <= j < |cands| && cands[j] == l;
    }
  }

  /** An attempt throws only on a year with fewer than two lions or a pool of
      fewer than three visitors: trimming leaves at least two lions for at most
      two extra removals, and fewer than four visitors are ever drawn. */
  lemma AttemptDoesNotCrash(roster: seq<Lion>, pool: seq<(string, bool)>, year: nat, d: Draws)
    requires year < Years
    requires ValidDraws(roster, pool, year, d)
    requires |PresentIn(roster, year)| >= 2 && |pool| >= 3
    ensures !Attempt(roster, pool, year, d).Crashed?
  {
    assert |d.shuffled| == |PresentIn(roster, year)| by {
      assert |multiset(d.shuffled)| == |multiset(PresentIn(roster, year))|;
    }
    var trimmed := Trim(d.shuffled, d.trim);
    assert |trimmed| >= 2;
    assert |d.extra| <= 2;
    var kept := RemoveDrawn(trimmed, d.extra);
    assert kept.Success?;
    assert |kept.value| <= MaxLions;
    assert d.visitors <= 3;
    assert PlaceVisitors(kept.value, pool, year, d.visitors, d.visitorPicks).Success?;
  }
}
